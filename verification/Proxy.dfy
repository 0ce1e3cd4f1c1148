/** The websocket proxy: the frame queues of one client connection and the two-way store-and-forward loop.
    What the kernel does (which sockets are ready, how much a send accepts, what a receive returns) is a script,
    one `Round` per turn of the loop; every statement below holds for every script. */
module Proxy {
  import opened Sequences
  import opened Frames

  // ---------------------------------------------------------------------------------------------
  // The client connection: frames still to be sent, bytes of an incomplete frame
  // ---------------------------------------------------------------------------------------------

  /** The connection, with what its socket has accepted and delivered so far. */
  datatype Client = Client(sendParts: seq<seq<Byte>>, recvPart: seq<Byte>, toClient: seq<Byte>, fromClient: seq<Byte>)

  /** How a connection ends: the target closed, the client closed without a frame, or with one. */
  datatype Status = Running | TargetClosed | ClientVanished | ClientClosed(close: Close)

  function Encoded(bufs: seq<Payload>): (r: seq<seq<Byte>>)
    ensures |r| == |bufs|
  {
    if bufs == [] then [] else [EncodeHybi(bufs[0], OP_BINARY)] + Encoded(bufs[1..])
  }

  /** One call of the socket's send: it takes as much as it accepts, at most the whole buffer. */
  function Accepted(buf: seq<Byte>, accepts: nat): nat {
    if accepts < |buf| then accepts else |buf|
  }

  /** Sending the pending frames in order until one is only partly accepted; a socket whose list of answers is
      used up accepts nothing. */
  function Flush(c: Client, accepts: seq<nat>): Client
    decreases |c.sendParts|
  {
    if c.sendParts == [] then c
    else
      var buf := c.sendParts[0];
      var sent := Accepted(buf, if accepts == [] then 0 else accepts[0]);
      var c' := c.(toClient := c.toClient + buf[..sent]);
      if sent == |buf| then Flush(c'.(sendParts := c.sendParts[1..]), if accepts == [] then [] else accepts[1..])
      else c'.(sendParts := [buf[sent..]] + c.sendParts[1..])
  }

  function SendAll(c: Client, bufs: seq<Payload>, accepts: seq<nat>): Client {
    Flush(c.(sendParts := c.sendParts + Encoded(bufs)), accepts)
  }

  /** What one receive adds: the payloads of the frames it completes, and how the connection ended, if it did. */
  function Received(c: Client, data: seq<Byte>): (Client, seq<seq<Byte>>, Status) {
    var c' := c.(fromClient := c.fromClient + data);
    if data == [] then (c', [], ClientVanished)
    else
      var p := Parse(c.recvPart + data);
      (c'.(recvPart := p.rest), p.bufs, if p.closed.Some? then ClientClosed(p.closed.value) else Running)
  }

  class Connection {
    var sendParts: seq<seq<Byte>>
    var recvPart: seq<Byte>
    var toClient: seq<Byte>
    var fromClient: seq<Byte>

    function Now(): Client
      reads this
    {
      Client(sendParts, recvPart, toClient, fromClient)
    }

    constructor ()
      ensures Now() == Client([], [], [], [])
    {
      sendParts, recvPart, toClient, fromClient := [], [], [], [];
    }

    /** Encodes `bufs`, appends them to the pending frames, sends until the socket stops accepting. Returns the
        number of frames still pending. */
    method SendFrames(bufs: seq<Payload>, accepts: seq<nat>) returns (pending: nat)
      modifies this
      ensures Now() == SendAll(old(Now()), bufs, accepts)
      ensures pending == |sendParts|
    {
      for i := 0 to |bufs|
        invariant Now() == old(Now()).(sendParts := old(sendParts) + Encoded(bufs[..i]))
      {
        EncodedSnoc(bufs[..i], bufs[i]);
        assert bufs[..i] + [bufs[i]] == bufs[..i + 1];
        sendParts := sendParts + [EncodeHybi(bufs[i], OP_BINARY)];
      }
      assert bufs[..|bufs|] == bufs;
      var answers := accepts;
      while sendParts != []
        invariant Flush(Now(), answers) == SendAll(old(Now()), bufs, accepts)
        decreases |sendParts|
      {
        var buf := sendParts[0];
        sendParts := sendParts[1..];
        var sent := Accepted(buf, if answers == [] then 0 else answers[0]);
        answers := if answers == [] then [] else answers[1..];
        toClient := toClient + buf[..sent];
        if sent != |buf| {
          sendParts := [buf[sent..]] + sendParts;
          break;
        }
      }
      return |sendParts|;
    }

    /** Takes in what the socket delivered, `data`, and returns the payloads of the frames that are complete. */
    method RecvFrames(data: seq<Byte>) returns (bufs: seq<seq<Byte>>, closed: Status)
      modifies this
      ensures (Now(), bufs, closed) == Received(old(Now()), data)
    {
      bufs, closed := [], Running;
      fromClient := fromClient + data;
      if data == [] {
        closed := ClientVanished;
        return;
      }
      var buf := recvPart + data;
      recvPart := [];
      ghost var all := Parse(buf);
      while buf != []
        invariant all == Parsed(bufs + Parse(buf).bufs, Parse(buf).closed, Parse(buf).rest)
        invariant closed == Running && recvPart == []
        invariant Now() == old(Now()).(fromClient := old(fromClient) + data, recvPart := [])
        decreases |buf|
      {
        var frame := DecodeHybi(buf);
        DecodeProgress(buf);
        if frame.payload.None? {
          recvPart := buf[|buf| - frame.left..];
          assert recvPart == buf && bufs + [] == bufs;
          break;
        } else if frame.opcode == OP_CLOSE {
          closed := ClientClosed(Close(frame.closeCode, frame.closeReason));
          assert bufs + [] == bufs;
          break;
        }
        ghost var rest := Parse(buf[|buf| - frame.left..]).bufs;
        assert bufs + ([frame.payload.value] + rest) == (bufs + [frame.payload.value]) + rest;
        bufs := bufs + [frame.payload.value];
        buf := buf[|buf| - frame.left..];
      }
      assert all.bufs == bufs;
    }
  }

  lemma {:induction false} EncodedSnoc(bufs: seq<Payload>, b: Payload)
    ensures Encoded(bufs + [b]) == Encoded(bufs) + [EncodeHybi(b, OP_BINARY)]
  {
    if bufs == [] {
      assert [b][1..] == [];
    } else {
      EncodedSnoc(bufs[1..], b);
      assert (bufs + [b])[1..] == bufs[1..] + [b];
    }
  }

  // ---------------------------------------------------------------------------------------------
  // The loop
  // ---------------------------------------------------------------------------------------------

  /** What the kernel does in one turn of the loop. A readiness flag of a socket the loop is not waiting on has
      no effect: select only reports sockets it was given. */
  datatype Round = Round(
    targetWritable: bool, targetAccepts: nat,
    targetReadable: bool, targetData: Payload,
    clientWritable: bool, clientAccepts: seq<nat>,
    clientReadable: bool, clientData: seq<Byte>)

  /** The variables of the loop, the connection, and the traffic with the target so far. */
  datatype State = State(
    tqueue: seq<seq<Byte>>, cqueue: seq<Payload>, cPend: nat,
    client: Client, status: Status, toTarget: seq<Byte>, fromTarget: seq<Payload>)
  {
    /** The client is among the sockets waited on for writing. */
    predicate WatchesClient() { cqueue != [] || cPend != 0 }
  }

  function Start(): State {
    State([], [], 0, Client([], [], [], []), Running, [], [])
  }

  function SendTarget(s: State, accepts: nat): State
    requires s.tqueue != []
  {
    var dat := s.tqueue[0];
    var sent := Accepted(dat, accepts);
    s.(tqueue := if sent == |dat| then s.tqueue[1..] else [dat[sent..]] + s.tqueue[1..],
       toTarget := s.toTarget + dat[..sent])
  }

  function RecvTarget(s: State, buf: Payload): State {
    if buf == [] then s.(status := TargetClosed)
    else s.(cqueue := s.cqueue + [buf], fromTarget := s.fromTarget + [buf])
  }

  function SendClient(s: State, accepts: seq<nat>): State {
    var c := SendAll(s.client, s.cqueue, accepts);
    s.(client := c, cPend := |c.sendParts|, cqueue := [])
  }

  function RecvClient(s: State, data: seq<Byte>): State {
    var (c, bufs, closed) := Received(s.client, data);
    s.(client := c, tqueue := s.tqueue + bufs, status := closed)
  }

  /** The four parts of a turn. What is waited on is decided by the state `s` the turn starts in. */
  function TargetServed(s: State, e: Round): State {
    if s.tqueue != [] && e.targetWritable then SendTarget(s, e.targetAccepts) else s
  }

  function TargetHeard(s: State, e: Round): State {
    if e.targetReadable then RecvTarget(s, e.targetData) else s
  }

  function ClientServed(watched: bool, s: State, e: Round): State {
    if watched && e.clientWritable then SendClient(s, e.clientAccepts) else s
  }

  function ClientHeard(s: State, e: Round): State {
    if e.clientReadable then RecvClient(s, e.clientData) else s
  }

  function Turn(s: State, e: Round): State {
    if s.status != Running then s
    else
      var s2 := TargetHeard(TargetServed(s, e), e);
      if s2.status != Running then s2 else ClientHeard(ClientServed(s.WatchesClient(), s2, e), e)
  }

  function Run(s: State, script: seq<Round>): State {
    if script == [] then s else Turn(Run(s, script[..|script| - 1]), script[|script| - 1])
  }

  /** The loop itself, run until it ends or the script does. */
  method DoProxy(conn: Connection, script: seq<Round>) returns (st: State)
    requires conn.Now() == Start().client
    modifies conn
    ensures st == Run(Start(), script) && st.client == conn.Now()
  {
    var tqueue: seq<seq<Byte>>, cqueue: seq<Payload>, cPend: nat := [], [], 0;
    var toTarget: seq<Byte>, fromTarget: seq<Payload>, status := [], [], Running;
    var i := 0;
    while i < |script| && status == Running
      invariant 0 <= i <= |script|
      invariant State(tqueue, cqueue, cPend, conn.Now(), status, toTarget, fromTarget) == Run(Start(), script[..i])
    {
      var e := script[i];
      RunNext(Start(), script, i);
      i := i + 1;
      ghost var s := State(tqueue, cqueue, cPend, conn.Now(), status, toTarget, fromTarget);
      assert Run(Start(), script[..i]) == Turn(s, e);
      var waitTarget, waitClient := tqueue != [], cqueue != [] || cPend != 0;
      if waitTarget && e.targetWritable {
        var dat := tqueue[0];
        tqueue := tqueue[1..];
        var sent := Accepted(dat, e.targetAccepts);
        toTarget := toTarget + dat[..sent];
        if sent != |dat| {
          tqueue := [dat[sent..]] + tqueue;
        }
      }
      ghost var s1 := TargetServed(s, e);
      assert s1 == State(tqueue, cqueue, cPend, conn.Now(), status, toTarget, fromTarget);
      if e.targetReadable {
        var buf := e.targetData;
        if buf == [] {
          status := TargetClosed;
          continue;
        }
        cqueue := cqueue + [buf];
        fromTarget := fromTarget + [buf];
      }
      ghost var s2 := TargetHeard(s1, e);
      assert s2 == State(tqueue, cqueue, cPend, conn.Now(), status, toTarget, fromTarget);
      if waitClient && e.clientWritable {
        cPend := conn.SendFrames(cqueue, e.clientAccepts);
        cqueue := [];
      }
      assert State(tqueue, cqueue, cPend, conn.Now(), status, toTarget, fromTarget)
          == ClientServed(s.WatchesClient(), s2, e);
      if e.clientReadable {
        var bufs, closed := conn.RecvFrames(e.clientData);
        tqueue := tqueue + bufs;
        status := closed;
      }
    }
    RunStopped(Start(), script, i);
    st := State(tqueue, cqueue, cPend, conn.Now(), status, toTarget, fromTarget);
  }

  lemma RunNext(s: State, script: seq<Round>, i: nat)
    requires i < |script|
    ensures Run(s, script[..i + 1]) == Turn(Run(s, script[..i]), script[i])
  {
    assert script[..i + 1][..i] == script[..i];
  }

  /** Once the loop has ended nothing more happens. */
  lemma {:induction false} RunStopped(s: State, script: seq<Round>, i: nat)
    requires i <= |script|
    requires i < |script| ==> Run(s, script[..i]).status != Running
    ensures Run(s, script) == Run(s, script[..i])
  {
    if i < |script| {
      var last := |script| - 1;
      assert script[..last][..i] == script[..i];
      RunStopped(s, script[..last], i);
      assert Run(s, script) == Turn(Run(s, script[..i]), script[last]);
    } else {
      assert script[..i] == script;
    }
  }
}
