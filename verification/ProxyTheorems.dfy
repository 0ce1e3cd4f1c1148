/** What the proxy loop keeps over every run: while a connection lasts no byte is lost, repeated or reordered in either
    direction, and none is left waiting for ever. */
module ProxyTheorems {
  import opened Sequences
  import opened Frames
  import opened Proxy

  // ---------------------------------------------------------------------------------------------
  // Client to target
  // ---------------------------------------------------------------------------------------------

  /** What the target has accepted, followed by what is queued for it, is what the bytes received from the client
      decode to, taken as one stream however they were cut up on the way. */
  ghost predicate Upstream(s: State) {
    var p := Parse(s.client.fromClient);
    && s.toTarget + Concat(s.tqueue) == Concat(p.bufs)
    && p.closed == (if s.status.ClientClosed? then Some(s.status.close) else None)
    && (!s.status.ClientClosed? ==> s.client.recvPart == p.rest)
  }

  /** Moving the first `n` bytes of a buffer from what is pending to what was sent. */
  lemma SentRegroups(sent: seq<Byte>, buf: seq<Byte>, n: nat, rest: seq<Byte>)
    requires n <= |buf|
    ensures (sent + buf[..n]) + (buf[n..] + rest) == sent + (buf + rest)
  {
    assert buf == buf[..n] + buf[n..];
  }

  lemma SendTargetKeeps(s: State, accepts: nat)
    requires s.tqueue != []
    ensures Upstream(s) ==> Upstream(SendTarget(s, accepts))
    ensures Downstream(s) ==> Downstream(SendTarget(s, accepts))
  {
    var dat, rest := s.tqueue[0], Concat(s.tqueue[1..]);
    var sent := Accepted(dat, accepts);
    SentRegroups(s.toTarget, dat, sent, rest);
    if sent < |dat| {
      assert ([dat[sent..]] + s.tqueue[1..])[1..] == s.tqueue[1..];
    } else {
      assert dat[sent..] + rest == rest;
    }
  }

  lemma RecvClientKeeps(s: State, data: seq<Byte>)
    requires Upstream(s) && s.status == Running
    ensures Upstream(RecvClient(s, data))
    ensures Downstream(s) ==> Downstream(RecvClient(s, data))
  {
    var fc := s.client.fromClient;
    if data == [] {
      assert fc + data == fc && s.tqueue + [] == s.tqueue;
    } else {
      ParseInstalments(fc, data);
      var p, q := Parse(fc), Parse(s.client.recvPart + data);
      ConcatAppend(p.bufs, q.bufs);
      ConcatAppend(s.tqueue, q.bufs);
      ConcatAssociates(s.toTarget, Concat(s.tqueue), Concat(q.bufs));
    }
  }

  ghost predicate NonEmpty(parts: seq<seq<Byte>>) {
    forall i | 0 <= i < |parts| :: parts[i] != []
  }

  lemma {:induction false} FlushKeeps(c: Client, accepts: seq<nat>)
    ensures var c' := Flush(c, accepts);
            && c'.toClient + Concat(c'.sendParts) == c.toClient + Concat(c.sendParts)
            && |c'.toClient| >= |c.toClient|
            && c'.recvPart == c.recvPart && c'.fromClient == c.fromClient
            && (NonEmpty(c.sendParts) ==> NonEmpty(c'.sendParts))
    decreases |c.sendParts|
  {
    if c.sendParts != [] {
      var buf, parts := c.sendParts[0], c.sendParts[1..];
      var sent := Accepted(buf, if accepts == [] then 0 else accepts[0]);
      SentRegroups(c.toClient, buf, sent, Concat(parts));
      if sent == |buf| {
        FlushKeeps(c.(toClient := c.toClient + buf[..sent], sendParts := parts), if accepts == [] then [] else accepts[1..]);
        assert buf[sent..] + Concat(parts) == Concat(parts);
      } else {
        assert ([buf[sent..]] + parts)[1..] == parts;
      }
    }
  }

  // ---------------------------------------------------------------------------------------------
  // Target to client
  // ---------------------------------------------------------------------------------------------

  /** The bytes read from the target that the client has not accepted yet, framed. */
  ghost function Undelivered(s: State): seq<Byte> {
    Concat(s.client.sendParts) + Concat(Encoded(s.cqueue))
  }

  /** What the client has accepted, followed by the frames pending for it, is one frame for each chunk read from
      the target. */
  ghost predicate Downstream(s: State) {
    && s.client.toClient + Undelivered(s) == Concat(Encoded(s.fromTarget))
    && s.cPend == |s.client.sendParts|
    && NonEmpty(s.client.sendParts)
  }

  lemma {:induction false} EncodedNonEmpty(bufs: seq<Payload>)
    ensures NonEmpty(Encoded(bufs))
    ensures bufs != [] ==> Concat(Encoded(bufs)) != []
  {
    if bufs != [] {
      EncodedNonEmpty(bufs[1..]);
    }
  }

  lemma RecvTargetKeeps(s: State, buf: Payload)
    requires Upstream(s) && Downstream(s) && s.status == Running
    ensures Upstream(RecvTarget(s, buf)) && Downstream(RecvTarget(s, buf))
  {
    if buf != [] {
      var w := EncodeHybi(buf, OP_BINARY);
      EncodedSnoc(s.cqueue, buf);
      EncodedSnoc(s.fromTarget, buf);
      ConcatSnoc(Encoded(s.cqueue), w);
      ConcatSnoc(Encoded(s.fromTarget), w);
      ConcatAssociates(Concat(s.client.sendParts), Concat(Encoded(s.cqueue)), w);
      ConcatAssociates(s.client.toClient, Undelivered(s), w);
    }
  }

  lemma SendClientKeeps(s: State, accepts: seq<nat>)
    requires Downstream(s)
    ensures Downstream(SendClient(s, accepts))
    ensures Upstream(s) ==> Upstream(SendClient(s, accepts))
    ensures SendClient(s, accepts).client.fromClient == s.client.fromClient
  {
    var c := s.client.(sendParts := s.client.sendParts + Encoded(s.cqueue));
    EncodedNonEmpty(s.cqueue);
    FlushKeeps(c, accepts);
    ConcatAppend(s.client.sendParts, Encoded(s.cqueue));
    var c' := SendAll(s.client, s.cqueue, accepts);
    assert Concat(c'.sendParts) + [] == Concat(c'.sendParts);
  }

  // ---------------------------------------------------------------------------------------------
  // Every run
  // ---------------------------------------------------------------------------------------------

  lemma ServedTargetKeeps(s: State, e: Round)
    ensures Upstream(s) ==> Upstream(TargetServed(s, e))
    ensures Downstream(s) ==> Downstream(TargetServed(s, e))
  {
    if s.tqueue != [] {
      SendTargetKeeps(s, e.targetAccepts);
    }
  }

  lemma ServedClientKeeps(watched: bool, s: State, e: Round)
    requires Upstream(s) && Downstream(s)
    ensures Upstream(ClientServed(watched, s, e)) && Downstream(ClientServed(watched, s, e))
  {
    SendClientKeeps(s, e.clientAccepts);
  }

  lemma HeardClientKeeps(s: State, e: Round)
    requires Upstream(s) && Downstream(s) && s.status == Running
    ensures Upstream(ClientHeard(s, e)) && Downstream(ClientHeard(s, e))
  {
    RecvClientKeeps(s, e.clientData);
  }

  lemma TurnKeeps(s: State, e: Round)
    requires Upstream(s) && Downstream(s)
    ensures Upstream(Turn(s, e)) && Downstream(Turn(s, e))
  {
    if s.status == Running {
      var s1 := TargetServed(s, e);
      ServedTargetKeeps(s, e);
      var s2 := TargetHeard(s1, e);
      RecvTargetKeeps(s1, e.targetData);
      if s2.status == Running {
        ServedClientKeeps(s.WatchesClient(), s2, e);
        HeardClientKeeps(ClientServed(s.WatchesClient(), s2, e), e);
      }
    }
  }

  /** In every state the loop can reach, running or ended, both streams are preserved. */
  lemma {:induction false} StreamsPreserved(script: seq<Round>)
    ensures Upstream(Run(Start(), script)) && Downstream(Run(Start(), script))
  {
    if script != [] {
      StreamsPreserved(script[..|script| - 1]);
      TurnKeeps(Run(Start(), script[..|script| - 1]), script[|script| - 1]);
    }
  }

  /** The loop waits for the client to become writable exactly while it holds a byte for it: it never forgets
      one, and never spins on a writable client with nothing to send. */
  lemma WatchedIffUndelivered(script: seq<Round>)
    ensures var s := Run(Start(), script);
            s.WatchesClient() <==> s.client.toClient != Concat(Encoded(s.fromTarget))
  {
    var s := Run(Start(), script);
    StreamsPreserved(script);
    EncodedNonEmpty(s.cqueue);
    assert |s.client.toClient + Undelivered(s)| == |s.client.toClient| + |Undelivered(s)|;
    if !s.WatchesClient() {
      assert s.client.toClient + [] == s.client.toClient;
    }
  }

  // ---------------------------------------------------------------------------------------------
  // What the two ends see
  // ---------------------------------------------------------------------------------------------

  lemma ConcatGrows<T>(a: seq<seq<T>>, b: seq<seq<T>>)
    requires a <= b
    ensures Concat(a) <= Concat(b)
  {
    ConcatAppend(a, b[|a|..]);
    assert b == a + b[|a|..];
  }

  /** When the client sends the frames `ms`, then whatever the sizes of the pieces the network delivers them in
      and whatever the target accepts at a time, the target holds a prefix of the payloads in order, up to the first
      close frame if there is one. */
  lemma TargetSeesPrefix(script: seq<Round>, ms: seq<Message>)
    requires Run(Start(), script).client.fromClient <= Wires(ms)
    ensures Run(Start(), script).toTarget <= Concat(Payloads(BeforeClose(ms)))
  {
    StreamsPreserved(script);
    ParseStream(ms);
    DecodedGrows(Run(Start(), script).client.fromClient, Wires(ms));
    TargetPrefix(Run(Start(), script));
  }

  lemma DecodedGrows(s: seq<Byte>, all: seq<Byte>)
    requires s <= all
    ensures Concat(Parse(s).bufs) <= Concat(Parse(all).bufs)
  {
    FoundGrows(s, all);
    ConcatGrows(Parse(s).bufs, Parse(all).bufs);
  }

  lemma TargetPrefix(s: State)
    requires Upstream(s)
    ensures s.toTarget <= Concat(Parse(s.client.fromClient).bufs)
  {
    PrefixOfSum(s.toTarget, Concat(s.tqueue), Concat(Parse(s.client.fromClient).bufs));
  }

  lemma PrefixOfSum<T>(a: seq<T>, b: seq<T>, c: seq<T>)
    requires a + b == c
    ensures a <= c
  {
  }

  function BinaryFrames(bufs: seq<Payload>): seq<Message> {
    if bufs == [] then [] else [BinaryFrame(bufs[0])] + BinaryFrames(bufs[1..])
  }

  function BinaryFrame(buf: Payload): Message {
    Message(128 + OP_BINARY, None, buf)
  }

  lemma FrameIs(buf: Payload)
    ensures EncodeHybi(buf, OP_BINARY) == BinaryFrame(buf).Wire()
  {
    EncodeIsWire(buf, OP_BINARY);
  }

  lemma EncodedFirst(bufs: seq<Payload>)
    requires bufs != []
    ensures Concat(Encoded(bufs)) == EncodeHybi(bufs[0], OP_BINARY) + Concat(Encoded(bufs[1..]))
  {
    ConcatFirst(EncodeHybi(bufs[0], OP_BINARY), Encoded(bufs[1..]));
  }

  lemma FramesFirst(bufs: seq<Payload>)
    requires bufs != []
    ensures Wires(BinaryFrames(bufs)) == BinaryFrame(bufs[0]).Wire() + Wires(BinaryFrames(bufs[1..]))
  {
    OneMore(BinaryFrame(bufs[0]), BinaryFrames(bufs[1..]));
  }

  lemma {:induction false} EncodedAreWires(bufs: seq<Payload>)
    ensures Concat(Encoded(bufs)) == Wires(BinaryFrames(bufs))
  {
    if bufs != [] {
      EncodedAreWires(bufs[1..]);
      FrameIs(bufs[0]);
      EncodedFirst(bufs);
      FramesFirst(bufs);
    }
  }

  lemma {:induction false} FramesCarry(bufs: seq<Payload>)
    ensures Payloads(BinaryFrames(bufs)) == bufs && NoClose(BinaryFrames(bufs))
  {
    if bufs != [] {
      var m, rest := BinaryFrame(bufs[0]), BinaryFrames(bufs[1..]);
      FramesCarry(bufs[1..]);
      OneMore(m, rest);
      assert bufs == [bufs[0]] + bufs[1..];
    }
  }

  lemma ConcatFirst<T>(c: seq<T>, rest: seq<seq<T>>)
    ensures Concat([c] + rest) == c + Concat(rest)
  {
    assert ([c] + rest)[1..] == rest;
  }

  lemma OneMore(m: Message, rest: seq<Message>)
    ensures Payloads([m] + rest) == [m.payload] + Payloads(rest)
    ensures Wires([m] + rest) == m.Wire() + Wires(rest)
    ensures m.Opcode() != OP_CLOSE && NoClose(rest) ==> NoClose([m] + rest)
  {
    assert ([m] + rest)[1..] == rest;
  }

  /** What the client has accepted decodes to the first chunks read from the target, one by one and in order; the
      rest is the beginning of the next frame. */
  lemma ClientSeesPrefix(script: seq<Round>) returns (n: nat)
    ensures var s := Run(Start(), script);
            && n <= |s.fromTarget|
            && Parse(s.client.toClient).bufs == s.fromTarget[..n]
            && Parse(s.client.toClient).closed == None
    ensures !Run(Start(), script).WatchesClient() ==> n == |Run(Start(), script).fromTarget|
  {
    var s := Run(Start(), script);
    StreamsPreserved(script);
    WatchedIffUndelivered(script);
    EncodedAreWires(s.fromTarget);
    FramesCarry(s.fromTarget);
    var ms := BinaryFrames(s.fromTarget);
    n := ParsePrefix(ms, s.client.toClient);
    if !s.WatchesClient() {
      ParseAll(ms);
      assert |Payloads(ms)[..n]| == |Payloads(ms)|;
    }
  }

  /** Only text, binary and continuation frames carry the client's data in RFC 6455; opcodes from 8 up control the
      connection. */
  function DataPayloads(ms: seq<Message>): seq<seq<Byte>> {
    if ms == [] then []
    else (if ms[0].Opcode() < 8 then [ms[0].payload] else []) + DataPayloads(ms[1..])
  }

  /** Every frame that is not data is empty. */
  ghost predicate ControlEmpty(ms: seq<Message>) {
    forall m | m in ms :: m.Opcode() >= 8 ==> m.payload == []
  }

  lemma ControlFirst(ms: seq<Message>)
    requires ms != []
    ensures ControlEmpty(ms) <==> (ms[0].Opcode() >= 8 ==> ms[0].payload == []) && ControlEmpty(ms[1..])
    ensures Concat(Payloads(ms)) == ms[0].payload + Concat(Payloads(ms[1..]))
    ensures Concat(DataPayloads(ms)) == (if ms[0].Opcode() < 8 then ms[0].payload else []) + Concat(DataPayloads(ms[1..]))
  {
    assert ms == [ms[0]] + ms[1..];
    assert Payloads(ms)[1..] == Payloads(ms[1..]);
    if ms[0].Opcode() < 8 {
      assert DataPayloads(ms)[1..] == DataPayloads(ms[1..]);
    } else {
      assert [] + DataPayloads(ms[1..]) == DataPayloads(ms[1..]);
    }
  }

  lemma {:induction false} DataIsShorter(ms: seq<Message>)
    ensures |Concat(DataPayloads(ms))| <= |Concat(Payloads(ms))|
    ensures ControlEmpty(ms) ==> Concat(DataPayloads(ms)) == Concat(Payloads(ms))
    ensures |Concat(DataPayloads(ms))| == |Concat(Payloads(ms))| ==> ControlEmpty(ms)
  {
    if ms != [] {
      DataIsShorter(ms[1..]);
      ControlFirst(ms);
    }
  }

  /** Of the frames `sent`, the first `n` are contained in `fc` in full, and no more. */
  ghost predicate Contains(fc: seq<Byte>, sent: seq<Message>, n: nat) {
    && n <= |sent| && Wires(sent[..n]) <= fc
    && (n < |sent| ==> !(Wires(sent[..n + 1]) <= fc))
  }

  lemma {:induction false} BeforeCloseIs(ms: seq<Message>)
    ensures BeforeClose(ms) <= ms && NoClose(BeforeClose(ms))
  {
    if ms != [] && ms[0].Opcode() != OP_CLOSE {
      BeforeCloseIs(ms[1..]);
      assert ms == [ms[0]] + ms[1..];
    }
  }

  lemma PrefixedBy<T>(a: seq<T>, b: seq<T>, c: seq<T>)
    requires b <= c
    ensures a + b <= a + c
  {
  }

  lemma {:induction false} WiresOfFirst(ms: seq<Message>, n: nat)
    requires n <= |ms|
    ensures Wires(ms[..n]) <= Wires(ms)
  {
    if n > 0 {
      WiresOfFirst(ms[1..], n - 1);
      WiresFirst(ms, n - 1);
      PrefixedBy(ms[0].Wire(), Wires(ms[1..][..n - 1]), Wires(ms[1..]));
    }
  }

  lemma WiresGrow(a: seq<Message>, b: seq<Message>)
    requires a <= b
    ensures Wires(a) <= Wires(b)
  {
    WiresOfFirst(b, |a|);
    assert a == b[..|a|];
  }

  lemma {:induction false} OneFrameMore(ms: seq<Message>, n: nat)
    requires n < |ms|
    ensures Wires(ms[..n + 1]) == Wires(ms[..n]) + ms[n].Wire()
  {
    WiresFirst(ms, n);
    if n > 0 {
      OneFrameMore(ms[1..], n - 1);
      WiresFirst(ms, n - 1);
      assert ms[1..][n - 1] == ms[n];
      ConcatAssociates(ms[0].Wire(), Wires(ms[1..][..n - 1]), ms[n].Wire());
    } else {
      assert ms[0].Wire() + [] == ms[0].Wire();
    }
  }

  lemma {:induction false} PayloadsOfFirst(ms: seq<Message>, n: nat)
    requires n <= |ms|
    ensures Payloads(ms)[..n] == Payloads(ms[..n])
  {
    if n > 0 {
      PayloadsOfFirst(ms[1..], n - 1);
      assert ms[..n][1..] == ms[1..][..n - 1];
    }
  }

  /** What has been found of a stream of frames at any time: the payloads of those before the first close frame that
      are there in full. */
  lemma FoundSoFar(ms: seq<Message>, fc: seq<Byte>) returns (n: nat)
    requires fc <= Wires(ms)
    ensures Contains(fc, BeforeClose(ms), n) && Parse(fc).bufs == Payloads(BeforeClose(ms)[..n])
  {
    var sent := BeforeClose(ms);
    BeforeCloseIs(ms);
    WiresGrow(sent, ms);
    if fc <= Wires(sent) {
      n := ParsePrefix(sent, fc);
      PayloadsOfFirst(sent, n);
      if n < |sent| {
        OneFrameMore(sent, n);
      }
    } else {
      n := |sent|;
      assert sent[..n] == sent;
      EitherFirst(fc, Wires(sent), Wires(ms));
      FoundAll(ms, fc);
    }
  }

  lemma EitherFirst<T>(a: seq<T>, b: seq<T>, all: seq<T>)
    requires a <= all && b <= all && !(a <= b)
    ensures b <= a
  {
  }

  lemma FoundAll(ms: seq<Message>, fc: seq<Byte>)
    requires fc <= Wires(ms) && Wires(BeforeClose(ms)) <= fc
    ensures Parse(fc).bufs == Payloads(BeforeClose(ms))
  {
    var sent := BeforeClose(ms);
    BeforeCloseIs(ms);
    ParseAll(sent);
    ParseStream(ms);
    FoundGrows(Wires(sent), fc);
    FoundGrows(fc, Wires(ms));
  }

  lemma FoundGrows(s: seq<Byte>, all: seq<Byte>)
    requires s <= all
    ensures Parse(s).bufs <= Parse(all).bufs
  {
    assert all == s + all[|s|..];
    ParseGrows(s, all[|s|..]);
  }

  /** The decoder does not tell control frames from data frames. At any time, of the frames that have arrived before the
      client closed, the bytes sent and queued for the target are the data exactly when every ping and pong is empty. */
  lemma ControlFramesReachTarget(script: seq<Round>, ms: seq<Message>) returns (n: nat)
    requires Run(Start(), script).client.fromClient <= Wires(ms)
    ensures Contains(Run(Start(), script).client.fromClient, BeforeClose(ms), n)
    ensures var s, sent := Run(Start(), script), BeforeClose(ms)[..n];
            s.toTarget + Concat(s.tqueue) == Concat(DataPayloads(sent)) <==> ControlEmpty(sent)
    ensures Run(Start(), script).client.fromClient == Wires(ms) ==> n == |BeforeClose(ms)|
  {
    var fc := Run(Start(), script).client.fromClient;
    StreamsPreserved(script);
    n := FoundSoFar(ms, fc);
    DataIsShorter(BeforeClose(ms)[..n]);
    BeforeCloseIs(ms);
    if n < |BeforeClose(ms)| {
      WiresGrow(BeforeClose(ms)[..n + 1], ms);
    }
  }

  // ---------------------------------------------------------------------------------------------
  // Draining
  // ---------------------------------------------------------------------------------------------

  /** The work left for the target: bytes and chunks queued. */
  ghost function Backlog(s: State): nat {
    |Concat(s.tqueue)| + |s.tqueue|
  }

  /** How many of the rounds find the target, or the client, ready to be written to. */
  function TargetTurns(script: seq<Round>): nat {
    if script == [] then 0
    else TargetTurns(script[..|script| - 1]) + if script[|script| - 1].targetWritable then 1 else 0
  }

  function ClientTurns(script: seq<Round>): nat {
    if script == [] then 0
    else ClientTurns(script[..|script| - 1]) + if script[|script| - 1].clientWritable then 1 else 0
  }

  /** A target that is ready takes at least one byte of what it is offered. */
  predicate TargetTakes(e: Round) {
    e.targetWritable ==> e.targetAccepts >= 1
  }

  /** A client that is ready takes at least one byte of what it is offered. */
  predicate ClientTakes(e: Round) {
    e.clientWritable ==> e.clientAccepts != [] && e.clientAccepts[0] >= 1
  }

  /** Of the target's queue the first `k` chunks, and the work they are. */
  ghost function Front(s: State, k: nat): seq<Byte>
    requires k <= |s.tqueue|
  {
    Concat(s.tqueue[..k])
  }

  lemma SendFront(s: State, accepts: nat, k: nat) returns (k': nat)
    requires s.tqueue != [] && 0 < k <= |s.tqueue| && accepts >= 1
    ensures var s' := SendTarget(s, accepts);
            && k' <= |s'.tqueue| && s'.toTarget + Front(s', k') == s.toTarget + Front(s, k)
            && |Front(s', k')| + k' < |Front(s, k)| + k
            && (k == |s.tqueue| ==> k' == |s'.tqueue|)
  {
    var dat, s' := s.tqueue[0], SendTarget(s, accepts);
    var sent := Accepted(dat, accepts);
    k' := if sent == |dat| then k - 1 else k;
    assert s.tqueue[..k][1..] == s.tqueue[1..][..k - 1];
    SentRegroups(s.toTarget, dat, sent, Concat(s.tqueue[1..][..k - 1]));
    if sent == |dat| {
      assert dat[sent..] + Front(s', k') == Front(s', k');
    } else {
      assert s'.tqueue[..k][1..] == s.tqueue[1..][..k - 1];
    }
  }

  lemma FlushShrinks(c: Client, accepts: seq<nat>)
    requires c.sendParts != [] && c.sendParts[0] != []
    requires NonEmpty(c.sendParts)
    requires accepts != [] && accepts[0] >= 1
    ensures |Flush(c, accepts).toClient| > |c.toClient|
  {
    var buf := c.sendParts[0];
    var sent := Accepted(buf, accepts[0]);
    if sent == |buf| {
      FlushKeeps(c.(toClient := c.toClient + buf[..sent], sendParts := c.sendParts[1..]), accepts[1..]);
    }
  }

  /** In one round the first `k` chunks get less if the target is ready, and never more. */
  lemma TargetTurn(s: State, e: Round, k: nat) returns (k': nat)
    requires s.status == Running && TargetTakes(e) && 0 < k <= |s.tqueue|
    ensures var s' := Turn(s, e);
            && k' <= |s'.tqueue| && s'.toTarget + Front(s', k') == s.toTarget + Front(s, k)
            && |Front(s', k')| + k' <= |Front(s, k)| + k - (if e.targetWritable then 1 else 0)
            && (k == |s.tqueue| && !e.clientReadable ==> k' == |s'.tqueue|)
  {
    k' := k;
    if e.targetWritable {
      k' := SendFront(s, e.targetAccepts, k);
    }
    AfterSending(s, e, k');
  }

  /** What the target has accepted stays accepted. */
  lemma TargetKeeps(s: State, e: Round)
    ensures s.toTarget <= Turn(s, e).toTarget
    ensures s.tqueue == [] && !e.clientReadable ==> Turn(s, e).tqueue == []
  {
  }

  /** The rest of the round only adds to the queue. */
  lemma AfterSending(s: State, e: Round, k: nat)
    requires s.status == Running && k <= |TargetServed(s, e).tqueue|
    ensures var s1, s' := TargetServed(s, e), Turn(s, e);
            && s1.tqueue <= s'.tqueue && s'.tqueue[..k] == s1.tqueue[..k]
            && (!e.clientReadable ==> s'.tqueue == s1.tqueue) && s'.toTarget == s1.toTarget
  {
  }

  lemma FlushReceivesNothing(c: Client, bufs: seq<Payload>, accepts: seq<nat>)
    ensures SendAll(c, bufs, accepts).fromClient == c.fromClient
  {
    FlushKeeps(c.(sendParts := c.sendParts + Encoded(bufs)), accepts);
  }

  lemma SendClientGrows(s: State, accepts: seq<nat>)
    requires Downstream(s)
    ensures |SendClient(s, accepts).client.toClient| >= |s.client.toClient|
    ensures s.WatchesClient() && accepts != [] && accepts[0] >= 1
        ==> |SendClient(s, accepts).client.toClient| > |s.client.toClient|
  {
    var c := s.client.(sendParts := s.client.sendParts + Encoded(s.cqueue));
    EncodedNonEmpty(s.cqueue);
    FlushKeeps(c, accepts);
    if s.WatchesClient() && accepts != [] && accepts[0] >= 1 {
      FlushShrinks(c, accepts);
    }
  }

  /** In one round of a lasting connection the client gets more if it is ready and something waits for it. */
  lemma ClientTurn(s: State, e: Round)
    requires Upstream(s) && Downstream(s) && s.status == Running && ClientTakes(e) && Turn(s, e).status == Running
    ensures var s' := Turn(s, e);
            && |s'.client.toClient| >= |s.client.toClient| + (if s.WatchesClient() && e.clientWritable then 1 else 0)
            && s.fromTarget <= s'.fromTarget && (!e.targetReadable ==> s'.fromTarget == s.fromTarget)
  {
    var s2 := TargetHeard(TargetServed(s, e), e);
    TargetSide(s, e);
    ServedClientGrows(s.WatchesClient(), s2, e);
    HeardKeepsTraffic(ClientServed(s.WatchesClient(), s2, e), e);
  }

  lemma TargetSide(s: State, e: Round)
    requires Upstream(s) && Downstream(s) && s.status == Running
    ensures var s2 := TargetHeard(TargetServed(s, e), e);
            && Downstream(s2) && s2.client == s.client && (s.WatchesClient() ==> s2.WatchesClient())
            && s.fromTarget <= s2.fromTarget && (!e.targetReadable ==> s2.fromTarget == s.fromTarget)
  {
    var s1 := TargetServed(s, e);
    ServedTargetKeeps(s, e);
    assert s1.client == s.client && s1.cqueue == s.cqueue && s1.fromTarget == s.fromTarget && s1.status == s.status;
    HeardKeeps(s1, e);
    HeardTarget(s1, e);
  }

  lemma HeardKeeps(s: State, e: Round)
    requires Upstream(s) && Downstream(s) && s.status == Running
    ensures Downstream(TargetHeard(s, e))
  {
    RecvTargetKeeps(s, e.targetData);
  }

  lemma HeardTarget(s: State, e: Round)
    ensures var s2 := TargetHeard(s, e);
            && s2.client == s.client && (s.WatchesClient() ==> s2.WatchesClient())
            && s.fromTarget <= s2.fromTarget && (!e.targetReadable ==> s2.fromTarget == s.fromTarget)
  {
    ChunkAdded(s.fromTarget, e.targetData);
  }

  lemma ChunkAdded<T>(a: seq<T>, x: T)
    ensures a <= a + [x]
  {
  }

  lemma ServedClientGrows(watched: bool, s: State, e: Round)
    requires Downstream(s) && ClientTakes(e) && (watched ==> s.WatchesClient())
    ensures var s' := ClientServed(watched, s, e);
            && |s'.client.toClient| >= |s.client.toClient| + (if watched && e.clientWritable then 1 else 0)
            && s'.fromTarget == s.fromTarget
  {
    SendClientGrows(s, e.clientAccepts);
  }

  lemma HeardKeepsTraffic(s: State, e: Round)
    ensures ClientHeard(s, e).client.toClient == s.client.toClient && ClientHeard(s, e).fromTarget == s.fromTarget
  {
  }

  lemma RunningBefore(s: State, script: seq<Round>)
    requires script != [] && Run(s, script).status == Running
    ensures Run(s, script[..|script| - 1]).status == Running
  {
  }

  lemma {:induction false} TargetRun(s: State, script: seq<Round>) returns (k: nat)
    requires Run(s, script).status == Running && forall e | e in script :: TargetTakes(e)
    ensures var s', goal := Run(s, script), s.toTarget + Concat(s.tqueue);
            && k <= |s'.tqueue|
            && (k > 0 ==> s'.toTarget + Front(s', k) == goal
                          && |Front(s', k)| + k + TargetTurns(script) <= Backlog(s))
            && (k == 0 ==> goal <= s'.toTarget)
            && ((forall e | e in script :: !e.clientReadable) ==> k == |s'.tqueue|)
  {
    if script == [] {
      k := |s.tqueue|;
      assert s.tqueue[..k] == s.tqueue;
    } else {
      var last := |script| - 1;
      RunningBefore(s, script);
      k := TargetRun(s, script[..last]);
      var before, e := Run(s, script[..last]), script[last];
      TargetKeeps(before, e);
      if k > 0 {
        k := TargetTurn(before, e, k);
        assert Front(Run(s, script), 0) == [];
      }
    }
  }

  lemma EncodedGrows(a: seq<Payload>, b: seq<Payload>)
    requires a <= b
    ensures Concat(Encoded(a)) <= Concat(Encoded(b))
  {
    EncodedAppend(a, b[|a|..]);
    assert b == a + b[|a|..];
    ConcatGrows(Encoded(a), Encoded(b));
  }

  lemma {:induction false} EncodedAppend(a: seq<Payload>, b: seq<Payload>)
    ensures Encoded(a + b) == Encoded(a) + Encoded(b)
  {
    if a == [] {
      assert a + b == b;
    } else {
      EncodedAppend(a[1..], b);
      assert (a + b)[1..] == a[1..] + b && (a + b)[0] == a[0];
      ConcatAssociates([EncodeHybi(a[0], OP_BINARY)], Encoded(a[1..]), Encoded(b));
    }
  }

  lemma NotWatchedAllSent(s: State)
    requires Downstream(s) && !s.WatchesClient()
    ensures s.client.toClient == Concat(Encoded(s.fromTarget))
  {
    assert s.client.toClient + [] == s.client.toClient;
  }

  lemma {:induction false} ClientRun(s: State, script: seq<Round>)
    requires Upstream(s) && Downstream(s)
    requires Run(s, script).status == Running && forall e | e in script :: ClientTakes(e)
    ensures var s', all := Run(s, script), |Concat(Encoded(s.fromTarget))|;
            && Upstream(s') && Downstream(s') && s.fromTarget <= s'.fromTarget
            && ((forall e | e in script :: !e.targetReadable) ==> s'.fromTarget == s.fromTarget)
            && (|s'.client.toClient| >= |s.client.toClient| + ClientTurns(script) || |s'.client.toClient| >= all)
  {
    if script != [] {
      var last := |script| - 1;
      RunningBefore(s, script);
      ClientRun(s, script[..last]);
      var before := Run(s, script[..last]);
      ClientTurn(before, script[last]);
      TurnKeeps(before, script[last]);
      if !before.WatchesClient() {
        NotWatchedAllSent(before);
        EncodedGrows(s.fromTarget, before.fromTarget);
      }
    }
  }

  lemma {:induction false} RunAppend(s: State, a: seq<Round>, b: seq<Round>)
    ensures Run(s, a + b) == Run(Run(s, a), b)
  {
    if b == [] {
      assert a + b == a;
    } else {
      var n := |b| - 1;
      RunAppend(s, a, b[..n]);
      assert (a + b)[..|a + b| - 1] == a + b[..n];
    }
  }

  /** The target gets everything: whatever was received from the client at some point has reached it after as many
      further rounds that find it ready as there were bytes and chunks queued, whatever else arrives and happens in
      between, as long as the connection lasts. If nothing more comes from the client, nothing is left queued. */
  lemma TargetDrains(before: seq<Round>, rest: seq<Round>)
    requires Run(Start(), before + rest).status == Running && forall e | e in rest :: TargetTakes(e)
    requires TargetTurns(rest) >= Backlog(Run(Start(), before))
    ensures var s, s' := Run(Start(), before), Run(Start(), before + rest);
            && Concat(Parse(s.client.fromClient).bufs) <= s'.toTarget
            && ((forall e | e in rest :: !e.clientReadable) ==>
                  s'.tqueue == [] && s'.toTarget == Concat(Parse(s.client.fromClient).bufs))
  {
    RunAppend(Start(), before, rest);
    StreamsPreserved(before);
    var s, s' := Run(Start(), before), Run(Start(), before + rest);
    var k := TargetRun(s, rest);
    if forall e | e in rest :: !e.clientReadable {
      ReceivesNothing(s, rest);
      StreamsPreserved(before + rest);
      assert s'.toTarget + [] == s'.toTarget;
    }
  }

  lemma {:induction false} ReceivesNothing(s: State, script: seq<Round>)
    requires forall e | e in script :: !e.clientReadable
    ensures Run(s, script).client.fromClient == s.client.fromClient
  {
    if script != [] {
      var last := |script| - 1;
      ReceivesNothing(s, script[..last]);
      var b, e := Run(s, script[..last]), script[last];
      FlushReceivesNothing(b.client, b.cqueue, e.clientAccepts);
      if e.targetReadable {
        FlushReceivesNothing(b.client, b.cqueue + [e.targetData], e.clientAccepts);
      }
    }
  }

  /** So does the client: one frame for every chunk read from the target at some point has reached it after as many
      further rounds that find it ready as there were undelivered bytes, whatever else happens. If nothing more comes
      from the target, nothing is left waiting. */
  lemma ClientDrains(before: seq<Round>, rest: seq<Round>)
    requires Run(Start(), before + rest).status == Running && forall e | e in rest :: ClientTakes(e)
    requires ClientTurns(rest) >= |Undelivered(Run(Start(), before))|
    ensures var s, s' := Run(Start(), before), Run(Start(), before + rest);
            && Concat(Encoded(s.fromTarget)) <= s'.client.toClient
            && ((forall e | e in rest :: !e.targetReadable) ==>
                  !s'.WatchesClient() && s'.client.toClient == Concat(Encoded(s.fromTarget)))
  {
    RunAppend(Start(), before, rest);
    StreamsPreserved(before);
    var s, s' := Run(Start(), before), Run(Start(), before + rest);
    ClientRun(s, rest);
    WatchedIffUndelivered(before + rest);
    EncodedGrows(s.fromTarget, s'.fromTarget);
    LongEnough(s'.client.toClient, Undelivered(s'), Concat(Encoded(s.fromTarget)));
  }

  lemma LongEnough<T>(a: seq<T>, b: seq<T>, c: seq<T>)
    requires c <= a + b && |c| <= |a|
    ensures c <= a && (c == a + b ==> a == c)
  {
  }
}
