/** How a connection ends: with which request, what is dropped, and what the client reads of the close frame. */
module ProxyClosing {
  import opened Sequences
  import opened Frames
  import opened Proxy
  import opened Powers
  import opened ProxyTheorems

  /** A close frame of the client ends the loop with the request it carries, and every payload before it, and nothing
      after it, has been sent to the target or is queued for it. */
  lemma CloseEndsLoop(script: seq<Round>, ms: seq<Message>, m: Message, rest: seq<Byte>)
    requires NoClose(ms) && m.Opcode() == OP_CLOSE
    requires Run(Start(), script).client.fromClient == Wires(ms) + (m.Wire() + rest)
    ensures var s := Run(Start(), script);
            s.status == ClientClosed(CloseRequest(m)) && s.toTarget + Concat(s.tqueue) == Concat(Payloads(ms))
  {
    StreamsPreserved(script);
    ParseUntilClose(ms, m, rest);
  }

  /** A close frame with a code and a reason, masked or not. */
  function Closing(code: nat, reason: seq<Byte>, mask: Option<Mask>): Message
    requires |reason| + 2 < Pow256(8)
  {
    Message(128 + OP_CLOSE, mask, Pack(code, 2) + reason)
  }

  /** The close frame the server answers with repeats code and reason exactly when the reason is not one byte long. */
  lemma CloseIsAnswered(script: seq<Round>, ms: seq<Message>, code: nat, reason: seq<Byte>, mask: Option<Mask>, rest: seq<Byte>)
    requires NoClose(ms) && code < 65536 && |reason| + 2 < Pow256(8)
    requires Run(Start(), script).client.fromClient == Wires(ms) + (Closing(code, reason, mask).Wire() + rest)
    ensures var s := Run(Start(), script);
            && s.status.ClientClosed? && s.status.close.code == code && |s.status.close.reason| <= |reason|
            && (CloseFrame(s.status.close.code, s.status.close.reason) == CloseFrame(code, reason) <==> |reason| != 1)
  {
    RequestIs(code, reason, mask);
    CloseEndsLoop(script, ms, Closing(code, reason, mask), rest);
    AnswerRepeats(Run(Start(), script).status, code, reason);
  }

  lemma RequestIs(code: nat, reason: seq<Byte>, mask: Option<Mask>)
    requires code < 65536 && |reason| + 2 < Pow256(8)
    ensures CloseRequest(Closing(code, reason, mask)) == Close(code, if |reason| == 1 then [] else reason)
    ensures Closing(code, reason, mask).Opcode() == OP_CLOSE
  {
    ClosePayload(code, reason);
  }

  lemma AnswerRepeats(status: Status, code: nat, reason: seq<Byte>)
    requires code < 65536 && |reason| + 2 < Pow256(8)
    requires status == ClientClosed(Close(code, if |reason| == 1 then [] else reason))
    ensures |status.close.reason| <= |reason|
    ensures CloseFrame(code, status.close.reason) == CloseFrame(code, reason) <==> |reason| != 1
  {
    if |reason| == 1 {
      CloseFramesDiffer(code, reason);
    }
  }

  lemma CloseFramesDiffer(code: nat, reason: seq<Byte>)
    requires code < 65536 && |reason| == 1
    ensures |reason| + 2 < Pow256(8) && CloseFrame(code, []) != CloseFrame(code, reason)
  {
    assert Pow256(4) == 0x1_0000_0000;
    assert |CloseFrame(code, reason)| == 5 && |CloseFrame(code, [])| == 4;
  }

  // ---------------------------------------------------------------------------------------------
  // What is dropped
  // ---------------------------------------------------------------------------------------------

  /** The payloads the client's delivery completes in a round. */
  function Delivered(s: State, e: Round): seq<seq<Byte>> {
    Received(s.client, e.clientData).1
  }

  /** What a connection drops when it ends. Nothing happens afterwards, so what is queued then never arrives. When the
      target closes, the client gets nothing in that round: all that was undelivered before stays so, and the client has
      everything exactly when the loop was not waiting for it. When the client closes, nothing it sent in its last
      delivery reaches the target, which has everything exactly when this round emptied its queue and that delivery
      carried no payload. */
  lemma ExitDrops(script: seq<Round>, e: Round, more: seq<Round>)
    requires Run(Start(), script).status == Running && Run(Start(), script + [e]).status != Running
    ensures var s, s' := Run(Start(), script), Run(Start(), script + [e]);
            && Run(Start(), script + [e] + more) == s'
            && s'.toTarget + Concat(s'.tqueue) == Concat(Parse(s'.client.fromClient).bufs)
            && s'.client.toClient + Undelivered(s') == Concat(Encoded(s'.fromTarget))
    ensures var s, s' := Run(Start(), script), Run(Start(), script + [e]);
            s'.status.TargetClosed? ==>
              && s'.client == s.client && s'.fromTarget == s.fromTarget && Undelivered(s') == Undelivered(s)
              && (s'.client.toClient == Concat(Encoded(s'.fromTarget)) <==> !s.WatchesClient())
    ensures var s, s' := Run(Start(), script), Run(Start(), script + [e]);
            !s'.status.TargetClosed? ==>
              && s'.toTarget <= Concat(Parse(s.client.fromClient).bufs)
              && (s'.toTarget == Concat(Parse(s'.client.fromClient).bufs)
                  <==> Concat(TargetServed(s, e).tqueue) == [] && Concat(Delivered(s, e)) == [])
  {
    NothingAfterwards(script, e, more);
    StreamsPreserved(script);
    StreamsPreserved(script + [e]);
    WatchedIffUndelivered(script);
    LastRound(Run(Start(), script), e);
    ReachedAll(Run(Start(), script), e);
  }

  lemma NothingAfterwards(script: seq<Round>, e: Round, more: seq<Round>)
    requires Run(Start(), script + [e]).status != Running
    ensures Run(Start(), script + [e]) == Turn(Run(Start(), script), e) == Run(Start(), script + [e] + more)
  {
    var all := script + [e];
    assert all[..|all| - 1] == script && all[|all| - 1] == e;
    assert (all + more)[..|all|] == all;
    RunStopped(Start(), all + more, |all|);
  }

  lemma LastRound(s: State, e: Round)
    requires Upstream(s) && s.status == Running && Turn(s, e).status != Running
    ensures var s' := Turn(s, e);
            && (s'.status.TargetClosed? ==> s'.client == s.client && s'.fromTarget == s.fromTarget
                                            && Undelivered(s') == Undelivered(s))
            && s'.toTarget <= Concat(Parse(s.client.fromClient).bufs)
  {
    AfterSending(s, e, 0);
    ServedTargetKeeps(s, e);
    TargetPrefix(TargetServed(s, e));
  }

  /** What the target's queue holds when the client has closed. */
  lemma LastQueue(s: State, e: Round)
    requires s.status == Running && Turn(s, e).status != Running && !Turn(s, e).status.TargetClosed?
    ensures Turn(s, e).tqueue == TargetServed(s, e).tqueue + Delivered(s, e)
  {
    var s2 := TargetHeard(TargetServed(s, e), e);
    var s3 := ClientServed(s.WatchesClient(), s2, e);
    FlushKeeps(s2.client.(sendParts := s2.client.sendParts + Encoded(s2.cqueue)), e.clientAccepts);
    assert s3.client.recvPart == s.client.recvPart && s3.tqueue == TargetServed(s, e).tqueue;
    assert Turn(s, e) == ClientHeard(s3, e);
  }

  lemma ReachedAll(s: State, e: Round)
    requires s.status == Running && Turn(s, e).status != Running && Upstream(Turn(s, e))
    ensures var s' := Turn(s, e);
            !s'.status.TargetClosed? ==>
              (s'.toTarget == Concat(Parse(s'.client.fromClient).bufs)
               <==> Concat(TargetServed(s, e).tqueue) == [] && Concat(Delivered(s, e)) == [])
  {
    var s' := Turn(s, e);
    if !s'.status.TargetClosed? {
      LastQueue(s, e);
      ConcatAppend(TargetServed(s, e).tqueue, Delivered(s, e));
      WholeSum(s'.toTarget, Concat(s'.tqueue), Concat(Parse(s'.client.fromClient).bufs));
    }
  }

  lemma WholeSum<T>(a: seq<T>, b: seq<T>, c: seq<T>)
    requires a + b == c
    ensures a == c <==> b == []
  {
    assert |c| == |a| + |b|;
  }

  // ---------------------------------------------------------------------------------------------
  // The close frame on its way
  // ---------------------------------------------------------------------------------------------

  lemma WiresAt(ms: seq<Message>, n: nat)
    requires n < |ms|
    ensures Wires(ms[..n]) + ms[n].Wire() <= Wires(ms)
  {
    OneFrameMore(ms, n);
    WiresOfFirst(ms, n + 1);
  }

  lemma {:induction false} BinaryAt(bufs: seq<Payload>, n: nat)
    ensures |BinaryFrames(bufs)| == |bufs|
    ensures n < |bufs| ==> BinaryFrames(bufs)[n] == BinaryFrame(bufs[n])
  {
    if bufs != [] {
      BinaryAt(bufs[1..], if n > 0 then n - 1 else 0);
    }
  }

  /** What is left of a frame that was cut: a beginning of it. */
  lemma RestIsBeginning(ms: seq<Message>, t: seq<Byte>, n: nat)
    requires t <= Wires(ms) && CutsAt(ms, t, n)
    ensures Parse(t).rest != [] ==> n < |ms| && Parse(t).rest <= ms[n].Wire() && |Parse(t).rest| < |ms[n].Wire()|
  {
    if n < |ms| {
      WiresAt(ms, n);
      SameBeginning(Wires(ms[..n]), Parse(t).rest, ms[n].Wire(), Wires(ms));
    } else {
      assert ms[..n] == ms;
      assert |t| == |Wires(ms)| + |Parse(t).rest|;
    }
  }

  lemma SameBeginning<T>(a: seq<T>, r: seq<T>, w: seq<T>, all: seq<T>)
    requires a + r <= all && a + w <= all && |r| < |w|
    ensures r <= w
  {
    assert r == all[|a|..|a| + |r|] && w == all[|a|..|a| + |w|];
  }

  /** The bytes left over at the client are the beginning of a binary frame, not complete. */
  ghost predicate CutBinary(r: seq<Byte>) {
    r != [] ==> r[0] == 128 + OP_BINARY && (|r| >= 2 ==> r[1] < 128) && !Complete(r)
  }

  lemma BinaryHeader(buf: Payload)
    ensures var w := BinaryFrame(buf).Wire(); |w| >= 2 && w[0] == 128 + OP_BINARY && w[1] < 128
  {
  }

  lemma CutIsBinary(buf: Payload, r: seq<Byte>)
    requires r <= BinaryFrame(buf).Wire() && |r| < |BinaryFrame(buf).Wire()|
    ensures CutBinary(r)
  {
    var w := BinaryFrame(buf).Wire();
    BinaryHeader(buf);
    DecodeTruncated(BinaryFrame(buf), |r|);
    assert r == w[..|r|];
    if Complete(r) {
      DecodeComplete(r);
      assert false;
    }
  }

  /** At any time what the client has got ends within a binary frame or between two. */
  lemma ClientHasBeginning(script: seq<Round>)
    ensures var p := Parse(Run(Start(), script).client.toClient); p.closed == None && CutBinary(p.rest)
  {
    var s := Run(Start(), script);
    var t, ms := s.client.toClient, BinaryFrames(s.fromTarget);
    StreamsPreserved(script);
    EncodedAreWires(s.fromTarget);
    FramesCarry(s.fromTarget);
    var n := ParsePrefix(ms, t);
    RestIsBeginning(ms, t, n);
    BinaryAt(s.fromTarget, n);
    if Parse(t).rest != [] {
      CutIsBinary(s.fromTarget[n], Parse(t).rest);
    }
  }

  /** The header of the cut frame is there, and so it is known how many bytes are missing. */
  predicate HeaderThere(r: seq<Byte>) {
    |r| >= 2 && |r| >= HeaderLength(r[1])
  }

  function FrameLength(r: seq<Byte>): nat
    requires HeaderThere(r)
  {
    PayloadStart(r[1]) + PayloadLength(r)
  }

  lemma HeaderStays(r: seq<Byte>, x: seq<Byte>)
    requires HeaderThere(r)
    ensures HeaderThere(r + x) && FrameLength(r + x) == FrameLength(r)
  {
    assert (r + x)[1] == r[1] && (r + x)[2..HeaderLength(r[1])] == r[2..HeaderLength(r[1])];
  }

  /** Bytes sent after a cut binary frame with a complete header: too few leave it cut, enough end up in its payload. */
  lemma AfterCut(r: seq<Byte>, x: seq<Byte>)
    requires CutBinary(r) && HeaderThere(r)
    ensures FrameLength(r) > |r|
    ensures |r| + |x| < FrameLength(r) ==> Parse(r + x) == Parsed([], None, r + x)
    ensures |r| + |x| >= FrameLength(r) ==>
              Parse(r + x).bufs != [] && Parse(r + x).bufs[0] == (r + x)[PayloadStart(r[1])..FrameLength(r)]
  {
    HeaderStays(r, x);
    assert (r + x)[0] == r[0] && (r + x)[1] == r[1];
    if |r| + |x| >= FrameLength(r) {
      ParseStep(r + x);
    }
  }

  /** What the client reads in the end, of the first `k` bytes of a close frame sent after what it has got. The frame is
      sent at once, whatever is pending. Between two frames the client reads the request exactly when the close frame is
      accepted in full. Within a frame whose header has arrived it reads no request as long as more bytes of that frame
      are missing than come; otherwise the first bytes of the close frame end up in the data. */
  lemma CloseReachesClient(script: seq<Round>, code: nat, reason: seq<Byte>, k: nat)
    requires code < 65536 && |reason| + 2 < Pow256(8) && k <= |CloseFrame(code, reason)|
    ensures var t, x := Run(Start(), script).client.toClient, CloseFrame(code, reason)[..k];
            var p, q := Parse(t), Parse(t + x);
            && (p.rest == [] ==> q.bufs == p.bufs
                                 && (q.closed == None <==> k < |CloseFrame(code, reason)|)
                                 && (q.closed != None ==> q.closed.value == Close(code, if |reason| == 1 then [] else reason)))
            && (HeaderThere(p.rest) && |p.rest| + k < FrameLength(p.rest) ==> q == Parsed(p.bufs, None, p.rest + x))
            && (HeaderThere(p.rest) && |p.rest| + k >= FrameLength(p.rest) ==>
                  |q.bufs| > |p.bufs| && q.bufs[..|p.bufs|] == p.bufs
                  && q.bufs[|p.bufs|] == (p.rest + x)[PayloadStart(p.rest[1])..FrameLength(p.rest)])
  {
    var t, x := Run(Start(), script).client.toClient, CloseFrame(code, reason)[..k];
    ClientHasBeginning(script);
    ParseInstalments(t, x);
    if Parse(t).rest == [] {
      assert [] + x == x;
      PartOfClose(code, reason, k);
    } else if HeaderThere(Parse(t).rest) {
      AfterCut(Parse(t).rest, x);
    }
  }

  /** The first thing read of a cut binary frame and whatever follows is a payload, if anything is read at all. */
  lemma BinaryFirst(r: seq<Byte>, x: seq<Byte>)
    requires r != [] && r[0] == 128 + OP_BINARY
    ensures Parse(r + x).bufs == [] ==> Parse(r + x).closed == None
  {
    assert (r + x)[0] == r[0];
    if StartsWithData(r + x) {
      ParseStep(r + x);
    }
  }

  /** Nothing is cut when everything has been delivered. */
  lemma DeliveredIsWhole(script: seq<Round>)
    ensures !Run(Start(), script).WatchesClient() ==> Parse(Run(Start(), script).client.toClient).rest == []
  {
    var s := Run(Start(), script);
    WatchedIffUndelivered(script);
    EncodedAreWires(s.fromTarget);
    FramesCarry(s.fromTarget);
    ParseAll(BinaryFrames(s.fromTarget));
  }

  /** After any run, the client reads the close request as it was meant, after the data it had and nothing else, exactly
      when what it had got ended between two frames and the close frame is accepted in full. The first holds when the
      loop was not waiting for the client. */
  lemma CloseIsRead(script: seq<Round>, code: nat, reason: seq<Byte>, k: nat)
    requires code < 65536 && |reason| + 2 < Pow256(8) && k <= |CloseFrame(code, reason)|
    ensures var t, x := Run(Start(), script).client.toClient, CloseFrame(code, reason)[..k];
            var p, q := Parse(t), Parse(t + x);
            q.bufs == p.bufs && q.closed == Some(Close(code, if |reason| == 1 then [] else reason))
            <==> p.rest == [] && k == |CloseFrame(code, reason)|
    ensures !Run(Start(), script).WatchesClient() ==> Parse(Run(Start(), script).client.toClient).rest == []
  {
    DeliveredIsWhole(script);
    var t, x := Run(Start(), script).client.toClient, CloseFrame(code, reason)[..k];
    ClientHasBeginning(script);
    ParseInstalments(t, x);
    if Parse(t).rest == [] {
      assert [] + x == x;
      PartOfClose(code, reason, k);
    } else {
      BinaryFirst(Parse(t).rest, x);
    }
  }

  lemma PartOfClose(code: nat, reason: seq<Byte>, k: nat)
    requires code < 65536 && |reason| + 2 < Pow256(8) && k <= |CloseFrame(code, reason)|
    ensures var f := CloseFrame(code, reason);
            Parse(f[..k]) == if k < |f| then Parsed([], None, f[..k])
                             else Parsed([], Some(Close(code, if |reason| == 1 then [] else reason)), [])
  {
    var f, m := CloseFrame(code, reason), Closing(code, reason, None);
    CloseFrameIsWire(code, reason);
    RequestIs(code, reason, None);
    if k < |f| {
      ParseTruncated(m, f[..k]);
    } else {
      ParseClose(m, []);
      assert f[..k] + [] == f[..k] == m.Wire();
    }
  }

  // ---------------------------------------------------------------------------------------------
  // A close frame that is not read
  // ---------------------------------------------------------------------------------------------

  /** A round in which nothing happens. */
  function Quiet(): Round {
    Nonempty8();
    Round(false, 0, false, [], false, [], false, [])
  }

  lemma Nonempty8()
    ensures Pow256(8) > 3
  {
    assert Pow256(1) == 256 && Pow256(8) == 256 * Pow256(7);
  }

  /** The target writes three bytes; then the client takes three bytes of their frame and closes. */
  function CutShort(): seq<Round> {
    Nonempty8();
    [Quiet().(targetReadable := true, targetData := [1, 2, 3]),
     Quiet().(clientWritable := true, clientAccepts := [3], clientReadable := true, clientData := [136, 0])]
  }

  lemma FirstRound()
    ensures Run(Start(), [CutShort()[0]]) == Start().(cqueue := [[1, 2, 3]], fromTarget := [[1, 2, 3]])
  {
    assert [CutShort()[0]][..0] == [];
    assert Run(Start(), []) == Start();
    assert Start().cqueue + [[1, 2, 3]] == [[1, 2, 3]];
  }

  lemma EmptyClose()
    ensures Parse([136, 0]) == Parsed([], Some(Close(1000, [])), [])
  {
    assert DecodeHybi([136, 0]).payload.Some?;
  }

  lemma ThreeTaken(c: Client, buf: Payload)
    requires c.sendParts == [] && c.toClient == [] && buf == [1, 2, 3]
    ensures SendAll(c, [buf], [3]) == c.(sendParts := [[2, 3]], toClient := [130, 3, 1])
  {
    var w := EncodeHybi(buf, OP_BINARY);
    assert w == [130, 3, 1, 2, 3];
    var ws: seq<seq<Byte>> := [w];
    assert Encoded([buf]) == ws;
    assert c.sendParts + ws == ws && ws[1..] == [];
    assert w[..3] == [130, 3, 1] && w[3..] == [2, 3];
    assert c.toClient + [130, 3, 1] == [130, 3, 1];
  }

  lemma CutState()
    ensures var s := Run(Start(), CutShort());
            s.status == ClientClosed(Close(1000, [])) && s.client.toClient == [130, 3, 1] && s.WatchesClient()
  {
    var s, e := Run(Start(), [CutShort()[0]]), CutShort()[1];
    FirstRound();
    assert CutShort()[..1] == [CutShort()[0]];
    assert Run(Start(), CutShort()) == Turn(s, e);
    Nonempty8();
    ThreeTaken(s.client, [1, 2, 3]);
    EmptyClose();
    assert [] + [136, 0] == [136, 0];
  }

  lemma CutBytes()
    ensures Parse([130, 3, 1]) == Parsed([], None, [130, 3, 1])
    ensures CloseFrame(1000, []) == [136, 2, 3, 232]
  {
    assert Pack(1000, 2) == [3, 232] by {
      assert Pack(3, 1) == [3];
    }
    assert Pack(1000, 2) + [] == [3, 232];
    Nonempty8();
    assert DecodeHybi([130, 3, 1]).payload.None?;
  }

  /** A run whose close frame the client does not read, though all of it is accepted: its first two bytes complete the
      data, the other two look like the beginning of another frame. */
  lemma CloseIsSpoiled()
    ensures var s := Run(Start(), CutShort());
            && s.status == ClientClosed(Close(1000, []))
            && Parse(s.client.toClient + CloseFrame(1000, [])) == Parsed([[1, 136, 2]], None, [3, 232])
  {
    CutState();
    CutBytes();
    SpoiledBytes();
    Together(Run(Start(), CutShort()).client.toClient, CloseFrame(1000, []));
  }

  lemma Together(a: seq<Byte>, b: seq<Byte>)
    requires a == [130, 3, 1] && b == [136, 2, 3, 232]
    ensures a + b == [130, 3, 1, 136, 2, 3, 232]
  {
  }

  lemma SpoiledBytes()
    ensures Parse([130, 3, 1, 136, 2, 3, 232]) == Parsed([[1, 136, 2]], None, [3, 232])
  {
    var w: seq<Byte> := [130, 3, 1, 136, 2, 3, 232];
    SpoiledFrame(w);
    ParseStep(w);
    assert DecodeHybi([3, 232]).payload.None?;
    assert Parse([3, 232]) == Parsed([], None, [3, 232]);
  }

  lemma SpoiledFrame(w: seq<Byte>)
    requires w == [130, 3, 1, 136, 2, 3, 232]
    ensures StartsWithData(w) && PayloadOf(w) == [1, 136, 2] && After(w) == [3, 232]
  {
    assert FrameEnd(w) == 5 && w[5..] == [3, 232];
  }
}
