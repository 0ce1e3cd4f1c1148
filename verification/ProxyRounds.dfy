/** What one round of the proxy loop does: which bytes move in each direction, and when the loop ends. */
module ProxyRounds {
  import opened Sequences
  import opened Frames
  import opened Proxy
  import opened ProxyTheorems

  /** The answer to send number `i`. */
  function Answer(accepts: seq<nat>, i: nat): nat {
    if i < |accepts| then accepts[i] else 0
  }

  /** The first `k` pending frames were accepted in full, and the next, if there is one, in part. */
  ghost predicate SentUpTo(c: Client, accepts: seq<nat>, k: nat, c': Client) {
    && k <= |c.sendParts|
    && (forall i | 0 <= i < k :: Answer(accepts, i) >= |c.sendParts[i]|)
    && (k == |c.sendParts| ==> c' == c.(sendParts := [], toClient := c.toClient + Concat(c.sendParts)))
    && (k < |c.sendParts| ==>
          var part, n := c.sendParts[k], Answer(accepts, k);
          n < |part| && c' == c.(sendParts := [part[n..]] + c.sendParts[k + 1..],
                                 toClient := c.toClient + Concat(c.sendParts[..k]) + part[..n]))
  }

  /** Sending goes on exactly until a frame is accepted only in part, whose rest stays in front, or none is pending. */
  lemma {:induction false} FlushSends(c: Client, accepts: seq<nat>) returns (k: nat)
    requires NonEmpty(c.sendParts)
    ensures SentUpTo(c, accepts, k, Flush(c, accepts))
    decreases |c.sendParts|
  {
    if c.sendParts == [] {
      k := 0;
      assert c.toClient + [] == c.toClient;
    } else {
      var part, rest := c.sendParts[0], c.sendParts[1..];
      if Answer(accepts, 0) >= |part| {
        var c1 := c.(sendParts := rest, toClient := c.toClient + part);
        var later := if accepts == [] then [] else accepts[1..];
        assert part[..|part|] == part;
        k := FlushSends(c1, later);
        OnePartMore(c, c1, accepts, later, k);
        k := k + 1;
      } else {
        k := 0;
        assert c.sendParts[..0] == [] && c.toClient + [] == c.toClient;
      }
    }
  }

  lemma OnePartMore(c: Client, c1: Client, accepts: seq<nat>, later: seq<nat>, k: nat)
    requires c.sendParts != [] && Answer(accepts, 0) >= |c.sendParts[0]|
    requires later == if accepts == [] then [] else accepts[1..]
    requires c1 == c.(sendParts := c.sendParts[1..], toClient := c.toClient + c.sendParts[0])
    requires SentUpTo(c1, later, k, Flush(c1, later))
    requires Flush(c, accepts) == Flush(c1, later)
    ensures SentUpTo(c, accepts, k + 1, Flush(c, accepts))
  {
    var part, rest := c.sendParts[0], c.sendParts[1..];
    assert forall i | 0 <= i < |rest| :: rest[i] == c.sendParts[i + 1] && Answer(later, i) == Answer(accepts, i + 1);
    if k == |rest| {
      ConcatAssociates(c.toClient, part, Concat(rest));
    } else {
      assert c.sendParts[..k + 1][1..] == rest[..k];
      ConcatAssociates(c.toClient, part, Concat(rest[..k]));
      assert rest[k + 1..] == c.sendParts[k + 2..];
    }
  }

  /** The target hangs up in this round. */
  predicate HangsUp(e: Round) {
    e.targetReadable && e.targetData == []
  }

  /** The bytes that move in a round of the running loop. The target is written to when it is ready and something is
      queued for it, and gets as much of the first chunk as it accepts; what it writes is read when it is readable. When
      it hangs up nothing else happens. What the client sends is read when it is readable; the client is written to
      only when it is ready and something waited for it, and then gets the pending frames and one frame for each new
      chunk. */
  lemma RoundMoves(s: State, e: Round)
    requires s.status == Running
    ensures var s' := Turn(s, e);
            && s'.toTarget == s.toTarget + (if s.tqueue != [] && e.targetWritable
                                            then s.tqueue[0][..Accepted(s.tqueue[0], e.targetAccepts)] else [])
            && s'.fromTarget == s.fromTarget + (if e.targetReadable && e.targetData != [] then [e.targetData] else [])
            && s'.client.fromClient == s.client.fromClient + (if e.clientReadable && !HangsUp(e) then e.clientData else [])
    ensures HangsUp(e) || !e.clientWritable || !s.WatchesClient()
            ==> Turn(s, e).client.toClient == s.client.toClient && Turn(s, e).client.sendParts == s.client.sendParts
    ensures !HangsUp(e) && e.clientWritable && s.WatchesClient() ==>
              var news := if e.targetReadable then [e.targetData] else [];
              var sent := Flush(s.client.(sendParts := s.client.sendParts + Encoded(s.cqueue + news)), e.clientAccepts);
              Turn(s, e).client.toClient == sent.toClient && Turn(s, e).client.sendParts == sent.sendParts
              && Turn(s, e).cqueue == []
  {
    var s1 := TargetServed(s, e);
    var s2 := TargetHeard(s1, e);
    assert s.toTarget + [] == s.toTarget && s.fromTarget + [] == s.fromTarget;
    assert s.client.fromClient + [] == s.client.fromClient && s.cqueue + [] == s.cqueue;
    if !HangsUp(e) {
      FlushReceivesNothing(s2.client, s2.cqueue, e.clientAccepts);
      HeardKeepsTraffic(ClientServed(s.WatchesClient(), s2, e), e);
    }
  }

  /** As much as the socket takes, and never more than is offered. */
  lemma AcceptedIs(buf: seq<Byte>, accepts: nat)
    ensures Accepted(buf, accepts) <= |buf| && Accepted(buf, accepts) <= accepts
    ensures Accepted(buf, accepts) == |buf| || Accepted(buf, accepts) == accepts
  {
  }

  // ---------------------------------------------------------------------------------------------
  // When the loop ends
  // ---------------------------------------------------------------------------------------------

  lemma LastTurn(script: seq<Round>, e: Round)
    ensures Run(Start(), script + [e]) == Turn(Run(Start(), script), e)
  {
    var all := script + [e];
    assert all[..|all| - 1] == script && all[|all| - 1] == e;
  }

  /** How a round of the running loop leaves it. */
  lemma StatusAfter(s: State, e: Round)
    requires s.status == Running
    ensures var s' := Turn(s, e);
            s'.status == if HangsUp(e) then TargetClosed
                         else if !e.clientReadable then Running
                         else if e.clientData == [] then ClientVanished
                         else match Parse(s.client.recvPart + e.clientData).closed
                              case None => Running
                              case Some(close) => ClientClosed(close)
  {
    var s2 := TargetHeard(TargetServed(s, e), e);
    if !HangsUp(e) {
      FlushKeeps(s2.client.(sendParts := s2.client.sendParts + Encoded(s2.cqueue)), e.clientAccepts);
      assert ClientServed(s.WatchesClient(), s2, e).client.recvPart == s.client.recvPart;
    }
  }

  /** The loop ends, and stays ended, exactly when the target hangs up, the client is gone without a word, or the bytes the
      client has sent so far contain a close frame; the target is looked at first. */
  lemma EndsWhen(script: seq<Round>, e: Round)
    ensures var s, s' := Run(Start(), script), Run(Start(), script + [e]);
            s'.status == TargetClosed <==> (s.status == TargetClosed || (s.status == Running && HangsUp(e)))
    ensures var s, s' := Run(Start(), script), Run(Start(), script + [e]);
            s'.status == ClientVanished
            <==> (s.status == ClientVanished
                  || (s.status == Running && !HangsUp(e) && e.clientReadable && e.clientData == []))
    ensures var s, s' := Run(Start(), script), Run(Start(), script + [e]);
            forall close :: s'.status == ClientClosed(close)
              <==> (s.status == ClientClosed(close)
                    || (s.status == Running && !HangsUp(e) && e.clientReadable && e.clientData != []
                        && Parse(s.client.fromClient + e.clientData).closed == Some(close)))
  {
    var s := Run(Start(), script);
    LastTurn(script, e);
    StreamsPreserved(script);
    if s.status == Running {
      StatusAfter(s, e);
      ParseInstalments(s.client.fromClient, e.clientData);
    }
  }

  /** Before the first round the loop runs. */
  lemma StartsRunning()
    ensures Run(Start(), []).status == Running
  {
  }
}
