/** The wrapped command of the websocket proxy: when it is restarted, and how often at most. */
module Throttle {

  datatype Mode = Ignore | Exit | Respawn

  /** The window of the last three start times, whether the command is gone, the message flag, whether the process
      has exited, and every start made so far. */
  datatype Wrapper = Wrapper(times: seq<real>, gone: bool, spawnMessage: bool, exited: bool, starts: seq<real>)

  /** One poll: the clock as it reads when checked, as it reads again when a restart is recorded, and whether the
      command is found to have ended. */
  datatype Poll = Poll(now: real, later: real, ended: bool)

  function RunCmd(w: Wrapper, time: real): Wrapper
    requires |w.times| == 3
  {
    w.(times := w.times[1..] + [time], gone := false, spawnMessage := true, starts := w.starts + [time])
  }

  /** After the first, unconditional start. */
  function Started(time: real): Wrapper {
    RunCmd(Wrapper([0.0, 0.0, 0.0], true, true, false, []), time)
  }

  function Mean(times: seq<real>): real
    requires |times| == 3
  {
    (times[0] + times[1] + times[2]) / 3.0
  }

  function Polled(w: Wrapper, mode: Mode, e: Poll): Wrapper
    requires |w.times| == 3
  {
    if w.exited || !(w.gone || e.ended) then w
    else
      match mode
      case Ignore => w.(gone := true)
      case Exit => w.(gone := true, exited := true)
      case Respawn =>
        if e.now - Mean(w.times) < 10.0 then w.(gone := true, spawnMessage := false)
        else RunCmd(w, e.later)
  }

  function Run(time: real, mode: Mode, script: seq<Poll>): (w: Wrapper)
    ensures |w.times| == 3
  {
    if script == [] then Started(time) else Polled(Run(time, mode, script[..|script| - 1]), mode, script[|script| - 1])
  }

  /** The master process object. */
  class WrapServer {
    const mode: Mode
    var wrapTimes: seq<real>
    var gone: bool
    var spawnMessage: bool
    var exited: bool
    var starts: seq<real>

    ghost predicate Valid()
      reads this
    {
      |wrapTimes| == 3
    }

    ghost function Now(): Wrapper
      reads this
    {
      Wrapper(wrapTimes, gone, spawnMessage, exited, starts)
    }

    /** Construction and the start made once the server is up. */
    constructor (mode: Mode, time: real)
      ensures Valid() && this.mode == mode && Now() == Started(time)
    {
      this.mode := mode;
      wrapTimes, gone, spawnMessage, exited, starts := [0.0, 0.0, 0.0], true, true, false, [];
      new;
      RunWrapCmd(time);
    }

    method RunWrapCmd(time: real)
      requires Valid()
      modifies this
      ensures Valid() && Now() == RunCmd(old(Now()), time)
    {
      wrapTimes := wrapTimes + [time];
      wrapTimes := wrapTimes[1..];
      gone, spawnMessage, starts := false, true, starts + [time];
    }

    method DoPoll(e: Poll)
      requires Valid()
      modifies this
      ensures Valid() && Now() == Polled(old(Now()), mode, e)
    {
      if exited {
        return;
      }
      if !gone && e.ended {
        gone := true;
      }
      if gone {
        match mode
        case Ignore =>
        case Exit => exited := true;
        case Respawn =>
          var avg := (wrapTimes[0] + wrapTimes[1] + wrapTimes[2]) / 3.0;
          if e.now - avg < 10.0 {
            spawnMessage := false;
          } else {
            RunWrapCmd(e.later);
          }
      }
    }
  }

  // ---------------------------------------------------------------------------------------------
  // The window and the pace
  // ---------------------------------------------------------------------------------------------

  /** The i-th start, zero before the first. */
  function StartAt(starts: seq<real>, i: int): real {
    if 0 <= i < |starts| then starts[i] else 0.0
  }

  ghost predicate WindowOk(w: Wrapper) {
    var n := |w.starts|;
    n > 0 && w.times == [StartAt(w.starts, n - 3), StartAt(w.starts, n - 2), StartAt(w.starts, n - 1)]
  }

  /** Each start after the first comes at least ten seconds after the mean of the three before it. */
  ghost predicate Paced(starts: seq<real>) {
    forall i | 0 < i < |starts| :: PacedAt(starts, i)
  }

  ghost predicate PacedAt(starts: seq<real>, i: nat) {
    3.0 * StartAt(starts, i) >= StartAt(starts, i - 1) + StartAt(starts, i - 2) + StartAt(starts, i - 3) + 30.0
  }

  ghost predicate Ordered(starts: seq<real>) {
    && (forall i | 0 <= i < |starts| :: starts[i] >= 0.0)
    && (forall i, j | 0 <= i < j < |starts| :: starts[i] <= starts[j])
  }

  /** The clock never runs backwards. */
  ghost predicate Clock(time: real, script: seq<Poll>) {
    && time >= 0.0
    && (forall i | 0 <= i < |script| :: time <= script[i].now <= script[i].later)
    && (forall i, j | 0 <= i < j < |script| :: script[i].later <= script[j].now)
  }

  /** Whatever the mode and the clock, the window holds the last three start times, with zeros before the first,
      and every restart kept the pace. */
  lemma {:induction false} WindowHolds(time: real, mode: Mode, script: seq<Poll>)
    requires forall e | e in script :: e.now <= e.later
    ensures WindowOk(Run(time, mode, script)) && Paced(Run(time, mode, script).starts)
  {
    if script == [] {
      assert Started(time).starts == [time];
    } else {
      var last := |script| - 1;
      WindowHolds(time, mode, script[..last]);
      var w, e := Run(time, mode, script[..last]), script[last];
      if e.now - Mean(w.times) >= 10.0 {
        RestartPaced(w, e.now, e.later);
      }
    }
  }

  lemma RestartPaced(w: Wrapper, now: real, later: real)
    requires WindowOk(w) && Paced(w.starts) && now <= later && now - Mean(w.times) >= 10.0
    ensures WindowOk(RunCmd(w, later)) && Paced(RunCmd(w, later).starts)
  {
    var n, s, all := |w.starts|, w.starts, w.starts + [later];
    assert StartAt(all, n - 2) == StartAt(s, n - 2) && StartAt(all, n - 1) == StartAt(s, n - 1)
        && StartAt(all, n - 3) == StartAt(s, n - 3) && StartAt(all, n) == later;
    MeanTimesThree(w.times);
    forall i | 0 < i < |all|
      ensures PacedAt(all, i)
    {
      if i < n {
        assert PacedAt(s, i);
        SameStarts(s, later, i);
      }
    }
  }

  lemma MeanTimesThree(times: seq<real>)
    requires |times| == 3
    ensures 3.0 * Mean(times) == times[0] + times[1] + times[2]
  {
  }

  lemma SameStarts(s: seq<real>, later: real, i: nat)
    requires i < |s|
    ensures PacedAt(s + [later], i) <==> PacedAt(s, i)
  {
  }

  /** A start is never recorded before the previous one. */
  lemma {:induction false} StartsOrdered(time: real, mode: Mode, script: seq<Poll>)
    requires Clock(time, script)
    ensures Ordered(Run(time, mode, script).starts)
    ensures forall i | 0 <= i < |Run(time, mode, script).starts| ::
              Run(time, mode, script).starts[i] <= if script == [] then time else script[|script| - 1].later
  {
    if script != [] {
      StartsOrdered(time, mode, script[..|script| - 1]);
    }
  }

  // ---------------------------------------------------------------------------------------------
  // The three modes
  // ---------------------------------------------------------------------------------------------

  /** Some poll found that the command had ended. */
  ghost predicate EverEnded(script: seq<Poll>) {
    exists e :: e in script && e.ended
  }

  lemma EndedInPrefix(script: seq<Poll>)
    requires script != []
    ensures EverEnded(script) <==> EverEnded(script[..|script| - 1]) || script[|script| - 1].ended
  {
    var before, last := script[..|script| - 1], script[|script| - 1];
    assert script == before + [last];
    if EverEnded(before) {
      var e :| e in before && e.ended;
      assert e in script;
    }
  }

  /** Without respawning there is one start. In mode exit the server exits at the first poll that finds the command
      ended; in mode ignore it never does, and only remembers. */
  lemma {:induction false} OneStart(time: real, mode: Mode, script: seq<Poll>)
    requires mode != Respawn
    ensures var w := Run(time, mode, script);
            && w.starts == [time] && w.spawnMessage
            && (w.gone <==> EverEnded(script))
            && (w.exited <==> mode == Exit && EverEnded(script))
  {
    if script != [] {
      OneStart(time, mode, script[..|script| - 1]);
      EndedInPrefix(script);
    }
  }

  /** One poll when respawning: while the command runs nothing happens; once it is gone it is started, with a window that
      has moved on and a message for the next time, if its last three starts were ten seconds ago on average, and else
      it stays gone and the message has been given. The server never exits. */
  lemma RespawnPoll(time: real, script: seq<Poll>, e: Poll)
    requires forall p | p in script + [e] :: p.now <= p.later
    ensures var w, w' := Run(time, Respawn, script), Run(time, Respawn, script + [e]);
            && !w'.exited
            && (!w.gone && !e.ended ==> w' == w)
            && ((w.gone || e.ended) && LongAgo(w.starts, e.now) ==>
                  w'.starts == w.starts + [e.later] && !w'.gone && w'.spawnMessage)
            && ((w.gone || e.ended) && !LongAgo(w.starts, e.now) ==>
                  w'.starts == w.starts && w'.times == w.times && w'.gone && !w'.spawnMessage)
  {
    var all := script + [e];
    assert all[..|all| - 1] == script && all[|all| - 1] == e;
    WindowHolds(time, Respawn, script);
    NeverExits(time, script);
    MeanOfLast(Run(time, Respawn, script), e.now);
  }

  // ---------------------------------------------------------------------------------------------
  // The rate bounds
  // ---------------------------------------------------------------------------------------------

  lemma FourStartsSpan(starts: seq<real>, i: nat)
    requires Paced(starts) && Ordered(starts) && i + 3 < |starts|
    ensures starts[i + 3] - starts[i] >= 10.0
  {
    assert PacedAt(starts, i + 3);
  }

  lemma {:induction false} ThreePerTen(starts: seq<real>, i: nat, k: nat)
    requires Paced(starts) && Ordered(starts) && i + 3 * k < |starts|
    ensures starts[i + 3 * k] - starts[i] >= 10.0 * k as real
    decreases k
  {
    if k > 0 {
      ThreePerTen(starts, i, k - 1);
      FourStartsSpan(starts, i + 3 * (k - 1));
    }
  }

  /** A weighted sum of the last three starts, six times a time in all, which each restart raises by thirty. */
  ghost function Potential(starts: seq<real>, i: int): real {
    3.0 * StartAt(starts, i) + 2.0 * StartAt(starts, i - 1) + StartAt(starts, i - 2)
  }

  lemma {:induction false} PotentialGrows(starts: seq<real>, i: nat, m: nat)
    requires Paced(starts) && i + m < |starts|
    ensures Potential(starts, i + m) >= Potential(starts, i) + 30.0 * m as real
  {
    if m > 0 {
      PotentialGrows(starts, i, m - 1);
      assert PacedAt(starts, i + m);
      assert m as real == (m - 1) as real + 1.0;
    }
  }

  lemma FivePerRestart(starts: seq<real>, i: nat, j: nat)
    requires Paced(starts) && Ordered(starts) && i + 2 <= j < |starts|
    ensures starts[j] - starts[i] >= 5.0 * (j - i - 2) as real
  {
    PotentialGrows(starts, i + 2, j - i - 2);
    assert Potential(starts, i + 2) >= 6.0 * starts[i];
    assert Potential(starts, j) <= 6.0 * starts[j];
  }

  /** Over every run with a clock that does not run backwards, any four consecutive starts span ten seconds, and in
      the long run restarts are five seconds apart: twice in ten seconds and not three times. */
  lemma RateBound(time: real, mode: Mode, script: seq<Poll>)
    requires Clock(time, script)
    ensures var s := Run(time, mode, script).starts;
            && (forall i | 0 <= i < |s| - 3 :: s[i + 3] - s[i] >= 10.0)
            && (forall i, j | 0 <= i <= j - 2 < |s| - 2 :: s[j] - s[i] >= 5.0 * (j - i - 2) as real)
  {
    WindowHolds(time, mode, script);
    StartsOrdered(time, mode, script);
    var s := Run(time, mode, script).starts;
    forall i | 0 <= i < |s| - 3
      ensures s[i + 3] - s[i] >= 10.0
    {
      FourStartsSpan(s, i);
    }
    forall i, j | 0 <= i <= j - 2 < |s| - 2
      ensures s[j] - s[i] >= 5.0 * (j - i - 2) as real
    {
      FivePerRestart(s, i, j);
    }
  }

  /** Any half-open window of 10k seconds holds at most 3k starts. */
  lemma AtMostThreePerTen(time: real, mode: Mode, script: seq<Poll>, i: nat, j: nat, t: real, k: nat)
    requires Clock(time, script)
    requires i <= j < |Run(time, mode, script).starts|
    requires t <= Run(time, mode, script).starts[i] && Run(time, mode, script).starts[j] < t + 10.0 * k as real
    ensures j - i + 1 <= 3 * k
  {
    WindowHolds(time, mode, script);
    StartsOrdered(time, mode, script);
    if j - i >= 3 * k {
      ThreePerTen(Run(time, mode, script).starts, i, k);
    }
  }

  /** A command that ends at once, polled every five seconds. */
  function EveryFive(n: nat): (script: seq<Poll>)
    ensures |script| == n
  {
    seq(n, i requires 0 <= i < n => Poll(15.0 + 5.0 * i as real, 15.0 + 5.0 * i as real, true))
  }

  /** Five seconds is the exact long-run spacing: this run restarts at every poll, for ever. */
  lemma {:induction false} FiveIsReached(n: nat)
    ensures Clock(10.0, EveryFive(n))
    ensures var s := Run(10.0, Respawn, EveryFive(n)).starts;
            |s| == n + 1 && forall i | 0 <= i <= n :: s[i] == 10.0 + 5.0 * i as real
  {
    if n > 0 {
      FiveIsReached(n - 1);
      assert EveryFive(n)[..n - 1] == EveryFive(n - 1);
      WindowHolds(10.0, Respawn, EveryFive(n - 1));
      var w := Run(10.0, Respawn, EveryFive(n - 1));
      NeverExits(10.0, EveryFive(n - 1));
      var now := 10.0 + 5.0 * n as real;
      assert EveryFive(n)[n - 1] == Poll(now, now, true);
      assert w.times[2] == w.starts[n - 1] == now - 5.0;
      assert w.times[1] <= now - 10.0;
      assert w.times[0] <= now - 15.0;
      MeanTimesThree(w.times);
      assert Run(10.0, Respawn, EveryFive(n)) == RunCmd(w, now);
    }
  }

  /** Once ten seconds have passed since the last start, the next poll that finds the command gone restarts it. */
  lemma RestartsWhenDue(time: real, script: seq<Poll>, e: Poll)
    requires Clock(time, script + [e])
    requires var w := Run(time, Respawn, script);
             (w.gone || e.ended) && e.now - StartAt(w.starts, |w.starts| - 1) >= 10.0
    ensures Run(time, Respawn, script + [e]).starts == Run(time, Respawn, script).starts + [e.later]
    ensures !Run(time, Respawn, script + [e]).gone
  {
    var all := script + [e];
    assert all[..|all| - 1] == script && all[|all| - 1] == e;
    ClockPrefix(time, script, e);
    WindowHolds(time, Respawn, script);
    StartsOrdered(time, Respawn, script);
    NeverExits(time, script);
    var w := Run(time, Respawn, script);
    assert Mean(w.times) <= StartAt(w.starts, |w.starts| - 1);
  }

  lemma ClockPrefix(time: real, script: seq<Poll>, e: Poll)
    requires Clock(time, script + [e])
    ensures Clock(time, script)
  {
    var all := script + [e];
    assert forall i | 0 <= i < |script| :: script[i] == all[i];
  }

  lemma {:induction false} NeverExits(time: real, script: seq<Poll>)
    ensures !Run(time, Respawn, script).exited
  {
    if script != [] {
      NeverExits(time, script[..|script| - 1]);
    }
  }

  /** How long ago start number `i` was, zero time standing for a start that was never made. */
  function Ago(starts: seq<real>, i: int, now: real): real {
    now - StartAt(starts, i)
  }

  /** A poll that finds the command gone does not restart it. */
  ghost predicate Refuses(time: real, script: seq<Poll>, e: Poll) {
    Run(time, Respawn, script + [e]).starts == Run(time, Respawn, script).starts
  }

  /** The rule in the comment beside the test: three starts in the last ten seconds. */
  ghost predicate ThreeInTen(starts: seq<real>, now: real) {
    |starts| >= 3 && Ago(starts, |starts| - 3, now) < 10.0
  }

  /** The last three starts are ten seconds ago on average. */
  ghost predicate LongAgo(starts: seq<real>, now: real) {
    Ago(starts, |starts| - 3, now) + Ago(starts, |starts| - 2, now) + Ago(starts, |starts| - 1, now) >= 30.0
  }

  lemma RefusesIff(time: real, script: seq<Poll>, e: Poll)
    requires Clock(time, script + [e])
    requires Run(time, Respawn, script).gone || e.ended
    ensures Refuses(time, script, e) <==> !LongAgo(Run(time, Respawn, script).starts, e.now)
  {
    var all := script + [e];
    assert all[..|all| - 1] == script && all[|all| - 1] == e;
    ClockPrefix(time, script, e);
    WindowHolds(time, Respawn, script);
    NeverExits(time, script);
    var w := Run(time, Respawn, script);
    MeanOfLast(w, e.now);
    assert |RunCmd(w, e.later).starts| == |w.starts| + 1;
  }

  lemma MeanOfLast(w: Wrapper, now: real)
    requires WindowOk(w)
    ensures now - Mean(w.times) < 10.0 <==> !LongAgo(w.starts, now)
  {
    MeanTimesThree(w.times);
  }

  /** What the comment speaks of is always refused; and the test agrees with the comment exactly where there are three
      starts in the last ten seconds or the last three are ten seconds ago on average. In between it refuses more. */
  lemma CommentHolds(time: real, script: seq<Poll>, e: Poll)
    requires Clock(time, script + [e])
    requires Run(time, Respawn, script).gone || e.ended
    ensures var s := Run(time, Respawn, script).starts;
            && (ThreeInTen(s, e.now) ==> Refuses(time, script, e))
            && ((Refuses(time, script, e) <==> ThreeInTen(s, e.now)) <==> ThreeInTen(s, e.now) || LongAgo(s, e.now))
  {
    RefusesIff(time, script, e);
    ClockPrefix(time, script, e);
    StartsOrdered(time, Respawn, script);
    var s := Run(time, Respawn, script).starts;
    if ThreeInTen(s, e.now) {
      assert s[|s| - 3] <= s[|s| - 2] <= s[|s| - 1];
    }
  }

  /** A run in between, where a single start in the last ten seconds is enough: started at 100, 100 and 113 seconds, a
      command that ends at 114 is not restarted. */
  lemma RefusedAfterOneStart()
    ensures var w := Run(100.0, Respawn, [Poll(100.0, 100.0, true), Poll(113.0, 113.0, true)]);
            && w.starts == [100.0, 100.0, 113.0] && !ThreeInTen(w.starts, 114.0) && !LongAgo(w.starts, 114.0)
            && Polled(w, Respawn, Poll(114.0, 114.0, true)).starts == w.starts
  {
    var p, q := Poll(100.0, 100.0, true), Poll(113.0, 113.0, true);
    assert [p, q][..1] == [p] && [p][..0] == [];
    assert Run(100.0, Respawn, [p]).times == [0.0, 100.0, 100.0];
    assert Run(100.0, Respawn, [p, q]).times == [100.0, 100.0, 113.0];
  }
}
