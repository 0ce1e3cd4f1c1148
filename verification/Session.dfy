/** The cached login session of a user: which calls open it, which close it, and when it is valid. */
module Session {
  import opened Text

  /** The fields a session depends on. */
  datatype State = State(password: string, authDriver: string, enabled: bool, token: string, expiration: int)

  /** Not empty, and without blanks or control characters that separate words. */
  predicate PassIsValid(pass: string) {
    pass != "" && forall i | 0 <= i < |pass| :: !IsSpace(pass[i])
  }

  function Invalidated(s: State): State {
    s.(token := "", expiration := 0)
  }

  predicate ValidSession(s: State, token: string, now: int) {
    s.token == token && now < s.expiration
  }

  /** A call on the user, with the clock as `SetSession` reads it. */
  datatype Call =
    | SetSession(token: string, validity: int, time: int)
    | SetPassword(pass: string)
    | SetAuthDriver(driver: string)
    | Enable
    | Disable

  function Step(s: State, c: Call): State {
    match c
    case SetSession(token, validity, time) => s.(token := token, expiration := time + validity)
    case SetPassword(pass) => if PassIsValid(pass) then Invalidated(s.(password := pass)) else s
    case SetAuthDriver(driver) => Invalidated(s.(authDriver := driver))
    case Enable => s.(enabled := true)
    case Disable => Invalidated(s.(enabled := false))
  }

  function Created(password: string, driver: string, enabled: bool): State {
    State(password, driver, enabled, "", 0)
  }

  function Run(s: State, calls: seq<Call>): State {
    if calls == [] then s else Step(Run(s, calls[..|calls| - 1]), calls[|calls| - 1])
  }

  class User {
    var password: string
    var authDriver: string
    var enabled: bool
    var sessionToken: string
    var sessionExpirationTime: int

    function Now(): State
      reads this
    {
      State(password, authDriver, enabled, sessionToken, sessionExpirationTime)
    }

    constructor (password: string, authDriver: string, enabled: bool)
      ensures Now() == Created(password, authDriver, enabled)
    {
      this.password, this.authDriver, this.enabled := password, authDriver, enabled;
      sessionToken, sessionExpirationTime := "", 0;
    }

    method InvalidateSession()
      modifies this
      ensures Now() == Invalidated(old(Now()))
    {
      sessionToken, sessionExpirationTime := "", 0;
    }

    method StartSession(token: string, validity: int, time: int)
      modifies this
      ensures Now() == Step(old(Now()), SetSession(token, validity, time))
    {
      sessionToken := token;
      sessionExpirationTime := time + validity;
    }

    method ChangePassword(pass: string) returns (rc: int)
      modifies this
      ensures Now() == Step(old(Now()), SetPassword(pass))
      ensures rc == if PassIsValid(pass) then 0 else -1
    {
      rc := 0;
      if PassIsValid(pass) {
        password := pass;
        InvalidateSession();
      } else {
        rc := -1;
      }
    }

    method ChangeAuthDriver(driver: string) returns (rc: int)
      modifies this
      ensures Now() == Step(old(Now()), SetAuthDriver(driver)) && rc == 0
    {
      authDriver := driver;
      InvalidateSession();
      rc := 0;
    }

    method TurnOn()
      modifies this
      ensures Now() == Step(old(Now()), Enable)
    {
      enabled := true;
    }

    method TurnOff()
      modifies this
      ensures Now() == Step(old(Now()), Disable)
    {
      enabled := false;
      InvalidateSession();
    }

    predicate SessionIsValid(token: string, time: int)
      reads this
      ensures SessionIsValid(token, time) <==> ValidSession(Now(), token, time)
    {
      sessionToken == token && time < sessionExpirationTime
    }
  }

  /** The calls that touch the session at all. */
  predicate Decides(c: Call) {
    !c.Enable? && (c.SetPassword? ==> PassIsValid(c.pass))
  }

  /** The last deciding call among `calls` is number `i`. */
  ghost predicate LastDecides(calls: seq<Call>, i: int) {
    0 <= i < |calls| && Decides(calls[i]) && forall j | i < j < |calls| :: !Decides(calls[j])
  }

  /** That call opened a session for the token which has not run out. */
  predicate Opens(c: Call, token: string, now: int) {
    c.SetSession? && c.token == token && now < c.time + c.validity
  }

  /** Whatever was called before, a token is accepted exactly when the last call that touched the session opened one
      for this token that has not run out; before any such call none is, not even the empty one. */
  lemma {:induction false} SessionFollowsLastCall(password: string, driver: string, enabled: bool, calls: seq<Call>, token: string, now: int)
    requires now >= 0
    ensures ValidSession(Run(Created(password, driver, enabled), calls), token, now)
            <==> exists i :: LastDecides(calls, i) && Opens(calls[i], token, now)
  {
    var s0 := Created(password, driver, enabled);
    if calls != [] {
      var n := |calls| - 1;
      var before, c := calls[..n], calls[n];
      SessionFollowsLastCall(password, driver, enabled, before, token, now);
      if Decides(c) {
        assert LastDecides(calls, n);
        assert forall i | LastDecides(calls, i) :: i == n;
      } else {
        forall i
          ensures LastDecides(calls, i) <==> LastDecides(before, i)
        {
          assert 0 <= i < n ==> calls[i] == before[i];
          assert forall j | 0 <= j < n :: calls[j] == before[j];
        }
      }
    }
  }

  /** A user that is disabled, gets another driver or a new password is logged out until the next login. */
  lemma LoggedOutUntilLogin(password: string, driver: string, enabled: bool, before: seq<Call>, c: Call, after: seq<Call>, token: string, now: int)
    requires now >= 0 && Decides(c) && !c.SetSession?
    requires forall i | 0 <= i < |after| :: !after[i].SetSession?
    ensures !ValidSession(Run(Created(password, driver, enabled), before + [c] + after), token, now)
  {
    var calls := before + [c] + after;
    SessionFollowsLastCall(password, driver, enabled, calls, token, now);
    forall i | LastDecides(calls, i)
      ensures !calls[i].SetSession?
    {
      NoLoginSince(before, c, after, i);
    }
  }

  lemma NoLoginSince(before: seq<Call>, c: Call, after: seq<Call>, i: int)
    requires Decides(c) && !c.SetSession?
    requires forall j | 0 <= j < |after| :: !after[j].SetSession?
    requires LastDecides(before + [c] + after, i)
    ensures !(before + [c] + after)[i].SetSession?
  {
    var calls := before + [c] + after;
    assert calls[|before|] == c;
    if i > |before| {
      assert calls[i] == after[i - |before| - 1];
    }
  }

  // ---------------------------------------------------------------------------------------------
  // What is stored
  // ---------------------------------------------------------------------------------------------

  /** A password is taken exactly when it is not empty and has neither a blank nor a character with a code from 9 to 13. */
  lemma PassIsValidIff(pass: string)
    ensures PassIsValid(pass)
            <==> pass != "" && forall i | 0 <= i < |pass| :: pass[i] as int != 32 && !(9 <= pass[i] as int <= 13)
  {
    forall i | 0 <= i < |pass|
      ensures IsSpace(pass[i]) <==> pass[i] as int == 32 || 9 <= pass[i] as int <= 13
    {
      CharacterCodes(pass[i]);
    }
  }

  predicate StoresPassword(c: Call) {
    c.SetPassword? && PassIsValid(c.pass)
  }

  predicate SetsDriver(c: Call) {
    c.SetAuthDriver?
  }

  predicate Switches(c: Call) {
    c.Enable? || c.Disable?
  }

  /** Number `i` is the last of the calls that `what` holds of. */
  ghost predicate LastOf(calls: seq<Call>, what: Call -> bool, i: int) {
    0 <= i < |calls| && what(calls[i]) && forall j | i < j < |calls| :: !what(calls[j])
  }

  lemma LastOfSnoc(before: seq<Call>, c: Call, what: Call -> bool)
    ensures what(c) ==> forall i :: LastOf(before + [c], what, i) <==> i == |before|
    ensures !what(c) ==> forall i :: LastOf(before + [c], what, i) <==> LastOf(before, what, i)
  {
    var calls := before + [c];
    assert calls[|before|] == c && forall j | 0 <= j < |before| :: calls[j] == before[j];
  }

  /** After every run the password is the one of the last call that set a valid one, the driver that of the last call that
      set one, and the user is enabled when the last call that switched was to enable; without such a call all are as they
      were created. */
  lemma {:induction false} FieldsFollowLastCall(password: string, driver: string, enabled: bool, calls: seq<Call>)
    ensures var s := Run(Created(password, driver, enabled), calls);
            && (forall i | LastOf(calls, StoresPassword, i) :: s.password == calls[i].pass)
            && ((forall i :: !LastOf(calls, StoresPassword, i)) ==> s.password == password)
    ensures var s := Run(Created(password, driver, enabled), calls);
            && (forall i | LastOf(calls, SetsDriver, i) :: s.authDriver == calls[i].driver)
            && ((forall i :: !LastOf(calls, SetsDriver, i)) ==> s.authDriver == driver)
    ensures var s := Run(Created(password, driver, enabled), calls);
            && (forall i | LastOf(calls, Switches, i) :: s.enabled <==> calls[i].Enable?)
            && ((forall i :: !LastOf(calls, Switches, i)) ==> s.enabled == enabled)
  {
    if calls != [] {
      var n := |calls| - 1;
      FieldsFollowLastCall(password, driver, enabled, calls[..n]);
      LastOfSnoc(calls[..n], calls[n], StoresPassword);
      LastOfSnoc(calls[..n], calls[n], SetsDriver);
      LastOfSnoc(calls[..n], calls[n], Switches);
      assert calls == calls[..n] + [calls[n]];
      assert LastOf(calls, StoresPassword, n) <==> StoresPassword(calls[n]);
      assert LastOf(calls, SetsDriver, n) <==> calls[n].SetAuthDriver?;
      assert LastOf(calls, Switches, n) <==> Switches(calls[n]);
    }
  }
}
