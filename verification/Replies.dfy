/** The parser of driver replies: an input string stream with its state flags, the steps the core takes on it, and
    what it makes of every possible message. */
module Replies {
  import opened Sequences
  import opened Text
  import opened Words
  import Ledger

  // ---------------------------------------------------------------------------------------------
  // Streams
  // ---------------------------------------------------------------------------------------------

  /** What is left to read, and the flags. */
  datatype Stream = Stream(rest: string, eof: bool, fail: bool)
  {
    predicate Good() { !eof && !fail }
  }

  /** `is >> s` */
  function ReadWord(st: Stream): (Stream, string) {
    var t := Trimmed(st.rest);
    if !st.Good() then (st.(fail := true), "")
    else if t == "" then (Stream("", true, true), "")
    else (Stream(t[Letters(t)..], Letters(t) == |t|, false), t[..Letters(t)])
  }

  /** `is >> ws`. On a stream that is not good, libraries differ: a strict one sets the fail flag, others skip what
      there is to skip and set no other flag than the end flag. */
  function SkipSpace(st: Stream, strict: bool): Stream {
    if strict && !st.Good() then st.(fail := true)
    else Stream(Trimmed(st.rest), st.eof || Trimmed(st.rest) == "", st.fail)
  }

  /** How many digits `s` starts with. */
  function Digits(s: string): (n: nat)
    ensures n <= |s| && AllDigits(s[..n]) && (n < |s| ==> !IsDigit(s[n]))
  {
    if s == "" || !IsDigit(s[0]) then 0
    else
      var n := Digits(s[1..]);
      assert forall i | 0 < i <= n :: s[i] == s[1..][..n][i - 1];
      1 + n
  }

  /** The length of the sign at the start of `s`. */
  function Sign(s: string): (n: nat)
    ensures n <= |s| && n <= 1
  {
    if s != "" && (s[0] == '-' || s[0] == '+') then 1 else 0
  }

  /** An optional sign and at least one digit. */
  predicate IsNumeral(s: string) {
    |s| > Sign(s) && AllDigits(s[Sign(s)..])
  }

  function NumeralValue(s: string): int
    requires IsNumeral(s)
  {
    if s[0] == '-' then -(Number(s[1..]) as int) else Number(s[Sign(s)..])
  }

  /** The longest start of `s` that is a sign and digits. */
  function NumeralLength(s: string): (n: nat)
    ensures n <= |s|
  {
    Sign(s) + Digits(s[Sign(s)..])
  }

  /** `is >> n` for an int: fails without digits, and on a number out of range. */
  function ReadInt(st: Stream): (Stream, int) {
    var t := Trimmed(st.rest);
    if !st.Good() then (st.(fail := true), 0)
    else if t == "" then (Stream("", true, true), 0)
    else
      var n := NumeralLength(t);
      var numeral := t[..n];
      if !IsNumeral(numeral) then (Stream(t[n..], n == |t|, true), 0)
      else (Stream(t[n..], n == |t|, !Ledger.Int32(NumeralValue(numeral))), NumeralValue(numeral))
  }

  function FirstLine(s: string): string {
    match Find("\n", s)
    case None => s
    case Some(i) => s[..i]
  }

  /** `getline(is, s)` */
  function ReadLine(st: Stream): (Stream, string) {
    if !st.Good() then (st.(fail := true), "")
    else
      match Find("\n", st.rest)
      case None => (Stream("", true, st.rest == ""), st.rest)
      case Some(i) => (Stream(st.rest[i + 1..], false, false), st.rest[..i])
  }

  class InputStream {
    var rest: string
    var eof: bool
    var fail: bool

    function Now(): Stream
      reads this
    {
      Stream(rest, eof, fail)
    }

    constructor (text: string)
      ensures Now() == Stream(text, false, false)
    {
      rest, eof, fail := text, false, false;
    }

    predicate Good()
      reads this
    {
      !eof && !fail
    }

    method Word() returns (s: string)
      modifies this
      ensures (Now(), s) == ReadWord(old(Now()))
    {
      var (st, w) := ReadWord(Now());
      rest, eof, fail, s := st.rest, st.eof, st.fail, w;
    }

    method Space(strict: bool)
      modifies this
      ensures Now() == SkipSpace(old(Now()), strict)
    {
      var st := SkipSpace(Now(), strict);
      rest, eof, fail := st.rest, st.eof, st.fail;
    }

    method Int() returns (n: int)
      modifies this
      ensures (Now(), n) == ReadInt(old(Now()))
    {
      var (st, v) := ReadInt(Now());
      rest, eof, fail, n := st.rest, st.eof, st.fail, v;
    }

    method Line() returns (s: string)
      modifies this
      ensures (Now(), s) == ReadLine(old(Now()))
    {
      var (st, l) := ReadLine(Now());
      rest, eof, fail, s := st.rest, st.eof, st.fail, l;
    }
  }

  // ---------------------------------------------------------------------------------------------
  // The parser
  // ---------------------------------------------------------------------------------------------

  /** What a message leads to: nothing, a line in the log, or the answer to request `id`. */
  datatype Outcome = Nothing | Logged | Notify(id: int, ok: bool, info: string)

  /** A word and the space after it. */
  function NextWord(st: Stream, strict: bool): (Stream, string) {
    var (st', w) := ReadWord(st);
    (SkipSpace(st', strict), w)
  }

  function Protocol(message: string, strict: bool): Outcome {
    var (st1, action) := NextWord(Stream(message, false, false), strict);
    if !st1.Good() then Nothing
    else
      var (st2, result) := NextWord(st1, strict);
      if !st2.Good() then Nothing else Rest(action, result, st2, strict)
  }

  function Rest(action: string, result: string, st: Stream, strict: bool): Outcome {
    var (st3, id) := ReadInt(st);
    var st4 := SkipSpace(st3, strict);
    if st4.fail then (if action == "LOG" then Logged else Nothing)
    else
      var (st5, info) := ReadLine(st4);
      if action == "LOG" then Logged else Notify(id, result == "SUCCESS", info)
  }

  method HandleMessage(message: string, strict: bool) returns (r: Outcome)
    ensures r == Protocol(message, strict)
  {
    var stream := new InputStream(message);
    var action, result, info := "", "", "";
    var id: int;
    if stream.Good() {
      action := stream.Word();
      stream.Space(strict);
    } else {
      return Nothing;
    }
    if stream.Good() {
      result := stream.Word();
      stream.Space(strict);
    } else {
      return Nothing;
    }
    if stream.Good() {
      id := stream.Int();
      stream.Space(strict);
      if stream.fail {
        return if action == "LOG" then Logged else Nothing;
      }
    } else {
      return Nothing;
    }
    info := stream.Line();
    if action == "LOG" {
      return Logged;
    } else if result == "SUCCESS" {
      return Notify(id, true, info);
    } else {
      return Notify(id, false, info);
    }
  }

  // ---------------------------------------------------------------------------------------------
  // Which messages notify
  // ---------------------------------------------------------------------------------------------

  /** A message taken apart. */
  datatype Parts = Parts(lead: string, action: string, gap1: string, result: string, gap2: string, numeral: string, tail: string)
  {
    function Message(): string {
      lead + (action + (gap1 + (result + (gap2 + (numeral + tail)))))
    }

    /** Three words separated by white space, the third starting with an int in range that the tail does not
        continue. */
    predicate WellFormed() {
      && AllSpace(lead) && IsWord(action)
      && gap1 != "" && AllSpace(gap1) && IsWord(result)
      && gap2 != "" && AllSpace(gap2)
      && IsNumeral(numeral) && Ledger.Int32(NumeralValue(numeral))
      && (tail == "" || !IsDigit(tail[0]))
    }
  }

  lemma SpaceThenWord(gap: string, w: string, rest: string)
    requires AllSpace(gap) && w != "" && !IsSpace(w[0])
    ensures Trimmed(gap + (w + rest)) == w + rest
  {
    var s := gap + (w + rest);
    assert s[..|gap|] == gap && s[|gap|..] == w + rest;
    SpacesIs(s, |gap|);
  }

  lemma WordThenSpace(w: string, gap: string, rest: string)
    requires IsWord(w) && gap != "" && AllSpace(gap)
    ensures Letters(w + (gap + rest)) == |w|
  {
    var s := w + (gap + rest);
    assert s[..|w|] == w && s[|w|] == gap[0];
    LettersIs(s, |w|);
  }

  /** Reading a word takes it and the space after it. */
  lemma NextWordReads(lead: string, w: string, gap: string, next: string, rest: string, strict: bool)
    requires AllSpace(lead) && IsWord(w) && gap != "" && AllSpace(gap) && next != "" && !IsSpace(next[0])
    ensures NextWord(Stream(lead + (w + (gap + (next + rest))), false, false), strict) == (Stream(next + rest, false, false), w)
  {
    var after := gap + (next + rest);
    SpaceThenWord(lead, w, after);
    WordThenSpace(w, gap, next + rest);
    assert (w + after)[..|w|] == w && (w + after)[|w|..] == after;
    SpaceThenWord(gap, next, rest);
  }

  lemma DigitsIs(s: string, n: nat)
    requires n <= |s| && AllDigits(s[..n]) && (n < |s| ==> !IsDigit(s[n]))
    ensures Digits(s) == n
  {
    var k := Digits(s);
    assert forall i | 0 <= i < n :: s[i] == s[..n][i];
    assert forall i | 0 <= i < k :: s[i] == s[..k][i];
  }

  lemma NumeralReads(numeral: string, tail: string)
    requires IsNumeral(numeral) && Ledger.Int32(NumeralValue(numeral)) && (tail == "" || !IsDigit(tail[0]))
    ensures ReadInt(Stream(numeral + tail, false, false)) == (Stream(tail, tail == "", false), NumeralValue(numeral))
    ensures !IsSpace(numeral[0])
  {
    var s, k := numeral + tail, Sign(numeral);
    assert s[0] == numeral[0];
    assert numeral[k..][0] == numeral[k];
    SpacesIs(s, 0);
    assert s[k..] == numeral[k..] + tail;
    assert s[k..][..|numeral| - k] == numeral[k..];
    DigitsIs(s[k..], |numeral| - k);
    assert s[..|numeral|] == numeral && s[|numeral|..] == tail;
  }

  lemma RestReads(action: string, result: string, numeral: string, tail: string, strict: bool)
    requires IsNumeral(numeral) && Ledger.Int32(NumeralValue(numeral)) && (tail == "" || !IsDigit(tail[0]))
    ensures Rest(action, result, Stream(numeral + tail, false, false), strict)
            == if action == "LOG" then Logged
               else if tail == "" && strict then Nothing
               else Notify(NumeralValue(numeral), result == "SUCCESS", FirstLine(Trimmed(tail)))
  {
    NumeralReads(numeral, tail);
  }

  /** Every well-formed message that is not for the log notifies its request once, with the first line of what follows
      the id; only when nothing at all follows does it depend on the library. */
  lemma WellFormedNotifies(p: Parts, strict: bool)
    requires p.WellFormed()
    ensures Protocol(p.Message(), strict)
            == if p.action == "LOG" then Logged
               else if p.tail == "" && strict then Nothing
               else Notify(NumeralValue(p.numeral), p.result == "SUCCESS", FirstLine(Trimmed(p.tail)))
  {
    NumeralReads(p.numeral, p.tail);
    NextWordReads(p.lead, p.action, p.gap1, p.result, p.gap2 + (p.numeral + p.tail), strict);
    NextWordReads("", p.result, p.gap2, p.numeral, p.tail, strict);
    assert "" + (p.result + (p.gap2 + (p.numeral + p.tail))) == p.result + (p.gap2 + (p.numeral + p.tail));
    RestReads(p.action, p.result, p.numeral, p.tail, strict);
  }

  lemma NextWordTakes(s: string, strict: bool) returns (lead: string, gap: string)
    requires NextWord(Stream(s, false, false), strict).0.Good()
    ensures var (st, w) := NextWord(Stream(s, false, false), strict);
            && s == lead + (w + (gap + st.rest)) && AllSpace(lead) && IsWord(w)
            && AllSpace(gap) && gap != "" && st.rest != "" && !IsSpace(st.rest[0])
            && st.eof == st.fail == false
    ensures s != "" && !IsSpace(s[0]) ==> lead == ""
  {
    var t := Trimmed(s);
    lead := s[..Spaces(s)];
    assert t != "" && !IsSpace(t[0]);
    var n := Letters(t);
    var after := t[n..];
    gap := after[..Spaces(after)];
    assert n < |t| && IsSpace(after[0]);
    Cut(s, Spaces(s));
    Cut(t, n);
    Cut(after, Spaces(after));
  }

  lemma Cut(s: string, n: nat)
    requires n <= |s|
    ensures s == s[..n] + s[n..]
  {
  }

  /** And nothing else notifies: a message that does is well formed and not for the log. */
  lemma NotifiedIsWellFormed(message: string, strict: bool) returns (p: Parts)
    requires Protocol(message, strict).Notify?
    ensures p.WellFormed() && p.Message() == message && p.action != "LOG" && !(p.tail == "" && strict)
    ensures Protocol(message, strict)
            == Notify(NumeralValue(p.numeral), p.result == "SUCCESS", FirstLine(Trimmed(p.tail)))
  {
    var lead, gap1 := NextWordTakes(message, strict);
    var (st1, action) := NextWord(Stream(message, false, false), strict);
    var gap2, result, t := SecondWord(st1, strict);
    var n := RestNotifies(action, result, t, strict);
    p := Parts(lead, action, gap1, result, gap2, t[..n], t[n..]);
    Reassembled(message, lead, action, gap1, result, gap2, t, n);
    WellFormedNotifies(p, strict);
  }

  lemma SecondWord(st: Stream, strict: bool) returns (gap: string, w: string, t: string)
    requires st.Good() && st.rest != "" && !IsSpace(st.rest[0])
    requires NextWord(st, strict).0.Good()
    ensures NextWord(st, strict) == (Stream(t, false, false), w)
    ensures st.rest == w + (gap + t) && IsWord(w) && gap != "" && AllSpace(gap) && t != "" && !IsSpace(t[0])
  {
    var lead, g := NextWordTakes(st.rest, strict);
    var (st', w') := NextWord(st, strict);
    gap, w, t := g, w', st'.rest;
    assert "" + (w + (gap + t)) == w + (gap + t);
  }

  lemma RestNotifies(action: string, result: string, t: string, strict: bool) returns (n: nat)
    requires t != "" && !IsSpace(t[0])
    requires Rest(action, result, Stream(t, false, false), strict).Notify?
    ensures n <= |t| && IsNumeral(t[..n]) && Ledger.Int32(NumeralValue(t[..n])) && (n < |t| ==> !IsDigit(t[n]))
    ensures action != "LOG" && !(n == |t| && strict)
  {
    n := NumeralLength(t);
    SpacesIs(t, 0);
    assert t[0..] == t;
    assert n < |t| ==> t[n] == t[Sign(t)..][Digits(t[Sign(t)..])];
  }

  lemma Reassembled(message: string, lead: string, action: string, gap1: string, result: string, gap2: string, t: string, n: nat)
    requires n <= |t|
    requires message == lead + (action + (gap1 + (result + (gap2 + t))))
    ensures message == Parts(lead, action, gap1, result, gap2, t[..n], t[n..]).Message()
  {
    assert t == t[..n] + t[n..];
  }

  // ---------------------------------------------------------------------------------------------
  // What drivers print
  // ---------------------------------------------------------------------------------------------

  /** ACTION RESULT ID INFO */
  function Reply(action: string, result: string, id: int, info: string): string {
    action + " " + result + " " + Printed(id) + " " + info
  }

  lemma PrintedNumeral(n: int)
    ensures IsNumeral(Printed(n)) && NumeralValue(Printed(n)) == n
  {
    NumberOfDecimal(if n < 0 then -n else n);
    if n < 0 {
      assert Printed(n)[1..] == Decimal(-n);
    } else {
      assert Printed(n)[0..] == Printed(n);
    }
  }

  lemma ReplyParts(action: string, result: string, id: int, info: string)
    ensures Reply(action, result, id, info) == Parts("", action, " ", result, " ", Printed(id), " " + info).Message()
  {
  }

  lemma InfoKept(info: string)
    ensures FirstLine(Trimmed(" " + info)) == info <==> '\n' !in info && (info != "" ==> !IsSpace(info[0]))
  {
    assert (" " + info)[1..] == info;
    assert Trimmed(" " + info) == Trimmed(info);
    if info != "" && IsSpace(info[0]) {
      assert |Trimmed(info)| < |info|;
    } else {
      assert Trimmed(info) == info;
      match Find("\n", info)
      case None =>
        assert forall i | 0 <= i < |info| && info[i] == '\n' :: OccursAt("\n", info, i);
      case Some(i) =>
        assert info[i..i + 1][0] == info[i];
    }
  }

  /** A printed reply is answered with exactly what was printed, when and only when it is not for the log and its
      information is one line that does not start with white space. */
  lemma ReplyRoundTrip(action: string, result: string, id: int, info: string, strict: bool)
    requires IsWord(action) && IsWord(result) && Ledger.Int32(id)
    ensures Protocol(Reply(action, result, id, info), strict) == Notify(id, result == "SUCCESS", info)
            <==> action != "LOG" && '\n' !in info && (info != "" ==> !IsSpace(info[0]))
  {
    var p := Parts("", action, " ", result, " ", Printed(id), " " + info);
    ReplyParts(action, result, id, info);
    PrintedNumeral(id);
    WellFormedNotifies(p, strict);
    InfoKept(info);
  }

  // ---------------------------------------------------------------------------------------------
  // Every other message
  // ---------------------------------------------------------------------------------------------

  /** An int with or without a sign. */
  lemma NumeralSigns(digits: string)
    requires digits != "" && AllDigits(digits)
    ensures IsNumeral(digits) && NumeralValue(digits) == Number(digits)
    ensures IsNumeral("+" + digits) && NumeralValue("+" + digits) == Number(digits)
    ensures IsNumeral("-" + digits) && NumeralValue("-" + digits) == -(Number(digits) as int)
  {
    assert digits[0..] == digits && ("+" + digits)[1..] == digits && ("-" + digits)[1..] == digits;
    assert IsDigit(digits[0]);
  }

  /** Three tokens: of the third only the beginning `t` of the rest of the message is said. */
  ghost predicate ThreeTokens(message: string, lead: string, action: string, gap1: string, result: string, gap2: string, t: string) {
    && message == lead + (action + (gap1 + (result + (gap2 + t))))
    && AllSpace(lead) && IsWord(action) && gap1 != "" && AllSpace(gap1) && IsWord(result) && gap2 != "" && AllSpace(gap2)
    && t != "" && !IsSpace(t[0])
  }

  /** A message of three tokens goes to the log exactly when the first is LOG, also when the third is no int; if it is
      neither logged nor notifies, nothing comes of it. */
  lemma LoggedWhen(message: string, lead: string, action: string, gap1: string, result: string, gap2: string, t: string, strict: bool)
    requires ThreeTokens(message, lead, action, gap1, result, gap2, t)
    ensures Protocol(message, strict) == Logged <==> action == "LOG"
    ensures Protocol(message, strict).Notify? ==> action != "LOG"
  {
    ProtocolReads(lead, action, gap1, result, gap2, t, strict);
    RestLogs(action, result, Stream(t, false, false), strict);
  }

  lemma ProtocolReads(lead: string, action: string, gap1: string, result: string, gap2: string, t: string, strict: bool)
    requires ThreeTokens(lead + (action + (gap1 + (result + (gap2 + t)))), lead, action, gap1, result, gap2, t)
    ensures Protocol(lead + (action + (gap1 + (result + (gap2 + t)))), strict)
         == Rest(action, result, Stream(t, false, false), strict)
  {
    NextWordReads(lead, action, gap1, result, gap2 + t, strict);
    SecondReads(result, gap2, t, strict);
  }

  lemma SecondReads(result: string, gap2: string, t: string, strict: bool)
    requires IsWord(result) && gap2 != "" && AllSpace(gap2) && t != "" && !IsSpace(t[0])
    ensures NextWord(Stream(result + (gap2 + t), false, false), strict) == (Stream(t, false, false), result)
  {
    NextWordReads("", result, gap2, t, "", strict);
    assert t + "" == t;
    assert "" + (result + (gap2 + (t + ""))) == result + (gap2 + t);
  }

  lemma RestLogs(action: string, result: string, st: Stream, strict: bool)
    ensures Rest(action, result, st, strict) == Logged <==> action == "LOG"
    ensures Rest(action, result, st, strict).Notify? ==> action != "LOG"
  {
  }

  /** Of a message with fewer than three tokens nothing comes. */
  lemma FewTokens(message: string, strict: bool)
      returns (lead: string, action: string, gap1: string, result: string, gap2: string, t: string)
    requires Protocol(message, strict) != Nothing
    ensures ThreeTokens(message, lead, action, gap1, result, gap2, t)
  {
    lead, gap1 := NextWordTakes(message, strict);
    var (st1, w) := NextWord(Stream(message, false, false), strict);
    action := w;
    gap2, result, t := SecondWord(st1, strict);
  }
}
