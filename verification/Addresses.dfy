/** The router's conversions between dotted quads, integers and MAC addresses, on arbitrary text. */
module Addresses {
  import opened Sequences
  import opened Separators
  import opened Text
  import opened Words
  import opened Powers

  // ---------------------------------------------------------------------------------------------
  // Ruby's split and to_i
  // ---------------------------------------------------------------------------------------------

  function DropEmptyTail(parts: seq<string>): seq<string> {
    if parts != [] && parts[|parts| - 1] == "" then DropEmptyTail(parts[..|parts| - 1]) else parts
  }

  /** String#split: empty pieces at the end do not count. */
  function Parts(s: string, sep: string): seq<string>
    requires sep != ""
  {
    DropEmptyTail(Split(s, sep))
  }

  function HexValue(c: char): int {
    if IsDigit(c) then Digit(c)
    else if 'a' <= c <= 'f' then (c - 'a') as int + 10
    else if 'A' <= c <= 'F' then (c - 'A') as int + 10
    else 99
  }

  predicate IsDigitOf(c: char, base: nat) {
    HexValue(c) < base
  }

  /** Reads digits, with single underscores between them. */
  function DigitRun(s: string, base: nat, acc: nat): nat {
    if s == "" then acc
    else if IsDigitOf(s[0], base) then DigitRun(s[1..], base, base * acc + HexValue(s[0]))
    else if s[0] == '_' && |s| > 1 && IsDigitOf(s[1], base) then DigitRun(s[1..], base, acc)
    else acc
  }

  /** The letter that can follow a leading zero to name the base: 0d and 0x. */
  function SkipPrefix(s: string, base: nat): string {
    if |s| > 1 && s[0] == '0' && LowerChar(s[1]) == (if base == 16 then 'x' else 'd') then s[2..] else s
  }

  function Unsigned(s: string, base: nat): nat {
    var t := SkipPrefix(s, base);
    if t != "" && IsDigitOf(t[0], base) then DigitRun(t, base, 0) else 0
  }

  /** String#to_i: white space, a sign, then as many digits as there are; 0 without any. */
  function ToI(s: string, base: nat): int {
    var t := Trimmed(s);
    if t != "" && t[0] == '-' then -(Unsigned(t[1..], base) as int)
    else if t != "" && t[0] == '+' then Unsigned(t[1..], base)
    else Unsigned(t, base)
  }

  lemma {:induction false} RunSnoc(s: string, c: char, acc: nat)
    requires AllDigits(s) && IsDigit(c)
    ensures DigitRun(s + [c], 10, acc) == 10 * DigitRun(s, 10, acc) + Digit(c)
  {
    if s == "" {
      assert "" + [c] == [c] && [c][1..] == "";
      assert DigitRun([c][1..], 10, 10 * acc + Digit(c)) == 10 * acc + Digit(c);
    } else {
      assert (s + [c])[1..] == s[1..] + [c];
      RunSnoc(s[1..], c, 10 * acc + Digit(s[0]));
    }
  }

  lemma {:induction false} RunIsNumber(s: string)
    requires AllDigits(s)
    ensures DigitRun(s, 10, 0) == Number(s)
  {
    if s != "" {
      var k := |s| - 1;
      RunIsNumber(s[..k]);
      RunSnoc(s[..k], s[k], 0);
      assert s == s[..k] + [s[k]];
    }
  }

  lemma DecimalToI(n: nat)
    ensures ToI(Decimal(n), 10) == n
  {
    var s := Decimal(n);
    assert IsDigit(s[0]) && (|s| > 1 ==> IsDigit(s[1]));
    RunIsNumber(s);
    NumberOfDecimal(n);
  }

  // ---------------------------------------------------------------------------------------------
  // Dotted quads and integers
  // ---------------------------------------------------------------------------------------------

  function Fold(parts: seq<string>): int {
    if parts == [] then 0 else Fold(parts[..|parts| - 1]) * 256 + ToI(parts[|parts| - 1], 10)
  }

  function IpToInt(ip: string): int {
    Fold(Parts(ip, "."))
  }

  method ComputeIpToInt(ip: string) returns (num: int)
    ensures num == IpToInt(ip)
  {
    var parts := Parts(ip, ".");
    num := 0;
    for i := 0 to |parts|
      invariant num == Fold(parts[..i])
    {
      assert parts[..i + 1][..i] == parts[..i];
      num := num * 256;
      num := num + ToI(parts[i], 10);
    }
    assert parts[..|parts|] == parts;
  }

  type Octet = n: nat | n < 256

  function Octets(num: int): (o: seq<Octet>)
    ensures |o| == 4
  {
    [num / 0x100_0000 % 256, num / 0x1_0000 % 256, num / 0x100 % 256, num % 256]
  }

  function Dotted(o: seq<Octet>): string
    requires |o| == 4
  {
    Join([Decimal(o[0]), Decimal(o[1]), Decimal(o[2]), Decimal(o[3])], ".")
  }

  function IntToIp(num: int): string {
    Dotted(Octets(num))
  }

  lemma OctetAt(num: int, i: nat)
    requires i < 4
    ensures num / Pow256(i) % 256 == Octets(num)[3 - i]
  {
    assert Pow256(1) == 256 && Pow256(2) == 0x1_0000 && Pow256(3) == 0x100_0000;
  }

  method ComputeIntToIp(num: int) returns (s: string)
    ensures s == IntToIp(num)
  {
    var ip: seq<string> := [];
    var i := 3;
    while i >= 0
      invariant -1 <= i <= 3
      invariant |ip| == 3 - i
      invariant forall k | 0 <= k < |ip| :: ip[k] == Decimal(Octets(num)[k])
    {
      OctetAt(num, i);
      ip := ip + [Decimal(num / Pow256(i) % 256)];
      i := i - 1;
    }
    var o := Octets(num);
    assert ip == [Decimal(o[0]), Decimal(o[1]), Decimal(o[2]), Decimal(o[3])];
    s := Join(ip, ".");
  }

  lemma AbsentSeparable(parts: seq<string>, sep: char)
    requires parts != []
    requires forall i | 0 <= i < |parts| :: sep !in parts[i]
    ensures Separable(parts, [sep])
  {
    forall i | 0 <= i < |parts|
      ensures !Occurs([sep], parts[i]) && Clean(parts[i], [sep])
    {
      CleanOfChar(parts[i], sep);
    }
  }

  lemma PartsOfJoined(parts: seq<string>, sep: char)
    requires parts != [] && parts[|parts| - 1] != ""
    requires forall i | 0 <= i < |parts| :: sep !in parts[i]
    ensures Parts(Join(parts, [sep]), [sep]) == parts
  {
    AbsentSeparable(parts, sep);
    SplitJoin(parts, [sep]);
  }

  lemma PartsOfDotted(o: seq<Octet>)
    requires |o| == 4
    ensures Parts(Dotted(o), ".") == [Decimal(o[0]), Decimal(o[1]), Decimal(o[2]), Decimal(o[3])]
  {
    var parts := [Decimal(o[0]), Decimal(o[1]), Decimal(o[2]), Decimal(o[3])];
    assert forall i | 0 <= i < 4 :: AllDigits(parts[i]);
    PartsOfJoined(parts, '.');
  }

  function Shifted(high: int, low: int): int {
    high * 256 + low
  }

  function Value(o: seq<Octet>): int
    requires |o| == 4
  {
    Shifted(Shifted(Shifted(o[0], o[1]), o[2]), o[3])
  }

  lemma FoldFour(a: string, b: string, c: string, d: string)
    ensures Fold([a, b, c, d]) == Shifted(Shifted(Shifted(ToI(a, 10), ToI(b, 10)), ToI(c, 10)), ToI(d, 10))
  {
    assert [a, b, c, d][..3] == [a, b, c] && [a, b, c][..2] == [a, b] && [a, b][..1] == [a] && [a][..0] == [];
    assert Fold([a]) == ToI(a, 10);
    assert Fold([a, b]) == Shifted(ToI(a, 10), ToI(b, 10));
    assert Fold([a, b, c]) == Shifted(Shifted(ToI(a, 10), ToI(b, 10)), ToI(c, 10));
  }

  lemma DottedToInt(o: seq<Octet>)
    requires |o| == 4
    ensures IpToInt(Dotted(o)) == Value(o)
  {
    PartsOfDotted(o);
    FoldFour(Decimal(o[0]), Decimal(o[1]), Decimal(o[2]), Decimal(o[3]));
    DecimalToI(o[0]);
    DecimalToI(o[1]);
    DecimalToI(o[2]);
    DecimalToI(o[3]);
  }

  lemma ValueOfOctets(num: int)
    ensures Value(Octets(num)) == num % 0x1_0000_0000
  {
    var a, b, c := num / 0x100, num / 0x1_0000, num / 0x100_0000;
    assert num == 256 * a + num % 256;
    assert a / 256 == b && a == 256 * b + a % 256;
    assert b / 256 == c && b == 256 * c + b % 256;
    assert c == 256 * (c / 256) + c % 256;
    assert num == 0x1_0000_0000 * (c / 256) + Value(Octets(num));
  }

  lemma OctetsOfValue(o: seq<Octet>)
    requires |o| == 4
    ensures Octets(Value(o)) == o
  {
    var y := Shifted(o[0], o[1]);
    var x := Shifted(y, o[2]);
    ShiftedParts(x, o[3]);
    ShiftedParts(y, o[2]);
    ShiftedParts(o[0], o[1]);
    DivideTwice(Value(o));
  }

  lemma ShiftedParts(high: int, low: Octet)
    ensures Shifted(high, low) / 256 == high && Shifted(high, low) % 256 == low
  {
  }

  lemma DivideTwice(v: int)
    ensures v / 0x1_0000 == v / 0x100 / 0x100 && v / 0x100_0000 == v / 0x100 / 0x100 / 0x100
  {
  }

  lemma ReadBack(num: int)
    ensures IpToInt(IntToIp(num)) == num % 0x1_0000_0000
  {
    DottedToInt(Octets(num));
    ValueOfOctets(num);
  }

  lemma InRange(num: int)
    ensures num % 0x1_0000_0000 == num <==> 0 <= num < 0x1_0000_0000
  {
  }

  /** The text made from any integer is read back modulo 2^32; so exactly the 32-bit numbers come back unchanged. */
  lemma IntRoundTrip(num: int)
    ensures IpToInt(IntToIp(num)) == num % 0x1_0000_0000
    ensures IpToInt(IntToIp(num)) == num <==> 0 <= num < 0x1_0000_0000
  {
    ReadBack(num);
    InRange(num);
  }

  /** Four numbers below 256 in plain decimal, separated by dots. */
  ghost predicate IsQuad(s: string) {
    exists o: seq<Octet> :: |o| == 4 && s == Dotted(o)
  }

  /** Of all texts, exactly the canonical quads come back from their number unchanged. */
  lemma QuadRoundTrip(s: string)
    ensures IntToIp(IpToInt(s)) == s <==> IsQuad(s)
  {
    if o: seq<Octet> :| |o| == 4 && s == Dotted(o) {
      DottedToInt(o);
      OctetsOfValue(o);
    }
  }

  // ---------------------------------------------------------------------------------------------
  // MAC addresses
  // ---------------------------------------------------------------------------------------------

  const MAC_PREFIX := "02:00"

  function HexChar(d: nat): (c: char)
    requires d < 16
    ensures HexValue(c) == d && LowerChar(c) == c && c != ':' && c != 'x' && !IsSpace(c) && c != '-' && c != '+'
  {
    if d < 10 then '0' + d as char else 'a' + (d - 10) as char
  }

  /** A number in hexadecimal, lower case. */
  function Hex(n: nat): string {
    if n < 16 then [HexChar(n)] else Hex(n / 16) + [HexChar(n % 16)]
  }

  /** At least two digits. */
  function Hex2(n: nat): string {
    if n < 16 then "0" + Hex(n) else Hex(n)
  }

  function AllHex2(parts: seq<string>): seq<string>
    requires forall i | 0 <= i < |parts| :: Canonical(parts[i])
  {
    seq(|parts|, i requires 0 <= i < |parts| && Canonical(parts[i]) => Hex2(Number(parts[i])))
  }

  /** The MAC address of an IP address; none when a part is not a plain decimal number. */
  function Ip2Mac(ip: string): Option<string> {
    var parts := Parts(ip, ".");
    if forall i | 0 <= i < |parts| :: Canonical(parts[i]) then Some(MAC_PREFIX + ":" + Join(AllHex2(parts), ":")) else None
  }

  function FromHex(parts: seq<string>): seq<string> {
    seq(|parts|, i requires 0 <= i < |parts| => Printed(ToI(parts[i], 16)))
  }

  /** The IP address of a MAC address: what follows the first two parts; none when there are fewer. */
  function Mac2Ip(mac: string): Option<string> {
    var parts := Parts(mac, ":");
    if |parts| < 2 then None else Some(Join(FromHex(parts[2..]), "."))
  }

  function MacOf(o: seq<Octet>): string
    requires |o| == 4
  {
    Join(["02", "00", Hex2(o[0]), Hex2(o[1]), Hex2(o[2]), Hex2(o[3])], ":")
  }

  /** Six two-digit lower-case hexadecimal numbers, the first two the prefix. */
  ghost predicate IsMac(m: string) {
    exists o: seq<Octet> :: |o| == 4 && m == MacOf(o)
  }

  lemma HexPair(n: Octet)
    ensures Hex2(n) == [HexChar(n / 16), HexChar(n % 16)]
    ensures ToI(Hex2(n), 16) == n && ':' !in Hex2(n)
  {
    var s := Hex2(n);
    if n >= 16 {
      assert Hex(n / 16) == [HexChar(n / 16)];
    }
    assert s == [HexChar(n / 16), HexChar(n % 16)];
    assert s[1..][1..] == "";
    assert DigitRun(s, 16, 0) == DigitRun(s[1..], 16, n / 16) == DigitRun("", 16, n / 16 * 16 + n % 16);
  }

  lemma DottedToMac(o: seq<Octet>)
    requires |o| == 4
    ensures Ip2Mac(Dotted(o)) == Some(MacOf(o))
  {
    HexOfDotted(o);
    PrefixJoins(Hex2(o[0]), Hex2(o[1]), Hex2(o[2]), Hex2(o[3]));
  }

  lemma PrefixJoins(a: string, b: string, c: string, d: string)
    ensures Join(["02", "00", a, b, c, d], ":") == MAC_PREFIX + ":" + Join([a, b, c, d], ":")
  {
    var hex := [a, b, c, d];
    JoinWithTwo("02", "00", hex, ":");
    assert ["02", "00"] + hex == ["02", "00", a, b, c, d];
    assert "02" + ":" + ("00" + ":" + Join(hex, ":")) == MAC_PREFIX + ":" + Join(hex, ":");
  }

  lemma HexOfDotted(o: seq<Octet>)
    requires |o| == 4
    ensures Ip2Mac(Dotted(o)) == Some(MAC_PREFIX + ":" + Join([Hex2(o[0]), Hex2(o[1]), Hex2(o[2]), Hex2(o[3])], ":"))
  {
    PartsOfDotted(o);
    NumberOfDecimal(o[0]);
    NumberOfDecimal(o[1]);
    NumberOfDecimal(o[2]);
    NumberOfDecimal(o[3]);
    AllHex2Is([Decimal(o[0]), Decimal(o[1]), Decimal(o[2]), Decimal(o[3])],
              [Hex2(o[0]), Hex2(o[1]), Hex2(o[2]), Hex2(o[3])]);
  }

  lemma AllHex2Is(parts: seq<string>, texts: seq<string>)
    requires |parts| == |texts| && forall i | 0 <= i < |parts| :: Canonical(parts[i]) && Hex2(Number(parts[i])) == texts[i]
    ensures AllHex2(parts) == texts
  {
  }

  lemma JoinWithTwo(a: string, b: string, rest: seq<string>, sep: string)
    requires rest != []
    ensures Join([a, b] + rest, sep) == a + sep + (b + sep + Join(rest, sep))
  {
    assert ([a, b] + rest)[1..] == [b] + rest && ([b] + rest)[1..] == rest;
  }

  lemma HexPlain(n: Octet)
    ensures Hex2(n) != "" && ':' !in Hex2(n)
  {
    HexPair(n);
  }

  lemma MacParts(o: seq<Octet>)
    requires |o| == 4
    ensures Parts(MacOf(o), ":") == ["02", "00", Hex2(o[0]), Hex2(o[1]), Hex2(o[2]), Hex2(o[3])]
  {
    HexPlain(o[0]);
    HexPlain(o[1]);
    HexPlain(o[2]);
    HexPlain(o[3]);
    PartsOfSix("02", "00", Hex2(o[0]), Hex2(o[1]), Hex2(o[2]), Hex2(o[3]));
  }

  lemma PartsOfSix(a: string, b: string, c: string, d: string, e: string, f: string)
    requires f != "" && ':' !in a && ':' !in b && ':' !in c && ':' !in d && ':' !in e && ':' !in f
    ensures Parts(Join([a, b, c, d, e, f], ":"), ":") == [a, b, c, d, e, f]
  {
    PartsOfJoined([a, b, c, d, e, f], ':');
  }

  lemma MacToDotted(o: seq<Octet>)
    requires |o| == 4
    ensures Mac2Ip(MacOf(o)) == Some(Dotted(o))
  {
    MacParts(o);
    var hex := [Hex2(o[0]), Hex2(o[1]), Hex2(o[2]), Hex2(o[3])];
    assert Parts(MacOf(o), ":")[2..] == hex;
    HexReadBack(o);
  }

  lemma HexToDecimal(n: Octet)
    ensures Printed(ToI(Hex2(n), 16)) == Decimal(n)
  {
    HexPair(n);
  }

  lemma FromHexIs(parts: seq<string>, texts: seq<string>)
    requires |parts| == |texts| && forall i | 0 <= i < |parts| :: Printed(ToI(parts[i], 16)) == texts[i]
    ensures FromHex(parts) == texts
  {
  }

  lemma HexReadBack(o: seq<Octet>)
    requires |o| == 4
    ensures FromHex([Hex2(o[0]), Hex2(o[1]), Hex2(o[2]), Hex2(o[3])])
         == [Decimal(o[0]), Decimal(o[1]), Decimal(o[2]), Decimal(o[3])]
  {
    HexToDecimal(o[0]);
    HexToDecimal(o[1]);
    HexToDecimal(o[2]);
    HexToDecimal(o[3]);
    FromHexIs([Hex2(o[0]), Hex2(o[1]), Hex2(o[2]), Hex2(o[3])],
              [Decimal(o[0]), Decimal(o[1]), Decimal(o[2]), Decimal(o[3])]);
  }

  /** Between canonical quads and lower-case MAC addresses under the prefix the two conversions undo each other. */
  lemma MacRoundTrip(ip: string, mac: string)
    ensures IsQuad(ip) ==> Ip2Mac(ip).Some? && IsMac(Ip2Mac(ip).value) && Mac2Ip(Ip2Mac(ip).value) == Some(ip)
    ensures IsMac(mac) ==> Mac2Ip(mac).Some? && IsQuad(Mac2Ip(mac).value) && Ip2Mac(Mac2Ip(mac).value) == Some(mac)
  {
    if o: seq<Octet> :| |o| == 4 && ip == Dotted(o) {
      DottedToMac(o);
      MacToDotted(o);
    }
    if o: seq<Octet> :| |o| == 4 && mac == MacOf(o) {
      DottedToMac(o);
      MacToDotted(o);
    }
  }

  /** So no two canonical quads share a MAC address. */
  lemma Ip2MacInjective(ip1: string, ip2: string)
    requires IsQuad(ip1) && IsQuad(ip2) && Ip2Mac(ip1) == Ip2Mac(ip2)
    ensures ip1 == ip2
  {
    MacRoundTrip(ip1, "");
    MacRoundTrip(ip2, "");
  }

  // ---------------------------------------------------------------------------------------------
  // Any text
  // ---------------------------------------------------------------------------------------------

  /** The value of a dotted quad: the first number counts most. */
  lemma QuadValue(o: seq<Octet>)
    requires |o| == 4
    ensures IpToInt(Decimal(o[0]) + "." + Decimal(o[1]) + "." + Decimal(o[2]) + "." + Decimal(o[3]))
         == Weighted(o[0], o[1], o[2], o[3])
  {
    DottedToInt(o);
    DottedIs(o);
    ValueIs(o[0], o[1], o[2], o[3]);
  }

  function Weighted(a: int, b: int, c: int, d: int): int {
    0x100_0000 * a + 0x1_0000 * b + 0x100 * c + d
  }

  lemma ValueIs(a: int, b: int, c: int, d: int)
    ensures Shifted(Shifted(Shifted(a, b), c), d) == Weighted(a, b, c, d)
  {
  }

  lemma DottedIs(o: seq<Octet>)
    requires |o| == 4
    ensures Dotted(o) == Decimal(o[0]) + "." + Decimal(o[1]) + "." + Decimal(o[2]) + "." + Decimal(o[3])
  {
    JoinFour(Decimal(o[0]), Decimal(o[1]), Decimal(o[2]), Decimal(o[3]));
  }

  lemma JoinFour(a: string, b: string, c: string, d: string)
    ensures Join([a, b, c, d], ".") == a + "." + b + "." + c + "." + d
  {
    assert [a, b, c, d][1..] == [b, c, d] && [b, c, d][1..] == [c, d] && [c, d][1..] == [d];
    assert Join([c, d], ".") == c + "." + d;
    assert Join([b, c, d], ".") == b + "." + (c + "." + d);
    assert Join([a, b, c, d], ".") == a + "." + (b + "." + (c + "." + d));
  }

  /** Empty pieces at the end do not count, all others do. */
  lemma {:induction false} EmptyTail(parts: seq<string>)
    ensures DropEmptyTail(parts) <= parts
    ensures forall i | |DropEmptyTail(parts)| <= i < |parts| :: parts[i] == ""
    ensures DropEmptyTail(parts) != [] ==> DropEmptyTail(parts)[|DropEmptyTail(parts)| - 1] != ""
  {
    if parts != [] && parts[|parts| - 1] == "" {
      EmptyTail(parts[..|parts| - 1]);
    }
  }

  /** What does not continue a number. */
  predicate Ends(tail: string) {
    tail == "" || (!IsDigit(tail[0]) && tail[0] != '_')
  }

  lemma {:induction false} RunStops(digits: string, tail: string, acc: nat)
    requires AllDigits(digits) && Ends(tail)
    ensures DigitRun(digits + tail, 10, acc) == DigitRun(digits, 10, acc)
    decreases |digits|
  {
    if digits == "" {
      assert "" + tail == tail;
      assert tail != "" ==> !IsDigitOf(tail[0], 10);
    } else {
      assert (digits + tail)[1..] == digits[1..] + tail;
      RunStops(digits[1..], tail, 10 * acc + HexValue(digits[0]));
    }
  }

  /** White space, a sign, digits, and then something else is read as the number with the sign. */
  lemma ToIReads(white: string, sign: string, digits: string, tail: string)
    requires AllSpace(white) && (sign == "" || sign == "-" || sign == "+") && digits != "" && AllDigits(digits) && Ends(tail)
    requires digits != "0" || tail == "" || LowerChar(tail[0]) != 'd'
    ensures ToI(white + (sign + (digits + tail)), 10) == if sign == "-" then -(Number(digits) as int) else Number(digits)
  {
    var s := white + (sign + (digits + tail));
    var t := sign + (digits + tail);
    assert s[..|white|] == white && s[|white|..] == t;
    assert IsDigit(digits[0]);
    assert t[0] == if sign == "" then digits[0] else sign[0];
    SpacesIs(s, |white|);
    UnsignedReads(digits, tail);
    assert sign != "" ==> t[1..] == digits + tail;
    assert sign == "" ==> t == digits + tail;
  }

  lemma UnsignedReads(digits: string, tail: string)
    requires digits != "" && AllDigits(digits) && Ends(tail)
    requires digits != "0" || tail == "" || LowerChar(tail[0]) != 'd'
    ensures Unsigned(digits + tail, 10) == Number(digits)
  {
    var u := digits + tail;
    assert u[0] == digits[0];
    assert |u| > 1 ==> u[1] == if |digits| > 1 then digits[1] else tail[0];
    assert SkipPrefix(u, 10) == u;
    RunStops(digits, tail, 0);
    RunIsNumber(digits);
  }

  /** What starts with neither a sign nor a digit, after white space, is read as zero. */
  lemma ToIZero(s: string)
    requires Trimmed(s) == "" || (!IsDigit(Trimmed(s)[0]) && Trimmed(s)[0] != '-' && Trimmed(s)[0] != '+')
    ensures ToI(s, 10) == 0
  {
  }

  /** An underscore between digits does not count. */
  lemma {:induction false} RunUnderscore(a: string, b: string, acc: nat)
    requires AllDigits(a) && b != "" && IsDigit(b[0])
    ensures DigitRun(a + ("_" + b), 10, acc) == DigitRun(a + b, 10, acc)
    decreases |a|
  {
    if a == "" {
      assert "" + ("_" + b) == "_" + b && "" + b == b && ("_" + b)[1..] == b;
    } else {
      assert (a + ("_" + b))[1..] == a[1..] + ("_" + b) && (a + b)[1..] == a[1..] + b;
      RunUnderscore(a[1..], b, 10 * acc + HexValue(a[0]));
    }
  }

  /** Hexadecimal digits, by their codes, in either case. */
  lemma HexCodes(c: char)
    ensures HexValue(c) < 16 <==> 48 <= c as int <= 57 || 65 <= c as int <= 70 || 97 <= c as int <= 102
    ensures 48 <= c as int <= 57 ==> HexValue(c) == c as int - 48
    ensures 65 <= c as int <= 70 ==> HexValue(c) == c as int - 55
    ensures 97 <= c as int <= 102 ==> HexValue(c) == c as int - 87
  {
  }

  /** A zero with the letter of the base in front of a number does not count. */
  lemma PrefixSkipped(s: string)
    requires s != ""
    ensures HexValue(s[0]) < 16 ==> Unsigned("0x" + s, 16) == Unsigned("0X" + s, 16) == DigitRun(s, 16, 0)
    ensures IsDigit(s[0]) ==> Unsigned("0d" + s, 10) == Unsigned("0D" + s, 10) == DigitRun(s, 10, 0)
  {
    assert ("0x" + s)[2..] == s && ("0X" + s)[2..] == s && ("0d" + s)[2..] == s && ("0D" + s)[2..] == s;
    assert LowerChar('x') == LowerChar('X') == 'x' && LowerChar('d') == LowerChar('D') == 'd';
  }
}
