/** The base64 encoding of RFC 4648, section 4, in one line. */
module Base64 {
  import opened Text

  predicate IsBytes(s: string) {
    forall i | 0 <= i < |s| :: s[i] < '\U{100}'
  }

  /** A text of bytes. */
  type Bytes = s: string | IsBytes(s)

  /** The letter for six bits. */
  function Letter(n: nat): (c: char)
    requires n < 64
    ensures IsLetter(c)
  {
    if n < 26 then 'A' + n as char
    else if n < 52 then 'a' + (n - 26) as char
    else if n < 62 then '0' + (n - 52) as char
    else if n == 62 then '+'
    else '/'
  }

  predicate IsLetter(c: char) {
    IsAlpha(c) || IsDigit(c) || c == '+' || c == '/'
  }

  lemma LettersDiffer(m: nat, n: nat)
    requires m < 64 && n < 64
    ensures Letter(m) == Letter(n) <==> m == n
  {
  }

  function Code(c: char): (n: nat)
    requires c < '\U{100}'
    ensures n < 256
  {
    c as int
  }

  /** Four letters for every three bytes; the last one or two bytes are padded. */
  function Encode(s: Bytes): string {
    if s == "" then ""
    else if |s| == 1 then First(s[0], '\0') + "=="
    else if |s| == 2 then First(s[0], s[1]) + [Letter(Code(s[1]) % 16 * 4)] + "="
    else First(s[0], s[1]) + Second(s[1], s[2]) + Encode(s[3..])
  }

  /** The first twelve bits of two bytes. */
  function First(a: char, b: char): (r: string)
    requires a < '\U{100}' && b < '\U{100}'
    ensures |r| == 2
  {
    [Letter(Code(a) / 4), Letter(Code(a) % 4 * 16 + Code(b) / 16)]
  }

  /** The last twelve bits of two bytes. */
  function Second(a: char, b: char): (r: string)
    requires a < '\U{100}' && b < '\U{100}'
    ensures |r| == 2
  {
    [Letter(Code(a) % 16 * 4 + Code(b) / 64), Letter(Code(b) % 64)]
  }

  lemma {:induction false} EncodedLetters(s: Bytes)
    ensures forall i | 0 <= i < |Encode(s)| :: IsLetter(Encode(s)[i]) || Encode(s)[i] == '='
    ensures s != "" ==> |Encode(s)| >= 4 && Encode(s)[0] == Letter(Code(s[0]) / 4)
  {
    if |s| > 2 {
      EncodedLetters(s[3..]);
    }
  }

  lemma Digits(p: nat, q: nat, x: nat, y: nat, k: nat)
    requires x < k && y < k
    ensures p * k + x == q * k + y <==> p == q && x == y
  {
    if p < q {
      assert (p + 1) * k <= q * k;
    } else if q < p {
      assert (q + 1) * k <= p * k;
    }
  }

  lemma FirstBits(a: nat, b: nat, c: nat, d: nat)
    requires a < 256 && b < 256 && c < 256 && d < 256
    ensures a / 4 == c / 4 && a % 4 * 16 + b / 16 == c % 4 * 16 + d / 16 <==> a == c && b / 16 == d / 16
  {
    Digits(a % 4, c % 4, b / 16, d / 16, 16);
  }

  lemma SecondBits(a: nat, b: nat, c: nat, d: nat)
    requires a < 256 && b < 256 && c < 256 && d < 256
    ensures a % 16 * 4 + b / 64 == c % 16 * 4 + d / 64 && b % 64 == d % 64 <==> a % 16 == c % 16 && b == d
  {
    Digits(a % 16, c % 16, b / 64, d / 64, 4);
  }

  lemma PairsEqual(a: char, b: char, c: char, d: char)
    ensures [a, b] == [c, d] <==> a == c && b == d
  {
    assert [a, b][0] == a && [a, b][1] == b && [c, d][0] == c && [c, d][1] == d;
  }

  /** The bits of the bytes are the bits of the letters. */
  lemma SameFirst(a: char, b: char, c: char, d: char)
    requires a < '\U{100}' && b < '\U{100}' && c < '\U{100}' && d < '\U{100}'
    ensures First(a, b) == First(c, d) <==> a == c && Code(b) / 16 == Code(d) / 16
  {
    var m, n, m', n' := Code(a) / 4, Code(a) % 4 * 16 + Code(b) / 16, Code(c) / 4, Code(c) % 4 * 16 + Code(d) / 16;
    LettersDiffer(m, m');
    LettersDiffer(n, n');
    PairsEqual(Letter(m), Letter(n), Letter(m'), Letter(n'));
    FirstBits(Code(a), Code(b), Code(c), Code(d));
  }

  lemma SameSecond(a: char, b: char, c: char, d: char)
    requires a < '\U{100}' && b < '\U{100}' && c < '\U{100}' && d < '\U{100}'
    ensures Second(a, b) == Second(c, d) <==> Code(a) % 16 == Code(c) % 16 && b == d
  {
    var m, n, m', n' := Code(a) % 16 * 4 + Code(b) / 64, Code(b) % 64, Code(c) % 16 * 4 + Code(d) / 64, Code(d) % 64;
    LettersDiffer(m, m');
    LettersDiffer(n, n');
    PairsEqual(Letter(m), Letter(n), Letter(m'), Letter(n'));
    SecondBits(Code(a), Code(b), Code(c), Code(d));
  }

  lemma SameByte(a: char, b: char)
    requires a < '\U{100}' && b < '\U{100}'
    requires Code(a) / 16 == Code(b) / 16 && Code(a) % 16 == Code(b) % 16
    ensures a == b
  {
  }

  lemma EncodeShort(s: Bytes)
    requires 0 < |s| <= 2
    ensures |Encode(s)| == 4 && Encode(s)[3] == '=' && (Encode(s)[2] == '=' <==> |s| == 1)
  {
  }

  lemma EncodeLong(s: Bytes)
    requires |s| > 2
    ensures Encode(s)[..2] == First(s[0], s[1]) && Encode(s)[2..4] == Second(s[1], s[2]) && Encode(s)[4..] == Encode(s[3..])
    ensures Encode(s)[3] != '='
  {
    assert Encode(s)[3] == Letter(Code(s[2]) % 64);
  }

  lemma SameOne(s: Bytes, t: Bytes)
    requires |s| == |t| == 1 && Encode(s) == Encode(t)
    ensures s[0] == t[0]
  {
    EncodeOne(s);
    EncodeOne(t);
    SameFirst(s[0], '\0', t[0], '\0');
  }

  lemma EncodeOne(s: Bytes)
    requires |s| == 1
    ensures Encode(s)[..2] == First(s[0], '\0')
  {
  }

  lemma EncodeTwo(s: Bytes)
    requires |s| == 2
    ensures Encode(s)[..2] == First(s[0], s[1]) && Encode(s)[2] == Letter(Code(s[1]) % 16 * 4)
  {
  }

  lemma SameTwo(s: Bytes, t: Bytes)
    requires |s| == |t| == 2 && Encode(s) == Encode(t)
    ensures s[0] == t[0] && s[1] == t[1]
  {
    EncodeTwo(s);
    EncodeTwo(t);
    SameFirst(s[0], s[1], t[0], t[1]);
    LettersDiffer(Code(s[1]) % 16 * 4, Code(t[1]) % 16 * 4);
    SameByte(s[1], t[1]);
  }

  lemma SameThree(s: Bytes, t: Bytes)
    requires |s| > 2 && |t| > 2 && Encode(s) == Encode(t) && s[3..] == t[3..]
    ensures s == t
  {
    EncodeLong(s);
    EncodeLong(t);
    SameFirst(s[0], s[1], t[0], t[1]);
    SameSecond(s[1], s[2], t[1], t[2]);
    SameByte(s[1], t[1]);
    assert s == [s[0], s[1], s[2]] + s[3..] && t == [t[0], t[1], t[2]] + t[3..];
  }

  /** The padding tells how many bytes there are in the last group. */
  lemma SameKind(s: Bytes, t: Bytes)
    requires Encode(s) == Encode(t)
    ensures |s| == |t| <= 2 || (|s| > 2 && |t| > 2)
  {
    EncodedLetters(s);
    EncodedLetters(t);
    if 0 < |s| <= 2 {
      EncodeShort(s);
    } else if |s| > 2 {
      EncodeLong(s);
    }
    if 0 < |t| <= 2 {
      EncodeShort(t);
    } else if |t| > 2 {
      EncodeLong(t);
    }
  }

  /** Two texts with the same encoding are the same. */
  lemma {:induction false} EncodeInjective(s: Bytes, t: Bytes)
    requires Encode(s) == Encode(t)
    ensures s == t
  {
    SameKind(s, t);
    if |s| == 1 {
      SameOne(s, t);
    } else if |s| == 2 {
      SameTwo(s, t);
    } else if |s| > 2 {
      EncodeLong(s);
      EncodeLong(t);
      EncodeInjective(s[3..], t[3..]);
      SameThree(s, t);
    }
  }

  /** The letters by their codes: A to Z, a to z, 0 to 9, plus and slash. */
  lemma LetterCodes(n: nat)
    requires n < 64
    ensures Letter(n) as int == if n < 26 then 65 + n
                                else if n < 52 then 97 + (n - 26)
                                else if n < 62 then 48 + (n - 52)
                                else if n == 62 then 43 else 47
  {
  }

  /** Three bytes as one number of 24 bits. */
  function Group(a: char, b: char, c: char): nat
    requires a < '\U{100}' && b < '\U{100}' && c < '\U{100}'
  {
    65536 * Code(a) + 256 * Code(b) + Code(c)
  }

  lemma FourDigits(p: nat, q: nat, r: nat, t: nat, n: nat)
    requires p < 64 && q < 64 && r < 64 && t < 64 && n == 262144 * p + 4096 * q + 64 * r + t
    ensures n / 262144 == p && n / 4096 % 64 == q && n / 64 % 64 == r && n % 64 == t
  {
    assert n / 64 == 4096 * p + 64 * q + r;
    assert n / 4096 == 64 * p + q;
  }

  lemma SixBits(a: nat, b: nat, c: nat, n: nat)
    requires a < 256 && b < 256 && c < 256 && n == 65536 * a + 256 * b + c
    ensures n / 262144 == a / 4 && n / 4096 % 64 == a % 4 * 16 + b / 16
    ensures n / 64 % 64 == b % 16 * 4 + c / 64 && n % 64 == c % 64
  {
    assert a == 4 * (a / 4) + a % 4 && b == 16 * (b / 16) + b % 16 && c == 64 * (c / 64) + c % 64;
    FourDigits(a / 4, a % 4 * 16 + b / 16, b % 16 * 4 + c / 64, c % 64, n);
  }

  /** The encoding goes through the bytes three by three; of a group it is the letters for the four times six bits of its
      number, from the most significant on. What is missing at the end counts as zero, and where nothing is left of
      it an equals sign stands. */
  lemma EncodedGroup(s: Bytes)
    requires s != ""
    ensures var b, c := if |s| > 1 then s[1] else '\0', if |s| > 2 then s[2] else '\0';
            var n := Group(s[0], b, c);
            && |Encode(s)| >= 4
            && Encode(s)[0] == Letter(n / 262144 % 64) && Encode(s)[1] == Letter(n / 4096 % 64)
            && Encode(s)[2] == (if |s| > 1 then Letter(n / 64 % 64) else '=')
            && Encode(s)[3] == (if |s| > 2 then Letter(n % 64) else '=')
            && Encode(s)[4..] == (if |s| > 3 then Encode(s[3..]) else "")
  {
    if |s| > 2 {
      LongGroup(s);
    } else {
      ShortGroup(s);
    }
  }

  lemma GroupLetters(a: char, b: char, c: char, n: nat)
    requires a < '\U{100}' && b < '\U{100}' && c < '\U{100}' && n == Group(a, b, c)
    ensures First(a, b) == [Letter(n / 262144 % 64), Letter(n / 4096 % 64)]
    ensures Second(b, c) == [Letter(n / 64 % 64), Letter(n % 64)]
  {
    SixBits(Code(a), Code(b), Code(c), n);
  }

  lemma LongGroup(s: Bytes)
    requires |s| > 2
    ensures var n := Group(s[0], s[1], s[2]);
            && |Encode(s)| >= 4
            && Encode(s)[0] == Letter(n / 262144 % 64) && Encode(s)[1] == Letter(n / 4096 % 64)
            && Encode(s)[2] == Letter(n / 64 % 64) && Encode(s)[3] == Letter(n % 64)
            && Encode(s)[4..] == (if |s| > 3 then Encode(s[3..]) else "")
  {
    GroupLetters(s[0], s[1], s[2], Group(s[0], s[1], s[2]));
    EncodeLong(s);
    FourLetters(Encode(s), First(s[0], s[1]), Second(s[1], s[2]));
    assert |s| == 3 ==> s[3..] == "";
  }

  lemma FourLetters(e: string, a: string, b: string)
    requires |e| >= 4 && e[..2] == a && e[2..4] == b
    ensures |a| == |b| == 2 && e[0] == a[0] && e[1] == a[1] && e[2] == b[0] && e[3] == b[1]
  {
  }

  lemma ShortGroup(s: Bytes)
    requires 0 < |s| <= 2
    ensures var b := if |s| > 1 then s[1] else '\0';
            var n := Group(s[0], b, '\0');
            && |Encode(s)| == 4
            && Encode(s)[0] == Letter(n / 262144 % 64) && Encode(s)[1] == Letter(n / 4096 % 64)
            && Encode(s)[2] == (if |s| > 1 then Letter(n / 64 % 64) else '=') && Encode(s)[3] == '='
  {
    EncodeShort(s);
    if |s| == 1 {
      GroupLetters(s[0], '\0', '\0', Group(s[0], '\0', '\0'));
      EncodeOne(s);
      TwoLetters(Encode(s), First(s[0], '\0'));
    } else {
      GroupLetters(s[0], s[1], '\0', Group(s[0], s[1], '\0'));
      EncodeTwo(s);
      TwoLetters(Encode(s), First(s[0], s[1]));
      ThirdLetter(s[1]);
    }
  }

  lemma ThirdLetter(b: char)
    requires b < '\U{100}'
    ensures Second(b, '\0')[0] == Letter(Code(b) % 16 * 4)
  {
  }

  lemma TwoLetters(e: string, a: string)
    requires |e| >= 2 && e[..2] == a
    ensures |a| == 2 && e[0] == a[0] && e[1] == a[1]
  {
  }
}
