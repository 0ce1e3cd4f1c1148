/** The websocket frames bit by bit and byte by byte: what masking, the length bytes and the header fields are, said
    about the bytes on the wire. */
module FrameBits {
  import opened Sequences
  import opened Powers
  import opened Frames

  /** Bit number `k`. */
  function Bit(n: nat, k: nat): nat {
    n / Pow2(k) % 2
  }

  lemma HalveFirst(n: nat, w: nat)
    requires w > 0
    ensures n / (2 * w) == n / 2 / w
  {
    var f, r := n / 2 / w, n / 2 % w;
    assert n / 2 == w * f + r;
    var rest := 2 * r + n % 2;
    assert n == (2 * w) * f + rest;
    DivisionIs(n, 2 * w, f, rest);
  }

  lemma NextBit(n: nat, k: nat)
    requires k > 0
    ensures Bit(n, k) == Bit(n / 2, k - 1)
  {
    HalveFirst(n, Pow2(k - 1));
  }

  /** Exclusive or: a bit is set exactly when it is set in one of the two and not in the other. */
  lemma {:induction false} XorBits(a: nat, b: nat, bits: nat, k: nat)
    requires k < bits
    ensures Bit(Xor(a, b, bits), k) == (Bit(a, k) + Bit(b, k)) % 2
  {
    if k == 0 {
      LowBit(a, b, bits);
    } else {
      NextBit(a, k);
      NextBit(b, k);
      NextBit(Xor(a, b, bits), k);
      XorHalves(a, b, bits);
      XorBits(a / 2, b / 2, bits - 1, k - 1);
    }
  }

  lemma LowBit(a: nat, b: nat, bits: nat)
    requires bits > 0
    ensures Bit(Xor(a, b, bits), 0) == (Bit(a, 0) + Bit(b, 0)) % 2
  {
    Halves(XorBit(a % 2, b % 2), Xor(a / 2, b / 2, bits - 1));
    WholeNumber(a);
    WholeNumber(b);
    WholeNumber(Xor(a, b, bits));
  }

  lemma WholeNumber(n: nat)
    ensures Bit(n, 0) == n % 2
  {
  }

  lemma XorHalves(a: nat, b: nat, bits: nat)
    requires bits > 0
    ensures Xor(a, b, bits) / 2 == Xor(a / 2, b / 2, bits - 1)
  {
    Halves(XorBit(a % 2, b % 2), Xor(a / 2, b / 2, bits - 1));
  }

  /** Of the payload found in a masked frame, every bit of every byte is the exclusive or of the bit on the wire and the
      bit of the mask byte that is due; of an unmasked one, every byte is the byte on the wire. */
  lemma PayloadBits(s: seq<Byte>, i: nat, k: nat)
    requires Complete(s) && i < PayloadLength(s) && k < 8
    ensures var p, h := DecodeHybi(s).payload, HeaderLength(s[1]);
            && p.Some? && |p.value| == PayloadLength(s)
            && (s[1] >= 128 ==> Bit(p.value[i], k) == (Bit(s[h + 4 + i], k) + Bit(s[h + i % 4], k)) % 2)
            && (s[1] < 128 ==> p.value[i] == s[h + i])
  {
    DecodeComplete(s);
    var h := HeaderLength(s[1]);
    var body := s[PayloadStart(s[1])..FrameEnd(s)];
    if s[1] >= 128 {
      var mask: Mask := s[h..h + 4];
      assert PayloadOf(s) == Unmask(mask, body);
      assert body[i] == s[h + 4 + i] && mask[i % 4] == s[h + i % 4];
      assert PayloadOf(s)[i] == XorByte(body[i], mask[i % 4]);
      XorBits(body[i], mask[i % 4], 8, k);
    } else {
      assert PayloadOf(s)[i] == body[i] == s[h + i];
    }
  }

  /** The loop over the array, bit by bit. */
  lemma UnmaskBits(mask: Mask, data: seq<Byte>, i: nat, k: nat)
    requires i < |data| && k < 8
    ensures Bit(Unmask(mask, data)[i], k) == (Bit(data[i], k) + Bit(mask[i % 4], k)) % 2
  {
    XorBits(data[i], mask[i % 4], 8, k);
  }

  // ---------------------------------------------------------------------------------------------
  // Network byte order
  // ---------------------------------------------------------------------------------------------

  /** The first byte of a packed number is its most significant. */
  lemma {:induction false} PackedBytes(n: nat, k: nat, i: nat)
    requires i < k
    ensures Pack(n, k)[i] == n / Pow256(k - 1 - i) % 256
  {
    if i < k - 1 {
      PackedBytes(n / 256, k - 1, i);
      DivideFirst(n, 256, Pow256(k - 2 - i));
    }
  }

  lemma DivideFirst(n: nat, d: nat, w: nat)
    requires d > 0 && w > 0
    ensures n / (d * w) == n / d / w
  {
    var m := n / d;
    DivideParts(n, d, w, m, n % d, m / w, m % w);
  }

  lemma DivideParts(n: nat, d: nat, w: nat, m: nat, x: nat, f: nat, r: nat)
    requires d > 0 && w > 0 && n == d * m + x && x < d && m == w * f + r && r < w
    ensures n / (d * w) == f
  {
    assert d * (w * f + r) == (d * w) * f + d * r;
    AtLeast(d, r + 1, w);
    assert d * (r + 1) == d * r + d;
    DivisionIs(n, d * w, f, d * r + x);
  }

  /** And the first byte counts most when it is unpacked. */
  lemma {:induction false} UnpackedBytes(s: seq<Byte>)
    ensures Unpack(s) < Pow256(|s|)
    ensures Pack(Unpack(s), |s|) == s
  {
    if s != [] {
      var last := |s| - 1;
      UnpackedBytes(s[..last]);
      assert s == s[..last] + [s[last]];
    }
  }

  // ---------------------------------------------------------------------------------------------
  // The header on the wire
  // ---------------------------------------------------------------------------------------------

  /** What the server writes for a payload, byte for byte: FIN and opcode, the length in one, two or eight bytes, most
      significant first, and the payload as it is. */
  lemma WrittenHeader(buf: Payload, opcode: nat)
    requires opcode < 16
    ensures var w, n := EncodeHybi(buf, opcode), |buf|;
            && |w| >= 2 && w[0] == 128 + opcode
            && (n <= 125 ==> |w| == 2 + n && w[1] == n && w[2..] == buf)
            && (126 <= n < 65536 ==> |w| == 4 + n && w[1] == 126 && w[2] == n / 256 && w[3] == n % 256 && w[4..] == buf)
            && (n >= 65536 ==> |w| == 10 + n && w[1] == 127 && w[10..] == buf
                               && forall i | 2 <= i < 10 :: w[i] == n / Pow256(9 - i) % 256)
  {
    var n := |buf|;
    if n >= 65536 {
      forall i | 2 <= i < 10
        ensures EncodeHybi(buf, opcode)[i] == n / Pow256(9 - i) % 256
      {
        PackedBytes(n, 8, i - 2);
      }
    } else if n > 125 {
      PackedBytes(n, 2, 0);
      PackedBytes(n, 2, 1);
      assert Pow256(1) == 256 && Pow256(0) == 1;
    }
  }

  /** A frame that is not complete is reported with nothing but its length; a control frame that closes without a code
      with the code 1000. */
  lemma Defaults(s: seq<Byte>)
    ensures DecodeHybi(s).payload.None? ==> DecodeHybi(s).closeCode == 1000 && DecodeHybi(s).closeReason == []
    ensures Complete(s) && s[0] % 16 != 8 ==> DecodeHybi(s).closeCode == 1000 && DecodeHybi(s).closeReason == []
    ensures Complete(s) && s[0] % 16 == 8 && PayloadLength(s) < 2 ==> DecodeHybi(s).closeCode == 1000
    ensures Complete(s) && s[0] % 16 == 8 && PayloadLength(s) >= 2 ==>
              DecodeHybi(s).closeCode == BigEndian(DecodeHybi(s).payload.value[0], DecodeHybi(s).payload.value[1])
  {
    if Complete(s) && PayloadLength(s) >= 2 {
      var p := PayloadOf(s);
      assert |p| == PayloadLength(s);
      TwoBytes(p[0], p[1]);
      assert p[..2] == [p[0], p[1]];
    }
  }

  /** A number of two bytes, the first the more significant. */
  function BigEndian(a: Byte, b: Byte): nat {
    var high: nat := a;
    256 * high + b
  }

  lemma TwoBytes(a: Byte, b: Byte)
    ensures Unpack([a, b]) == BigEndian(a, b)
  {
    assert [a, b][..1] == [a] && [a][..0] == [];
    assert Unpack([a]) == a;
  }
}
