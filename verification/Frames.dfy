/** The HyBi (RFC 6455) framing of the websocket server: masking, encoding, decoding, and the parser that
    cuts a received byte stream into frames. */
module Frames {
  import opened Sequences
  import opened Powers

  type Byte = b: nat | b < 256
  type Mask = m: seq<Byte> | |m| == 4 witness [0, 0, 0, 0]

  const OP_BINARY := 2
  const OP_CLOSE := 8

  // ---------------------------------------------------------------------------------------------
  // Masking
  // ---------------------------------------------------------------------------------------------

  function XorBit(p: nat, q: nat): (r: nat)
    ensures r < 2
  {
    if p == q then 0 else 1
  }

  /** Exclusive or of the low `bits` bits. */
  function Xor(a: nat, b: nat, bits: nat): (r: nat)
    ensures r < Pow2(bits)
  {
    if bits == 0 then 0 else XorBit(a % 2, b % 2) + 2 * Xor(a / 2, b / 2, bits - 1)
  }

  lemma {:induction false} XorCancels(a: nat, b: nat, bits: nat)
    requires a < Pow2(bits)
    ensures Xor(Xor(a, b, bits), b, bits) == a
  {
    if bits > 0 {
      XorCancels(a / 2, b / 2, bits - 1);
      Halves(XorBit(a % 2, b % 2), Xor(a / 2, b / 2, bits - 1));
    }
  }

  /** `c` shifted left by `k` bits. */
  function Shift(c: nat, k: nat): nat {
    if k == 0 then c else 2 * Shift(c, k - 1)
  }

  /** Exclusive or works on the low `k` bits and the rest separately. */
  lemma {:induction false} XorSplits(a: nat, b: nat, c: nat, d: nat, k: nat, m: nat)
    requires a < Pow2(k) && b < Pow2(k)
    ensures Xor(a + Shift(c, k), b + Shift(d, k), k + m) == Xor(a, b, k) + Shift(Xor(c, d, m), k)
  {
    if k == 0 {
      NothingBelow(a, b, c, d, m);
    } else {
      HalfFits(a, k);
      HalfFits(b, k);
      XorSplits(a / 2, b / 2, c, d, k - 1, m);
      SplitStep(a, b, c, d, Xor(c, d, m), k, m);
    }
  }

  lemma NothingBelow(a: nat, b: nat, c: nat, d: nat, m: nat)
    requires a < Pow2(0) && b < Pow2(0)
    ensures Xor(a + Shift(c, 0), b + Shift(d, 0), m) == Xor(a, b, 0) + Shift(Xor(c, d, m), 0)
  {
  }

  lemma HalfFits(a: nat, k: nat)
    requires k > 0 && a < Pow2(k)
    ensures a / 2 < Pow2(k - 1)
  {
  }

  lemma SplitStep(a: nat, b: nat, c: nat, d: nat, x: nat, k: nat, m: nat)
    requires k > 0
    requires Xor(a / 2 + Shift(c, k - 1), b / 2 + Shift(d, k - 1), k - 1 + m) == Xor(a / 2, b / 2, k - 1) + Shift(x, k - 1)
    ensures Xor(a + Shift(c, k), b + Shift(d, k), k + m) == Xor(a, b, k) + Shift(x, k)
  {
    XorStep(a, b, Shift(c, k - 1), Shift(d, k - 1), k + m);
  }

  lemma ShiftByte(c: nat)
    ensures Shift(c, 8) == 256 * c
  {
    var c2, c4, c6 := Shift(c, 2), Shift(c, 4), Shift(c, 6);
    assert c2 == 2 * Shift(c, 1) == 4 * c;
    assert c4 == 2 * Shift(c, 3) == 4 * c2;
    assert c6 == 2 * Shift(c, 5) == 4 * c4;
    assert Shift(c, 8) == 2 * Shift(c, 7) == 4 * c6;
  }

  lemma XorStep(a: nat, b: nat, u: nat, v: nat, bits: nat)
    requires bits > 0
    ensures Xor(a + 2 * u, b + 2 * v, bits) == XorBit(a % 2, b % 2) + 2 * Xor(a / 2 + u, b / 2 + v, bits - 1)
  {
    Halves(a, u);
    Halves(b, v);
  }

  lemma Halves(a: nat, u: nat)
    ensures (a + 2 * u) / 2 == a / 2 + u && (a + 2 * u) % 2 == a % 2
  {
  }

  function XorByte(a: Byte, b: Byte): Byte {
    assert Pow2(8) == 256;
    Xor(a, b, 8)
  }

  /** The byte-at-a-time masking of RFC 6455, section 5.3. */
  function Unmask(mask: Mask, data: seq<Byte>): (r: seq<Byte>)
    ensures |r| == |data|
  {
    seq(|data|, i requires 0 <= i < |data| => XorByte(data[i], mask[i % 4]))
  }

  lemma UnmaskCancels(mask: Mask, data: seq<Byte>)
    ensures Unmask(mask, Unmask(mask, data)) == data
  {
    assert Pow2(8) == 256;
    forall i | 0 <= i < |data|
      ensures XorByte(XorByte(data[i], mask[i % 4]), mask[i % 4]) == data[i]
    {
      XorCancels(data[i], mask[i % 4], 8);
    }
  }

  /** The fallback loop, over an array, that the server runs when numpy is missing. */
  method UnmaskInPlace(mask: Mask, data: array<Byte>)
    modifies data
    ensures data[..] == Unmask(mask, old(data[..]))
  {
    for i := 0 to data.Length
      invariant forall j | 0 <= j < i :: data[j] == XorByte(old(data[j]), mask[j % 4])
      invariant forall j | i <= j < data.Length :: data[j] == old(data[j])
    {
      data[i] := XorByte(data[i], mask[i % 4]);
    }
  }

  /** The number whose low byte is `lo` and whose remaining bytes are `hi`. */
  function Above(lo: Byte, hi: nat): nat {
    lo + 256 * hi
  }

  lemma AboveParts(lo: Byte, hi: nat)
    ensures Above(lo, hi) % 256 == lo && Above(lo, hi) / 256 == hi
  {
  }

  /** A little-endian 32-bit word. */
  function Word(s: seq<Byte>): nat
    requires |s| == 4
  {
    Above(s[0], Above(s[1], Above(s[2], s[3])))
  }

  /** The low `k` bytes of a number, lowest first. */
  function LowBytes(w: nat, k: nat): (r: seq<Byte>)
    ensures |r| == k
  {
    if k == 0 then [] else [w % 256] + LowBytes(w / 256, k - 1)
  }

  /** Each whole word of `data` combined with the mask word. */
  function XorWords(mask: nat, data: seq<Byte>): seq<Byte>
    requires |data| % 4 == 0
  {
    if data == [] then [] else LowBytes(Xor(Word(data[..4]), mask, 32), 4) + XorWords(mask, data[4..])
  }

  /** The number of bytes in whole words. */
  function WholeWords(n: nat): (whole: nat)
    ensures whole <= n < whole + 4 && whole % 4 == 0
  {
    4 * (n / 4)
  }

  /** The numpy path: whole 32-bit words first, then the last one to three bytes against the head of
      the mask. */
  function UnmaskByWords(mask: Mask, data: seq<Byte>): seq<Byte> {
    var whole := WholeWords(|data|);
    var b := if |data| >= 4 then XorWords(Word(mask), data[..whole]) else [];
    b + XorRemainder(mask, data[whole..])
  }

  /** The remaining bytes against the head of the mask. */
  function XorRemainder(mask: Mask, data: seq<Byte>): seq<Byte>
    requires |data| < 4
  {
    seq(|data|, i requires 0 <= i < |data| => XorByte(data[i], mask[i]))
  }

  lemma XorAbove(a: Byte, b: Byte, c: nat, d: nat, m: nat)
    ensures Xor(Above(a, c), Above(b, d), 8 + m) == Above(XorByte(a, b), Xor(c, d, m))
  {
    assert Pow2(8) == 256;
    XorSplits(a, b, c, d, 8, m);
    ShiftByte(c);
    ShiftByte(d);
    ShiftByte(Xor(c, d, m));
  }

  lemma XorWordBytes(a: seq<Byte>, b: seq<Byte>)
    requires |a| == 4 && |b| == 4
    ensures LowBytes(Xor(Word(a), Word(b), 32), 4)
         == [XorByte(a[0], b[0]), XorByte(a[1], b[1]), XorByte(a[2], b[2]), XorByte(a[3], b[3])]
  {
    XorAbove(a[0], b[0], Above(a[1], Above(a[2], a[3])), Above(b[1], Above(b[2], b[3])), 24);
    XorAbove(a[1], b[1], Above(a[2], a[3]), Above(b[2], b[3]), 16);
    XorAbove(a[2], b[2], a[3], b[3], 8);
    LowBytesOfWord([XorByte(a[0], b[0]), XorByte(a[1], b[1]), XorByte(a[2], b[2]), XorByte(a[3], b[3])]);
  }

  lemma LowBytesOfWord(x: seq<Byte>)
    requires |x| == 4
    ensures LowBytes(Word(x), 4) == x
  {
    AboveParts(x[0], Above(x[1], Above(x[2], x[3])));
    AboveParts(x[1], Above(x[2], x[3]));
    AboveParts(x[2], x[3]);
    assert LowBytes(x[3], 1) == [x[3]];
    assert LowBytes(Above(x[2], x[3]), 2) == [x[2], x[3]];
    assert LowBytes(Above(x[1], Above(x[2], x[3])), 3) == [x[1], x[2], x[3]];
  }

  lemma {:induction false} XorWordsIsUnmask(mask: Mask, data: seq<Byte>)
    requires |data| % 4 == 0
    ensures XorWords(Word(mask), data) == Unmask(mask, data)
  {
    if data != [] {
      XorWordsIsUnmask(mask, data[4..]);
      XorWordBytes(data[..4], mask);
      UnmaskSplits(mask, data, 4);
    }
  }

  lemma SameInMask(i: nat, k: nat)
    requires k <= i && k % 4 == 0
    ensures (i - k) % 4 == i % 4
  {
  }

  lemma UnmaskSplits(mask: Mask, data: seq<Byte>, k: nat)
    requires k <= |data| && k % 4 == 0
    ensures Unmask(mask, data) == Unmask(mask, data[..k]) + Unmask(mask, data[k..])
  {
    var l, r := Unmask(mask, data[..k]), Unmask(mask, data[k..]);
    forall i | 0 <= i < |data|
      ensures (l + r)[i] == XorByte(data[i], mask[i % 4])
    {
      if i >= k {
        SameInMask(i, k);
        assert r[i - k] == XorByte(data[i], mask[(i - k) % 4]);
      }
    }
  }

  lemma RemainderIsUnmask(mask: Mask, data: seq<Byte>)
    requires |data| < 4
    ensures XorRemainder(mask, data) == Unmask(mask, data)
  {
  }

  /** The word-wise fast path computes the same bytes as the byte-wise definition. */
  lemma WordsRefineBytes(mask: Mask, data: seq<Byte>)
    ensures UnmaskByWords(mask, data) == Unmask(mask, data)
  {
    var whole := WholeWords(|data|);
    XorWordsIsUnmask(mask, data[..whole]);
    UnmaskSplits(mask, data, whole);
    RemainderIsUnmask(mask, data[whole..]);
    if |data| < 4 {
      assert data[..whole] == [];
    }
  }

  // ---------------------------------------------------------------------------------------------
  // Big-endian numbers, as struct.pack and struct.unpack handle them
  // ---------------------------------------------------------------------------------------------

  function Pack(n: nat, k: nat): (r: seq<Byte>)
    ensures |r| == k
  {
    if k == 0 then [] else Pack(n / 256, k - 1) + [n % 256]
  }

  function Unpack(s: seq<Byte>): nat {
    if s == [] then 0 else 256 * Unpack(s[..|s| - 1]) + s[|s| - 1]
  }

  lemma {:induction false} UnpackPack(n: nat, k: nat)
    requires n < Pow256(k)
    ensures Unpack(Pack(n, k)) == n
  {
    if k > 0 {
      UnpackPack(n / 256, k - 1);
      var s := Pack(n, k);
      assert s[..|s| - 1] == Pack(n / 256, k - 1);
    }
  }

  // ---------------------------------------------------------------------------------------------
  // Encoding
  // ---------------------------------------------------------------------------------------------

  type Payload = p: seq<Byte> | |p| < Pow256(8) witness WitnessPayload()

  function WitnessPayload(): (p: seq<Byte>)
    ensures |p| < Pow256(8)
  {
    assert Pow256(4) == 0x1_0000_0000;
    []
  }

  /** The frame the server writes: never masked, FIN set. */
  function EncodeHybi(buf: Payload, opcode: nat): seq<Byte> {
    var b1 := 128 + opcode % 16;
    var header :=
      if |buf| <= 125 then [b1, |buf|]
      else if |buf| < 65536 then [b1, 126] + Pack(|buf|, 2)
      else [b1, 127] + Pack(|buf|, 8);
    header + buf
  }

  /** A frame as section 5.2 of RFC 6455 lays it out: FIN and opcode byte, mask bit and the shortest of the
      three length forms, the optional mask, the payload (masked when there is a mask). */
  datatype Message = Message(first: Byte, mask: Option<Mask>, payload: Payload)
  {
    function Opcode(): nat { first % 16 }

    function Wire(): seq<Byte> {
      Lengths() + (match mask
                   case None => payload
                   case Some(m) => m + Unmask(m, payload))
    }

    function Lengths(): seq<Byte> {
      var bit := if mask.Some? then 128 else 0;
      if |payload| <= 125 then [first, bit + |payload|]
      else if |payload| < 65536 then [first, bit + 126] + Pack(|payload|, 2)
      else [first, bit + 127] + Pack(|payload|, 8)
    }
  }

  lemma EncodeIsWire(buf: Payload, opcode: nat)
    ensures EncodeHybi(buf, opcode) == Message(128 + opcode % 16, None, buf).Wire()
  {
  }

  // ---------------------------------------------------------------------------------------------
  // Decoding
  // ---------------------------------------------------------------------------------------------

  datatype Decoded = Decoded(
    fin: nat, opcode: nat, masked: bool, hlen: nat, length: nat,
    payload: Option<seq<Byte>>, left: nat, closeCode: nat, closeReason: seq<Byte>)

  /** The header length announced by the second byte. */
  function HeaderLength(b2: Byte): nat {
    if b2 % 128 == 126 then 4 else if b2 % 128 == 127 then 10 else 2
  }

  function PayloadLength(buf: seq<Byte>): nat
    requires |buf| >= 2 && |buf| >= HeaderLength(buf[1])
  {
    if HeaderLength(buf[1]) == 2 then buf[1] % 128 else Unpack(buf[2..HeaderLength(buf[1])])
  }

  /** Where the payload of a frame starts, and where the frame ends. */
  function PayloadStart(b2: Byte): nat {
    HeaderLength(b2) + if b2 / 128 == 1 then 4 else 0
  }

  predicate Complete(buf: seq<Byte>) {
    && |buf| >= 2
    && |buf| >= HeaderLength(buf[1])
    && |buf| >= PayloadStart(buf[1]) + PayloadLength(buf)
  }

  function FrameEnd(buf: seq<Byte>): nat
    requires Complete(buf)
  {
    PayloadStart(buf[1]) + PayloadLength(buf)
  }

  function PayloadOf(buf: seq<Byte>): seq<Byte>
    requires Complete(buf)
  {
    var body := buf[PayloadStart(buf[1])..FrameEnd(buf)];
    if buf[1] / 128 == 1 then Unmask(buf[HeaderLength(buf[1])..PayloadStart(buf[1])], body) else body
  }

  function DecodeHybi(buf: seq<Byte>): Decoded {
    var blen := |buf|;
    if blen < 2 then
      Decoded(0, 0, false, 2, 0, None, blen, 1000, [])
    else
      var hlen := HeaderLength(buf[1]);
      var f := Decoded(buf[0] / 128, buf[0] % 16, buf[1] / 128 == 1, hlen, buf[1] % 128, None, blen, 1000, []);
      if blen < hlen then
        f
      else if !Complete(buf) then
        f.(length := PayloadLength(buf))
      else
        var p := PayloadOf(buf);
        var close := f.opcode == OP_CLOSE;
        f.(length := PayloadLength(buf),
           payload := Some(p),
           left := blen - FrameEnd(buf),
           closeCode := if close && PayloadLength(buf) >= 2 then Unpack(p[..2]) else f.closeCode,
           closeReason := if close && PayloadLength(buf) > 3 then p[2..] else f.closeReason)
  }

  /** A decoded frame has used up at least its two header bytes; an incomplete one nothing. */
  lemma DecodeProgress(s: seq<Byte>)
    ensures DecodeHybi(s).payload.Some? ==> DecodeHybi(s).left + 2 <= |s|
    ensures DecodeHybi(s).payload.None? ==> DecodeHybi(s).left == |s|
  {
  }

  lemma CompleteExtends(s: seq<Byte>, t: seq<Byte>)
    requires Complete(s)
    ensures Complete(s + t) && FrameEnd(s + t) == FrameEnd(s)
    ensures PayloadLength(s + t) == PayloadLength(s)
    ensures PayloadOf(s + t) == PayloadOf(s)
  {
    var h, start := HeaderLength(s[1]), PayloadStart(s[1]);
    assert (s + t)[1] == s[1];
    assert (s + t)[2..h] == s[2..h];
    assert (s + t)[start..FrameEnd(s)] == s[start..FrameEnd(s)];
    assert start <= |s|;
    assert (s + t)[h..start] == s[h..start];
  }

  /** Bytes after a complete frame only add to what is left over. */
  lemma DecodeExtends(s: seq<Byte>, t: seq<Byte>)
    requires DecodeHybi(s).payload.Some?
    ensures DecodeHybi(s + t) == DecodeHybi(s).(left := DecodeHybi(s).left + |t|)
  {
    CompleteExtends(s, t);
    assert (s + t)[0] == s[0] && (s + t)[1] == s[1];
  }

  /** The two-byte header with the length bytes is read back as written. */
  lemma ReadLengths(m: Message, rest: seq<Byte>)
    ensures var w := m.Lengths() + rest;
            && HeaderLength(w[1]) == |m.Lengths()| && PayloadLength(w) == |m.payload|
            && (w[1] / 128 == 1 <==> m.mask.Some?)
  {
    var n, w := |m.payload|, m.Lengths() + rest;
    if n >= 65536 {
      UnpackPack(n, 8);
      assert w[2..10] == Pack(n, 8);
    } else if n > 125 {
      assert Pow256(2) == 65536;
      UnpackPack(n, 2);
      assert w[2..4] == Pack(n, 2);
    }
  }

  /** A buffer that is a header, a mask if the header says so, a body of the announced length, and more. */
  lemma PartsOfFrame(w: seq<Byte>, lengths: seq<Byte>, mask: seq<Byte>, body: seq<Byte>, rest: seq<Byte>)
    requires w == lengths + (mask + (body + rest))
    requires |lengths| >= 2 && HeaderLength(lengths[1]) == |lengths| && PayloadLength(lengths) == |body|
    requires |mask| == if lengths[1] / 128 == 1 then 4 else 0
    ensures Complete(w) && FrameEnd(w) == |lengths| + |mask| + |body| && w[0] == lengths[0]
    ensures PayloadOf(w) == if lengths[1] / 128 == 1 then Unmask(mask, body) else body
  {
    var h := |lengths|;
    var start := h + |mask|;
    assert w[1] == lengths[1];
    assert w[2..h] == lengths[2..] == lengths[2..h];
    PartsAt(w, lengths, mask, body, rest);
  }

  lemma PartsAt<T>(w: seq<T>, a: seq<T>, b: seq<T>, c: seq<T>, d: seq<T>)
    requires w == a + (b + (c + d))
    ensures w[|a|..|a| + |b|] == b
    ensures w[|a| + |b|..|a| + |b| + |c|] == c
  {
    assert w[|a|..] == b + (c + d);
    assert w[|a| + |b|..] == c + d;
  }

  lemma CompleteWire(m: Message, rest: seq<Byte>)
    ensures var w := m.Wire() + rest;
            Complete(w) && FrameEnd(w) == |m.Wire()| && PayloadOf(w) == m.payload && w[0] == m.first
  {
    var lengths := m.Lengths();
    ReadLengths(m, []);
    assert lengths + [] == lengths;
    match m.mask
    case None =>
      assert m.Wire() + rest == lengths + ([] + (m.payload + rest));
      PartsOfFrame(m.Wire() + rest, lengths, [], m.payload, rest);
    case Some(k) =>
      var masked := Unmask(k, m.payload);
      assert m.Wire() + rest == lengths + (k + (masked + rest));
      PartsOfFrame(m.Wire() + rest, lengths, k, masked, rest);
      UnmaskCancels(k, m.payload);
  }

  /** Decoding undoes encoding, masked or not, whatever follows the frame. */
  lemma DecodeWire(m: Message, rest: seq<Byte>)
    ensures var f := DecodeHybi(m.Wire() + rest);
            && f.payload == Some(m.payload) && f.left == |rest|
            && f.opcode == m.Opcode() && f.fin == m.first / 128
            && (f.masked <==> m.mask.Some?) && f.hlen == |m.Lengths()| && f.length == |m.payload|
  {
    CompleteWire(m, rest);
    WireHeader(m, rest);
  }

  lemma WireHeader(m: Message, rest: seq<Byte>)
    ensures var w := m.Wire() + rest;
            && HeaderLength(w[1]) == |m.Lengths()| && PayloadLength(w) == |m.payload| && (w[1] / 128 == 1 <==> m.mask.Some?)
  {
    var body := match m.mask
      case None => m.payload
      case Some(k) => k + Unmask(k, m.payload);
    ConcatAssociates(m.Lengths(), body, rest);
    ReadLengths(m, body + rest);
  }

  /** A frame cut short is recognised as incomplete. */
  lemma DecodeTruncated(m: Message, k: nat)
    requires k < |m.Wire()|
    ensures DecodeHybi(m.Wire()[..k]).payload.None?
  {
    var w := m.Wire();
    assert w[..k] + w[k..] == w && w + [] == w;
    DecodeWire(m, []);
    if DecodeHybi(w[..k]).payload.Some? {
      DecodeExtends(w[..k], w[k..]);
    }
  }

  /** The close frame `send_close` builds. */
  function CloseFrame(code: nat, reason: seq<Byte>): seq<Byte>
    requires code < 65536 && |reason| + 2 < Pow256(8)
  {
    EncodeHybi(Pack(code, 2) + reason, OP_CLOSE)
  }

  /** The server reads back the code of a close frame it wrote, always; the reason it reads back exactly when
      the reason is not one byte long, because the decoder looks for more than three payload bytes. */
  lemma CloseRoundTrip(code: nat, reason: seq<Byte>)
    requires code < 65536 && |reason| + 2 < Pow256(8)
    ensures DecodeHybi(CloseFrame(code, reason)).closeCode == code
    ensures DecodeHybi(CloseFrame(code, reason)).closeReason == reason <==> |reason| != 1
  {
    var m := Message(128 + OP_CLOSE, None, Pack(code, 2) + reason);
    CloseFrameIsWire(code, reason);
    CompleteWire(m, []);
    assert m.Wire() + [] == m.Wire();
    CloseFields(m.Wire());
    ClosePayload(code, reason);
  }

  lemma CloseFrameIsWire(code: nat, reason: seq<Byte>)
    requires code < 65536 && |reason| + 2 < Pow256(8)
    ensures CloseFrame(code, reason) == Message(128 + OP_CLOSE, None, Pack(code, 2) + reason).Wire()
  {
    var buf: Payload := Pack(code, 2) + reason;
    EncodeIsWire(buf, OP_CLOSE);
    assert Message(128 + OP_CLOSE % 16, None, buf) == Message(128 + OP_CLOSE, None, buf);
  }

  lemma ClosePayload(code: nat, reason: seq<Byte>)
    requires code < 65536
    ensures var p := Pack(code, 2) + reason;
            |p| == |reason| + 2 && Unpack(p[..2]) == code && p[2..] == reason
  {
    var p := Pack(code, 2) + reason;
    assert Pow256(2) == 65536;
    UnpackPack(code, 2);
    assert p[..2] == Pack(code, 2) && p[2..] == reason;
  }

  lemma CloseFields(s: seq<Byte>)
    requires Complete(s) && s[0] % 16 == OP_CLOSE
    ensures var p := PayloadOf(s);
            && DecodeHybi(s).closeCode == (if |p| >= 2 then Unpack(p[..2]) else 1000)
            && DecodeHybi(s).closeReason == (if |p| > 3 then p[2..] else [])
  {
    assert |PayloadOf(s)| == PayloadLength(s);
  }

  // ---------------------------------------------------------------------------------------------
  // Cutting a byte stream into frames
  // ---------------------------------------------------------------------------------------------

  datatype Close = Close(code: nat, reason: seq<Byte>)

  /** The payloads found, the close request that ended the stream if there was one, and the bytes of a frame
      that has not arrived in full. */
  datatype Parsed = Parsed(bufs: seq<seq<Byte>>, closed: Option<Close>, rest: seq<Byte>)
  {
    function Prepend(p: seq<Byte>): Parsed {
      this.(bufs := [p] + bufs)
    }

    /** This result followed by `next`, the result of parsing what comes after; a close request ends the stream. */
    function Then(next: Parsed): Parsed {
      if closed.Some? then this else next.(bufs := bufs + next.bufs)
    }

    lemma PrependThen(p: seq<Byte>, next: Parsed)
      ensures Prepend(p).Then(next) == Then(next).Prepend(p)
    {
      assert ([p] + bufs) + next.bufs == [p] + (bufs + next.bufs);
    }
  }

  function Parse(s: seq<Byte>): Parsed
    decreases |s|
  {
    var f := DecodeHybi(s);
    if s == [] || f.payload.None? then
      Parsed([], None, s)
    else if f.opcode == OP_CLOSE then
      Parsed([], Some(Close(f.closeCode, f.closeReason)), [])
    else
      DecodeProgress(s);
      Parse(s[|s| - f.left..]).Prepend(f.payload.value)
  }

  /** The bytes after the first frame. */
  function After(s: seq<Byte>): seq<Byte>
    requires Complete(s)
  {
    s[FrameEnd(s)..]
  }

  predicate StartsWithData(s: seq<Byte>) {
    Complete(s) && s[0] % 16 != OP_CLOSE
  }

  lemma ParseStep(s: seq<Byte>)
    requires StartsWithData(s)
    ensures Parse(s) == Parse(After(s)).Prepend(PayloadOf(s))
  {
    DecodeComplete(s);
    assert s[|s| - DecodeHybi(s).left..] == After(s);
  }

  lemma DecodeComplete(s: seq<Byte>)
    requires Complete(s)
    ensures DecodeHybi(s).payload == Some(PayloadOf(s)) && |s| - DecodeHybi(s).left == FrameEnd(s)
    ensures DecodeHybi(s).opcode == s[0] % 16
  {
  }

  lemma ParseStop(s: seq<Byte>, t: seq<Byte>)
    requires !StartsWithData(s)
    ensures Parse(s + t) == Parse(s).Then(Parse(Parse(s).rest + t))
  {
    if Complete(s) {
      DecodeExtends(s, t);
    } else {
      assert Parse(s) == Parsed([], None, s);
      assert [] + Parse(s + t).bufs == Parse(s + t).bufs;
    }
  }

  lemma ParseStepExtended(s: seq<Byte>, t: seq<Byte>)
    requires StartsWithData(s)
    ensures Parse(s + t) == Parse(After(s) + t).Prepend(PayloadOf(s))
    ensures |After(s)| < |s|
  {
    CompleteExtends(s, t);
    assert After(s + t) == After(s) + t;
    ParseStep(s + t);
  }

  /** Parsing in two instalments, keeping the incomplete tail in between, is parsing in one go. */
  lemma {:induction false} ParseInstalments(s: seq<Byte>, t: seq<Byte>)
    ensures Parse(s + t) == Parse(s).Then(Parse(Parse(s).rest + t))
    decreases |s|
  {
    if StartsWithData(s) {
      ParseStep(s);
      ParseStepExtended(s, t);
      ParseInstalments(After(s), t);
      Parse(After(s)).PrependThen(PayloadOf(s), Parse(Parse(After(s)).rest + t));
    } else {
      ParseStop(s, t);
    }
  }

  /** The bytes of a list of frames. */
  function Wires(ms: seq<Message>): seq<Byte> {
    if ms == [] then [] else ms[0].Wire() + Wires(ms[1..])
  }

  function Payloads(ms: seq<Message>): (r: seq<seq<Byte>>)
    ensures |r| == |ms|
  {
    if ms == [] then [] else [ms[0].payload] + Payloads(ms[1..])
  }

  ghost predicate NoClose(ms: seq<Message>) {
    forall m | m in ms :: m.Opcode() != OP_CLOSE
  }

  lemma ParseFirst(m: Message, rest: seq<Byte>)
    requires m.Opcode() != OP_CLOSE
    ensures Parse(m.Wire() + rest) == Parse(rest).Prepend(m.payload)
  {
    var w := m.Wire() + rest;
    CompleteWire(m, rest);
    ParseStep(w);
    assert After(w) == rest;
  }

  lemma ParseTruncated(m: Message, s: seq<Byte>)
    requires s <= m.Wire() && |s| < |m.Wire()|
    ensures Parse(s) == Parsed([], None, s)
  {
    DecodeTruncated(m, |s|);
    assert s == m.Wire()[..|s|];
  }

  /** What parsing a prefix `s` of a stream of frames finds: the payloads of the first `n` frames, and the part
      of the next frame that is there. */
  ghost predicate CutsAt(ms: seq<Message>, s: seq<Byte>, n: nat) {
    && n <= |ms|
    && Parse(s) == Parsed(Payloads(ms)[..n], None, Parse(s).rest)
    && s == Wires(ms[..n]) + Parse(s).rest
    && (n < |ms| ==> |Parse(s).rest| < |ms[n].Wire()|)
  }

  /** Any prefix of a stream of frames parses to the payloads of the frames it contains in full, and keeps the
      rest. */
  lemma {:induction false} ParsePrefix(ms: seq<Message>, s: seq<Byte>) returns (n: nat)
    requires NoClose(ms)
    requires s <= Wires(ms)
    ensures CutsAt(ms, s, n)
  {
    n := 0;
    if ms != [] {
      var w := ms[0].Wire();
      if |s| < |w| {
        assert s <= w by {
          assert s == Wires(ms)[..|s|];
        }
        ParseTruncated(ms[0], s);
      } else {
        var s' := s[|w|..];
        assert s == w + s' && s' <= Wires(ms[1..]);
        n := ParsePrefix(ms[1..], s');
        ParseFirst(ms[0], s');
        CutShifts(ms, s', n);
        n := n + 1;
      }
    }
  }

  lemma CutShifts(ms: seq<Message>, s: seq<Byte>, n: nat)
    requires ms != [] && n < |ms|
    requires s == Wires(ms[1..][..n]) + Parse(s).rest
    ensures ms[0].Wire() + s == Wires(ms[..n + 1]) + Parse(s).rest
    ensures [ms[0].payload] + Payloads(ms[1..])[..n] == Payloads(ms)[..n + 1]
  {
    WiresFirst(ms, n);
    ConcatAssociates(ms[0].Wire(), Wires(ms[1..][..n]), Parse(s).rest);
  }

  lemma WiresFirst(ms: seq<Message>, n: nat)
    requires n < |ms|
    ensures Wires(ms[..n + 1]) == ms[0].Wire() + Wires(ms[1..][..n])
  {
    assert ms[..n + 1][1..] == ms[1..][..n];
  }

  lemma ConcatAssociates<T>(a: seq<T>, b: seq<T>, c: seq<T>)
    ensures a + (b + c) == (a + b) + c
  {
  }

  /** The frames before the first close frame. */
  function BeforeClose(ms: seq<Message>): seq<Message> {
    if ms == [] || ms[0].Opcode() == OP_CLOSE then [] else [ms[0]] + BeforeClose(ms[1..])
  }

  /** The close request a close frame carries, as the server understands it. */
  function CloseRequest(m: Message): Close {
    Close(if |m.payload| >= 2 then Unpack(m.payload[..2]) else 1000, if |m.payload| > 3 then m.payload[2..] else [])
  }

  lemma ParseClose(m: Message, rest: seq<Byte>)
    requires m.Opcode() == OP_CLOSE
    ensures Parse(m.Wire() + rest) == Parsed([], Some(CloseRequest(m)), [])
  {
    CompleteWire(m, rest);
    CloseFields(m.Wire() + rest);
  }

  /** Frames, then a close frame: their payloads are found, then the request, and nothing after it counts. */
  lemma {:induction false} ParseUntilClose(ms: seq<Message>, m: Message, rest: seq<Byte>)
    requires NoClose(ms) && m.Opcode() == OP_CLOSE
    ensures Parse(Wires(ms) + (m.Wire() + rest)) == Parsed(Payloads(ms), Some(CloseRequest(m)), [])
  {
    if ms == [] {
      ParseClose(m, rest);
      assert Wires(ms) + (m.Wire() + rest) == m.Wire() + rest;
    } else {
      ParseUntilClose(ms[1..], m, rest);
      ParseFirst(ms[0], Wires(ms[1..]) + (m.Wire() + rest));
      ConcatAssociates(ms[0].Wire(), Wires(ms[1..]), m.Wire() + rest);
    }
  }

  /** Of any stream of frames, exactly the payloads before the first close frame are found. */
  lemma {:induction false} ParseStream(ms: seq<Message>)
    ensures Parse(Wires(ms)).bufs == Payloads(BeforeClose(ms))
    ensures Parse(Wires(ms)).closed.Some? <==> |BeforeClose(ms)| < |ms|
  {
    if ms != [] {
      if ms[0].Opcode() == OP_CLOSE {
        ParseClose(ms[0], Wires(ms[1..]));
      } else {
        ParseStream(ms[1..]);
        ParseFirst(ms[0], Wires(ms[1..]));
        assert BeforeClose(ms)[1..] == BeforeClose(ms[1..]);
      }
    }
  }

  /** More bytes only add payloads. */
  lemma ParseGrows(s: seq<Byte>, t: seq<Byte>)
    ensures Parse(s).bufs <= Parse(s + t).bufs
  {
    ParseInstalments(s, t);
  }

  /** A stream of complete frames parses to exactly their payloads. */
  lemma ParseAll(ms: seq<Message>)
    requires NoClose(ms)
    ensures Parse(Wires(ms)) == Parsed(Payloads(ms), None, [])
  {
    var n := ParsePrefix(ms, Wires(ms));
    if n < |ms| {
      WiresSplit(ms, n);
    } else {
      assert ms[..n] == ms && Payloads(ms)[..n] == Payloads(ms);
    }
  }

  lemma {:induction false} WiresSplit(ms: seq<Message>, n: nat)
    requires n < |ms|
    ensures |Wires(ms)| >= |Wires(ms[..n])| + |ms[n].Wire()|
  {
    if n > 0 {
      WiresSplit(ms[1..], n - 1);
      assert ms[..n][0] == ms[0] && ms[..n][1..] == ms[1..][..n - 1];
    }
  }
}
