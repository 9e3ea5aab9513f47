// The byte formats of writer.h and reader.h: fixed-width integers and raw
// bytes, one after the other.
module Codec {
  import opened Base
  import opened CheckedMath
  import opened Bits

  // ---------- positional notation ----------

  // The number a byte string denotes, most significant byte first.
  function BeValue(bs: seq<byte>): (v: nat)
    ensures v < Pow2(8 * |bs|)
  {
    if bs == [] then
      assert Pow2(0) == 1;
      0
    else
      var n := |bs| - 1;
      Pow2Adds(8, 8 * n);
      Powers();
      256 * BeValue(bs[..n]) + bs[n]
  }

  // The low w bytes of a number, most significant first.
  function BeBytes(v: nat, w: nat): (bs: seq<byte>)
    ensures |bs| == w
  {
    if w == 0 then [] else BeBytes(v / 256, w - 1) + [v % 256]
  }

  function Reversed(bs: seq<byte>): (r: seq<byte>)
    ensures |r| == |bs| && forall i :: 0 <= i < |bs| ==> r[i] == bs[|bs| - 1 - i]
  {
    seq(|bs|, i requires 0 <= i < |bs| => bs[|bs| - 1 - i])
  }

  lemma {:induction false} ValueOfBytes(v: nat, w: nat)
    requires v < Pow2(8 * w)
    ensures BeValue(BeBytes(v, w)) == v
  {
    if w == 0 {
      assert Pow2(0) == 1;
    } else {
      Powers();
      Pow2Adds(8, 8 * (w - 1));
      ValueOfBytes(v / 256, w - 1);
      assert BeBytes(v, w)[..w - 1] == BeBytes(v / 256, w - 1);
    }
  }

  lemma {:induction false} BytesOfValue(bs: seq<byte>)
    ensures BeBytes(BeValue(bs), |bs|) == bs
  {
    if bs != [] {
      var n := |bs| - 1;
      BytesOfValue(bs[..n]);
      assert bs == bs[..n] + [bs[n]];
    }
  }

  lemma {:induction false} BeByteAt(v: nat, w: nat, i: nat)
    requires i < w
    ensures BeBytes(v, w)[i] == Shr(v, 8 * (w - 1 - i)) % 256
  {
    if i < w - 1 {
      BeByteAt(v / 256, w - 1, i);
      ShrByte(v, 8 * (w - 2 - i));
    }
  }

  // ---------- the encoders, as the writer spells them out ----------

  function EncodeU16Be(v: u16): seq<byte> {
    [ByteAt(v, 8), ByteAt(v, 0)]
  }

  function EncodeU32Be(v: u32): seq<byte> {
    [ByteAt(v, 24), ByteAt(v, 16), ByteAt(v, 8), ByteAt(v, 0)]
  }

  function EncodeU32Le(v: u32): seq<byte> {
    [ByteAt(v, 0), ByteAt(v, 8), ByteAt(v, 16), ByteAt(v, 24)]
  }

  lemma EncodersArePositional(a: u16, b: u32)
    ensures EncodeU16Be(a) == BeBytes(a, 2)
    ensures EncodeU32Be(b) == BeBytes(b, 4)
    ensures EncodeU32Le(b) == Reversed(BeBytes(b, 4))
  {
    BeByteAt(a, 2, 0);
    BeByteAt(a, 2, 1);
    BeByteAt(b, 4, 0);
    BeByteAt(b, 4, 1);
    BeByteAt(b, 4, 2);
    BeByteAt(b, 4, 3);
  }

  // ---------- the decoders, as the reader spells them out ----------

  function DecodeU16Be(b0: byte, b1: byte): nat {
    Or(Shl(b0, 8), b1)
  }

  function DecodeU32Be(b0: byte, b1: byte, b2: byte, b3: byte): nat {
    Or(Or(Or(Shl(b0, 24), Shl(b1, 16)), Shl(b2, 8)), b3)
  }

  function DecodeU32Le(b0: byte, b1: byte, b2: byte, b3: byte): nat {
    Or(Or(Or(b0, Shl(b1, 8)), Shl(b2, 16)), Shl(b3, 24))
  }

  lemma DecodeU16IsPositional(b0: byte, b1: byte)
    ensures DecodeU16Be(b0, b1) == BeValue([b0, b1])
  {
    ShlBytes(b0);
    OrLow8(0x100 * b0, b1);
    BeValueOf2(b0, b1);
  }

  lemma DecodeU32BeIsPositional(b0: byte, b1: byte, b2: byte, b3: byte)
    ensures DecodeU32Be(b0, b1, b2, b3) == BeValue([b0, b1, b2, b3])
  {
    hide Or, Shl, BeValue;
    ShlBytes(b0);
    ShlBytes(b1);
    ShlBytes(b2);
    OrLow24(0x100_0000 * b0, 0x1_0000 * b1);
    OrLow16(0x100_0000 * b0 + 0x1_0000 * b1, 0x100 * b2);
    OrLow8(0x100_0000 * b0 + 0x1_0000 * b1 + 0x100 * b2, b3);
    BeValueOf4(b0, b1, b2, b3);
  }

  lemma DecodeU32LeIsPositional(b0: byte, b1: byte, b2: byte, b3: byte)
    ensures DecodeU32Le(b0, b1, b2, b3) == BeValue([b3, b2, b1, b0])
  {
    hide Or, Shl, BeValue;
    ShlBytes(b1);
    ShlBytes(b2);
    ShlBytes(b3);
    OrLow8(0x100 * b1, b0);
    OrLow16(0x1_0000 * b2, 0x100 * b1 + b0);
    OrLow24(0x100_0000 * b3, 0x1_0000 * b2 + 0x100 * b1 + b0);
    BeValueOf4(b3, b2, b1, b0);
  }

  lemma BeValueOf2(b0: byte, b1: byte)
    ensures BeValue([b0, b1]) == 0x100 * b0 + b1
  {
    assert [b0, b1][..1] == [b0] && [b0][..0] == [];
  }

  lemma BeValueOf4(b0: byte, b1: byte, b2: byte, b3: byte)
    ensures BeValue([b0, b1, b2, b3]) == 0x100_0000 * b0 + 0x1_0000 * b1 + 0x100 * b2 + b3
  {
    assert [b0, b1, b2, b3][..3] == [b0, b1, b2] && [b0, b1, b2][..2] == [b0, b1];
    BeValueOf2(b0, b1);
  }

  lemma BeValueOf8(b0: byte, b1: byte, b2: byte, b3: byte, b4: byte, b5: byte, b6: byte, b7: byte)
    ensures BeValue([b0, b1, b2, b3, b4, b5, b6, b7]) ==
            0x100_0000_0000_0000 * b0 + 0x1_0000_0000_0000 * b1 + 0x100_0000_0000 * b2 + 0x1_0000_0000 * b3
            + 0x100_0000 * b4 + 0x1_0000 * b5 + 0x100 * b6 + b7
  {
    hide BeValue;
    var bs := [b0, b1, b2, b3, b4, b5, b6, b7];
    BeValueOf4(b0, b1, b2, b3);
    assert bs[..4] == [b0, b1, b2, b3] && bs[..8] == bs;
    BeValueUpTo(bs, 4);
    BeValueUpTo(bs, 5);
    BeValueUpTo(bs, 6);
    BeValueUpTo(bs, 7);
  }

  lemma BeValueUpTo(bs: seq<byte>, i: nat)
    requires i < |bs|
    ensures BeValue(bs[..i + 1]) == 256 * BeValue(bs[..i]) + bs[i]
  {
    assert bs[..i + 1][..i] == bs[..i];
  }

  // ---------- the formats in plain arithmetic ----------

  lemma TwoBytes(v: nat)
    ensures BeBytes(v, 2) == [v / 0x100 % 0x100, v % 0x100]
  {
    assert BeBytes(v / 256, 1) == BeBytes(v / 256 / 256, 0) + [v / 256 % 256];
  }

  lemma FourBytes(v: nat)
    ensures BeBytes(v, 4) == [v / 0x100_0000 % 0x100, v / 0x1_0000 % 0x100, v / 0x100 % 0x100, v % 0x100]
  {
    TwoBytes(v / 0x1_0000);
    assert BeBytes(v / 256, 3) == BeBytes(v / 256 / 256, 2) + [v / 256 % 256];
  }

  // What the encoders emit: most significant byte first, but for the one
  // little-endian format, whose byte i is v / 256^i % 256.
  lemma EncodersMean(a: u16, v: u32)
    ensures EncodeU16Be(a) == [a / 0x100 % 0x100, a % 0x100]
    ensures EncodeU32Be(v) == [v / 0x100_0000 % 0x100, v / 0x1_0000 % 0x100, v / 0x100 % 0x100, v % 0x100]
    ensures EncodeU32Le(v) == [v % 0x100, v / 0x100 % 0x100, v / 0x1_0000 % 0x100, v / 0x100_0000 % 0x100]
  {
    hide EncodeU16Be, EncodeU32Be, EncodeU32Le, BeBytes, Reversed;
    EncodersArePositional(a, v);
    TwoBytes(a);
    FourBytes(v);
  }

  // Eight bytes, most significant first, add up to the number.
  lemma EightBytesMean(d: u64)
    ensures var bs := BeBytes(d, 8);
            var b0: int, b1: int, b2: int, b3: int := bs[0], bs[1], bs[2], bs[3];
            var b4: int, b5: int, b6: int, b7: int := bs[4], bs[5], bs[6], bs[7];
            d == 0x100_0000_0000_0000 * b0 + 0x1_0000_0000_0000 * b1 + 0x100_0000_0000 * b2 + 0x1_0000_0000 * b3
                 + 0x100_0000 * b4 + 0x1_0000 * b5 + 0x100 * b6 + b7
  {
    hide BeBytes, BeValue;
    Powers();
    var bs := BeBytes(d, 8);
    ValueOfBytes(d, 8);
    BeValueOf8(bs[0], bs[1], bs[2], bs[3], bs[4], bs[5], bs[6], bs[7]);
    assert bs == [bs[0], bs[1], bs[2], bs[3], bs[4], bs[5], bs[6], bs[7]];
  }

  // What the decoders make of bytes.
  lemma DecodersMean(b0: byte, b1: byte, b2: byte, b3: byte)
    ensures DecodeU16Be(b0, b1) == 0x100 * b0 + b1
    ensures DecodeU32Be(b0, b1, b2, b3) == 0x100_0000 * b0 + 0x1_0000 * b1 + 0x100 * b2 + b3
    ensures DecodeU32Le(b0, b1, b2, b3) == b0 + 0x100 * b1 + 0x1_0000 * b2 + 0x100_0000 * b3
  {
    hide DecodeU16Be, DecodeU32Be, DecodeU32Le, BeValue;
    DecodeU16IsPositional(b0, b1);
    DecodeU32BeIsPositional(b0, b1, b2, b3);
    DecodeU32LeIsPositional(b0, b1, b2, b3);
    BeValueOf2(b0, b1);
    BeValueOf4(b0, b1, b2, b3);
    BeValueOf4(b3, b2, b1, b0);
  }

  // ---------- messages: lists of fields ----------

  datatype Field =
    | U8(b: byte)
    | U16Be(h: u16)
    | U32Be(w: u32)
    | U32Le(w: u32)
    | U64Be(d: u64)
    | Raw(bytes: seq<byte>)

  datatype Kind = KU8 | KU16Be | KU32Be | KU32Le | KU64Be | KRaw(n: nat) {
    function Width(): nat {
      match this
      case KU8 => 1
      case KU16Be => 2
      case KU32Be => 4
      case KU32Le => 4
      case KU64Be => 8
      case KRaw(n) => n
    }
  }

  function KindOf(f: Field): Kind {
    match f
    case U8(_) => KU8
    case U16Be(_) => KU16Be
    case U32Be(_) => KU32Be
    case U32Le(_) => KU32Le
    case U64Be(_) => KU64Be
    case Raw(bytes) => KRaw(|bytes|)
  }

  function EncodeField(f: Field): (bs: seq<byte>)
    ensures |bs| == KindOf(f).Width()
  {
    match f
    case U8(b) => [b]
    case U16Be(h) => BeBytes(h, 2)
    case U32Be(w) => BeBytes(w, 4)
    case U32Le(w) => Reversed(BeBytes(w, 4))
    case U64Be(d) => BeBytes(d, 8)
    case Raw(bytes) => bytes
  }

  function DecodeField(k: Kind, bs: seq<byte>): (f: Field)
    requires |bs| == k.Width()
  {
    Powers();
    match k
    case KU8 => U8(bs[0])
    case KU16Be => U16Be(BeValue(bs))
    case KU32Be => U32Be(BeValue(bs))
    case KU32Le => U32Le(BeValue(Reversed(bs)))
    case KU64Be => U64Be(BeValue(bs))
    case KRaw(_) => Raw(bs)
  }

  // The bytes of a field: for an integer, of its value in its format.
  lemma FieldsMean(f: Field)
    ensures match f
            case U8(b) => EncodeField(f) == [b]
            case U16Be(a) => EncodeField(f) == [a / 0x100 % 0x100, a % 0x100]
            case U32Be(v) =>
              EncodeField(f) == [v / 0x100_0000 % 0x100, v / 0x1_0000 % 0x100, v / 0x100 % 0x100, v % 0x100]
            case U32Le(v) =>
              EncodeField(f) == [v % 0x100, v / 0x100 % 0x100, v / 0x1_0000 % 0x100, v / 0x100_0000 % 0x100]
            case U64Be(d) => EncodeField(f) == BeBytes(d, 8)
            case Raw(bytes) => EncodeField(f) == bytes
  {
    hide BeBytes, Reversed;
    match f
    case U8(_) =>
    case U16Be(a) => TwoBytes(a);
    case U32Be(v) => FourBytes(v);
    case U32Le(v) => FourBytes(v);
    case U64Be(_) =>
    case Raw(_) =>
  }

  lemma ReversedTwice(bs: seq<byte>)
    ensures Reversed(Reversed(bs)) == bs
  {}

  lemma FieldRoundTrip(f: Field)
    ensures DecodeField(KindOf(f), EncodeField(f)) == f
  {
    hide BeBytes, BeValue, Reversed, Pow2;
    Powers();
    match f
    case U8(_) =>
    case U16Be(h) => ValueOfBytes(h, 2);
    case U32Be(w) => ValueOfBytes(w, 4);
    case U32Le(w) =>
      ValueOfBytes(w, 4);
      ReversedTwice(BeBytes(w, 4));
    case U64Be(d) => ValueOfBytes(d, 8);
    case Raw(_) =>
  }

  lemma FieldReencodes(k: Kind, bs: seq<byte>)
    requires |bs| == k.Width()
    ensures KindOf(DecodeField(k, bs)) == k
    ensures EncodeField(DecodeField(k, bs)) == bs
  {
    match k
    case KU8 =>
    case KU16Be => BytesOfValue(bs);
    case KU32Be => BytesOfValue(bs);
    case KU32Le =>
      BytesOfValue(Reversed(bs));
      ReversedTwice(bs);
    case KU64Be => BytesOfValue(bs);
    case KRaw(_) =>
  }

  function Kinds(fs: seq<Field>): (ks: seq<Kind>)
    ensures |ks| == |fs|
  {
    seq(|fs|, i requires 0 <= i < |fs| => KindOf(fs[i]))
  }

  function TotalWidth(ks: seq<Kind>): nat {
    if ks == [] then 0 else ks[0].Width() + TotalWidth(ks[1..])
  }

  function Encode(fs: seq<Field>): seq<byte> {
    if fs == [] then [] else EncodeField(fs[0]) + Encode(fs[1..])
  }

  // Reading a schema from the front of bs; None when it runs short.
  function Decode(ks: seq<Kind>, bs: seq<byte>): Option<seq<Field>> {
    if ks == [] then Some([])
    else
      var w := ks[0].Width();
      if |bs| < w then None
      else
        var rest := Decode(ks[1..], bs[w..]);
        if rest.None? then None else Some([DecodeField(ks[0], bs[..w])] + rest.value)
  }

  // Whatever was written is read back, and exactly the written bytes are used.
  lemma {:induction false} DecodesWhatWasEncoded(fs: seq<Field>, rest: seq<byte>)
    ensures TotalWidth(Kinds(fs)) == |Encode(fs)|
    ensures Decode(Kinds(fs), Encode(fs) + rest) == Some(fs)
  {
    hide EncodeField, DecodeField;
    if fs != [] {
      var ks, w := Kinds(fs), KindOf(fs[0]).Width();
      var bs := Encode(fs) + rest;
      assert ks[1..] == Kinds(fs[1..]);
      assert bs[..w] == EncodeField(fs[0]) && bs[w..] == Encode(fs[1..]) + rest;
      FieldRoundTrip(fs[0]);
      DecodesWhatWasEncoded(fs[1..], rest);
      assert [fs[0]] + fs[1..] == fs;
    }
  }

  lemma KindsOfCons(f: Field, fs: seq<Field>)
    ensures Kinds([f] + fs) == [KindOf(f)] + Kinds(fs)
  {}

  lemma PrefixSplits(bs: seq<byte>, w: nat, t: nat)
    requires w + t <= |bs|
    ensures bs[..w + t] == bs[..w] + bs[w..][..t]
  {}

  // Whatever is read, from any bytes, encodes to exactly the bytes used; and
  // reading fails only when there are too few of them.
  lemma {:induction false} ReencodesWhatWasDecoded(ks: seq<Kind>, bs: seq<byte>)
    ensures Decode(ks, bs).Some? <==> TotalWidth(ks) <= |bs|
    ensures Decode(ks, bs).Some? ==>
              Kinds(Decode(ks, bs).value) == ks && Encode(Decode(ks, bs).value) == bs[..TotalWidth(ks)]
  {
    hide EncodeField, DecodeField, Kinds;
    if ks == [] {
      KindsOfNone();
    } else if ks[0].Width() <= |bs| {
      var w, t := ks[0].Width(), TotalWidth(ks[1..]);
      FieldReencodes(ks[0], bs[..w]);
      ReencodesWhatWasDecoded(ks[1..], bs[w..]);
      if w + t <= |bs| {
        var f, fs := DecodeField(ks[0], bs[..w]), Decode(ks[1..], bs[w..]).value;
        KindsOfCons(f, fs);
        PrefixSplits(bs, w, t);
        assert ([f] + fs)[1..] == fs;
      }
    }
  }

  lemma KindsOfNone()
    ensures Kinds([]) == []
  {}
}
