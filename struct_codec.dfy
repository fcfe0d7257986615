/** Python's `struct.unpack` and `struct.pack` for the format characters the star
    catalogue uses, under the `>` prefix: big-endian byte order, standard sizes and no
    alignment padding, so every field starts right where the previous one ends.
    Float fields stay raw bit patterns, so packing inverts unpacking bit for bit; in
    Python a signalling NaN in an `f` field is quieted on the way through a double. */
module StructCodec {
  import opened BigEndian
  import opened Results

  /** One format character. A repeat count (`4?`, `2c`) is written as that many codes. */
  datatype Code =
    | Int32    // 'i': signed, 4 bytes
    | Int16    // 'h': signed, 2 bytes
    | Bool     // '?': 1 byte, nonzero is true
    | Char     // 'c': a bytes object of length 1
    | Float32  // 'f': IEEE 754 binary32
    | Float64  // 'd': IEEE 754 binary64

  /** One element of the tuple `struct.unpack` returns. Floating-point fields are kept
      as their raw bit patterns: the model does not interpret them as numbers. */
  datatype Value =
    | Int(i: int)
    | Flag(b: bool)
    | Char1(c: byte)
    | FloatBits(bits: nat)

  /** `struct.error`: the buffer is not exactly as long as the format requires. */
  datatype UnpackError = SizeMismatch(required: nat, given: nat)

  /** Standard size of a field under `>`. */
  function Width(c: Code): nat {
    match c
    case Int32 => 4
    case Int16 => 2
    case Bool => 1
    case Char => 1
    case Float32 => 4
    case Float64 => 8
  }

  /** Byte offset of field k: the total width of the fields before it. Under `>` there
      is no padding, so every field starts where the previous one ends. */
  function Offset(fmt: seq<Code>, k: nat): nat
    requires k <= |fmt|
  {
    if k == 0 then 0 else Offset(fmt, k - 1) + Width(fmt[k - 1])
  }

  /** `struct.calcsize`: where the last field ends. */
  function CalcSize(fmt: seq<Code>): nat {
    Offset(fmt, |fmt|)
  }

  /** Offsets never decrease along the format. */
  lemma {:induction false} OffsetMono(fmt: seq<Code>, j: nat, k: nat)
    requires j <= k <= |fmt|
    ensures Offset(fmt, j) <= Offset(fmt, k)
    decreases k
  {
    if j < k {
      OffsetMono(fmt, j, k - 1);
    }
  }

  /** The values a field of code c can hold (the range `struct.pack` accepts). */
  predicate Fits(c: Code, v: Value) {
    match c
    case Int32 => v.Int? && -Half(4) <= v.i < Half(4)
    case Int16 => v.Int? && -Half(2) <= v.i < Half(2)
    case Bool => v.Flag?
    case Char => v.Char1?
    case Float32 => v.FloatBits? && v.bits < Pow256(4)
    case Float64 => v.FloatBits? && v.bits < Pow256(8)
  }

  predicate FitsAll(fmt: seq<Code>, vs: seq<Value>) {
    |vs| == |fmt| && forall i :: 0 <= i < |fmt| ==> Fits(fmt[i], vs[i])
  }

  /** Decodes one field from exactly its own bytes. */
  function DecodeField(c: Code, bs: seq<byte>): (v: Value)
    requires |bs| == Width(c)
    ensures Fits(c, v)
  {
    match c
    case Int32 => Int(Signed(bs))
    case Int16 => Int(Signed(bs))
    case Bool => Flag(bs[0] != 0)
    case Char => Char1(bs[0])
    case Float32 => FloatBits(BeUint(bs))
    case Float64 => FloatBits(BeUint(bs))
  }

  /** Encodes one field as `struct.pack` does; true packs as 1. */
  function EncodeField(c: Code, v: Value): (bs: seq<byte>)
    requires Fits(c, v)
    ensures |bs| == Width(c)
  {
    match c
    case Int32 => SignedBytes(v.i, 4)
    case Int16 => SignedBytes(v.i, 2)
    case Bool => [if v.b then 1 else 0]
    case Char => [v.c]
    case Float32 => BeBytes(v.bits, 4)
    case Float64 => BeBytes(v.bits, 8)
  }

  /** The field bytes that `EncodeField` produces: a boolean byte is 0 or 1. */
  predicate CanonicalField(c: Code, bs: seq<byte>)
    requires |bs| == Width(c)
  {
    c == Bool ==> bs[0] <= 1
  }

  lemma DecodeEncodeField(c: Code, v: Value)
    requires Fits(c, v)
    ensures DecodeField(c, EncodeField(c, v)) == v
  {
    match c
    case Int32 => SignedOfSignedBytes(v.i, 4);
    case Int16 => SignedOfSignedBytes(v.i, 2);
    case Bool =>
    case Char =>
    case Float32 => BeUintOfBeBytes(v.bits, 4);
    case Float64 => BeUintOfBeBytes(v.bits, 8);
  }

  lemma EncodeDecodeField(c: Code, bs: seq<byte>)
    requires |bs| == Width(c) && CanonicalField(c, bs)
    ensures EncodeField(c, DecodeField(c, bs)) == bs
  {
    match c
    case Int32 => SignedBytesOfSigned(bs);
    case Int16 => SignedBytesOfSigned(bs);
    case Bool =>
    case Char =>
    case Float32 => BeBytesOfBeUint(bs);
    case Float64 => BeBytesOfBeUint(bs);
  }

  /** The bytes of field k: `Width(fmt[k])` bytes starting at its offset. */
  function FieldBytes(fmt: seq<Code>, bs: seq<byte>, k: nat): (f: seq<byte>)
    requires |bs| == CalcSize(fmt) && k < |fmt|
    ensures Offset(fmt, k + 1) <= |bs|
    ensures |f| == Width(fmt[k])
  {
    OffsetMono(fmt, k + 1, |fmt|);
    bs[Offset(fmt, k)..Offset(fmt, k + 1)]
  }

  /** The first n fields of the buffer, each decoded from its own bytes. */
  function UnpackFirst(fmt: seq<Code>, bs: seq<byte>, n: nat): (vs: seq<Value>)
    requires |bs| == CalcSize(fmt) && n <= |fmt|
    ensures |vs| == n
  {
    if n == 0 then [] else UnpackFirst(fmt, bs, n - 1) + [DecodeField(fmt[n - 1], FieldBytes(fmt, bs, n - 1))]
  }

  /** The tuple `struct.unpack` returns for a buffer of exactly the right size. */
  function UnpackAll(fmt: seq<Code>, bs: seq<byte>): (vs: seq<Value>)
    requires |bs| == CalcSize(fmt)
    ensures |vs| == |fmt|
  {
    UnpackFirst(fmt, bs, |fmt|)
  }

  lemma {:induction false} UnpackFirstAt(fmt: seq<Code>, bs: seq<byte>, n: nat, k: nat)
    requires |bs| == CalcSize(fmt) && k < n <= |fmt|
    ensures UnpackFirst(fmt, bs, n)[k] == DecodeField(fmt[k], FieldBytes(fmt, bs, k))
    decreases n
  {
    if k < n - 1 {
      UnpackFirstAt(fmt, bs, n - 1, k);
    }
  }

  /** Field k of the tuple is decoded from exactly the `Width(fmt[k])` bytes at its
      offset: the fields lie back to back from offset 0 to `CalcSize(fmt)`. */
  lemma UnpackAllAt(fmt: seq<Code>, bs: seq<byte>, k: nat)
    requires |bs| == CalcSize(fmt) && k < |fmt|
    ensures Offset(fmt, k) + Width(fmt[k]) == Offset(fmt, k + 1) <= |bs|
    ensures UnpackAll(fmt, bs)[k] == DecodeField(fmt[k], bs[Offset(fmt, k)..Offset(fmt, k + 1)])
  {
    UnpackFirstAt(fmt, bs, |fmt|, k);
  }

  /** Every unpacked value lies in the range of its field, so it can be packed again. */
  lemma UnpackAllFits(fmt: seq<Code>, bs: seq<byte>)
    requires |bs| == CalcSize(fmt)
    ensures FitsAll(fmt, UnpackAll(fmt, bs))
  {
    forall k | 0 <= k < |fmt|
      ensures Fits(fmt[k], UnpackAll(fmt, bs)[k])
    {
      UnpackFirstAt(fmt, bs, |fmt|, k);
    }
  }

  /** `struct.unpack(fmt, bs)`: fails unless the buffer holds exactly `calcsize(fmt)` bytes. */
  function Unpack(fmt: seq<Code>, bs: seq<byte>): (r: Result<seq<Value>, UnpackError>)
    ensures r.Ok? <==> |bs| == CalcSize(fmt)
    ensures r.Ok? ==> FitsAll(fmt, r.value)
    ensures r.Err? ==> r.error == SizeMismatch(CalcSize(fmt), |bs|)
  {
    if |bs| != CalcSize(fmt) then Err(SizeMismatch(CalcSize(fmt), |bs|))
    else
      UnpackAllFits(fmt, bs);
      Ok(UnpackAll(fmt, bs))
  }

  /** The first n pieces lined up one after another. */
  function ConcatFirst(pieces: seq<seq<byte>>, n: nat): seq<byte>
    requires n <= |pieces|
  {
    if n == 0 then [] else ConcatFirst(pieces, n - 1) + pieces[n - 1]
  }

  /** One piece per field, each exactly as wide as its field. */
  predicate Sized(fmt: seq<Code>, pieces: seq<seq<byte>>) {
    |pieces| == |fmt| && forall k :: 0 <= k < |fmt| ==> |pieces[k]| == Width(fmt[k])
  }

  /** Lined up, field-sized pieces end at the offset of the next field. */
  lemma {:induction false} ConcatFirstLength(fmt: seq<Code>, pieces: seq<seq<byte>>, n: nat)
    requires Sized(fmt, pieces) && n <= |fmt|
    ensures |ConcatFirst(pieces, n)| == Offset(fmt, n)
    decreases n
  {
    if n > 0 {
      ConcatFirstLength(fmt, pieces, n - 1);
    }
  }

  /** Piece k of lined-up, field-sized pieces sits exactly at the offset of field k. */
  lemma {:induction false} ConcatFirstField(fmt: seq<Code>, pieces: seq<seq<byte>>, n: nat, k: nat)
    requires Sized(fmt, pieces) && k < n <= |fmt|
    ensures Offset(fmt, k + 1) <= Offset(fmt, n) == |ConcatFirst(pieces, n)|
    ensures ConcatFirst(pieces, n)[Offset(fmt, k)..Offset(fmt, k + 1)] == pieces[k]
    decreases n
  {
    OffsetMono(fmt, k + 1, n);
    ConcatFirstLength(fmt, pieces, n);
    ConcatFirstLength(fmt, pieces, n - 1);
    if k < n - 1 {
      ConcatFirstField(fmt, pieces, n - 1, k);
      OffsetMono(fmt, k + 1, n - 1);
    }
  }

  /** The bytes of the first n fields of a buffer, cut at the field offsets. */
  function FieldsFirst(fmt: seq<Code>, bs: seq<byte>, n: nat): (pieces: seq<seq<byte>>)
    requires |bs| == CalcSize(fmt) && n <= |fmt|
    ensures |pieces| == n
  {
    if n == 0 then [] else FieldsFirst(fmt, bs, n - 1) + [FieldBytes(fmt, bs, n - 1)]
  }

  lemma {:induction false} FieldsFirstAt(fmt: seq<Code>, bs: seq<byte>, n: nat, k: nat)
    requires |bs| == CalcSize(fmt) && k < n <= |fmt|
    ensures FieldsFirst(fmt, bs, n)[k] == FieldBytes(fmt, bs, k)
    decreases n
  {
    if k < n - 1 {
      FieldsFirstAt(fmt, bs, n - 1, k);
    }
  }

  /** Lining the cut pieces up again gives back the buffer: the fields cover it. */
  lemma {:induction false} ConcatOfFields(fmt: seq<Code>, bs: seq<byte>, n: nat)
    requires |bs| == CalcSize(fmt) && n <= |fmt|
    ensures Offset(fmt, n) <= |bs|
    ensures ConcatFirst(FieldsFirst(fmt, bs, |fmt|), n) == bs[..Offset(fmt, n)]
    decreases n
  {
    OffsetMono(fmt, n, |fmt|);
    if n > 0 {
      ConcatOfFields(fmt, bs, n - 1);
      FieldsFirstAt(fmt, bs, |fmt|, n - 1);
      var field := FieldBytes(fmt, bs, n - 1);
      assert bs[..Offset(fmt, n)] == bs[..Offset(fmt, n - 1)] + field;
    }
  }

  /** The encodings of the first n values, one piece per field. */
  function EncodeFirst(fmt: seq<Code>, vs: seq<Value>, n: nat): (pieces: seq<seq<byte>>)
    requires FitsAll(fmt, vs) && n <= |fmt|
    ensures |pieces| == n
  {
    if n == 0 then [] else EncodeFirst(fmt, vs, n - 1) + [EncodeField(fmt[n - 1], vs[n - 1])]
  }

  lemma {:induction false} EncodeFirstAt(fmt: seq<Code>, vs: seq<Value>, n: nat, k: nat)
    requires FitsAll(fmt, vs) && k < n <= |fmt|
    ensures EncodeFirst(fmt, vs, n)[k] == EncodeField(fmt[k], vs[k])
    decreases n
  {
    if k < n - 1 {
      EncodeFirstAt(fmt, vs, n - 1, k);
    }
  }

  lemma EncodeAllSized(fmt: seq<Code>, vs: seq<Value>)
    requires FitsAll(fmt, vs)
    ensures Sized(fmt, EncodeFirst(fmt, vs, |fmt|))
  {
    forall k | 0 <= k < |fmt|
      ensures |EncodeFirst(fmt, vs, |fmt|)[k]| == Width(fmt[k])
    {
      EncodeFirstAt(fmt, vs, |fmt|, k);
    }
  }

  /** `struct.pack(fmt, *vs)`: the field encodings one after another, with no padding. */
  function PackAll(fmt: seq<Code>, vs: seq<Value>): (bs: seq<byte>)
    requires FitsAll(fmt, vs)
    ensures |bs| == CalcSize(fmt)
  {
    EncodeAllSized(fmt, vs);
    ConcatFirstLength(fmt, EncodeFirst(fmt, vs, |fmt|), |fmt|);
    ConcatFirst(EncodeFirst(fmt, vs, |fmt|), |fmt|)
  }

  /** Every boolean field of the buffer holds 0 or 1. */
  predicate CanonicalAll(fmt: seq<Code>, bs: seq<byte>)
    requires |bs| == CalcSize(fmt)
  {
    forall k :: 0 <= k < |fmt| ==> CanonicalField(fmt[k], FieldBytes(fmt, bs, k))
  }

  /** Field k of a packed buffer holds exactly the encoding of value k. */
  lemma PackAllField(fmt: seq<Code>, vs: seq<Value>, k: nat)
    requires FitsAll(fmt, vs) && k < |fmt|
    ensures FieldBytes(fmt, PackAll(fmt, vs), k) == EncodeField(fmt[k], vs[k])
  {
    EncodeAllSized(fmt, vs);
    ConcatFirstField(fmt, EncodeFirst(fmt, vs, |fmt|), |fmt|, k);
    EncodeFirstAt(fmt, vs, |fmt|, k);
  }

  /** Unpacking what was packed gives back the values. */
  lemma UnpackOfPack(fmt: seq<Code>, vs: seq<Value>)
    requires FitsAll(fmt, vs)
    ensures UnpackAll(fmt, PackAll(fmt, vs)) == vs
  {
    var bs := PackAll(fmt, vs);
    forall k | 0 <= k < |fmt|
      ensures UnpackAll(fmt, bs)[k] == vs[k]
    {
      UnpackFirstAt(fmt, bs, |fmt|, k);
      PackAllField(fmt, vs, k);
      DecodeEncodeField(fmt[k], vs[k]);
    }
  }

  /** Packing what was unpacked gives back every byte, so no byte of the buffer is
      skipped or left over, provided the boolean bytes are 0 or 1. */
  lemma PackOfUnpack(fmt: seq<Code>, bs: seq<byte>)
    requires |bs| == CalcSize(fmt) && CanonicalAll(fmt, bs)
    ensures FitsAll(fmt, UnpackAll(fmt, bs))
    ensures PackAll(fmt, UnpackAll(fmt, bs)) == bs
  {
    UnpackAllFits(fmt, bs);
    var vs := UnpackAll(fmt, bs);
    var encoded, fields := EncodeFirst(fmt, vs, |fmt|), FieldsFirst(fmt, bs, |fmt|);
    forall k | 0 <= k < |fmt|
      ensures encoded[k] == fields[k]
    {
      UnpackFirstAt(fmt, bs, |fmt|, k);
      EncodeFirstAt(fmt, vs, |fmt|, k);
      FieldsFirstAt(fmt, bs, |fmt|, k);
      EncodeDecodeField(fmt[k], FieldBytes(fmt, bs, k));
    }
    assert encoded == fields;
    ConcatOfFields(fmt, bs, |fmt|);
  }

  /** A boolean byte other than 0 and 1 decodes to true all the same, so unpacking
      forgets it: two different buffers give the same tuple. */
  lemma BoolUnpackIsLossy()
    ensures CalcSize([Bool]) == 1
    ensures UnpackAll([Bool], [2]) == UnpackAll([Bool], [1]) == [Flag(true)]
    ensures UnpackAll([Bool], [0]) == [Flag(false)]
  {
  }
}
