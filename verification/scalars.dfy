/**
 The scalar decoders `_unpack_integer` and `_unpack_float`, and the part of
 the struct module they rely on: integer format codes and `_re0`.
 */
module Scalars {
  import opened Errors
  import opened Bytes
  import opened ByteSource
  import opened Values

  /** Byte size of a struct integer code (`B b H h I i Q q`); 0 for any other character. */
  function CodeSize(c: char): nat
  {
    match c
    case 'B' => 1
    case 'b' => 1
    case 'H' => 2
    case 'h' => 2
    case 'I' => 4
    case 'i' => 4
    case 'Q' => 8
    case 'q' => 8
    case _ => 0
  }

  predicate IsSignedCode(c: char)
  {
    c == 'b' || c == 'h' || c == 'i' || c == 'q'
  }

  /** A struct format made of one integer code, optionally preceded by `>` (big-endian). */
  predicate IntFormat(fmt: string)
  {
    || (|fmt| == 1 && CodeSize(fmt[0]) > 0)
    || (|fmt| == 2 && fmt[0] == '>' && CodeSize(fmt[1]) > 0)
  }

  function FormatCode(fmt: string): char
    requires IntFormat(fmt)
  {
    fmt[|fmt| - 1]
  }

  /**
   `struct.unpack(fmt, data)[0]`; the struct module demands that `data` be
   exactly the format's size. A signed code gives the two's-complement
   number the bytes spell, an unsigned code the plain big-endian number.
   */
  function StructUnpack(fmt: string, data: seq<bv8>): (x: int)
    requires IntFormat(fmt) && |data| == CodeSize(FormatCode(fmt))
    ensures IsSignedCode(FormatCode(fmt)) ==>
      -(Half(|data|) as int) <= x < Half(|data|) && FromSigned(x, |data|) == data
    ensures !IsSignedCode(FormatCode(fmt)) ==>
      0 <= x < Pow256(|data|) && FromUnsigned(x as nat, |data|) == data
  {
    if IsSignedCode(FormatCode(fmt)) then
      FromSignedOfSigned(data);
      Signed(data)
    else
      FromUnsignedOfUnsigned(data);
      Unsigned(data)
  }

  /**
   `_re0(fmt, fp, n)` for an integer format: it succeeds exactly when `n`
   bytes remain, and for the unsigned formats it is the field read
   `ReadUnsigned` that the length decoders use.
   */
  function Re0(fmt: string, s: seq<bv8>, pos: nat, n: nat): (r: Result<(int, nat)>)
    requires pos <= |s|
    requires IntFormat(fmt) && n == CodeSize(FormatCode(fmt))
    ensures r.Ok? <==> pos + n <= |s|
    ensures r.Err? ==> r.error == InsufficientData
    ensures r.Ok? ==> r.value.1 == pos + n
    ensures r.Ok? && IsSignedCode(FormatCode(fmt)) ==>
      -(Half(n) as int) <= r.value.0 < Half(n) && FromSigned(r.value.0, n) == s[pos..pos + n]
    ensures !IsSignedCode(FormatCode(fmt)) ==>
      && (r.Ok? <==> ReadUnsigned(s, pos, n).Ok?)
      && (r.Ok? ==> r.value.0 == ReadUnsigned(s, pos, n).value.0)
  {
    var (data, next) :- ReadExact(s, pos, n);
    Ok((StructUnpack(fmt, data), next))
  }

  /** `str.strip()` for the padding spaces of the format table. */
  function Strip(s: string): string
  {
    if |s| > 0 && s[0] == ' ' then Strip(s[1..])
    else if |s| > 0 && s[|s| - 1] == ' ' then Strip(s[..|s| - 1])
    else s
  }

  /** Two characters per tag 0xcc..0xd3: the struct format of that tag's field, padded with a space. */
  const IntFormats: string := "B >H>I>Qb >h>i>q"

  /** The format `_unpack_integer` slices out of `IntFormats` for `ic = tag - 0xcc`. */
  function SlicedFormat(ic: bv8): string
    requires ic < 8
  {
    var off := (ic << 1) as int;
    Strip(IntFormats[off..off + 2])
  }

  /** The field width of tags 0xcc..0xd3: uint8/int8 1, uint16/int16 2, uint32/int32 4, uint64/int64 8. */
  function IntWidth(tag: bv8): nat
    requires 0xcc <= tag <= 0xd3
  {
    match (tag - 0xcc) as int % 4
    case 0 => 1
    case 1 => 2
    case 2 => 4
    case _ => 8
  }

  /**
   The sliced format table agrees with the shifted read count: for every
   `ic` in 0..7 the slice is a valid integer format whose size is
   `1 << (ic & 3)`, the width the format family promises, and it is signed
   exactly for the int tags 0xd0..0xd3.
   */
  lemma FormatTableAgrees(ic: bv8)
    requires ic < 8
    ensures IntFormat(SlicedFormat(ic))
    ensures CodeSize(FormatCode(SlicedFormat(ic))) == ((1 as bv8) << (ic & 3)) as int == IntWidth(ic + 0xcc)
    ensures IsSignedCode(FormatCode(SlicedFormat(ic))) <==> ic >= 4
  {
    var f := IntFormats;
    if ic == 0 {
      assert f[0..2] == "B ";
      assert Strip("B ") == Strip("B") == "B";
    } else if ic == 1 {
      assert f[2..4] == ">H";
    } else if ic == 2 {
      assert f[4..6] == ">I";
    } else if ic == 3 {
      assert f[6..8] == ">Q";
    } else if ic == 4 {
      assert f[8..10] == "b ";
      assert Strip("b ") == Strip("b") == "b";
    } else if ic == 5 {
      assert f[10..12] == ">h";
    } else if ic == 6 {
      assert f[12] == '>' && f[13] == 'i';
      assert f[12..14] == ">i";
    } else {
      assert f[14..16] == ">q";
    }
  }

  predicate IntegerTag(tag: bv8)
  {
    tag <= 0x7f || 0xcc <= tag <= 0xd3 || tag >= 0xe0
  }

  /**
   `_unpack_integer`: fixints carry their value in the tag; tags 0xcc..0xd3
   read a big-endian field whose width and signedness come from the format
   table. `pos` is the cursor after the tag.
   */
  function UnpackInteger(tag: bv8, s: seq<bv8>, pos: nat): (r: Result<(Value, nat)>)
    requires pos <= |s|
    requires IntegerTag(tag)
    ensures r.Ok? ==> r.value.0.Int? && Representable(r.value.0.i)
    ensures tag <= 0x7f ==> r == Ok((Int(tag as int), pos))
    ensures tag >= 0xe0 ==> r == Ok((Int(tag as int - 256), pos)) && -32 <= r.value.0.i <= -1
    ensures 0xcc <= tag <= 0xd3 ==>
      var w := IntWidth(tag);
      && (r.Ok? <==> pos + w <= |s|)
      && (r.Err? ==> r.error == InsufficientData)
      && (r.Ok? ==> r.value.1 == pos + w && r.value.0.Int?)
      && (r.Ok? && tag <= 0xcf ==>
            0 <= r.value.0.i < Pow256(w) && FromUnsigned(r.value.0.i, w) == s[pos..pos + w])
      && (r.Ok? && tag >= 0xd0 ==>
            -(Half(w) as int) <= r.value.0.i < Half(w) && FromSigned(r.value.0.i, w) == s[pos..pos + w])
  {
    UnsignedByte(tag);
    PowersOf256();
    if tag & 0xe0 == 0xe0 then
      assert tag >= 0xe0 && Pow256(1) == 256;
      Ok((Int(Signed([tag])), pos))
    else if tag & 0x80 == 0x00 then
      Ok((Int(Unsigned([tag])), pos))
    else
      var ic := tag - 0xcc;
      FormatTableAgrees(ic);
      var fmt := SlicedFormat(ic);
      var (x, next) :- Re0(fmt, s, pos, ((1 as bv8) << (ic & 3)) as int);
      Ok((Int(x), next))
  }

  /** `_unpack_float`: float32 and float64 carry 4 and 8 raw big-endian bytes; their IEEE-754 value is not modelled. */
  function UnpackFloat(tag: bv8, s: seq<bv8>, pos: nat): (r: Result<(Value, nat)>)
    requires pos <= |s|
    requires tag == 0xca || tag == 0xcb
    ensures var w := if tag == 0xca then 4 else 8;
      && (r.Ok? <==> pos + w <= |s|)
      && (r.Ok? ==> r.value == (Float(s[pos..pos + w]), pos + w))
      && (r.Err? ==> r.error == InsufficientData)
  {
    if tag == 0xca then
      var (raw, next) :- ReadExact(s, pos, 4);
      Ok((Float(raw), next))
    else if tag == 0xcb then
      var (raw, next) :- ReadExact(s, pos, 8);
      Ok((Float(raw), next))
    else
      assert false; Err(InsufficientData)
  }
}
