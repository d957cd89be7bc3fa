/**
 Facts about `load`'s tag dispatch: the range chain partitions the 256 tag
 values exactly as the sub-decoders' own tag tests do, so no sub-decoder ever
 reaches its logic-error branch; the one-byte tags decode as the format says;
 and the integer tags read the advertised field and give back the number that
 field encodes.
 */
module Dispatch {
  import opened Errors
  import opened ByteCast
  import opened Bytes
  import opened ByteSource
  import opened Values
  import opened Scalars
  import opened Blobs
  import opened Extensions
  import opened Load

  /**
   Every tag other than 0xc1 goes to a sub-decoder whose own test accepts it,
   and every tag a sub-decoder accepts is routed to it: the chain and the
   sub-decoders classify the tag space identically.
   */
  lemma RoutePartition(tag: bv8)
    ensures RouteOf(tag) == ReservedRoute <==> tag == 0xc1
    ensures RouteOf(tag) == IntegerRoute <==> IntegerTag(tag)
    ensures RouteOf(tag) == MapRoute <==> MapTag(tag)
    ensures RouteOf(tag) == ArrayRoute <==> ArrayTag(tag)
    ensures RouteOf(tag) == StringRoute <==> StringTag(tag)
    ensures RouteOf(tag) == ConstantRoute <==> tag == 0xc0 || tag == 0xc2 || tag == 0xc3
    ensures RouteOf(tag) == BinaryRoute <==> BinaryTag(tag)
    ensures RouteOf(tag) == ExtRoute <==> ExtTag(tag)
    ensures RouteOf(tag) == FloatRoute <==> tag == 0xca || tag == 0xcb
  {
  }

  /** The tag values that need nothing after them: fixints, nil, false, true, and the reserved code. */
  lemma OneByteTags(s: seq<bv8>, pos: nat, env: Env)
    requires pos < |s|
    ensures s[pos] <= 0x7f ==> Decode(s, pos, env) == Ok((Int(s[pos] as int), pos + 1))
    ensures s[pos] >= 0xe0 ==> Decode(s, pos, env) == Ok((Int(s[pos] as int - 256), pos + 1))
    ensures s[pos] == 0xc0 ==> Decode(s, pos, env) == Ok((Nil, pos + 1))
    ensures s[pos] == 0xc2 ==> Decode(s, pos, env) == Ok((Bool(false), pos + 1))
    ensures s[pos] == 0xc3 ==> Decode(s, pos, env) == Ok((Bool(true), pos + 1))
    ensures s[pos] == 0xc1 ==> Decode(s, pos, env) == Err(ReservedCode)
  {
    assert s[pos..pos + 1] == [s[pos]];
  }

  /** An empty buffer, or a cursor at its end, is `InsufficientData`. */
  lemma NothingToRead(s: seq<bv8>, env: Env)
    ensures Decode(s, |s|, env) == Err(InsufficientData)
  {
  }

  /** The one-byte spelling of a fixint. */
  function FixintByte(x: int): (b: bv8)
    requires -32 <= x <= 127
    ensures x >= 0 ==> b <= 0x7f
    ensures x < 0 ==> b >= 0xe0
  {
    (if x < 0 then x + 256 else x) as bv8
  }

  /** Every integer in -32..127 survives its one-byte encoding, whatever follows it. */
  lemma FixintRoundTrip(x: int, rest: seq<bv8>, env: Env)
    requires -32 <= x <= 127
    ensures Decode([FixintByte(x)] + rest, 0, env) == Ok((Int(x), 1))
  {
    var b := FixintByte(x);
    var s := [b] + rest;
    assert s[0] == b;
    ByteValue(if x < 0 then x + 256 else x);
    OneByteTags(s, 0, env);
  }

  /** The field a uint/int tag carries for `x`. */
  function IntField(tag: bv8, x: int): seq<bv8>
    requires 0xcc <= tag <= 0xd3
    requires tag <= 0xcf ==> 0 <= x < Pow256(IntWidth(tag))
    requires tag >= 0xd0 ==> -(Half(IntWidth(tag)) as int) <= x < Half(IntWidth(tag))
  {
    if tag <= 0xcf then FromUnsigned(x, IntWidth(tag)) else FromSigned(x, IntWidth(tag))
  }

  /**
   For each of uint 8/16/32/64 and int 8/16/32/64, every number in the
   format's range comes back from its tag and big-endian field, and the
   cursor ends right after the field.
   */
  lemma IntegerRoundTrip(tag: bv8, x: int, rest: seq<bv8>, env: Env)
    requires 0xcc <= tag <= 0xd3
    requires tag <= 0xcf ==> 0 <= x < Pow256(IntWidth(tag))
    requires tag >= 0xd0 ==> -(Half(IntWidth(tag)) as int) <= x < Half(IntWidth(tag))
    ensures Decode([tag] + IntField(tag, x) + rest, 0, env) == Ok((Int(x), 1 + IntWidth(tag)))
  {
    var w := IntWidth(tag);
    var s := [tag] + IntField(tag, x) + rest;
    assert s[0..1] == [tag];
    assert s[1..1 + w] == IntField(tag, x);
    var r := UnpackInteger(tag, s, 1);
    assert r.Ok?;
    var y := r.value.0.i;
    if tag <= 0xcf {
      UnsignedOfFromUnsigned(x, w);
      UnsignedOfFromUnsigned(y, w);
    } else {
      SignedOfFromSigned(x, w);
      SignedOfFromSigned(y, w);
    }
  }

  /** The tags 0xcc..0xd3 read one, two, four or eight bytes: `1 << ((tag - 0xcc) & 3)`. */
  lemma IntegerWidths(tag: bv8)
    requires 0xcc <= tag <= 0xd3
    ensures IntWidth(tag) == ((1 as bv8) << ((tag - 0xcc) & 3)) as int
    ensures IntWidth(tag) == 1 <==> tag == 0xcc || tag == 0xd0
    ensures IntWidth(tag) == 2 <==> tag == 0xcd || tag == 0xd1
    ensures IntWidth(tag) == 4 <==> tag == 0xce || tag == 0xd2
    ensures IntWidth(tag) == 8 <==> tag == 0xcf || tag == 0xd3
  {
    FormatTableAgrees(tag - 0xcc);
  }
}
