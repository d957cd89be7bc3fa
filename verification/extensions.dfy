/**
 The extension decoder `_unpack_ext`: a payload length (implied by a fixext
 tag or read from an ext 8/16/32 field), one signed type byte, the payload,
 and then resolution through the per-call handler table, the process-wide
 class registry, or neither.
 */
module Extensions {
  import opened Errors
  import opened Bytes
  import opened ByteSource
  import opened Values

  predicate ExtTag(tag: bv8)
  {
    0xd4 <= tag <= 0xd8 || tag == 0xc7 || tag == 0xc8 || tag == 0xc9
  }

  /** `bytes.find`: the index of the first occurrence of `b` in `hay`, or -1. */
  function Find(hay: seq<bv8>, b: bv8): (r: int)
    ensures -1 <= r < |hay|
    ensures r >= 0 ==> hay[r] == b && forall i | 0 <= i < r :: hay[i] != b
    ensures r == -1 ==> b !in hay
  {
    if |hay| == 0 then -1
    else if hay[0] == b then 0
    else
      var k := Find(hay[1..], b);
      if k < 0 then -1 else k + 1
  }

  /** fixext 1, 2, 4, 8 and 16, in the order `_unpack_ext` searches them. */
  const FixExtTags: seq<bv8> := [0xd4, 0xd5, 0xd6, 0xd7, 0xd8]

  /** The payload length a fixext tag implies. */
  function FixExtLength(tag: bv8): nat
    requires 0xd4 <= tag <= 0xd8
  {
    match tag
    case 0xd4 => 1
    case 0xd5 => 2
    case 0xd6 => 4
    case 0xd7 => 8
    case _ => 16
  }

  /**
   The fixext tags 0xd4..0xd8 are found at positions 0..4 of the search
   table, and `1 << n` gives their payload lengths 1, 2, 4, 8 and 16; every
   other tag is absent from the table.
   */
  lemma FixExtLengths(tag: bv8)
    ensures 0xd4 <= tag <= 0xd8 ==> Find(FixExtTags, tag) == (tag - 0xd4) as int
    ensures 0xd4 <= tag <= 0xd8 ==> ((1 as bv8) << Find(FixExtTags, tag)) as nat == FixExtLength(tag)
    ensures !(0xd4 <= tag <= 0xd8) ==> Find(FixExtTags, tag) == -1
  {
    if 0xd4 <= tag <= 0xd8 {
      var n := (tag - 0xd4) as int;
      assert FixExtTags[n] == tag;
      assert forall i | 0 <= i < n :: FixExtTags[i] != tag;
      assert Find(FixExtTags, tag) == n;
      assert ((1 as bv8) << n) as nat == FixExtLength(tag);
    } else {
      assert tag !in FixExtTags;
    }
  }

  /** The length part of `_unpack_ext`: `1 << n` for the n-th fixext tag, else the field of ext 8/16/32. */
  function ExtLength(tag: bv8, s: seq<bv8>, pos: nat): (r: Result<(nat, nat)>)
    requires pos <= |s|
    requires ExtTag(tag)
    ensures r.Ok? ==> pos <= r.value.1 <= |s|
    ensures r.Err? ==> r.error == InsufficientData
    ensures 0xd4 <= tag <= 0xd8 ==> r == Ok((FixExtLength(tag), pos))
    ensures tag == 0xc7 ==> FieldRead(s, pos, 1, r)
    ensures tag == 0xc8 ==> FieldRead(s, pos, 2, r)
    ensures tag == 0xc9 ==> FieldRead(s, pos, 4, r)
  {
    var n := Find(FixExtTags, tag);
    FixExtLengths(tag);
    var length: nat := if n < 0 then 0 else ((1 as bv8) << n) as nat;
    if length != 0 then Ok((length, pos))
    else if tag == 0xc7 then ReadUnsigned(s, pos, 1)
    else if tag == 0xc8 then ReadUnsigned(s, pos, 2)
    else if tag == 0xc9 then ReadUnsigned(s, pos, 4)
    else assert false; Err(InsufficientData)
  }

  /**
   The resolution order of `_unpack_ext`: a per-call handler for the type wins
   and receives the whole extension object; otherwise a registered class
   decodes the payload with its `unpackb`, and one without `unpackb` is
   `NotImplemented`; otherwise the extension object itself is the result.
   */
  function ResolveExt(env: Env, e: ExtObj): (r: Result<Value>)
    ensures r.Ok? ==> WellFormed(env, r.value)
    ensures r.Err? ==> r.error == NotImplemented
    ensures e.typ in env.options.extHandlers ==>
      r.Ok? && r.value.Opaque? && r.value.made.HandlerOutput? && r.value.made.arg == e
    ensures e.typ !in env.options.extHandlers && e.typ in env.registry ==>
      (r.Ok? <==> env.registry[e.typ].hasUnpackb)
      && (r.Ok? ==> r.value.Opaque? && r.value.made.UnpackbOutput? && r.value.made.payload == e.data && r.value.made.typ == e.typ)
    ensures e.typ !in env.options.extHandlers && e.typ !in env.registry ==> r == Ok(Ext(e))
  {
    if e.typ in env.options.extHandlers then
      Ok(Opaque(HandlerOutput(env.options.extHandlers[e.typ], e)))
    else if e.typ in env.registry then
      var cls := env.registry[e.typ];
      if cls.hasUnpackb then Ok(Opaque(UnpackbOutput(cls.id, e.typ, e.data)))
      else Err(NotImplemented)
    else
      Ok(Ext(e))
  }

  /** The type identifier a type byte denotes: the byte read as a signed 8-bit number. */
  function TypeOfByte(b: bv8): (t: Int8)
    ensures t == if b >= 0x80 then b as int - 256 else b as int
  {
    UnsignedByte(b);
    SignedBound([b]);
    assert Half(1) == 128 && Pow256(1) == 256;
    Signed([b])
  }

  /** Attaches the cursor after a resolved extension. */
  function At(r: Result<Value>, next: nat): Result<(Value, nat)>
  {
    match r
    case Ok(v) => Ok((v, next))
    case Err(e) => Err(e)
  }

  /**
   The reading part of `_unpack_ext`: after the length, one type byte and
   exactly `length` payload bytes; a length, type byte or payload cut short is
   `InsufficientData`.
   */
  function ReadExtObj(tag: bv8, s: seq<bv8>, pos: nat): (r: Result<(ExtObj, nat)>)
    requires pos <= |s|
    requires ExtTag(tag)
    ensures r.Ok? ==> pos < r.value.1 <= |s|
    ensures r.Err? ==> r.error == InsufficientData
    ensures ExtLength(tag, s, pos).Err? ==> r.Err?
    ensures ExtLength(tag, s, pos).Ok? ==>
      var (length, p) := ExtLength(tag, s, pos).value;
      && (r.Ok? <==> p + 1 + length <= |s|)
      && (r.Ok? ==> r.value == (ExtObj(TypeOfByte(s[p]), s[p + 1..p + 1 + length]), p + 1 + length))
  {
    var (length, p) :- ExtLength(tag, s, pos);
    var (typeByte, q) :- ReadExact(s, p, 1);
    assert typeByte[0] == s[p] && q == p + 1;
    var (data, next) :- ReadExact(s, q, length);
    Ok((ExtObj(TypeOfByte(typeByte[0]), data), next))
  }

  /** `_unpack_ext`: the extension object read from the bytes, resolved through the handler tables. */
  function UnpackExt(tag: bv8, s: seq<bv8>, pos: nat, env: Env): (r: Result<(Value, nat)>)
    requires pos <= |s|
    requires ExtTag(tag)
    ensures r.Ok? ==> pos < r.value.1 <= |s| && WellFormed(env, r.value.0)
    ensures ReadExtObj(tag, s, pos).Err? ==> r == Err(ReadExtObj(tag, s, pos).error)
    ensures ReadExtObj(tag, s, pos).Ok? ==>
      var (e, next) := ReadExtObj(tag, s, pos).value;
      r == At(ResolveExt(env, e), next)
  {
    var (e, next) :- ReadExtObj(tag, s, pos);
    var v :- ResolveExt(env, e);
    Ok((v, next))
  }
}
