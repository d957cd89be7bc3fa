/**
 `load`: read one tag byte, route it by numeric range to one of the
 sub-decoders, and recurse for the elements of arrays and the keys and values
 of maps. The cursor argument plays the part of the stream position; every
 successful decode moves it forward, which is also why the recursion ends.
 */
module Load {
  import opened Errors
  import opened Bytes
  import opened ByteSource
  import opened Values
  import opened Scalars
  import opened Blobs
  import opened Extensions

  /** The sub-decoder `load` hands a tag to. */
  datatype Route =
    | IntegerRoute
    | MapRoute
    | ArrayRoute
    | StringRoute
    | ReservedRoute
    | ConstantRoute
    | BinaryRoute
    | ExtRoute
    | FloatRoute

  /** The comparison chain of `load`, tested in the order the code tests it. */
  function RouteOf(ic: bv8): Route
  {
    if ic <= 0x7f || (0xcc <= ic <= 0xd3) || 0xe0 <= ic then IntegerRoute
    else if ic <= 0xc9 then
      if ic <= 0xc3 then
        if ic <= 0x8f then MapRoute
        else if ic <= 0x9f then ArrayRoute
        else if ic <= 0xbf then StringRoute
        else if ic == 0xc1 then ReservedRoute
        else ConstantRoute
      else if ic <= 0xc6 then BinaryRoute
      else ExtRoute
    else if ic <= 0xcb then FloatRoute
    else if ic <= 0xd8 then ExtRoute
    else if ic <= 0xdb then StringRoute
    else if ic <= 0xdd then ArrayRoute
    else MapRoute
  }

  predicate ArrayTag(tag: bv8)
  {
    tag & 0xf0 == 0x90 || tag == 0xdc || tag == 0xdd
  }

  predicate MapTag(tag: bv8)
  {
    tag & 0xf0 == 0x80 || tag == 0xde || tag == 0xdf
  }

  /** The length part of `_unpack_array`: the low nibble of a fixarray tag, or the field of array 16/32. */
  function ArrayLength(tag: bv8, s: seq<bv8>, pos: nat): (r: Result<(nat, nat)>)
    requires pos <= |s|
    requires ArrayTag(tag)
    ensures r.Ok? ==> pos <= r.value.1 <= |s|
    ensures r.Err? ==> r.error == InsufficientData
    ensures 0x90 <= tag <= 0x9f ==> r == Ok((tag as int - 0x90, pos))
    ensures tag == 0xdc ==> FieldRead(s, pos, 2, r)
    ensures tag == 0xdd ==> FieldRead(s, pos, 4, r)
  {
    if tag & 0xf0 == 0x90 then Ok(((tag & !0xf0) as nat, pos))
    else if tag == 0xdc then ReadUnsigned(s, pos, 2)
    else if tag == 0xdd then ReadUnsigned(s, pos, 4)
    else assert false; Err(InsufficientData)
  }

  /** The length part of `_unpack_map`: the low nibble of a fixmap tag, or the field of map 16/32. */
  function MapLength(tag: bv8, s: seq<bv8>, pos: nat): (r: Result<(nat, nat)>)
    requires pos <= |s|
    requires MapTag(tag)
    ensures r.Ok? ==> pos <= r.value.1 <= |s|
    ensures r.Err? ==> r.error == InsufficientData
    ensures 0x80 <= tag <= 0x8f ==> r == Ok((tag as int - 0x80, pos))
    ensures tag == 0xde ==> FieldRead(s, pos, 2, r)
    ensures tag == 0xdf ==> FieldRead(s, pos, 4, r)
  {
    if tag & 0xf0 == 0x80 then Ok(((tag & !0xf0) as nat, pos))
    else if tag == 0xde then ReadUnsigned(s, pos, 2)
    else if tag == 0xdf then ReadUnsigned(s, pos, 4)
    else assert false; Err(InsufficientData)
  }

  lemma PrefixOfPrefix<T>(xs: seq<T>, acc: seq<T>, e: T)
    requires |acc| + 1 <= |xs| && xs[..|acc| + 1] == acc + [e]
    ensures xs[..|acc|] == acc
  {
    assert xs[..|acc|] == xs[..|acc| + 1][..|acc|];
  }

  /**
   The key `_unpack_map` stores: a list is first converted to a tuple. The
   stored key is never a list, a key Python can already hash is stored as it
   is, and a list keeps its length.
   */
  function NormalizeKey(k: Value): (key: Value)
    ensures !IsList(key)
    ensures !IsList(k) ==> key == k
    ensures Hashable(k) ==> key == k
    ensures IsList(k) ==> key.Array? && key.isTuple && |key.elems| == |k.elems|
  {
    if IsList(k) then DeepListToTuple(k) else k
  }

  /** The tuple `(None, 0, False, True)` indexed by `tag - 0xc0`, for the tags the chain sends there. */
  function Constant(tag: bv8): (v: Value)
    requires tag == 0xc0 || tag == 0xc2 || tag == 0xc3
    ensures tag == 0xc0 ==> v == Nil
    ensures tag == 0xc2 ==> v == Bool(false)
    ensures tag == 0xc3 ==> v == Bool(true)
  {
    [Nil, Int(0), Bool(false), Bool(true)][(tag - 0xc0) as int]
  }

  /**
   `load`: one tag byte, then the sub-decoder its range selects. Every
   successful decode consumes at least the tag byte and never runs past the
   buffer.
   */
  function Decode(s: seq<bv8>, pos: nat, env: Env): (r: Result<(Value, nat)>)
    requires pos <= |s|
    ensures r.Ok? ==> pos < r.value.1 <= |s|
    decreases |s| - pos, 0, 0
  {
    var (code, p) :- ReadExact(s, pos, 1);
    var tag := code[0];
    match RouteOf(tag)
    case IntegerRoute => UnpackInteger(tag, s, p)
    case MapRoute => UnpackMap(tag, s, p, env)
    case ArrayRoute => UnpackArray(tag, s, p, env)
    case StringRoute => UnpackString(tag, s, p, env)
    case ReservedRoute => Err(ReservedCode)
    case ConstantRoute => Ok((Constant(tag), p))
    case BinaryRoute => UnpackBinary(tag, s, p)
    case ExtRoute => UnpackExt(tag, s, p, env)
    case FloatRoute => UnpackFloat(tag, s, p)
  }

  /** `_unpack_array`: the length, then that many values decoded in order, as a tuple exactly when `use_tuple` is set. */
  function UnpackArray(tag: bv8, s: seq<bv8>, pos: nat, env: Env): (r: Result<(Value, nat)>)
    requires pos <= |s|
    requires ArrayTag(tag)
    ensures r.Ok? ==> pos <= r.value.1 <= |s|
    ensures r.Ok? ==> ArrayLength(tag, s, pos).Ok? && r.value.0.Array? && |r.value.0.elems| == ArrayLength(tag, s, pos).value.0
    ensures r.Ok? ==> r.value.0.isTuple == env.options.useTuple
    decreases |s| - pos, 2, 0
  {
    var (length, p) :- ArrayLength(tag, s, pos);
    var (xs, next) :- DecodeN(s, p, length, env);
    Ok((Array(env.options.useTuple, xs), next))
  }

  /** `count` values decoded one after another from `pos`. */
  function DecodeN(s: seq<bv8>, pos: nat, count: nat, env: Env): (r: Result<(seq<Value>, nat)>)
    requires pos <= |s|
    ensures r.Ok? ==> pos <= r.value.1 <= |s| && |r.value.0| == count
    decreases |s| - pos, 1, count
  {
    if count == 0 then Ok(([], pos))
    else
      var (x, p) :- Decode(s, pos, env);
      var (xs, next) :- DecodeN(s, p, count - 1, env);
      Ok(([x] + xs, next))
  }

  /** `_unpack_map`: the length, then that many key/value pairs, as an ordered dict exactly when `use_ordered_dict` is set. */
  function UnpackMap(tag: bv8, s: seq<bv8>, pos: nat, env: Env): (r: Result<(Value, nat)>)
    requires pos <= |s|
    requires MapTag(tag)
    ensures r.Ok? ==> pos <= r.value.1 <= |s|
    ensures r.Ok? ==> MapLength(tag, s, pos).Ok? && r.value.0.Map? && |r.value.0.entries| == MapLength(tag, s, pos).value.0
    ensures r.Ok? ==> r.value.0.ordered == env.options.useOrderedDict
    decreases |s| - pos, 2, 0
  {
    var (length, p) :- MapLength(tag, s, pos);
    var (es, next) :- DecodeEntries(s, p, length, env, []);
    Ok((Map(env.options.useOrderedDict, es), next))
  }

  /**
   The loop of `_unpack_map` from the dict `acc` built so far: decode a key,
   convert a list key to a tuple, reject an unhashable key and then a key
   already present, and only then decode the value. The result extends `acc`
   by exactly `count` entries.
   */
  function DecodeEntries(s: seq<bv8>, pos: nat, count: nat, env: Env, acc: seq<(Value, Value)>)
    : (r: Result<(seq<(Value, Value)>, nat)>)
    requires pos <= |s|
    ensures r.Ok? ==> pos <= r.value.1 <= |s|
    ensures r.Ok? ==> |r.value.0| == |acc| + count && r.value.0[..|acc|] == acc
    decreases |s| - pos, 1, count
  {
    if count == 0 then Ok((acc, pos))
    else
      var (k0, p) :- Decode(s, pos, env);
      var k := NormalizeKey(k0);
      if !Hashable(k) then Err(UnhashableKey)
      else if k in Keys(acc) then Err(DuplicateKey)
      else
        var (v, q) :- Decode(s, p, env);
        var r := DecodeEntries(s, q, count - 1, env, acc + [(k, v)]);
        if r.Ok? then PrefixOfPrefix(r.value.0, acc, (k, v)); r else r
  }
}
