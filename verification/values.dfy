/**
 The decoder's output: Python objects as an immutable datatype, the options
 bag threaded through every call, and the key rules of `_unpack_map`
 (array-to-tuple normalisation and hashability).
 */
module Values {
  import opened Bytes

  /** A signed byte: the type identifier of an extension object. */
  type Int8 = x: int | -128 <= x < 128

  /** `Ext(type, data)`: an extension object left undecoded. */
  datatype ExtObj = ExtObj(typ: Int8, data: seq<bv8>)

  /**
   The result of a foreign extension callback. The callbacks are outside the
   model, so their result is recorded as the call that produced it.
   */
  datatype Foreign =
    | HandlerOutput(handler: nat, arg: ExtObj)                 // ext_handlers[type](ext)
    | UnpackbOutput(extClass: nat, typ: Int8, payload: seq<bv8>)  // the registered class's unpackb(data)

  /** A decoded Python object. `Str` carries the UTF-8 bytes of the text. */
  datatype Value =
    | Nil
    | Bool(b: bool)
    | Int(i: int)
    | Float(raw: seq<bv8>)
    | Str(text: seq<bv8>)
    | Bin(bytes: seq<bv8>)
    | Array(isTuple: bool, elems: seq<Value>)
    | Map(ordered: bool, entries: seq<(Value, Value)>)
    | Ext(ext: ExtObj)
    | Opaque(made: Foreign)

  /** An entry of the process-wide extension registry: a class, and whether it defines `unpackb`. */
  datatype ExtClass = ExtClass(id: nat, hasUnpackb: bool)

  /** The options bag: `use_tuple`, `use_ordered_dict`, `allow_invalid_utf8` and `ext_handlers` (an absent table is the empty map). */
  datatype Options = Options(
    useTuple: bool,
    useOrderedDict: bool,
    allowInvalidUtf8: bool,
    extHandlers: map<Int8, nat>)

  /**
   Everything a decode consults besides the bytes: the options, the global
   extension registry, and the text check performed by `str(data, 'utf-8')`.
   */
  datatype Env = Env(options: Options, registry: map<Int8, ExtClass>, validUtf8: iset<seq<bv8>>)

  predicate IsList(v: Value)
  {
    v.Array? && !v.isTuple
  }

  /** `_deep_list_to_tuple`: a list becomes a tuple of its converted elements; anything else is returned as is. */
  function DeepListToTuple(v: Value): (r: Value)
    ensures !IsList(r)
    ensures !IsList(v) ==> r == v
    ensures IsList(v) ==> r.Array? && |r.elems| == |v.elems|
  {
    if IsList(v) then
      Array(true, seq(|v.elems|, i requires 0 <= i < |v.elems| => DeepListToTuple(v.elems[i])))
    else v
  }

  /** Python's `hash(k)` succeeds: lists and dicts are unhashable, a tuple is hashable when its elements are. */
  predicate Hashable(v: Value)
  {
    match v
    case Array(isTuple, xs) => isTuple && forall i | 0 <= i < |xs| :: Hashable(xs[i])
    case Map(_, _) => false
    case _ => true
  }

  /** No map is reachable from `v` through arrays. */
  predicate MapFree(v: Value)
  {
    match v
    case Array(_, xs) => forall i | 0 <= i < |xs| :: MapFree(xs[i])
    case Map(_, _) => false
    case _ => true
  }

  /** Every array reachable from `v` through arrays is a tuple exactly when `tuple` holds. */
  predicate Uniform(tuple: bool, v: Value)
  {
    match v
    case Array(isTuple, xs) => isTuple == tuple && forall i | 0 <= i < |xs| :: Uniform(tuple, xs[i])
    case _ => true
  }

  /** The keys of an association list. */
  function Keys(es: seq<(Value, Value)>): set<Value>
  {
    set e | e in es :: e.0
  }

  predicate DistinctKeys(es: seq<(Value, Value)>)
  {
    forall i, j | 0 <= i < j < |es| :: es[i].0 != es[j].0
  }

  /** The options under which map keys are built: every array a key holds is a tuple. */
  function KeyEnv(env: Env): Env
  {
    env.(options := env.options.(useTuple := true))
  }

  /**
   What a successful decode under `env` can produce: integers within the
   64-bit formats, floats of 4 or 8 raw bytes, str payloads that pass the text
   check, arrays in the configured container, maps in the configured kind
   with distinct hashable keys, and extension results consistent with the
   handler tables.
   */
  predicate WellFormed(env: Env, v: Value)
    decreases v
  {
    match v
    case Int(i) => Representable(i)
    case Float(raw) => |raw| == 4 || |raw| == 8
    case Str(text) => text in env.validUtf8
    case Array(isTuple, xs) =>
      && isTuple == env.options.useTuple
      && forall i | 0 <= i < |xs| :: WellFormed(env, xs[i])
    case Map(ordered, es) =>
      && ordered == env.options.useOrderedDict
      && DistinctKeys(es)
      && forall i | 0 <= i < |es| :: Hashable(es[i].0) && WellFormed(KeyEnv(env), es[i].0) && WellFormed(env, es[i].1)
    case Ext(e) => e.typ !in env.options.extHandlers && e.typ !in env.registry
    case Opaque(HandlerOutput(h, e)) => e.typ in env.options.extHandlers && env.options.extHandlers[e.typ] == h
    case Opaque(UnpackbOutput(c, t, _)) =>
      t !in env.options.extHandlers && t in env.registry && env.registry[t] == ExtClass(c, true)
    case _ => true
  }

  /**
   Python's hashability, read off the structure: a value can be hashed
   exactly when every array in it is a tuple and no dict is reachable
   through those arrays.
   */
  lemma {:induction false} HashableIsTuplesWithoutMaps(v: Value)
    ensures Hashable(v) <==> Uniform(true, v) && MapFree(v)
    decreases v
  {
    match v
    case Array(_, xs) =>
      forall i | 0 <= i < |xs|
        ensures Hashable(xs[i]) <==> Uniform(true, xs[i]) && MapFree(xs[i])
      {
        HashableIsTuplesWithoutMaps(xs[i]);
      }
    case _ =>
  }

  /** Converting a key twice is converting it once. */
  lemma DeepListToTupleIdempotent(v: Value)
    ensures DeepListToTuple(DeepListToTuple(v)) == DeepListToTuple(v)
  {
  }

  /**
   For a value whose arrays are all lists or all tuples, the converted key is
   hashable exactly when no map is reachable through its arrays, so the
   hashability test rejects precisely the keys that hold a dict.
   */
  lemma {:induction false} HashableAfterConversion(tuple: bool, v: Value)
    requires Uniform(tuple, v)
    ensures Hashable(DeepListToTuple(v)) <==> MapFree(v)
  {
    match v
    case Array(_, xs) =>
      forall i | 0 <= i < |xs|
        ensures Hashable(DeepListToTuple(xs[i])) <==> MapFree(xs[i])
      {
        HashableAfterConversion(tuple, xs[i]);
      }
      if !tuple {
        var ys := DeepListToTuple(v).elems;
        assert forall i | 0 <= i < |xs| :: ys[i] == DeepListToTuple(xs[i]);
        assert Hashable(DeepListToTuple(v)) <==> forall i | 0 <= i < |xs| :: Hashable(DeepListToTuple(xs[i]));
      } else {
        forall i | 0 <= i < |xs|
          ensures DeepListToTuple(xs[i]) == xs[i]
        {
        }
      }
    case Map(_, _) =>
    case _ =>
  }

  /** A hashable key, once converted, holds only tuples and is well formed for key construction. */
  lemma {:induction false} ConvertedKeyWellFormed(env: Env, v: Value)
    requires WellFormed(env, v)
    requires Hashable(DeepListToTuple(v))
    ensures WellFormed(KeyEnv(env), DeepListToTuple(v))
  {
    match v
    case Array(isTuple, xs) =>
      var k := DeepListToTuple(v);
      if !isTuple {
        forall i | 0 <= i < |xs|
          ensures Hashable(DeepListToTuple(xs[i])) && WellFormed(KeyEnv(env), DeepListToTuple(xs[i]))
        {
          assert k.elems[i] == DeepListToTuple(xs[i]);
          ConvertedKeyWellFormed(env, xs[i]);
        }
      } else {
        forall i | 0 <= i < |xs|
          ensures WellFormed(KeyEnv(env), xs[i])
        {
          assert DeepListToTuple(xs[i]) == xs[i];
          ConvertedKeyWellFormed(env, xs[i]);
        }
      }
    case Map(_, _) =>
    case Opaque(f) =>
    case _ =>
  }
}
