/**
 The key rules of `_unpack_map`: which decoded keys are rejected as
 unhashable, that a repeated key is rejected before the bytes of its value are
 looked at, and what the stored key is.
 */
module MapKeys {
  import opened Errors
  import opened ByteSource
  import opened Values
  import opened Load
  import opened Locality
  import opened WellFormedness

  /** A decoded value holds lists only, or tuples only, as `use_tuple` says. */
  lemma {:induction false} WellFormedUniform(env: Env, v: Value)
    requires WellFormed(env, v)
    ensures Uniform(env.options.useTuple, v)
    decreases v
  {
    match v
    case Array(_, xs) =>
      forall i | 0 <= i < |xs|
        ensures Uniform(env.options.useTuple, xs[i])
      {
        WellFormedUniform(env, xs[i]);
      }
    case _ =>
  }

  /**
   The checks `_unpack_map` applies to the next key: a key that holds a dict
   anywhere inside its arrays is `UnhashableKey`; a hashable key equal to one
   already in the dict is `DuplicateKey`; otherwise, if the map decodes, the
   key is stored converted: as a tuple of tuples, with no list left in it.
   */
  lemma KeyChecks(s: seq<bv8>, pos: nat, count: nat, env: Env, acc: seq<(Value, Value)>)
    requires pos <= |s| && count > 0
    requires Decode(s, pos, env).Ok?
    ensures var k0 := Decode(s, pos, env).value.0;
      && (!MapFree(k0) ==> DecodeEntries(s, pos, count, env, acc) == Err(UnhashableKey))
      && (MapFree(k0) && NormalizeKey(k0) in Keys(acc) ==> DecodeEntries(s, pos, count, env, acc) == Err(DuplicateKey))
      && (DecodeEntries(s, pos, count, env, acc).Ok? ==>
            && MapFree(k0)
            && DecodeEntries(s, pos, count, env, acc).value.0[|acc|].0 == NormalizeKey(k0)
            && Uniform(true, NormalizeKey(k0))
            && Decode(s, Decode(s, pos, env).value.1, env).Ok?
            && DecodeEntries(s, pos, count, env, acc).value.0[|acc|].1 == Decode(s, Decode(s, pos, env).value.1, env).value.0)
  {
    var (k0, p) := Decode(s, pos, env).value;
    DecodeWellFormed(s, pos, env);
    WellFormedUniform(env, k0);
    HashableAfterConversion(env.options.useTuple, k0);
    var r := DecodeEntries(s, pos, count, env, acc);
    if r.Ok? {
      var k := NormalizeKey(k0);
      var (v, q) := Decode(s, p, env).value;
      assert r.value.0[..|acc| + 1] == acc + [(k, v)] by {
        assert r.value.0[..|acc| + 1][..|acc|] == r.value.0[..|acc|];
        assert DecodeEntries(s, q, count - 1, env, acc + [(k, v)]) == r;
      }
      assert r.value.0[|acc|] == r.value.0[..|acc| + 1][|acc|];
      HashableIsTuplesWithoutMaps(k);
    }
  }

  /**
   `DuplicateKey` is raised as soon as the repeated key has been read: the
   outcome is the same on any buffer that holds the key's bytes, including
   one that ends right after the key, so the value is never read.
   */
  lemma DuplicateKeyBeforeValue(s: seq<bv8>, t: seq<bv8>, pos: nat, count: nat, env: Env, acc: seq<(Value, Value)>)
    requires pos <= |s| && count > 0
    requires Decode(s, pos, env).Ok?
    requires MapFree(Decode(s, pos, env).value.0) && NormalizeKey(Decode(s, pos, env).value.0) in Keys(acc)
    requires Decode(s, pos, env).value.1 <= |t|
    requires Agree(s, t, pos, Decode(s, pos, env).value.1)
    ensures DecodeEntries(t, pos, count, env, acc) == Err(DuplicateKey)
  {
    DecodeLocal(s, t, pos, env);
    KeyChecks(t, pos, count, env, acc);
  }

  /** `DuplicateKey` when the buffer ends right after the repeated key. */
  lemma DuplicateKeyAtEnd(s: seq<bv8>, pos: nat, count: nat, env: Env, acc: seq<(Value, Value)>)
    requires pos <= |s| && count > 0
    requires Decode(s, pos, env).Ok?
    requires MapFree(Decode(s, pos, env).value.0) && NormalizeKey(Decode(s, pos, env).value.0) in Keys(acc)
    ensures DecodeEntries(s[..Decode(s, pos, env).value.1], pos, count, env, acc) == Err(DuplicateKey)
  {
    DuplicateKeyBeforeValue(s, s[..Decode(s, pos, env).value.1], pos, count, env, acc);
  }
}
