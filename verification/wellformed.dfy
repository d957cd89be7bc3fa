/**
 What a successful `load` produces: integers within the 64-bit formats, floats
 of 4 or 8 raw bytes, text that passes the UTF-8 check, arrays in the
 configured container, maps in the configured kind whose keys are distinct,
 hashable and hold only tuples, and extension results consistent with the
 handler tables.
 */
module WellFormedness {
  import opened Errors
  import opened ByteSource
  import opened Values
  import opened Scalars
  import opened Blobs
  import opened Extensions
  import opened Load

  /** The entries of a dict under construction: distinct hashable keys, well-formed keys and values. */
  predicate GoodEntries(env: Env, es: seq<(Value, Value)>)
  {
    && DistinctKeys(es)
    && forall i | 0 <= i < |es| :: Hashable(es[i].0) && WellFormed(KeyEnv(env), es[i].0) && WellFormed(env, es[i].1)
  }

  /** A fresh hashable key and a well-formed value extend a dict under construction. */
  lemma AddEntry(env: Env, acc: seq<(Value, Value)>, k: Value, v: Value)
    requires GoodEntries(env, acc)
    requires Hashable(k) && WellFormed(KeyEnv(env), k) && WellFormed(env, v)
    requires k !in Keys(acc)
    ensures GoodEntries(env, acc + [(k, v)])
  {
    assert forall i | 0 <= i < |acc| :: acc[i].0 in Keys(acc);
  }

  lemma {:induction false} DecodeWellFormed(s: seq<bv8>, pos: nat, env: Env)
    requires pos <= |s|
    ensures Decode(s, pos, env).Ok? ==> WellFormed(env, Decode(s, pos, env).value.0)
    decreases |s| - pos, 0, 1
  {
    if pos < |s| {
      var route := RouteOf(s[pos]);
      if route == MapRoute || route == ArrayRoute {
        ContainerWellFormed(s, pos, env);
      } else {
        LeafWellFormed(s, pos, env);
      }
    }
  }

  lemma {:induction false} ContainerWellFormed(s: seq<bv8>, pos: nat, env: Env)
    requires pos < |s| && (RouteOf(s[pos]) == MapRoute || RouteOf(s[pos]) == ArrayRoute)
    ensures Decode(s, pos, env).Ok? ==> WellFormed(env, Decode(s, pos, env).value.0)
    decreases |s| - pos, 0, 0
  {
    var tag := s[pos];
    assert s[pos..pos + 1] == [tag];
    assert ReadExact(s, pos, 1) == Ok(([tag], pos + 1));
    if RouteOf(tag) == MapRoute {
      assert Decode(s, pos, env) == UnpackMap(tag, s, pos + 1, env);
      UnpackMapWellFormed(tag, s, pos + 1, env);
    } else {
      assert Decode(s, pos, env) == UnpackArray(tag, s, pos + 1, env);
      UnpackArrayWellFormed(tag, s, pos + 1, env);
    }
  }

  /** The scalar, string, binary and extension tags: their sub-decoders' contracts give well-formedness directly. */
  lemma LeafWellFormed(s: seq<bv8>, pos: nat, env: Env)
    requires pos < |s| && RouteOf(s[pos]) != MapRoute && RouteOf(s[pos]) != ArrayRoute
    ensures Decode(s, pos, env).Ok? ==> WellFormed(env, Decode(s, pos, env).value.0)
  {
    var tag := s[pos];
    assert s[pos..pos + 1] == [tag];
    assert ReadExact(s, pos, 1) == Ok(([tag], pos + 1));
  }

  lemma {:induction false} UnpackArrayWellFormed(tag: bv8, s: seq<bv8>, pos: nat, env: Env)
    requires pos <= |s| && ArrayTag(tag)
    ensures UnpackArray(tag, s, pos, env).Ok? ==> WellFormed(env, UnpackArray(tag, s, pos, env).value.0)
    decreases |s| - pos, 2, 0
  {
    var r := ArrayLength(tag, s, pos);
    if r.Ok? {
      DecodeNWellFormed(s, r.value.1, r.value.0, env);
    }
  }

  lemma {:induction false} DecodeNWellFormed(s: seq<bv8>, pos: nat, count: nat, env: Env)
    requires pos <= |s|
    ensures DecodeN(s, pos, count, env).Ok? ==> AllWellFormed(env, DecodeN(s, pos, count, env).value.0)
    decreases |s| - pos, 1, count
  {
    if count > 0 {
      DecodeWellFormed(s, pos, env);
      var r := Decode(s, pos, env);
      if r.Ok? {
        DecodeNWellFormed(s, r.value.1, count - 1, env);
        var rest := DecodeN(s, r.value.1, count - 1, env);
        if rest.Ok? {
          AllWellFormedCons(env, r.value.0, rest.value.0);
        }
      }
    }
  }

  predicate AllWellFormed(env: Env, xs: seq<Value>)
  {
    forall i | 0 <= i < |xs| :: WellFormed(env, xs[i])
  }

  lemma AllWellFormedCons(env: Env, x: Value, xs: seq<Value>)
    requires WellFormed(env, x) && AllWellFormed(env, xs)
    ensures AllWellFormed(env, [x] + xs)
  {
  }

  lemma {:induction false} UnpackMapWellFormed(tag: bv8, s: seq<bv8>, pos: nat, env: Env)
    requires pos <= |s| && MapTag(tag)
    ensures UnpackMap(tag, s, pos, env).Ok? ==> WellFormed(env, UnpackMap(tag, s, pos, env).value.0)
    decreases |s| - pos, 2, 0
  {
    var r := MapLength(tag, s, pos);
    if r.Ok? {
      DecodeEntriesWellFormed(s, r.value.1, r.value.0, env, []);
    }
  }

  /** Every entry `_unpack_map` adds has a fresh, hashable, converted key and a well-formed value. */
  lemma {:induction false} DecodeEntriesWellFormed(s: seq<bv8>, pos: nat, count: nat, env: Env, acc: seq<(Value, Value)>)
    requires pos <= |s|
    requires GoodEntries(env, acc)
    ensures DecodeEntries(s, pos, count, env, acc).Ok? ==> GoodEntries(env, DecodeEntries(s, pos, count, env, acc).value.0)
    decreases |s| - pos, 1, count
  {
    if count > 0 {
      var r := Decode(s, pos, env);
      if r.Ok? {
        var (k0, p) := r.value;
        var k := NormalizeKey(k0);
        if Hashable(k) && k !in Keys(acc) {
          var rv := Decode(s, p, env);
          if rv.Ok? {
            var (v, q) := rv.value;
            NextEntryWellFormed(s, pos, env, acc);
            assert DecodeEntries(s, pos, count, env, acc) == DecodeEntries(s, q, count - 1, env, acc + [(k, v)]);
            DecodeEntriesWellFormed(s, q, count - 1, env, acc + [(k, v)]);
          }
        }
      }
    }
  }

  /** The entry `_unpack_map` adds after its key checks pass keeps the dict well formed. */
  lemma {:induction false} NextEntryWellFormed(s: seq<bv8>, pos: nat, env: Env, acc: seq<(Value, Value)>)
    requires pos <= |s|
    requires GoodEntries(env, acc)
    requires Decode(s, pos, env).Ok?
    requires Hashable(NormalizeKey(Decode(s, pos, env).value.0))
    requires NormalizeKey(Decode(s, pos, env).value.0) !in Keys(acc)
    requires Decode(s, Decode(s, pos, env).value.1, env).Ok?
    ensures GoodEntries(env, acc + [(NormalizeKey(Decode(s, pos, env).value.0), Decode(s, Decode(s, pos, env).value.1, env).value.0)])
    decreases |s| - pos, 1, 0
  {
    var (k0, p) := Decode(s, pos, env).value;
    DecodeWellFormed(s, pos, env);
    DecodeWellFormed(s, p, env);
    ConvertedKeyWellFormed(env, k0);
    AddEntry(env, acc, NormalizeKey(k0), Decode(s, p, env).value.0);
  }
}
