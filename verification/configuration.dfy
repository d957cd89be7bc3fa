/**
 What `use_tuple` and `use_ordered_dict` change: the kind of container built
 for each array and each map, and nothing else. Decoding the same bytes under
 two settings gives the same outcome, the same error or the same cursor, with
 values that differ only in those container kinds. Map keys are identical
 under every setting, because they are converted to tuples before insertion.
 */
module Configuration {
  import opened Errors
  import opened ByteSource
  import opened Values
  import opened Scalars
  import opened Blobs
  import opened Extensions
  import opened Load
  import opened MapKeys
  import opened WellFormedness

  /** `env` with the two container options replaced. */
  function Styled(env: Env, tuple: bool, ordered: bool): Env
  {
    env.(options := env.options.(useTuple := tuple, useOrderedDict := ordered))
  }

  /** `v` with every array made a tuple or a list and every map ordered or not; map keys are left as they are. */
  function Restyle(tuple: bool, ordered: bool, v: Value): Value
    decreases v
  {
    match v
    case Array(_, xs) => Array(tuple, seq(|xs|, i requires 0 <= i < |xs| => Restyle(tuple, ordered, xs[i])))
    case Map(_, es) => Map(ordered, seq(|es|, i requires 0 <= i < |es| => (es[i].0, Restyle(tuple, ordered, es[i].1))))
    case _ => v
  }

  function RestyleEntries(tuple: bool, ordered: bool, es: seq<(Value, Value)>): (r: seq<(Value, Value)>)
    ensures |r| == |es|
    ensures forall i | 0 <= i < |es| :: r[i] == (es[i].0, Restyle(tuple, ordered, es[i].1))
  {
    seq(|es|, i requires 0 <= i < |es| => (es[i].0, Restyle(tuple, ordered, es[i].1)))
  }

  function RestyleSeq(tuple: bool, ordered: bool, xs: seq<Value>): (r: seq<Value>)
    ensures |r| == |xs|
    ensures forall i | 0 <= i < |xs| :: r[i] == Restyle(tuple, ordered, xs[i])
  {
    seq(|xs|, i requires 0 <= i < |xs| => Restyle(tuple, ordered, xs[i]))
  }

  function Lift(tuple: bool, ordered: bool, r: Result<(Value, nat)>): Result<(Value, nat)>
  {
    match r
    case Ok((v, n)) => Ok((Restyle(tuple, ordered, v), n))
    case Err(e) => Err(e)
  }

  function LiftSeq(tuple: bool, ordered: bool, r: Result<(seq<Value>, nat)>): Result<(seq<Value>, nat)>
  {
    match r
    case Ok((xs, n)) => Ok((RestyleSeq(tuple, ordered, xs), n))
    case Err(e) => Err(e)
  }

  function LiftEntries(tuple: bool, ordered: bool, r: Result<(seq<(Value, Value)>, nat)>): Result<(seq<(Value, Value)>, nat)>
  {
    match r
    case Ok((es, n)) => Ok((RestyleEntries(tuple, ordered, es), n))
    case Err(e) => Err(e)
  }

  /** `v` with every array a tuple; on a map-free value, the key `_unpack_map` stores. */
  function AllTuples(v: Value): Value
    decreases v
  {
    match v
    case Array(_, xs) => Array(true, seq(|xs|, i requires 0 <= i < |xs| => AllTuples(xs[i])))
    case _ => v
  }

  lemma {:induction false} RestyleMapFree(tuple: bool, ordered: bool, v: Value)
    ensures MapFree(Restyle(tuple, ordered, v)) <==> MapFree(v)
    decreases v
  {
    match v
    case Array(_, xs) =>
      forall i | 0 <= i < |xs|
        ensures MapFree(Restyle(tuple, ordered, v).elems[i]) <==> MapFree(xs[i])
      {
        RestyleMapFree(tuple, ordered, xs[i]);
      }
    case _ =>
  }

  lemma {:induction false} AllTuplesRestyle(tuple: bool, ordered: bool, v: Value)
    requires MapFree(v)
    ensures AllTuples(Restyle(tuple, ordered, v)) == AllTuples(v)
    decreases v
  {
    match v
    case Array(_, xs) =>
      forall i | 0 <= i < |xs|
        ensures AllTuples(Restyle(tuple, ordered, xs[i])) == AllTuples(xs[i])
      {
        AllTuplesRestyle(tuple, ordered, xs[i]);
      }
    case _ =>
  }

  /** On a map-free value whose arrays are all of one kind, the key conversion makes every array a tuple. */
  lemma {:induction false} ConversionIsAllTuples(tuple: bool, v: Value)
    requires Uniform(tuple, v) && MapFree(v)
    ensures NormalizeKey(v) == AllTuples(v)
    decreases v
  {
    match v
    case Array(_, xs) =>
      forall i | 0 <= i < |xs|
        ensures NormalizeKey(xs[i]) == AllTuples(xs[i])
      {
        ConversionIsAllTuples(tuple, xs[i]);
      }
      if tuple {
        forall i | 0 <= i < |xs|
          ensures AllTuples(xs[i]) == xs[i]
        {
        }
      }
    case _ =>
  }

  /** A hashable key's well-formedness does not depend on the container options or on anything but the tables. */
  lemma {:induction false} KeyWellFormedAcross(env: Env, env': Env, k: Value)
    requires Hashable(k) && WellFormed(KeyEnv(env), k)
    requires env'.validUtf8 == env.validUtf8 && env'.registry == env.registry
    requires env'.options.extHandlers == env.options.extHandlers
    ensures WellFormed(KeyEnv(env'), k)
    decreases k
  {
    match k
    case Array(_, xs) =>
      forall i | 0 <= i < |xs|
        ensures WellFormed(KeyEnv(env'), xs[i])
      {
        KeyWellFormedAcross(env, env', xs[i]);
      }
    case _ =>
  }

  /** Restyling to the options of `Styled(env, tuple, ordered)` keeps a value well formed. */
  lemma {:induction false} RestyleWellFormed(env: Env, tuple: bool, ordered: bool, v: Value)
    requires WellFormed(env, v)
    ensures WellFormed(Styled(env, tuple, ordered), Restyle(tuple, ordered, v))
    decreases v
  {
    var env' := Styled(env, tuple, ordered);
    match v
    case Array(_, xs) =>
      forall i | 0 <= i < |xs|
        ensures WellFormed(env', Restyle(tuple, ordered, xs[i]))
      {
        RestyleWellFormed(env, tuple, ordered, xs[i]);
      }
    case Map(_, es) =>
      var es' := Restyle(tuple, ordered, v).entries;
      assert es' == RestyleEntries(tuple, ordered, es);
      forall i | 0 <= i < |es|
        ensures Hashable(es'[i].0) && WellFormed(KeyEnv(env'), es'[i].0) && WellFormed(env', es'[i].1)
      {
        KeyWellFormedAcross(env, env', es[i].0);
        RestyleWellFormed(env, tuple, ordered, es[i].1);
      }
    case _ =>
  }

  lemma KeysOfRestyled(tuple: bool, ordered: bool, es: seq<(Value, Value)>)
    ensures Keys(RestyleEntries(tuple, ordered, es)) == Keys(es)
  {
    var es' := RestyleEntries(tuple, ordered, es);
    forall k | k in Keys(es)
      ensures k in Keys(es')
    {
      var i :| 0 <= i < |es| && es[i].0 == k;
      assert es'[i] in es';
    }
    forall k | k in Keys(es')
      ensures k in Keys(es)
    {
      var i :| 0 <= i < |es'| && es'[i].0 == k;
      assert es[i] in es;
    }
  }

  /**
   Decoding under other container options gives the same outcome: the same
   error, or the same cursor and the value with its arrays and maps restyled.
   */
  lemma {:induction false} DecodeStyled(s: seq<bv8>, pos: nat, env: Env, tuple: bool, ordered: bool)
    requires pos <= |s|
    ensures Decode(s, pos, Styled(env, tuple, ordered)) == Lift(tuple, ordered, Decode(s, pos, env))
    decreases |s| - pos, 0, 1
  {
    if pos < |s| {
      var route := RouteOf(s[pos]);
      if route == MapRoute || route == ArrayRoute {
        ContainerStyled(s, pos, env, tuple, ordered);
      } else {
        LeafRouteStyled(s, pos, env, tuple, ordered);
      }
    }
  }

  /** The array and map tags: `load` hands the rest to the container decoders. */
  lemma {:induction false} ContainerStyled(s: seq<bv8>, pos: nat, env: Env, tuple: bool, ordered: bool)
    requires pos < |s| && (RouteOf(s[pos]) == MapRoute || RouteOf(s[pos]) == ArrayRoute)
    ensures Decode(s, pos, Styled(env, tuple, ordered)) == Lift(tuple, ordered, Decode(s, pos, env))
    decreases |s| - pos, 0, 0
  {
    var env' := Styled(env, tuple, ordered);
    var tag := s[pos];
    assert s[pos..pos + 1] == [tag];
    if RouteOf(tag) == MapRoute {
      UnpackMapStyled(tag, s, pos + 1, env, tuple, ordered);
    } else {
      UnpackArrayStyled(tag, s, pos + 1, env, tuple, ordered);
    }
  }

  /** Every other tag: the outcome holds no container and does not depend on the container options. */
  lemma LeafRouteStyled(s: seq<bv8>, pos: nat, env: Env, tuple: bool, ordered: bool)
    requires pos < |s| && RouteOf(s[pos]) != MapRoute && RouteOf(s[pos]) != ArrayRoute
    ensures Decode(s, pos, Styled(env, tuple, ordered)) == Lift(tuple, ordered, Decode(s, pos, env))
  {
    var env' := Styled(env, tuple, ordered);
    var tag := s[pos];
    assert s[pos..pos + 1] == [tag];
    assert ReadExact(s, pos, 1) == Ok(([tag], pos + 1));
    match RouteOf(tag)
    case StringRoute =>
      StringStyled(tag, s, pos + 1, env, tuple, ordered);
    case ExtRoute =>
      ExtStyled(tag, s, pos + 1, env, tuple, ordered);
    case IntegerRoute =>
      LeafStyled(tuple, ordered, UnpackInteger(tag, s, pos + 1));
    case BinaryRoute =>
      LeafStyled(tuple, ordered, UnpackBinary(tag, s, pos + 1));
    case FloatRoute =>
      LeafStyled(tuple, ordered, UnpackFloat(tag, s, pos + 1));
    case ReservedRoute =>
    case ConstantRoute =>
      LeafStyled(tuple, ordered, Decode(s, pos, env));
  }

  /** An outcome that holds no array or map is its own restyling. */
  lemma LeafStyled(tuple: bool, ordered: bool, r: Result<(Value, nat)>)
    requires r.Ok? ==> !r.value.0.Array? && !r.value.0.Map?
    ensures Lift(tuple, ordered, r) == r
  {
  }

  lemma StringStyled(tag: bv8, s: seq<bv8>, pos: nat, env: Env, tuple: bool, ordered: bool)
    requires pos <= |s| && StringTag(tag)
    ensures UnpackString(tag, s, pos, Styled(env, tuple, ordered)) == Lift(tuple, ordered, UnpackString(tag, s, pos, env))
  {
    LeafStyled(tuple, ordered, UnpackString(tag, s, pos, env));
  }

  /** Extension resolution consults the handler tables only. */
  lemma ResolveStyled(env: Env, tuple: bool, ordered: bool, e: ExtObj)
    ensures ResolveExt(Styled(env, tuple, ordered), e) == ResolveExt(env, e)
  {
  }

  lemma ExtStyled(tag: bv8, s: seq<bv8>, pos: nat, env: Env, tuple: bool, ordered: bool)
    requires pos <= |s| && ExtTag(tag)
    ensures UnpackExt(tag, s, pos, Styled(env, tuple, ordered)) == Lift(tuple, ordered, UnpackExt(tag, s, pos, env))
  {
    var r := ReadExtObj(tag, s, pos);
    if r.Ok? {
      var (e, next) := r.value;
      ResolveStyled(env, tuple, ordered, e);
      var v := ResolveExt(env, e);
      if v.Ok? {
        LeafStyled(tuple, ordered, Ok((v.value, next)));
      }
    }
  }

  lemma RestyleArray(tuple: bool, ordered: bool, wasTuple: bool, xs: seq<Value>)
    ensures Restyle(tuple, ordered, Array(wasTuple, xs)) == Array(tuple, RestyleSeq(tuple, ordered, xs))
  {
  }

  lemma RestyleMap(tuple: bool, ordered: bool, wasOrdered: bool, es: seq<(Value, Value)>)
    ensures Restyle(tuple, ordered, Map(wasOrdered, es)) == Map(ordered, RestyleEntries(tuple, ordered, es))
  {
  }

  lemma {:induction false} UnpackArrayStyled(tag: bv8, s: seq<bv8>, pos: nat, env: Env, tuple: bool, ordered: bool)
    requires pos <= |s| && ArrayTag(tag)
    ensures UnpackArray(tag, s, pos, Styled(env, tuple, ordered)) == Lift(tuple, ordered, UnpackArray(tag, s, pos, env))
    decreases |s| - pos, 2, 0
  {
    var r := ArrayLength(tag, s, pos);
    if r.Ok? {
      var (length, p) := r.value;
      DecodeNStyled(s, p, length, env, tuple, ordered);
      var d := DecodeN(s, p, length, env);
      if d.Ok? {
        RestyleArray(tuple, ordered, env.options.useTuple, d.value.0);
      }
    }
  }

  lemma {:induction false} DecodeNStyled(s: seq<bv8>, pos: nat, count: nat, env: Env, tuple: bool, ordered: bool)
    requires pos <= |s|
    ensures DecodeN(s, pos, count, Styled(env, tuple, ordered)) == LiftSeq(tuple, ordered, DecodeN(s, pos, count, env))
    decreases |s| - pos, 1, count
  {
    if count > 0 {
      HeadTailStyled(s, pos, count, env, tuple, ordered);
      ConsStyled(s, pos, count, env, tuple, ordered);
    }
  }

  /** The head element and then the rest of the elements decode the same way up to restyling. */
  lemma {:induction false} HeadTailStyled(s: seq<bv8>, pos: nat, count: nat, env: Env, tuple: bool, ordered: bool)
    requires pos <= |s| && count > 0
    ensures ConsCommutes(s, pos, count, env, tuple, ordered)
    decreases |s| - pos, 1, count - 1
  {
    DecodeStyled(s, pos, env, tuple, ordered);
    var r := Decode(s, pos, env);
    if r.Ok? {
      DecodeNStyled(s, r.value.1, count - 1, env, tuple, ordered);
    }
  }

  /** What one element of an array needs: the head decodes the same way up to restyling, and then so does the tail. */
  ghost predicate ConsCommutes(s: seq<bv8>, pos: nat, count: nat, env: Env, tuple: bool, ordered: bool)
    requires pos <= |s| && count > 0
  {
    && Decode(s, pos, Styled(env, tuple, ordered)) == Lift(tuple, ordered, Decode(s, pos, env))
    && (Decode(s, pos, env).Ok? ==>
          var head := Decode(s, pos, env).value;
          DecodeN(s, head.1, count - 1, Styled(env, tuple, ordered)) == LiftSeq(tuple, ordered, DecodeN(s, head.1, count - 1, env)))
  }

  /** One element, then the rest: restyling commutes with decoding the head and the tail in turn. */
  lemma ConsStyled(s: seq<bv8>, pos: nat, count: nat, env: Env, tuple: bool, ordered: bool)
    requires pos <= |s| && count > 0
    requires ConsCommutes(s, pos, count, env, tuple, ordered)
    ensures DecodeN(s, pos, count, Styled(env, tuple, ordered)) == LiftSeq(tuple, ordered, DecodeN(s, pos, count, env))
  {
    var r := Decode(s, pos, env);
    if r.Err? {
    } else if DecodeN(s, r.value.1, count - 1, env).Err? {
    } else {
      ConsOkStyled(s, pos, count, env, tuple, ordered);
    }
  }

  lemma ConsOkStyled(s: seq<bv8>, pos: nat, count: nat, env: Env, tuple: bool, ordered: bool)
    requires pos <= |s| && count > 0
    requires Decode(s, pos, env).Ok?
    requires DecodeN(s, Decode(s, pos, env).value.1, count - 1, env).Ok?
    requires Decode(s, pos, Styled(env, tuple, ordered)) == Lift(tuple, ordered, Decode(s, pos, env))
    requires DecodeN(s, Decode(s, pos, env).value.1, count - 1, Styled(env, tuple, ordered))
        == LiftSeq(tuple, ordered, DecodeN(s, Decode(s, pos, env).value.1, count - 1, env))
    ensures DecodeN(s, pos, count, Styled(env, tuple, ordered)) == LiftSeq(tuple, ordered, DecodeN(s, pos, count, env))
  {
    var (x, p) := Decode(s, pos, env).value;
    RestyleSeqCons(tuple, ordered, x, DecodeN(s, p, count - 1, env).value.0);
  }

  lemma RestyleSeqCons(tuple: bool, ordered: bool, x: Value, xs: seq<Value>)
    ensures RestyleSeq(tuple, ordered, [x] + xs) == [Restyle(tuple, ordered, x)] + RestyleSeq(tuple, ordered, xs)
  {
  }

  lemma {:induction false} UnpackMapStyled(tag: bv8, s: seq<bv8>, pos: nat, env: Env, tuple: bool, ordered: bool)
    requires pos <= |s| && MapTag(tag)
    ensures UnpackMap(tag, s, pos, Styled(env, tuple, ordered)) == Lift(tuple, ordered, UnpackMap(tag, s, pos, env))
    decreases |s| - pos, 2, 0
  {
    var r := MapLength(tag, s, pos);
    if r.Ok? {
      var (length, p) := r.value;
      assert RestyleEntries(tuple, ordered, []) == [];
      DecodeEntriesStyled(s, p, length, env, tuple, ordered, []);
      var d := DecodeEntries(s, p, length, env, []);
      if d.Ok? {
        RestyleMap(tuple, ordered, env.options.useOrderedDict, d.value.0);
      }
    }
  }

  /** The key a decoded `k0` is stored as, and whether it is rejected, do not depend on the container options. */
  lemma SameKey(env: Env, tuple: bool, ordered: bool, k0: Value)
    requires WellFormed(env, k0)
    ensures Hashable(NormalizeKey(Restyle(tuple, ordered, k0))) <==> Hashable(NormalizeKey(k0))
    ensures Hashable(NormalizeKey(k0)) ==> NormalizeKey(Restyle(tuple, ordered, k0)) == NormalizeKey(k0)
  {
    var env' := Styled(env, tuple, ordered);
    var k1 := Restyle(tuple, ordered, k0);
    RestyleWellFormed(env, tuple, ordered, k0);
    WellFormedUniform(env, k0);
    WellFormedUniform(env', k1);
    HashableAfterConversion(env.options.useTuple, k0);
    HashableAfterConversion(tuple, k1);
    RestyleMapFree(tuple, ordered, k0);
    if MapFree(k0) {
      ConversionIsAllTuples(env.options.useTuple, k0);
      ConversionIsAllTuples(tuple, k1);
      AllTuplesRestyle(tuple, ordered, k0);
    }
  }

  lemma {:induction false} DecodeEntriesStyled(s: seq<bv8>, pos: nat, count: nat, env: Env, tuple: bool, ordered: bool, acc: seq<(Value, Value)>)
    requires pos <= |s|
    ensures DecodeEntries(s, pos, count, Styled(env, tuple, ordered), RestyleEntries(tuple, ordered, acc))
         == LiftEntries(tuple, ordered, DecodeEntries(s, pos, count, env, acc))
    decreases |s| - pos, 1, count
  {
    if count > 0 {
      TurnStyled(s, pos, count, env, tuple, ordered, acc);
      EntryStyled(s, pos, count, env, tuple, ordered, acc);
    }
  }

  /** The parts of one turn of the map loop decode the same way up to restyling. */
  lemma {:induction false} TurnStyled(s: seq<bv8>, pos: nat, count: nat, env: Env, tuple: bool, ordered: bool, acc: seq<(Value, Value)>)
    requires pos <= |s| && count > 0
    ensures TurnCommutes(s, pos, count, env, tuple, ordered, acc)
    decreases |s| - pos, 1, count - 1
  {
    DecodeStyled(s, pos, env, tuple, ordered);
    var key := Decode(s, pos, env);
    if key.Ok? {
      DecodeStyled(s, key.value.1, env, tuple, ordered);
      var value := Decode(s, key.value.1, env);
      if value.Ok? {
        var acc1 := acc + [(NormalizeKey(key.value.0), value.value.0)];
        DecodeEntriesStyled(s, value.value.1, count - 1, env, tuple, ordered, acc1);
      }
    }
  }

  /**
   What one turn of the map loop needs: the key, then (if it decodes) the
   value, then (if that decodes) the rest of the loop, each decode the same
   way up to restyling under both settings.
   */
  ghost predicate TurnCommutes(s: seq<bv8>, pos: nat, count: nat, env: Env, tuple: bool, ordered: bool, acc: seq<(Value, Value)>)
    requires pos <= |s| && count > 0
  {
    && Decode(s, pos, Styled(env, tuple, ordered)) == Lift(tuple, ordered, Decode(s, pos, env))
    && (Decode(s, pos, env).Ok? ==>
          var key := Decode(s, pos, env).value;
          && Decode(s, key.1, Styled(env, tuple, ordered)) == Lift(tuple, ordered, Decode(s, key.1, env))
          && (Decode(s, key.1, env).Ok? ==>
                var value := Decode(s, key.1, env).value;
                var acc1 := acc + [(NormalizeKey(key.0), value.0)];
                DecodeEntries(s, value.1, count - 1, Styled(env, tuple, ordered), RestyleEntries(tuple, ordered, acc1))
                  == LiftEntries(tuple, ordered, DecodeEntries(s, value.1, count - 1, env, acc1))))
  }

  /** One turn of the map loop decodes the same way up to restyling when its parts do. */
  lemma EntryStyled(s: seq<bv8>, pos: nat, count: nat, env: Env, tuple: bool, ordered: bool, acc: seq<(Value, Value)>)
    requires pos <= |s| && count > 0
    requires TurnCommutes(s, pos, count, env, tuple, ordered, acc)
    ensures DecodeEntries(s, pos, count, Styled(env, tuple, ordered), RestyleEntries(tuple, ordered, acc))
         == LiftEntries(tuple, ordered, DecodeEntries(s, pos, count, env, acc))
  {
    var r := Decode(s, pos, env);
    if r.Err? {
      KeyFailsStyled(s, pos, count, env, tuple, ordered, acc);
    } else {
      var (k0, p) := r.value;
      var k := NormalizeKey(k0);
      if !Hashable(k) || k in Keys(acc) {
        KeyRejectedStyled(s, pos, count, env, tuple, ordered, acc);
      } else if Decode(s, p, env).Err? {
        ValueFailsStyled(s, pos, count, env, tuple, ordered, acc, k0, p);
      } else {
        var (v, q) := Decode(s, p, env).value;
        EntryOkStyled(s, pos, count, env, tuple, ordered, acc, k0, p, v, q);
      }
    }
  }

  /** The key does not decode: the same error under both settings. */
  lemma KeyFailsStyled(s: seq<bv8>, pos: nat, count: nat, env: Env, tuple: bool, ordered: bool, acc: seq<(Value, Value)>)
    requires pos <= |s| && count > 0
    requires Decode(s, pos, env).Err?
    requires Decode(s, pos, Styled(env, tuple, ordered)) == Lift(tuple, ordered, Decode(s, pos, env))
    ensures DecodeEntries(s, pos, count, Styled(env, tuple, ordered), RestyleEntries(tuple, ordered, acc))
         == LiftEntries(tuple, ordered, DecodeEntries(s, pos, count, env, acc))
  {
    var e := Decode(s, pos, env).error;
    assert DecodeEntries(s, pos, count, env, acc) == Err(e);
    assert DecodeEntries(s, pos, count, Styled(env, tuple, ordered), RestyleEntries(tuple, ordered, acc)) == Err(e);
  }

  /** The key decodes but is unhashable or already present: rejected the same way under both settings. */
  lemma KeyRejectedStyled(s: seq<bv8>, pos: nat, count: nat, env: Env, tuple: bool, ordered: bool, acc: seq<(Value, Value)>)
    requires pos <= |s| && count > 0
    requires Decode(s, pos, env).Ok?
    requires Decode(s, pos, Styled(env, tuple, ordered)) == Lift(tuple, ordered, Decode(s, pos, env))
    requires var k := NormalizeKey(Decode(s, pos, env).value.0); !Hashable(k) || k in Keys(acc)
    ensures DecodeEntries(s, pos, count, Styled(env, tuple, ordered), RestyleEntries(tuple, ordered, acc))
         == LiftEntries(tuple, ordered, DecodeEntries(s, pos, count, env, acc))
  {
    var env' := Styled(env, tuple, ordered);
    var acc' := RestyleEntries(tuple, ordered, acc);
    var (k0, p) := Decode(s, pos, env).value;
    var k := NormalizeKey(k0);
    assert Decode(s, pos, env') == Ok((Restyle(tuple, ordered, k0), p));
    DecodeWellFormed(s, pos, env);
    SameKey(env, tuple, ordered, k0);
    KeysOfRestyled(tuple, ordered, acc);
    if !Hashable(k) {
      assert DecodeEntries(s, pos, count, env, acc) == Err(UnhashableKey);
      assert DecodeEntries(s, pos, count, env', acc') == Err(UnhashableKey);
    } else {
      assert DecodeEntries(s, pos, count, env, acc) == Err(DuplicateKey);
      assert DecodeEntries(s, pos, count, env', acc') == Err(DuplicateKey);
    }
  }

  /** The key is accepted and stored the same way under both settings. */
  lemma KeyAcceptedStyled(s: seq<bv8>, pos: nat, env: Env, tuple: bool, ordered: bool, acc: seq<(Value, Value)>, k0: Value, p: nat)
    requires pos <= |s|
    requires Decode(s, pos, env) == Ok((k0, p))
    requires Hashable(NormalizeKey(k0)) && NormalizeKey(k0) !in Keys(acc)
    ensures NormalizeKey(Restyle(tuple, ordered, k0)) == NormalizeKey(k0)
    ensures Keys(RestyleEntries(tuple, ordered, acc)) == Keys(acc)
  {
    DecodeWellFormed(s, pos, env);
    SameKey(env, tuple, ordered, k0);
    KeysOfRestyled(tuple, ordered, acc);
  }

  /** The key is accepted but its value does not decode: the same error under both settings. */
  lemma ValueFailsStyled(s: seq<bv8>, pos: nat, count: nat, env: Env, tuple: bool, ordered: bool, acc: seq<(Value, Value)>, k0: Value, p: nat)
    requires pos <= |s| && count > 0
    requires Decode(s, pos, env) == Ok((k0, p))
    requires Decode(s, pos, Styled(env, tuple, ordered)) == Lift(tuple, ordered, Decode(s, pos, env))
    requires Hashable(NormalizeKey(k0)) && NormalizeKey(k0) !in Keys(acc)
    requires Decode(s, p, env).Err?
    requires Decode(s, p, Styled(env, tuple, ordered)) == Lift(tuple, ordered, Decode(s, p, env))
    ensures DecodeEntries(s, pos, count, Styled(env, tuple, ordered), RestyleEntries(tuple, ordered, acc))
         == LiftEntries(tuple, ordered, DecodeEntries(s, pos, count, env, acc))
  {
    var env' := Styled(env, tuple, ordered);
    var acc' := RestyleEntries(tuple, ordered, acc);
    KeyAcceptedStyled(s, pos, env, tuple, ordered, acc, k0, p);
    var e := Decode(s, p, env).error;
    assert Decode(s, pos, env') == Ok((Restyle(tuple, ordered, k0), p));
    assert DecodeEntries(s, pos, count, env, acc) == Err(e);
    assert DecodeEntries(s, pos, count, env', acc') == Err(e);
  }

  /** The turn in which the key `k0` is accepted and the value `v` decodes, with its parts decoding the same way up to restyling. */
  ghost predicate AcceptedTurn(s: seq<bv8>, pos: nat, count: nat, env: Env, tuple: bool, ordered: bool, acc: seq<(Value, Value)>, k0: Value, p: nat, v: Value, q: nat)
    requires pos <= |s| && count > 0
  {
    && Decode(s, pos, env) == Ok((k0, p))
    && Decode(s, pos, Styled(env, tuple, ordered)) == Lift(tuple, ordered, Decode(s, pos, env))
    && Hashable(NormalizeKey(k0)) && NormalizeKey(k0) !in Keys(acc)
    && Decode(s, p, env) == Ok((v, q))
    && Decode(s, p, Styled(env, tuple, ordered)) == Lift(tuple, ordered, Decode(s, p, env))
    && q <= |s|
    && DecodeEntries(s, q, count - 1, Styled(env, tuple, ordered), RestyleEntries(tuple, ordered, acc + [(NormalizeKey(k0), v)]))
         == LiftEntries(tuple, ordered, DecodeEntries(s, q, count - 1, env, acc + [(NormalizeKey(k0), v)]))
  }

  /** The turn in which the key is accepted and the value decodes. */
  lemma EntryOkStyled(s: seq<bv8>, pos: nat, count: nat, env: Env, tuple: bool, ordered: bool, acc: seq<(Value, Value)>, k0: Value, p: nat, v: Value, q: nat)
    requires pos <= |s| && count > 0
    requires AcceptedTurn(s, pos, count, env, tuple, ordered, acc, k0, p, v, q)
    ensures DecodeEntries(s, pos, count, Styled(env, tuple, ordered), RestyleEntries(tuple, ordered, acc))
         == LiftEntries(tuple, ordered, DecodeEntries(s, pos, count, env, acc))
  {
    var env' := Styled(env, tuple, ordered);
    var acc' := RestyleEntries(tuple, ordered, acc);
    var k := NormalizeKey(k0);
    var acc1 := acc + [(k, v)];
    KeyAcceptedStyled(s, pos, env, tuple, ordered, acc, k0, p);
    assert Decode(s, pos, env') == Ok((Restyle(tuple, ordered, k0), p));
    assert Decode(s, p, env') == Ok((Restyle(tuple, ordered, v), q));
    assert acc' + [(k, Restyle(tuple, ordered, v))] == RestyleEntries(tuple, ordered, acc1);
    assert DecodeEntries(s, pos, count, env, acc) == DecodeEntries(s, q, count - 1, env, acc1);
    assert DecodeEntries(s, pos, count, env', acc') == DecodeEntries(s, q, count - 1, env', RestyleEntries(tuple, ordered, acc1));
  }

  /**
   The `use_tuple` case on its own: an array decodes to a tuple under
   `use_tuple` and to a list without it, holding the same elements restyled
   the same way, at the same cursor; and a failure is the same failure.
   */
  lemma UseTupleOnlyChangesContainers(s: seq<bv8>, pos: nat, env: Env)
    requires pos <= |s|
    ensures Decode(s, pos, Styled(env, true, env.options.useOrderedDict))
         == Lift(true, env.options.useOrderedDict, Decode(s, pos, Styled(env, false, env.options.useOrderedDict)))
  {
    var o := env.options.useOrderedDict;
    var e0 := Styled(env, false, o);
    assert Styled(e0, true, o) == Styled(env, true, o);
    DecodeStyled(s, pos, e0, true, o);
  }
}
