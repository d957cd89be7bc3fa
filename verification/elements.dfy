/**
 The element loop of `_unpack_array` read as a chain of positions: the
 elements are exactly the values `load` finds one after another, each
 starting where the previous one ended. This is an independent description
 of `DecodeN`, and the two lemmas below show it agrees with `DecodeN` in
 both directions.
 */
module Elements {
  import opened Errors
  import opened Values
  import opened Load

  /** `xs` are decoded back to back through the positions `ps`: element `i` runs from `ps[i]` to `ps[i + 1]`. */
  ghost predicate Chain(s: seq<bv8>, env: Env, xs: seq<Value>, ps: seq<nat>)
  {
    && |ps| == |xs| + 1
    && (forall i | 0 <= i < |ps| :: ps[i] <= |s|)
    && (forall i | 0 <= i < |xs| :: Decode(s, ps[i], env) == Ok((xs[i], ps[i + 1])))
  }

  /** A successful run of `count` decodes is a chain from the start position to the end position. */
  lemma {:induction false} DecodeNPositions(s: seq<bv8>, pos: nat, count: nat, env: Env) returns (ps: seq<nat>)
    requires pos <= |s|
    requires DecodeN(s, pos, count, env).Ok?
    ensures Chain(s, env, DecodeN(s, pos, count, env).value.0, ps)
    ensures ps[0] == pos && ps[count] == DecodeN(s, pos, count, env).value.1
    decreases count
  {
    if count == 0 {
      ps := [pos];
    } else {
      var (x, p) := Decode(s, pos, env).value;
      var (xs, next) := DecodeN(s, p, count - 1, env).value;
      var rest := DecodeNPositions(s, p, count - 1, env);
      ps := [pos] + rest;
      ChainCons(s, env, x, xs, pos, rest);
    }
  }

  /** A chain decodes, by `DecodeN`, to exactly its values and its last position. */
  lemma {:induction false} ChainIsDecodeN(s: seq<bv8>, env: Env, xs: seq<Value>, ps: seq<nat>)
    requires Chain(s, env, xs, ps)
    ensures DecodeN(s, ps[0], |xs|, env) == Ok((xs, ps[|xs|]))
    decreases |xs|
  {
    if |xs| > 0 {
      ChainTail(s, env, xs, ps);
      ChainIsDecodeN(s, env, xs[1..], ps[1..]);
      assert [xs[0]] + xs[1..] == xs;
    }
  }

  lemma ChainCons(s: seq<bv8>, env: Env, x: Value, xs: seq<Value>, pos: nat, rest: seq<nat>)
    requires pos <= |s| && |rest| > 0
    requires Decode(s, pos, env) == Ok((x, rest[0]))
    requires Chain(s, env, xs, rest)
    ensures Chain(s, env, [x] + xs, [pos] + rest)
  {
    BoundsCons(|s|, pos, rest);
    StepsCons(s, env, x, xs, pos, rest);
  }

  lemma BoundsCons(n: nat, pos: nat, rest: seq<nat>)
    requires pos <= n && forall i | 0 <= i < |rest| :: rest[i] <= n
    ensures forall i | 0 <= i < |[pos] + rest| :: ([pos] + rest)[i] <= n
  {
  }

  lemma StepsCons(s: seq<bv8>, env: Env, x: Value, xs: seq<Value>, pos: nat, rest: seq<nat>)
    requires pos <= |s| && |rest| == |xs| + 1
    requires forall i | 0 <= i < |rest| :: rest[i] <= |s|
    requires Decode(s, pos, env) == Ok((x, rest[0]))
    requires forall i | 0 <= i < |xs| :: Decode(s, rest[i], env) == Ok((xs[i], rest[i + 1]))
    ensures forall i | 0 <= i < |xs| + 1 :: Decode(s, ([pos] + rest)[i], env) == Ok((([x] + xs)[i], ([pos] + rest)[i + 1]))
  {
    forall i | 0 <= i < |xs| + 1
      ensures Decode(s, ([pos] + rest)[i], env) == Ok((([x] + xs)[i], ([pos] + rest)[i + 1]))
    {
      if i > 0 {
        ConsShift(x, xs, pos, rest, i);
      }
    }
  }

  /** Index `i > 0` of a sequence with one element put in front is index `i - 1` of the original. */
  lemma ConsShift<A, B>(x: A, xs: seq<A>, p: B, rest: seq<B>, i: nat)
    requires |rest| == |xs| + 1 && 0 < i <= |xs|
    ensures ([x] + xs)[i] == xs[i - 1] && ([p] + rest)[i] == rest[i - 1] && ([p] + rest)[i + 1] == rest[i]
  {
  }

  lemma ChainTail(s: seq<bv8>, env: Env, xs: seq<Value>, ps: seq<nat>)
    requires Chain(s, env, xs, ps) && |xs| > 0
    ensures Chain(s, env, xs[1..], ps[1..])
    ensures Decode(s, ps[0], env) == Ok((xs[0], ps[1]))
  {
    forall i | 0 <= i < |xs| - 1
      ensures Decode(s, ps[1..][i], env) == Ok((xs[1..][i], ps[1..][i + 1]))
    {
      assert ps[1..][i] == ps[i + 1] && ps[1..][i + 1] == ps[i + 2] && xs[1..][i] == xs[i + 1];
    }
  }
}
