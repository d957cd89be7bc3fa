/**
 A decode depends only on the bytes it consumes. If `load` succeeds on `s` at
 `pos` and ends at `end`, then on any buffer `t` that holds the same bytes
 from `pos` up to `end` (or up to its own end, if that comes first) it gives
 the same value and cursor when `t` reaches `end`, and `InsufficientData` when
 `t` stops short. The two consequences are that appending bytes after an
 encoded value does not change its decoding, and that every truncation of an
 encoded value fails with `InsufficientData` and never with another error.
 */
module Locality {
  import opened Errors
  import opened ByteSource
  import opened Values
  import opened Scalars
  import opened Blobs
  import opened Extensions
  import opened Load

  /** `t` holds the bytes of `s` at every position in [lo, hi) that `t` has. */
  ghost predicate Agree(s: seq<bv8>, t: seq<bv8>, lo: nat, hi: nat)
  {
    hi <= |s| && forall i | lo <= i < hi && i < |t| :: s[i] == t[i]
  }

  lemma AgreeWithin(s: seq<bv8>, t: seq<bv8>, lo: nat, hi: nat, lo': nat, hi': nat)
    requires Agree(s, t, lo, hi) && lo <= lo' && hi' <= hi
    ensures Agree(s, t, lo', hi')
  {
  }

  /** What a successful outcome on `s` becomes on a buffer of length `limit`: itself if it ends within, `InsufficientData` otherwise. */
  function Settle<T>(r: Result<(T, nat)>, limit: nat): Result<(T, nat)>
  {
    if r.Ok? && r.value.1 > limit then Err(InsufficientData) else r
  }

  lemma ReadExactLocal(s: seq<bv8>, t: seq<bv8>, pos: nat, n: nat)
    requires pos <= |t| && pos + n <= |s|
    requires Agree(s, t, pos, pos + n)
    ensures ReadExact(t, pos, n) == Settle(ReadExact(s, pos, n), |t|)
  {
    if pos + n <= |t| {
      assert t[pos..pos + n] == s[pos..pos + n];
    }
  }

  lemma ReadUnsignedLocal(s: seq<bv8>, t: seq<bv8>, pos: nat, w: nat)
    requires pos <= |t| && pos + w <= |s|
    requires Agree(s, t, pos, pos + w)
    ensures ReadUnsigned(t, pos, w) == Settle(ReadUnsigned(s, pos, w), |t|)
  {
    ReadExactLocal(s, t, pos, w);
  }

  lemma IntegerLocal(tag: bv8, s: seq<bv8>, t: seq<bv8>, pos: nat)
    requires pos <= |s| && pos <= |t| && IntegerTag(tag)
    requires UnpackInteger(tag, s, pos).Ok?
    requires Agree(s, t, pos, UnpackInteger(tag, s, pos).value.1)
    ensures UnpackInteger(tag, t, pos) == Settle(UnpackInteger(tag, s, pos), |t|)
  {
    if 0xcc <= tag <= 0xd3 {
      ReadExactLocal(s, t, pos, IntWidth(tag));
    }
  }

  lemma FloatLocal(tag: bv8, s: seq<bv8>, t: seq<bv8>, pos: nat)
    requires pos <= |s| && pos <= |t| && (tag == 0xca || tag == 0xcb)
    requires UnpackFloat(tag, s, pos).Ok?
    requires Agree(s, t, pos, UnpackFloat(tag, s, pos).value.1)
    ensures UnpackFloat(tag, t, pos) == Settle(UnpackFloat(tag, s, pos), |t|)
  {
    ReadExactLocal(s, t, pos, if tag == 0xca then 4 else 8);
  }

  lemma StrLengthLocal(tag: bv8, s: seq<bv8>, t: seq<bv8>, pos: nat)
    requires pos <= |s| && pos <= |t| && StringTag(tag)
    requires StrLength(tag, s, pos).Ok?
    requires Agree(s, t, pos, StrLength(tag, s, pos).value.1)
    ensures StrLength(tag, t, pos) == Settle(StrLength(tag, s, pos), |t|)
  {
    if tag == 0xd9 {
      ReadUnsignedLocal(s, t, pos, 1);
    } else if tag == 0xda {
      ReadUnsignedLocal(s, t, pos, 2);
    } else if tag == 0xdb {
      ReadUnsignedLocal(s, t, pos, 4);
    }
  }

  lemma StringLocal(tag: bv8, s: seq<bv8>, t: seq<bv8>, pos: nat, env: Env)
    requires pos <= |s| && pos <= |t| && StringTag(tag)
    requires UnpackString(tag, s, pos, env).Ok?
    requires Agree(s, t, pos, UnpackString(tag, s, pos, env).value.1)
    ensures UnpackString(tag, t, pos, env) == Settle(UnpackString(tag, s, pos, env), |t|)
  {
    var (length, start) := StrLength(tag, s, pos).value;
    StrLengthLocal(tag, s, t, pos);
    if start <= |t| {
      ReadExactLocal(s, t, start, length);
    }
  }

  lemma BinLengthLocal(tag: bv8, s: seq<bv8>, t: seq<bv8>, pos: nat)
    requires pos <= |s| && pos <= |t| && BinaryTag(tag)
    requires BinLength(tag, s, pos).Ok?
    requires Agree(s, t, pos, BinLength(tag, s, pos).value.1)
    ensures BinLength(tag, t, pos) == Settle(BinLength(tag, s, pos), |t|)
  {
    if tag == 0xc4 {
      ReadUnsignedLocal(s, t, pos, 1);
    } else if tag == 0xc5 {
      ReadUnsignedLocal(s, t, pos, 2);
    } else {
      ReadUnsignedLocal(s, t, pos, 4);
    }
  }

  lemma BinaryLocal(tag: bv8, s: seq<bv8>, t: seq<bv8>, pos: nat)
    requires pos <= |s| && pos <= |t| && BinaryTag(tag)
    requires UnpackBinary(tag, s, pos).Ok?
    requires Agree(s, t, pos, UnpackBinary(tag, s, pos).value.1)
    ensures UnpackBinary(tag, t, pos) == Settle(UnpackBinary(tag, s, pos), |t|)
  {
    var (length, start) := BinLength(tag, s, pos).value;
    BinLengthLocal(tag, s, t, pos);
    if start <= |t| {
      ReadExactLocal(s, t, start, length);
    }
  }

  lemma ExtLengthLocal(tag: bv8, s: seq<bv8>, t: seq<bv8>, pos: nat)
    requires pos <= |s| && pos <= |t| && ExtTag(tag)
    requires ExtLength(tag, s, pos).Ok?
    requires Agree(s, t, pos, ExtLength(tag, s, pos).value.1)
    ensures ExtLength(tag, t, pos) == Settle(ExtLength(tag, s, pos), |t|)
  {
    if tag == 0xc7 {
      ReadUnsignedLocal(s, t, pos, 1);
    } else if tag == 0xc8 {
      ReadUnsignedLocal(s, t, pos, 2);
    } else if tag == 0xc9 {
      ReadUnsignedLocal(s, t, pos, 4);
    }
  }

  lemma ReadExtObjLocal(tag: bv8, s: seq<bv8>, t: seq<bv8>, pos: nat)
    requires pos <= |s| && pos <= |t| && ExtTag(tag)
    requires ReadExtObj(tag, s, pos).Ok?
    requires Agree(s, t, pos, ReadExtObj(tag, s, pos).value.1)
    ensures ReadExtObj(tag, t, pos) == Settle(ReadExtObj(tag, s, pos), |t|)
  {
    var (length, p) := ExtLength(tag, s, pos).value;
    var end := p + 1 + length;
    ExtLengthLocal(tag, s, t, pos);
    if p > |t| {
      assert ExtLength(tag, t, pos).Err?;
    } else if end > |t| {
      assert ExtLength(tag, t, pos) == Ok((length, p));
      assert ReadExtObj(tag, t, pos).Err?;
    } else {
      assert ExtLength(tag, t, pos) == Ok((length, p));
      assert t[p] == s[p];
      ReadExactLocal(s, t, p + 1, length);
      assert ReadExtObj(tag, t, pos).value == ReadExtObj(tag, s, pos).value;
    }
  }

  lemma ExtLocal(tag: bv8, s: seq<bv8>, t: seq<bv8>, pos: nat, env: Env)
    requires pos <= |s| && pos <= |t| && ExtTag(tag)
    requires UnpackExt(tag, s, pos, env).Ok?
    requires Agree(s, t, pos, UnpackExt(tag, s, pos, env).value.1)
    ensures UnpackExt(tag, t, pos, env) == Settle(UnpackExt(tag, s, pos, env), |t|)
  {
    ReadExtObjLocal(tag, s, t, pos);
  }

  lemma ArrayLengthLocal(tag: bv8, s: seq<bv8>, t: seq<bv8>, pos: nat)
    requires pos <= |s| && pos <= |t| && ArrayTag(tag)
    requires ArrayLength(tag, s, pos).Ok?
    requires Agree(s, t, pos, ArrayLength(tag, s, pos).value.1)
    ensures ArrayLength(tag, t, pos) == Settle(ArrayLength(tag, s, pos), |t|)
  {
    if tag == 0xdc {
      ReadUnsignedLocal(s, t, pos, 2);
    } else if tag == 0xdd {
      ReadUnsignedLocal(s, t, pos, 4);
    }
  }

  lemma MapLengthLocal(tag: bv8, s: seq<bv8>, t: seq<bv8>, pos: nat)
    requires pos <= |s| && pos <= |t| && MapTag(tag)
    requires MapLength(tag, s, pos).Ok?
    requires Agree(s, t, pos, MapLength(tag, s, pos).value.1)
    ensures MapLength(tag, t, pos) == Settle(MapLength(tag, s, pos), |t|)
  {
    if tag == 0xde {
      ReadUnsignedLocal(s, t, pos, 2);
    } else if tag == 0xdf {
      ReadUnsignedLocal(s, t, pos, 4);
    }
  }

  /** `load` on `t` agrees with `load` on `s` as far as `t` holds the bytes `s` consumed. */
  lemma {:induction false} DecodeLocal(s: seq<bv8>, t: seq<bv8>, pos: nat, env: Env)
    requires pos <= |s| && pos <= |t|
    requires Decode(s, pos, env).Ok?
    requires Agree(s, t, pos, Decode(s, pos, env).value.1)
    ensures Decode(t, pos, env) == Settle(Decode(s, pos, env), |t|)
    decreases |s| - pos, 0, 0
  {
    if pos < |t| {
      var tag := s[pos];
      assert t[pos] == tag;
      assert s[pos..pos + 1] == [tag] == t[pos..pos + 1];
      assert ReadExact(t, pos, 1) == Ok(([tag], pos + 1));
      assert ReadExact(s, pos, 1) == Ok(([tag], pos + 1));
      match RouteOf(tag)
      case IntegerRoute => IntegerLocal(tag, s, t, pos + 1);
      case MapRoute => UnpackMapLocal(tag, s, t, pos + 1, env);
      case ArrayRoute => UnpackArrayLocal(tag, s, t, pos + 1, env);
      case StringRoute => StringLocal(tag, s, t, pos + 1, env);
      case ReservedRoute =>
      case ConstantRoute =>
      case BinaryRoute => BinaryLocal(tag, s, t, pos + 1);
      case ExtRoute => ExtLocal(tag, s, t, pos + 1, env);
      case FloatRoute => FloatLocal(tag, s, t, pos + 1);
    }
  }

  lemma {:induction false} UnpackArrayLocal(tag: bv8, s: seq<bv8>, t: seq<bv8>, pos: nat, env: Env)
    requires pos <= |s| && pos <= |t| && ArrayTag(tag)
    requires UnpackArray(tag, s, pos, env).Ok?
    requires Agree(s, t, pos, UnpackArray(tag, s, pos, env).value.1)
    ensures UnpackArray(tag, t, pos, env) == Settle(UnpackArray(tag, s, pos, env), |t|)
    decreases |s| - pos, 2, 0
  {
    var (length, p) := ArrayLength(tag, s, pos).value;
    ArrayLengthLocal(tag, s, t, pos);
    if p <= |t| {
      DecodeNLocal(s, t, p, length, env);
    }
  }

  lemma {:induction false} DecodeNLocal(s: seq<bv8>, t: seq<bv8>, pos: nat, count: nat, env: Env)
    requires pos <= |s| && pos <= |t|
    requires DecodeN(s, pos, count, env).Ok?
    requires Agree(s, t, pos, DecodeN(s, pos, count, env).value.1)
    ensures DecodeN(t, pos, count, env) == Settle(DecodeN(s, pos, count, env), |t|)
    decreases |s| - pos, 1, count
  {
    if count > 0 {
      var (x, p) := Decode(s, pos, env).value;
      DecodeLocal(s, t, pos, env);
      if p <= |t| {
        DecodeNLocal(s, t, p, count - 1, env);
      }
    }
  }

  lemma {:induction false} UnpackMapLocal(tag: bv8, s: seq<bv8>, t: seq<bv8>, pos: nat, env: Env)
    requires pos <= |s| && pos <= |t| && MapTag(tag)
    requires UnpackMap(tag, s, pos, env).Ok?
    requires Agree(s, t, pos, UnpackMap(tag, s, pos, env).value.1)
    ensures UnpackMap(tag, t, pos, env) == Settle(UnpackMap(tag, s, pos, env), |t|)
    decreases |s| - pos, 2, 0
  {
    var (length, p) := MapLength(tag, s, pos).value;
    MapLengthLocal(tag, s, t, pos);
    if p <= |t| {
      DecodeEntriesLocal(s, t, p, length, env, []);
    }
  }

  lemma {:induction false} DecodeEntriesLocal(s: seq<bv8>, t: seq<bv8>, pos: nat, count: nat, env: Env, acc: seq<(Value, Value)>)
    requires pos <= |s| && pos <= |t|
    requires DecodeEntries(s, pos, count, env, acc).Ok?
    requires Agree(s, t, pos, DecodeEntries(s, pos, count, env, acc).value.1)
    ensures DecodeEntries(t, pos, count, env, acc) == Settle(DecodeEntries(s, pos, count, env, acc), |t|)
    decreases |s| - pos, 1, count
  {
    if count > 0 {
      var rs := DecodeEntries(s, pos, count, env, acc);
      var end := rs.value.1;
      var k0, p, v, q := EntryOnSource(s, pos, count, env, acc);
      var acc1 := acc + [(NormalizeKey(k0), v)];
      assert Decode(t, pos, env) == Settle(Ok((k0, p)), |t|) by {
        AgreeWithin(s, t, pos, end, pos, p);
        DecodeLocal(s, t, pos, env);
      }
      if p <= |t| {
        assert Decode(t, p, env) == Settle(Ok((v, q)), |t|) by {
          AgreeWithin(s, t, pos, end, p, q);
          DecodeLocal(s, t, p, env);
        }
        if q <= |t| {
          assert DecodeEntries(t, q, count - 1, env, acc1) == Settle(rs, |t|) by {
            AgreeWithin(s, t, pos, end, q, end);
            DecodeEntriesLocal(s, t, q, count - 1, env, acc1);
          }
        }
      }
      EntryOnTarget(t, pos, count, env, acc, k0, p, v, q);
    }
  }

  /** One successful step of the map loop on `s`: the key, the value, and the rest of the loop. */
  lemma EntryOnSource(s: seq<bv8>, pos: nat, count: nat, env: Env, acc: seq<(Value, Value)>)
    returns (k0: Value, p: nat, v: Value, q: nat)
    requires pos <= |s| && count > 0
    requires DecodeEntries(s, pos, count, env, acc).Ok?
    ensures Decode(s, pos, env) == Ok((k0, p)) && p <= |s|
    ensures Hashable(NormalizeKey(k0)) && NormalizeKey(k0) !in Keys(acc)
    ensures Decode(s, p, env) == Ok((v, q)) && q <= |s|
    ensures pos < p < q <= DecodeEntries(s, pos, count, env, acc).value.1
    ensures DecodeEntries(s, pos, count, env, acc) == DecodeEntries(s, q, count - 1, env, acc + [(NormalizeKey(k0), v)])
  {
    var r := Decode(s, pos, env);
    k0, p := r.value.0, r.value.1;
    var r' := Decode(s, p, env);
    v, q := r'.value.0, r'.value.1;
  }

  /** One step of the map loop on `t`, given what the key and the value decode to there. */
  lemma EntryOnTarget(t: seq<bv8>, pos: nat, count: nat, env: Env, acc: seq<(Value, Value)>, k0: Value, p: nat, v: Value, q: nat)
    requires pos <= |t| && count > 0 && p <= q
    requires Hashable(NormalizeKey(k0)) && NormalizeKey(k0) !in Keys(acc)
    requires Decode(t, pos, env) == Settle(Ok((k0, p)), |t|)
    requires p <= |t| ==> Decode(t, p, env) == Settle(Ok((v, q)), |t|)
    ensures p > |t| || q > |t| ==> DecodeEntries(t, pos, count, env, acc) == Err(InsufficientData)
    ensures q <= |t| ==> DecodeEntries(t, pos, count, env, acc) == DecodeEntries(t, q, count - 1, env, acc + [(NormalizeKey(k0), v)])
  {
  }

  /** Bytes after an encoded value do not change its decoding. */
  lemma DecodeIgnoresTrailing(s: seq<bv8>, rest: seq<bv8>, pos: nat, env: Env)
    requires pos <= |s|
    requires Decode(s, pos, env).Ok?
    ensures Decode(s + rest, pos, env) == Decode(s, pos, env)
  {
    DecodeLocal(s, s + rest, pos, env);
  }

  /** Every strict truncation of an encoded value fails with `InsufficientData`. */
  lemma TruncationFails(s: seq<bv8>, pos: nat, k: nat, env: Env)
    requires pos <= k <= |s|
    requires Decode(s, pos, env).Ok? && k < Decode(s, pos, env).value.1
    ensures Decode(s[..k], pos, env) == Err(InsufficientData)
  {
    DecodeLocal(s, s[..k], pos, env);
  }

  /** If `load` consumes all of `s`, it fails with `InsufficientData` on every strict prefix of `s`. */
  lemma PrefixOfCompleteFails(s: seq<bv8>, k: nat, env: Env)
    requires Decode(s, 0, env).Ok? && Decode(s, 0, env).value.1 == |s|
    requires k < |s|
    ensures Decode(s[..k], 0, env) == Err(InsufficientData)
  {
    TruncationFails(s, 0, k, env);
  }
}
