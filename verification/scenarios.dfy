/**
 Concrete byte strings and what `load` makes of them, for every setting of
 the options that matters to them: the map and array families, the empty
 str 8, the error cases of the map loop, a string that fails the text check,
 and a fixext payload whose type byte is negative.
 */
module Scenarios {
  import opened Errors
  import opened ByteSource
  import opened Values
  import opened Scalars
  import opened Blobs
  import opened Extensions
  import opened Load

  /** `{"a": 1}` as a fixmap: one entry, in the dict kind the options ask for. */
  lemma FixmapOfText(env: Env)
    requires [0x61] in env.validUtf8
    ensures Decode([0x81, 0xa1, 0x61, 0x01], 0, env) == Ok((Map(env.options.useOrderedDict, [(Str([0x61]), Int(1))]), 4))
  {
    var s: seq<bv8> := [0x81, 0xa1, 0x61, 0x01];
    assert s[0..1] == [0x81] && s[1..2] == [0xa1] && s[2..3] == [0x61] && s[3..4] == [0x01];
    assert Decode(s, 1, env) == Ok((Str([0x61]), 3));
    assert Decode(s, 3, env) == Ok((Int(1), 4));
    assert DecodeEntries(s, 1, 1, env, []) == Ok(([(Str([0x61]), Int(1))], 4));
  }

  /** `[1, 2]` as a fixarray: a tuple exactly when `use_tuple` is set. */
  lemma FixarrayOfInts(env: Env)
    ensures Decode([0x92, 0x01, 0x02], 0, env) == Ok((Array(env.options.useTuple, [Int(1), Int(2)]), 3))
  {
    var s: seq<bv8> := [0x92, 0x01, 0x02];
    assert s[0..1] == [0x92] && s[1..2] == [0x01] && s[2..3] == [0x02];
    assert Decode(s, 2, env) == Ok((Int(2), 3));
    assert DecodeN(s, 3, 0, env) == Ok(([], 3));
    assert [Int(2)] + [] == [Int(2)];
    assert DecodeN(s, 2, 1, env) == Ok(([Int(2)], 3));
    assert Decode(s, 1, env) == Ok((Int(1), 2));
    assert [Int(1)] + [Int(2)] == [Int(1), Int(2)];
    assert DecodeN(s, 1, 2, env) == Ok(([Int(1), Int(2)], 3));
  }

  /** A str 8 of length zero is the empty text, read without touching any byte after the length. */
  lemma EmptyStr8(env: Env)
    requires [] in env.validUtf8
    ensures Decode([0xd9, 0x00], 0, env) == Ok((Str([]), 2))
  {
    var s: seq<bv8> := [0xd9, 0x00];
    assert s[0..1] == [0xd9] && s[1..2] == [0x00];
    assert StrLength(0xd9, s, 1) == Ok((0, 2));
  }

  /** An array that announces three elements but holds two is `InsufficientData`. */
  lemma ShortArray(env: Env)
    ensures Decode([0x93, 0x01, 0x02], 0, env) == Err(InsufficientData)
  {
    var s: seq<bv8> := [0x93, 0x01, 0x02];
    assert s[0..1] == [0x93] && s[1..2] == [0x01] && s[2..3] == [0x02];
    assert Decode(s, 3, env) == Err(InsufficientData);
    assert DecodeN(s, 3, 1, env) == Err(InsufficientData);
    assert Decode(s, 2, env) == Ok((Int(2), 3));
    assert DecodeN(s, 2, 2, env) == Err(InsufficientData);
    assert Decode(s, 1, env) == Ok((Int(1), 2));
  }

  /** `{1: 2, 1: ...}`: the repeated key is rejected although the buffer ends before its value. */
  lemma RepeatedIntKey(env: Env)
    ensures Decode([0x82, 0x01, 0x02, 0x01], 0, env) == Err(DuplicateKey)
  {
    var s: seq<bv8> := [0x82, 0x01, 0x02, 0x01];
    assert s[0..1] == [0x82] && s[1..2] == [0x01] && s[2..3] == [0x02] && s[3..4] == [0x01];
    assert Decode(s, 3, env) == Ok((Int(1), 4));
    assert Int(1) in Keys([(Int(1), Int(2))]);
    assert DecodeEntries(s, 3, 1, env, [(Int(1), Int(2))]) == Err(DuplicateKey);
    assert Decode(s, 2, env) == Ok((Int(2), 3));
    assert Decode(s, 1, env) == Ok((Int(1), 2));
  }

  /** `{[]: 1, []: ...}`: two empty lists are the same key once converted to tuples, under either container option. */
  lemma RepeatedListKey(env: Env)
    ensures Decode([0x82, 0x90, 0x01, 0x90], 0, env) == Err(DuplicateKey)
  {
    var s: seq<bv8> := [0x82, 0x90, 0x01, 0x90];
    assert s[0..1] == [0x82] && s[1..2] == [0x90] && s[2..3] == [0x01] && s[3..4] == [0x90];
    var empty := Array(env.options.useTuple, []);
    assert Decode(s, 3, env) == Ok((empty, 4));
    assert NormalizeKey(empty) == Array(true, []);
    assert Array(true, []) in Keys([(Array(true, []), Int(1))]);
    assert DecodeEntries(s, 3, 1, env, [(Array(true, []), Int(1))]) == Err(DuplicateKey);
    assert Decode(s, 2, env) == Ok((Int(1), 3));
    assert Decode(s, 1, env) == Ok((empty, 2));
  }

  /** `{{}: 1}`: a dict cannot be a key. */
  lemma MapAsKey(env: Env)
    ensures Decode([0x81, 0x80, 0x01], 0, env) == Err(UnhashableKey)
  {
    var s: seq<bv8> := [0x81, 0x80, 0x01];
    assert s[0..1] == [0x81] && s[1..2] == [0x80];
    assert Decode(s, 1, env) == Ok((Map(env.options.useOrderedDict, []), 2));
  }

  /** `{[{}]: 1}`: a list holding a dict stays unhashable after conversion. */
  lemma ListOfMapAsKey(env: Env)
    ensures Decode([0x81, 0x91, 0x80, 0x01], 0, env) == Err(UnhashableKey)
  {
    var s: seq<bv8> := [0x81, 0x91, 0x80, 0x01];
    assert s[0..1] == [0x81] && s[1..2] == [0x91] && s[2..3] == [0x80];
    var inner := Map(env.options.useOrderedDict, []);
    assert Decode(s, 2, env) == Ok((inner, 3));
    assert DecodeN(s, 3, 0, env) == Ok(([], 3));
    assert [inner] + [] == [inner];
    assert DecodeN(s, 2, 1, env) == Ok(([inner], 3));
    assert Decode(s, 1, env) == Ok((Array(env.options.useTuple, [inner]), 3));
    assert !Hashable(NormalizeKey(Array(env.options.useTuple, [inner]))) by {
      assert NormalizeKey(Array(env.options.useTuple, [inner])).elems[0] == inner;
    }
  }

  /** A one-byte fixstr holding 0xff: raw bytes when invalid text is allowed, `InvalidString` otherwise. */
  lemma InvalidText(env: Env)
    requires [0xff] !in env.validUtf8
    ensures env.options.allowInvalidUtf8 ==> Decode([0xa1, 0xff], 0, env) == Ok((Bin([0xff]), 2))
    ensures !env.options.allowInvalidUtf8 ==> Decode([0xa1, 0xff], 0, env) == Err(InvalidString)
  {
    var s: seq<bv8> := [0xa1, 0xff];
    assert s[0..1] == [0xa1] && s[1..2] == [0xff];
  }

  /** fixext 1 with type byte 0xff: type -1, one payload byte, resolved through the tables. */
  lemma NegativeExtType(env: Env)
    ensures Decode([0xd4, 0xff, 0x07], 0, env) == At(ResolveExt(env, ExtObj(-1, [0x07])), 3)
    ensures -1 !in env.options.extHandlers && -1 !in env.registry ==>
      Decode([0xd4, 0xff, 0x07], 0, env) == Ok((Ext(ExtObj(-1, [0x07])), 3))
  {
    var s: seq<bv8> := [0xd4, 0xff, 0x07];
    assert s[0..1] == [0xd4] && s[1..2] == [0xff] && s[2..3] == [0x07];
    assert ReadExtObj(0xd4, s, 1) == Ok((ExtObj(-1, [0x07]), 3));
  }
}
