/**
 The string and binary decoders `_unpack_string` and `_unpack_binary`: a
 length from the tag or from a 1/2/4-byte big-endian field, then exactly that
 many payload bytes.
 */
module Blobs {
  import opened Errors
  import opened ByteSource
  import opened Values

  predicate StringTag(tag: bv8)
  {
    tag & 0xe0 == 0xa0 || tag == 0xd9 || tag == 0xda || tag == 0xdb
  }

  predicate BinaryTag(tag: bv8)
  {
    tag == 0xc4 || tag == 0xc5 || tag == 0xc6
  }

  /** The length part of `_unpack_string`: the low five bits of a fixstr tag, or the field of str 8/16/32. */
  function StrLength(tag: bv8, s: seq<bv8>, pos: nat): (r: Result<(nat, nat)>)
    requires pos <= |s|
    requires StringTag(tag)
    ensures r.Ok? ==> pos <= r.value.1 <= |s|
    ensures r.Err? ==> r.error == InsufficientData
    ensures 0xa0 <= tag <= 0xbf ==> r == Ok((tag as int - 0xa0, pos))
    ensures tag == 0xd9 ==> FieldRead(s, pos, 1, r)
    ensures tag == 0xda ==> FieldRead(s, pos, 2, r)
    ensures tag == 0xdb ==> FieldRead(s, pos, 4, r)
  {
    if tag & 0xe0 == 0xa0 then Ok(((tag & !0xe0) as nat, pos))
    else if tag == 0xd9 then ReadUnsigned(s, pos, 1)
    else if tag == 0xda then ReadUnsigned(s, pos, 2)
    else if tag == 0xdb then ReadUnsigned(s, pos, 4)
    else assert false; Err(InsufficientData)
  }

  /** The length part of `_unpack_binary`: the field of bin 8/16/32. */
  function BinLength(tag: bv8, s: seq<bv8>, pos: nat): (r: Result<(nat, nat)>)
    requires pos <= |s|
    requires BinaryTag(tag)
    ensures r.Ok? ==> pos <= r.value.1 <= |s|
    ensures r.Err? ==> r.error == InsufficientData
    ensures tag == 0xc4 ==> FieldRead(s, pos, 1, r)
    ensures tag == 0xc5 ==> FieldRead(s, pos, 2, r)
    ensures tag == 0xc6 ==> FieldRead(s, pos, 4, r)
  {
    if tag == 0xc4 then ReadUnsigned(s, pos, 1)
    else if tag == 0xc5 then ReadUnsigned(s, pos, 2)
    else if tag == 0xc6 then ReadUnsigned(s, pos, 4)
    else assert false; Err(InsufficientData)
  }

  /**
   `_unpack_string`: after the length, exactly that many bytes. Text that
   passes the UTF-8 check is a `Str`; text that fails it is handed back as the
   raw bytes when `allow_invalid_utf8` is set, and is an `InvalidString`
   otherwise. A length or payload cut short is `InsufficientData`.
   */
  function UnpackString(tag: bv8, s: seq<bv8>, pos: nat, env: Env): (r: Result<(Value, nat)>)
    requires pos <= |s|
    requires StringTag(tag)
    ensures r.Ok? ==> pos <= r.value.1 <= |s| && WellFormed(env, r.value.0)
    ensures StrLength(tag, s, pos).Err? ==> r == Err(InsufficientData)
    ensures StrLength(tag, s, pos).Ok? ==>
      var (length, start) := StrLength(tag, s, pos).value;
      && (start + length > |s| ==> r == Err(InsufficientData))
      && (start + length <= |s| ==>
            var data := s[start..start + length];
            && (data in env.validUtf8 ==> r == Ok((Str(data), start + length)))
            && (data !in env.validUtf8 && env.options.allowInvalidUtf8 ==> r == Ok((Bin(data), start + length)))
            && (data !in env.validUtf8 && !env.options.allowInvalidUtf8 ==> r == Err(InvalidString)))
  {
    var (length, start) :- StrLength(tag, s, pos);
    var (data, next) :- ReadExact(s, start, length);
    if data in env.validUtf8 then Ok((Str(data), next))
    else if env.options.allowInvalidUtf8 then Ok((Bin(data), next))
    else Err(InvalidString)
  }

  /** `_unpack_binary`: after the length, exactly that many bytes, returned verbatim. */
  function UnpackBinary(tag: bv8, s: seq<bv8>, pos: nat): (r: Result<(Value, nat)>)
    requires pos <= |s|
    requires BinaryTag(tag)
    ensures r.Ok? ==> pos <= r.value.1 <= |s| && r.value.0.Bin?
    ensures BinLength(tag, s, pos).Err? ==> r == Err(InsufficientData)
    ensures BinLength(tag, s, pos).Ok? ==>
      var (length, start) := BinLength(tag, s, pos).value;
      && (start + length > |s| ==> r == Err(InsufficientData))
      && (start + length <= |s| ==> r == Ok((Bin(s[start..start + length]), start + length)))
  {
    var (length, start) :- BinLength(tag, s, pos);
    var (data, next) :- ReadExact(s, start, length);
    Ok((Bin(data), next))
  }
}
