# A verified model of the umsgpack MessagePack decoder (`mp_load.py`)

This project models the decoding half of the MicroPython port of u-msgpack, the
file `umsgpack/mp_load.py`, in Dafny. That file is a recursive-descent
MessagePack decoder with these parts:

- `load` reads one tag byte and dispatches on its numeric range to the
  sub-decoders for integers, floats, strings, binary data, extensions, arrays
  and maps.
- Arrays and maps call `load` again for their elements, keys and values.
- Every read goes through `_read_except`, which returns exactly the requested
  number of bytes or raises `InsufficientDataException`.

The model is purely functional:

- The stream becomes a byte sequence `s: seq<bv8>` with a cursor `pos`.
- Every decoder returns `Result<(T, nat)>`, either a value with the cursor after
  it or one of the six errors the decoder raises: `InsufficientData`,
  `ReservedCode`, `InvalidString`, `UnhashableKey`, `DuplicateKey` and
  `NotImplemented`.
- The options bag, the process-wide extension registry and the UTF-8 check are
  gathered in one `Env` value.
- `Decode`, `UnpackArray`, `DecodeN`, `UnpackMap` and `DecodeEntries` are
  mutually recursive, like `load` and its container decoders.
- Recursion ends because every successful decode moves the cursor forward.

Modules, in dependency order:

| file | module | contents |
|---|---|---|
| errors.dfy | `Errors` | the error taxonomy and `Result` |
| bytes.dfy | `ByteCast`, `Bytes` | big-endian unsigned and two's-complement fields, with their encoders as partners |
| source.dfy | `ByteSource` | `ReadExact`, the chunked read loop of `_read_except`, and `_re0`'s unsigned length fields |
| values.dfy | `Values` | the decoded `Value`, the options, `_deep_list_to_tuple`, hashability, and what a decoded value looks like (`WellFormed`) |
| scalars.dfy | `Scalars` | the struct format table, `_re0`, `_unpack_integer`, `_unpack_float` |
| blobs.dfy | `Blobs` | `_unpack_string`, `_unpack_binary` |
| extensions.dfy | `Extensions` | `_unpack_ext` and its three-level handler resolution |
| load.dfy | `Load` | `load`, `_unpack_array`, `_unpack_map` |
| elements.dfy | `Elements` | the array elements as values decoded back to back |
| dispatch.dfy | `Dispatch` | the tag chain partitions the byte values; fixint and integer round trips |
| wellformed.dfy | `WellFormedness` | every successful decode is well formed |
| keys.dfy | `MapKeys` | the key rules of the map loop |
| locality.dfy | `Locality` | a decode depends only on the bytes it consumes; trailing bytes and truncation |
| configuration.dfy | `Configuration` | `use_tuple` and `use_ordered_dict` change container kinds and nothing else |
| scenarios.dfy | `Scenarios` | concrete byte strings and their outcomes |

Notes on how the code was followed:

- `_fail` (the "Logic error" helper) has no counterpart. Each sub-decoder's
  fallback branch is an `assert false`. `RoutePartition` shows that the tag
  chain of `load` sends each sub-decoder exactly the tags its own tests accept.
- `_unpack_map` converts a key only when it is a *list* (`isinstance(k, list)`).
  A tuple key decoded under `use_tuple` is kept as it is. `NormalizeKey`
  follows the code here.
  `ConversionIsAllTuples` shows that both readings give the same key for the
  values a decode can produce, because their arrays are all lists or all
  tuples.
- A string that fails the UTF-8 check while `allow_invalid_utf8` is set comes
  back as the raw `bytes` object. The model returns `Bin` for it.

## Model

| member | source | states |
|---|---|---|
| ByteSource.ReadExact | umsgpack/mp_load.py:23-38 | A request for 0 bytes returns nothing and leaves the cursor where it was. Otherwise the read succeeds exactly when `n` bytes remain. It then returns those `n` bytes and moves the cursor by `n`. Every failure is `InsufficientData`. |
| ByteSource.ReadExactChunked | umsgpack/mp_load.py:23-38 | The accumulation loop against a transport that may deliver fewer bytes per `read` than requested. It never returns a short result: any success equals the exact read. Every failure is `InsufficientData`. When every `read` delivers at least one byte, the outcome is the exact read. |
| ByteSource.ReadUnsigned | umsgpack/mp_load.py:40-41 | `_re0` with `B`, `>H`, `>I`: succeeds exactly when `w` bytes remain. The result is below 256^w, and its `w`-byte big-endian spelling is the bytes read. |
| ByteSource.Delivered | umsgpack/mp_load.py:27-36 | One `fp.read(k)` delivers at most `k` bytes and never reads past the end of the stream. When no chunk limit applies to that call, or the limit is positive, a request for at least one byte delivers nothing only at the end of the stream. |
| Scalars.StructUnpack | umsgpack/mp_load.py:41 | `struct.unpack` of a one-code integer format. A signed code gives a number in [-2^(8w-1), 2^(8w-1)) whose two's-complement spelling is the data. An unsigned code gives a number in [0, 256^w) whose big-endian spelling is the data. |
| Scalars.Re0 | umsgpack/mp_load.py:40-41 | `_re0` succeeds exactly when `n` bytes remain, moves the cursor by `n`, and otherwise fails with `InsufficientData`. A signed format gives the two's-complement value of those bytes. For the unsigned formats it agrees with `ByteSource.ReadUnsigned`, the length-field reader, in outcome and in value. |
| Bytes.UnsignedOfFromUnsigned | umsgpack/mp_load.py:40-41 | Reading back the big-endian spelling of any `x < 256^w` gives `x`. |
| Bytes.FromUnsignedOfUnsigned | umsgpack/mp_load.py:40-41 | An unsigned field is below 256^|b|, and re-encoding its value reproduces its bytes. |
| Bytes.SignedBound | umsgpack/mp_load.py:40-41 | A two's-complement field of `w` bytes lies in [-2^(8w-1), 2^(8w-1)). It is negative exactly when the top bit of its first byte is set. |
| Bytes.SignedOfFromSigned | umsgpack/mp_load.py:40-41 | Reading back the two's-complement spelling of any in-range `x` gives `x`. |
| Bytes.FromSignedOfSigned | umsgpack/mp_load.py:40-41 | Re-encoding the value of a signed field reproduces its bytes. |
| Scalars.FormatTableAgrees | umsgpack/mp_load.py:49-55 | For every `ic` in 0..7, the stripped two-character slice of `"B >H>I>Qb >h>i>q"` is a valid integer format. Its size equals the read count `1 << (ic & 3)`. It is signed exactly for `ic >= 4`. |
| Scalars.UnpackInteger | umsgpack/mp_load.py:43-55 | Tags 0x00-0x7f give the tag value. Tags 0xe0-0xff give tag - 256, in -32..-1. Tags 0xcc-0xcf read a `w`-byte unsigned field, with a result in [0, 256^w) whose spelling is the bytes. Tags 0xd0-0xd3 read a `w`-byte signed field, with a result in [-2^(8w-1), 2^(8w-1)). A field cut short is `InsufficientData`. |
| Scalars.UnpackFloat | umsgpack/mp_load.py:58-64 | 0xca consumes exactly 4 bytes and 0xcb exactly 8, carried raw. Fewer remaining bytes is `InsufficientData`. |
| Blobs.StrLength | umsgpack/mp_load.py:67-78 | A fixstr length is the low five bits of the tag, with no bytes read. str 8/16/32 read a 1/2/4-byte big-endian length field. |
| Blobs.UnpackString | umsgpack/mp_load.py:67-86 | After the length, exactly that many payload bytes. Text that passes the check is `Str`. Failing text is the raw bytes when `allow_invalid_utf8` is set and `InvalidString` otherwise. A short length or payload is `InsufficientData`. |
| Blobs.BinLength | umsgpack/mp_load.py:89-98 | bin 8/16/32 read a 1/2/4-byte big-endian length field. |
| Blobs.UnpackBinary | umsgpack/mp_load.py:89-100 | After the length, exactly that many bytes, returned verbatim. A short payload is `InsufficientData`. |
| Extensions.Find | umsgpack/mp_load.py:105 | `bytes.find`: the index of the first occurrence, or -1 exactly when the byte is absent. |
| Extensions.FixExtLengths | umsgpack/mp_load.py:105-106 | The fixext tags 0xd4-0xd8 are found at positions 0-4, and `1 << n` gives 1, 2, 4, 8 and 16. Every other tag is absent, so its length comes from a field. |
| Extensions.ExtLength | umsgpack/mp_load.py:103-115 | fixext tags imply their length without reading. ext 8/16/32 read a 1/2/4-byte length field. |
| Extensions.TypeOfByte | umsgpack/mp_load.py:117 | The type byte read as a signed 8-bit number: bytes from 0x80 up are negative. |
| Extensions.ReadExtObj | umsgpack/mp_load.py:103-118 | After the length, one type byte and exactly `length` payload bytes. It succeeds exactly when they are all present; otherwise the error is `InsufficientData`. |
| Extensions.ResolveExt | umsgpack/mp_load.py:120-134 | A per-call handler for the type wins and receives the whole extension object. Otherwise a registered class with `unpackb` decodes the payload, and one without `unpackb` is `NotImplemented`. Otherwise the result is the extension object itself. |
| Extensions.UnpackExt | umsgpack/mp_load.py:103-134 | A read failure propagates. Otherwise the outcome is the resolution of the object read, with the cursor after its payload. |
| Values.DeepListToTuple | umsgpack/mp_load.py:150-153 | The result is never a list. A non-list is returned unchanged. A list becomes a tuple of the same length. |
| Values.DeepListToTupleIdempotent | umsgpack/mp_load.py:150-153 | Converting twice is converting once. |
| Values.HashableIsTuplesWithoutMaps | umsgpack/mp_load.py:176-180 | `hash(k)` succeeds exactly when every array in `k` is a tuple and no dict is reachable through its arrays. |
| Values.HashableAfterConversion | umsgpack/mp_load.py:173-180 | For a value whose arrays are all lists or all tuples, the converted key passes `hash` exactly when no dict is reachable through its arrays. |
| Values.ConvertedKeyWellFormed | umsgpack/mp_load.py:173-175 | A hashable converted key is well formed under the key-building options, in which every array is a tuple. |
| Load.ArrayLength | umsgpack/mp_load.py:136-145 | fixarray gives the low nibble of the tag. array 16/32 read a 2/4-byte big-endian field. |
| Load.MapLength | umsgpack/mp_load.py:156-165 | fixmap gives the low nibble of the tag. map 16/32 read a 2/4-byte big-endian field. |
| Load.Constant | umsgpack/mp_load.py:211 | Indexing `(None, 0, False, True)` by `tag - 0xc0` gives nil for 0xc0, false for 0xc2 and true for 0xc3. |
| Load.Decode | umsgpack/mp_load.py:196-197 | Every successful `load` consumes at least the tag byte and never runs past the end of the buffer. |
| Load.UnpackArray | umsgpack/mp_load.py:136-147 | A decoded array holds exactly as many elements as its length field says. It is a tuple exactly when `use_tuple` is set. |
| Load.DecodeN | umsgpack/mp_load.py:146 | Decoding `count` values in a row yields exactly `count` values, without running past the buffer. |
| Elements.DecodeNPositions | umsgpack/mp_load.py:146 | The elements of a successful run are decoded back to back and in order. Element `i` is what `load` decodes at the position where element `i - 1` ended. The first element starts at the start of the run, and the last ends at its end. |
| Elements.ChainIsDecodeN | umsgpack/mp_load.py:146 | Conversely, values decoded back to back through a chain of positions are exactly what the element loop produces from the first position, ending at the last. |
| Load.UnpackMap | umsgpack/mp_load.py:156-193 | A decoded map holds exactly as many entries as its length field says. It is ordered exactly when `use_ordered_dict` is set. |
| Load.DecodeEntries | umsgpack/mp_load.py:169-193 | The loop extends the dict built so far by exactly `count` entries and leaves the earlier entries in place. |
| Load.NormalizeKey | umsgpack/mp_load.py:173-175 | The key stored is never a list. A key that is not a list, and in particular any key Python can already hash, is stored unchanged. A list becomes a tuple of the same length. |
| Dispatch.RoutePartition | umsgpack/mp_load.py:199-223 | `Load.RouteOf`, the chain of comparisons, sends to each sub-decoder exactly the tags that sub-decoder's own tests accept, in both directions. Only 0xc1 reaches the reserved-code error, so the logic-error helper is never reached. |
| Dispatch.OneByteTags | umsgpack/mp_load.py:199-211 | Positive and negative fixints, nil, false and true decode from their one tag byte and consume exactly that byte. 0xc1 is `ReservedCode`. |
| Dispatch.NothingToRead | umsgpack/mp_load.py:196-197 | `load` at the end of the buffer is `InsufficientData`. |
| Dispatch.FixintRoundTrip | umsgpack/mp_load.py:43-48 | Every integer in -32..127 comes back from its one-byte encoding, whatever follows it. |
| Dispatch.IntegerRoundTrip | umsgpack/mp_load.py:43-55 | For uint 8-64 and int 8-64, every number in the format's range comes back from its tag and big-endian field, with the cursor right after the field. |
| Dispatch.IntegerWidths | umsgpack/mp_load.py:55 | Tags 0xcc-0xd3 read `1 << ((tag - 0xcc) & 3)` bytes: 1 for 0xcc/0xd0, 2 for 0xcd/0xd1, 4 for 0xce/0xd2, 8 for 0xcf/0xd3. |
| WellFormedness.AddEntry | umsgpack/mp_load.py:181-189 | Inserting a fresh, hashable, well-formed key with a well-formed value keeps the keys distinct. |
| WellFormedness.DecodeWellFormed | umsgpack/mp_load.py:196-223 | Every successful `load` is well formed. Integers fit the 64-bit formats, floats have 4 or 8 bytes, and text passed the check. Arrays are tuples exactly under `use_tuple`, and maps are of the configured kind with distinct hashable keys. Extension results match the handler tables. |
| WellFormedness.UnpackArrayWellFormed | umsgpack/mp_load.py:136-147 | A decoded array is in the configured container, and every element is well formed. |
| WellFormedness.DecodeNWellFormed | umsgpack/mp_load.py:146 | Every value of a run of decodes is well formed. |
| WellFormedness.UnpackMapWellFormed | umsgpack/mp_load.py:156-193 | A decoded map is of the configured kind with distinct, hashable, converted keys and well-formed values. |
| WellFormedness.DecodeEntriesWellFormed | umsgpack/mp_load.py:169-193 | Each turn of the loop keeps the dict under construction free of repeated keys and unhashable keys. |
| WellFormedness.NextEntryWellFormed | umsgpack/mp_load.py:170-189 | The entry added after the key checks pass is a hashable, converted key with a well-formed value. |
| MapKeys.WellFormedUniform | umsgpack/mp_load.py:146-147 | Because `use_tuple` is threaded through every nested call, a decoded value holds only lists or only tuples. |
| MapKeys.KeyChecks | umsgpack/mp_load.py:170-189 | A key holding a dict anywhere inside its arrays is `UnhashableKey`. A hashable key already in the dict is `DuplicateKey`. A stored key is the converted key, a tuple of tuples with no list left in it. The value stored with it is the value `load` decodes right after the key. |
| MapKeys.DuplicateKeyBeforeValue | umsgpack/mp_load.py:181-186 | `DuplicateKey` is decided from the key's bytes alone. The outcome is the same on any buffer holding those bytes, so the value is never read. |
| MapKeys.DuplicateKeyAtEnd | umsgpack/mp_load.py:181-186 | A repeated key is `DuplicateKey` even when the buffer ends right after it. |
| Locality.DecodeLocal | umsgpack/mp_load.py:196-223 | A decode depends only on the bytes it consumes. On another buffer holding the same bytes, it gives the same value and cursor if that buffer reaches the end of the value, and `InsufficientData` if it stops short. |
| Locality.DecodeEntriesLocal | umsgpack/mp_load.py:169-193 | The map loop depends only on the bytes it consumes, in the same sense. |
| Locality.DecodeIgnoresTrailing | umsgpack/mp_load.py:196-197 | Appending bytes after an encoded value does not change its decoding. |
| Locality.TruncationFails | umsgpack/mp_load.py:23-38 | Any truncation of an encoded value fails with `InsufficientData` and never with another error or a wrong value. |
| Locality.PrefixOfCompleteFails | umsgpack/mp_load.py:196-197 | If `load` consumes all of `s`, it fails with `InsufficientData` on every strict prefix of `s`. |
| Configuration.ConversionIsAllTuples | umsgpack/mp_load.py:150-153 | On a dict-free value whose arrays are of one kind, the key conversion makes every array a tuple. |
| Configuration.SameKey | umsgpack/mp_load.py:173-180 | Whether a decoded key is rejected as unhashable, and the key stored, are the same under every container option. |
| Configuration.DecodeStyled | umsgpack/mp_load.py:196-223 | Decoding under other `use_tuple` and `use_ordered_dict` settings gives the same error, or the same cursor with only container kinds changed. |
| Configuration.UnpackArrayStyled | umsgpack/mp_load.py:136-147 | An array decodes under any container options with the same elements, restyled, at the same cursor. |
| Configuration.UnpackMapStyled | umsgpack/mp_load.py:156-193 | A map decodes under any container options with the same keys and restyled values, at the same cursor. |
| Configuration.DecodeEntriesStyled | umsgpack/mp_load.py:169-193 | The map loop gives the same error or the same keys under any container options. |
| Configuration.UseTupleOnlyChangesContainers | umsgpack/mp_load.py:146-147 | Switching `use_tuple` on turns lists into tuples and changes nothing else, neither the outcome nor the cursor. |
| Scenarios.FixmapOfText | umsgpack/mp_load.py:156-193 | `81 a1 61 01` decodes to the one-entry dict `{"a": 1}`. |
| Scenarios.FixarrayOfInts | umsgpack/mp_load.py:136-147 | `92 01 02` decodes to `[1, 2]`, or to `(1, 2)` under `use_tuple`. |
| Scenarios.EmptyStr8 | umsgpack/mp_load.py:67-82 | `d9 00` decodes to the empty string. |
| Scenarios.ShortArray | umsgpack/mp_load.py:136-147 | `93 01 02` (three elements announced, two present) is `InsufficientData`. |
| Scenarios.RepeatedIntKey | umsgpack/mp_load.py:181-183 | `82 01 02 01` is `DuplicateKey`, although the buffer ends before the second value. |
| Scenarios.RepeatedListKey | umsgpack/mp_load.py:173-183 | Two empty-array keys are `DuplicateKey` once converted to tuples. |
| Scenarios.MapAsKey | umsgpack/mp_load.py:176-180 | A dict key is `UnhashableKey`. |
| Scenarios.ListOfMapAsKey | umsgpack/mp_load.py:173-180 | A list holding a dict stays unhashable after conversion. |
| Scenarios.InvalidText | umsgpack/mp_load.py:80-86 | A fixstr whose payload fails the text check is the raw bytes under `allow_invalid_utf8` and `InvalidString` otherwise. |
| Scenarios.NegativeExtType | umsgpack/mp_load.py:117-134 | fixext 1 with type byte 0xff has type -1. Without a handler or a registered class, it decodes to the raw extension object. |

## Left out

- The float value: `struct.unpack(">f"/">d")` is IEEE-754 conversion. The model consumes the right number of bytes and carries them raw in `Float`.
- The UTF-8 check `str(data, 'utf-8')`: MicroPython's decoder is foreign code. The set of payloads it accepts is the `validUtf8` parameter of `Env`. A `Str` value carries the payload bytes, not code points.
- `loads` (`mp_load.py:227-230`): its argument type check and its `uio.BytesIO` wrapping are plumbing. The model's input is the byte sequence itself.
- The stream object: the in-memory stream is the sequence and the cursor. Chunked delivery is modelled once, in `ReadExactChunked`, by a schedule of per-call limits.
- Foreign callbacks: the result of `ext_handlers[type](ext)` and of a registered class's `unpackb(data)` is recorded as `Opaque`, naming the handler and its argument. Exceptions raised inside those callbacks are not modelled. Neither is the population of the registry at import time, which is a parameter.
- Python hashing: extension objects and the results of callbacks are taken to be hashable.
- Load.DecodeEntries: the duplicate-key test uses structural equality of the model's values, not Python's `==`. Where the two differ, the model's outcome differs from the program's:
  - Floats are compared by their raw bytes. Two NaN keys with the same bytes are `DuplicateKey` in the model, but Python stores both, because NaN is never equal to itself. For `82 ca 7fc00000 01 ca 7fc00000 02` the model reports an error the program never raises.
  - A float 32 and a float 64 of the same number, such as 1.0, are distinct keys in the model, but Python reports `DuplicateKey`. The same holds for 0.0 and -0.0.
  - `1`, `True` and `1.0` are distinct keys in the model, but equal dict keys in Python.
  - Two equal extension keys resolved by the same handler are always `DuplicateKey` in the model. In Python the outcome depends on the `__eq__` and `__hash__` of the handler's results.
- `dict` versus `collections.OrderedDict`: both are an insertion-ordered association list plus the `ordered` flag. The iteration order of a plain dict is not modelled.
- The `TypeError` branch of `d[k] = v` (`mp_load.py:188-192`): after the `hash(k)` check passes, inserting cannot fail in the model, so that branch is not represented.
- Recursion limits: Python's `RecursionError` on deeply nested input and memory exhaustion on huge length fields are not modelled. The model decodes any nesting depth.
