/**
 The byte source: exact-count reads from an in-memory buffer with a read
 cursor. `ReadExact` is what every decoding step uses; `ReadExactChunked`
 models the accumulation loop of `_read_except` against a transport that may
 hand back fewer bytes per `read` call than were asked for, and shows that the
 loop never returns a short result.
 */
module ByteSource {
  import opened Errors
  import opened Bytes

  function Min(a: nat, b: nat): nat
  {
    if a <= b then a else b
  }

  /** `n` bytes starting at `pos`, with the cursor after them, or `InsufficientData`. */
  function ReadExact(s: seq<bv8>, pos: nat, n: nat): (r: Result<(seq<bv8>, nat)>)
    requires pos <= |s|
    ensures n == 0 ==> r == Ok(([], pos))
    ensures r.Ok? <==> pos + n <= |s|
    ensures r.Ok? ==> r.value.0 == s[pos..pos + n] && r.value.1 == pos + n
    ensures r.Err? ==> r.error == InsufficientData
  {
    if n == 0 then Ok(([], pos))
    else if |s| - pos < n then Err(InsufficientData)
    else Ok((s[pos..pos + n], pos + n))
  }

  /**
   `r` is the outcome of reading a `w`-byte unsigned big-endian field at `pos`:
   the number whose `w`-byte spelling is the bytes found there, with the cursor
   after them, or `InsufficientData` when fewer than `w` bytes remain.
   */
  ghost predicate FieldRead(s: seq<bv8>, pos: nat, w: nat, r: Result<(nat, nat)>)
    requires pos <= |s|
  {
    && (r.Ok? <==> pos + w <= |s|)
    && (r.Err? ==> r.error == InsufficientData)
    && (r.Ok? ==> r.value.1 == pos + w && r.value.0 < Pow256(w) && FromUnsigned(r.value.0, w) == s[pos..pos + w])
  }

  /** `_re0` for the unsigned length formats `B`, `>H`, `>I`: a `w`-byte big-endian field. */
  function ReadUnsigned(s: seq<bv8>, pos: nat, w: nat): (r: Result<(nat, nat)>)
    requires pos <= |s|
    ensures FieldRead(s, pos, w, r)
  {
    var (field, next) :- ReadExact(s, pos, w);
    FromUnsignedOfUnsigned(field);
    Ok((Unsigned(field), next))
  }

  /**
   The number of bytes the `call`-th `read(k)` on the stream delivers when the
   cursor is at `cur`: what was asked for, capped by what is left and, when the
   transport's schedule `limits` covers that call, by its chunk limit. Past the
   end of the schedule the stream behaves like an in-memory file.
   */
  function Delivered(s: seq<bv8>, cur: nat, k: nat, limits: seq<nat>, call: nat): (d: nat)
    requires cur <= |s|
    ensures d <= k && cur + d <= |s|
    ensures d == 0 && k > 0 && (call >= |limits| || limits[call] > 0) ==> cur == |s|
  {
    var avail := Min(k, |s| - cur);
    if call < |limits| then Min(avail, limits[call]) else avail
  }

  /**
   The accumulation loop of `_read_except`: a first `read(n)` that delivers
   nothing fails; otherwise further reads for the remainder are appended until
   `n` bytes are in hand, and any read that delivers nothing fails.
   */
  method ReadExactChunked(s: seq<bv8>, pos: nat, n: nat, limits: seq<nat>) returns (r: Result<(seq<bv8>, nat)>)
    requires pos <= |s|
    ensures r.Ok? ==> r == ReadExact(s, pos, n)
    ensures r.Err? ==> r.error == InsufficientData
    ensures n == 0 ==> r == Ok(([], pos))
    ensures (forall i | 0 <= i < |limits| :: limits[i] > 0) ==> r == ReadExact(s, pos, n)
  {
    if n == 0 {
      return Ok(([], pos));
    }
    var first := Delivered(s, pos, n, limits, 0);
    var data := s[pos..pos + first];
    var cur := pos + first;
    var calls := 1;
    if |data| == 0 {
      return Err(InsufficientData);
    }
    while |data| < n
      invariant cur == pos + |data| <= |s|
      invariant data == s[pos..cur]
      invariant |data| <= n
      decreases n - |data|
    {
      var got := Delivered(s, cur, n - |data|, limits, calls);
      calls := calls + 1;
      if got == 0 {
        return Err(InsufficientData);
      }
      data := data + s[cur..cur + got];
      cur := cur + got;
    }
    return Ok((data, cur));
  }
}
