/** Numbers below 256 as bytes. */
module ByteCast {
  /**
   The byte whose value is `r`, reached by counting up from the zero byte;
   no step wraps around because `r` is below 256.
   */
  function ByteOf(r: nat): (b: bv8)
    requires r < 256
    ensures b as nat == r
  {
    if r == 0 then 0 else ByteOf(r - 1) + 1
  }

  /** A number below 256 survives the trip through a byte: `ByteOf(r)` is the byte `r as bv8`. */
  lemma ByteValue(r: nat)
    requires r < 256
    ensures (r as bv8) as nat == r
  {
    var b := ByteOf(r);
    assert (b as nat) as bv8 == b;
  }
}

/**
 Big-endian integers as the struct module reads them: an unsigned field is the
 base-256 number its bytes spell most-significant first (`B`, `>H`, `>I`, `>Q`),
 and a signed field is the same bytes read as two's complement (`b`, `>h`,
 `>i`, `>q`). The encoders `FromUnsigned` and `FromSigned` are the inverse
 functions; they serve as partners for the round-trip lemmas.
 */
module Bytes {
  import opened ByteCast

  /** 256^n, the number of values an n-byte field can hold. */
  function Pow256(n: nat): nat
  {
    if n == 0 then 1 else 256 * Pow256(n - 1)
  }

  /** 2^(8w-1): the weight of the sign bit of a w-byte field. */
  function Half(w: nat): nat
    requires w > 0
  {
    128 * Pow256(w - 1)
  }

  /** What some uint or int format of at most eight bytes can spell: from -2^63 up to 2^64 - 1. */
  predicate Representable(i: int)
  {
    -(Half(8) as int) <= i < Pow256(8)
  }

  /** The field sizes the integer formats use, and the sign weights that go with them. */
  lemma PowersOf256()
    ensures Pow256(1) == 0x100 && Pow256(2) == 0x1_0000 && Pow256(4) == 0x1_0000_0000
    ensures Pow256(8) == 0x1_0000_0000_0000_0000
    ensures Half(1) == 0x80 && Half(2) == 0x8000 && Half(4) == 0x8000_0000 && Half(8) == 0x8000_0000_0000_0000
  {
    assert Pow256(3) == 0x100_0000;
    assert Pow256(7) == 0x100_0000_0000_0000 by {
      assert Pow256(5) == 0x100_0000_0000;
      assert Pow256(6) == 0x1_0000_0000_0000;
    }
  }

  /** The value of a big-endian unsigned field. */
  function Unsigned(b: seq<bv8>): nat
  {
    if |b| == 0 then 0 else 256 * Unsigned(b[..|b| - 1]) + b[|b| - 1] as nat
  }

  /** The value of a big-endian two's-complement field: the sign bit is the top bit of the first byte. */
  function Signed(b: seq<bv8>): int
    requires |b| > 0
  {
    if b[0] >= 0x80 then Unsigned(b) - Pow256(|b|) else Unsigned(b)
  }

  /** The `w`-byte big-endian spelling of `x`. */
  function FromUnsigned(x: nat, w: nat): (b: seq<bv8>)
    requires x < Pow256(w)
    ensures |b| == w
  {
    if w == 0 then [] else FromUnsigned(x / 256, w - 1) + [(x % 256) as bv8]
  }

  /** The `w`-byte two's-complement spelling of `x`. */
  function FromSigned(x: int, w: nat): (b: seq<bv8>)
    requires w > 0 && -(Half(w) as int) <= x < Half(w)
    ensures |b| == w
  {
    FromUnsigned(if x < 0 then x + Pow256(w) else x, w)
  }

  /** A one-byte unsigned field is the byte itself. */
  lemma UnsignedByte(b: bv8)
    ensures Unsigned([b]) == b as int
  {
    assert [b][..0] == [];
  }

  /** An unsigned field of `|b|` bytes stays below 256^|b|. */
  lemma {:induction false} UnsignedBound(b: seq<bv8>)
    ensures Unsigned(b) < Pow256(|b|)
  {
    if |b| > 0 {
      UnsignedBound(b[..|b| - 1]);
    }
  }

  /** The top bit of the first byte is set exactly when the field's unsigned value reaches the sign weight. */
  lemma {:induction false} SignBit(b: seq<bv8>)
    requires |b| > 0
    ensures b[0] >= 0x80 <==> Unsigned(b) >= Half(|b|)
  {
    if |b| > 1 {
      var front := b[..|b| - 1];
      assert front[0] == b[0];
      SignBit(front);
    }
  }

  /** A signed field of `w` bytes lies in [-2^(8w-1), 2^(8w-1)), and is negative exactly when its sign bit is set. */
  lemma SignedBound(b: seq<bv8>)
    requires |b| > 0
    ensures -(Half(|b|) as int) <= Signed(b) < Half(|b|)
    ensures Signed(b) < 0 <==> b[0] >= 0x80
  {
    UnsignedBound(b);
    SignBit(b);
  }

  /** Reading back an encoded unsigned field gives the encoded number. */
  lemma {:induction false} UnsignedOfFromUnsigned(x: nat, w: nat)
    requires x < Pow256(w)
    ensures Unsigned(FromUnsigned(x, w)) == x
  {
    if w > 0 {
      var q, r := x / 256, x % 256;
      assert q < Pow256(w - 1);
      var b := FromUnsigned(x, w);
      assert b == FromUnsigned(q, w - 1) + [r as bv8];
      ByteValue(r);
      assert b[..w - 1] == FromUnsigned(q, w - 1);
      UnsignedOfFromUnsigned(q, w - 1);
      assert Unsigned(b) == 256 * q + r;
    }
  }

  /** Encoding the value of a field reproduces the field's bytes. */
  lemma {:induction false} FromUnsignedOfUnsigned(b: seq<bv8>)
    ensures Unsigned(b) < Pow256(|b|)
    ensures FromUnsigned(Unsigned(b), |b|) == b
  {
    UnsignedBound(b);
    if |b| > 0 {
      var front := b[..|b| - 1];
      FromUnsignedOfUnsigned(front);
      assert Unsigned(b) / 256 == Unsigned(front);
      assert b == front + [b[|b| - 1]];
    }
  }

  /** Reading back an encoded two's-complement field gives the encoded number. */
  lemma SignedOfFromSigned(x: int, w: nat)
    requires w > 0 && -(Half(w) as int) <= x < Half(w)
    ensures Signed(FromSigned(x, w)) == x
  {
    var u := if x < 0 then x + Pow256(w) else x;
    UnsignedOfFromUnsigned(u, w);
    SignBit(FromSigned(x, w));
  }

  /** Encoding the value of a signed field reproduces the field's bytes. */
  lemma FromSignedOfSigned(b: seq<bv8>)
    requires |b| > 0
    ensures -(Half(|b|) as int) <= Signed(b) < Half(|b|)
    ensures FromSigned(Signed(b), |b|) == b
  {
    SignedBound(b);
    FromUnsignedOfUnsigned(b);
  }
}
