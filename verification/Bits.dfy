// Fixed-width integer arithmetic of the generated codec, over mathematical
// integers.  A Go unsigned value is the natural number of its bit pattern;
// signed values are recovered from the pattern by two's complement.
module Bits {

  const TWO32: nat := 0x1_0000_0000
  const TWO64: nat := 0x1_0000_0000_0000_0000

  // The largest Go int on a 64-bit platform, hence the longest slice.
  const MAX_INT: nat := 0x7FFF_FFFF_FFFF_FFFF

  type byte = x: int | 0 <= x < 256
  type bytes = seq<byte>
  type uint64 = x: int | 0 <= x < TWO64
  type int64 = x: int | -0x8000_0000_0000_0000 <= x <= 0x7FFF_FFFF_FFFF_FFFF
  type int32 = x: int | -0x8000_0000 <= x < 0x8000_0000

  function Pow2(n: nat): (p: nat)
    ensures p > 0
  {
    if n == 0 then 1 else 2 * Pow2(n - 1)
  }

  // Bitwise or and bitwise and of two bit patterns.
  function Or(x: nat, y: nat): nat
    decreases x + y
  {
    if x + y == 0 then 0
    else 2 * Or(x / 2, y / 2) + (if x % 2 == 1 || y % 2 == 1 then 1 else 0)
  }

  function And(x: nat, y: nat): nat
    decreases x + y
  {
    if x + y == 0 then 0
    else 2 * And(x / 2, y / 2) + (if x % 2 == 1 && y % 2 == 1 then 1 else 0)
  }

  // Left shift of a w-bit pattern: bits shifted past the width are lost.
  function Shl(w: nat, x: nat, s: nat): nat {
    (x * Pow2(s)) % Pow2(w)
  }

  function Shr(x: nat, s: nat): nat {
    if s == 0 then x else Shr(x / 2, s - 1)
  }

  // math/bits.Len64: the number of bits needed to write x.
  function BitLen(x: nat): nat {
    if x == 0 then 0 else 1 + BitLen(x / 2)
  }

  // Conversions between signed values and their bit patterns.
  function ToInt64(p: nat): int64
    requires p < TWO64
  {
    if p > MAX_INT then p - TWO64 else p
  }

  function ToInt32(p: nat): int32
    requires p < TWO32
  {
    if p >= 0x8000_0000 then p - TWO32 else p
  }

  // uint64(x) for a signed x of any width: sign extension.
  function ToUint64(x: int64): uint64 {
    x % TWO64
  }

  function ToUint32(x: int32): (p: nat)
    ensures p < TWO32
  {
    x % TWO32
  }

  // The value an int variable holds after an addition whose exact result is x.
  function Wrap64(x: int): int64 {
    ToInt64(x % TWO64)
  }

  lemma Assoc(a: bytes, b: bytes, c: bytes)
    ensures (a + b) + c == a + (b + c)
  {
  }

  lemma Pow2Values()
    ensures Pow2(3) == 8 && Pow2(7) == 128 && Pow2(8) == 256 && Pow2(32) == TWO32 && Pow2(64) == TWO64
  {
    assert Pow2(3) == 8;
    Pow2Add(3, 4);
    assert Pow2(4) == 16;
    Pow2Add(4, 4);
    hide Pow2;
    Pow2Add(8, 8);
    Pow2Add(16, 16);
    Pow2Add(32, 32);
  }

  lemma {:induction false} Pow2Add(a: nat, b: nat)
    ensures Pow2(a + b) == Pow2(a) * Pow2(b)
  {
    if a > 0 {
      Pow2Add(a - 1, b);
      assert Pow2(a + b) == 2 * Pow2(a - 1 + b);
    }
  }

  lemma {:induction false} OrZero(x: nat)
    ensures Or(x, 0) == x && Or(0, x) == x
  {
    if x > 0 {
      OrZero(x / 2);
    }
  }

  // Two patterns without a common bit: the high part is a multiple of 2^s and
  // the low part is below 2^s.
  lemma {:induction false} OrDisjoint(x: nat, y: nat, s: nat)
    requires x < Pow2(s)
    ensures Or(x, y * Pow2(s)) == x + y * Pow2(s)
  {
    if s == 0 {
      OrZero(y);
    } else {
      var p := y * Pow2(s - 1);
      assert y * Pow2(s) == 2 * p;
      OrDisjoint(x / 2, y, s - 1);
      if x + 2 * p > 0 {
        assert (2 * p) / 2 == p && (2 * p) % 2 == 0;
      }
    }
  }

  lemma {:induction false} AndMask(x: nat, s: nat)
    ensures And(x, Pow2(s) - 1) == x % Pow2(s)
  {
    if s == 0 {
      AndZero(x);
    } else {
      var q := Pow2(s - 1);
      AndMask(x / 2, s - 1);
      assert (2 * q - 1) / 2 == q - 1 && (2 * q - 1) % 2 == 1;
      ModDouble(x, q);
    }
  }

  lemma {:induction false} AndZero(x: nat)
    ensures And(x, 0) == 0
  {
    if x > 0 {
      AndZero(x / 2);
    }
  }

  lemma ModUnique(x: int, m: int, d: int, r: int)
    requires m > 0 && x == d * m + r && 0 <= r < m
    ensures x % m == r && x / m == d
  {
    var e := x / m - d;
    assert e * m == r - x % m by {
      assert x == (x / m) * m + x % m;
      assert (x / m - d) * m == (x / m) * m - d * m;
    }
    assert e == 0;
  }

  lemma ModDouble(x: nat, q: nat)
    requires q > 0
    ensures x % (2 * q) == 2 * ((x / 2) % q) + x % 2
  {
    var d, r := (x / 2) / q, (x / 2) % q;
    assert x / 2 == d * q + r;
    assert d * (2 * q) == 2 * (d * q);
    ModUnique(x, 2 * q, d, 2 * r + x % 2);
  }

  lemma DivTwice(x: nat, q: nat)
    requires q > 0
    ensures (x / 2) / q == x / (2 * q)
  {
    var d, r := (x / 2) / q, (x / 2) % q;
    assert x / 2 == d * q + r;
    assert d * (2 * q) == 2 * (d * q);
    ModUnique(x, 2 * q, d, 2 * r + x % 2);
  }

  lemma {:induction false} ShrDiv(x: nat, s: nat)
    ensures Shr(x, s) == x / Pow2(s)
  {
    if s > 0 {
      ShrDiv(x / 2, s - 1);
      DivTwice(x, Pow2(s - 1));
    }
  }

  // The masks of the varint loops, in arithmetic form.
  lemma Masks(v: nat)
    ensures And(v, 0x7F) == v % 128
    ensures Or(And(v, 0x7F), 0x80) == v % 128 + 128
    ensures Shr(v, 7) == v / 128
    ensures And(v, 0x7) == v % 8
    ensures Shr(v, 3) == v / 8
    ensures Or(v, 1) == 2 * (v / 2) + 1
  {
    Pow2Values();
    OrOne(v);
    hide And, Or, Shr, Pow2;
    AndMask(v, 7);
    AndMask(v, 3);
    OrDisjoint(v % 128, 1, 7);
    ShrDiv(v, 7);
    ShrDiv(v, 3);
  }

  lemma OrOne(v: nat)
    ensures Or(v, 1) == 2 * (v / 2) + 1
  {
    OrZero(v / 2);
    assert (2 * Or(v / 2, 0)) == 2 * (v / 2);
  }

  // One step of a shift-or loop of width w: when the bits collected so far
  // have value raw < 2^s, or-ing in the next group keeps the low w bits of the
  // exact value.
  lemma OrShl(w: nat, raw: nat, y: nat, s: nat)
    requires raw < Pow2(s)
    ensures Or(raw % Pow2(w), Shl(w, y, s)) == (raw + y * Pow2(s)) % Pow2(w)
  {
    if s < w {
      Pow2Add(s, w - s);
      var q, z := Pow2(w - s), Pow2(s);
      ModScale(raw, y, z, q);
      assert raw % (z * q) == raw by { ModScale(raw, 0, z, q); }
      assert (y * z) % (z * q) == (y % q) * z by { ModScale(0, y, z, q); }
      OrDisjoint(raw, y % q, s);
    } else {
      Pow2Add(w, s - w);
      var p, z := Pow2(w), Pow2(s - w);
      var k := y * z;
      assert y * Pow2(s) == k * p by { MulSwap(y, p, z); }
      ModUnique(k * p, p, k, 0);
      OrZero(raw % p);
      ModShift(raw, k, p);
    }
  }

  lemma MulSwap(y: nat, p: nat, z: nat)
    ensures y * (p * z) == (y * z) * p
  {
  }

  lemma ModShift(raw: nat, k: nat, p: nat)
    requires p > 0
    ensures (raw + k * p) % p == raw % p
  {
    var d := raw / p;
    assert raw == d * p + raw % p;
    assert (d + k) * p == d * p + k * p;
    ModUnique(raw + k * p, p, d + k, raw % p);
  }

  lemma ModScale(raw: nat, y: nat, z: nat, q: nat)
    requires q > 0 && raw < z
    ensures z * q > 0
    ensures (raw + y * z) % (z * q) == raw + (y % q) * z
  {
    var d, r := y / q, y % q;
    ScaleSplit(d, q, r, z);
    ScaleBound(r, q, z);
    ModUnique(raw + y * z, z * q, d, raw + r * z);
  }

  lemma ScaleSplit(d: nat, q: nat, r: nat, z: nat)
    ensures (d * q + r) * z == d * (z * q) + r * z
  {
    MulSwap(d, z, q);
    assert d * z * q == d * q * z;
  }

  lemma ScaleBound(r: nat, q: nat, z: nat)
    requires r < q && z > 0
    ensures r * z + z <= z * q && z * q > 0
  {
    MulMono(r + 1, q, z);
    assert (r + 1) * z == r * z + z;
  }

  lemma {:induction false} MulMono(a: nat, b: nat, z: nat)
    requires a <= b
    ensures a * z <= b * z
    decreases b
  {
    if a < b {
      MulMono(a, b - 1, z);
      assert b * z == (b - 1) * z + z;
    }
  }
}
