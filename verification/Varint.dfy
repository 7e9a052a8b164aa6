// Base 128 varints: what they mean, and the generated loops that read and
// write them.
module Varint {
  import opened Bits
  import opened Wrappers

  // The exact value of a group sequence, least significant group first.
  function Raw(bs: bytes): nat {
    if bs == [] then 0 else bs[0] % 128 + 128 * Raw(bs[1..])
  }

  // A varint as it may occur on the wire: at most ten bytes, only the last
  // without the continuation bit.  It need not be the shortest form.
  predicate IsVarint(bs: bytes) {
    && 1 <= |bs| <= 10
    && bs[|bs| - 1] < 0x80
    && forall k :: 0 <= k < |bs| - 1 ==> bs[k] >= 0x80
  }

  // Length of the varint at the start of s, scanning from byte k.
  function VarintEnd(s: bytes, k: nat): (r: Option<nat>)
    ensures r.Some? ==> k < r.value <= |s| && r.value <= 10
    decreases 10 - k
  {
    if k >= 10 || k >= |s| then None
    else if s[k] < 0x80 then Some(k + 1)
    else VarintEnd(s, k + 1)
  }

  // The varint at the start of s: its value modulo 2^64 and its length.
  function ReadVarint(s: bytes): (r: Option<(uint64, nat)>)
    ensures r.Some? ==> 1 <= r.value.1 <= |s| && r.value.1 <= 10
  {
    match VarintEnd(s, 0)
    case Some(n) => Some((Raw(s[..n]) % TWO64, n))
    case None => None
  }

  // Reading at an index of a slice: a negative index is out of range.
  function ReadVarintAt(data: bytes, i: int): Result<(uint64, nat)> {
    if i < 0 then Panic
    else if i > |data| then Err
    else match ReadVarint(data[i..])
         case Some(p) => Ok(p)
         case None => Err
  }

  // The shortest form, which the encoder writes.
  function EncVarint(v: nat): (bs: bytes)
    ensures |bs| >= 1
  {
    if v < 128 then [v] else [v % 128 + 128] + EncVarint(v / 128)
  }

  // The size formula of the generated code.
  function Sov(x: uint64): nat {
    (BitLen(Or(x, 1)) + 6) / 7
  }

  lemma {:induction false} RawAppend(bs: bytes, b: byte)
    ensures Raw(bs + [b]) == Raw(bs) + (b % 128) * Pow2(7 * |bs|)
  {
    if bs == [] {
      assert bs + [b] == [b];
    } else {
      assert (bs + [b])[1..] == bs[1..] + [b];
      RawAppend(bs[1..], b);
      var z := Pow2(7 * |bs[1..]|);
      Pow2Add(7, 7 * |bs[1..]|);
      Pow2Values();
      MulSwap(b % 128, 128, z);
      assert 128 * ((b % 128) * z) == (b % 128) * z * 128;
      assert (b % 128) * (128 * z) == ((b % 128) * z) * 128;
    }
  }

  lemma {:induction false} RawBound(bs: bytes)
    ensures Raw(bs) < Pow2(7 * |bs|)
  {
    if bs != [] {
      RawBound(bs[1..]);
      Pow2Add(7, 7 * |bs[1..]|);
      Pow2Values();
    }
  }

  lemma {:induction false} VarintEndScan(s: bytes, k: nat)
    ensures match VarintEnd(s, k)
            case Some(n) => s[n - 1] < 0x80 && forall j :: k <= j < n - 1 ==> s[j] >= 0x80
            case None => forall j :: k <= j < |s| && j < 10 ==> s[j] >= 0x80
    decreases 10 - k
  {
    if k < 10 && k < |s| && s[k] >= 0x80 {
      VarintEndScan(s, k + 1);
    }
  }

  lemma VarintEndExact(raw: bytes, t: bytes)
    requires IsVarint(raw)
    ensures VarintEnd(raw + t, 0) == Some(|raw|)
  {
    var s := raw + t;
    VarintEndScan(s, 0);
    assert forall k :: 0 <= k < |raw| ==> s[k] == raw[k];
    assert s[|raw| - 1] < 0x80;
  }

  // The reader accepts exactly the varints, whatever follows them.
  lemma ReadVarintExact(raw: bytes, t: bytes)
    requires IsVarint(raw)
    ensures ReadVarint(raw + t) == Some((Raw(raw) % TWO64, |raw|))
  {
    VarintEndExact(raw, t);
    assert (raw + t)[..|raw|] == raw;
  }

  lemma ReadVarintSplits(s: bytes)
    ensures match ReadVarint(s)
            case Some((v, n)) => IsVarint(s[..n]) && v == Raw(s[..n]) % TWO64
            case None => forall n :: 0 <= n <= |s| ==> !IsVarint(s[..n])
  {
    VarintEndScan(s, 0);
    if ReadVarint(s).Some? {
    } else {
      forall n | 0 <= n <= |s|
        ensures !IsVarint(s[..n])
      {
        assert forall k :: 0 <= k < n ==> s[..n][k] == s[k];
      }
    }
  }

  lemma ReadVarintExtends(s: bytes, t: bytes)
    requires ReadVarint(s).Some?
    ensures ReadVarint(s + t) == ReadVarint(s)
  {
    var n := ReadVarint(s).value.1;
    ReadVarintSplits(s);
    ReadVarintExact(s[..n], s[n..] + t);
    assert s[..n] + (s[n..] + t) == s + t;
  }

  lemma EncVarintStep(v: nat)
    ensures v < 128 ==> EncVarint(v) == [v]
    ensures v >= 128 ==> EncVarint(v) == [v % 128 + 128] + EncVarint(v / 128)
  {
  }

  lemma DivBound(v: nat, n: nat)
    requires v < Pow2(n + 7)
    ensures v / 128 < Pow2(n)
  {
    Pow2Values();
    Pow2Add(7, n);
  }

  lemma {:induction false} EncVarintIsVarint(v: nat, n: nat)
    requires v < Pow2(7 * n + 1) && n <= 9
    ensures |EncVarint(v)| <= n + 1
    ensures IsVarint(EncVarint(v)) && Raw(EncVarint(v)) == v
    decreases v
  {
    EncVarintStep(v);
    if v < 128 {
      assert Raw([v]) == v % 128 + 128 * Raw([v][1..]);
    } else {
      assert n > 0;
      hide Pow2, EncVarint;
      DivBound(v, 7 * (n - 1) + 1);
      EncVarintIsVarint(v / 128, n - 1);
      ConsVarint(v % 128 + 128, EncVarint(v / 128));
    }
  }

  lemma ConsVarint(b: byte, e: bytes)
    requires b >= 128 && IsVarint(e) && |e| <= 9
    ensures IsVarint([b] + e) && Raw([b] + e) == b % 128 + 128 * Raw(e)
  {
    assert ([b] + e)[1..] == e;
  }

  // Reading back what the encoder writes, whatever follows.
  lemma VarintInverse(v: uint64, t: bytes)
    ensures 1 <= |EncVarint(v)| <= 10
    ensures IsVarint(EncVarint(v)) && Raw(EncVarint(v)) == v
    ensures ReadVarint(EncVarint(v) + t) == Some((v, |EncVarint(v)|))
  {
    hide *;
    var e := EncVarint(v);
    assert v < Pow2(7 * 9 + 1) by {
      Pow2Values();
    }
    EncVarintIsVarint(v, 9);
    ReadVarintExact(e, t);
    SmallValue(Raw(e), v);
  }

  lemma SmallValue(raw: nat, v: uint64)
    requires raw == v
    ensures raw % TWO64 == v
  {
  }

  lemma {:induction false} BitLenShift(x: nat, s: nat)
    requires x >= Pow2(s)
    ensures BitLen(x) == s + BitLen(x / Pow2(s))
  {
    if s > 0 {
      BitLenShift(x / 2, s - 1);
      DivTwice(x, Pow2(s - 1));
    }
  }

  lemma BitLenSeven(w: nat)
    requires w > 0
    ensures BitLen(w) >= 1
    ensures w < 128 ==> BitLen(w) <= 7
    ensures w >= 128 ==> BitLen(w) == 7 + BitLen(w / 128)
  {
    assert Pow2(7) == 128 by { Pow2Values(); }
    if w < 128 {
      BitLenBound(w, 7);
    } else {
      BitLenShift(w, 7);
    }
  }

  lemma {:induction false} OddBits(v: uint64)
    ensures (BitLen(2 * (v / 2) + 1) + 6) / 7 == |EncVarint(v)|
  {
    hide *;
    EncVarintStep(v);
    BitLenSeven(2 * (v / 2) + 1);
    if v >= 128 {
      OddBits(v / 128);
      BitLenOdd(v / 128);
      OddShift(v);
      CeilStep(BitLen(2 * (v / 128 / 2) + 1));
    }
  }

  lemma OddShift(v: nat)
    ensures (2 * (v / 2) + 1) / 128 == v / 128
  {
  }

  lemma CeilStep(x: nat)
    ensures (7 + x + 6) / 7 == 1 + (x + 6) / 7
  {
  }

  lemma BitLenOdd(u: nat)
    requires u > 0
    ensures BitLen(2 * (u / 2) + 1) == BitLen(u)
  {
    assert (2 * (u / 2) + 1) / 2 == u / 2;
  }

  // The closed form counts exactly the bytes the loop writes.
  lemma SovExact(v: uint64)
    ensures Sov(v) == |EncVarint(v)|
    ensures 1 <= Sov(v) <= 10
  {
    VarintInverse(v, []);
    assert Or(v, 1) == 2 * (v / 2) + 1 by { Masks(v); }
    OddBits(v);
  }

  lemma {:induction false} BitLenBound(x: nat, s: nat)
    requires x < Pow2(s)
    ensures BitLen(x) <= s
  {
    if x > 0 && s > 0 {
      BitLenBound(x / 2, s - 1);
    }
  }

  // A negative signed value always takes the full ten bytes.
  lemma NegativeTakesTenBytes(x: int64)
    requires x < 0
    ensures |EncVarint(ToUint64(x))| == 10
  {
    Pow2Values();
    Pow2Add(63, 1);
    assert Pow2(1) == 2;
    EncVarintLong(ToUint64(x), 9);
    VarintInverse(ToUint64(x), []);
  }

  lemma {:induction false} EncVarintLong(v: nat, n: nat)
    requires v >= Pow2(7 * n)
    ensures |EncVarint(v)| >= n + 1
  {
    if n > 0 {
      Pow2Values();
      Pow2Add(7, 7 * (n - 1));
      EncVarintLong(v / 128, n - 1);
    }
  }

  // The two signed decode loops keep exactly the low bits, so every int64 and
  // every int32 survives its sign-extended encoding.
  lemma SignedRoundTrip(x: int64)
    ensures ToUint64(x) == if x < 0 then x + 0x1_0000_0000_0000_0000 else x
    ensures ToInt64(ToUint64(x)) == x
    ensures -0x8000_0000 <= x < 0x8000_0000 ==> ToInt32(ToUint64(x) % TWO32) == x
  {
  }

  // The backwards writer: x has been written just below index end, down to
  // index i, and every other byte of the buffer is as before.
  predicate Written(before: bytes, now: bytes, i: nat, end: nat, x: bytes) {
    && |now| == |before|
    && i + |x| == end <= |before|
    && now[..i] == before[..i]
    && now[i..end] == x
    && now[end..] == before[end..]
  }

  // Writing y below x leaves y followed by x.
  lemma WrittenThen(a: bytes, b: bytes, c: bytes, j: nat, i: nat, end: nat, y: bytes, x: bytes)
    requires Written(a, b, i, end, x) && Written(b, c, j, i, y)
    ensures Written(a, c, j, end, y + x)
  {
    assert c[..j] == b[..i][..j];
    assert c[i..end] == c[i..][..end - i];
    assert b[i..end] == b[i..][..end - i];
    assert c[j..end] == c[j..i] + c[i..end];
    assert c[end..] == c[i..][end - i..];
    assert b[end..] == b[i..][end - i..];
  }

  // encodeVarintGenerated: reserve Sov(v) bytes below offset and fill them
  // upwards.  Returns the index of the first byte.
  method EncodeVarint(dAtA: array<byte>, offset: nat, v: uint64) returns (base: nat)
    requires Sov(v) <= offset <= dAtA.Length
    modifies dAtA
    ensures Written(old(dAtA[..]), dAtA[..], base, offset, EncVarint(v))
  {
    hide *;
    SovExact(v);
    var off := offset - Sov(v);
    base := off;
    var x: nat := v;
    ghost var done: bytes := [];
    ghost var before := dAtA[..];
    while x >= 0x80
      invariant 0 <= base <= off && off + |EncVarint(x)| == offset <= dAtA.Length
      invariant dAtA[base..off] == done && done + EncVarint(x) == EncVarint(v)
      invariant dAtA[..base] == before[..base] && dAtA[offset..] == before[offset..]
    {
      Masks(x);
      EncVarintStep(x);
      var b: byte := Or(And(x, 0x7F), 0x80) % 256;
      Assoc(done, [b], EncVarint(x / 128));
      dAtA[off] := b;
      done := done + [b];
      x := Shr(x, 7);
      off := off + 1;
    }
    EncVarintStep(x);
    dAtA[off] := x % 256;
    assert dAtA[base..offset] == dAtA[base..off] + [x];
    WrittenArray(before, dAtA, base, offset, EncVarint(v));
  }

  // A write of the whole buffer starts at its first byte: dAtA[:n] is all of it.
  lemma WrittenWhole(before: bytes, now: bytes, i: int, x: bytes)
    requires i == |before| - |x| == 0 && Written(before, now, i, |before|, x)
    ensures now[..|x|] == x
  {
  }

  lemma WrittenArray(before: bytes, dAtA: array<byte>, i: nat, end: nat, x: bytes)
    requires |before| == dAtA.Length && i + |x| == end <= dAtA.Length
    requires dAtA[..i] == before[..i] && dAtA[i..end] == x && dAtA[end..] == before[end..]
    ensures Written(before, dAtA[..], i, end, x)
  {
    assert dAtA[..][..i] == dAtA[..i];
    assert dAtA[..][i..end] == dAtA[i..end];
    assert dAtA[..][end..] == dAtA[end..];
  }

  // The shift-or loop with a uint64 accumulator (tags and string lengths).
  method ReadUint64(data: bytes, i: int) returns (r: Result<uint64>, next: int)
    ensures match ReadVarintAt(data, i)
            case Ok((v, n)) => r == Ok(v) && next == i + n
            case Err => r == Err
            case Panic => r == Panic
  {
    hide Or, And, Shl, Pow2;
    var acc: uint64 := 0;
    var shift := 0;
    next := i;
    ghost var s := if 0 <= i <= |data| then data[i..] else [];
    ghost var k := 0;
    Pow2Values();
    while true
      invariant shift == 7 * k && next == i + k && k <= 10
      invariant k > 0 ==> 0 <= i && k <= |s| && |s| == |data| - i
      invariant VarintEnd(s, 0) == VarintEnd(s, k)
      invariant acc == Raw(s[..if k <= |s| then k else 0]) % TWO64
      decreases 10 - k
    {
      if shift >= 64 {
        return Err, next;
      }
      if next >= |data| {
        return Err, next;
      }
      if next < 0 {
        return Panic, next;
      }
      var b := data[next];
      next := next + 1;
      Masks(b);
      RawStep(s, k, 64);
      acc := Or(acc, Shl(64, And(b, 0x7F), shift));
      if b < 0x80 {
        return Ok(acc), next;
      }
      shift := shift + 7;
      k := k + 1;
    }
  }

  lemma SignedPattern(p: nat)
    ensures p < TWO64 ==> ToUint64(ToInt64(p)) == p
    ensures p < TWO32 ==> ToUint32(ToInt32(p)) == p
  {
  }

  lemma LowBits(raw: nat)
    ensures (raw % TWO64) % TWO32 == raw % TWO32
  {
    var d := raw / TWO64;
    assert raw == d * TWO64 + raw % TWO64;
    ModShift(raw % TWO64, d * TWO32, TWO32);
  }

  lemma RawStep(s: bytes, k: nat, w: nat)
    requires k < |s|
    ensures Or(Raw(s[..k]) % Pow2(w), Shl(w, s[k] % 128, 7 * k)) == Raw(s[..k + 1]) % Pow2(w)
  {
    assert s[..k + 1] == s[..k] + [s[k]];
    RawAppend(s[..k], s[k]);
    RawBound(s[..k]);
    OrShl(w, Raw(s[..k]), s[k] % 128, 7 * k);
  }

  // The shift-or loop with an int or int64 accumulator (message lengths and
  // int64 fields): bit 63 of the pattern is the sign.
  method ReadInt64(data: bytes, i: int) returns (r: Result<int64>, next: int)
    ensures match ReadVarintAt(data, i)
            case Ok((v, n)) => r == Ok(ToInt64(v)) && next == i + n
            case Err => r == Err
            case Panic => r == Panic
  {
    hide Or, And, Shl, Pow2;
    var acc: int64 := 0;
    var shift := 0;
    next := i;
    ghost var s := if 0 <= i <= |data| then data[i..] else [];
    ghost var k := 0;
    Pow2Values();
    while true
      invariant shift == 7 * k && next == i + k && k <= 10
      invariant k > 0 ==> 0 <= i && k <= |s| && |s| == |data| - i
      invariant VarintEnd(s, 0) == VarintEnd(s, k)
      invariant acc == ToInt64(Raw(s[..if k <= |s| then k else 0]) % TWO64)
      decreases 10 - k
    {
      if shift >= 64 {
        return Err, next;
      }
      if next >= |data| {
        return Err, next;
      }
      if next < 0 {
        return Panic, next;
      }
      var b := data[next];
      next := next + 1;
      Masks(b);
      RawStep(s, k, 64);
      SignedPattern(Raw(s[..k]) % TWO64);
      acc := ToInt64(Or(ToUint64(acc), Shl(64, And(b, 0x7F), shift)));
      if b < 0x80 {
        return Ok(acc), next;
      }
      shift := shift + 7;
      k := k + 1;
    }
  }

  // The shift-or loop with an int32 accumulator: a group shifted past bit 31
  // contributes nothing.
  method ReadInt32(data: bytes, i: int) returns (r: Result<int32>, next: int)
    ensures match ReadVarintAt(data, i)
            case Ok((v, n)) => r == Ok(ToInt32(v % TWO32)) && next == i + n
            case Err => r == Err
            case Panic => r == Panic
  {
    hide Or, And, Shl, Pow2;
    var acc: int32 := 0;
    var shift := 0;
    next := i;
    ghost var s := if 0 <= i <= |data| then data[i..] else [];
    ghost var k := 0;
    Pow2Values();
    while true
      invariant shift == 7 * k && next == i + k && k <= 10
      invariant k > 0 ==> 0 <= i && k <= |s| && |s| == |data| - i
      invariant VarintEnd(s, 0) == VarintEnd(s, k)
      invariant acc == ToInt32(Raw(s[..if k <= |s| then k else 0]) % TWO32)
      decreases 10 - k
    {
      if shift >= 64 {
        return Err, next;
      }
      if next >= |data| {
        return Err, next;
      }
      if next < 0 {
        return Panic, next;
      }
      var b := data[next];
      next := next + 1;
      Masks(b);
      RawStep(s, k, 32);
      SignedPattern(Raw(s[..k]) % TWO32);
      acc := ToInt32(Or(ToUint32(acc), Shl(32, And(b, 0x7F), shift)));
      if b < 0x80 {
        LowBits(Raw(s[..k + 1]));
        return Ok(acc), next;
      }
      shift := shift + 7;
      k := k + 1;
    }
  }
}
