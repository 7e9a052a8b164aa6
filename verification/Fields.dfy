// Fields as the generated code writes and reads them: shortest varints,
// one-byte tags.
module Fields {
  import opened Bits
  import opened Wrappers
  import opened Varint
  import opened Wire
  import opened Decoder

  // A Go slice or map: nil, or a possibly empty value.
  datatype Nilable<+T> = Nil | Made(made: T)

  function Elems<T>(s: Nilable<seq<T>>): seq<T> {
    if s.Nil? then [] else s.made
  }

  // A slice with one more element.
  function Append<T>(s: Nilable<seq<T>>, x: T): Nilable<seq<T>> {
    Made(Elems(s) + [x])
  }

  function AppendAll<T>(s: Nilable<seq<T>>, xs: seq<T>): Nilable<seq<T>> {
    if xs == [] then s else Made(Elems(s) + xs)
  }

  // What is left of a slice once it has been encoded and decoded.
  function NormSlice<T>(s: Nilable<seq<T>>): Nilable<seq<T>> {
    if Elems(s) == [] then Nil else s
  }

  // A varint field and a length-delimited field.
  function Num(tag: byte, v: nat): Record {
    Record([tag], VarintValue(EncVarint(v)))
  }

  function Str(tag: byte, s: bytes): Record {
    Record([tag], Bytes(EncVarint(|s|), s))
  }

  function Strs(tag: byte, ss: seq<bytes>): seq<Record> {
    seq(|ss|, i requires 0 <= i < |ss| => Str(tag, ss[i]))
  }

  lemma TagValue(tag: byte)
    requires tag < 128
    ensures IsVarint([tag]) && Value([tag]) == tag && FieldNumber(tag) == tag / 8
  {
    assert Raw([tag]) == tag % 128 + 128 * Raw([tag][1..]);
  }

  lemma NumWellFormed(tag: byte, v: uint64)
    requires tag < 128 && tag % 8 == 0
    ensures WellFormed(Num(tag, v)) && Value(EncVarint(v)) == v
  {
    TagValue(tag);
    hide IsVarint, Raw, EncVarint;
    VarintInverse(v, []);
  }

  lemma StrWellFormed(tag: byte, s: bytes)
    requires tag < 128 && tag % 8 == 2 && |s| <= MAX_INT
    ensures WellFormed(Str(tag, s))
  {
    TagValue(tag);
    hide IsVarint, Raw, EncVarint;
    VarintInverse(|s|, []);
  }

  lemma StrsWellFormed(tag: byte, ss: seq<bytes>)
    requires tag < 128 && tag % 8 == 2
    requires forall i :: 0 <= i < |ss| ==> |ss[i]| <= MAX_INT
    ensures WellFormedAll(Strs(tag, ss))
  {
    forall i | 0 <= i < |ss|
      ensures WellFormed(Strs(tag, ss)[i])
    {
      StrWellFormed(tag, ss[i]);
    }
  }

  // The same, given that the encoding is short enough to be a slice.
  lemma StrFits(tag: byte, s: bytes)
    requires tag < 128 && tag % 8 == 2 && |EncAll([Str(tag, s)])| <= MAX_INT
    ensures WellFormedAll([Str(tag, s)])
  {
    EncAllOne(Str(tag, s));
    EncStr(tag, s);
    StrWellFormed(tag, s);
  }

  lemma StrsFit(tag: byte, ss: seq<bytes>)
    requires tag < 128 && tag % 8 == 2 && |EncAll(Strs(tag, ss))| <= MAX_INT
    ensures WellFormedAll(Strs(tag, ss))
  {
    forall i | 0 <= i < |ss|
      ensures |ss[i]| <= MAX_INT
    {
      EncAllAt(Strs(tag, ss), i);
      EncStr(tag, ss[i]);
    }
    StrsWellFormed(tag, ss);
  }

  // A part of an encoding is no longer than the whole.
  lemma {:induction false} EncAllAt(rs: seq<Record>, i: nat)
    requires i < |rs|
    ensures |Enc(rs[i])| <= |EncAll(rs)|
  {
    hide Enc;
    if i > 0 {
      EncAllAt(rs[1..], i - 1);
    }
  }

  lemma {:induction false} FoldAppend<M>(sch: Schema<M>, a: seq<Record>, b: seq<Record>, m: M)
    ensures Fold(sch, a + b, m) == (match Fold(sch, a, m)
                                    case Ok(m') => Fold(sch, b, m')
                                    case Err => Err
                                    case Panic => Panic)
  {
    hide Apply;
    if a == [] {
      assert a + b == b;
    } else {
      assert (a + b)[1..] == a[1..] + b;
      if Apply(sch, m, a[0]).Ok? {
        FoldAppend(sch, a[1..], b, Apply(sch, m, a[0]).value);
      }
    }
  }

  lemma FoldOne<M>(sch: Schema<M>, r: Record, m: M)
    ensures Fold(sch, [r], m) == Apply(sch, m, r)
  {
    hide Apply;
    assert [r][1..] == [];
  }

  lemma FoldNone<M>(sch: Schema<M>, rs: seq<Record>, m: M)
    requires rs == []
    ensures Fold(sch, rs, m) == Ok(m)
  {
  }

  lemma FoldCons<M>(sch: Schema<M>, r: Record, rs: seq<Record>, m: M)
    requires Apply(sch, m, r).Ok?
    ensures Fold(sch, [r] + rs, m) == Fold(sch, rs, Apply(sch, m, r).value)
  {
    hide Apply;
    assert ([r] + rs)[1..] == rs;
  }

  lemma AppendAllStep<T>(s: Nilable<seq<T>>, xs: seq<T>)
    requires xs != []
    ensures AppendAll(Append(s, xs[0]), xs[1..]) == AppendAll(s, xs)
  {
    if |xs| == 1 {
      assert xs == [xs[0]];
    }
    assert Elems(s) + [xs[0]] + xs[1..] == Elems(s) + xs;
  }

  lemma AppendAllToNil<T>(s: Nilable<seq<T>>)
    ensures AppendAll(Nil, Elems(s)) == NormSlice(s)
  {
    assert [] + Elems(s) == Elems(s);
  }

  // What one written field means to a schema.
  lemma ApplyStr<M>(sch: Schema<M>, tag: byte, s: bytes, m: M)
    requires tag < 128 && tag % 8 == 2 && tag / 8 > 0 && sch(tag / 8).Delimited?
    ensures Apply(sch, m, Str(tag, s)) == sch(tag / 8).step(m, 0, s, [])
  {
    TagValue(tag);
  }

  lemma ApplyNum<M>(sch: Schema<M>, tag: byte, v: uint64, m: M)
    requires tag < 128 && tag % 8 == 0 && tag / 8 > 0 && sch(tag / 8).Scalar?
    ensures Apply(sch, m, Num(tag, v)) == Ok(sch(tag / 8).put(m, v))
  {
    TagValue(tag);
    NumWellFormed(tag, v);
  }

  lemma StrsHead(tag: byte, ss: seq<bytes>)
    requires ss != []
    ensures Strs(tag, ss) == [Str(tag, ss[0])] + Strs(tag, ss[1..])
  {
  }

  // The writers below extend a backwards write in progress: buffer a has been
  // written from index end down to index i, with contents x so far.

  // Write a length or value varint and its tag.
  method PutHeader(dAtA: array<byte>, i: nat, tag: byte, v: uint64, ghost a: bytes, ghost end: nat, ghost x: bytes)
    returns (j: nat)
    requires Written(a, dAtA[..], i, end, x) && 1 + Sov(v) <= i
    modifies dAtA
    ensures Written(a, dAtA[..], j, end, [tag] + EncVarint(v) + x)
  {
    ghost var b := dAtA[..];
    var k := EncodeVarint(dAtA, i, v);
    ghost var c := dAtA[..];
    SovExact(v);
    j := k - 1;
    dAtA[j] := tag;
    WrittenThen(b, c, dAtA[..], j, k, i, [tag], EncVarint(v));
    hide Written;
    WrittenThen(a, b, dAtA[..], j, i, end, [tag] + EncVarint(v), x);
  }

  // Copy the bytes of s to just below what is written.
  method PutCopy(dAtA: array<byte>, i: nat, s: bytes, ghost a: bytes, ghost end: nat, ghost x: bytes) returns (j: nat)
    requires Written(a, dAtA[..], i, end, x) && |s| <= i
    modifies dAtA
    ensures Written(a, dAtA[..], j, end, s + x)
  {
    ghost var b := dAtA[..];
    j := i - |s|;
    forall n | 0 <= n < |s| {
      dAtA[j + n] := s[n];
    }
    assert Written(b, dAtA[..], j, i, s);
    hide Written;
    WrittenThen(a, b, dAtA[..], j, i, end, s, x);
  }

  // Write a string field: the bytes, then their length and the tag.
  method PutBytes(dAtA: array<byte>, i: nat, tag: byte, s: bytes, ghost a: bytes, ghost end: nat, ghost x: bytes)
    returns (j: nat)
    requires Written(a, dAtA[..], i, end, x) && |s| <= MAX_INT && |Enc(Str(tag, s))| + |x| <= end
    modifies dAtA
    ensures Written(a, dAtA[..], j, end, Enc(Str(tag, s)) + x)
  {
    EncStr(tag, s);
    SovExact(|s|);
    WrittenRoom(a, dAtA[..], i, end, x);
    hide *;
    j := PutCopy(dAtA, i, s, a, end, x);
    WrittenRoom(a, dAtA[..], j, end, s + x);
    j := PutHeader(dAtA, j, tag, |s|, a, end, s + x);
    Assoc([tag] + EncVarint(|s|), s, x);
  }

  // Write a varint field.
  method PutNum(dAtA: array<byte>, i: nat, tag: byte, v: uint64, ghost a: bytes, ghost end: nat, ghost x: bytes)
    returns (j: nat)
    requires Written(a, dAtA[..], i, end, x) && |Enc(Num(tag, v))| + |x| <= end
    modifies dAtA
    ensures Written(a, dAtA[..], j, end, Enc(Num(tag, v)) + x)
  {
    EncNum(tag, v);
    SovExact(v);
    WrittenRoom(a, dAtA[..], i, end, x);
    hide *;
    j := PutHeader(dAtA, i, tag, v, a, end, x);
  }

  lemma EncStr(tag: byte, s: bytes)
    ensures Enc(Str(tag, s)) == [tag] + EncVarint(|s|) + s
  {
  }

  lemma EncNum(tag: byte, v: nat)
    ensures Enc(Num(tag, v)) == [tag] + EncVarint(v)
  {
  }

  lemma StrSize(tag: byte, s: bytes)
    requires |s| <= MAX_INT
    ensures |Enc(Str(tag, s))| == 1 + |s| + Sov(|s|)
  {
    EncStr(tag, s);
    SovExact(|s|);
  }

  lemma NumSize(tag: byte, v: uint64)
    ensures |Enc(Num(tag, v))| == 1 + Sov(v)
  {
    EncNum(tag, v);
    SovExact(v);
  }

  // Write a repeated string field, last element first.
  method PutStrs(dAtA: array<byte>, i: nat, tag: byte, ss: seq<bytes>, ghost a: bytes, ghost end: nat, ghost x: bytes)
    returns (j: nat)
    requires Written(a, dAtA[..], i, end, x)
    requires dAtA.Length <= MAX_INT && |EncAll(Strs(tag, ss))| + |x| <= end
    modifies dAtA
    ensures Written(a, dAtA[..], j, end, EncAll(Strs(tag, ss)) + x)
  {
    j := i;
    ghost var rs := Strs(tag, ss);
    var n := |ss|;
    assert rs[n..] == [] && [] + x == x;
    WrittenRoom(a, dAtA[..], i, end, x);
    while n > 0
      invariant 0 <= n <= |ss|
      invariant Written(a, dAtA[..], j, end, EncAll(rs[n..]) + x)
    {
      hide *;
      n := n - 1;
      StrsRoom(tag, ss, n);
      j := PutBytes(dAtA, j, tag, ss[n], a, end, EncAll(rs[n + 1..]) + x);
      Assoc(Enc(Str(tag, ss[n])), EncAll(rs[n + 1..]), x);
    }
    assert rs[0..] == rs;
  }

  lemma WrittenNone(a: bytes, i: nat)
    requires i <= |a|
    ensures Written(a, a, i, i, [])
  {
  }

  lemma WrittenRoom(a: bytes, b: bytes, j: nat, i: nat, x: bytes)
    requires Written(a, b, j, i, x)
    ensures j == i - |x| && i <= |a| == |b|
  {
  }

  lemma StrsRoom(tag: byte, ss: seq<bytes>, n: nat)
    requires n < |ss|
    ensures var rs := Strs(tag, ss);
            && EncAll(rs[n..]) == Enc(Str(tag, ss[n])) + EncAll(rs[n + 1..])
            && |EncAll(rs[n..])| <= |EncAll(rs)|
            && |ss[n]| <= |EncAll(rs)|
  {
    var rs := Strs(tag, ss);
    assert rs[n..][0] == rs[n] && rs[n..][1..] == rs[n + 1..];
    assert rs == rs[..n] + rs[n..];
    EncAllAppend(rs[..n], rs[n..]);
  }

  // The size of a repeated string field, summed over its elements.
  method SizeStrs(ghost tag: byte, ss: seq<bytes>) returns (n: nat)
    requires |EncAll(Strs(tag, ss))| <= MAX_INT
    ensures n == |EncAll(Strs(tag, ss))|
  {
    n := 0;
    ghost var rs := Strs(tag, ss);
    for k := 0 to |ss|
      invariant n == |EncAll(rs[..k])| <= |EncAll(rs)|
    {
      hide *;
      StrsGrow(tag, ss, k);
      var l := |ss[k]|;
      StrSize(tag, ss[k]);
      n := n + 1 + l + Sov(l);
    }
    assert rs[..|ss|] == rs;
  }

  lemma StrsGrow(tag: byte, ss: seq<bytes>, k: nat)
    requires k < |ss| && |EncAll(Strs(tag, ss))| <= MAX_INT
    ensures var rs := Strs(tag, ss);
            && |EncAll(rs[..k + 1])| == |EncAll(rs[..k])| + |Enc(Str(tag, ss[k]))| <= |EncAll(rs)|
            && |ss[k]| <= MAX_INT
  {
    var rs := Strs(tag, ss);
    assert rs[..k + 1] == rs[..k] + [rs[k]] && rs == rs[..k + 1] + rs[k + 1..];
    EncAllOne(rs[k]);
    EncAllAppend(rs[..k], [rs[k]]);
    EncAllAppend(rs[..k + 1], rs[k + 1..]);
  }
}
