// The Clusters loops of ProjectSpec and ProjectStatus: a map of messages that
// hold maps.
module Clusters {
  import opened Bits
  import opened Varint
  import opened Wire
  import opened Decoder
  import opened Fields
  import opened Keys
  import opened Reading
  import opened MapField
  import opened MapLoops
  import opened Project
  import opened HardQuantityCodec

  method SizeClusters<Q(!new)>(ghost tag: byte, qc: QuantityCodec<Q>, m: map<bytes, Quantities<Q>>) returns (n: nat)
    requires |EncAll(MapRecords(tag, m, HardEncoder(qc)))| <= MAX_INT
    ensures n == |EncAll(MapRecords(tag, m, HardEncoder(qc)))|
  {
    ghost var ks: seq<bytes> := [];
    ghost var enc := HardEncoder(qc);
    hide *;
    VisitStarts(m.Keys);
    EntriesNone(tag, m, enc);
    n := 0;
    var rest := m.Keys;
    while rest != {}
      invariant Visited(ks, rest, m.Keys) && n == EntriesSize(tag, ks, m, enc)
      decreases |rest|
    {
      var k :| k in rest;
      Visit(tag, ks, rest, k, m, enc);
      HardEncodes(qc, m[k], k);
      var v := new HardQuantity<Q>(m[k]);
      var l := v.Size(qc);
      var s := SizeEntry(tag, k, l, enc(m[k]));
      n := n + s;
      ks := ks + [k];
      rest := rest - {k};
    }
    VisitEnds(tag, ks, m, enc);
  }

  lemma HardEncodes<Q(!new)>(qc: QuantityCodec<Q>, h: Quantities<Q>, k: bytes)
    ensures HardEncoder(qc)(h) == EncHard(qc, h)
    ensures |EncHard(qc, h)| <= |EntryBytes(k, EncHard(qc, h))|
  {
    EncStr(0x12, EncHard(qc, h));
  }

  method PutClusters<Q(!new)>(dAtA: array<byte>, i: nat, tag: byte, qc: QuantityCodec<Q>, m: map<bytes, Quantities<Q>>,
                              ghost a: bytes, ghost end: nat, ghost x: bytes) returns (j: nat)
    requires Written(a, dAtA[..], i, end, x)
    requires dAtA.Length <= MAX_INT && |EncAll(MapRecords(tag, m, HardEncoder(qc)))| + |x| <= end
    modifies dAtA
    ensures Written(a, dAtA[..], j, end, EncAll(MapRecords(tag, m, HardEncoder(qc))) + x)
  {
    ghost var enc := HardEncoder(qc);
    var keys := SortedKeys(m);
    ghost var rs := Entries(tag, keys, m, enc);
    assert rs == MapRecords(tag, m, enc);
    var k := |keys|;
    assert rs[k..] == [] && [] + x == x;
    WrittenRoom(a, dAtA[..], i, end, x);
    j := i;
    while k > 0
      invariant 0 <= k <= |keys|
      invariant Written(a, dAtA[..], j, end, EncAll(rs[k..]) + x)
    {
      k := k - 1;
      KeyInMap(keys, m, k);
      EntriesRoom(tag, keys, m, enc, k);
      ghost var y, t := enc(m[keys[k]]), EncAll(rs[k + 1..]);
      HardEncodes(qc, m[keys[k]], keys[k]);
      hide *;
      j := PutCluster(dAtA, j, tag, qc, keys[k], m[keys[k]], a, end, t + x);
      Assoc(Enc(Str(tag, EntryBytes(keys[k], y))), t, x);
    }
    assert rs[0..] == rs;
  }

  method PutCluster<Q(!new)>(dAtA: array<byte>, i: nat, tag: byte, qc: QuantityCodec<Q>, key: bytes, v: Quantities<Q>,
                             ghost a: bytes, ghost end: nat, ghost x: bytes) returns (j: nat)
    requires Written(a, dAtA[..], i, end, x)
    requires dAtA.Length <= MAX_INT && |Enc(Str(tag, EntryBytes(key, EncHard(qc, v))))| + |x| <= end
    modifies dAtA
    ensures Written(a, dAtA[..], j, end, Enc(Str(tag, EntryBytes(key, EncHard(qc, v)))) + x)
  {
    ghost var y := EncHard(qc, v);
    EncStr(tag, EntryBytes(key, y));
    EncStr(0x12, y);
    WrittenRoom(a, dAtA[..], i, end, x);
    hide Written, EncHard, Enc, Str, EncVarint, EntryBytes;
    ghost var b := dAtA[..];
    var e := new HardQuantity<Q>(v);
    var baseI := i;
    var size := e.MarshalToSizedBuffer(qc, dAtA, i);
    WrittenThen(a, b, dAtA[..], i - size, i, end, y, x);
    j := PutEntryHead(dAtA, i - size, baseI, tag, key, y, a, end, x);
  }

  // The entry loop: data[start..postIndex] is the entry.
  method ReadCluster<Q(!new)>(qc: QuantityCodec<Q>, data: bytes, start: nat, postIndex: nat)
    returns (st: Outcome, mapkey: bytes, mapvalue: Quantities<Q>)
    requires start <= postIndex <= |data| <= MAX_INT
    ensures Agrees(EntryOutcome(HardDecoder(qc), ZeroHard(), data, start, postIndex), st, (mapkey, mapvalue))
  {
    hide EntryOutcome, EntryAt, ItemAt, Decode, HardSchema;
    ghost var dec := HardDecoder(qc);
    EntryStarts(dec, ZeroHard(), data, start, postIndex);
    mapkey, mapvalue := [], ZeroHard();
    var i: int := start;
    while i < postIndex
      invariant i < 0 || start <= i <= |data|
      invariant EntryAt(dec, ZeroHard(), data, start, postIndex, i, mapkey, mapvalue)
      decreases if i < 0 then 0 else |data| + 1 - i
    {
      if i < 0 {
        EntryEnds(dec, ZeroHard(), data, start, postIndex, i, mapkey, mapvalue);
      } else {
        EntryMoves(dec, ZeroHard(), data, start, postIndex, i, mapkey, mapvalue);
        ItemLength(data, postIndex - start, start, i - start);
      }
      var item, next := NextItem(data, start, postIndex, i);
      match item {
        case OutOfRange =>
          return Panicked, mapkey, mapvalue;
        case Bad =>
          return Failed, mapkey, mapvalue;
        case KeyRead(k) =>
          mapkey := k;
        case ValueRead(c) =>
          var v := new HardQuantity<Q>(ZeroHard());
          st := v.Unmarshal(qc, c);
          if st != Good {
            return;
          }
          mapvalue := v.Contents();
        case Skipped =>
      }
      i := next;
    }
    EntryEnds(dec, ZeroHard(), data, start, postIndex, i, mapkey, mapvalue);
    return Good, mapkey, mapvalue;
  }

  lemma ItemLength(data: bytes, n: nat, start: nat, j: nat)
    requires start <= |data| <= MAX_INT && j < n <= |data| - start
    ensures var r := ItemAt(data[start..], n, start, j); r.ValueItem? ==> |r.v| <= MAX_INT
  {
    hide ReadVarint, BoundsAt, Skip, FieldNumber;
  }
}
