// Concrete bytes: key order, malformed nested values, the limits of map fields.
module Examples {
  import opened Bits
  import opened Wrappers
  import opened Varint
  import opened Wire
  import opened Decoder
  import opened Fields
  import opened Keys
  import opened MapField
  import opened Meanings
  import opened Metrics
  import opened Project
  import opened Query
  import opened MapLimits
  import opened MapBoundaries

  // Twelve bytes: an entry of ten bytes whose skipped field 3 claims a payload
  // of 2^63 - 11 - q bytes, so that skipping it gives MAX_INT - q.
  function LongRecord(q: nat): bytes
    requires q <= 0x75
  {
    [0x1a, 0xf5 - q, 0xff, 0xff, 0xff, 0xff, 0xff, 0xff, 0xff, 0x7f]
  }

  function LongEntry(q: nat): bytes
    requires q <= 0x75
  {
    [0x0a, 0x0a] + LongRecord(q)
  }

  lemma LongSkip(q: nat)
    requires q <= 0x75
    ensures ReadVarint(LongRecord(q)) == Some((0x1a, 1)) && FieldNumber(0x1a) == 3
    ensures Skip(LongRecord(q)) == Ok(MAX_INT - q)
  {
    var l := EncVarint(MAX_INT - 10 - q);
    LongLength(q);
    assert LongRecord(q) == [0x1a] + l;
    TagValue(0x1a);
    hide *;
    TagRead(0x1a, l);
    VarintInverse(MAX_INT - 10 - q, []);
    assert l + [] == l;
    SkipBytes(0x1a, l, MAX_INT - 10 - q);
  }

  lemma SkipBytes(tag: byte, l: bytes, v: nat)
    requires ReadVarint([tag] + l) == Some((tag, 1)) && tag % 8 == 2
    requires ReadVarint(l) == Some((v, |l|)) && 1 + |l| + v <= MAX_INT
    ensures Skip([tag] + l) == Ok(1 + |l| + v)
  {
    hide *;
    assert ([tag] + l)[1..] == l;
    SkipIs([tag] + l, tag, 1);
    SkipLength(1, l, v);
  }

  lemma SkipLength(n: nat, l: bytes, v: nat)
    requires 1 <= n && ReadVarint(l) == Some((v, |l|)) && n + |l| + v <= MAX_INT
    ensures SkipPayload(2, n, l) == Ok(n + |l| + v)
  {
    hide ReadVarint, VarintEnd, SkipGroup;
  }

  lemma LongLength(q: nat)
    requires q <= 0x75
    ensures EncVarint(MAX_INT - 10 - q) == [0xf5 - q, 0xff, 0xff, 0xff, 0xff, 0xff, 0xff, 0xff, 0x7f]
  {
    hide EncVarint;
    EncVarintStep(0x7fff_ffff_ffff_fff5 - q);
    assert (0x7fff_ffff_ffff_fff5 - q) / 128 == 0xff_ffff_ffff_ffff;
    EncVarintStep(0xff_ffff_ffff_ffff);
    EncVarintStep(0x1_ffff_ffff_ffff);
    EncVarintStep(0x3ff_ffff_ffff);
    EncVarintStep(0x7_ffff_ffff);
    EncVarintStep(0xfff_ffff);
    EncVarintStep(0x1f_ffff);
    EncVarintStep(0x3fff);
    EncVarintStep(0x7f);
  }

  // Where these bytes lie decides between an error return and a panic.
  lemma LongEntryOutcome<Q(!new)>(qc: QuantityCodec<Q>, q: nat, pos: nat, m: Quantities<Q>)
    requires q <= 0x75 && pos + 12 <= MAX_INT && |LongEntry(q)| == 12
    ensures Decode(HardSchema(qc), LongEntry(q), pos, m) == if pos + 2 > q then Panic else Err
  {
    HardIsMap(qc);
    assert HardMap(qc).schema == HardSchema(qc) && HardMap(qc).field == 1;
    hide *;
    LongOutcome(HardMap(qc), q, pos, m);
  }

  lemma LongOutcome<M(!new), V(!new)>(x: MapMessage<M, V>, q: nat, pos: nat, m: M)
    requires Valid(x) && x.field == 1 && q <= 0x75 && pos + 12 <= MAX_INT && |LongEntry(q)| == 12
    ensures Decode(x.schema, LongEntry(q), pos, m) == if pos + 2 > q then Panic else Err
  {
    hide *;
    LongSkip(q);
    LongPlace(q);
    var s := LongEntry(q);
    EntryTurnIs(x, s, pos, m);
    LongDecode(x.dec, x.zero, q, LongRecord(q), pos + 2);
    DecodeTurn(x.schema, s, pos, m);
  }

  lemma LongPlace(q: nat)
    requires q <= 0x75
    ensures FieldPayload(LongEntry(q), 1) == Some((2, 12))
    ensures |LongEntry(q)| == 12 && |LongRecord(q)| == 10
    ensures LongEntry(q)[2..12] == LongRecord(q) && LongEntry(q)[12..] == []
  {
    var s, rest := LongEntry(q), LongRecord(q);
    TagRead(0x0a, [0x0a] + rest);
    TagRead(0x0a, rest);
    assert s == [0x0a] + ([0x0a] + rest) && s[1..] == [0x0a] + rest;
    hide ReadVarint;
  }

  lemma LongDecode<V>(dec: bytes -> Result<V>, zero: V, q: nat, rest: bytes, p: nat)
    requires q <= 0x75 && |rest| == 10 && p + 10 <= MAX_INT
    requires ReadVarint(rest) == Some((0x1a, 1)) && FieldNumber(0x1a) == 3 && Skip(rest) == Ok(MAX_INT - q)
    ensures DecodeEntry(dec, zero, p, rest, []) == if p > q then Panic else Err
  {
    assert rest + [] == rest && rest[0..] == rest;
    hide ReadVarint, FieldNumber, Skip, EntryFrom;
    EntryTurn(dec, rest, 10, p, 0, [], zero);
  }

  // Decoding is not total.
  lemma HardPanicExample<Q(!new)>(qc: QuantityCodec<Q>, m: Quantities<Q>)
    ensures LongEntry(0) == [0x0a, 0x0a, 0x1a, 0xf5, 0xff, 0xff, 0xff, 0xff, 0xff, 0xff, 0xff, 0x7f]
    ensures Decode(HardSchema(qc), LongEntry(0), 0, m) == Panic
  {
    assert LongEntry(0) == [0x0a, 0x0a, 0x1a, 0xf5, 0xff, 0xff, 0xff, 0xff, 0xff, 0xff, 0xff, 0x7f];
    hide *;
    LongPlace(0);
    LongEntryOutcome(qc, 0, 0, m);
  }

  // An unknown record in front turns an error return into a panic.
  lemma InsertionPanics<Q(!new)>(qc: QuantityCodec<Q>, m: Quantities<Q>)
    ensures LongEntry(2) == [0x0a, 0x0a, 0x1a, 0xf3, 0xff, 0xff, 0xff, 0xff, 0xff, 0xff, 0xff, 0x7f]
    ensures IsUnknown(HardSchema(qc), SmallRecord(0x10)) && Enc(SmallRecord(0x10)) == [0x10, 0x00]
    ensures Decode(HardSchema(qc), LongEntry(2), 0, m) == Err
    ensures Decode(HardSchema(qc), Enc(SmallRecord(0x10)) + LongEntry(2), 0, m) == Panic
  {
    assert LongEntry(2) == [0x0a, 0x0a, 0x1a, 0xf3, 0xff, 0xff, 0xff, 0xff, 0xff, 0xff, 0xff, 0x7f];
    SmallUnknown(qc, 0x10);
    hide *;
    LongPlace(2);
    LongEntryOutcome(qc, 2, 0, m);
    LongEntryOutcome(qc, 2, 2, m);
    UnknownFirst(qc, SmallRecord(0x10), LongEntry(2), m);
  }

  lemma UnknownFirst<Q(!new)>(qc: QuantityCodec<Q>, r: Record, b: bytes, m: Quantities<Q>)
    requires IsUnknown(HardSchema(qc), r) && |Enc(r) + b| <= MAX_INT
    ensures Decode(HardSchema(qc), Enc(r) + b, 0, m) == Decode(HardSchema(qc), b, |Enc(r)|, m)
  {
    hide *;
    HardStable(qc);
    UnknownKept(HardSchema(qc), r, m);
    DecodeConcat(HardSchema(qc), Enc(r), b, 0, 0, m);
  }

  // A varint record of value zero.
  function SmallRecord(tag: byte): Record {
    Record([tag], VarintValue([0x00]))
  }

  lemma SmallUnknown<Q>(qc: QuantityCodec<Q>, tag: byte)
    requires 16 <= tag < 128 && tag % 8 == 0
    ensures IsUnknown(HardSchema(qc), SmallRecord(tag)) && Enc(SmallRecord(tag)) == [tag, 0x00]
  {
    TagValue(tag);
    TagValue(0x00);
    assert [tag] + [0x00] == [tag, 0x00];
    hide Raw, IsVarint, FieldNumber, Value;
    assert HardSchema(qc)(tag / 8).Unknown? by {
      assert tag / 8 != 1;
    }
    assert WellFormed(SmallRecord(tag));
    assert FieldNumber(Value(SmallRecord(tag).tag)) == tag / 8;
  }

  // An entry of two bytes: the tag and length of a key, but no key.
  function ShortEntry(): bytes {
    [0x0a, 0x02, 0x0a, 0x01]
  }

  // The key of an entry need not lie in the entry: here it is the first byte of
  // whatever follows.
  lemma EntryReadsOn<Q(!new)>(qc: QuantityCodec<Q>, t: bytes, m: Quantities<Q>)
    requires 4 + |t| <= MAX_INT
    ensures Decode(HardSchema(qc), ShortEntry() + t, 0, m)
            == if t == [] then Err else Decode(HardSchema(qc), t, 4, Quantities(Put(m.hard, [t[0]], qc.zero)))
  {
    var x, h, a: bytes := HardMap(qc), Str(0x0a, [0x0a, 0x01]), [];
    assert x.schema == HardSchema(qc);
    ShortEntryRuns(qc, m);
    ShortEntryTakes(t);
    HardUpdates(qc, m, if t == [] then [] else [t[0]]);
    NothingLeft(HardSchema(qc), 0, m);
    hide *;
    assert a + Enc(h) == ShortEntry();
    RunsOffDecodes(x, a, h, 0, m, t);
    if t != [] {
      KeyAfter(x, a, h, 0, m, [t[0]]);
    }
  }

  lemma HardUpdates<Q>(qc: QuantityCodec<Q>, m: Quantities<Q>, k: bytes)
    ensures var x := HardMap(qc); x.upd(m, Put(x.get(m), k, qc.zero)) == Quantities(Put(m.hard, k, qc.zero))
  {
  }

  lemma ShortEntryTakes(t: bytes)
    ensures var h := Str(0x0a, [0x0a, 0x01]);
            && WellFormed(h) && Enc(h) == ShortEntry() && FieldNumber(Value(h.tag)) == 1
            && HasOpen(h, 0) && IsKey(h, 0) && Lack(h, 0) == 1
            && (t != [] ==> Taken(h, 0, t) == [t[0]])
  {
    var c: bytes := [0x0a, 0x01];
    StrWellFormed(0x0a, c);
    EncStr(0x0a, c);
    EncVarintStep(2);
    TagValue(0x0a);
    TagRead(0x0a, [0x01]);
    TagRead(0x01, []);
    assert c[0..] == [0x0a] + [0x01] && c[1..] == [0x01] + [];
    hide ReadVarint, FieldNumber, Value, WellFormed, Enc, EncVarint;
    assert LengthAt(c, 1) == Some((2, 3));
    if t != [] {
      assert c[2..] + t[..1] == [t[0]];
    }
  }

  lemma ShortEntryRuns<Q(!new)>(qc: QuantityCodec<Q>, m: Quantities<Q>)
    ensures var x, h := HardMap(qc), Str(0x0a, [0x0a, 0x01]);
            && h.payload.Bytes? && |Enc(h)| == 4
            && RunsOff(x, [], h, 0, m) && SoFar(x, h, 0, 0) == Some(([], qc.zero))
            && Decode(x.schema, [], 0, m) == Ok(m)
  {
    HardIsMap(qc);
    ShortEntryTakes([]);
    NothingLeft(HardSchema(qc), 0, m);
    hide Decode, Valid, WellFormed, Enc, FieldNumber, Value, HasOpen, HardSchema, EncVarint;
  }

  // So two unknown records put at the same place make different maps.
  lemma InsertionsDiffer<Q(!new)>(qc: QuantityCodec<Q>, r: Record, r': Record, q: Record)
    requires IsUnknown(HardSchema(qc), r) && IsUnknown(HardSchema(qc), r') && IsUnknown(HardSchema(qc), q)
    requires 4 + |Enc(r)| + |Enc(q)| <= MAX_INT && 4 + |Enc(r')| + |Enc(q)| <= MAX_INT
    ensures Enc(r) != [] && Enc(r') != []
    ensures var a := ShortEntry();
            var d, d' := Decode(HardSchema(qc), a + Enc(r) + Enc(q), 0, ZeroHard()),
                         Decode(HardSchema(qc), a + Enc(r') + Enc(q), 0, ZeroHard());
            && d == Ok(Quantities(Made(map[[Enc(r)[0]] := qc.zero])))
            && d' == Ok(Quantities(Made(map[[Enc(r')[0]] := qc.zero])))
            && (d == d' <==> Enc(r)[0] == Enc(r')[0])
  {
    InsertionPuts(qc, r, q);
    InsertionPuts(qc, r', q);
    hide *;
    SingletonsDiffer([Enc(r)[0]], [Enc(r')[0]], qc.zero);
  }

  lemma SingletonsDiffer<V>(k: bytes, k': bytes, v: V)
    ensures map[k := v] == map[k' := v] <==> k == k'
  {
    if map[k := v] == map[k' := v] {
      assert k in map[k' := v];
    }
  }

  lemma InsertionPuts<Q(!new)>(qc: QuantityCodec<Q>, r: Record, q: Record)
    requires IsUnknown(HardSchema(qc), r) && IsUnknown(HardSchema(qc), q) && 4 + |Enc(r)| + |Enc(q)| <= MAX_INT
    ensures Enc(r) != []
    ensures Decode(HardSchema(qc), ShortEntry() + Enc(r) + Enc(q), 0, ZeroHard())
            == Ok(Quantities(Made(map[[Enc(r)[0]] := qc.zero])))
  {
    EncNonempty(r);
    var e, f, m' := Enc(r), Enc(q), Quantities(Made(map[[Enc(r)[0]] := qc.zero]));
    assert Put(Nil, [e[0]], qc.zero) == m'.hard && ZeroHard<Q>().hard == Nil;
    hide *;
    var g := e + f;
    assert g != [] && g[0] == e[0];
    Assoc(ShortEntry(), e, f);
    EntryReadsOn(qc, g, ZeroHard());
    UnknownTwice(qc, r, q, 4, m');
  }

  lemma UnknownTwice<Q(!new)>(qc: QuantityCodec<Q>, r: Record, q: Record, pos: nat, m: Quantities<Q>)
    requires IsUnknown(HardSchema(qc), r) && IsUnknown(HardSchema(qc), q) && pos + |Enc(r) + Enc(q)| <= MAX_INT
    ensures Decode(HardSchema(qc), Enc(r) + Enc(q), pos, m) == Ok(m)
  {
    hide *;
    HardStable(qc);
    UnknownKept(HardSchema(qc), r, m);
    UnknownKept(HardSchema(qc), q, m);
    DecodeConcat(HardSchema(qc), Enc(r), Enc(q), 0, pos, m);
    DecodeMoved(HardSchema(qc), Enc(q), 0, pos + |Enc(r)|, m);
  }

  // ---- Key order ----

  lemma KeyOrderExample()
    ensures KeyOrder({[0x62], [0x61]}) == [[0x61], [0x62]]
  {
    var a, b: bytes := [0x61], [0x62];
    var ks := [a, b];
    assert a[..0] == b[..0] && a[0] < b[0];
    LessIsPrecedes(a, b);
    assert Elements(ks) == {b, a};
    assert Ascending(ks);
    KeyOrderUnique(ks, KeyOrder({b, a}));
  }

  // The clusters part of a spec with empty quantities under "b" and "a".
  lemma ClustersExample<Q(!new)>(qc: QuantityCodec<Q>)
    ensures EncAll(MapRecords(0x32, map[[0x62] := Quantities(Nil), [0x61] := Quantities(Nil)], HardEncoder(qc)))
            == [0x32, 0x05, 0x0a, 0x01, 0x61, 0x12, 0x00, 0x32, 0x05, 0x0a, 0x01, 0x62, 0x12, 0x00]
  {
    var a, b: bytes := [0x61], [0x62];
    var m: map<bytes, Quantities<Q>> := map[b := Quantities(Nil), a := Quantities(Nil)];
    KeyOrderExample();
    assert m.Keys == {b, a};
    EmptyHard(qc);
    EmptyCluster(a);
    EmptyCluster(b);
    assert Elements([a, b]) <= m.Keys;
    assert Entries(0x32, [a, b], m, HardEncoder(qc)) == [Str(0x32, EntryBytes(a, []))] + [Str(0x32, EntryBytes(b, []))];
    hide Enc, Str, EntryBytes, HardEncoder, EncAll;
    EncAllOne(Str(0x32, EntryBytes(b, [])));
    EncAllCons(Str(0x32, EntryBytes(a, [])), [Str(0x32, EntryBytes(b, []))]);
  }

  lemma EmptyHard<Q(!new)>(qc: QuantityCodec<Q>)
    ensures HardEncoder(qc)(Quantities(Nil)) == []
  {
    ElementsEmpty(KeyOrder({}));
  }

  lemma EmptyCluster(k: bytes)
    requires |k| == 1
    ensures Enc(Str(0x32, EntryBytes(k, []))) == [0x32, 0x05, 0x0a, 0x01, k[0], 0x12, 0x00]
  {
    ShortField(0x0a, k);
    ShortField(0x12, []);
    assert EntryBytes(k, []) == [0x0a, 0x01, k[0], 0x12, 0x00];
    ShortField(0x32, EntryBytes(k, []));
  }

  lemma ShortField(tag: byte, s: bytes)
    requires |s| < 128
    ensures Enc(Str(tag, s)) == [tag, |s|] + s
  {
    EncStr(tag, s);
    EncVarintStep(|s|);
  }

  // ---- Malformed nested values ----

  // A bare tag decodes to nothing.
  lemma BareTag<M>(sch: Schema<M>, m: M)
    requires sch(1).Delimited?
    ensures Decode(sch, [0x0a], 0, m) == Err
  {
    var s: bytes := [0x0a];
    TagValue(0x0a);
    TagRead(0x0a, []);
    assert [0x0a] + [] == s && s[1..] == [];
    hide ReadVarint, FieldNumber, PayloadBounds;
    NoBounds();
  }

  lemma NoBounds()
    ensures PayloadBounds([]) == None
  {
  }

  // The value of cluster "c" is a bare tag.
  lemma BadCluster<Q(!new)>(qc: QuantityCodec<Q>, m: Spec<Q>)
    ensures Decode(SpecSchema(qc), [0x32, 0x06, 0x0a, 0x01, 0x63, 0x12, 0x01, 0x0a], 0, m) == Err
  {
    var k, c, none: bytes := [0x63], [0x0a], [];
    ShortField(0x0a, k);
    ShortField(0x12, c);
    assert EntryBytes(k, c) == [0x0a, 0x01, 0x63, 0x12, 0x01, 0x0a];
    ShortField(0x32, EntryBytes(k, c));
    var s: bytes := [0x32, 0x06, 0x0a, 0x01, 0x63, 0x12, 0x01, 0x0a];
    assert Enc(Str(0x32, EntryBytes(k, c))) == s && s + none == s;
    assert HardSchema(qc)(1).Delimited?;
    BareTag(HardSchema(qc), Quantities(Nil));
    hide Decode, HardSchema, SpecSchema, Enc, Str, EntryBytes;
    SpecCluster(qc, k, c, none, 0, m);
  }

  // A condition that is a bare tag.
  lemma BadCondition(m: Query)
    ensures Decode(QuerySchema, [0x2a, 0x01, 0x0a], 0, m) == Err
  {
    var c, none: bytes := [0x0a], [];
    ShortField(0x2a, c);
    var s: bytes := [0x2a, 0x01, 0x0a];
    assert Enc(Str(0x2a, c)) == s && s + none == s;
    BareTag(ConditionSchema, Condition([], [], []));
    hide Decode, ConditionSchema, QuerySchema, Enc, Str;
    QueryCondition(c, none, 0, m);
  }

  // A query that is a bare tag.
  lemma BadQuery<O(!new)>(mc: MetaCodec<O>, m: MetricValue<O>)
    ensures Decode(MetricSchema(mc), [0x12, 0x01, 0x0a], 0, m) == Err
  {
    var c, none: bytes := [0x0a], [];
    ShortField(0x12, c);
    var s: bytes := [0x12, 0x01, 0x0a];
    assert Enc(Str(0x12, c)) == s && s + none == s;
    BareTag(QuerySchema, m.query);
    hide Decode, QuerySchema, MetricSchema, Enc, Str;
    MetricNested(mc, c, none, 0, m);
  }
}
