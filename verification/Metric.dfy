// Metric of api/monitor/v1, a message that decodes two of its fields into the
// messages already there.
module Metrics {
  import opened Bits
  import opened Wrappers
  import opened Wire
  import opened Decoder
  import opened Fields
  import opened Query

  // metav1.ObjectMeta, whose own codec is outside the repository: its encoding
  // and its decoder into a given value, which may fail or panic.
  datatype MetaCodec<!O> = MetaCodec(enc: O -> bytes, dec: (O, bytes) -> Result<O>, zero: O, norm: O -> O)

  // All that is asked of it: what it writes, it reads back up to norm.
  ghost predicate RestoresMeta<O(!new)>(mc: MetaCodec<O>) {
    forall o :: mc.dec(mc.zero, mc.enc(o)) == Ok(mc.norm(o))
  }

  datatype MetricValue<O> = MetricValue(meta: O, query: Query, jsonResult: bytes)

  function ZeroMetric<O>(mc: MetaCodec<O>): MetricValue<O> {
    MetricValue(mc.zero, ZERO_QUERY, [])
  }

  function PutMeta<O>(mc: MetaCodec<O>, m: MetricValue<O>, c: bytes): Result<MetricValue<O>> {
    match mc.dec(m.meta, c)
    case Ok(o) => Ok(m.(meta := o))
    case Err => Err
    case Panic => Panic
  }

  function PutQuery<O>(m: MetricValue<O>, c: bytes): Result<MetricValue<O>> {
    if |c| > MAX_INT then Err else
    match Decode(QuerySchema, c, 0, m.query)
    case Ok(q) => Ok(m.(query := q))
    case Err => Err
    case Panic => Panic
  }

  function MetricSchema<O>(mc: MetaCodec<O>): Schema<MetricValue<O>> {
    (f: int) =>
      match f
      case 1 => Delimited((m: MetricValue<O>, p: nat, c: bytes, a: bytes) => PutMeta(mc, m, c))
      case 2 => Delimited((m: MetricValue<O>, p: nat, c: bytes, a: bytes) => PutQuery(m, c))
      case 3 => Delimited((m: MetricValue<O>, p: nat, c: bytes, a: bytes) => Ok(m.(jsonResult := c)))
      case _ => Unknown
  }

  function MetricRecords<O>(mc: MetaCodec<O>, x: MetricValue<O>): seq<Record> {
    [Str(0x0a, mc.enc(x.meta)), Str(0x12, EncQuery(x.query)), Str(0x1a, x.jsonResult)]
  }

  function EncMetric<O>(mc: MetaCodec<O>, x: MetricValue<O>): bytes {
    EncAll(MetricRecords(mc, x))
  }

  lemma MetricLocal<O(!new)>(mc: MetaCodec<O>)
    ensures Local(MetricSchema(mc)) && Stable(MetricSchema(mc))
  {
    hide PutQuery, PutMeta;
    forall f: int, m: MetricValue<O>, p: nat, c: bytes, a: bytes
      ensures LocalAt(MetricSchema(mc)(f), m, p, c, a)
    {
      if f == 1 {
        assert MetricSchema(mc)(f).step(m, p, c, a) == PutMeta(mc, m, c);
      } else if f == 2 {
        assert MetricSchema(mc)(f).step(m, p, c, a) == PutQuery(m, c);
      }
    }
    LocalIsStable(MetricSchema(mc));
  }

  // The one thing that can panic is the decoder of the metadata.
  ghost predicate MetaQuiet<O(!new)>(mc: MetaCodec<O>) {
    forall o, c :: !mc.dec(o, c).Panic?
  }

  lemma MetricQuiet<O(!new)>(mc: MetaCodec<O>)
    requires MetaQuiet(mc)
    ensures Quiet(MetricSchema(mc))
  {
    hide PutQuery;
    forall f: int, m: MetricValue<O>, p: nat, c: bytes, a: bytes
      ensures QuietAt(MetricSchema(mc)(f), m, p, c, a)
    {
      QueryPutTotal(m, c);
      if f == 1 {
        assert MetricSchema(mc)(f).step(m, p, c, a) == PutMeta(mc, m, c);
      } else if f == 2 {
        assert MetricSchema(mc)(f).step(m, p, c, a) == PutQuery(m, c);
      }
    }
  }

  // What each written field means.
  lemma ApplyMetric<O>(mc: MetaCodec<O>, m: MetricValue<O>, c: bytes)
    ensures Apply(MetricSchema(mc), m, Str(0x0a, c)) == PutMeta(mc, m, c)
    ensures Apply(MetricSchema(mc), m, Str(0x12, c)) == PutQuery(m, c)
    ensures Apply(MetricSchema(mc), m, Str(0x1a, c)) == Ok(m.(jsonResult := c))
  {
    hide PutMeta, PutQuery, Apply;
    ApplyStr(MetricSchema(mc), 0x0a, c, m);
    ApplyStr(MetricSchema(mc), 0x12, c, m);
    ApplyStr(MetricSchema(mc), 0x1a, c, m);
  }

  lemma QueryPutTotal<O(!new)>(m: MetricValue<O>, c: bytes)
    ensures !PutQuery(m, c).Panic?
  {
    hide Decode, QuerySchema, Local, Quiet;
    QueryLocal();
    if |c| <= MAX_INT {
      DecodeTotal(QuerySchema, c, 0, m.query);
    }
  }

  lemma MetricWellFormed<O>(mc: MetaCodec<O>, x: MetricValue<O>)
    requires |EncMetric(mc, x)| <= MAX_INT
    ensures WellFormedAll(MetricRecords(mc, x))
    ensures |EncQuery(x.query)| <= MAX_INT
  {
    var rs := MetricRecords(mc, x);
    hide EncQuery;
    forall i | 0 <= i < 3
      ensures WellFormed(rs[i]) && |rs[i].payload.content| <= MAX_INT
    {
      EncAllAt(rs, i);
      StrWellFormed(rs[i].tag[0], rs[i].payload.content);
    }
    assert rs[1].payload.content == EncQuery(x.query);
  }

  // Decoding an encoded metric into a message merges it in, the query included.
  lemma MetricMerges<O(!new)>(mc: MetaCodec<O>, m: MetricValue<O>, x: MetricValue<O>)
    requires |EncMetric(mc, x)| <= MAX_INT && mc.dec(m.meta, mc.enc(x.meta)).Ok?
    ensures Decode(MetricSchema(mc), EncMetric(mc, x), 0, m)
            == Ok(MetricValue(mc.dec(m.meta, mc.enc(x.meta)).value, Merge(m.query, x.query), x.jsonResult))
  {
    MetricLocal(mc);
    MetricWellFormed(mc, x);
    QueryMerges(m.query, x.query);
    var sch, rs := MetricSchema(mc), MetricRecords(mc, x);
    var r1, r2, r3 := rs[0], rs[1], rs[2];
    var m1 := m.(meta := mc.dec(m.meta, mc.enc(x.meta)).value);
    var m2 := m1.(query := Merge(m.query, x.query));
    hide EncQuery, Decode, Merge, QuerySchema, Local, Stable, MetricSchema, Apply, Fold;
    ApplyMetric(mc, m, mc.enc(x.meta));
    ApplyMetric(mc, m1, EncQuery(x.query));
    ApplyMetric(mc, m2, x.jsonResult);
    assert rs == [r1] + [r2, r3] && [r2, r3] == [r2] + [r3];
    hide *;
    FoldCons(sch, r1, [r2, r3], m);
    FoldCons(sch, r2, [r3], m1);
    FoldOne(sch, r3, m2);
    DecodeRecords(sch, rs, 0, m);
  }

  // Every metric comes back from its encoding, up to nil against empty.
  lemma MetricRoundTrip<O(!new)>(mc: MetaCodec<O>, x: MetricValue<O>)
    requires RestoresMeta(mc) && |EncMetric(mc, x)| <= MAX_INT
    ensures Decode(MetricSchema(mc), EncMetric(mc, x), 0, ZeroMetric(mc))
            == Ok(MetricValue(mc.norm(x.meta), NormQuery(x.query), x.jsonResult))
  {
    MetricMerges(mc, ZeroMetric(mc), x);
    AppendAllToNil(x.query.fields);
    AppendAllToNil(x.query.conditions);
    AppendAllToNil(x.query.groupBy);
  }

  // Nested messages merge: two Query fields one after the other are read like
  // one Query field with both payloads.
  lemma QueryFieldsMerge<O(!new)>(mc: MetaCodec<O>, a: bytes, b: bytes, m: MetricValue<O>)
    requires |a + b| <= MAX_INT && Decode(QuerySchema, a, 0, m.query).Ok?
    ensures Fold(MetricSchema(mc), [Str(0x12, a), Str(0x12, b)], m) == Fold(MetricSchema(mc), [Str(0x12, a + b)], m)
  {
    QueryLocal();
    var sch, m1 := MetricSchema(mc), m.(query := Decode(QuerySchema, a, 0, m.query).value);
    hide Decode, QuerySchema, Local, Fold, MetricSchema, Apply;
    MergeLocal(QuerySchema, a, b, m.query);
    ApplyMetric(mc, m, a);
    ApplyMetric(mc, m1, b);
    ApplyMetric(mc, m, a + b);
    assert [Str(0x12, a), Str(0x12, b)] == [Str(0x12, a)] + [Str(0x12, b)];
    hide Str;
    FoldCons(sch, Str(0x12, a), [Str(0x12, b)], m);
    FoldOne(sch, Str(0x12, b), m1);
    FoldOne(sch, Str(0x12, a + b), m);
  }

  lemma MetricRefinesGrammar<O(!new)>(mc: MetaCodec<O>, s: bytes, m: MetricValue<O>, m': MetricValue<O>)
    requires |s| <= MAX_INT
    ensures Decode(MetricSchema(mc), s, 0, m) == Ok(m') <==>
            exists rs :: WellFormedAll(rs) && EncAll(rs) == s && Fold(MetricSchema(mc), rs, m) == Ok(m')
    ensures MetaQuiet(mc) ==> !Decode(MetricSchema(mc), s, 0, m).Panic?
  {
    hide *;
    MetricLocal(mc);
    DecodeRefinesGrammar(MetricSchema(mc), s, m, m');
    if MetaQuiet(mc) {
      MetricQuiet(mc);
      DecodeTotal(MetricSchema(mc), s, 0, m);
    }
  }
}
