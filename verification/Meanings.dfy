// What every field of every message means to its decoder, byte for byte: the
// field as a record at the start of the input, any payload, any bytes after it.
module Meanings {
  import opened Bits
  import opened Wrappers
  import opened Wire
  import opened Decoder
  import opened Fields
  import opened MapField
  import opened Query
  import opened Metrics
  import opened Project

  // The outcome of one record, and then of the bytes b after it.
  function Then<M>(sch: Schema<M>, r: Result<M>, b: bytes, pos: nat): Result<M>
    requires pos + |b| <= MAX_INT
  {
    match r
    case Ok(m) => Decode(sch, b, pos, m)
    case Err => Err
    case Panic => Panic
  }

  lemma ThenIs<M>(sch: Schema<M>, r: Result<M>, b: bytes, pos: nat)
    requires pos + |b| <= MAX_INT
    ensures r.Ok? ==> Then(sch, r, b, pos) == Decode(sch, b, pos, r.value)
    ensures r.Err? ==> Then(sch, r, b, pos) == Err
    ensures r.Panic? ==> Then(sch, r, b, pos) == Panic
  {
    hide Decode;
  }

  // A length-delimited and a varint field in front of b.
  lemma StrRead<M>(sch: Schema<M>, tag: byte, c: bytes, b: bytes, pos: nat, m: M)
    requires tag < 128 && tag % 8 == 2 && tag / 8 > 0 && sch(tag / 8).Delimited?
    requires pos + |Enc(Str(tag, c)) + b| <= MAX_INT
    ensures PayloadStart(Str(tag, c)) + |c| == |Enc(Str(tag, c))|
    ensures Decode(sch, Enc(Str(tag, c)) + b, pos, m)
            == Then(sch, sch(tag / 8).step(m, pos + PayloadStart(Str(tag, c)), c, b), b, pos + |Enc(Str(tag, c))|)
  {
    hide *;
    StrParts(tag, c);
    StrMeaning(sch, tag, c, b, pos + PayloadStart(Str(tag, c)), m);
    StrWellFormed(tag, c);
    RecordThen(sch, Str(tag, c), b, pos, m);
  }

  lemma NumRead<M>(sch: Schema<M>, tag: byte, v: uint64, b: bytes, pos: nat, m: M)
    requires tag < 128 && tag % 8 == 0 && tag / 8 > 0 && sch(tag / 8).Scalar?
    requires pos + |Enc(Num(tag, v)) + b| <= MAX_INT
    ensures Decode(sch, Enc(Num(tag, v)) + b, pos, m)
            == Decode(sch, b, pos + |Enc(Num(tag, v))|, sch(tag / 8).put(m, v))
  {
    hide *;
    var r := Num(tag, v);
    NumMeaning(sch, tag, v, b, pos + PayloadStart(r), m);
    NumWellFormed(tag, v);
    RecordThen(sch, r, b, pos, m);
    ThenIs(sch, Meaning(sch, m, r, pos + PayloadStart(r), b), b, pos + |Enc(r)|);
  }

  lemma RecordThen<M>(sch: Schema<M>, r: Record, b: bytes, pos: nat, m: M)
    requires WellFormed(r) && pos + |Enc(r) + b| <= MAX_INT
    ensures Decode(sch, Enc(r) + b, pos, m)
            == Then(sch, Meaning(sch, m, r, pos + PayloadStart(r), b), b, pos + |Enc(r)|)
  {
    hide *;
    var e := Enc(r);
    EncNonempty(r);
    DecodeOneIs(sch, m, r, pos, b);
    DecodeTurn(sch, e + b, pos, m);
    assert (e + b)[|e|..] == b;
    ThenIs(sch, Meaning(sch, m, r, pos + PayloadStart(r), b), b, pos + |e|);
  }

  lemma StrParts(tag: byte, c: bytes)
    requires tag < 128
    ensures PayloadStart(Str(tag, c)) + |c| == |Enc(Str(tag, c))|
  {
    EncStr(tag, c);
  }

  lemma StrMeaning<M>(sch: Schema<M>, tag: byte, c: bytes, b: bytes, p: nat, m: M)
    requires tag < 128 && tag % 8 == 2 && tag / 8 > 0 && sch(tag / 8).Delimited?
    ensures Meaning(sch, m, Str(tag, c), p, b) == sch(tag / 8).step(m, p, c, b)
  {
    TagValue(tag);
  }

  lemma NumMeaning<M>(sch: Schema<M>, tag: byte, v: uint64, b: bytes, p: nat, m: M)
    requires tag < 128 && tag % 8 == 0 && tag / 8 > 0 && sch(tag / 8).Scalar?
    ensures Meaning(sch, m, Num(tag, v), p, b) == Ok(sch(tag / 8).put(m, v))
  {
    TagValue(tag);
    NumWellFormed(tag, v);
  }

  // ---- MetricQueryCondition ----

  lemma ConditionField(tag: byte, c: bytes, b: bytes, pos: nat, m: Condition)
    requires tag in {0x0a, 0x12, 0x1a} && pos + |Enc(Str(tag, c)) + b| <= MAX_INT
    ensures Decode(ConditionSchema, Enc(Str(tag, c)) + b, pos, m)
            == Decode(ConditionSchema, b, pos + |Enc(Str(tag, c))|,
                      if tag == 0x0a then Condition(c, m.expr, m.value)
                      else if tag == 0x12 then Condition(m.key, c, m.value)
                      else Condition(m.key, m.expr, c))
  {
    hide Decode, Enc, Str, PayloadStart;
    StrRead(ConditionSchema, tag, c, b, pos, m);
  }

  // ---- MetricQuery ----

  lemma QueryText(tag: byte, c: bytes, b: bytes, pos: nat, m: Query)
    requires tag in {0x0a, 0x22, 0x32, 0x3a, 0x42} && pos + |Enc(Str(tag, c)) + b| <= MAX_INT
    ensures Decode(QuerySchema, Enc(Str(tag, c)) + b, pos, m)
            == Decode(QuerySchema, b, pos + |Enc(Str(tag, c))|,
                      if tag == 0x0a then m.(table := c)
                      else if tag == 0x22 then
                        m.(fields := Made((if m.fields.Nil? then [] else m.fields.made) + [c]))
                      else if tag == 0x32 then m.(orderBy := c)
                      else if tag == 0x3a then m.(order := c)
                      else m.(groupBy := Made((if m.groupBy.Nil? then [] else m.groupBy.made) + [c])))
  {
    hide Decode, Enc, Str, PayloadStart, AddCondition;
    StrRead(QuerySchema, tag, c, b, pos, m);
  }

  // The 64 bits and the low 32 bits of the varint, as two's complement.
  lemma QueryNumber(tag: byte, v: uint64, b: bytes, pos: nat, m: Query)
    requires tag in {0x10, 0x18, 0x48, 0x50} && pos + |Enc(Num(tag, v)) + b| <= MAX_INT
    ensures var t := if v < 0x8000_0000_0000_0000 then v else v - 0x1_0000_0000_0000_0000;
            var l := v % 0x1_0000_0000;
            var n := if l < 0x8000_0000 then l else l - 0x1_0000_0000;
            Decode(QuerySchema, Enc(Num(tag, v)) + b, pos, m)
            == Decode(QuerySchema, b, pos + |Enc(Num(tag, v))|,
                      if tag == 0x10 then m.(startTime := Some(t))
                      else if tag == 0x18 then m.(endTime := Some(t))
                      else if tag == 0x48 then m.(limit := n)
                      else m.(offset := n))
  {
    hide Decode, Enc, Num, AddCondition;
    NumRead(QuerySchema, tag, v, b, pos, m);
  }

  lemma ConditionStep(c: bytes, p: nat, b: bytes, m: Query)
    requires |c| <= MAX_INT
    ensures QuerySchema(5).Delimited?
    ensures QuerySchema(5).step(m, p, c, b)
            == (match Decode(ConditionSchema, c, 0, Condition([], [], []))
                case Ok(x) => Ok(m.(conditions := Made((if m.conditions.Nil? then [] else m.conditions.made) + [x])))
                case _ => Err)
  {
    ConditionLocal();
    DecodeTotal(ConditionSchema, c, 0, ZERO_CONDITION);
    hide Decode, ConditionSchema, Local, Quiet, Stable;
    assert QuerySchema(5).step(m, p, c, b) == AddCondition(m, c);
  }

  // A nested condition is decoded from the empty condition and appended; one
  // that does not decode is an error return.
  lemma QueryCondition(c: bytes, b: bytes, pos: nat, m: Query)
    requires pos + |Enc(Str(0x2a, c)) + b| <= MAX_INT && |c| <= MAX_INT
    ensures Decode(QuerySchema, Enc(Str(0x2a, c)) + b, pos, m)
            == (match Decode(ConditionSchema, c, 0, Condition([], [], []))
                case Ok(x) =>
                  Decode(QuerySchema, b, pos + |Enc(Str(0x2a, c))|,
                         m.(conditions := Made((if m.conditions.Nil? then [] else m.conditions.made) + [x])))
                case _ => Err)
  {
    hide *;
    var p, n := pos + PayloadStart(Str(0x2a, c)), pos + |Enc(Str(0x2a, c))|;
    ConditionStep(c, p, b, m);
    StrRead(QuerySchema, 0x2a, c, b, pos, m);
    ThenIs(QuerySchema, QuerySchema(5).step(m, p, c, b), b, n);
  }

  // The same for the meaning of the record.
  lemma ConditionAdded(c: bytes, m: Query, m': Query)
    requires |c| <= MAX_INT
    ensures Apply(QuerySchema, m, Str(0x2a, c)) == Ok(m') <==>
            exists x :: && Decode(ConditionSchema, c, 0, Condition([], [], [])) == Ok(x)
                        && m' == m.(conditions := Made((if m.conditions.Nil? then [] else m.conditions.made) + [x]))
    ensures Apply(QuerySchema, m, Str(0x2a, c)).Ok? || Apply(QuerySchema, m, Str(0x2a, c)) == Err
  {
    hide *;
    ConditionStep(c, 0, [], m);
    ApplyStr(QuerySchema, 0x2a, c, m);
  }

  // ---- Metric ----

  lemma MetricText<O(!new)>(mc: MetaCodec<O>, c: bytes, b: bytes, pos: nat, m: MetricValue<O>)
    requires pos + |Enc(Str(0x1a, c)) + b| <= MAX_INT
    ensures Decode(MetricSchema(mc), Enc(Str(0x1a, c)) + b, pos, m)
            == Decode(MetricSchema(mc), b, pos + |Enc(Str(0x1a, c))|, MetricValue(m.meta, m.query, c))
  {
    hide Decode, Enc, Str, PayloadStart, PutMeta, PutQuery;
    StrRead(MetricSchema(mc), 0x1a, c, b, pos, m);
  }

  lemma MetaStep<O>(mc: MetaCodec<O>, c: bytes, p: nat, b: bytes, m: MetricValue<O>)
    ensures MetricSchema(mc)(1).Delimited?
    ensures MetricSchema(mc)(1).step(m, p, c, b) == (match mc.dec(m.meta, c)
                                                     case Ok(o) => Ok(MetricValue(o, m.query, m.jsonResult))
                                                     case Err => Err
                                                     case Panic => Panic)
  {
    assert MetricSchema(mc)(1).step(m, p, c, b) == PutMeta(mc, m, c);
  }

  lemma NestedStep<O>(mc: MetaCodec<O>, c: bytes, p: nat, b: bytes, m: MetricValue<O>)
    requires |c| <= MAX_INT
    ensures MetricSchema(mc)(2).Delimited?
    ensures MetricSchema(mc)(2).step(m, p, c, b) == (match Decode(QuerySchema, c, 0, m.query)
                                                     case Ok(q) => Ok(MetricValue(m.meta, q, m.jsonResult))
                                                     case _ => Err)
  {
    QueryLocal();
    DecodeTotal(QuerySchema, c, 0, m.query);
    hide Decode, QuerySchema, Local, Quiet, Stable;
    assert MetricSchema(mc)(2).step(m, p, c, b) == PutQuery(m, c);
  }

  // The metadata is handed to its own decoder, whose failure is the outcome.
  lemma MetricMeta<O(!new)>(mc: MetaCodec<O>, c: bytes, b: bytes, pos: nat, m: MetricValue<O>)
    requires pos + |Enc(Str(0x0a, c)) + b| <= MAX_INT
    ensures Decode(MetricSchema(mc), Enc(Str(0x0a, c)) + b, pos, m)
            == (match mc.dec(m.meta, c)
                case Ok(o) =>
                  Decode(MetricSchema(mc), b, pos + |Enc(Str(0x0a, c))|, MetricValue(o, m.query, m.jsonResult))
                case Err => Err
                case Panic => Panic)
    ensures Apply(MetricSchema(mc), m, Str(0x0a, c))
            == (match mc.dec(m.meta, c)
                case Ok(o) => Ok(MetricValue(o, m.query, m.jsonResult))
                case Err => Err
                case Panic => Panic)
  {
    hide *;
    var p, n := pos + PayloadStart(Str(0x0a, c)), pos + |Enc(Str(0x0a, c))|;
    MetaStep(mc, c, p, b, m);
    StrRead(MetricSchema(mc), 0x0a, c, b, pos, m);
    ThenIs(MetricSchema(mc), MetricSchema(mc)(1).step(m, p, c, b), b, n);
    MetaStep(mc, c, 0, [], m);
    ApplyStr(MetricSchema(mc), 0x0a, c, m);
  }

  // The query is decoded into the query already there, and its error is the
  // outcome.
  lemma MetricNested<O(!new)>(mc: MetaCodec<O>, c: bytes, b: bytes, pos: nat, m: MetricValue<O>)
    requires pos + |Enc(Str(0x12, c)) + b| <= MAX_INT && |c| <= MAX_INT
    ensures Decode(MetricSchema(mc), Enc(Str(0x12, c)) + b, pos, m)
            == (match Decode(QuerySchema, c, 0, m.query)
                case Ok(q) =>
                  Decode(MetricSchema(mc), b, pos + |Enc(Str(0x12, c))|, MetricValue(m.meta, q, m.jsonResult))
                case _ => Err)
    ensures Apply(MetricSchema(mc), m, Str(0x12, c))
            == (match Decode(QuerySchema, c, 0, m.query)
                case Ok(q) => Ok(MetricValue(m.meta, q, m.jsonResult))
                case _ => Err)
  {
    hide *;
    var p, n := pos + PayloadStart(Str(0x12, c)), pos + |Enc(Str(0x12, c))|;
    NestedStep(mc, c, p, b, m);
    StrRead(MetricSchema(mc), 0x12, c, b, pos, m);
    ThenIs(MetricSchema(mc), MetricSchema(mc)(2).step(m, p, c, b), b, n);
    NestedStep(mc, c, 0, [], m);
    ApplyStr(MetricSchema(mc), 0x12, c, m);
  }

  // Hence a nested query or metadata that fails, after any records that decode,
  // fails the metric, whatever follows.
  lemma MetricStops<O(!new)>(mc: MetaCodec<O>, rs: seq<Record>, c: bytes, b: bytes, m: MetricValue<O>)
    requires WellFormedAll(rs) && Fold(MetricSchema(mc), rs, m).Ok? && |c| <= MAX_INT
    requires |EncAll(rs) + (Enc(Str(0x12, c)) + b)| <= MAX_INT && |EncAll(rs) + (Enc(Str(0x0a, c)) + b)| <= MAX_INT
    ensures var m' := Fold(MetricSchema(mc), rs, m).value;
            && (Decode(QuerySchema, c, 0, m'.query).Err? ==>
                  Decode(MetricSchema(mc), EncAll(rs) + (Enc(Str(0x12, c)) + b), 0, m) == Err)
            && (mc.dec(m'.meta, c).Err? ==>
                  Decode(MetricSchema(mc), EncAll(rs) + (Enc(Str(0x0a, c)) + b), 0, m) == Err)
            && (mc.dec(m'.meta, c).Panic? ==>
                  Decode(MetricSchema(mc), EncAll(rs) + (Enc(Str(0x0a, c)) + b), 0, m) == Panic)
  {
    hide *;
    var m', n := Fold(MetricSchema(mc), rs, m).value, |EncAll(rs)|;
    MetricLocal(mc);
    DecodeRecordsThen(MetricSchema(mc), rs, Enc(Str(0x12, c)) + b, 0, m);
    DecodeRecordsThen(MetricSchema(mc), rs, Enc(Str(0x0a, c)) + b, 0, m);
    MetricNested(mc, c, b, n, m');
    MetricMeta(mc, c, b, n, m');
  }

  // ---- HardQuantity ----

  lemma HardStep<Q(!new)>(qc: QuantityCodec<Q>, k: bytes, c: bytes, p: nat, b: bytes, m: Quantities<Q>)
    requires p + |EntryBytes(k, c)| + |b| <= MAX_INT
    ensures HardSchema(qc)(1).Delimited?
    ensures HardSchema(qc)(1).step(m, p, EntryBytes(k, c), b)
            == (match qc.dec(c)
                case Ok(q) => Ok(Quantities(Made((if m.hard.Nil? then map[] else m.hard.made)[k := q])))
                case Err => Err
                case Panic => Panic)
  {
    DecodeEntryExact(qc.dec, qc.zero, p, k, c, b);
    hide EntryBytes, DecodeEntry;
    assert HardSchema(qc)(1).step(m, p, EntryBytes(k, c), b) == PutHard(qc, m, p, EntryBytes(k, c), b);
  }

  lemma HardEntry<Q(!new)>(qc: QuantityCodec<Q>, k: bytes, c: bytes, b: bytes, pos: nat, m: Quantities<Q>)
    requires pos + |Enc(Str(0x0a, EntryBytes(k, c))) + b| <= MAX_INT
    ensures Decode(HardSchema(qc), Enc(Str(0x0a, EntryBytes(k, c))) + b, pos, m)
            == (match qc.dec(c)
                case Ok(q) =>
                  Decode(HardSchema(qc), b, pos + |Enc(Str(0x0a, EntryBytes(k, c)))|,
                         Quantities(Made((if m.hard.Nil? then map[] else m.hard.made)[k := q])))
                case Err => Err
                case Panic => Panic)
  {
    hide *;
    var p, n := pos + PayloadStart(Str(0x0a, EntryBytes(k, c))), pos + |Enc(Str(0x0a, EntryBytes(k, c)))|;
    StrParts(0x0a, EntryBytes(k, c));
    HardStep(qc, k, c, p, b, m);
    StrRead(HardSchema(qc), 0x0a, EntryBytes(k, c), b, pos, m);
    ThenIs(HardSchema(qc), HardSchema(qc)(1).step(m, p, EntryBytes(k, c), b), b, n);
  }

  // The decoder of a cluster's value is that of HardQuantity, from the empty
  // one.
  lemma HardDecoderIs<Q(!new)>(qc: QuantityCodec<Q>, c: bytes)
    requires |c| <= MAX_INT
    ensures HardDecoder(qc)(c) == Decode(HardSchema(qc), c, 0, Quantities(Nil))
  {
    hide Decode, HardSchema;
  }

  // ---- ProjectSpec ----

  lemma SpecText<Q(!new)>(qc: QuantityCodec<Q>, tag: byte, c: bytes, b: bytes, pos: nat, m: Spec<Q>)
    requires tag in {0x0a, 0x12, 0x1a, 0x22, 0x2a} && pos + |Enc(Str(tag, c)) + b| <= MAX_INT
    ensures Decode(SpecSchema(qc), Enc(Str(tag, c)) + b, pos, m)
            == Decode(SpecSchema(qc), b, pos + |Enc(Str(tag, c))|,
                      if tag == 0x0a then
                        m.(finalizers := Made((if m.finalizers.Nil? then [] else m.finalizers.made) + [c]))
                      else if tag == 0x12 then m.(tenantID := c)
                      else if tag == 0x1a then m.(displayName := c)
                      else if tag == 0x22 then
                        m.(members := Made((if m.members.Nil? then [] else m.members.made) + [c]))
                      else m.(parentProjectName := c))
  {
    hide Decode, Enc, Str, PayloadStart, PutSpecCluster;
    var p := pos + PayloadStart(Str(tag, c));
    StrRead(SpecSchema(qc), tag, c, b, pos, m);
    match tag
    case 0x0a => assert SpecSchema(qc)(1).step(m, p, c, b) == Ok(m.(finalizers := Append(m.finalizers, c)));
    case 0x12 => assert SpecSchema(qc)(2).step(m, p, c, b) == Ok(m.(tenantID := c));
    case 0x1a => assert SpecSchema(qc)(3).step(m, p, c, b) == Ok(m.(displayName := c));
    case 0x22 => assert SpecSchema(qc)(4).step(m, p, c, b) == Ok(m.(members := Append(m.members, c)));
    case 0x2a => assert SpecSchema(qc)(5).step(m, p, c, b) == Ok(m.(parentProjectName := c));
  }

  lemma SpecClusterStep<Q(!new)>(qc: QuantityCodec<Q>, k: bytes, c: bytes, p: nat, b: bytes, m: Spec<Q>)
    requires p + |EntryBytes(k, c)| + |b| <= MAX_INT && |c| <= MAX_INT
    ensures SpecSchema(qc)(6).Delimited?
    ensures SpecSchema(qc)(6).step(m, p, EntryBytes(k, c), b)
            == (match Decode(HardSchema(qc), c, 0, Quantities(Nil))
                case Ok(h) => Ok(m.(clusters := Made((if m.clusters.Nil? then map[] else m.clusters.made)[k := h])))
                case Err => Err
                case Panic => Panic)
  {
    HardDecoderIs(qc, c);
    DecodeEntryExact(HardDecoder(qc), ZeroHard(), p, k, c, b);
    hide Decode, EntryBytes, DecodeEntry, HardDecoder, HardSchema;
    assert SpecSchema(qc)(6).step(m, p, EntryBytes(k, c), b) == PutSpecCluster(qc, m, p, EntryBytes(k, c), b);
  }

  // One cluster, with any bytes c for its value: the value is decoded from the
  // empty HardQuantity and stored, and its failure is the outcome.
  lemma SpecCluster<Q(!new)>(qc: QuantityCodec<Q>, k: bytes, c: bytes, b: bytes, pos: nat, m: Spec<Q>)
    requires pos + |Enc(Str(0x32, EntryBytes(k, c))) + b| <= MAX_INT && |c| <= MAX_INT
    ensures Decode(SpecSchema(qc), Enc(Str(0x32, EntryBytes(k, c))) + b, pos, m)
            == (match Decode(HardSchema(qc), c, 0, Quantities(Nil))
                case Ok(h) =>
                  Decode(SpecSchema(qc), b, pos + |Enc(Str(0x32, EntryBytes(k, c)))|,
                         m.(clusters := Made((if m.clusters.Nil? then map[] else m.clusters.made)[k := h])))
                case Err => Err
                case Panic => Panic)
  {
    hide *;
    var p, n := pos + PayloadStart(Str(0x32, EntryBytes(k, c))), pos + |Enc(Str(0x32, EntryBytes(k, c)))|;
    StrParts(0x32, EntryBytes(k, c));
    SpecClusterStep(qc, k, c, p, b, m);
    StrRead(SpecSchema(qc), 0x32, EntryBytes(k, c), b, pos, m);
    ThenIs(SpecSchema(qc), SpecSchema(qc)(6).step(m, p, EntryBytes(k, c), b), b, n);
  }

  // ---- ProjectStatus ----

  lemma StatusLocked<Q(!new)>(qc: QuantityCodec<Q>, v: uint64, b: bytes, pos: nat, m: Status<Q>)
    requires pos + |Enc(Num(0x08, v)) + b| <= MAX_INT
    ensures Decode(StatusSchema(qc), Enc(Num(0x08, v)) + b, pos, m)
            == Decode(StatusSchema(qc), b, pos + |Enc(Num(0x08, v))|, m.(locked := Some(v != 0)))
  {
    hide Decode, Enc, Num, PutStatusCluster;
    NumRead(StatusSchema(qc), 0x08, v, b, pos, m);
    assert StatusSchema(qc)(1).put(m, v) == m.(locked := Some(ToInt64(v) != 0));
  }

  lemma StatusText<Q(!new)>(qc: QuantityCodec<Q>, tag: byte, c: bytes, b: bytes, pos: nat, m: Status<Q>)
    requires tag in {0x12, 0x22, 0x2a} && pos + |Enc(Str(tag, c)) + b| <= MAX_INT
    ensures Decode(StatusSchema(qc), Enc(Str(tag, c)) + b, pos, m)
            == Decode(StatusSchema(qc), b, pos + |Enc(Str(tag, c))|,
                      if tag == 0x12 then m.(phase := c)
                      else if tag == 0x22 then
                        m.(childProjects := Made((if m.childProjects.Nil? then [] else m.childProjects.made) + [c]))
                      else m.(namespaces := Made((if m.namespaces.Nil? then [] else m.namespaces.made) + [c])))
  {
    hide Decode, Enc, Str, PayloadStart, PutStatusCluster;
    var p := pos + PayloadStart(Str(tag, c));
    StrRead(StatusSchema(qc), tag, c, b, pos, m);
    match tag
    case 0x12 => assert StatusSchema(qc)(2).step(m, p, c, b) == Ok(m.(phase := c));
    case 0x22 => assert StatusSchema(qc)(4).step(m, p, c, b) == Ok(m.(childProjects := Append(m.childProjects, c)));
    case 0x2a => assert StatusSchema(qc)(5).step(m, p, c, b) == Ok(m.(namespaces := Append(m.namespaces, c)));
  }

  lemma StatusClusterStep<Q(!new)>(qc: QuantityCodec<Q>, k: bytes, c: bytes, p: nat, b: bytes, m: Status<Q>)
    requires p + |EntryBytes(k, c)| + |b| <= MAX_INT && |c| <= MAX_INT
    ensures StatusSchema(qc)(3).Delimited?
    ensures StatusSchema(qc)(3).step(m, p, EntryBytes(k, c), b)
            == (match Decode(HardSchema(qc), c, 0, Quantities(Nil))
                case Ok(h) => Ok(m.(clusters := Made((if m.clusters.Nil? then map[] else m.clusters.made)[k := h])))
                case Err => Err
                case Panic => Panic)
  {
    HardDecoderIs(qc, c);
    DecodeEntryExact(HardDecoder(qc), ZeroHard(), p, k, c, b);
    hide Decode, EntryBytes, DecodeEntry, HardDecoder, HardSchema;
    assert StatusSchema(qc)(3).step(m, p, EntryBytes(k, c), b) == PutStatusCluster(qc, m, p, EntryBytes(k, c), b);
  }

  lemma StatusCluster<Q(!new)>(qc: QuantityCodec<Q>, k: bytes, c: bytes, b: bytes, pos: nat, m: Status<Q>)
    requires pos + |Enc(Str(0x1a, EntryBytes(k, c))) + b| <= MAX_INT && |c| <= MAX_INT
    ensures Decode(StatusSchema(qc), Enc(Str(0x1a, EntryBytes(k, c))) + b, pos, m)
            == (match Decode(HardSchema(qc), c, 0, Quantities(Nil))
                case Ok(h) =>
                  Decode(StatusSchema(qc), b, pos + |Enc(Str(0x1a, EntryBytes(k, c)))|,
                         m.(clusters := Made((if m.clusters.Nil? then map[] else m.clusters.made)[k := h])))
                case Err => Err
                case Panic => Panic)
  {
    hide *;
    var p, n := pos + PayloadStart(Str(0x1a, EntryBytes(k, c))), pos + |Enc(Str(0x1a, EntryBytes(k, c)))|;
    StrParts(0x1a, EntryBytes(k, c));
    StatusClusterStep(qc, k, c, p, b, m);
    StrRead(StatusSchema(qc), 0x1a, EntryBytes(k, c), b, pos, m);
    ThenIs(StatusSchema(qc), StatusSchema(qc)(3).step(m, p, EntryBytes(k, c), b), b, n);
  }

  // The field numbers that the messages know; the others are skipped.
  lemma KnownFields<O(!new), Q(!new)>(mc: MetaCodec<O>, qc: QuantityCodec<Q>, f: int)
    ensures !ConditionSchema(f).Unknown? <==> 1 <= f <= 3
    ensures !QuerySchema(f).Unknown? <==> 1 <= f <= 10
    ensures !MetricSchema(mc)(f).Unknown? <==> 1 <= f <= 3
    ensures !HardSchema(qc)(f).Unknown? <==> f == 1
    ensures !SpecSchema(qc)(f).Unknown? <==> 1 <= f <= 6
    ensures !StatusSchema(qc)(f).Unknown? <==> 1 <= f <= 5
    ensures QuerySchema(f).Scalar? <==> f in {2, 3, 9, 10}
    ensures StatusSchema(qc)(f).Scalar? <==> f == 1
  {
  }
}
