// MetricQuery and MetricQueryCondition of api/monitor/v1: their values, what
// their encoders produce, what their decoders accept, and how the two relate.
module Query {
  import opened Bits
  import opened Wrappers
  import opened Varint
  import opened Wire
  import opened Decoder
  import opened Fields

  datatype Condition = Condition(key: bytes, expr: bytes, value: bytes)

  datatype Query = Query(
    table: bytes,
    startTime: Option<int64>,
    endTime: Option<int64>,
    fields: Nilable<seq<bytes>>,
    conditions: Nilable<seq<Condition>>,
    orderBy: bytes,
    order: bytes,
    groupBy: Nilable<seq<bytes>>,
    limit: int32,
    offset: int32)

  const ZERO_CONDITION := Condition([], [], [])
  const ZERO_QUERY := Query([], None, None, Nil, Nil, [], [], Nil, 0, 0)

  // ---- Decoding: what each field number does ----

  function ConditionSchema(f: int): Kind<Condition> {
    match f
    case 1 => Delimited((m: Condition, p: nat, c: bytes, a: bytes) => Ok(m.(key := c)))
    case 2 => Delimited((m: Condition, p: nat, c: bytes, a: bytes) => Ok(m.(expr := c)))
    case 3 => Delimited((m: Condition, p: nat, c: bytes, a: bytes) => Ok(m.(value := c)))
    case _ => Unknown
  }

  function DecodeCondition(c: bytes): Result<Condition> {
    if |c| <= MAX_INT then Decode(ConditionSchema, c, 0, ZERO_CONDITION) else Err
  }

  function AddCondition(m: Query, c: bytes): Result<Query> {
    match DecodeCondition(c)
    case Ok(x) => Ok(m.(conditions := Append(m.conditions, x)))
    case Err => Err
    case Panic => Panic
  }

  function QuerySchema(f: int): Kind<Query> {
    match f
    case 1 => Delimited((m: Query, p: nat, c: bytes, a: bytes) => Ok(m.(table := c)))
    case 2 => Scalar((m: Query, v: uint64) => m.(startTime := Some(ToInt64(v))))
    case 3 => Scalar((m: Query, v: uint64) => m.(endTime := Some(ToInt64(v))))
    case 4 => Delimited((m: Query, p: nat, c: bytes, a: bytes) => Ok(m.(fields := Append(m.fields, c))))
    case 5 => Delimited((m: Query, p: nat, c: bytes, a: bytes) => AddCondition(m, c))
    case 6 => Delimited((m: Query, p: nat, c: bytes, a: bytes) => Ok(m.(orderBy := c)))
    case 7 => Delimited((m: Query, p: nat, c: bytes, a: bytes) => Ok(m.(order := c)))
    case 8 => Delimited((m: Query, p: nat, c: bytes, a: bytes) => Ok(m.(groupBy := Append(m.groupBy, c))))
    case 9 => Scalar((m: Query, v: uint64) => m.(limit := ToInt32(v % TWO32)))
    case 10 => Scalar((m: Query, v: uint64) => m.(offset := ToInt32(v % TWO32)))
    case _ => Unknown
  }

  // ---- Encoding: the records written, in wire order ----

  function ConditionRecords(c: Condition): seq<Record> {
    [Str(0x0a, c.key), Str(0x12, c.expr), Str(0x1a, c.value)]
  }

  function EncCondition(c: Condition): bytes {
    EncAll(ConditionRecords(c))
  }

  function TimeRecords(tag: byte, t: Option<int64>): seq<Record> {
    match t
    case Some(v) => [Num(tag, ToUint64(v))]
    case None => []
  }

  function ConditionFields(cs: seq<Condition>): seq<Record> {
    seq(|cs|, i requires 0 <= i < |cs| => Str(0x2a, EncCondition(cs[i])))
  }

  // The records of each of the ten fields.
  function QueryPart(q: Query, k: nat): seq<Record> {
    match k
    case 0 => [Str(0x0a, q.table)]
    case 1 => TimeRecords(0x10, q.startTime)
    case 2 => TimeRecords(0x18, q.endTime)
    case 3 => Strs(0x22, Elems(q.fields))
    case 4 => ConditionFields(Elems(q.conditions))
    case 5 => [Str(0x32, q.orderBy)]
    case 6 => [Str(0x3a, q.order)]
    case 7 => Strs(0x42, Elems(q.groupBy))
    case 8 => [Num(0x48, ToUint64(q.limit))]
    case 9 => [Num(0x50, ToUint64(q.offset))]
    case _ => []
  }

  function QueryTail(q: Query, k: nat): seq<Record>
    decreases 10 - k
  {
    if k >= 10 then [] else QueryPart(q, k) + QueryTail(q, k + 1)
  }

  function QueryRecords(q: Query): seq<Record> {
    QueryTail(q, 0)
  }

  function EncQuery(q: Query): bytes {
    EncAll(QueryRecords(q))
  }

  // A query up to what the encoding identifies: empty and nil slices.
  function NormQuery(q: Query): Query {
    q.(fields := NormSlice(q.fields), conditions := NormSlice(q.conditions), groupBy := NormSlice(q.groupBy))
  }

  // ---- Both schemas are local and quiet ----

  lemma ConditionLocal()
    ensures Local(ConditionSchema) && Quiet(ConditionSchema) && Stable(ConditionSchema)
  {
    LocalIsStable(ConditionSchema);
  }

  lemma QueryLocal()
    ensures Local(QuerySchema) && Quiet(QuerySchema) && Stable(QuerySchema)
  {
    ConditionLocal();
    forall m: Query, c: bytes
      ensures !AddCondition(m, c).Panic?
    {
      if |c| <= MAX_INT {
        DecodeTotal(ConditionSchema, c, 0, ZERO_CONDITION);
      }
    }
    hide AddCondition;
    LocalIsStable(QuerySchema);
  }

  // ---- Well-formedness of what is written ----

  lemma ConditionWellFormed(c: Condition)
    requires |EncCondition(c)| <= MAX_INT
    ensures WellFormedAll(ConditionRecords(c))
  {
    var rs := ConditionRecords(c);
    forall i | 0 <= i < 3
      ensures WellFormed(rs[i])
    {
      EncAllAt(rs, i);
      StrWellFormed(rs[i].tag[0], rs[i].payload.content);
    }
  }

  lemma PartWellFormed(q: Query, k: nat)
    requires |EncAll(QueryPart(q, k))| <= MAX_INT
    ensures WellFormedAll(QueryPart(q, k))
  {
    var rs := QueryPart(q, k);
    forall i | 0 <= i < |rs|
      ensures WellFormed(rs[i])
    {
      EncAllAt(rs, i);
      PartTags(q, k, i);
      hide QueryPart, WellFormed, EncVarint, EncCondition;
      if rs[i].payload.Bytes? {
        StrWellFormed(rs[i].tag[0], rs[i].payload.content);
      } else {
        NumWellFormed(rs[i].tag[0], PartValue(q, k));
      }
    }
  }

  lemma PartTags(q: Query, k: nat, i: nat)
    requires i < |QueryPart(q, k)|
    ensures var r := QueryPart(q, k)[i];
            && |r.tag| == 1 && r.tag[0] < 128
            && if r.payload.Bytes? then r.tag[0] % 8 == 2 && r == Str(r.tag[0], r.payload.content)
               else r.tag[0] % 8 == 0 && r == Num(r.tag[0], PartValue(q, k))
  {
    hide EncVarint, EncCondition;
  }

  // The value of a varint part.
  function PartValue(q: Query, k: nat): uint64 {
    match k
    case 1 => if q.startTime.Some? then ToUint64(q.startTime.value) else 0
    case 2 => if q.endTime.Some? then ToUint64(q.endTime.value) else 0
    case 8 => ToUint64(q.limit)
    case 9 => ToUint64(q.offset)
    case _ => 0
  }

  lemma {:induction false} TailWellFormed(q: Query, k: nat)
    requires |EncAll(QueryTail(q, k))| <= MAX_INT
    ensures WellFormedAll(QueryTail(q, k))
    decreases 10 - k
  {
    hide QueryPart, WellFormed, EncAll;
    if k < 10 {
      EncAllAppend(QueryPart(q, k), QueryTail(q, k + 1));
      PartWellFormed(q, k);
      TailWellFormed(q, k + 1);
    }
  }

  // ---- Round trips ----

  // All three fields are always written, so a condition comes back whatever
  // message it is decoded into.
  lemma ConditionRoundTrip(c: Condition, m: Condition)
    requires |EncCondition(c)| <= MAX_INT
    ensures Decode(ConditionSchema, EncCondition(c), 0, m) == Ok(c)
  {
    ConditionLocal();
    ConditionWellFormed(c);
    var rs := ConditionRecords(c);
    var r1, r2, r3 := rs[0], rs[1], rs[2];
    var m1 := m.(key := c.key);
    var m2 := m1.(expr := c.expr);
    ApplyStr(ConditionSchema, 0x0a, c.key, m);
    ApplyStr(ConditionSchema, 0x12, c.expr, m1);
    ApplyStr(ConditionSchema, 0x1a, c.value, m2);
    assert rs == [r1] + [r2, r3] && [r2, r3] == [r2] + [r3];
    hide *;
    FoldCons(ConditionSchema, r1, [r2, r3], m);
    FoldCons(ConditionSchema, r2, [r3], m1);
    FoldOne(ConditionSchema, r3, m2);
    DecodeRecords(ConditionSchema, rs, 0, m);
  }

  lemma {:induction false} FoldFields(ss: seq<bytes>, m: Query)
    ensures Fold(QuerySchema, Strs(0x22, ss), m) == Ok(m.(fields := AppendAll(m.fields, ss)))
  {
    if ss == [] {
      FoldNone(QuerySchema, Strs(0x22, ss), m);
    } else {
      var m' := m.(fields := Append(m.fields, ss[0]));
      ApplyStr(QuerySchema, 0x22, ss[0], m);
      hide *;
      StrsHead(0x22, ss);
      FoldCons(QuerySchema, Str(0x22, ss[0]), Strs(0x22, ss[1..]), m);
      FoldFields(ss[1..], m');
      AppendAllStep(m.fields, ss);
    }
  }

  lemma {:induction false} FoldGroupBy(ss: seq<bytes>, m: Query)
    ensures Fold(QuerySchema, Strs(0x42, ss), m) == Ok(m.(groupBy := AppendAll(m.groupBy, ss)))
  {
    if ss == [] {
      FoldNone(QuerySchema, Strs(0x42, ss), m);
    } else {
      var m' := m.(groupBy := Append(m.groupBy, ss[0]));
      ApplyStr(QuerySchema, 0x42, ss[0], m);
      hide *;
      StrsHead(0x42, ss);
      FoldCons(QuerySchema, Str(0x42, ss[0]), Strs(0x42, ss[1..]), m);
      FoldGroupBy(ss[1..], m');
      AppendAllStep(m.groupBy, ss);
    }
  }

  lemma {:induction false} FoldConditions(cs: seq<Condition>, m: Query)
    requires forall i :: 0 <= i < |cs| ==> |EncCondition(cs[i])| <= MAX_INT
    ensures Fold(QuerySchema, ConditionFields(cs), m) == Ok(m.(conditions := AppendAll(m.conditions, cs)))
  {
    if cs == [] {
      FoldNone(QuerySchema, ConditionFields(cs), m);
    } else {
      var m' := m.(conditions := Append(m.conditions, cs[0]));
      var r := Str(0x2a, EncCondition(cs[0]));
      ConditionFieldsHead(cs);
      ApplyCondition(cs[0], m);
      hide *;
      FoldCons(QuerySchema, r, ConditionFields(cs[1..]), m);
      FoldConditions(cs[1..], m');
      AppendAllStep(m.conditions, cs);
    }
  }

  lemma ApplyCondition(c: Condition, m: Query)
    requires |EncCondition(c)| <= MAX_INT
    ensures Apply(QuerySchema, m, Str(0x2a, EncCondition(c))) == Ok(m.(conditions := Append(m.conditions, c)))
  {
    ConditionRoundTrip(c, ZERO_CONDITION);
    hide EncCondition;
    ApplyStr(QuerySchema, 0x2a, EncCondition(c), m);
  }

  lemma ConditionFieldsHead(cs: seq<Condition>)
    requires cs != []
    ensures ConditionFields(cs) == [Str(0x2a, EncCondition(cs[0]))] + ConditionFields(cs[1..])
  {
  }

  // Decoding an encoded query into a message: the always-written fields and
  // the times present are replaced, the repeated fields are appended to.
  function Merge(m: Query, q: Query): Query {
    Query(q.table,
          if q.startTime.Some? then q.startTime else m.startTime,
          if q.endTime.Some? then q.endTime else m.endTime,
          AppendAll(m.fields, Elems(q.fields)),
          AppendAll(m.conditions, Elems(q.conditions)),
          q.orderBy,
          q.order,
          AppendAll(m.groupBy, Elems(q.groupBy)),
          q.limit,
          q.offset)
  }

  // The message reached when the first k fields of q have been read into m.
  function Upto(m: Query, q: Query, k: nat): Query {
    var n := Merge(m, q);
    Query(if k > 0 then n.table else m.table,
          if k > 1 then n.startTime else m.startTime,
          if k > 2 then n.endTime else m.endTime,
          if k > 3 then n.fields else m.fields,
          if k > 4 then n.conditions else m.conditions,
          if k > 5 then n.orderBy else m.orderBy,
          if k > 6 then n.order else m.order,
          if k > 7 then n.groupBy else m.groupBy,
          if k > 8 then n.limit else m.limit,
          if k > 9 then n.offset else m.offset)
  }

  lemma FoldPart(m0: Query, q: Query, k: nat)
    requires k < 10 && |EncAll(QueryPart(q, k))| <= MAX_INT
    ensures Fold(QuerySchema, QueryPart(q, k), Upto(m0, q, k)) == Ok(Upto(m0, q, k + 1))
  {
    hide Fold, Apply, Str, Num, EncVarint, EncCondition, Strs, ConditionFields, AppendAll, Elems;
    var m := Upto(m0, q, k);
    match k
    case 0 =>
      FoldStr(0x0a, q.table, m);
    case 1 =>
      if q.startTime.Some? {
        FoldTime(0x10, q.startTime.value, m);
      } else {
        FoldNone(QuerySchema, QueryPart(q, k), m);
      }
    case 2 =>
      if q.endTime.Some? {
        FoldTime(0x18, q.endTime.value, m);
      } else {
        FoldNone(QuerySchema, QueryPart(q, k), m);
      }
    case 3 =>
      FoldFields(Elems(q.fields), m);
    case 4 =>
      ConditionsFit(Elems(q.conditions));
      FoldConditions(Elems(q.conditions), m);
    case 5 =>
      FoldStr(0x32, q.orderBy, m);
    case 6 =>
      FoldStr(0x3a, q.order, m);
    case 7 =>
      FoldGroupBy(Elems(q.groupBy), m);
    case 8 =>
      FoldCount(0x48, q.limit, m);
    case 9 =>
      FoldCount(0x50, q.offset, m);
  }

  lemma ConditionsFit(cs: seq<Condition>)
    ensures forall i :: 0 <= i < |cs| ==> |EncCondition(cs[i])| <= |EncAll(ConditionFields(cs))|
  {
    forall i | 0 <= i < |cs|
      ensures |EncCondition(cs[i])| <= |EncAll(ConditionFields(cs))|
    {
      EncAllAt(ConditionFields(cs), i);
    }
  }

  lemma FoldStr(tag: byte, s: bytes, m: Query)
    requires tag in {0x0a, 0x32, 0x3a}
    ensures Fold(QuerySchema, [Str(tag, s)], m)
            == Ok(if tag == 0x0a then m.(table := s) else if tag == 0x32 then m.(orderBy := s) else m.(order := s))
  {
    ApplyStr(QuerySchema, tag, s, m);
    FoldOne(QuerySchema, Str(tag, s), m);
  }

  lemma FoldTime(tag: byte, t: int64, m: Query)
    requires tag == 0x10 || tag == 0x18
    ensures Fold(QuerySchema, [Num(tag, ToUint64(t))], m)
            == Ok(if tag == 0x10 then m.(startTime := Some(t)) else m.(endTime := Some(t)))
  {
    SignedRoundTrip(t);
    ApplyNum(QuerySchema, tag, ToUint64(t), m);
    FoldOne(QuerySchema, Num(tag, ToUint64(t)), m);
  }

  lemma FoldCount(tag: byte, n: int32, m: Query)
    requires tag == 0x48 || tag == 0x50
    ensures Fold(QuerySchema, [Num(tag, ToUint64(n))], m)
            == Ok(if tag == 0x48 then m.(limit := n) else m.(offset := n))
  {
    SignedRoundTrip(n);
    ApplyNum(QuerySchema, tag, ToUint64(n), m);
    FoldOne(QuerySchema, Num(tag, ToUint64(n)), m);
  }

  lemma {:induction false} FoldTail(m: Query, q: Query, k: nat)
    requires k <= 10 && |EncAll(QueryTail(q, k))| <= MAX_INT
    ensures Fold(QuerySchema, QueryTail(q, k), Upto(m, q, k)) == Ok(Merge(m, q))
    decreases 10 - k
  {
    hide QueryPart, EncAll;
    if k < 10 {
      EncAllAppend(QueryPart(q, k), QueryTail(q, k + 1));
      FoldPart(m, q, k);
      hide Upto, QuerySchema;
      FoldAppend(QuerySchema, QueryPart(q, k), QueryTail(q, k + 1), Upto(m, q, k));
      FoldTail(m, q, k + 1);
    }
  }

  lemma QueryMeaning(m: Query, q: Query)
    requires |EncQuery(q)| <= MAX_INT
    ensures WellFormedAll(QueryRecords(q))
    ensures Fold(QuerySchema, QueryRecords(q), m) == Ok(Merge(m, q))
  {
    TailWellFormed(q, 0);
    FoldTail(m, q, 0);
    assert Upto(m, q, 0) == m;
  }

  // Decoding an encoded query into any message merges it in.
  lemma QueryMerges(m: Query, q: Query)
    requires |EncQuery(q)| <= MAX_INT
    ensures Decode(QuerySchema, EncQuery(q), 0, m) == Ok(Merge(m, q))
  {
    QueryLocal();
    QueryMeaning(m, q);
    hide *;
    DecodeRecords(QuerySchema, QueryRecords(q), 0, m);
  }

  // Every query comes back from its encoding, negative times, limits and
  // offsets included, with empty slices read back as nil.
  lemma QueryRoundTrip(q: Query)
    requires |EncQuery(q)| <= MAX_INT
    ensures Decode(QuerySchema, EncQuery(q), 0, ZERO_QUERY) == Ok(NormQuery(q))
  {
    QueryMerges(ZERO_QUERY, q);
    AppendAllToNil(q.fields);
    AppendAllToNil(q.conditions);
    AppendAllToNil(q.groupBy);
  }

  // Concatenation is merge, for any bytes: once a has been read, reading goes
  // on with b from the query reached.
  lemma QueryReadsOn(a: bytes, b: bytes, m: Query)
    requires |a + b| <= MAX_INT && Decode(QuerySchema, a, 0, m).Ok?
    ensures Decode(QuerySchema, a + b, 0, m) == Decode(QuerySchema, b, 0, Decode(QuerySchema, a, 0, m).value)
  {
    hide *;
    QueryLocal();
    MergeLocal(QuerySchema, a, b, m);
  }

  // Encodings written one after the other are read as one merged message.
  lemma QueryConcat(p: Query, q: Query)
    requires |EncQuery(p) + EncQuery(q)| <= MAX_INT
    ensures Decode(QuerySchema, EncQuery(p) + EncQuery(q), 0, ZERO_QUERY) == Ok(Merge(NormQuery(p), q))
  {
    QueryLocal();
    QueryRoundTrip(p);
    QueryMerges(NormQuery(p), q);
    hide *;
    MergeLocal(QuerySchema, EncQuery(p), EncQuery(q), ZERO_QUERY);
  }

  // Writing a query that has been stored gives the same bytes.
  lemma QueryNormEncodes(q: Query)
    ensures EncQuery(NormQuery(q)) == EncQuery(q)
  {
    TailNorm(q, 0);
  }

  lemma {:induction false} TailNorm(q: Query, k: nat)
    ensures QueryTail(NormQuery(q), k) == QueryTail(q, k)
    decreases 10 - k
  {
    hide Strs, ConditionFields, Str, Num, TimeRecords;
    if k < 10 {
      TailNorm(q, k + 1);
    }
  }

  // Encodings are equal exactly when the queries differ in nil against empty
  // only.
  lemma QueryEncodingInjective(p: Query, q: Query)
    requires |EncQuery(p)| <= MAX_INT
    ensures EncQuery(p) == EncQuery(q) <==> NormQuery(p) == NormQuery(q)
  {
    hide *;
    if EncQuery(p) == EncQuery(q) {
      QueryRoundTrip(p);
      QueryRoundTrip(q);
    }
    QueryNormEncodes(p);
    QueryNormEncodes(q);
  }

  // A record of field 5 whose payload is no condition.
  ghost predicate NoCondition(r: Record) {
    && r.payload.Bytes? && FieldNumber(Value(r.tag)) == 5 && |r.payload.content| <= MAX_INT
    && !Decode(ConditionSchema, r.payload.content, 0, Condition([], [], [])).Ok?
  }

  // A splitting with an undecodable condition is an error return, wherever the
  // condition stands and whatever its tag and length look like.
  lemma QueryWithoutCondition(rs: seq<Record>, i: nat, m: Query)
    requires WellFormedAll(rs) && |EncAll(rs)| <= MAX_INT && i < |rs| && NoCondition(rs[i])
    ensures Decode(QuerySchema, EncAll(rs), 0, m) == Err
  {
    hide *;
    QueryLocal();
    DecodeIsFold(QuerySchema, rs, 0, m);
    FoldAtLocal(QuerySchema, rs, 0, m);
    NoConditionFold(rs, i, m);
    DecodeTotal(QuerySchema, EncAll(rs), 0, m);
  }

  lemma {:induction false} NoConditionFold(rs: seq<Record>, i: nat, m: Query)
    requires i < |rs| && NoCondition(rs[i])
    ensures !Fold(QuerySchema, rs, m).Ok?
  {
    hide Apply, NoCondition, QuerySchema;
    if i == 0 {
      NoConditionApply(rs[0], m);
    } else if Apply(QuerySchema, m, rs[0]).Ok? {
      NoConditionFold(rs[1..], i - 1, Apply(QuerySchema, m, rs[0]).value);
    }
  }

  lemma NoConditionApply(r: Record, m: Query)
    requires NoCondition(r)
    ensures !Apply(QuerySchema, m, r).Ok?
  {
    hide Decode, ConditionSchema, FieldNumber, Value;
    assert QuerySchema(5).step(m, 0, r.payload.content, []) == AddCondition(m, r.payload.content);
  }

  // Unmarshal of a query accepts exactly the byte strings that split into
  // well-formed records with positive field numbers, the wire types of the
  // schema and decodable conditions; the result is the fold of the records, and
  // a splitting with an undecodable condition is an error return.
  lemma QueryRefinesGrammar(s: bytes, m: Query, m': Query)
    requires |s| <= MAX_INT
    ensures Decode(QuerySchema, s, 0, m) == Ok(m') <==>
            exists rs :: WellFormedAll(rs) && EncAll(rs) == s && Fold(QuerySchema, rs, m) == Ok(m')
    ensures !Decode(QuerySchema, s, 0, m).Panic?
    ensures forall rs, i :: WellFormedAll(rs) && EncAll(rs) == s && 0 <= i < |rs| && NoCondition(rs[i])
                            ==> Decode(QuerySchema, s, 0, m) == Err
  {
    hide *;
    QueryLocal();
    forall rs, i | WellFormedAll(rs) && EncAll(rs) == s && 0 <= i < |rs| && NoCondition(rs[i])
      ensures Decode(QuerySchema, s, 0, m) == Err
    {
      QueryWithoutCondition(rs, i, m);
    }
    DecodeRefinesGrammar(QuerySchema, s, m, m');
    DecodeTotal(QuerySchema, s, 0, m);
  }

  lemma ConditionRefinesGrammar(s: bytes, m: Condition, m': Condition)
    requires |s| <= MAX_INT
    ensures Decode(ConditionSchema, s, 0, m) == Ok(m') <==>
            exists rs :: WellFormedAll(rs) && EncAll(rs) == s && Fold(ConditionSchema, rs, m) == Ok(m')
    ensures !Decode(ConditionSchema, s, 0, m).Panic?
  {
    hide *;
    ConditionLocal();
    DecodeRefinesGrammar(ConditionSchema, s, m, m');
    DecodeTotal(ConditionSchema, s, 0, m);
  }

  // A prefix of an encoded query decodes exactly when the cut falls between
  // two of its records: any cut inside a tag, a length, a payload or a nested
  // condition is an error.
  lemma QueryTruncation(q: Query, p: bytes, m: Query)
    requires |EncQuery(q)| <= MAX_INT && p <= EncQuery(q)
    ensures Decode(QuerySchema, p, 0, m).Ok? <==>
            exists k :: 0 <= k <= |QueryRecords(q)| && p == EncAll(QueryRecords(q)[..k])
    ensures Decode(QuerySchema, p, 0, m).Ok? || Decode(QuerySchema, p, 0, m) == Err
  {
    QueryLocal();
    QueryMeaning(m, q);
    hide *;
    TruncationDetected(QuerySchema, QueryRecords(q), p, m);
    DecodeTotal(QuerySchema, p, 0, m);
  }

  // An unknown record at any record boundary changes nothing, whether or not
  // the rest decodes.
  lemma QueryUnknownTransparent(rs: seq<Record>, r: Record, b: bytes, m: Query)
    requires WellFormedAll(rs) && IsUnknown(QuerySchema, r)
    requires |EncAll(rs) + Enc(r) + b| <= MAX_INT
    ensures Decode(QuerySchema, EncAll(rs) + Enc(r) + b, 0, m) == Decode(QuerySchema, EncAll(rs) + b, 0, m)
  {
    hide *;
    QueryLocal();
    UnknownTransparentLocal(QuerySchema, rs, r, b, m);
  }
}
