// The generated methods of MetricQueryCondition and MetricQuery.
module MetricQueryCodec {
  import opened Bits
  import opened Wrappers
  import opened Varint
  import opened Wire
  import opened Decoder
  import opened Fields
  import opened Reading
  import opened Query

  class MetricQueryCondition {
    var key: bytes
    var expr: bytes
    var value: bytes

    constructor (c: Condition)
      ensures Contents() == c
    {
      key, expr, value := c.key, c.expr, c.value;
    }

    function Contents(): Condition
      reads this
    {
      Condition(key, expr, value)
    }

    method Size() returns (n: nat)
      requires |EncCondition(Contents())| <= MAX_INT
      ensures n == |EncCondition(Contents())|
    {
      ConditionFits(Contents());
      StrSize(0x0a, key);
      StrSize(0x12, expr);
      StrSize(0x1a, value);
      hide EncCondition, Enc, Sov;
      n := 0;
      var l := |key|;
      n := n + 1 + l + Sov(l);
      l := |expr|;
      n := n + 1 + l + Sov(l);
      l := |value|;
      n := n + 1 + l + Sov(l);
    }

    // The slice dAtA[:end] of the source.
    method MarshalToSizedBuffer(dAtA: array<byte>, end: nat) returns (n: nat)
      requires |EncCondition(Contents())| <= end <= dAtA.Length <= MAX_INT
      modifies dAtA
      ensures Contents() == old(Contents()) && n == |EncCondition(Contents())|
      ensures Written(old(dAtA[..]), dAtA[..], end - n, end, EncCondition(Contents()))
    {
      ConditionFits(Contents());
      hide Written, Enc, Str, EncCondition;
      ghost var a := dAtA[..];
      ghost var x1, x2, x3 := Enc(Str(0x0a, key)), Enc(Str(0x12, expr)), Enc(Str(0x1a, value));
      WrittenNone(a, end);
      var i := PutBytes(dAtA, end, 0x1a, value, a, end, []);
      assert x3 + [] == x3;
      i := PutBytes(dAtA, i, 0x12, expr, a, end, x3);
      i := PutBytes(dAtA, i, 0x0a, key, a, end, x2 + x3);
      WrittenRoom(a, dAtA[..], i, end, x1 + (x2 + x3));
      return end - i;
    }

    // dAtA[:n] is the whole buffer, and the buffer is the encoding.
    method Marshal() returns (r: bytes)
      requires |EncCondition(Contents())| <= MAX_INT
      ensures r == EncCondition(Contents())
    {
      hide EncCondition, Written;
      var size := Size();
      var dAtA := new byte[size](_ => 0);
      ghost var a := dAtA[..];
      var n := MarshalToSizedBuffer(dAtA, size);
      WrittenWhole(a, dAtA[..], size - n, EncCondition(Contents()));
      return dAtA[..n];
    }

    method Unmarshal(data: bytes) returns (st: Outcome)
      requires |data| <= MAX_INT
      modifies this
      ensures Agrees(Decode(ConditionSchema, data, 0, old(Contents())), st, Contents())
    {
      hide Run, TagAt, BoundsAt, SkipAt;
      ghost var m0 := Contents();
      RunEnds(ConditionSchema, data, m0);
      var i := 0;
      while i < |data|
        invariant 0 <= i <= |data|
        invariant Run(ConditionSchema, data, i, Contents()) == Run(ConditionSchema, data, 0, m0)
      {
        Turn(ConditionSchema, data, i, Contents());
        var tag := ReadTag(data, i);
        if tag.None? {
          return Failed;
        }
        var (fieldNum, wireType, next) := tag.value;
        if 1 <= fieldNum <= 3 {
          if wireType != 2 {
            return Failed;
          }
          var bounds := ReadBounds(data, next);
          if bounds.None? {
            return Failed;
          }
          var (start, postIndex) := bounds.value;
          match fieldNum {
            case 1 => key := data[start..postIndex];
            case 2 => expr := data[start..postIndex];
            case _ => value := data[start..postIndex];
          }
          i := postIndex;
        } else {
          var skipped := SkipUnknown(data, i);
          if skipped.None? {
            return Failed;
          }
          i := skipped.value;
        }
      }
      RunEnds(ConditionSchema, data, Contents());
      return Good;
    }
  }

  lemma ConditionFits(c: Condition)
    ensures var x1, x2, x3 := Enc(Str(0x0a, c.key)), Enc(Str(0x12, c.expr)), Enc(Str(0x1a, c.value));
            && EncCondition(c) == x1 + (x2 + x3)
            && |c.key| <= |x1| && |c.expr| <= |x2| && |c.value| <= |x3|
  {
    var s1, s2, s3 := Str(0x0a, c.key), Str(0x12, c.expr), Str(0x1a, c.value);
    assert ConditionRecords(c) == [s1] + ([s2] + [s3]);
    EncStr(0x0a, c.key);
    EncStr(0x12, c.expr);
    EncStr(0x1a, c.value);
    hide Enc, Str;
    EncAllOne(s3);
    EncAllCons(s2, [s3]);
    EncAllCons(s1, [s2] + [s3]);
  }

  class MetricQuery {
    var table: bytes
    var startTime: Option<int64>
    var endTime: Option<int64>
    var fields: Nilable<seq<bytes>>
    var conditions: Nilable<seq<Condition>>
    var orderBy: bytes
    var order: bytes
    var groupBy: Nilable<seq<bytes>>
    var limit: int32
    var offset: int32

    constructor (q: Query)
      ensures Contents() == q
    {
      table, startTime, endTime, fields, conditions := q.table, q.startTime, q.endTime, q.fields, q.conditions;
      orderBy, order, groupBy, limit, offset := q.orderBy, q.order, q.groupBy, q.limit, q.offset;
    }

    function Contents(): Query
      reads this
    {
      Query(table, startTime, endTime, fields, conditions, orderBy, order, groupBy, limit, offset)
    }

    method Size() returns (n: nat)
      requires |EncQuery(Contents())| <= MAX_INT
      ensures n == |EncQuery(Contents())|
    {
      QuerySizes(Contents());
      hide EncQuery, Strs, ConditionFields, EncAll, Sov, Enc, Str, Num, ToUint64, Elems, TimeSize;
      n := 0;
      var l := |table|;
      n := n + 1 + l + Sov(l);
      var s := SizeTime(startTime);
      n := n + s;
      s := SizeTime(endTime);
      n := n + s;
      s := SizeStrs(0x22, Elems(fields));
      n := n + s;
      s := SizeConditions(Elems(conditions));
      n := n + s;
      l := |orderBy|;
      n := n + 1 + l + Sov(l);
      l := |order|;
      n := n + 1 + l + Sov(l);
      s := SizeStrs(0x42, Elems(groupBy));
      n := n + s;
      n := n + 1 + Sov(ToUint64(limit));
      n := n + 1 + Sov(ToUint64(offset));
    }

    // The slice dAtA[:end] of the source.
    method MarshalToSizedBuffer(dAtA: array<byte>, end: nat) returns (n: nat)
      requires |EncQuery(Contents())| <= end <= dAtA.Length <= MAX_INT
      modifies dAtA
      ensures Contents() == old(Contents()) && n == |EncQuery(Contents())|
      ensures Written(old(dAtA[..]), dAtA[..], end - n, end, EncQuery(Contents()))
    {
      ghost var q, a := Contents(), dAtA[..];
      QueryFits(q);
      PartsFit(q);
      hide Written, QueryPart, QueryTail, EncQuery, Strs, ConditionFields, EncAll, Enc, Str, Num, TimeRecords;
      WrittenNone(a, end);
      var i := end;
      i := PutNum(dAtA, i, 0x50, ToUint64(offset), a, end, EncAll(QueryTail(q, 10)));
      i := PutNum(dAtA, i, 0x48, ToUint64(limit), a, end, EncAll(QueryTail(q, 9)));
      i := PutStrs(dAtA, i, 0x42, Elems(groupBy), a, end, EncAll(QueryTail(q, 8)));
      i := PutBytes(dAtA, i, 0x3a, order, a, end, EncAll(QueryTail(q, 7)));
      i := PutBytes(dAtA, i, 0x32, orderBy, a, end, EncAll(QueryTail(q, 6)));
      i := PutConditions(dAtA, i, Elems(conditions), a, end, EncAll(QueryTail(q, 5)));
      i := PutStrs(dAtA, i, 0x22, Elems(fields), a, end, EncAll(QueryTail(q, 4)));
      i := PutTime(dAtA, i, 0x18, endTime, a, end, EncAll(QueryTail(q, 3)));
      i := PutTime(dAtA, i, 0x10, startTime, a, end, EncAll(QueryTail(q, 2)));
      i := PutBytes(dAtA, i, 0x0a, table, a, end, EncAll(QueryTail(q, 1)));
      WrittenRoom(a, dAtA[..], i, end, EncQuery(q));
      return end - i;
    }

    // dAtA[:n] is the whole buffer, and the buffer is the encoding.
    method Marshal() returns (r: bytes)
      requires |EncQuery(Contents())| <= MAX_INT
      ensures r == EncQuery(Contents())
    {
      hide EncQuery, Written;
      var size := Size();
      var dAtA := new byte[size](_ => 0);
      ghost var a := dAtA[..];
      var n := MarshalToSizedBuffer(dAtA, size);
      WrittenWhole(a, dAtA[..], size - n, EncQuery(Contents()));
      return dAtA[..n];
    }

    method Unmarshal(data: bytes) returns (st: Outcome)
      requires |data| <= MAX_INT
      modifies this
      ensures Agrees(Decode(QuerySchema, data, 0, old(Contents())), st, Contents())
    {
      hide Run, TagAt, BoundsAt, SkipAt, Decode, QuerySchema, FieldStep;
      ghost var m0 := Contents();
      RunEnds(QuerySchema, data, m0);
      var i := 0;
      while i < |data|
        invariant 0 <= i <= |data|
        invariant Run(QuerySchema, data, i, Contents()) == Run(QuerySchema, data, 0, m0)
      {
        Turn(QuerySchema, data, i, Contents());
        var tag := ReadTag(data, i);
        if tag.None? {
          return Failed;
        }
        var (fieldNum, wireType, next) := tag.value;
        st, i := Field(data, i, fieldNum, wireType, next);
        if st != Good {
          return;
        }
      }
      RunEnds(QuerySchema, data, Contents());
      return Good;
    }

    // The switch of Unmarshal on the field number.
    method Field(data: bytes, preIndex: nat, fieldNum: int, wireType: nat, next: nat) returns (st: Outcome, i: nat)
      requires preIndex < next <= |data| <= MAX_INT
      modifies this
      ensures match FieldStep(QuerySchema(fieldNum), wireType, data, preIndex, next, old(Contents()))
              case Ok((m, e)) => st == Good && Contents() == m && i == e
              case Err => st == Failed
              case Panic => st == Panicked
    {
      FieldCases(fieldNum, wireType, data, preIndex, next, Contents());
      hide BoundsAt, SkipAt, ReadVarintAt, DecodeCondition, QuerySchema, FieldStep, ToInt64, ToInt32, Decode;
      i := next;
      if fieldNum == 2 || fieldNum == 3 {
        if wireType != 0 {
          return Failed, i;
        }
        var v, e := ReadInt64(data, i);
        if !v.Ok? {
          return Failed, i;
        }
        if fieldNum == 2 {
          startTime := Some(v.value);
        } else {
          endTime := Some(v.value);
        }
        return Good, e;
      } else if fieldNum == 9 || fieldNum == 10 {
        if wireType != 0 {
          return Failed, i;
        }
        var v, e := ReadInt32(data, i);
        if !v.Ok? {
          return Failed, i;
        }
        if fieldNum == 9 {
          limit := v.value;
        } else {
          offset := v.value;
        }
        return Good, e;
      } else if 1 <= fieldNum <= 8 {
        if wireType != 2 {
          return Failed, i;
        }
        var bounds := ReadBounds(data, i);
        if bounds.None? {
          return Failed, i;
        }
        st := Payload(fieldNum, data[bounds.value.0..bounds.value.1]);
        return st, bounds.value.1;
      } else {
        var skipped := SkipUnknown(data, preIndex);
        if skipped.None? {
          return Failed, i;
        }
        return Good, skipped.value;
      }
    }

    // What each length-delimited case of the switch does with its payload.
    method Payload(fieldNum: int, c: bytes) returns (st: Outcome)
      requires |c| <= MAX_INT
      modifies this
      ensures Agrees(PutPayload(fieldNum, old(Contents()), c), st, Contents())
    {
      hide Decode;
      match fieldNum {
        case 1 => table := c;
        case 4 => fields := Append(fields, c);
        case 5 =>
          var e := new MetricQueryCondition(ZERO_CONDITION);
          st := e.Unmarshal(c);
          if st != Good {
            return;
          }
          conditions := Append(conditions, e.Contents());
        case 6 => orderBy := c;
        case 7 => order := c;
        case _ => groupBy := Append(groupBy, c);
      }
      return Good;
    }
  }

  // The meaning of a length-delimited field.
  function PutPayload(f: int, m: Query, c: bytes): Result<Query> {
    match f
    case 1 => Ok(m.(table := c))
    case 4 => Ok(m.(fields := Append(m.fields, c)))
    case 5 => AddCondition(m, c)
    case 6 => Ok(m.(orderBy := c))
    case 7 => Ok(m.(order := c))
    case _ => Ok(m.(groupBy := Append(m.groupBy, c)))
  }

  lemma FieldCases(f: int, wireType: nat, data: bytes, i: nat, next: nat, m: Query)
    requires i < next <= |data| <= MAX_INT
    ensures FieldStep(QuerySchema(f), wireType, data, i, next, m) ==
            if f == 2 || f == 3 || f == 9 || f == 10 then
              if wireType != 0 then Err else
              match ReadVarintAt(data, next)
              case Ok((v, k)) =>
                Ok((if f == 2 then m.(startTime := Some(ToInt64(v)))
                    else if f == 3 then m.(endTime := Some(ToInt64(v)))
                    else if f == 9 then m.(limit := ToInt32(v % TWO32))
                    else m.(offset := ToInt32(v % TWO32)), next + k))
              case _ => Err
            else if 1 <= f <= 8 then
              if wireType != 2 then Err else
              match BoundsAt(data, next)
              case None => Err
              case Some((s, e)) =>
                match PutPayload(f, m, data[s..e])
                case Ok(m') => Ok((m', e))
                case Err => Err
                case Panic => Panic
            else
              match SkipAt(data, i)
              case Some(e) => Ok((m, e))
              case None => Err
  {
    hide BoundsAt, SkipAt, ReadVarintAt, AddCondition, ToInt64, ToInt32;
  }

  // The loop over the conditions, last element first, each marshalled in
  // place below the previous one.
  method PutConditions(dAtA: array<byte>, i: nat, cs: seq<Condition>, ghost a: bytes, ghost end: nat, ghost x: bytes)
    returns (j: nat)
    requires Written(a, dAtA[..], i, end, x)
    requires dAtA.Length <= MAX_INT && |EncAll(ConditionFields(cs))| + |x| <= end
    modifies dAtA
    ensures Written(a, dAtA[..], j, end, EncAll(ConditionFields(cs)) + x)
  {
    j := i;
    ghost var rs := ConditionFields(cs);
    var n := |cs|;
    assert rs[n..] == [] && [] + x == x;
    WrittenRoom(a, dAtA[..], i, end, x);
    while n > 0
      invariant 0 <= n <= |cs|
      invariant Written(a, dAtA[..], j, end, EncAll(rs[n..]) + x)
    {
      hide *;
      n := n - 1;
      ConditionsRoom(cs, n);
      j := PutCondition(dAtA, j, cs[n], a, end, EncAll(rs[n + 1..]) + x);
      Assoc(Enc(Str(0x2a, EncCondition(cs[n]))), EncAll(rs[n + 1..]), x);
    }
    assert rs[0..] == rs;
  }

  method PutCondition(dAtA: array<byte>, i: nat, c: Condition, ghost a: bytes, ghost end: nat, ghost x: bytes)
    returns (j: nat)
    requires Written(a, dAtA[..], i, end, x)
    requires dAtA.Length <= MAX_INT && |Enc(Str(0x2a, EncCondition(c)))| + |x| <= end
    modifies dAtA
    ensures Written(a, dAtA[..], j, end, Enc(Str(0x2a, EncCondition(c))) + x)
  {
    ghost var y := EncCondition(c);
    EncStr(0x2a, y);
    WrittenRoom(a, dAtA[..], i, end, x);
    hide Written, EncCondition, Enc, Str, EncVarint, Sov;
    ghost var b := dAtA[..];
    var e := new MetricQueryCondition(c);
    var size := e.MarshalToSizedBuffer(dAtA, i);
    WrittenThen(a, b, dAtA[..], i - size, i, end, y, x);
    SovExact(size);
    j := PutHeader(dAtA, i - size, 0x2a, size, a, end, y + x);
    Assoc([0x2a] + EncVarint(size), y, x);
  }

  method PutTime(dAtA: array<byte>, i: nat, tag: byte, t: Option<int64>, ghost a: bytes, ghost end: nat, ghost x: bytes)
    returns (j: nat)
    requires Written(a, dAtA[..], i, end, x) && |EncAll(TimeRecords(tag, t))| + |x| <= end
    modifies dAtA
    ensures Written(a, dAtA[..], j, end, EncAll(TimeRecords(tag, t)) + x)
  {
    hide Written;
    if t.Some? {
      EncAllOne(Num(tag, ToUint64(t.value)));
      j := PutNum(dAtA, i, tag, ToUint64(t.value), a, end, x);
    } else {
      assert [] + x == x;
      j := i;
    }
  }

  method SizeConditions(cs: seq<Condition>) returns (n: nat)
    requires |EncAll(ConditionFields(cs))| <= MAX_INT
    ensures n == |EncAll(ConditionFields(cs))|
  {
    n := 0;
    ghost var rs := ConditionFields(cs);
    for k := 0 to |cs|
      invariant n == |EncAll(rs[..k])| <= |EncAll(rs)|
    {
      hide EncAll, Enc, Str, EncCondition, ConditionFields, Sov;
      ConditionsGrow(cs, k);
      var e := new MetricQueryCondition(cs[k]);
      var l := e.Size();
      StrSize(0x2a, EncCondition(cs[k]));
      n := n + 1 + l + Sov(l);
    }
    assert rs[..|cs|] == rs;
  }

  lemma ConditionsRoom(cs: seq<Condition>, n: nat)
    requires n < |cs|
    ensures var rs, r := ConditionFields(cs), Str(0x2a, EncCondition(cs[n]));
            && EncAll(rs[n..]) == Enc(r) + EncAll(rs[n + 1..])
            && |EncAll(rs[n..])| <= |EncAll(rs)|
            && |EncCondition(cs[n])| + 1 + |EncVarint(|EncCondition(cs[n])|)| == |Enc(r)|
  {
    var rs := ConditionFields(cs);
    EncStr(0x2a, EncCondition(cs[n]));
    assert rs[n..][0] == rs[n] && rs[n..][1..] == rs[n + 1..];
    assert rs == rs[..n] + rs[n..];
    EncAllAppend(rs[..n], rs[n..]);
  }

  lemma ConditionsGrow(cs: seq<Condition>, k: nat)
    requires k < |cs| && |EncAll(ConditionFields(cs))| <= MAX_INT
    ensures var rs := ConditionFields(cs);
            && |EncAll(rs[..k + 1])| == |EncAll(rs[..k])| + |Enc(Str(0x2a, EncCondition(cs[k])))| <= |EncAll(rs)|
            && |EncCondition(cs[k])| <= MAX_INT
  {
    var rs := ConditionFields(cs);
    assert rs[..k + 1] == rs[..k] + [rs[k]] && rs == rs[..k + 1] + rs[k + 1..];
    EncAllOne(rs[k]);
    EncAllAppend(rs[..k], [rs[k]]);
    EncAllAppend(rs[..k + 1], rs[k + 1..]);
  }

  // ---- Accounting for the ten parts of a query ----

  lemma PartTail(q: Query, k: nat)
    requires k < 10
    ensures EncAll(QueryTail(q, k)) == EncAll(QueryPart(q, k)) + EncAll(QueryTail(q, k + 1))
  {
    hide QueryPart, EncAll;
    EncAllAppend(QueryPart(q, k), QueryTail(q, k + 1));
  }

  lemma {:induction false} TailFits(q: Query, k: nat)
    requires k <= 10
    ensures |EncAll(QueryTail(q, k))| <= |EncQuery(q)|
  {
    hide EncAll, QueryTail;
    if k > 0 {
      TailFits(q, k - 1);
      PartTail(q, k - 1);
    }
  }

  lemma TailEnd(q: Query)
    ensures EncAll(QueryTail(q, 10)) == []
  {
  }

  lemma PartsFit(q: Query)
    ensures EncAll(QueryTail(q, 10)) == [] && EncQuery(q) == EncAll(QueryTail(q, 0))
    ensures forall k :: 0 <= k < 10 ==> EncAll(QueryTail(q, k)) == EncAll(QueryPart(q, k)) + EncAll(QueryTail(q, k + 1))
    ensures forall k :: 0 <= k < 10 ==> |EncAll(QueryTail(q, k))| <= |EncQuery(q)|
  {
    TailEnd(q);
    forall k | 0 <= k < 10
      ensures EncAll(QueryTail(q, k)) == EncAll(QueryPart(q, k)) + EncAll(QueryTail(q, k + 1))
      ensures |EncAll(QueryTail(q, k))| <= |EncQuery(q)|
    {
      PartTail(q, k);
      TailFits(q, k);
    }
  }

  // What each part of the encoding is, and that its pieces are short enough.
  lemma QueryFits(q: Query)
    requires |EncQuery(q)| <= MAX_INT
    ensures EncAll(QueryPart(q, 0)) == Enc(Str(0x0a, q.table)) && |q.table| <= MAX_INT
    ensures EncAll(QueryPart(q, 1)) == EncAll(TimeRecords(0x10, q.startTime))
    ensures EncAll(QueryPart(q, 2)) == EncAll(TimeRecords(0x18, q.endTime))
    ensures EncAll(QueryPart(q, 3)) == EncAll(Strs(0x22, Elems(q.fields)))
    ensures EncAll(QueryPart(q, 4)) == EncAll(ConditionFields(Elems(q.conditions)))
    ensures EncAll(QueryPart(q, 5)) == Enc(Str(0x32, q.orderBy)) && |q.orderBy| <= MAX_INT
    ensures EncAll(QueryPart(q, 6)) == Enc(Str(0x3a, q.order)) && |q.order| <= MAX_INT
    ensures EncAll(QueryPart(q, 7)) == EncAll(Strs(0x42, Elems(q.groupBy)))
    ensures EncAll(QueryPart(q, 8)) == Enc(Num(0x48, ToUint64(q.limit)))
    ensures EncAll(QueryPart(q, 9)) == Enc(Num(0x50, ToUint64(q.offset)))
    ensures forall k :: 0 <= k < 10 ==> |EncAll(QueryPart(q, k))| <= |EncQuery(q)|
  {
    hide EncAll, Enc, Strs, ConditionFields, TimeRecords, Str, Num, EncQuery;
    EncAllOne(Str(0x0a, q.table));
    EncAllOne(Str(0x32, q.orderBy));
    EncAllOne(Str(0x3a, q.order));
    EncAllOne(Num(0x48, ToUint64(q.limit)));
    EncAllOne(Num(0x50, ToUint64(q.offset)));
    forall k | 0 <= k < 10
      ensures |EncAll(QueryPart(q, k))| <= |EncQuery(q)|
    {
      hide QueryPart;
      PartTail(q, k);
      TailFits(q, k);
    }
    EncStr(0x0a, q.table);
    EncStr(0x32, q.orderBy);
    EncStr(0x3a, q.order);
  }

  lemma TailSum(q: Query)
    ensures |EncQuery(q)| ==
            |EncAll(QueryPart(q, 0))| + |EncAll(QueryPart(q, 1))| + |EncAll(QueryPart(q, 2))|
            + |EncAll(QueryPart(q, 3))| + |EncAll(QueryPart(q, 4))| + |EncAll(QueryPart(q, 5))|
            + |EncAll(QueryPart(q, 6))| + |EncAll(QueryPart(q, 7))| + |EncAll(QueryPart(q, 8))|
            + |EncAll(QueryPart(q, 9))|
  {
    hide EncAll, QueryPart, QueryTail;
    TailEnd(q);
    PartTail(q, 0);
    PartTail(q, 1);
    PartTail(q, 2);
    PartTail(q, 3);
    PartTail(q, 4);
    PartTail(q, 5);
    PartTail(q, 6);
    PartTail(q, 7);
    PartTail(q, 8);
    PartTail(q, 9);
  }

  function TimeSize(t: Option<int64>): nat {
    match t
    case Some(v) => 1 + Sov(ToUint64(v))
    case None => 0
  }

  // What an optional time adds to the size.
  method SizeTime(t: Option<int64>) returns (n: nat)
    ensures n == TimeSize(t)
  {
    hide Sov, ToUint64;
    n := 0;
    if t.Some? {
      n := n + 1 + Sov(ToUint64(t.value));
    }
  }

  lemma TimeSizes(tag: byte, t: Option<int64>)
    ensures |EncAll(TimeRecords(tag, t))| == TimeSize(t)
  {
    if t.Some? {
      EncAllOne(Num(tag, ToUint64(t.value)));
      NumSize(tag, ToUint64(t.value));
    }
  }

  lemma QuerySizes(q: Query)
    requires |EncQuery(q)| <= MAX_INT
    ensures |q.table| <= MAX_INT && |q.orderBy| <= MAX_INT && |q.order| <= MAX_INT
    ensures |EncAll(Strs(0x22, Elems(q.fields)))| <= MAX_INT
    ensures |EncAll(ConditionFields(Elems(q.conditions)))| <= MAX_INT
    ensures |EncAll(Strs(0x42, Elems(q.groupBy)))| <= MAX_INT
    ensures |EncQuery(q)| ==
            1 + |q.table| + Sov(|q.table|) + TimeSize(q.startTime) + TimeSize(q.endTime)
            + |EncAll(Strs(0x22, Elems(q.fields)))| + |EncAll(ConditionFields(Elems(q.conditions)))|
            + 1 + |q.orderBy| + Sov(|q.orderBy|) + 1 + |q.order| + Sov(|q.order|)
            + |EncAll(Strs(0x42, Elems(q.groupBy)))|
            + 1 + Sov(ToUint64(q.limit)) + 1 + Sov(ToUint64(q.offset))
  {
    QueryFits(q);
    TailSum(q);
    hide EncAll, QueryPart, QueryTail, Enc, Str, Num, TimeRecords, Strs, ConditionFields, EncQuery, Sov;
    StrSize(0x0a, q.table);
    StrSize(0x32, q.orderBy);
    StrSize(0x3a, q.order);
    NumSize(0x48, ToUint64(q.limit));
    NumSize(0x50, ToUint64(q.offset));
    TimeSizes(0x10, q.startTime);
    TimeSizes(0x18, q.endTime);
  }
}
