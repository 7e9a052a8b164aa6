// The generated methods of Metric.
module MetricCodec {
  import opened Bits
  import opened Wrappers
  import opened Varint
  import opened Wire
  import opened Decoder
  import opened Fields
  import opened Reading
  import opened Query
  import opened MetricQueryCodec
  import opened Metrics

  class Metric<O(!new)> {
    var meta: O
    var query: Query
    var jsonResult: bytes

    constructor (x: MetricValue<O>)
      ensures Contents() == x
    {
      meta, query, jsonResult := x.meta, x.query, x.jsonResult;
    }

    function Contents(): MetricValue<O>
      reads this
    {
      MetricValue(meta, query, jsonResult)
    }

    method Size(mc: MetaCodec<O>) returns (n: nat)
      requires |EncMetric(mc, Contents())| <= MAX_INT
      ensures n == |EncMetric(mc, Contents())|
    {
      MetricFits(mc, Contents());
      hide EncMetric, EncQuery, Enc, Str, Sov;
      n := 0;
      var l := |mc.enc(meta)|;
      StrSize(0x0a, mc.enc(meta));
      n := n + 1 + l + Sov(l);
      var q := new MetricQuery(query);
      l := q.Size();
      StrSize(0x12, EncQuery(query));
      n := n + 1 + l + Sov(l);
      l := |jsonResult|;
      StrSize(0x1a, jsonResult);
      n := n + 1 + l + Sov(l);
    }

    // The slice dAtA[:end] of the source.
    method MarshalToSizedBuffer(mc: MetaCodec<O>, dAtA: array<byte>, end: nat) returns (n: nat)
      requires |EncMetric(mc, Contents())| <= end <= dAtA.Length <= MAX_INT
      modifies dAtA
      ensures Contents() == old(Contents()) && n == |EncMetric(mc, Contents())|
      ensures Written(old(dAtA[..]), dAtA[..], end - n, end, EncMetric(mc, Contents()))
    {
      MetricFits(mc, Contents());
      hide Written, Enc, Str, EncMetric, EncQuery;
      ghost var a := dAtA[..];
      ghost var x1, x2, x3 := Enc(Str(0x0a, mc.enc(meta))), Enc(Str(0x12, EncQuery(query))), Enc(Str(0x1a, jsonResult));
      WrittenNone(a, end);
      var i := PutBytes(dAtA, end, 0x1a, jsonResult, a, end, []);
      assert x3 + [] == x3;
      i := PutQueryField(dAtA, i, query, a, end, x3);
      i := PutBytes(dAtA, i, 0x0a, mc.enc(meta), a, end, x2 + x3);
      WrittenRoom(a, dAtA[..], i, end, x1 + (x2 + x3));
      return end - i;
    }

    // dAtA[:n] is the whole buffer, and the buffer is the encoding.
    method Marshal(mc: MetaCodec<O>) returns (r: bytes)
      requires |EncMetric(mc, Contents())| <= MAX_INT
      ensures r == EncMetric(mc, Contents())
    {
      hide EncMetric, Written;
      var size := Size(mc);
      var dAtA := new byte[size](_ => 0);
      ghost var a := dAtA[..];
      var n := MarshalToSizedBuffer(mc, dAtA, size);
      WrittenWhole(a, dAtA[..], size - n, EncMetric(mc, Contents()));
      return dAtA[..n];
    }

    method Unmarshal(mc: MetaCodec<O>, data: bytes) returns (st: Outcome)
      requires |data| <= MAX_INT
      modifies this
      ensures Agrees(Decode(MetricSchema(mc), data, 0, old(Contents())), st, Contents())
    {
      hide Run, TagAt, BoundsAt, SkipAt, Decode, MetricSchema, FieldStep, QuerySchema;
      ghost var m0 := Contents();
      RunEnds(MetricSchema(mc), data, m0);
      var i := 0;
      while i < |data|
        invariant 0 <= i <= |data|
        invariant Run(MetricSchema(mc), data, i, Contents()) == Run(MetricSchema(mc), data, 0, m0)
      {
        Turn(MetricSchema(mc), data, i, Contents());
        var tag := ReadTag(data, i);
        if tag.None? {
          return Failed;
        }
        var (fieldNum, wireType, next) := tag.value;
        MetricCases(mc, fieldNum, wireType, data, i, next, Contents());
        if 1 <= fieldNum <= 3 {
          if wireType != 2 {
            return Failed;
          }
          var bounds := ReadBounds(data, next);
          if bounds.None? {
            return Failed;
          }
          var (start, postIndex) := bounds.value;
          match fieldNum {
            case 1 =>
              var o := mc.dec(meta, data[start..postIndex]);
              if o.Panic? {
                return Panicked;
              }
              if o.Err? {
                return Failed;
              }
              meta := o.value;
            case 2 =>
              var q := new MetricQuery(query);
              st := q.Unmarshal(data[start..postIndex]);
              if st != Good {
                return;
              }
              query := q.Contents();
            case _ => jsonResult := data[start..postIndex];
          }
          i := postIndex;
        } else {
          var skipped := SkipUnknown(data, i);
          if skipped.None? {
            return Failed;
          }
          i := skipped.value;
        }
      }
      RunEnds(MetricSchema(mc), data, Contents());
      return Good;
    }
  }

  lemma MetricCases<O>(mc: MetaCodec<O>, f: int, wireType: nat, data: bytes, i: nat, next: nat, m: MetricValue<O>)
    requires i < next <= |data| <= MAX_INT
    ensures FieldStep(MetricSchema(mc)(f), wireType, data, i, next, m) ==
            if 1 <= f <= 3 then
              if wireType != 2 then Err else
              match BoundsAt(data, next)
              case None => Err
              case Some((s, e)) =>
                match (if f == 1 then PutMeta(mc, m, data[s..e])
                       else if f == 2 then PutQuery(m, data[s..e])
                       else Ok(m.(jsonResult := data[s..e])))
                case Ok(m') => Ok((m', e))
                case Err => Err
                case Panic => Panic
            else
              match SkipAt(data, i)
              case Some(e) => Ok((m, e))
              case None => Err
  {
    hide BoundsAt, SkipAt, PutMeta, PutQuery;
  }

  lemma MetricFits<O>(mc: MetaCodec<O>, x: MetricValue<O>)
    ensures var x1, x2 := Enc(Str(0x0a, mc.enc(x.meta))), Enc(Str(0x12, EncQuery(x.query)));
            var x3 := Enc(Str(0x1a, x.jsonResult));
            && EncMetric(mc, x) == x1 + (x2 + x3)
            && |mc.enc(x.meta)| <= |x1| && |EncQuery(x.query)| <= |x2| && |x.jsonResult| <= |x3|
  {
    var s1, s2, s3 := Str(0x0a, mc.enc(x.meta)), Str(0x12, EncQuery(x.query)), Str(0x1a, x.jsonResult);
    assert MetricRecords(mc, x) == [s1] + ([s2] + [s3]);
    EncStr(0x0a, mc.enc(x.meta));
    EncStr(0x12, EncQuery(x.query));
    EncStr(0x1a, x.jsonResult);
    hide Enc, Str, EncQuery;
    EncAllOne(s3);
    EncAllCons(s2, [s3]);
    EncAllCons(s1, [s2] + [s3]);
  }

  method PutQueryField(dAtA: array<byte>, i: nat, q: Query, ghost a: bytes, ghost end: nat, ghost x: bytes)
    returns (j: nat)
    requires Written(a, dAtA[..], i, end, x)
    requires dAtA.Length <= MAX_INT && |Enc(Str(0x12, EncQuery(q)))| + |x| <= end
    modifies dAtA
    ensures Written(a, dAtA[..], j, end, Enc(Str(0x12, EncQuery(q))) + x)
  {
    ghost var y := EncQuery(q);
    EncStr(0x12, y);
    WrittenRoom(a, dAtA[..], i, end, x);
    hide Written, EncQuery, Enc, Str, EncVarint, Sov;
    ghost var b := dAtA[..];
    var e := new MetricQuery(q);
    var size := e.MarshalToSizedBuffer(dAtA, i);
    WrittenThen(a, b, dAtA[..], i - size, i, end, y, x);
    SovExact(size);
    j := PutHeader(dAtA, i - size, 0x12, size, a, end, y + x);
    Assoc([0x12] + EncVarint(size), y, x);
  }
}
