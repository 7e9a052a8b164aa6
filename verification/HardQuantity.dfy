// The generated methods of HardQuantity; those of UsedQuantity are the same
// code with its field named Used.
module HardQuantityCodec {
  import opened Bits
  import opened Wrappers
  import opened Varint
  import opened Wire
  import opened Decoder
  import opened Fields
  import opened Keys
  import opened Reading
  import opened MapField
  import opened MapLoops
  import opened Project

  class HardQuantity<Q(!new)> {
    var hard: Nilable<map<bytes, Q>>

    constructor (h: Quantities<Q>)
      ensures Contents() == h
    {
      hard := h.hard;
    }

    function Contents(): Quantities<Q>
      reads this
    {
      Quantities(hard)
    }

    // The range over the map visits the keys in an arbitrary order.
    method Size(qc: QuantityCodec<Q>) returns (n: nat)
      requires |EncHard(qc, Contents())| <= MAX_INT
      ensures n == |EncHard(qc, Contents())|
    {
      var m := MapOf(hard);
      assert EncHard(qc, Contents()) == EncAll(MapRecords(0x0a, m, qc.enc));
      hide *;
      ghost var ks: seq<bytes> := [];
      VisitStarts(m.Keys);
      EntriesNone(0x0a, m, qc.enc);
      n := 0;
      var rest := m.Keys;
      while rest != {}
        invariant Visited(ks, rest, m.Keys) && n == EntriesSize(0x0a, ks, m, qc.enc)
        decreases |rest|
      {
        var k :| k in rest;
        Visit(0x0a, ks, rest, k, m, qc.enc);
        var l := |qc.enc(m[k])|;
        var s := SizeEntry(0x0a, k, l, qc.enc(m[k]));
        n := n + s;
        ks := ks + [k];
        rest := rest - {k};
      }
      VisitEnds(0x0a, ks, m, qc.enc);
    }

    // The slice dAtA[:end] of the source.
    method MarshalToSizedBuffer(qc: QuantityCodec<Q>, dAtA: array<byte>, end: nat) returns (n: nat)
      requires |EncHard(qc, Contents())| <= end <= dAtA.Length <= MAX_INT
      modifies dAtA
      ensures Contents() == old(Contents()) && n == |EncHard(qc, Contents())|
      ensures Written(old(dAtA[..]), dAtA[..], end - n, end, EncHard(qc, Contents()))
    {
      ghost var a := dAtA[..];
      var m := MapOf(hard);
      var keys := SortedKeys(m);
      var i := end;
      ghost var rs := Entries(0x0a, keys, m, qc.enc);
      var k := |keys|;
      assert rs[k..] == [];
      WrittenNone(a, end);
      while k > 0
        invariant 0 <= k <= |keys|
        invariant Written(a, dAtA[..], i, end, EncAll(rs[k..]))
      {
        k := k - 1;
        KeyInMap(keys, m, k);
        EntriesRoom(0x0a, keys, m, qc.enc, k);
        ghost var x, y := EncAll(rs[k + 1..]), qc.enc(m[keys[k]]);
        WrittenRoom(a, dAtA[..], i, end, x);
        hide *;
        var v := m[keys[k]];
        var baseI := i;
        i := PutCopy(dAtA, i, qc.enc(v), a, end, x);
        WrittenRoom(a, dAtA[..], i, end, y + x);
        i := PutEntryHead(dAtA, i, baseI, 0x0a, keys[k], y, a, end, x);
      }
      assert rs[0..] == rs;
      WrittenRoom(a, dAtA[..], i, end, EncAll(rs));
      return end - i;
    }

    // dAtA[:n] is the whole buffer, and the buffer is the encoding.
    method Marshal(qc: QuantityCodec<Q>) returns (r: bytes)
      requires |EncHard(qc, Contents())| <= MAX_INT
      ensures r == EncHard(qc, Contents())
    {
      hide EncHard, Written;
      var size := Size(qc);
      var dAtA := new byte[size](_ => 0);
      ghost var a := dAtA[..];
      var n := MarshalToSizedBuffer(qc, dAtA, size);
      WrittenWhole(a, dAtA[..], size - n, EncHard(qc, Contents()));
      return dAtA[..n];
    }

    method Unmarshal(qc: QuantityCodec<Q>, data: bytes) returns (st: Outcome)
      requires |data| <= MAX_INT
      modifies this
      ensures Agrees(Decode(HardSchema(qc), data, 0, old(Contents())), st, Contents())
    {
      hide Run, TagAt, BoundsAt, SkipAt, Decode, HardSchema, FieldStep, EntryOutcome;
      ghost var m0 := Contents();
      RunEnds(HardSchema(qc), data, m0);
      var i := 0;
      while i < |data|
        invariant 0 <= i <= |data|
        invariant Run(HardSchema(qc), data, i, Contents()) == Run(HardSchema(qc), data, 0, m0)
      {
        Turn(HardSchema(qc), data, i, Contents());
        var tag := ReadTag(data, i);
        if tag.None? {
          return Failed;
        }
        var (fieldNum, wireType, next) := tag.value;
        HardCases(qc, fieldNum, wireType, data, i, next, Contents());
        if fieldNum == 1 {
          if wireType != 2 {
            return Failed;
          }
          var bounds := ReadBounds(data, next);
          if bounds.None? {
            return Failed;
          }
          var (start, postIndex) := bounds.value;
          var k, v;
          st, k, v := ReadEntry(qc, data, start, postIndex);
          if st != Good {
            return;
          }
          hard := Put(hard, k, v);
          i := postIndex;
        } else {
          var skipped := SkipUnknown(data, i);
          if skipped.None? {
            return Failed;
          }
          i := skipped.value;
        }
      }
      RunEnds(HardSchema(qc), data, Contents());
      return Good;
    }

    // The entry loop: data[start..postIndex] is the entry.
    static method ReadEntry(qc: QuantityCodec<Q>, data: bytes, start: nat, postIndex: nat)
      returns (st: Outcome, mapkey: bytes, mapvalue: Q)
      requires start <= postIndex <= |data| <= MAX_INT
      ensures Agrees(EntryOutcome(qc.dec, qc.zero, data, start, postIndex), st, (mapkey, mapvalue))
    {
      hide EntryOutcome, EntryAt, ItemAt;
      ghost var dec := qc.dec;
      EntryStarts(dec, qc.zero, data, start, postIndex);
      mapkey, mapvalue := [], qc.zero;
      var i: int := start;
      while i < postIndex
        invariant i < 0 || start <= i <= |data|
        invariant EntryAt(dec, qc.zero, data, start, postIndex, i, mapkey, mapvalue)
        decreases if i < 0 then 0 else |data| + 1 - i
      {
        if i < 0 {
          EntryEnds(dec, qc.zero, data, start, postIndex, i, mapkey, mapvalue);
        } else {
          EntryMoves(dec, qc.zero, data, start, postIndex, i, mapkey, mapvalue);
        }
        var item, next := NextItem(data, start, postIndex, i);
        match item {
          case OutOfRange =>
            return Panicked, mapkey, mapvalue;
          case Bad =>
            return Failed, mapkey, mapvalue;
          case KeyRead(k) =>
            mapkey := k;
          case ValueRead(c) =>
            var v := qc.dec(c);
            if v.Panic? {
              return Panicked, mapkey, mapvalue;
            }
            if v.Err? {
              return Failed, mapkey, mapvalue;
            }
            mapvalue := v.value;
          case Skipped =>
        }
        i := next;
      }
      EntryEnds(dec, qc.zero, data, start, postIndex, i, mapkey, mapvalue);
      return Good, mapkey, mapvalue;
    }
  }

  lemma HardCases<Q>(qc: QuantityCodec<Q>, f: int, wireType: nat, data: bytes, i: nat, next: nat, m: Quantities<Q>)
    requires i < next <= |data| <= MAX_INT
    ensures FieldStep(HardSchema(qc)(f), wireType, data, i, next, m) ==
            if f == 1 then
              if wireType != 2 then Err else
              match BoundsAt(data, next)
              case None => Err
              case Some((s, e)) =>
                match EntryOutcome(qc.dec, qc.zero, data, s, e)
                case Ok((k, v)) => Ok((m.(hard := Put(m.hard, k, v)), e))
                case Err => Err
                case Panic => Panic
            else
              match SkipAt(data, i)
              case Some(e) => Ok((m, e))
              case None => Err
  {
    hide BoundsAt, SkipAt, DecodeEntry;
  }
}
