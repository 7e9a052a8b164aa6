// What moving bytes does to a decoder of a message with a map: nothing, except
// that an error return becomes a panic when the end of a skipped record moves
// past the largest int.
module MapPositions {
  import opened Bits
  import opened Wrappers
  import opened Varint
  import opened Wire
  import opened Decoder
  import opened Reading
  import opened MapField
  import opened Project
  import opened MapLimits

  lemma DecodeOneMoved<M(!new)>(sch: Schema<M>, s: bytes, pos: nat, pos': nat, m: M)
    requires Stable(sch) && pos + |s| <= MAX_INT && pos' + |s| <= MAX_INT
    ensures DecodeOne(sch, s, pos, m).Ok? || DecodeOne(sch, s, pos', m).Ok?
            ==> DecodeOne(sch, s, pos, m) == DecodeOne(sch, s, pos', m)
  {
    hide *;
    assert s + [] == s;
    if DecodeOne(sch, s, pos, m).Ok? {
      DecodeOneExtends(sch, s, pos, m, [], pos');
    }
    if DecodeOne(sch, s, pos', m).Ok? {
      DecodeOneExtends(sch, s, pos', m, [], pos);
    }
  }

  lemma {:induction false} ReachMoved<M(!new)>(sch: Schema<M>, s: bytes, pos: nat, pos': nat, m: M, i: nat)
    requires Stable(sch) && i <= |s| && pos + |s| <= MAX_INT && pos' + |s| <= MAX_INT
    ensures Reach(sch, s, pos, m, i) == Reach(sch, s, pos', m, i)
    decreases |s|
  {
    hide Stable, DecodeOne;
    if i > 0 {
      DecodeOneMoved(sch, s, pos, pos', m);
      if DecodeOne(sch, s, pos, m).Ok? {
        var (m', n) := DecodeOne(sch, s, pos, m).value;
        if n <= i {
          ReachMoved(sch, s[n..], pos + n, pos' + n, m', i - n);
        }
      }
    }
  }

  // Moving an entry up changes what its loop finds at offset j only from a
  // broken item to one that overflows.
  lemma ItemMoved(rest: bytes, n: nat, pos: nat, pos': nat, j: nat)
    requires j < n <= |rest| && pos <= pos' && pos' + |rest| <= MAX_INT
    ensures var a, b := ItemAt(rest, n, pos, j), ItemAt(rest, n, pos', j);
            a == b || (a == Broken && b == Overrun)
  {
    hide ReadVarint, FieldNumber, Skip, BoundsAt;
  }

  lemma {:induction false} EntryReachMoved<V>(dec: bytes -> Result<V>, rest: bytes, n: nat, pos: nat, pos': nat, i: nat,
                                             key: bytes, val: V, j: nat)
    requires n <= |rest| && i <= |rest| && pos <= pos' && pos' + |rest| <= MAX_INT
    ensures EntryReach(dec, rest, n, pos, i, key, val, j) == EntryReach(dec, rest, n, pos', i, key, val, j)
    decreases |rest| - i
  {
    hide ItemAt;
    if i < j && i < n {
      ItemMoved(rest, n, pos, pos', i);
      if EntryStep(dec, rest, n, pos, i, key, val).Ok? {
        var (i', key', val') := EntryStep(dec, rest, n, pos, i, key, val).value;
        EntryReachMoved(dec, rest, n, pos, pos', i', key', val', j);
      }
    }
  }

  // The loop over s arrives at an entry, and in it at a skipped record whose
  // end is an int when s lies at pos, but not when it lies at pos'.
  predicate CrossesAt<M, V>(x: MapMessage<M, V>, s: bytes, pos: nat, pos': nat, m: M, i: nat, j: nat)
    requires pos <= pos' && pos' + |s| <= MAX_INT
  {
    && ArrivesAt(x, s, pos, m, i)
    && var (rest, n, p) := EntryPlace(x, s, pos, m, i);
       && j < n
       && EntryReach(x.dec, rest, n, p, 0, [], x.zero, j).Some?
       && !Overflows(rest, p, j)
       && Overflows(rest, p + (pos' - pos), j)
  }

  // The same place, from either position.
  lemma PlaceMoved<M(!new), V(!new)>(x: MapMessage<M, V>, s: bytes, pos: nat, pos': nat, m: M, i: nat)
    requires Valid(x) && pos <= pos' && pos' + |s| <= MAX_INT
    ensures ArrivesAt(x, s, pos, m, i) <==> ArrivesAt(x, s, pos', m, i)
    ensures ArrivesAt(x, s, pos, m, i) ==>
              var (rest, n, p) := EntryPlace(x, s, pos, m, i);
              EntryPlace(x, s, pos', m, i) == (rest, n, p + (pos' - pos))
  {
    hide Valid, Stable, Reach, FieldPayload;
    ValidStable(x);
    if i < |s| {
      ReachMoved(x.schema, s, pos, pos', m, i);
    }
  }

  lemma PanicMoved<M(!new), V(!new)>(x: MapMessage<M, V>, s: bytes, pos: nat, pos': nat, m: M, i: nat, j: nat)
    requires Valid(x) && pos <= pos' && pos' + |s| <= MAX_INT
    ensures MapPanicsAt(x, s, pos, m, i, j) ==> MapPanicsAt(x, s, pos', m, i, j)
    ensures MapPanicsAt(x, s, pos', m, i, j) && !MapPanicsAt(x, s, pos, m, i, j) ==> CrossesAt(x, s, pos, pos', m, i, j)
    ensures CrossesAt(x, s, pos, pos', m, i, j) ==> MapPanicsAt(x, s, pos', m, i, j)
  {
    hide Valid, ArrivesAt, EntryPlace, EntryReach, ItemAt;
    PlaceMoved(x, s, pos, pos', m, i);
    if ArrivesAt(x, s, pos, m, i) {
      var (rest, n, p) := EntryPlace(x, s, pos, m, i);
      if j < n {
        EntryReachMoved(x.dec, rest, n, p, p + (pos' - pos), 0, [], x.zero, j);
        ItemMoved(rest, n, p, p + (pos' - pos), j);
        OverflowsLater(rest, p, p + (pos' - pos), j);
        hide Overflows;
        OverrunIs(rest, n, p, j);
        OverrunIs(rest, n, p + (pos' - pos), j);
      }
    }
  }

  lemma OverflowsLater(rest: bytes, p: nat, p': nat, j: nat)
    requires j < |rest| && p <= p' && p' + |rest| <= MAX_INT
    ensures Overflows(rest, p, j) ==> Overflows(rest, p', j)
  {
  }

  // A record whose end crosses is an error return at the lower position.
  lemma CrossFails<M(!new), V(!new)>(x: MapMessage<M, V>, s: bytes, pos: nat, pos': nat, m: M, i: nat, j: nat)
    requires Valid(x) && pos <= pos' && pos' + |s| <= MAX_INT && CrossesAt(x, s, pos, pos', m, i, j)
    ensures Decode(x.schema, s, pos, m) == Err
  {
    hide Valid, ArrivesAt, EntryPlace, EntryReach, ItemAt, Overflows, DecodeOne;
    var (rest, n, p) := EntryPlace(x, s, pos, m, i);
    CrossIsBroken(rest, n, p, p + (pos' - pos), j);
    EntryFails(x.dec, x.zero, rest, n, p, j);
    EntryPlaceTurn(x, s, pos, m, i);
    ArrivalDecides(x, s, pos, m, i);
  }

  lemma ArrivalDecides<M, V>(x: MapMessage<M, V>, s: bytes, pos: nat, m: M, i: nat)
    requires pos + |s| <= MAX_INT && ArrivesAt(x, s, pos, m, i)
    requires DecodeOne(x.schema, s[i..], pos + i, Reach(x.schema, s, pos, m, i).value) == Err
    ensures Decode(x.schema, s, pos, m) == Err
  {
    hide Reach, DecodeOne;
    ReachDecides(x.schema, s, pos, m, i);
  }

  lemma CrossIsBroken(rest: bytes, n: nat, p: nat, p': nat, j: nat)
    requires j < n <= |rest| && p <= p' && p' + |rest| <= MAX_INT
    requires !Overflows(rest, p, j) && Overflows(rest, p', j)
    ensures ItemAt(rest, n, p, j) == Broken
  {
    hide ReadVarint, FieldNumber, Skip, BoundsAt;
  }

  lemma EntryFails<V>(dec: bytes -> Result<V>, zero: V, rest: bytes, n: nat, p: nat, j: nat)
    requires j < n <= |rest| && p + |rest| <= MAX_INT
    requires EntryReach(dec, rest, n, p, 0, [], zero, j).Some? && ItemAt(rest, n, p, j) == Broken
    ensures DecodeEntry(dec, zero, p, rest[..n], rest[n..]) == Err
  {
    assert rest[..n] + rest[n..] == rest;
    hide ItemAt, EntryReach, EntryFrom;
    EntryReachDecides(dec, rest, n, p, 0, [], zero, j);
    var (key, val) := EntryReach(dec, rest, n, p, 0, [], zero, j).value;
    EntryTurn(dec, rest, n, p, j, key, val);
  }

  // Moving s up leaves the outcome as it is, or turns an error return into a
  // panic; the latter exactly when the loop arrives at a skipped record whose
  // end crosses the largest int.
  lemma MapMoved<M(!new), V(!new)>(x: MapMessage<M, V>, s: bytes, pos: nat, pos': nat, m: M)
    requires Valid(x) && pos <= pos' && pos' + |s| <= MAX_INT
    ensures var d, d' := Decode(x.schema, s, pos, m), Decode(x.schema, s, pos', m);
            && (d == d' || (d == Err && d' == Panic))
            && (d != d' <==> exists i, j :: CrossesAt(x, s, pos, pos', m, i, j))
  {
    hide *;
    ValidStable(x);
    DecodeMoved(x.schema, s, pos, pos', m);
    MapPanics(x, s, pos, m);
    MapPanics(x, s, pos', m);
    forall i: nat, j: nat
      ensures MapPanicsAt(x, s, pos, m, i, j) ==> MapPanicsAt(x, s, pos', m, i, j)
      ensures MapPanicsAt(x, s, pos', m, i, j) && !MapPanicsAt(x, s, pos, m, i, j)
              ==> CrossesAt(x, s, pos, pos', m, i, j)
      ensures CrossesAt(x, s, pos, pos', m, i, j) ==>
                MapPanicsAt(x, s, pos', m, i, j) && Decode(x.schema, s, pos, m) == Err
    {
      PanicMoved(x, s, pos, pos', m, i, j);
      if CrossesAt(x, s, pos, pos', m, i, j) {
        CrossFails(x, s, pos, pos', m, i, j);
      }
    }
    MovedOutcome(Decode(x.schema, s, pos, m), Decode(x.schema, s, pos', m));
  }

  // Two outcomes with the same successes, the first panicking less often.
  lemma MovedOutcome<M>(d: Result<M>, d': Result<M>)
    requires d.Ok? ==> d' == d
    requires d'.Ok? ==> d == d'
    requires d.Panic? ==> d'.Panic?
    ensures d == d' || (d == Err && d' == Panic)
  {
  }

  lemma HardMoved<Q(!new)>(qc: QuantityCodec<Q>, s: bytes, pos: nat, pos': nat, m: Quantities<Q>)
    requires pos <= pos' && pos' + |s| <= MAX_INT
    ensures var d, d' := Decode(HardSchema(qc), s, pos, m), Decode(HardSchema(qc), s, pos', m);
            && (d == d' || (d == Err && d' == Panic))
            && (d != d' <==> exists i, j :: CrossesAt(HardMap(qc), s, pos, pos', m, i, j))
  {
    HardIsMap(qc);
    assert HardMap(qc).schema == HardSchema(qc);
    hide *;
    MapMoved(HardMap(qc), s, pos, pos', m);
  }

  lemma SpecMoved<Q(!new)>(qc: QuantityCodec<Q>, s: bytes, pos: nat, pos': nat, m: Spec<Q>)
    requires pos <= pos' && pos' + |s| <= MAX_INT
    ensures var d, d' := Decode(SpecSchema(qc), s, pos, m), Decode(SpecSchema(qc), s, pos', m);
            && (d == d' || (d == Err && d' == Panic))
            && (d != d' <==> exists i, j :: CrossesAt(SpecMap(qc), s, pos, pos', m, i, j))
  {
    SpecIsMap(qc);
    assert SpecMap(qc).schema == SpecSchema(qc);
    hide *;
    MapMoved(SpecMap(qc), s, pos, pos', m);
  }

  lemma StatusMoved<Q(!new)>(qc: QuantityCodec<Q>, s: bytes, pos: nat, pos': nat, m: Status<Q>)
    requires pos <= pos' && pos' + |s| <= MAX_INT
    ensures var d, d' := Decode(StatusSchema(qc), s, pos, m), Decode(StatusSchema(qc), s, pos', m);
            && (d == d' || (d == Err && d' == Panic))
            && (d != d' <==> exists i, j :: CrossesAt(StatusMap(qc), s, pos, pos', m, i, j))
  {
    StatusIsMap(qc);
    assert StatusMap(qc).schema == StatusSchema(qc);
    hide *;
    MapMoved(StatusMap(qc), s, pos, pos', m);
  }
}
