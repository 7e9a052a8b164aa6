// When a decoder of a message with a map panics: the entry loop adds the end of
// a skipped record to its index without a test for overflow, so the next read
// can be at a negative index.
module MapLimits {
  import opened Bits
  import opened Wrappers
  import opened Varint
  import opened Wire
  import opened Decoder
  import opened Fields
  import opened Reading
  import opened MapField
  import opened Project

  // A message with a map in one field; its other fields are local and quiet.
  datatype MapMessage<!M, !V> = MapMessage(
    schema: Schema<M>,
    field: int,
    dec: bytes -> Result<V>,
    zero: V,
    get: M -> Nilable<map<bytes, V>>,
    upd: (M, Nilable<map<bytes, V>>) -> M)

  ghost predicate Valid<M(!new), V(!new)>(x: MapMessage<M, V>) {
    && x.field > 0
    && Stable(x.schema)
    && PutsEntries(x.schema, x.field, x.dec, x.zero, x.get, x.upd)
    && forall g: int, m: M, p: nat, c: bytes, a: bytes ::
         g != x.field ==> LocalAt(x.schema(g), m, p, c, a) && QuietAt(x.schema(g), m, p, c, a)
  }

  function HardMap<Q>(qc: QuantityCodec<Q>): MapMessage<Quantities<Q>, Q> {
    MapMessage(HardSchema(qc), 1, qc.dec, qc.zero, HardGet(), HardUpd())
  }

  function SpecMap<Q>(qc: QuantityCodec<Q>): MapMessage<Spec<Q>, Quantities<Q>> {
    MapMessage(SpecSchema(qc), 6, HardDecoder(qc), ZeroHard(), SpecGet(), SpecUpd())
  }

  function StatusMap<Q>(qc: QuantityCodec<Q>): MapMessage<Status<Q>, Quantities<Q>> {
    MapMessage(StatusSchema(qc), 3, HardDecoder(qc), ZeroHard(), StatusGet(), StatusUpd())
  }

  lemma HardIsMap<Q(!new)>(qc: QuantityCodec<Q>)
    ensures Valid(HardMap(qc))
  {
    hide PutsEntries, Stable;
    HardPuts(qc);
    HardStable(qc);
  }

  lemma SpecIsMap<Q(!new)>(qc: QuantityCodec<Q>)
    ensures Valid(SpecMap(qc))
  {
    hide PutsEntries, Stable;
    SpecPuts(qc);
    SpecStable(qc);
  }

  lemma StatusIsMap<Q(!new)>(qc: QuantityCodec<Q>)
    ensures Valid(StatusMap(qc))
  {
    hide PutsEntries, Stable;
    StatusPuts(qc);
    StatusStable(qc);
  }

  lemma ValidStable<M(!new), V(!new)>(x: MapMessage<M, V>)
    requires Valid(x)
    ensures Stable(x.schema)
  {
  }

  // ---- The message loop ----

  // The message with which the loop arrives at offset i of s, if it does.
  function Reach<M>(sch: Schema<M>, s: bytes, pos: nat, m: M, i: nat): Option<M>
    requires i <= |s| && pos + |s| <= MAX_INT
    decreases |s|
  {
    if i == 0 then Some(m) else
    match DecodeOne(sch, s, pos, m)
    case Ok((m', n)) => if n <= i then Reach(sch, s[n..], pos + n, m', i - n) else None
    case _ => None
  }

  // Where the loop arrives decides how it ends.
  lemma {:induction false} ReachDecides<M>(sch: Schema<M>, s: bytes, pos: nat, m: M, i: nat)
    requires i <= |s| && pos + |s| <= MAX_INT && Reach(sch, s, pos, m, i).Some?
    ensures Decode(sch, s, pos, m) == Decode(sch, s[i..], pos + i, Reach(sch, s, pos, m, i).value)
    decreases |s|
  {
    hide DecodeOne;
    if i == 0 {
      assert s[0..] == s;
    } else {
      var (m', n) := DecodeOne(sch, s, pos, m).value;
      assert s[n..][i - n..] == s[i..];
      ReachDecides(sch, s[n..], pos + n, m', i - n);
    }
  }

  // A panic happens in the turn that starts at some offset.
  lemma {:induction false} PanicFound<M>(sch: Schema<M>, s: bytes, pos: nat, m: M) returns (i: nat)
    requires pos + |s| <= MAX_INT && Decode(sch, s, pos, m).Panic?
    ensures i < |s| && Reach(sch, s, pos, m, i).Some?
    ensures DecodeOne(sch, s[i..], pos + i, Reach(sch, s, pos, m, i).value).Panic?
    decreases |s|
  {
    hide DecodeOne;
    if DecodeOne(sch, s, pos, m).Panic? {
      i := 0;
      assert s[0..] == s;
    } else {
      var (m', n) := DecodeOne(sch, s, pos, m).value;
      var j := PanicFound(sch, s[n..], pos + n, m');
      i := n + j;
      assert s[n..][j..] == s[i..];
    }
  }

  // The payload of field f, when s starts with a well-delimited record of it.
  function FieldPayload(s: bytes, f: int): (r: Option<(nat, nat)>)
    ensures r.Some? ==> r.value.0 <= r.value.1 <= |s|
  {
    match ReadVarint(s)
    case None => None
    case Some((w, n)) =>
      if FieldNumber(w) != f || w % 8 != 2 then None else
      match PayloadBounds(s[n..])
      case None => None
      case Some((k, e)) => Some((n + k, n + e))
  }

  // The turn of the loop at an entry of the map.
  lemma EntryTurnIs<M(!new), V(!new)>(x: MapMessage<M, V>, s: bytes, pos: nat, m: M)
    requires Valid(x) && pos + |s| <= MAX_INT && FieldPayload(s, x.field).Some?
    ensures var (k, e) := FieldPayload(s, x.field).value;
            DecodeOne(x.schema, s, pos, m) == (match DecodeEntry(x.dec, x.zero, pos + k, s[k..e], s[e..])
                                               case Ok((key, v)) => Ok((x.upd(m, Put(x.get(m), key, v)), e))
                                               case Err => Err
                                               case Panic => Panic)
  {
    hide ReadVarint, FieldNumber, PayloadBounds, DecodeEntry, Stable, LocalAt, QuietAt;
    var (w, n) := ReadVarint(s).value;
    var (k, e) := PayloadBounds(s[n..]).value;
    assert s[n..][k..e] == s[n + k..n + e] && s[n..][e..] == s[n + e..];
    EntryPut(x, m, pos + n + k, s[n + k..n + e], s[n + e..]);
  }

  lemma EntryPut<M(!new), V(!new)>(x: MapMessage<M, V>, m: M, p: nat, c: bytes, a: bytes)
    requires Valid(x)
    ensures x.schema(x.field).Delimited?
    ensures x.schema(x.field).step(m, p, c, a) == PutEntry(x.dec, x.zero, x.get, x.upd, m, p, c, a)
  {
    hide DecodeEntry, Stable, LocalAt, QuietAt, PutEntry;
  }

  // Every other turn does not panic.
  lemma OtherTurns<M(!new), V(!new)>(x: MapMessage<M, V>, s: bytes, pos: nat, m: M)
    requires Valid(x) && pos + |s| <= MAX_INT && FieldPayload(s, x.field).None?
    ensures !DecodeOne(x.schema, s, pos, m).Panic?
  {
    hide ReadVarint, FieldNumber, Skip, PayloadBounds, Stable, PutsEntries;
    if ReadVarint(s).Some? {
      var (w, n) := ReadVarint(s).value;
      if PayloadBounds(s[n..]).Some? && FieldNumber(w) != x.field {
        var (k, e) := PayloadBounds(s[n..]).value;
        assert QuietAt(x.schema(FieldNumber(w)), m, pos + n + k, s[n..][k..e], s[n..][e..]);
      }
    }
  }

  // ---- The entry loop ----

  // The key and value with which the loop over the first n bytes of rest goes
  // from offset i to offset j, if it does.
  function EntryReach<V>(dec: bytes -> Result<V>, rest: bytes, n: nat, pos: nat, i: nat, key: bytes, val: V, j: nat)
    : Option<(bytes, V)>
    requires n <= |rest| && i <= |rest| && pos + |rest| <= MAX_INT
    decreases |rest| - i
  {
    if i == j then Some((key, val)) else if i > j || i >= n then None else
    match EntryStep(dec, rest, n, pos, i, key, val)
    case Ok((i', key', val')) => EntryReach(dec, rest, n, pos, i', key', val', j)
    case _ => None
  }

  lemma {:induction false} EntryReachDecides<V>(dec: bytes -> Result<V>, rest: bytes, n: nat, pos: nat, i: nat,
                                               key: bytes, val: V, j: nat)
    requires n <= |rest| && i <= |rest| && j <= |rest| && pos + |rest| <= MAX_INT
    requires EntryReach(dec, rest, n, pos, i, key, val, j).Some?
    ensures var (key', val') := EntryReach(dec, rest, n, pos, i, key, val, j).value;
            EntryFrom(dec, rest, n, pos, i, key, val) == EntryFrom(dec, rest, n, pos, j, key', val')
    decreases |rest| - i
  {
    hide EntryStep;
    if i != j {
      var (i', key', val') := EntryStep(dec, rest, n, pos, i, key, val).value;
      EntryReachDecides(dec, rest, n, pos, i', key', val', j);
    }
  }

  // At offset j of rest, which starts at index pos, stands a record that the
  // entry loop skips and whose end is not an int.
  predicate Overflows(rest: bytes, pos: nat, j: nat)
    requires j < |rest| && pos + |rest| <= MAX_INT
  {
    && ReadVarint(rest[j..]).Some?
    && FieldNumber(ReadVarint(rest[j..]).value.0) !in {1, 2}
    && Skip(rest[j..]).Ok? && Skip(rest[j..]).value >= 0
    && pos + j + Skip(rest[j..]).value > MAX_INT
  }

  // The entry loop arrives at offset j and panics there: the end of a record
  // overflows, or the value read there panics.
  predicate EntryPanicsAt<V>(dec: bytes -> Result<V>, zero: V, rest: bytes, n: nat, pos: nat, j: nat)
    requires n <= |rest| && pos + |rest| <= MAX_INT
  {
    && j < n
    && EntryReach(dec, rest, n, pos, 0, [], zero, j).Some?
    && (Overflows(rest, pos, j) || (ItemAt(rest, n, pos, j).ValueItem? && dec(ItemAt(rest, n, pos, j).v).Panic?))
  }

  lemma OverrunIs(rest: bytes, n: nat, pos: nat, j: nat)
    requires j < n <= |rest| && pos + |rest| <= MAX_INT
    ensures ItemAt(rest, n, pos, j).Overrun? <==> Overflows(rest, pos, j)
  {
    hide ReadVarint, FieldNumber, Skip, BoundsAt;
  }

  lemma {:induction false} EntryPanicFound<V>(dec: bytes -> Result<V>, rest: bytes, n: nat, pos: nat, i: nat,
                                             key: bytes, val: V) returns (j: nat)
    requires n <= |rest| && i <= |rest| && pos + |rest| <= MAX_INT
    requires EntryFrom(dec, rest, n, pos, i, key, val).Panic?
    ensures i <= j < n && EntryReach(dec, rest, n, pos, i, key, val, j).Some?
    ensures Overflows(rest, pos, j) || (ItemAt(rest, n, pos, j).ValueItem? && dec(ItemAt(rest, n, pos, j).v).Panic?)
    decreases |rest| - i
  {
    hide ItemAt, Overflows;
    OverrunIs(rest, n, pos, i);
    if EntryStep(dec, rest, n, pos, i, key, val).Panic? {
      j := i;
    } else {
      var (i', key', val') := EntryStep(dec, rest, n, pos, i, key, val).value;
      j := EntryPanicFound(dec, rest, n, pos, i', key', val');
    }
  }

  // An entry panics exactly when its loop arrives at a record whose end
  // overflows, or at a value whose own decoding panics.
  lemma EntryPanics<V>(dec: bytes -> Result<V>, zero: V, rest: bytes, n: nat, pos: nat)
    requires n <= |rest| && pos + |rest| <= MAX_INT
    ensures DecodeEntry(dec, zero, pos, rest[..n], rest[n..]).Panic? <==>
            exists j :: EntryPanicsAt(dec, zero, rest, n, pos, j)
  {
    assert rest[..n] + rest[n..] == rest;
    hide EntryFrom, EntryReach, ItemAt, Overflows;
    if EntryFrom(dec, rest, n, pos, 0, [], zero).Panic? {
      var j := EntryPanicFound(dec, rest, n, pos, 0, [], zero);
      assert EntryPanicsAt(dec, zero, rest, n, pos, j);
    }
    forall j | EntryPanicsAt(dec, zero, rest, n, pos, j)
      ensures EntryFrom(dec, rest, n, pos, 0, [], zero).Panic?
    {
      EntryReachDecides(dec, rest, n, pos, 0, [], zero, j);
      OverrunIs(rest, n, pos, j);
      var (key, val) := EntryReach(dec, rest, n, pos, 0, [], zero, j).value;
      EntryTurn(dec, rest, n, pos, j, key, val);
    }
  }

  // ---- Whole messages ----

  // Decoding s at index pos arrives, at offset i, at an entry of the map, whose
  // bytes and all that follows are rest, from index p on, the entry being the
  // first n of them.
  predicate ArrivesAt<M, V>(x: MapMessage<M, V>, s: bytes, pos: nat, m: M, i: nat)
    requires pos + |s| <= MAX_INT
  {
    i < |s| && Reach(x.schema, s, pos, m, i).Some? && FieldPayload(s[i..], x.field).Some?
  }

  function EntryPlace<M, V>(x: MapMessage<M, V>, s: bytes, pos: nat, m: M, i: nat): (r: (bytes, nat, nat))
    requires pos + |s| <= MAX_INT && ArrivesAt(x, s, pos, m, i)
    ensures r.1 <= |r.0| && r.2 + |r.0| == pos + |s|
  {
    var (k, e) := FieldPayload(s[i..], x.field).value;
    (s[i..][k..], e - k, pos + i + k)
  }

  // It arrives at that entry, and in it at offset j, where it panics.
  predicate MapPanicsAt<M, V>(x: MapMessage<M, V>, s: bytes, pos: nat, m: M, i: nat, j: nat)
    requires pos + |s| <= MAX_INT
  {
    && ArrivesAt(x, s, pos, m, i)
    && var (rest, n, p) := EntryPlace(x, s, pos, m, i);
       EntryPanicsAt(x.dec, x.zero, rest, n, p, j)
  }

  // The turn at an entry, in terms of the entry's place.
  lemma EntryPlaceTurn<M(!new), V(!new)>(x: MapMessage<M, V>, s: bytes, pos: nat, m: M, i: nat)
    requires Valid(x) && pos + |s| <= MAX_INT && ArrivesAt(x, s, pos, m, i)
    ensures var (rest, n, p) := EntryPlace(x, s, pos, m, i);
            var r := DecodeOne(x.schema, s[i..], pos + i, Reach(x.schema, s, pos, m, i).value);
            var d := DecodeEntry(x.dec, x.zero, p, rest[..n], rest[n..]);
            (r.Err? <==> d.Err?) && (r.Panic? <==> d.Panic?)
  {
    hide Valid, Reach, DecodeOne, DecodeEntry, FieldPayload;
    EntryTurnIs(x, s[i..], pos + i, Reach(x.schema, s, pos, m, i).value);
    var (k, e) := FieldPayload(s[i..], x.field).value;
    var rest, n := s[i..][k..], e - k;
    assert rest[..n] == s[i..][k..e] && rest[n..] == s[i..][e..];
  }

  lemma MapPanics<M(!new), V(!new)>(x: MapMessage<M, V>, s: bytes, pos: nat, m: M)
    requires Valid(x) && pos + |s| <= MAX_INT
    ensures Decode(x.schema, s, pos, m).Panic? <==> exists i, j :: MapPanicsAt(x, s, pos, m, i, j)
  {
    hide Valid, DecodeOne, DecodeEntry, EntryPanicsAt, FieldPayload, Reach, EntryPlace;
    if Decode(x.schema, s, pos, m).Panic? {
      var i := PanicFound(x.schema, s, pos, m);
      if FieldPayload(s[i..], x.field).None? {
        OtherTurns(x, s[i..], pos + i, Reach(x.schema, s, pos, m, i).value);
      }
      EntryPlaceTurn(x, s, pos, m, i);
      var (rest, n, p) := EntryPlace(x, s, pos, m, i);
      EntryPanics(x.dec, x.zero, rest, n, p);
      var j :| EntryPanicsAt(x.dec, x.zero, rest, n, p, j);
      assert MapPanicsAt(x, s, pos, m, i, j);
    }
    forall i, j | MapPanicsAt(x, s, pos, m, i, j)
      ensures Decode(x.schema, s, pos, m).Panic?
    {
      EntryPlaceTurn(x, s, pos, m, i);
      var (rest, n, p) := EntryPlace(x, s, pos, m, i);
      EntryPanics(x.dec, x.zero, rest, n, p);
      ReachDecides(x.schema, s, pos, m, i);
    }
  }

  // The loop arrives at an entry, and in it at a skipped record whose end
  // overflows.
  predicate OverflowsAt<M, V>(x: MapMessage<M, V>, s: bytes, pos: nat, m: M, i: nat, j: nat)
    requires pos + |s| <= MAX_INT
  {
    && ArrivesAt(x, s, pos, m, i)
    && var (rest, n, p) := EntryPlace(x, s, pos, m, i);
       && j < n
       && EntryReach(x.dec, rest, n, p, 0, [], x.zero, j).Some?
       && Overflows(rest, p, j)
  }

  // The decoder of the values does not panic.
  ghost predicate DecodesQuietly<V>(dec: bytes -> Result<V>) {
    forall c :: !dec(c).Panic?
  }

  // HardQuantity.Unmarshal panics exactly when it arrives at such a record, or
  // at a quantity whose own decoder panics.
  lemma HardPanics<Q(!new)>(qc: QuantityCodec<Q>, s: bytes, pos: nat, m: Quantities<Q>)
    requires pos + |s| <= MAX_INT
    ensures Decode(HardSchema(qc), s, pos, m).Panic? <==> exists i, j :: MapPanicsAt(HardMap(qc), s, pos, m, i, j)
    ensures DecodesQuietly(qc.dec) ==>
              (Decode(HardSchema(qc), s, pos, m).Panic? <==> exists i, j :: OverflowsAt(HardMap(qc), s, pos, m, i, j))
  {
    HardIsMap(qc);
    var x := HardMap(qc);
    assert x.schema == HardSchema(qc) && x.dec == qc.dec;
    hide *;
    MapPanics(x, s, pos, m);
    if DecodesQuietly(qc.dec) {
      forall i: nat, j: nat
        ensures MapPanicsAt(x, s, pos, m, i, j) <==> OverflowsAt(x, s, pos, m, i, j)
      {
        NoValuePanics(x, s, pos, m, i, j);
      }
    }
  }

  lemma NoValuePanics<M, V>(x: MapMessage<M, V>, s: bytes, pos: nat, m: M, i: nat, j: nat)
    requires pos + |s| <= MAX_INT && DecodesQuietly(x.dec)
    ensures MapPanicsAt(x, s, pos, m, i, j) <==> OverflowsAt(x, s, pos, m, i, j)
  {
    hide ArrivesAt, EntryPlace, EntryReach, Overflows, ItemAt;
  }

  // ProjectSpec.Unmarshal and ProjectStatus.Unmarshal panic exactly when they
  // arrive at a cluster entry and, in it, at a skipped record whose end
  // overflows, or at a value in which HardPanics finds a panic.
  ghost predicate ClusterPanicsAt<M, Q>(x: MapMessage<M, Quantities<Q>>, qc: QuantityCodec<Q>, s: bytes, pos: nat, m: M,
                                       i: nat, j: nat)
    requires pos + |s| <= MAX_INT
  {
    && ArrivesAt(x, s, pos, m, i)
    && var (rest, n, p) := EntryPlace(x, s, pos, m, i);
       && j < n
       && EntryReach(x.dec, rest, n, p, 0, [], x.zero, j).Some?
       && (Overflows(rest, p, j) || PanicInValue(qc, ItemAt(rest, n, p, j)))
  }

  ghost predicate PanicInValue<Q>(qc: QuantityCodec<Q>, item: Item) {
    && item.ValueItem? && |item.v| <= MAX_INT
    && exists i, j :: MapPanicsAt(HardMap(qc), item.v, 0, ZeroHard(), i, j)
  }

  lemma ValuePanics<Q(!new)>(qc: QuantityCodec<Q>, item: Item)
    ensures PanicInValue(qc, item) <==> item.ValueItem? && HardDecoder(qc)(item.v).Panic?
  {
    hide MapPanicsAt, OverflowsAt, Decode, HardSchema, HardMap, DecodesQuietly;
    if item.ValueItem? && |item.v| <= MAX_INT {
      HardPanics(qc, item.v, 0, ZeroHard());
    }
  }

  lemma ClusterPanics<M(!new), Q(!new)>(x: MapMessage<M, Quantities<Q>>, qc: QuantityCodec<Q>, s: bytes, pos: nat, m: M)
    requires pos + |s| <= MAX_INT && Valid(x) && x.dec == HardDecoder(qc)
    ensures Decode(x.schema, s, pos, m).Panic? <==> exists i, j :: ClusterPanicsAt(x, qc, s, pos, m, i, j)
  {
    hide *;
    MapPanics(x, s, pos, m);
    forall i: nat, j: nat
      ensures MapPanicsAt(x, s, pos, m, i, j) <==> ClusterPanicsAt(x, qc, s, pos, m, i, j)
    {
      ClusterPanicSame(x, qc, s, pos, m, i, j);
    }
  }

  lemma ClusterPanicSame<M, Q(!new)>(x: MapMessage<M, Quantities<Q>>, qc: QuantityCodec<Q>, s: bytes, pos: nat, m: M,
                                     i: nat, j: nat)
    requires pos + |s| <= MAX_INT && x.dec == HardDecoder(qc)
    ensures MapPanicsAt(x, s, pos, m, i, j) <==> ClusterPanicsAt(x, qc, s, pos, m, i, j)
  {
    hide ArrivesAt, EntryPlace, PanicInValue, HardDecoder, ItemAt, Overflows, EntryReach;
    if ArrivesAt(x, s, pos, m, i) {
      var (rest, n, p) := EntryPlace(x, s, pos, m, i);
      if j < n {
        ValuePanics(qc, ItemAt(rest, n, p, j));
      }
    }
  }

  lemma SpecPanics<Q(!new)>(qc: QuantityCodec<Q>, s: bytes, pos: nat, m: Spec<Q>)
    requires pos + |s| <= MAX_INT
    ensures Decode(SpecSchema(qc), s, pos, m).Panic?
            <==> exists i, j :: ClusterPanicsAt(SpecMap(qc), qc, s, pos, m, i, j)
  {
    SpecIsMap(qc);
    assert SpecMap(qc).schema == SpecSchema(qc) && SpecMap(qc).dec == HardDecoder(qc);
    hide *;
    ClusterPanics(SpecMap(qc), qc, s, pos, m);
  }

  lemma StatusPanics<Q(!new)>(qc: QuantityCodec<Q>, s: bytes, pos: nat, m: Status<Q>)
    requires pos + |s| <= MAX_INT
    ensures Decode(StatusSchema(qc), s, pos, m).Panic?
            <==> exists i, j :: ClusterPanicsAt(StatusMap(qc), qc, s, pos, m, i, j)
  {
    StatusIsMap(qc);
    assert StatusMap(qc).schema == StatusSchema(qc) && StatusMap(qc).dec == HardDecoder(qc);
    hide *;
    ClusterPanics(StatusMap(qc), qc, s, pos, m);
  }

  // ---- A check on the bytes alone ----

  // Wherever in s a record is skipped, its end is an int.
  ghost predicate EndsFit(s: bytes, pos: nat)
    requires pos + |s| <= MAX_INT
  {
    forall j :: 0 <= j < |s| ==> EndFits(s, pos, j)
  }

  predicate EndFits(s: bytes, pos: nat, j: nat)
    requires j < |s| && pos + |s| <= MAX_INT
  {
    Skip(s[j..]).Ok? ==> pos + j + Skip(s[j..]).value <= MAX_INT
  }

  lemma OverflowHasEnd<M, V>(x: MapMessage<M, V>, s: bytes, pos: nat, m: M, i: nat, j: nat) returns (q: nat)
    requires pos + |s| <= MAX_INT && OverflowsAt(x, s, pos, m, i, j)
    ensures q < |s| && !EndFits(s, pos, q)
  {
    hide Reach, EntryReach, Skip, FieldPayload;
    var (k, e) := FieldPayload(s[i..], x.field).value;
    assert s[i..][k..][j..] == s[i + k + j..];
    q := i + k + j;
  }

  // A record whose end lies outside s keeps that end when s is part of a
  // longer slice.
  lemma SkipLonger(s: bytes, t: bytes)
    requires |s + t| <= MAX_INT && Skip(s).Ok? && Skip(s).value > |s|
    ensures Skip(s + t) == Skip(s)
  {
    hide *;
    SkipHasTag(s);
    var (w, n) := ReadVarint(s).value;
    ReadVarintExtends(s, t);
    assert (s + t)[n..] == s[n..] + t;
    SkipIs(s, w, n);
    SkipIs(s + t, w, n);
    PayloadLonger(w % 8, n, s[n..], t);
  }

  lemma SkipHasTag(s: bytes)
    requires |s| <= MAX_INT && Skip(s).Ok?
    ensures s != [] && ReadVarint(s).Some?
  {
    hide ReadVarint, SkipPayload;
  }

  lemma PayloadLonger(wireType: nat, n: nat, s: bytes, t: bytes)
    requires 1 <= n && n + |s + t| <= MAX_INT
    requires SkipPayload(wireType, n, s).Ok? && SkipPayload(wireType, n, s).value > n + |s|
    ensures SkipPayload(wireType, n, s + t) == SkipPayload(wireType, n, s)
  {
    hide ReadVarint, VarintEnd, SkipGroup;
    if wireType == 2 {
      ReadVarintExtends(s, t);
    }
  }

  lemma ValueHasEnd(v: bytes, s: bytes, pos: nat, o: nat, q: nat)
    requires pos + |s| <= MAX_INT && o + |v| <= |s| && v == s[o..o + |v|]
    requires q < |v| && !EndFits(v, 0, q)
    ensures !EndFits(s, pos, o + q)
  {
    hide Skip;
    assert s[o + q..] == v[q..] + s[o + |v|..];
    SkipLonger(v[q..], s[o + |v|..]);
  }

  // Decoding does not panic when no skipped record of the input, read at any
  // offset, has an end past the largest int, provided that the decoder of
  // quantities does not panic.
  lemma HardSafe<Q(!new)>(qc: QuantityCodec<Q>, s: bytes, pos: nat, m: Quantities<Q>)
    requires pos + |s| <= MAX_INT && EndsFit(s, pos) && DecodesQuietly(qc.dec)
    ensures !Decode(HardSchema(qc), s, pos, m).Panic?
  {
    hide Decode, HardSchema, HardMap, EndFits, OverflowsAt, MapPanicsAt, DecodesQuietly;
    HardPanics(qc, s, pos, m);
    forall i: nat, j: nat | OverflowsAt(HardMap(qc), s, pos, m, i, j)
      ensures false
    {
      var q := OverflowHasEnd(HardMap(qc), s, pos, m, i, j);
    }
  }

  lemma SpecSafe<Q(!new)>(qc: QuantityCodec<Q>, s: bytes, pos: nat, m: Spec<Q>)
    requires pos + |s| <= MAX_INT && EndsFit(s, pos) && DecodesQuietly(qc.dec)
    ensures !Decode(SpecSchema(qc), s, pos, m).Panic?
  {
    hide *;
    SpecPanics(qc, s, pos, m);
    forall i: nat, j: nat
      ensures !ClusterPanicsAt(SpecMap(qc), qc, s, pos, m, i, j)
    {
      ClusterSafe(SpecMap(qc), qc, s, pos, m, i, j);
    }
  }

  lemma StatusSafe<Q(!new)>(qc: QuantityCodec<Q>, s: bytes, pos: nat, m: Status<Q>)
    requires pos + |s| <= MAX_INT && EndsFit(s, pos) && DecodesQuietly(qc.dec)
    ensures !Decode(StatusSchema(qc), s, pos, m).Panic?
  {
    hide *;
    StatusPanics(qc, s, pos, m);
    forall i: nat, j: nat
      ensures !ClusterPanicsAt(StatusMap(qc), qc, s, pos, m, i, j)
    {
      ClusterSafe(StatusMap(qc), qc, s, pos, m, i, j);
    }
  }

  lemma ClusterSafe<M, Q>(x: MapMessage<M, Quantities<Q>>, qc: QuantityCodec<Q>, s: bytes, pos: nat, m: M, i: nat,
      j: nat)
    requires pos + |s| <= MAX_INT && EndsFit(s, pos) && DecodesQuietly(qc.dec)
    ensures !ClusterPanicsAt(x, qc, s, pos, m, i, j)
  {
    hide Reach, EntryReach, FieldPayload, HardMap, EndFits, Overflows, ItemAt, OverflowsAt, MapPanicsAt, DecodesQuietly;
    if ClusterPanicsAt(x, qc, s, pos, m, i, j) {
      var (rest, n, p) := EntryPlace(x, s, pos, m, i);
      if Overflows(rest, p, j) {
        OverflowsHere(x, s, pos, m, i, j);
        var q := OverflowHasEnd(x, s, pos, m, i, j);
      } else {
        var v := ItemAt(rest, n, p, j).v;
        var a, b :| MapPanicsAt(HardMap(qc), v, 0, ZeroHard(), a, b);
        HardDec(qc);
        NoValuePanics(HardMap(qc), v, 0, ZeroHard(), a, b);
        var q := OverflowHasEnd(HardMap(qc), v, 0, ZeroHard(), a, b);
        var o := ValueOffset(rest, n, p, j);
        var (k, e) := FieldPayload(s[i..], x.field).value;
        assert rest[o..o + |v|] == s[i + k + o..i + k + o + |v|];
        ValueHasEnd(v, s, pos, i + k + o, q);
      }
    }
  }

  lemma HardDec<Q>(qc: QuantityCodec<Q>)
    ensures HardMap(qc).dec == qc.dec
  {
  }

  lemma OverflowsHere<M, V>(x: MapMessage<M, V>, s: bytes, pos: nat, m: M, i: nat, j: nat)
    requires pos + |s| <= MAX_INT && ArrivesAt(x, s, pos, m, i)
    requires var (rest, n, p) := EntryPlace(x, s, pos, m, i);
             j < n && EntryReach(x.dec, rest, n, p, 0, [], x.zero, j).Some? && Overflows(rest, p, j)
    ensures OverflowsAt(x, s, pos, m, i, j)
  {
    hide ArrivesAt, EntryPlace, EntryReach, Overflows;
  }

  lemma ValueOffset(rest: bytes, n: nat, pos: nat, j: nat) returns (o: nat)
    requires j < n <= |rest| && pos + |rest| <= MAX_INT && ItemAt(rest, n, pos, j).ValueItem?
    ensures var v := ItemAt(rest, n, pos, j).v; o + |v| <= |rest| && v == rest[o..o + |v|]
  {
    hide ReadVarint, BoundsAt, FieldNumber, Skip;
    var k := ReadVarint(rest[j..]).value.1;
    o := BoundsAt(rest, j + k).value.0;
  }
}
