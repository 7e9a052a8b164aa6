// Unknown records inserted in messages with maps: exactly when the insertion
// shows.
module MapBoundaries {
  import opened Bits
  import opened Wrappers
  import opened Varint
  import opened Wire
  import opened Decoder
  import opened Fields
  import opened Reading
  import opened MapField
  import opened Project
  import opened MapLimits
  import opened MapPositions

  // ---- After a prefix that decodes ----

  // An unknown record inserted after a prefix that decodes leaves the outcome
  // as it is, or turns an error return into a panic; the latter exactly when
  // the rest has a skipped record whose end crosses the largest int.
  lemma Inserted<M(!new), V(!new)>(x: MapMessage<M, V>, a: bytes, r: Record, b: bytes, m: M)
    requires Valid(x) && IsUnknown(x.schema, r) && |a + Enc(r) + b| <= MAX_INT
    requires Decode(x.schema, a, 0, m).Ok?
    ensures var d, d' := Decode(x.schema, a + b, 0, m), Decode(x.schema, a + Enc(r) + b, 0, m);
            var m' := Decode(x.schema, a, 0, m).value;
            && (d == d' || (d == Err && d' == Panic))
            && (d != d' <==> exists i, j :: CrossesAt(x, b, |a|, |a + Enc(r)|, m', i, j))
  {
    hide *;
    ValidStable(x);
    UnknownTransparent(x.schema, a, r, b, m);
    MapMoved(x, b, |a|, |a + Enc(r)|, Decode(x.schema, a, 0, m).value);
  }

  // ---- Entries that end where they say ----

  // The varint at the start of s is complete, or already too long: what
  // follows s does not matter.
  predicate Complete(s: bytes) {
    ReadVarint(s).Some? || |s| >= 10
  }

  // Start and end of the payload that the length prefix at index i claims,
  // inside c or not.
  function LengthAt(c: bytes, i: nat): (r: Option<(nat, nat)>)
    requires i <= |c|
    ensures r.Some? ==> i < r.value.0 <= r.value.1 && r.value.0 <= |c|
  {
    match ReadVarint(c[i..])
    case None => None
    case Some((v, l)) => if ToInt64(v) < 0 then None else Some((i + l, i + l + ToInt64(v)))
  }

  // From offset j on, every key and value of the entry c ends inside c, and so
  // does every tag and length that is read.
  predicate Confined(c: bytes, j: nat)
    requires j <= |c| <= MAX_INT
    decreases |c| - j
  {
    j == |c| ||
    (Complete(c[j..]) &&
     match ReadVarint(c[j..])
     case None => true
     case Some((w, k)) =>
       if FieldNumber(w) == 1 || FieldNumber(w) == 2 then
         Complete(c[j + k..]) &&
         (match LengthAt(c, j + k)
          case None => true
          case Some((_, e)) => e <= |c| && Confined(c, e))
       else
         (w % 8 == 2 ==> Complete(c[j + k..])) &&
         (match Skip(c[j..])
          case Ok(x) => 0 <= x <= |c| - j ==> Confined(c, j + x)
          case _ => true))
  }

  lemma CompleteExtends(s: bytes, t: bytes)
    requires Complete(s)
    ensures ReadVarint(s + t) == ReadVarint(s)
  {
    if ReadVarint(s).Some? {
      ReadVarintExtends(s, t);
    } else {
      VarintEndScan(s, 0);
      VarintEndScan(s + t, 0);
      assert forall j :: 0 <= j < 10 ==> (s + t)[j] == s[j];
    }
  }

  // A record that ends inside s is skipped alike in s alone.
  lemma SkipShrinks(s: bytes, t: bytes)
    requires |s + t| <= MAX_INT && Skip(s + t).Ok? && 0 <= Skip(s + t).value <= |s|
    ensures Skip(s) == Skip(s + t)
  {
    hide *;
    var r := SkipParses(s + t);
    var n := Skip(s + t).value;
    assert (s + t)[..n] == s[..n];
    SkipExact(r, s[n..]);
    assert s == s[..n] + s[n..];
  }

  // What follows a record that does not end inside s can only let it end later.
  lemma SkipSettled(s: bytes, t: bytes)
    requires |s + t| <= MAX_INT && ReadVarint(s).Some?
    requires var (w, n) := ReadVarint(s).value; w % 8 == 2 ==> Complete(s[n..])
    ensures Skip(s + t) == Skip(s)
            || (Skip(s) == Err && Skip(s + t).Ok? && |s| < Skip(s + t).value <= |s + t|)
  {
    var (w, n) := ReadVarint(s).value;
    ReadVarintExtends(s, t);
    assert (s + t)[n..] == s[n..] + t;
    if Skip(s + t).Ok? && 0 <= Skip(s + t).value <= |s| {
      SkipShrinks(s, t);
    } else if Skip(s).Ok? && 0 <= Skip(s).value <= |s| {
      SkipExtends(s, t);
    } else {
      PayloadSettled(w % 8, n, s[n..], t);
      hide SkipPayload, ReadVarint;
    }
  }

  lemma PayloadSettled(wireType: nat, n: nat, s: bytes, t: bytes)
    requires 1 <= n && n + |s + t| <= MAX_INT && (wireType == 2 ==> Complete(s))
    ensures var a, b := SkipPayload(wireType, n, s), SkipPayload(wireType, n, s + t);
            a == b || (a.Ok? && 0 <= a.value <= n + |s|) || (a == Err && b.Ok? && 0 <= b.value <= n + |s + t|)
  {
    hide ReadVarint, VarintEnd, SkipGroup, Complete;
    if wireType == 2 {
      CompleteExtends(s, t);
    }
  }

  lemma ConfinedBounds(c: bytes, a: bytes, i: nat)
    requires i <= |c| && Complete(c[i..])
    requires LengthAt(c, i).Some? ==> LengthAt(c, i).value.1 <= |c|
    ensures BoundsAt(c + a, i) == BoundsAt(c, i) == LengthAt(c, i)
    ensures BoundsAt(c, i).Some? ==>
              var (s, e) := BoundsAt(c, i).value; (c + a)[s..e] == c[s..e]
  {
    assert (c + a)[i..] == c[i..] + a;
    CompleteExtends(c[i..], a);
    hide ReadVarint, Complete;
  }

  // What the loop finds in a confined entry does not depend on what follows.
  lemma ConfinedItem(c: bytes, a: bytes, pos: nat, j: nat)
    requires j < |c| && pos + |c + a| <= MAX_INT && Confined(c, j)
    ensures ItemAt(c + a, |c|, pos, j) == ItemAt(c, |c|, pos, j)
    ensures ItemConfined(c, ItemAt(c, |c|, pos, j))
  {
    assert (c + a)[j..] == c[j..] + a;
    CompleteExtends(c[j..], a);
    if ReadVarint(c[j..]).Some? {
      var (w, k) := ReadVarint(c[j..]).value;
      hide ReadVarint, FieldNumber, ItemAt, Complete, LengthAt, Skip;
      if FieldNumber(w) == 1 || FieldNumber(w) == 2 {
        ConfinedPayload(c, a, pos, j);
      } else {
        ConfinedSkip(c, a, pos, j);
      }
    }
  }

  predicate ItemConfined(c: bytes, item: Item)
    requires |c| <= MAX_INT
  {
    item.KeyItem? || item.ValueItem? || item.Other? ==> item.next <= |c| && Confined(c, item.next)
  }

  lemma ConfinedPayload(c: bytes, a: bytes, pos: nat, j: nat)
    requires j < |c| && pos + |c + a| <= MAX_INT && Confined(c, j)
    requires ReadVarint(c[j..]).Some? && ReadVarint(c[j..]) == ReadVarint((c + a)[j..])
    requires FieldNumber(ReadVarint(c[j..]).value.0) == 1 || FieldNumber(ReadVarint(c[j..]).value.0) == 2
    ensures ItemAt(c + a, |c|, pos, j) == ItemAt(c, |c|, pos, j)
    ensures ItemConfined(c, ItemAt(c, |c|, pos, j))
  {
    hide ReadVarint, FieldNumber, Skip, BoundsAt, Complete, LengthAt;
    ConfinedBounds(c, a, j + ReadVarint(c[j..]).value.1);
  }

  lemma ConfinedSkip(c: bytes, a: bytes, pos: nat, j: nat)
    requires j < |c| && pos + |c + a| <= MAX_INT && Confined(c, j)
    requires ReadVarint(c[j..]).Some? && ReadVarint(c[j..]) == ReadVarint((c + a)[j..])
    requires FieldNumber(ReadVarint(c[j..]).value.0) != 1 && FieldNumber(ReadVarint(c[j..]).value.0) != 2
    ensures ItemAt(c + a, |c|, pos, j) == ItemAt(c, |c|, pos, j)
    ensures ItemConfined(c, ItemAt(c, |c|, pos, j))
  {
    hide *;
    var s := c[j..];
    assert (c + a)[j..] == s + a;
    ConfinedAfterSkip(c, j);
    ItemOfSkip(c, |c|, pos, j);
    ItemOfSkip(c + a, |c|, pos, j);
    SkipSettled(s, a);
    SkippedSame(Skip(s), Skip(s + a), c, a, pos, j);
  }

  lemma ConfinedAfterSkip(c: bytes, j: nat)
    requires j < |c| <= MAX_INT && Confined(c, j) && ReadVarint(c[j..]).Some?
    requires FieldNumber(ReadVarint(c[j..]).value.0) != 1 && FieldNumber(ReadVarint(c[j..]).value.0) != 2
    ensures var (w, k) := ReadVarint(c[j..]).value;
            (w % 8 == 2 ==> Complete(c[j..][k..]))
    ensures Skip(c[j..]).Ok? && 0 <= Skip(c[j..]).value <= |c| - j ==> Confined(c, j + Skip(c[j..]).value)
  {
    hide ReadVarint, FieldNumber, Skip, LengthAt, Complete;
    assert c[j..][ReadVarint(c[j..]).value.1..] == c[j + ReadVarint(c[j..]).value.1..];
  }

  lemma SkippedSame(r: Result<int>, r': Result<int>, c: bytes, a: bytes, pos: nat, j: nat)
    requires j < |c| && pos + |c + a| <= MAX_INT
    requires r' == r || (r == Err && r'.Ok? && |c| - j < r'.value <= |c + a| - j)
    requires r.Ok? && 0 <= r.value <= |c| - j ==> Confined(c, j + r.value)
    ensures SkippedItem(r', |c|, pos, j) == SkippedItem(r, |c|, pos, j)
    ensures ItemConfined(c, SkippedItem(r, |c|, pos, j))
  {
    hide Confined;
  }

  lemma {:induction false} ConfinedEntry<V>(dec: bytes -> Result<V>, c: bytes, a: bytes, pos: nat, j: nat,
      key: bytes, val: V)
    requires j <= |c| && pos + |c + a| <= MAX_INT && Confined(c, j)
    ensures EntryFrom(dec, c + a, |c|, pos, j, key, val) == EntryFrom(dec, c, |c|, pos, j, key, val)
    decreases |c| - j
  {
    hide ItemAt, Confined;
    if j < |c| {
      ConfinedItem(c, a, pos, j);
      if EntryStep(dec, c, |c|, pos, j, key, val).Ok? {
        var (j', key', val') := EntryStep(dec, c, |c|, pos, j, key, val).value;
        ConfinedEntry(dec, c, a, pos, j', key', val');
      }
    }
  }

  predicate ConfinedRecord(f: int, r: Record) {
    r.payload.Bytes? && FieldNumber(Value(r.tag)) == f
    ==> |r.payload.content| <= MAX_INT && Confined(r.payload.content, 0)
  }

  // Every entry of the map field f ends where it says.
  predicate ConfinedAll(f: int, rs: seq<Record>) {
    forall i :: 0 <= i < |rs| ==> ConfinedRecord(f, rs[i])
  }

  // Then no record depends on what follows it.
  lemma ConfinedMeaning<M(!new), V(!new)>(x: MapMessage<M, V>, m: M, r: Record, pos: nat, t: bytes)
    requires Valid(x) && ConfinedRecord(x.field, r) && pos + |Enc(r) + t| <= MAX_INT
    ensures Meaning(x.schema, m, r, pos + PayloadStart(r), t) == Meaning(x.schema, m, r, pos + PayloadStart(r), [])
  {
    EncLength(r);
    hide FieldNumber, Value, Enc, PayloadStart, Confined, Valid;
    if r.payload.Bytes? {
      ConfinedStep(x, FieldNumber(Value(r.tag)), m, pos + PayloadStart(r), r.payload.content, t);
    }
  }

  lemma ConfinedStep<M(!new), V(!new)>(x: MapMessage<M, V>, f: int, m: M, p: nat, c: bytes, t: bytes)
    requires Valid(x) && p + |c| + |t| <= MAX_INT && (f == x.field ==> Confined(c, 0))
    ensures x.schema(f).Delimited? ==> x.schema(f).step(m, p, c, t) == x.schema(f).step(m, p, c, [])
  {
    if f == x.field {
      hide *;
      EntryPut(x, m, p, c, t);
      EntryPut(x, m, p, c, []);
      ConfinedDecode(x.dec, x.zero, p, c, t);
      SamePut(x, m, p, c, t);
    } else {
      hide PutsEntries, Stable;
      assert LocalAt(x.schema(f), m, p, c, t) && LocalAt(x.schema(f), m, p, c, []);
    }
  }

  lemma SamePut<M, V>(x: MapMessage<M, V>, m: M, p: nat, c: bytes, t: bytes)
    requires DecodeEntry(x.dec, x.zero, p, c, t) == DecodeEntry(x.dec, x.zero, p, c, [])
    ensures PutEntry(x.dec, x.zero, x.get, x.upd, m, p, c, t) == PutEntry(x.dec, x.zero, x.get, x.upd, m, p, c, [])
  {
    hide DecodeEntry;
  }

  lemma ConfinedDecode<V>(dec: bytes -> Result<V>, zero: V, p: nat, c: bytes, t: bytes)
    requires p + |c| + |t| <= MAX_INT && Confined(c, 0)
    ensures DecodeEntry(dec, zero, p, c, t) == DecodeEntry(dec, zero, p, c, [])
  {
    hide EntryFrom, Confined;
    assert c + [] == c;
    ConfinedEntry(dec, c, t, p, 0, [], zero);
  }

  // Records whose entries end where they say, followed by any bytes: decoding
  // is decoding the records alone, errors and panics included, and then the
  // bytes.
  lemma {:induction false} DecodeConfinedThen<M(!new), V(!new)>(x: MapMessage<M, V>, rs: seq<Record>, b: bytes,
      pos: nat, m: M)
    requires Valid(x) && WellFormedAll(rs) && ConfinedAll(x.field, rs) && pos + |EncAll(rs) + b| <= MAX_INT
    ensures Decode(x.schema, EncAll(rs) + b, pos, m)
            == (match Decode(x.schema, EncAll(rs), pos, m)
                case Ok(m') => Decode(x.schema, b, pos + |EncAll(rs)|, m')
                case Err => Err
                case Panic => Panic)
  {
    hide Valid, DecodeOne, Meaning, WellFormed, Enc, PayloadStart, ConfinedRecord;
    if rs == [] {
      assert EncAll(rs) + b == b;
    } else {
      var e, t := Enc(rs[0]), EncAll(rs[1..]);
      EncNonempty(rs[0]);
      Assoc(e, t, b);
      DecodeOneIs(x.schema, m, rs[0], pos, t);
      DecodeOneIs(x.schema, m, rs[0], pos, t + b);
      ConfinedMeaning(x, m, rs[0], pos, t);
      ConfinedMeaning(x, m, rs[0], pos, t + b);
      assert (e + (t + b))[|e|..] == t + b && (e + t)[|e|..] == t;
      var r := Meaning(x.schema, m, rs[0], pos + PayloadStart(rs[0]), []);
      if r.Ok? {
        DecodeConfinedThen(x, rs[1..], b, pos + |e|, r.value);
      }
    }
  }

  // For such records the fold in place succeeds like the plain fold, so that
  // decoding refines the grammar as it does without maps.
  lemma {:induction false} ConfinedFold<M(!new), V(!new)>(x: MapMessage<M, V>, rs: seq<Record>, pos: nat, m: M, m': M)
    requires Valid(x) && WellFormedAll(rs) && ConfinedAll(x.field, rs) && pos + |EncAll(rs)| <= MAX_INT
    ensures Decode(x.schema, EncAll(rs), pos, m) == Ok(m') <==> Fold(x.schema, rs, m) == Ok(m')
  {
    hide *;
    ValidStable(x);
    DecodeIsFold(x.schema, rs, pos, m);
    if Fold(x.schema, rs, m) == Ok(m') {
      DecodeRecords(x.schema, rs, pos, m);
    }
    if FoldAt(x.schema, rs, pos, m) == Ok(m') {
      FoldPlain(x, rs, pos, m);
    }
  }

  lemma {:induction false} FoldPlain<M(!new), V(!new)>(x: MapMessage<M, V>, rs: seq<Record>, pos: nat, m: M)
    requires Valid(x) && ConfinedAll(x.field, rs) && pos + |EncAll(rs)| <= MAX_INT
    requires FoldAt(x.schema, rs, pos, m).Ok?
    ensures Fold(x.schema, rs, m) == FoldAt(x.schema, rs, pos, m)
  {
    hide Valid, Meaning, Enc, PayloadStart, ConfinedRecord, Stable;
    ValidStable(x);
    if rs != [] {
      var t := EncAll(rs[1..]);
      ConfinedMeaning(x, m, rs[0], pos, t);
      EncLength(rs[0]);
      var none: bytes := [];
      assert none + none == none;
      MeaningStable(x.schema, m, rs[0], pos + PayloadStart(rs[0]), none, 0, none);
      FoldPlain(x, rs[1..], pos + |Enc(rs[0])|, Meaning(x.schema, m, rs[0], pos + PayloadStart(rs[0]), t).value);
    }
  }

  // An unknown record inserted after records whose entries end where they say,
  // whether or not these decode.
  lemma InsertedConfined<M(!new), V(!new)>(x: MapMessage<M, V>, rs: seq<Record>, r: Record, b: bytes, m: M)
    requires Valid(x) && WellFormedAll(rs) && ConfinedAll(x.field, rs) && IsUnknown(x.schema, r)
    requires |EncAll(rs) + Enc(r) + b| <= MAX_INT
    ensures var a := EncAll(rs);
            var d, d' := Decode(x.schema, a + b, 0, m), Decode(x.schema, a + Enc(r) + b, 0, m);
            var p := Decode(x.schema, a, 0, m);
            && (d == d' || (d == Err && d' == Panic))
            && (d != d' <==> p.Ok? && exists i, j :: CrossesAt(x, b, |a|, |a + Enc(r)|, p.value, i, j))
  {
    hide *;
    var a, e := EncAll(rs), Enc(r);
    Assoc(a, e, b);
    if Decode(x.schema, a, 0, m).Ok? {
      Inserted(x, a, r, b, m);
    } else {
      DecodeConfinedThen(x, rs, b, 0, m);
      DecodeConfinedThen(x, rs, e + b, 0, m);
    }
  }

  // A record whose end crosses can be found on the bytes alone.
  lemma CrossHasEnd<M, V>(x: MapMessage<M, V>, s: bytes, pos: nat, pos': nat, m: M, i: nat, j: nat) returns (q: nat)
    requires pos <= pos' && pos' + |s| <= MAX_INT && CrossesAt(x, s, pos, pos', m, i, j)
    ensures q < |s| && !EndFits(s, pos', q)
  {
    hide Reach, EntryReach, Skip, FieldPayload;
    var (k, e) := FieldPayload(s[i..], x.field).value;
    assert s[i..][k..][j..] == s[i + k + j..];
    q := i + k + j;
  }

  // So the inserted record goes unnoticed when no record that could be skipped
  // at any offset of the bytes after it has an end past the largest int.
  lemma Unnoticed<M(!new), V(!new)>(x: MapMessage<M, V>, rs: seq<Record>, r: Record, b: bytes, m: M)
    requires Valid(x) && WellFormedAll(rs) && ConfinedAll(x.field, rs) && IsUnknown(x.schema, r)
    requires |EncAll(rs) + Enc(r) + b| <= MAX_INT && EndsFit(b, |EncAll(rs) + Enc(r)|)
    ensures Decode(x.schema, EncAll(rs) + Enc(r) + b, 0, m) == Decode(x.schema, EncAll(rs) + b, 0, m)
  {
    hide *;
    InsertedConfined(x, rs, r, b, m);
    var a, p := EncAll(rs), Decode(x.schema, EncAll(rs), 0, m);
    if p.Ok? {
      forall i: nat, j: nat
        ensures !CrossesAt(x, b, |a|, |a + Enc(r)|, p.value, i, j)
      {
        NothingCrosses(x, b, |a|, |a + Enc(r)|, p.value, i, j);
      }
    }
  }

  lemma NothingCrosses<M, V>(x: MapMessage<M, V>, s: bytes, pos: nat, pos': nat, m: M, i: nat, j: nat)
    requires pos <= pos' && pos' + |s| <= MAX_INT && EndsFit(s, pos')
    ensures !CrossesAt(x, s, pos, pos', m, i, j)
  {
    hide CrossesAt, EndFits;
    if CrossesAt(x, s, pos, pos', m, i, j) {
      var q := CrossHasEnd(x, s, pos, pos', m, i, j);
    }
  }

  // ---- Entries that run off their end ----

  // Field number, start and end of the key or value item at offset j of c, as
  // its tag and length claim.
  function OpenItem(c: bytes, j: nat): (r: Option<(int, nat, nat)>)
    requires j <= |c|
    ensures r.Some? ==> (r.value.0 == 1 || r.value.0 == 2) && j < r.value.1 <= |c| && r.value.1 <= r.value.2
  {
    match ReadVarint(c[j..])
    case None => None
    case Some((w, k)) =>
      if FieldNumber(w) != 1 && FieldNumber(w) != 2 then None else
      match LengthAt(c, j + k)
      case None => None
      case Some((s, e)) => Some((FieldNumber(w), s, e))
  }

  // What an item with payload q adds to an entry read so far.
  function CloseItem<V>(dec: bytes -> Result<V>, f: int, q: bytes, key: bytes, val: V): Result<(bytes, V)> {
    if f == 1 then Ok((q, val)) else
    match dec(q)
    case Ok(v) => Ok((key, v))
    case Err => Err
    case Panic => Panic
  }

  lemma {:induction false} EntryReachExtends<V>(dec: bytes -> Result<V>, c: bytes, t: bytes, pos: nat, i: nat,
                                               key: bytes, val: V, j: nat)
    requires i <= |c| && pos + |c + t| <= MAX_INT && EntryReach(dec, c, |c|, pos, i, key, val, j).Some?
    ensures EntryReach(dec, c + t, |c|, pos, i, key, val, j) == EntryReach(dec, c, |c|, pos, i, key, val, j)
    decreases |c| - i
  {
    hide EntryStep;
    if i != j {
      EntryStepExtends(dec, c, |c|, pos, i, key, val, t, |c|, pos);
      var (i', key', val') := EntryStep(dec, c, |c|, pos, i, key, val).value;
      EntryReachExtends(dec, c, t, pos, i', key', val', j);
    }
  }

  // The last item of an entry takes the bytes it lacks from what follows.
  lemma EntryRunsOff<V>(dec: bytes -> Result<V>, zero: V, c: bytes, pos: nat, j: nat, t: bytes)
    requires j < |c| && pos + |c| + |t| <= MAX_INT
    requires EntryReach(dec, c, |c|, pos, 0, [], zero, j).Some?
    requires OpenItem(c, j).Some? && OpenItem(c, j).value.2 >= |c|
    ensures var (key, val) := EntryReach(dec, c, |c|, pos, 0, [], zero, j).value;
            var (f, s, e) := OpenItem(c, j).value;
            var lack := e - |c|;
            DecodeEntry(dec, zero, pos, c, t)
            == if |t| < lack then Err else CloseItem(dec, f, c[s..] + t[..lack], key, val)
  {
    var (f, s, e) := OpenItem(c, j).value;
    OpenItemAt(c, t, pos, j);
    hide EntryFrom, EntryReach, ItemAt, OpenItem;
    EntryReachExtends(dec, c, t, pos, 0, [], zero, j);
    EntryReachDecides(dec, c + t, |c|, pos, 0, [], zero, j);
    var (key, val) := EntryReach(dec, c, |c|, pos, 0, [], zero, j).value;
    EntryTurn(dec, c + t, |c|, pos, j, key, val);
    if |t| >= e - |c| {
      var r := CloseItem(dec, f, c[s..] + t[..e - |c|], key, val);
      if r.Ok? {
        EntryTurn(dec, c + t, |c|, pos, e, r.value.0, r.value.1);
      }
    }
  }

  lemma OpenItemAt(c: bytes, t: bytes, pos: nat, j: nat)
    requires j < |c| && pos + |c| + |t| <= MAX_INT
    requires OpenItem(c, j).Some? && OpenItem(c, j).value.2 >= |c|
    ensures var (f, s, e) := OpenItem(c, j).value;
            var lack := e - |c|;
            ItemAt(c + t, |c|, pos, j)
            == if |t| < lack then Broken
               else if f == 1 then KeyItem(c[s..] + t[..lack], e) else ValueItem(c[s..] + t[..lack], e)
  {
    hide *;
    var w, k := OpenItemParts(c, j);
    assert (c + t)[j..] == c[j..] + t;
    ReadVarintExtends(c[j..], t);
    OpenBounds(c, t, j + k);
    ItemOfPayload(c + t, |c|, pos, j, w, k);
  }

  lemma OpenItemParts(c: bytes, j: nat) returns (w: uint64, k: nat)
    requires j <= |c| && OpenItem(c, j).Some?
    ensures j + k <= |c| && ReadVarint(c[j..]) == Some((w, k)) && (FieldNumber(w) == 1 || FieldNumber(w) == 2)
    ensures var (f, s, e) := OpenItem(c, j).value; f == FieldNumber(w) && LengthAt(c, j + k) == Some((s, e))
  {
    w, k := ReadVarint(c[j..]).value.0, ReadVarint(c[j..]).value.1;
    hide ReadVarint, FieldNumber, LengthAt;
  }

  lemma OpenBounds(c: bytes, t: bytes, i: nat)
    requires i <= |c| && LengthAt(c, i).Some? && LengthAt(c, i).value.1 >= |c|
    ensures var (s, e) := LengthAt(c, i).value;
            if |t| < e - |c| then BoundsAt(c + t, i) == None
            else BoundsAt(c + t, i) == Some((s, e)) && (c + t)[s..e] == c[s..] + t[..e - |c|]
  {
    assert (c + t)[i..] == c[i..] + t;
    ReadVarintExtends(c[i..], t);
    hide ReadVarint;
  }

  // The last item of the entry h, at offset j of it, reaches the entry's end.
  predicate HasOpen(h: Record, j: nat) {
    && h.payload.Bytes? && j < |h.payload.content|
    && OpenItem(h.payload.content, j).Some?
    && OpenItem(h.payload.content, j).value.2 >= |h.payload.content|
  }

  // How many bytes that item takes from what follows the entry.
  function Lack(h: Record, j: nat): nat
    requires HasOpen(h, j)
  {
    OpenItem(h.payload.content, j).value.2 - |h.payload.content|
  }

  // Its payload when t follows the entry.
  function Taken(h: Record, j: nat, t: bytes): bytes
    requires HasOpen(h, j) && |t| >= Lack(h, j)
  {
    h.payload.content[OpenItem(h.payload.content, j).value.1..] + t[..Lack(h, j)]
  }

  function IsKey(h: Record, j: nat): bool
    requires HasOpen(h, j)
  {
    OpenItem(h.payload.content, j).value.0 == 1
  }

  // The key and value read in the entry h before offset j, when it starts at
  // index pos.
  function SoFar<M, V>(x: MapMessage<M, V>, h: Record, pos: nat, j: nat): Option<(bytes, V)>
    requires h.payload.Bytes? && pos + |Enc(h)| <= MAX_INT
  {
    var c := h.payload.content;
    EncLength(h);
    EntryReach(x.dec, c, |c|, pos + PayloadStart(h), 0, [], x.zero, j)
  }

  // The bytes a decode, the entry h follows them, and its loop arrives at such
  // an item.
  ghost predicate RunsOff<M(!new), V(!new)>(x: MapMessage<M, V>, a: bytes, h: Record, j: nat, m: M) {
    && Valid(x) && WellFormed(h) && HasOpen(h, j) && FieldNumber(Value(h.tag)) == x.field
    && |a + Enc(h)| <= MAX_INT
    && Decode(x.schema, a, 0, m).Ok?
    && SoFar(x, h, |a|, j).Some?
  }

  // The message after the entry when its last item has payload q.
  ghost function AfterEntry<M(!new), V(!new)>(x: MapMessage<M, V>, a: bytes, h: Record, j: nat, m: M, q: bytes)
    : Result<M>
    requires RunsOff(x, a, h, j, m)
  {
    var m' := Decode(x.schema, a, 0, m).value;
    var (key, val) := SoFar(x, h, |a|, j).value;
    match CloseItem(x.dec, if IsKey(h, j) then 1 else 2, q, key, val)
    case Ok((k, v)) => Ok(x.upd(m', Put(x.get(m'), k, v)))
    case Err => Err
    case Panic => Panic
  }

  // One turn of the loop at an entry given as a record.
  lemma EntryRecord<M(!new), V(!new)>(x: MapMessage<M, V>, h: Record, pos: nat, m: M, t: bytes)
    requires Valid(x) && WellFormed(h) && h.payload.Bytes? && FieldNumber(Value(h.tag)) == x.field
    requires pos + |Enc(h) + t| <= MAX_INT
    ensures DecodeOne(x.schema, Enc(h) + t, pos, m)
            == (match DecodeEntry(x.dec, x.zero, pos + PayloadStart(h), h.payload.content, t)
                case Ok((k, v)) => Ok((x.upd(m, Put(x.get(m), k, v)), |Enc(h)|))
                case Err => Err
                case Panic => Panic)
  {
    assert x.field > 0;
    hide Valid, WellFormed, Enc, PayloadStart, DecodeEntry, DecodeOne, FieldNumber, Value;
    DecodeOneIs(x.schema, m, h, pos, t);
    EntryPut(x, m, pos + PayloadStart(h), h.payload.content, t);
  }

  // That turn, when the entry runs off its end.
  lemma RunsOffTurn<M(!new), V(!new)>(x: MapMessage<M, V>, a: bytes, h: Record, j: nat, m: M, t: bytes)
    requires RunsOff(x, a, h, j, m) && |a + Enc(h) + t| <= MAX_INT
    ensures DecodeOne(x.schema, Enc(h) + t, |a|, Decode(x.schema, a, 0, m).value)
            == if |t| < Lack(h, j) then Err else
               match AfterEntry(x, a, h, j, m, Taken(h, j, t))
               case Ok(m') => Ok((m', |Enc(h)|))
               case Err => Err
               case Panic => Panic
  {
    EncLength(h);
    hide Decode, DecodeOne, Valid, WellFormed, Enc, PayloadStart, OpenItem, EntryReach, DecodeEntry, FieldNumber, Value;
    EntryRecord(x, h, |a|, Decode(x.schema, a, 0, m).value, t);
    EntryRunsOff(x.dec, x.zero, h.payload.content, |a| + PayloadStart(h), j, t);
  }

  lemma RunsOffFacts<M(!new), V(!new)>(x: MapMessage<M, V>, a: bytes, h: Record, j: nat, m: M)
    requires RunsOff(x, a, h, j, m)
    ensures Stable(x.schema) && Enc(h) != [] && |a + Enc(h)| <= MAX_INT && Decode(x.schema, a, 0, m).Ok?
    ensures h.payload.Bytes? && HasOpen(h, j) && SoFar(x, h, |a|, j).Some?
    ensures forall q :: IsKey(h, j) ==> AfterEntry(x, a, h, j, m, q).Ok?
  {
    ValidStable(x);
    EncNonempty(h);
  }

  // The outcome after such an entry, for all bytes t that follow.
  lemma RunsOffDecodes<M(!new), V(!new)>(x: MapMessage<M, V>, a: bytes, h: Record, j: nat, m: M, t: bytes)
    requires RunsOff(x, a, h, j, m) && |a + Enc(h) + t| <= MAX_INT
    ensures Decode(x.schema, a + Enc(h) + t, 0, m)
            == if |t| < Lack(h, j) then Err else
               match AfterEntry(x, a, h, j, m, Taken(h, j, t))
               case Ok(m') => Decode(x.schema, t, |a + Enc(h)|, m')
               case Err => Err
               case Panic => Panic
  {
    hide *;
    RunsOffFacts(x, a, h, j, m);
    var e, m' := Enc(h), Decode(x.schema, a, 0, m).value;
    Assoc(a, e, t);
    DecodeConcat(x.schema, a, e + t, 0, 0, m);
    RunsOffTurn(x, a, h, j, m, t);
    assert (e + t)[|e|..] == t;
    DecodeTurn(x.schema, e + t, |a|, m');
  }

  // The same, when an unknown record follows the entry at once.
  lemma RunsOffInserted<M(!new), V(!new)>(x: MapMessage<M, V>, a: bytes, h: Record, j: nat, m: M, r: Record, b: bytes)
    requires RunsOff(x, a, h, j, m) && IsUnknown(x.schema, r) && |a + Enc(h) + Enc(r) + b| <= MAX_INT
    ensures Decode(x.schema, a + Enc(h) + Enc(r) + b, 0, m)
            == if |Enc(r) + b| < Lack(h, j) then Err else
               match AfterEntry(x, a, h, j, m, Taken(h, j, Enc(r) + b))
               case Ok(m') => Decode(x.schema, b, |a + Enc(h) + Enc(r)|, m')
               case Err => Err
               case Panic => Panic
  {
    hide *;
    var e := Enc(r);
    RunsOffFacts(x, a, h, j, m);
    Assoc(a + Enc(h), e, b);
    RunsOffDecodes(x, a, h, j, m, e + b);
    if |e + b| >= Lack(h, j) && AfterEntry(x, a, h, j, m, Taken(h, j, e + b)).Ok? {
      var m' := AfterEntry(x, a, h, j, m, Taken(h, j, e + b)).value;
      UnknownKept(x.schema, r, m');
      DecodeConcat(x.schema, e, b, 0, |a + Enc(h)|, m');
    }
  }

  // The key case, at the end of the input: an unknown record put there goes
  // unnoticed exactly when the key ends inside its entry or the record is too
  // short to complete it.
  lemma KeyGuardExact<M(!new), V(!new)>(x: MapMessage<M, V>, a: bytes, h: Record, j: nat, m: M, r: Record)
    requires RunsOff(x, a, h, j, m) && IsKey(h, j)
    requires IsUnknown(x.schema, r) && |a + Enc(h) + Enc(r)| <= MAX_INT
    ensures Decode(x.schema, a + Enc(h) + Enc(r), 0, m) == Decode(x.schema, a + Enc(h), 0, m)
            <==> Lack(h, j) == 0 || |Enc(r)| < Lack(h, j)
  {
    hide *;
    var none: bytes := [];
    assert a + Enc(h) + none == a + Enc(h) && Enc(r) + none == Enc(r);
    assert a + Enc(h) + Enc(r) + none == a + Enc(h) + Enc(r);
    RunsOffFacts(x, a, h, j, m);
    RunsOffDecodes(x, a, h, j, m, none);
    RunsOffInserted(x, a, h, j, m, r, none);
    if |Enc(r)| >= Lack(h, j) {
      var n := AfterEntry(x, a, h, j, m, Taken(h, j, Enc(r))).value;
      NothingLeft(x.schema, |a + Enc(h) + Enc(r)|, n);
      if Lack(h, j) == 0 {
        TakesNothing(h, j, Enc(r));
        NothingLeft(x.schema, |a + Enc(h)|, n);
      }
    }
  }

  lemma TakesNothing(h: Record, j: nat, t: bytes)
    requires HasOpen(h, j) && Lack(h, j) == 0
    ensures Taken(h, j, t) == Taken(h, j, [])
  {
  }

  // The value case, at the end of the input: the record goes unnoticed exactly
  // when the value ends inside its entry, or the record is too short to complete
  // it, or completes it to a value that does not decode.
  lemma ValueGuardExact<M(!new), V(!new)>(x: MapMessage<M, V>, a: bytes, h: Record, j: nat, m: M, r: Record)
    requires RunsOff(x, a, h, j, m) && !IsKey(h, j)
    requires IsUnknown(x.schema, r) && |a + Enc(h) + Enc(r)| <= MAX_INT
    ensures Decode(x.schema, a + Enc(h) + Enc(r), 0, m) == Decode(x.schema, a + Enc(h), 0, m)
            <==> Lack(h, j) == 0 || |Enc(r)| < Lack(h, j) || x.dec(Taken(h, j, Enc(r))) == Err
  {
    hide *;
    var none: bytes := [];
    assert a + Enc(h) + none == a + Enc(h) && Enc(r) + none == Enc(r);
    assert a + Enc(h) + Enc(r) + none == a + Enc(h) + Enc(r);
    RunsOffFacts(x, a, h, j, m);
    RunsOffDecodes(x, a, h, j, m, none);
    RunsOffInserted(x, a, h, j, m, r, none);
    if |Enc(r)| >= Lack(h, j) {
      var q := Taken(h, j, Enc(r));
      ValueAfter(x, a, h, j, m, q);
      var n := AfterEntry(x, a, h, j, m, q);
      if n.Ok? {
        NothingLeft(x.schema, |a + Enc(h) + Enc(r)|, n.value);
      }
      if Lack(h, j) == 0 {
        TakesNothing(h, j, Enc(r));
        if n.Ok? {
          NothingLeft(x.schema, |a + Enc(h)|, n.value);
        }
      }
    }
  }

  lemma ValueAfter<M(!new), V(!new)>(x: MapMessage<M, V>, a: bytes, h: Record, j: nat, m: M, q: bytes)
    requires RunsOff(x, a, h, j, m) && !IsKey(h, j)
    ensures var n := AfterEntry(x, a, h, j, m, q);
            (n.Ok? <==> x.dec(q).Ok?) && (n.Err? <==> x.dec(q).Err?)
  {
    hide Decode, Valid, WellFormed, SoFar, Enc, FieldNumber, Value, Put, OpenItem, HasOpen;
  }

  // Before fewer bytes b than the item lacks, key or value: without the record
  // that is an error return; with it the error stays exactly when the two are
  // still too few, or the item they complete or the rest of b is in error.
  lemma ShortInserted<M(!new), V(!new)>(x: MapMessage<M, V>, a: bytes, h: Record, j: nat, m: M, r: Record, b: bytes)
    requires RunsOff(x, a, h, j, m) && |b| < Lack(h, j)
    requires IsUnknown(x.schema, r) && |a + Enc(h) + Enc(r) + b| <= MAX_INT
    ensures Decode(x.schema, a + Enc(h) + b, 0, m) == Err
    ensures Decode(x.schema, a + Enc(h) + Enc(r) + b, 0, m) == Err <==>
            |Enc(r) + b| < Lack(h, j) ||
            (var n := AfterEntry(x, a, h, j, m, Taken(h, j, Enc(r) + b));
             n.Err? || (n.Ok? && Decode(x.schema, b, |a + Enc(h) + Enc(r)|, n.value) == Err))
  {
    hide *;
    RunsOffFacts(x, a, h, j, m);
    RunsOffDecodes(x, a, h, j, m, b);
    RunsOffInserted(x, a, h, j, m, r, b);
  }

  // The key case, before enough bytes b: decoding goes on with b, moved up by
  // the record, from messages that differ exactly when the two keys do, unless
  // the map held the value under both keys already.
  lemma KeyInserted<M(!new), V(!new)>(x: MapMessage<M, V>, a: bytes, h: Record, j: nat, m: M, r: Record, b: bytes)
    requires RunsOff(x, a, h, j, m) && IsKey(h, j) && |b| >= Lack(h, j)
    requires IsUnknown(x.schema, r) && |a + Enc(h) + Enc(r) + b| <= MAX_INT
    ensures var k, k' := Taken(h, j, b), Taken(h, j, Enc(r) + b);
            var n, n' := AfterEntry(x, a, h, j, m, k), AfterEntry(x, a, h, j, m, k');
            var o, v := x.get(Decode(x.schema, a, 0, m).value), SoFar(x, h, |a|, j).value.1;
            && n.Ok? && n'.Ok?
            && Decode(x.schema, a + Enc(h) + b, 0, m) == Decode(x.schema, b, |a + Enc(h)|, n.value)
            && Decode(x.schema, a + Enc(h) + Enc(r) + b, 0, m) == Decode(x.schema, b, |a + Enc(h) + Enc(r)|, n'.value)
            && (n == n' <==> k == k' || (Holds(o, k, v) && Holds(o, k', v)))
  {
    hide *;
    RunsOffFacts(x, a, h, j, m);
    RunsOffDecodes(x, a, h, j, m, b);
    RunsOffInserted(x, a, h, j, m, r, b);
    SameAfter(x, a, h, j, m, Taken(h, j, b), Taken(h, j, Enc(r) + b));
  }

  ghost predicate Holds<V>(o: Nilable<map<bytes, V>>, k: bytes, v: V) {
    k in MapOf(o) && MapOf(o)[k] == v
  }

  lemma PutSame<V>(o: Nilable<map<bytes, V>>, k: bytes, k': bytes, v: V)
    ensures Put(o, k, v) == Put(o, k', v) <==> k == k' || (Holds(o, k, v) && Holds(o, k', v))
  {
    var p, q := MapOf(o)[k := v], MapOf(o)[k' := v];
    if p == q && k != k' {
      assert k in q && q[k] == v;
      assert k' in p && p[k'] == v;
    }
    if Holds(o, k, v) && Holds(o, k', v) {
      assert p == MapOf(o) && q == MapOf(o);
    }
  }

  lemma SameAfter<M(!new), V(!new)>(x: MapMessage<M, V>, a: bytes, h: Record, j: nat, m: M, k: bytes, k': bytes)
    requires RunsOff(x, a, h, j, m) && IsKey(h, j)
    ensures var o, v := x.get(Decode(x.schema, a, 0, m).value), SoFar(x, h, |a|, j).value.1;
            AfterEntry(x, a, h, j, m, k) == AfterEntry(x, a, h, j, m, k')
            <==> k == k' || (Holds(o, k, v) && Holds(o, k', v))
  {
    hide *;
    RunsOffFacts(x, a, h, j, m);
    var m' := Decode(x.schema, a, 0, m).value;
    var o, v := x.get(m'), SoFar(x, h, |a|, j).value.1;
    PutSame(o, k, k', v);
    KeyAfter(x, a, h, j, m, k);
    KeyAfter(x, a, h, j, m, k');
  }

  lemma KeyAfter<M(!new), V(!new)>(x: MapMessage<M, V>, a: bytes, h: Record, j: nat, m: M, k: bytes)
    requires RunsOff(x, a, h, j, m) && IsKey(h, j)
    ensures var m', v := Decode(x.schema, a, 0, m).value, SoFar(x, h, |a|, j).value.1;
            var n := x.upd(m', Put(x.get(m'), k, v));
            AfterEntry(x, a, h, j, m, k) == Ok(n) && x.get(n) == Put(x.get(m'), k, v)
  {
    hide Decode, WellFormed, SoFar, Stable, LocalAt, QuietAt, Enc, FieldNumber, Value, Put, OpenItem;
  }

  // ---- The three messages ----

  lemma HardInserted<Q(!new)>(qc: QuantityCodec<Q>, a: bytes, r: Record, b: bytes, m: Quantities<Q>)
    requires IsUnknown(HardSchema(qc), r) && |a + Enc(r) + b| <= MAX_INT && Decode(HardSchema(qc), a, 0, m).Ok?
    ensures var d, d' := Decode(HardSchema(qc), a + b, 0, m), Decode(HardSchema(qc), a + Enc(r) + b, 0, m);
            var m' := Decode(HardSchema(qc), a, 0, m).value;
            && (d == d' || (d == Err && d' == Panic))
            && (d != d' <==> exists i, j :: CrossesAt(HardMap(qc), b, |a|, |a + Enc(r)|, m', i, j))
  {
    HardIsMap(qc);
    assert HardMap(qc).schema == HardSchema(qc);
    hide *;
    Inserted(HardMap(qc), a, r, b, m);
  }

  lemma HardInsertedConfined<Q(!new)>(qc: QuantityCodec<Q>, rs: seq<Record>, r: Record, b: bytes, m: Quantities<Q>)
    requires WellFormedAll(rs) && ConfinedAll(HardMap(qc).field, rs) && IsUnknown(HardSchema(qc), r)
    requires |EncAll(rs) + Enc(r) + b| <= MAX_INT
    ensures var a := EncAll(rs);
            var d, d' := Decode(HardSchema(qc), a + b, 0, m), Decode(HardSchema(qc), a + Enc(r) + b, 0, m);
            var p := Decode(HardSchema(qc), a, 0, m);
            && (d == d' || (d == Err && d' == Panic))
            && (d != d' <==> p.Ok? && exists i, j :: CrossesAt(HardMap(qc), b, |a|, |a + Enc(r)|, p.value, i, j))
  {
    HardIsMap(qc);
    assert HardMap(qc).schema == HardSchema(qc);
    hide *;
    InsertedConfined(HardMap(qc), rs, r, b, m);
  }

  lemma SpecInserted<Q(!new)>(qc: QuantityCodec<Q>, a: bytes, r: Record, b: bytes, m: Spec<Q>)
    requires IsUnknown(SpecSchema(qc), r) && |a + Enc(r) + b| <= MAX_INT && Decode(SpecSchema(qc), a, 0, m).Ok?
    ensures var d, d' := Decode(SpecSchema(qc), a + b, 0, m), Decode(SpecSchema(qc), a + Enc(r) + b, 0, m);
            var m' := Decode(SpecSchema(qc), a, 0, m).value;
            && (d == d' || (d == Err && d' == Panic))
            && (d != d' <==> exists i, j :: CrossesAt(SpecMap(qc), b, |a|, |a + Enc(r)|, m', i, j))
  {
    SpecIsMap(qc);
    assert SpecMap(qc).schema == SpecSchema(qc);
    hide *;
    Inserted(SpecMap(qc), a, r, b, m);
  }

  lemma SpecInsertedConfined<Q(!new)>(qc: QuantityCodec<Q>, rs: seq<Record>, r: Record, b: bytes, m: Spec<Q>)
    requires WellFormedAll(rs) && ConfinedAll(SpecMap(qc).field, rs) && IsUnknown(SpecSchema(qc), r)
    requires |EncAll(rs) + Enc(r) + b| <= MAX_INT
    ensures var a := EncAll(rs);
            var d, d' := Decode(SpecSchema(qc), a + b, 0, m), Decode(SpecSchema(qc), a + Enc(r) + b, 0, m);
            var p := Decode(SpecSchema(qc), a, 0, m);
            && (d == d' || (d == Err && d' == Panic))
            && (d != d' <==> p.Ok? && exists i, j :: CrossesAt(SpecMap(qc), b, |a|, |a + Enc(r)|, p.value, i, j))
  {
    SpecIsMap(qc);
    assert SpecMap(qc).schema == SpecSchema(qc);
    hide *;
    InsertedConfined(SpecMap(qc), rs, r, b, m);
  }

  lemma StatusInserted<Q(!new)>(qc: QuantityCodec<Q>, a: bytes, r: Record, b: bytes, m: Status<Q>)
    requires IsUnknown(StatusSchema(qc), r) && |a + Enc(r) + b| <= MAX_INT && Decode(StatusSchema(qc), a, 0, m).Ok?
    ensures var d, d' := Decode(StatusSchema(qc), a + b, 0, m), Decode(StatusSchema(qc), a + Enc(r) + b, 0, m);
            var m' := Decode(StatusSchema(qc), a, 0, m).value;
            && (d == d' || (d == Err && d' == Panic))
            && (d != d' <==> exists i, j :: CrossesAt(StatusMap(qc), b, |a|, |a + Enc(r)|, m', i, j))
  {
    StatusIsMap(qc);
    assert StatusMap(qc).schema == StatusSchema(qc);
    hide *;
    Inserted(StatusMap(qc), a, r, b, m);
  }

  lemma StatusInsertedConfined<Q(!new)>(qc: QuantityCodec<Q>, rs: seq<Record>, r: Record, b: bytes, m: Status<Q>)
    requires WellFormedAll(rs) && ConfinedAll(StatusMap(qc).field, rs) && IsUnknown(StatusSchema(qc), r)
    requires |EncAll(rs) + Enc(r) + b| <= MAX_INT
    ensures var a := EncAll(rs);
            var d, d' := Decode(StatusSchema(qc), a + b, 0, m), Decode(StatusSchema(qc), a + Enc(r) + b, 0, m);
            var p := Decode(StatusSchema(qc), a, 0, m);
            && (d == d' || (d == Err && d' == Panic))
            && (d != d' <==> p.Ok? && exists i, j :: CrossesAt(StatusMap(qc), b, |a|, |a + Enc(r)|, p.value, i, j))
  {
    StatusIsMap(qc);
    assert StatusMap(qc).schema == StatusSchema(qc);
    hide *;
    InsertedConfined(StatusMap(qc), rs, r, b, m);
  }

  lemma HardUnnoticed<Q(!new)>(qc: QuantityCodec<Q>, rs: seq<Record>, r: Record, b: bytes, m: Quantities<Q>)
    requires WellFormedAll(rs) && ConfinedAll(HardMap(qc).field, rs) && IsUnknown(HardSchema(qc), r)
    requires |EncAll(rs) + Enc(r) + b| <= MAX_INT && EndsFit(b, |EncAll(rs) + Enc(r)|)
    ensures Decode(HardSchema(qc), EncAll(rs) + Enc(r) + b, 0, m) == Decode(HardSchema(qc), EncAll(rs) + b, 0, m)
  {
    HardIsMap(qc);
    assert HardMap(qc).schema == HardSchema(qc);
    hide *;
    Unnoticed(HardMap(qc), rs, r, b, m);
  }

  lemma SpecUnnoticed<Q(!new)>(qc: QuantityCodec<Q>, rs: seq<Record>, r: Record, b: bytes, m: Spec<Q>)
    requires WellFormedAll(rs) && ConfinedAll(SpecMap(qc).field, rs) && IsUnknown(SpecSchema(qc), r)
    requires |EncAll(rs) + Enc(r) + b| <= MAX_INT && EndsFit(b, |EncAll(rs) + Enc(r)|)
    ensures Decode(SpecSchema(qc), EncAll(rs) + Enc(r) + b, 0, m) == Decode(SpecSchema(qc), EncAll(rs) + b, 0, m)
  {
    SpecIsMap(qc);
    assert SpecMap(qc).schema == SpecSchema(qc);
    hide *;
    Unnoticed(SpecMap(qc), rs, r, b, m);
  }

  lemma StatusUnnoticed<Q(!new)>(qc: QuantityCodec<Q>, rs: seq<Record>, r: Record, b: bytes, m: Status<Q>)
    requires WellFormedAll(rs) && ConfinedAll(StatusMap(qc).field, rs) && IsUnknown(StatusSchema(qc), r)
    requires |EncAll(rs) + Enc(r) + b| <= MAX_INT && EndsFit(b, |EncAll(rs) + Enc(r)|)
    ensures Decode(StatusSchema(qc), EncAll(rs) + Enc(r) + b, 0, m) == Decode(StatusSchema(qc), EncAll(rs) + b, 0, m)
  {
    StatusIsMap(qc);
    assert StatusMap(qc).schema == StatusSchema(qc);
    hide *;
    Unnoticed(StatusMap(qc), rs, r, b, m);
  }

  // What the encoder writes for an entry ends where it says.
  lemma WrittenConfined(k: bytes, e: bytes)
    requires |EntryBytes(k, e)| <= MAX_INT
    ensures Confined(EntryBytes(k, e), 0)
  {
    hide *;
    var none: bytes := [];
    EntryStands(k, e, none);
    assert EntryBytes(k, e) + none == EntryBytes(k, e);
    var c, n := EntryBytes(k, e), |Enc(Str(0x0a, k))|;
    ConfinedEnd(c);
    ConfinedField(c, n, |c|, 0x12, e);
    ConfinedField(c, 0, n, 0x0a, k);
  }

  lemma ConfinedEnd(c: bytes)
    requires |c| <= MAX_INT
    ensures Confined(c, |c|)
  {
  }

  // A key or value before a confined rest.
  lemma ConfinedField(c: bytes, j: nat, e: nat, tag: byte, s: bytes)
    requires |c| <= MAX_INT && (tag == 0x0a || tag == 0x12) && FieldStands(c, j, e, tag, s) && Confined(c, e)
    ensures Confined(c, j)
  {
    TagValue(tag);
    BoundsLength(c, j + 1);
    assert Complete(c[j..]);
    hide ReadVarint, FieldNumber, LengthAt, BoundsAt, Skip, Complete;
  }

  lemma BoundsLength(c: bytes, i: nat)
    requires i <= |c| && BoundsAt(c, i).Some?
    ensures LengthAt(c, i) == BoundsAt(c, i) && Complete(c[i..])
  {
    hide ReadVarint;
  }
}
