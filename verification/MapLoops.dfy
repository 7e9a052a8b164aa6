// The loops over map fields that the generated methods share.
module MapLoops {
  import opened Bits
  import opened Wrappers
  import opened Varint
  import opened Wire
  import opened Decoder
  import opened Fields
  import opened Keys
  import opened Reading
  import opened MapField

  // ---- Sizing: any order of the keys gives the same sum ----

  ghost function EntriesSize<V>(tag: byte, ks: seq<bytes>, m: map<bytes, V>, enc: V -> bytes): nat
  {
    if !(Elements(ks) <= m.Keys) then 0 else |EncAll(Entries(tag, ks, m, enc))|
  }

  lemma EntriesSplit<V>(tag: byte, a: seq<bytes>, b: seq<bytes>, m: map<bytes, V>, enc: V -> bytes)
    requires Elements(a) <= m.Keys && Elements(b) <= m.Keys
    ensures Elements(a + b) <= m.Keys
    ensures EncAll(Entries(tag, a + b, m, enc)) == EncAll(Entries(tag, a, m, enc)) + EncAll(Entries(tag, b, m, enc))
  {
    assert forall k :: k in a + b ==> k in Elements(a) || k in Elements(b);
    assert Entries(tag, a + b, m, enc) == Entries(tag, a, m, enc) + Entries(tag, b, m, enc);
    EncAllAppend(Entries(tag, a, m, enc), Entries(tag, b, m, enc));
  }

  lemma {:induction false} SizeAnyOrder<V>(tag: byte, ks: seq<bytes>, ls: seq<bytes>, m: map<bytes, V>, enc: V -> bytes)
    requires Elements(ks) <= m.Keys && Elements(ls) <= m.Keys
    requires Distinct(ks) && Distinct(ls) && Elements(ks) == Elements(ls)
    ensures EntriesSize(tag, ks, m, enc) == EntriesSize(tag, ls, m, enc)
  {
    if ks == [] {
      ElementsEmpty(ks);
      ElementsEmpty(ls);
    } else {
      var k := ks[0];
      assert k in Elements(ls);
      var i :| 0 <= i < |ls| && ls[i] == k;
      var a, b, t := ls[..i], ls[i + 1..], ks[1..];
      WithoutKey(ks, 0);
      WithoutKey(ls, i);
      assert ks[..0] + t == t;
      assert ls == a + ([k] + b) && ks == [k] + t;
      assert Elements([k]) <= m.Keys;
      EntriesSplit(tag, [k], t, m, enc);
      EntriesSplit(tag, [k], b, m, enc);
      EntriesSplit(tag, a, [k] + b, m, enc);
      EntriesSplit(tag, a, b, m, enc);
      hide EncAll, Entries;
      SizeAnyOrder(tag, t, a + b, m, enc);
    }
  }

  lemma WithoutKey(ks: seq<bytes>, i: nat)
    requires i < |ks| && Distinct(ks)
    ensures Distinct(ks[..i] + ks[i + 1..])
    ensures Elements(ks[..i] + ks[i + 1..]) == Elements(ks) - {ks[i]}
    ensures Elements(ks[..i]) <= Elements(ks) && Elements(ks[i + 1..]) <= Elements(ks)
  {
    var r := ks[..i] + ks[i + 1..];
    forall x | x in ks && x != ks[i]
      ensures x in r
    {
      var j :| 0 <= j < |ks| && ks[j] == x;
      if j < i {
        assert r[j] == x;
      } else {
        assert r[j - 1] == x;
      }
    }
  }

  lemma AscendingDistinct(ks: seq<bytes>)
    requires Ascending(ks)
    ensures Distinct(ks)
  {
  }

  // One entry more in the sum.
  lemma EntriesGrow<V>(tag: byte, ks: seq<bytes>, k: bytes, m: map<bytes, V>, enc: V -> bytes)
    requires Elements(ks) <= m.Keys && k in m && k !in ks && Distinct(ks)
    requires EntriesSize(tag, KeyOrder(m.Keys), m, enc) <= MAX_INT
    ensures Elements(ks + [k]) == Elements(ks) + {k} && Distinct(ks + [k])
    ensures EntriesSize(tag, ks + [k], m, enc)
            == EntriesSize(tag, ks, m, enc) + |Enc(Str(tag, EntryBytes(k, enc(m[k]))))|
    ensures |EntryBytes(k, enc(m[k]))| <= MAX_INT
    ensures |k| <= MAX_INT && |enc(m[k])| <= MAX_INT
  {
    assert Elements([k]) == {k};
    assert forall x :: x in ks + [k] <==> x in ks || x == k;
    EntriesSplit(tag, ks, [k], m, enc);
    assert Entries(tag, [k], m, enc) == [Str(tag, EntryBytes(k, enc(m[k])))];
    EncAllOne(Str(tag, EntryBytes(k, enc(m[k]))));
    var o := KeyOrder(m.Keys);
    assert k in o by { assert k in Elements(o); }
    var i :| 0 <= i < |o| && o[i] == k;
    EncAllAt(Entries(tag, o, m, enc), i);
    EncStr(tag, EntryBytes(k, enc(m[k])));
    EncStr(0x0a, k);
    EncStr(0x12, enc(m[k]));
  }

  // The keys visited so far and those still to visit.
  ghost predicate Visited(ks: seq<bytes>, rest: set<bytes>, keys: set<bytes>) {
    rest <= keys && Elements(ks) == keys - rest && Distinct(ks)
  }

  lemma VisitStarts(keys: set<bytes>)
    ensures Visited([], keys, keys)
  {
  }

  // One more key visited: the sum grows by the size of its entry.
  lemma Visit<V>(tag: byte, ks: seq<bytes>, rest: set<bytes>, k: bytes, m: map<bytes, V>, enc: V -> bytes)
    requires Visited(ks, rest, m.Keys) && k in rest
    requires |EncAll(MapRecords(tag, m, enc))| <= MAX_INT
    ensures k in m && Visited(ks + [k], rest - {k}, m.Keys)
    ensures |EntryBytes(k, enc(m[k]))| <= MAX_INT
    ensures EntriesSize(tag, ks + [k], m, enc)
            == EntriesSize(tag, ks, m, enc) + |Enc(Str(tag, EntryBytes(k, enc(m[k]))))|
  {
    assert k !in ks by { assert k !in Elements(ks); }
    assert EntriesSize(tag, KeyOrder(m.Keys), m, enc) == |EncAll(MapRecords(tag, m, enc))|;
    hide EntriesSize, KeyOrder, MapRecords, EncAll, EntryBytes, Enc, Str;
    EntriesGrow(tag, ks, k, m, enc);
  }

  lemma VisitEnds<V>(tag: byte, ks: seq<bytes>, m: map<bytes, V>, enc: V -> bytes)
    requires Visited(ks, {}, m.Keys)
    ensures EntriesSize(tag, ks, m, enc) == |EncAll(MapRecords(tag, m, enc))|
  {
    AscendingDistinct(KeyOrder(m.Keys));
    SizeAnyOrder(tag, ks, KeyOrder(m.Keys), m, enc);
  }

  lemma EntriesNone<V>(tag: byte, m: map<bytes, V>, enc: V -> bytes)
    ensures EntriesSize(tag, [], m, enc) == 0
  {
  }

  // What one entry adds to the size: mapEntrySize and its own header.
  method SizeEntry(ghost tag: byte, k: bytes, l: nat, ghost e: bytes) returns (n: nat)
    requires l == |e| && |EntryBytes(k, e)| <= MAX_INT
    ensures n == |Enc(Str(tag, EntryBytes(k, e)))|
  {
    EncStr(0x0a, k);
    EncStr(0x12, e);
    StrSize(0x0a, k);
    StrSize(0x12, e);
    StrSize(tag, EntryBytes(k, e));
    hide Sov, Enc, Str;
    var mapEntrySize := 1 + |k| + Sov(|k|) + 1 + l + Sov(l);
    n := mapEntrySize + 1 + Sov(mapEntrySize);
  }

  lemma KeyInMap<V>(ks: seq<bytes>, m: map<bytes, V>, i: nat)
    requires i < |ks| && Elements(ks) <= m.Keys
    ensures ks[i] in m
  {
    assert ks[i] in Elements(ks);
  }

  // Room for entry i below the entries after it.
  lemma EntriesRoom<V>(tag: byte, ks: seq<bytes>, m: map<bytes, V>, enc: V -> bytes, i: nat)
    requires i < |ks| && Elements(ks) <= m.Keys && ks[i] in m
    ensures var rs, e := Entries(tag, ks, m, enc), EntryBytes(ks[i], enc(m[ks[i]]));
            && EncAll(rs[i..]) == Enc(Str(tag, e)) + EncAll(rs[i + 1..])
            && |EncAll(rs[i..])| <= |EncAll(rs)|
            && |enc(m[ks[i]])| <= |Enc(Str(tag, e))|
  {
    var rs, e := Entries(tag, ks, m, enc), EntryBytes(ks[i], enc(m[ks[i]]));
    assert rs[i..][0] == rs[i] && rs[i..][1..] == rs[i + 1..];
    assert rs == rs[..i] + rs[i..];
    EncAllAppend(rs[..i], rs[i..]);
    EncStr(tag, e);
    EncStr(0x12, enc(m[ks[i]]));
  }

  // ---- Writing an entry around a value already written ----

  method PutEntryHead(dAtA: array<byte>, i: nat, baseI: nat, tag: byte, key: bytes,
                      ghost y: bytes, ghost a: bytes, ghost end: nat, ghost x: bytes) returns (j: nat)
    requires Written(a, dAtA[..], i, end, y + x) && baseI == i + |y|
    requires dAtA.Length <= MAX_INT && |Enc(Str(tag, EntryBytes(key, y)))| + |x| <= end
    modifies dAtA
    ensures Written(a, dAtA[..], j, end, Enc(Str(tag, EntryBytes(key, y))) + x)
  {
    EntryRoom(tag, key, y);
    WrittenRoom(a, dAtA[..], i, end, y + x);
    hide *;
    FieldOnTop(0x12, y, x);
    EntryOnTop(key, y, x);
    FieldOnTop(tag, EntryBytes(key, y), x);
    j := PutHeader(dAtA, i, 0x12, baseI - i, a, end, y + x);
    WrittenRoom(a, dAtA[..], j, end, Enc(Str(0x12, y)) + x);
    j := PutBytes(dAtA, j, 0x0a, key, a, end, Enc(Str(0x12, y)) + x);
    WrittenRoom(a, dAtA[..], j, end, EntryBytes(key, y) + x);
    j := PutHeader(dAtA, j, tag, baseI - j, a, end, EntryBytes(key, y) + x);
  }

  // The lengths of an entry and its parts.
  lemma EntryRoom(tag: byte, k: bytes, y: bytes)
    requires |Enc(Str(tag, EntryBytes(k, y)))| <= MAX_INT
    ensures |k| <= MAX_INT && |y| <= MAX_INT && |EntryBytes(k, y)| <= MAX_INT
    ensures |Enc(Str(0x12, y))| == 1 + Sov(|y|) + |y|
    ensures |EntryBytes(k, y)| == |Enc(Str(0x0a, k))| + |Enc(Str(0x12, y))|
    ensures |Enc(Str(tag, EntryBytes(k, y)))| == 1 + Sov(|EntryBytes(k, y)|) + |EntryBytes(k, y)|
  {
    EncStr(0x12, y);
    EncStr(0x0a, k);
    EncStr(tag, EntryBytes(k, y));
    StrSize(0x12, y);
    StrSize(tag, EntryBytes(k, y));
  }

  // A header put in front of contents makes the field.
  lemma FieldOnTop(tag: byte, y: bytes, x: bytes)
    ensures [tag] + EncVarint(|y|) + (y + x) == Enc(Str(tag, y)) + x
  {
    EncStr(tag, y);
    hide *;
    Assoc([tag] + EncVarint(|y|), y, x);
  }

  lemma EntryOnTop(k: bytes, y: bytes, x: bytes)
    ensures Enc(Str(0x0a, k)) + (Enc(Str(0x12, y)) + x) == EntryBytes(k, y) + x
  {
    hide Enc, Str;
    Assoc(Enc(Str(0x0a, k)), Enc(Str(0x12, y)), x);
  }

  // ---- Reading: one turn of the entry loop ----

  datatype TurnResult = KeyRead(k: bytes) | ValueRead(v: bytes) | Skipped | Bad | OutOfRange

  // The turn that belongs to an item, the entry starting at index pos.
  predicate TurnIs(item: Item, pos: nat, t: TurnResult, next: int) {
    match item
    case KeyItem(k, e) => t == KeyRead(k) && next == pos + e
    case ValueItem(v, e) => t == ValueRead(v) && next == pos + e
    case Other(e) => t == Skipped && next == pos + e
    case Broken => t == Bad
    case Overrun => t == Skipped && next < 0
  }

  // data[pos..postIndex] is the entry, i the index of the turn.  An index that
  // wrapped to a negative value is met at the first read.
  method NextItem(data: bytes, pos: nat, postIndex: nat, i: int) returns (t: TurnResult, next: int)
    requires pos <= postIndex <= |data| <= MAX_INT && i < postIndex && (i < 0 || pos <= i)
    ensures i < 0 ==> t == OutOfRange
    ensures i >= 0 ==> TurnIs(ItemAt(data[pos..], postIndex - pos, pos, i - pos), pos, t, next)
  {
    ReadAtCases(data, i);
    hide *;
    var wire, e := ReadUint64(data, i);
    if wire.Panic? {
      return OutOfRange, i;
    }
    if wire.Err? {
      TurnBad(data, pos, postIndex, i);
      return Bad, i;
    }
    TagParts(wire.value);
    var fieldNum := ToInt32(Shr(wire.value, 3) % TWO32);
    if fieldNum == 1 || fieldNum == 2 {
      TurnPayload(data, pos, postIndex, i, wire.value, e - i);
      var bounds := ReadBounds(data, e);
      if bounds.None? {
        return Bad, i;
      }
      var payload := data[bounds.value.0..bounds.value.1];
      return if fieldNum == 1 then KeyRead(payload) else ValueRead(payload), bounds.value.1;
    }
    var skipped := SkipInEntry(data, postIndex, i);
    TurnSkip(data, pos, postIndex, i, wire.value, e - i, skipped);
    if skipped.None? {
      return Bad, i;
    }
    return Skipped, skipped.value;
  }

  // The else branch of the entry loop: skip a record, with the comparison
  // iNdEx+skippy > postIndex on the wrapped sum.
  method SkipInEntry(data: bytes, postIndex: nat, i: nat) returns (r: Option<int>)
    requires i < postIndex <= |data| <= MAX_INT
    ensures SkipsTo(Skip(data[i..]), i, postIndex, r)
  {
    SkipSums(data[i..], i, postIndex);
    hide *;
    var skippy := SkipGenerated(data[i..]);
    if !skippy.Ok? || skippy.value < 0 {
      return None;
    }
    if Wrap64(i + skippy.value) > postIndex {
      return None;
    }
    return Some(Wrap64(i + skippy.value));
  }

  lemma ReadAtCases(data: bytes, i: int)
    ensures ReadVarintAt(data, i).Panic? <==> i < 0
    ensures ReadVarintAt(data, i).Ok? ==> i + ReadVarintAt(data, i).value.1 <= |data|
  {
    hide ReadVarint;
  }

  // The next index r of the skip, s being what skipGenerated returned: none for
  // an error return, negative when the sum wrapped.
  predicate SkipsTo(s: Result<int>, i: nat, postIndex: nat, r: Option<int>) {
    match s
    case Ok(x) =>
      if x < 0 then r == None
      else if i + x > MAX_INT then r.Some? && r.value < 0
      else if i + x > postIndex then r == None
      else r == Some(i + x)
    case _ => r == None
  }

  lemma SkipSums(s: bytes, i: nat, postIndex: nat)
    requires 0 < |s| && i + |s| <= MAX_INT
    ensures !Skip(s).Ok? || Skip(s).value < 0 ==> SkipsTo(Skip(s), i, postIndex, None)
    ensures Skip(s).Ok? && Skip(s).value >= 0 ==>
              var sum := Wrap64(i + Skip(s).value);
              SkipsTo(Skip(s), i, postIndex, if sum > postIndex then None else Some(sum))
  {
    hide Skip;
  }

  // The turns of NextItem, case by case.
  lemma TurnBad(data: bytes, pos: nat, postIndex: nat, i: nat)
    requires pos <= i < postIndex <= |data| <= MAX_INT && ReadVarintAt(data, i).Err?
    ensures TurnIs(ItemAt(data[pos..], postIndex - pos, pos, i - pos), pos, Bad, i)
  {
    assert data[pos..][i - pos..] == data[i..];
    hide ReadVarint, Skip, FieldNumber, BoundsAt;
  }

  lemma TurnPayload(data: bytes, pos: nat, postIndex: nat, i: nat, w: uint64, k: nat)
    requires pos <= i < postIndex <= |data| <= MAX_INT && ReadVarintAt(data, i) == Ok((w, k))
    requires FieldNumber(w) == 1 || FieldNumber(w) == 2
    ensures i + k <= |data|
    ensures var item := ItemAt(data[pos..], postIndex - pos, pos, i - pos);
            match BoundsAt(data, i + k)
            case None => TurnIs(item, pos, Bad, i)
            case Some((s, e)) =>
              TurnIs(item, pos, if FieldNumber(w) == 1 then KeyRead(data[s..e]) else ValueRead(data[s..e]), e)
  {
    hide *;
    var rest, j := data[pos..], i - pos;
    assert rest[j..] == data[i..];
    ReadAtIs(data, i, w, k);
    ItemOfPayload(rest, postIndex - pos, pos, j, w, k);
    BoundsShift(data, pos, i + k);
    PayloadTurns(pos, i);
  }

  lemma ReadAtIs(data: bytes, i: nat, w: uint64, k: nat)
    requires ReadVarintAt(data, i) == Ok((w, k))
    ensures i + k <= |data| && ReadVarint(data[i..]) == Some((w, k))
  {
    hide ReadVarint;
  }

  lemma PayloadTurns(pos: nat, i: int)
    ensures TurnIs(Broken, pos, Bad, i)
    ensures forall q, e :: TurnIs(KeyItem(q, e), pos, KeyRead(q), pos + e)
    ensures forall q, e :: TurnIs(ValueItem(q, e), pos, ValueRead(q), pos + e)
  {
  }

  lemma BoundsShift(data: bytes, pos: nat, i: nat)
    requires pos <= i <= |data|
    ensures match BoundsAt(data, i)
            case None => BoundsAt(data[pos..], i - pos) == None
            case Some((s, e)) =>
              pos <= s && BoundsAt(data[pos..], i - pos) == Some((s - pos, e - pos))
              && data[pos..][s - pos..e - pos] == data[s..e]
  {
    assert data[pos..][i - pos..] == data[i..];
    hide PayloadBounds;
  }

  lemma TurnSkip(data: bytes, pos: nat, postIndex: nat, i: nat, w: uint64, k: nat, r: Option<int>)
    requires pos <= i < postIndex <= |data| <= MAX_INT && ReadVarintAt(data, i) == Ok((w, k))
    requires FieldNumber(w) != 1 && FieldNumber(w) != 2 && SkipsTo(Skip(data[i..]), i, postIndex, r)
    ensures var item := ItemAt(data[pos..], postIndex - pos, pos, i - pos);
            if r.None? then TurnIs(item, pos, Bad, i) else TurnIs(item, pos, Skipped, r.value)
  {
    assert data[pos..][i - pos..] == data[i..];
    hide ReadVarint, FieldNumber, Skip, ItemAt;
    ItemOfSkip(data[pos..], postIndex - pos, pos, i - pos);
  }

  // ---- Reading: the state of the entry loop ----

  // The outcome of reading the entry data[start..postIndex].
  function EntryOutcome<V>(dec: bytes -> Result<V>, zero: V, data: bytes, start: nat, postIndex: nat)
    : Result<(bytes, V)>
    requires start <= postIndex <= |data|
  {
    DecodeEntry(dec, zero, start, data[start..postIndex], data[postIndex..])
  }

  // The loop is at index i with this key and value, and the rest of the loop
  // decides the outcome; a negative index means a panic is next.
  ghost predicate EntryAt<V>(dec: bytes -> Result<V>, zero: V, data: bytes, start: nat, postIndex: nat,
                             i: int, key: bytes, val: V)
    requires start <= postIndex <= |data| <= MAX_INT
  {
    && (i < 0 || start <= i <= |data|)
    && EntryOutcome(dec, zero, data, start, postIndex)
       == if i < 0 then Panic else EntryFrom(dec, data[start..], postIndex - start, start, i - start, key, val)
  }

  lemma EntryStarts<V>(dec: bytes -> Result<V>, zero: V, data: bytes, start: nat, postIndex: nat)
    requires start <= postIndex <= |data| <= MAX_INT
    ensures EntryAt(dec, zero, data, start, postIndex, start, [], zero)
  {
    hide EntryFrom;
    assert data[start..postIndex] + data[postIndex..] == data[start..];
  }

  lemma EntryEnds<V>(dec: bytes -> Result<V>, zero: V, data: bytes, start: nat, postIndex: nat, i: int, key: bytes,
      val: V)
    requires start <= postIndex <= |data| <= MAX_INT && EntryAt(dec, zero, data, start, postIndex, i, key, val)
    ensures i < 0 ==> EntryOutcome(dec, zero, data, start, postIndex) == Panic
    ensures i >= postIndex ==> EntryOutcome(dec, zero, data, start, postIndex) == Ok((key, val))
  {
    hide EntryOutcome;
  }

  lemma EntryMoves<V>(dec: bytes -> Result<V>, zero: V, data: bytes, start: nat, postIndex: nat, i: nat, key: bytes,
      val: V)
    requires start <= postIndex <= |data| <= MAX_INT && EntryAt(dec, zero, data, start, postIndex, i, key, val)
    requires start <= i < postIndex
    ensures var r := EntryOutcome(dec, zero, data, start, postIndex);
            match ItemAt(data[start..], postIndex - start, start, i - start)
            case KeyItem(k, e) => i < start + e && EntryAt(dec, zero, data, start, postIndex, start + e, k, val)
            case ValueItem(c, e) =>
              && i < start + e
              && (dec(c).Err? ==> r == Err)
              && (dec(c).Panic? ==> r == Panic)
              && (dec(c).Ok? ==> EntryAt(dec, zero, data, start, postIndex, start + e, key, dec(c).value))
            case Other(e) => i < start + e && EntryAt(dec, zero, data, start, postIndex, start + e, key, val)
            case Broken => r == Err
            case Overrun => r == Panic && forall x :: x < 0 ==> EntryAt(dec, zero, data, start, postIndex, x, key, val)
  {
    hide EntryOutcome, ItemAt, EntryFrom;
    EntryTurn(dec, data[start..], postIndex - start, start, i - start, key, val);
  }
}
