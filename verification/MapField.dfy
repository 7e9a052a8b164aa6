// Map fields: entries are nested messages with a key field 1 and a value
// field 2, written in key order and read in any order.
module MapField {
  import opened Bits
  import opened Wrappers
  import opened Varint
  import opened Wire
  import opened Decoder
  import opened Fields
  import opened Keys
  import opened Reading

  // ---- Writing ----

  function EntryBytes(k: bytes, v: bytes): bytes {
    Enc(Str(0x0a, k)) + Enc(Str(0x12, v))
  }

  // The entries of m for the keys ks, in that order.
  function Entries<V>(tag: byte, ks: seq<bytes>, m: map<bytes, V>, enc: V -> bytes): seq<Record>
    requires Elements(ks) <= m.Keys
  {
    seq(|ks|, i requires 0 <= i < |ks| =>
      assert ks[i] in Elements(ks);
      Str(tag, EntryBytes(ks[i], enc(m[ks[i]]))))
  }

  // What the encoder writes: a function of the map's value alone.
  ghost function MapRecords<V>(tag: byte, m: map<bytes, V>, enc: V -> bytes): seq<Record> {
    Entries(tag, KeyOrder(m.Keys), m, enc)
  }

  function MapOf<V>(m: Nilable<map<bytes, V>>): map<bytes, V> {
    if m.Nil? then map[] else m.made
  }

  // Storing under a key, in a new map if there is none.
  function Put<V>(m: Nilable<map<bytes, V>>, k: bytes, v: V): Nilable<map<bytes, V>> {
    Made(MapOf(m)[k := v])
  }

  // ---- Reading ----

  // What the entry loop finds at offset j of rest, with the offset after it.
  datatype Item =
    | KeyItem(k: bytes, next: nat)
    | ValueItem(v: bytes, next: nat)
    | Other(next: nat)
    | Broken
    | Overrun

  // rest is the message's slice from the first byte of the entry on, the entry
  // being its first n bytes and pos its index in the slice.  Key and value
  // lengths are checked against the end of the slice, not of the entry.  The
  // end of an unknown record is added to the index without a test for
  // overflow: a sum past MAX_INT is a negative index, which passes the
  // comparison with the end of the entry and is out of range at the next read.
  function ItemAt(rest: bytes, n: nat, pos: nat, j: nat): (r: Item)
    requires j < n <= |rest| && pos + |rest| <= MAX_INT
    ensures r.KeyItem? || r.ValueItem? || r.Other? ==> j < r.next <= |rest|
  {
    match ReadVarint(rest[j..])
    case None => Broken
    case Some((w, k)) =>
      if FieldNumber(w) == 1 || FieldNumber(w) == 2 then
        match BoundsAt(rest, j + k)
        case None => Broken
        case Some((s, e)) => if FieldNumber(w) == 1 then KeyItem(rest[s..e], e) else ValueItem(rest[s..e], e)
      else
        match Skip(rest[j..])
        case Ok(x) =>
          if x < 0 then Broken
          else if pos + j + x > MAX_INT then Overrun
          else if j + x > n then Broken
          else Other(j + x)
        case _ => Broken
  }

  // One turn of the entry loop: the next offset, key and value.
  function EntryStep<V>(dec: bytes -> Result<V>, rest: bytes, n: nat, pos: nat, j: nat, key: bytes, val: V)
    : (r: Result<(nat, bytes, V)>)
    requires j < n <= |rest| && pos + |rest| <= MAX_INT
    ensures r.Ok? ==> j < r.value.0 <= |rest|
  {
    match ItemAt(rest, n, pos, j)
    case KeyItem(k, e) => Ok((e, k, val))
    case ValueItem(c, e) =>
      (match dec(c)
       case Ok(v) => Ok((e, key, v))
       case Err => Err
       case Panic => Panic)
    case Other(e) => Ok((e, key, val))
    case Broken => Err
    case Overrun => Panic
  }

  // The entry loop.
  function EntryFrom<V>(dec: bytes -> Result<V>, rest: bytes, n: nat, pos: nat, j: nat, key: bytes, val: V)
    : Result<(bytes, V)>
    requires n <= |rest| && j <= |rest| && pos + |rest| <= MAX_INT
    decreases |rest| - j
  {
    if j >= n then Ok((key, val)) else
    match EntryStep(dec, rest, n, pos, j, key, val)
    case Ok((j', key', val')) => EntryFrom(dec, rest, n, pos, j', key', val')
    case Err => Err
    case Panic => Panic
  }

  function DecodeEntry<V>(dec: bytes -> Result<V>, zero: V, pos: nat, c: bytes, a: bytes): Result<(bytes, V)> {
    if pos + |c| + |a| > MAX_INT then Err else EntryFrom(dec, c + a, |c|, pos, 0, [], zero)
  }

  // ---- Entries are stable ----

  lemma BoundsExtend(rest: bytes, i: nat, t: bytes)
    requires i <= |rest| && BoundsAt(rest, i).Some?
    ensures BoundsAt(rest + t, i) == BoundsAt(rest, i)
    ensures var (s, e) := BoundsAt(rest, i).value; (rest + t)[s..e] == rest[s..e]
  {
    assert (rest + t)[i..] == rest[i..] + t;
    hide PayloadBounds;
    PayloadExtends(rest[i..], t);
  }

  // What is found does not depend on what follows, nor on the entry's length
  // beyond it, nor on its position.
  lemma ItemExtends(rest: bytes, n: nat, pos: nat, j: nat, t: bytes, n': nat, pos': nat)
    requires j < n <= |rest| && pos + |rest| <= MAX_INT && n <= n' <= |rest + t| && pos' + |rest + t| <= MAX_INT
    requires var r := ItemAt(rest, n, pos, j); r.KeyItem? || r.ValueItem? || r.Other?
    ensures ItemAt(rest + t, n', pos', j) == ItemAt(rest, n, pos, j)
  {
    hide ReadVarint, BoundsAt, Skip, FieldNumber;
    var (w, k) := ReadVarint(rest[j..]).value;
    assert (rest + t)[j..] == rest[j..] + t;
    ReadVarintExtends(rest[j..], t);
    if FieldNumber(w) == 1 || FieldNumber(w) == 2 {
      BoundsExtend(rest, j + k, t);
    } else {
      SkipExtends(rest[j..], t);
    }
  }

  lemma EntryStepExtends<V>(dec: bytes -> Result<V>, rest: bytes, n: nat, pos: nat, j: nat, key: bytes, val: V,
                            t: bytes, n': nat, pos': nat)
    requires j < n <= |rest| && pos + |rest| <= MAX_INT && n <= n' <= |rest + t| && pos' + |rest + t| <= MAX_INT
    requires EntryStep(dec, rest, n, pos, j, key, val).Ok?
    ensures EntryStep(dec, rest + t, n', pos', j, key, val) == EntryStep(dec, rest, n, pos, j, key, val)
  {
    hide ItemAt;
    ItemExtends(rest, n, pos, j, t, n', pos');
  }

  lemma {:induction false} EntryExtends<V>(dec: bytes -> Result<V>, rest: bytes, n: nat, pos: nat, j: nat,
                                          key: bytes, val: V, t: bytes, pos': nat)
    requires n <= |rest| && j <= |rest| && pos + |rest| <= MAX_INT && pos' + |rest + t| <= MAX_INT
    requires EntryFrom(dec, rest, n, pos, j, key, val).Ok?
    ensures EntryFrom(dec, rest + t, n, pos', j, key, val) == EntryFrom(dec, rest, n, pos, j, key, val)
    decreases |rest| - j
  {
    hide EntryStep;
    if j < n {
      EntryStepExtends(dec, rest, n, pos, j, key, val, t, n, pos');
      var (j', key', val') := EntryStep(dec, rest, n, pos, j, key, val).value;
      EntryExtends(dec, rest, n, pos, j', key', val', t, pos');
    }
  }

  lemma DecodeEntryStable<V>(dec: bytes -> Result<V>, zero: V, pos: nat, c: bytes, a: bytes, pos': nat, t: bytes)
    requires DecodeEntry(dec, zero, pos, c, a).Ok? && pos' + |c| + |a| + |t| <= MAX_INT
    ensures DecodeEntry(dec, zero, pos', c, a + t) == DecodeEntry(dec, zero, pos, c, a)
  {
    Assoc(c, a, t);
    EntryExtends(dec, c + a, |c|, pos, 0, [], zero, t, pos');
  }

  // A string field of a short length, with contents s, stands at indices i to e.
  predicate FieldStands(rest: bytes, i: nat, e: nat, tag: byte, s: bytes) {
    && i < e <= |rest| && |s| <= e
    && ReadVarint(rest[i..]) == Some((tag, 1))
    && BoundsAt(rest, i + 1) == Some((e - |s|, e))
    && rest[e - |s|..e] == s
  }

  // A string field as the encoder writes it, inside a longer slice.
  lemma StrAt(a: bytes, tag: byte, s: bytes, b: bytes)
    requires tag < 128 && |s| <= MAX_INT
    ensures FieldStands(a + Enc(Str(tag, s)) + b, |a|, |a + Enc(Str(tag, s))|, tag, s)
  {
    StrPlace(a, tag, s, b);
    EncStr(tag, s);
    hide ReadVarint, BoundsAt, EncVarint, Enc, Str;
  }

  lemma StrPlace(a: bytes, tag: byte, s: bytes, b: bytes)
    requires tag < 128 && |s| <= MAX_INT
    ensures var rest, i := a + Enc(Str(tag, s)) + b, |a|;
            && ReadVarint(rest[i..]) == Some((tag, 1))
            && BoundsAt(rest, i + 1) == Some((i + |Enc(Str(tag, s))| - |s|, i + |Enc(Str(tag, s))|))
            && rest[i + |Enc(Str(tag, s))| - |s|..i + |Enc(Str(tag, s))|] == s
  {
    hide *;
    EncStr(tag, s);
    StrSlices(a, tag, EncVarint(|s|), s, b);
    LengthPrefix(tag, |s|);
    TagRead(tag, EncVarint(|s|) + s + b);
    PayloadExact(EncVarint(|s|), s, b);
    BoundsIs(a + Enc(Str(tag, s)) + b, |a| + 1, |EncVarint(|s|)|, |EncVarint(|s|)| + |s|);
  }

  lemma TagRead(tag: byte, t: bytes)
    requires tag < 128
    ensures ReadVarint([tag] + t) == Some((tag, 1))
  {
    LengthPrefix(tag, 0);
    hide *;
    ReadVarintExact([tag], t);
  }

  lemma LengthPrefix(tag: byte, n: nat)
    requires tag < 128 && n <= MAX_INT
    ensures IsVarint([tag]) && Raw([tag]) % TWO64 == tag
    ensures IsVarint(EncVarint(n)) && Value(EncVarint(n)) == n
  {
    TagValue(tag);
    VarintInverse(n, []);
  }

  lemma StrSlices(a: bytes, tag: byte, l: bytes, s: bytes, b: bytes)
    ensures var rest, i := a + ([tag] + l + s) + b, |a|;
            && rest[i..] == [tag] + (l + s + b)
            && rest[i + 1..] == l + s + b
            && rest[i + 1 + |l|..i + 1 + |l| + |s|] == s
  {
  }

  lemma BoundsIs(rest: bytes, i: nat, k: nat, e: nat)
    requires i <= |rest| && PayloadBounds(rest[i..]) == Some((k, e))
    ensures BoundsAt(rest, i) == Some((i + k, i + e))
  {
  }

  lemma EntryTurn<V>(dec: bytes -> Result<V>, rest: bytes, n: nat, pos: nat, j: nat, key: bytes, val: V)
    requires n <= |rest| && j <= |rest| && pos + |rest| <= MAX_INT
    ensures j >= n ==> EntryFrom(dec, rest, n, pos, j, key, val) == Ok((key, val))
    ensures j < n ==> EntryFrom(dec, rest, n, pos, j, key, val) ==
                      (match EntryStep(dec, rest, n, pos, j, key, val)
                       case Ok((j', key', val')) => EntryFrom(dec, rest, n, pos, j', key', val')
                       case Err => Err
                       case Panic => Panic)
  {
    hide EntryStep;
  }

  // What the loop finds where the tag of a key or value is read.
  lemma ItemOfPayload(rest: bytes, n: nat, pos: nat, j: nat, w: uint64, k: nat)
    requires j < n <= |rest| && pos + |rest| <= MAX_INT
    requires ReadVarint(rest[j..]) == Some((w, k)) && (FieldNumber(w) == 1 || FieldNumber(w) == 2)
    ensures j + k <= |rest|
    ensures ItemAt(rest, n, pos, j) ==
            match BoundsAt(rest, j + k)
            case None => Broken
            case Some((s, e)) => if FieldNumber(w) == 1 then KeyItem(rest[s..e], e) else ValueItem(rest[s..e], e)
  {
    hide ReadVarint, FieldNumber, Skip, BoundsAt;
  }

  // What the loop finds at offset j when it skips, r being what skipping gives.
  function SkippedItem(r: Result<int>, n: nat, pos: nat, j: nat): Item {
    match r
    case Ok(x) =>
      if x < 0 then Broken
      else if pos + j + x > MAX_INT then Overrun
      else if j + x > n then Broken
      else Other(j + x)
    case _ => Broken
  }

  lemma ItemOfSkip(rest: bytes, n: nat, pos: nat, j: nat)
    requires j < n <= |rest| && pos + |rest| <= MAX_INT && ReadVarint(rest[j..]).Some?
    requires FieldNumber(ReadVarint(rest[j..]).value.0) != 1 && FieldNumber(ReadVarint(rest[j..]).value.0) != 2
    ensures ItemAt(rest, n, pos, j) == SkippedItem(Skip(rest[j..]), n, pos, j)
  {
    hide ReadVarint, FieldNumber, Skip, BoundsAt;
  }

  lemma ItemOfField(rest: bytes, n: nat, pos: nat, i: nat, e: nat, tag: byte, s: bytes)
    requires i < n <= |rest| && pos + |rest| <= MAX_INT && FieldStands(rest, i, e, tag, s)
    requires tag == 0x0a || tag == 0x12
    ensures ItemAt(rest, n, pos, i) == if tag == 0x0a then KeyItem(s, e) else ValueItem(s, e)
  {
    TagValue(tag);
    hide ItemAt, ReadVarint, BoundsAt, FieldNumber;
    ItemOfPayload(rest, n, pos, i, tag, 1);
  }

  lemma StepOfItem<V>(dec: bytes -> Result<V>, rest: bytes, n: nat, pos: nat, j: nat, key: bytes, val: V)
    requires j < n <= |rest| && pos + |rest| <= MAX_INT
    ensures var item, r := ItemAt(rest, n, pos, j), EntryStep(dec, rest, n, pos, j, key, val);
            && (item.KeyItem? ==> r == Ok((item.next, item.k, val)))
            && (item.ValueItem? ==> r == (match dec(item.v)
                                          case Ok(v) => Ok((item.next, key, v))
                                          case Err => Err
                                          case Panic => Panic))
  {
    hide ItemAt;
  }

  // An entry as the encoder writes it, around any bytes e for the value, and
  // whatever follows it: the key and the decoded value, or the value's failure.
  lemma DecodeEntryExact<V>(dec: bytes -> Result<V>, zero: V, pos: nat, k: bytes, e: bytes, a: bytes)
    requires pos + |EntryBytes(k, e)| + |a| <= MAX_INT
    ensures DecodeEntry(dec, zero, pos, EntryBytes(k, e), a) == (match dec(e)
                                                                 case Ok(v) => Ok((k, v))
                                                                 case Err => Err
                                                                 case Panic => Panic)
  {
    EntryParts(k, e);
    var c := EntryBytes(k, e);
    var n := |c|;
    assert DecodeEntry(dec, zero, pos, c, a) == EntryFrom(dec, c + a, n, pos, 0, [], zero);
    hide *;
    var x, rest := |Enc(Str(0x0a, k))|, c + a;
    EntryStands(k, e, a);
    ItemOfField(rest, n, pos, 0, x, 0x0a, k);
    ItemOfField(rest, n, pos, x, n, 0x12, e);
    StepOfItem(dec, rest, n, pos, 0, [], zero);
    StepOfItem(dec, rest, n, pos, x, k, zero);
    EntryTurn(dec, rest, n, pos, 0, [], zero);
    EntryTurn(dec, rest, n, pos, x, k, zero);
    if dec(e).Ok? {
      EntryTurn(dec, rest, n, pos, n, k, dec(e).value);
    }
  }

  lemma EntryParts(k: bytes, e: bytes)
    ensures EntryBytes(k, e) == Enc(Str(0x0a, k)) + Enc(Str(0x12, e))
    ensures |k| < |Enc(Str(0x0a, k))| && |e| < |Enc(Str(0x12, e))|
  {
    EncStr(0x0a, k);
    EncStr(0x12, e);
  }

  // Where its key and its value stand.
  lemma EntryStands(k: bytes, e: bytes, a: bytes)
    requires |EntryBytes(k, e)| <= MAX_INT
    ensures var rest, x, n := EntryBytes(k, e) + a, |Enc(Str(0x0a, k))|, |EntryBytes(k, e)|;
            x < n && FieldStands(rest, 0, x, 0x0a, k) && FieldStands(rest, x, n, 0x12, e)
  {
    EntryParts(k, e);
    hide *;
    var y, z, none: bytes := Enc(Str(0x0a, k)), Enc(Str(0x12, e)), [];
    assert none + y == y && none + y + (z + a) == y + z + a;
    StrAt(none, 0x0a, k, z + a);
    StrAt(y, 0x12, e, a);
  }

  // ---- Whole maps ----

  // The meaning of a map field to a schema: put the decoded entry.
  ghost predicate PutsEntries<M(!new), V(!new)>(sch: Schema<M>, f: int, dec: bytes -> Result<V>, zero: V,
                                                get: M -> Nilable<map<bytes, V>>,
                                                upd: (M, Nilable<map<bytes, V>>) -> M)
  {
    && sch(f).Delimited?
    && (forall m: M, p: nat, c: bytes, a: bytes :: sch(f).step(m, p, c, a) == PutEntry(dec, zero, get, upd, m, p, c, a))
    && (forall m: M, x: Nilable<map<bytes, V>> :: get(upd(m, x)) == x)
    && (forall m: M, x: Nilable<map<bytes, V>>, y: Nilable<map<bytes, V>> :: upd(upd(m, x), y) == upd(m, y))
    && (forall m: M :: upd(m, get(m)) == m)
  }

  function PutEntry<M, V>(dec: bytes -> Result<V>, zero: V, get: M -> Nilable<map<bytes, V>>,
                          upd: (M, Nilable<map<bytes, V>>) -> M, m: M, p: nat, c: bytes, a: bytes): Result<M>
  {
    match DecodeEntry(dec, zero, p, c, a)
    case Ok((k, v)) => Ok(upd(m, Put(get(m), k, v)))
    case Err => Err
    case Panic => Panic
  }

  // The map after reading the entries of m for the keys ks into x.
  function PutAll<V>(x: Nilable<map<bytes, V>>, ks: seq<bytes>, m: map<bytes, V>): Nilable<map<bytes, V>>
    requires Elements(ks) <= m.Keys
  {
    if ks == [] then x else Made(MapOf(x) + map k | k in ks && k in m :: m[k])
  }

  function Normed<V>(m: map<bytes, V>, norm: V -> V): map<bytes, V> {
    map k | k in m :: norm(m[k])
  }

  // Entries written in any order of distinct keys are read back as the same map.
  lemma {:induction false} FoldEntries<M(!new), V(!new)>(
      sch: Schema<M>, tag: byte, dec: bytes -> Result<V>, zero: V,
      get: M -> Nilable<map<bytes, V>>, upd: (M, Nilable<map<bytes, V>>) -> M,
      enc: V -> bytes, norm: V -> V, ks: seq<bytes>, m: map<bytes, V>, x: M)
    requires tag < 128 && tag % 8 == 2 && tag / 8 > 0 && PutsEntries(sch, tag / 8, dec, zero, get, upd)
    requires Elements(ks) <= m.Keys && |EncAll(Entries(tag, ks, m, enc))| <= MAX_INT
    requires forall k :: k in ks ==> dec(enc(m[k])) == Ok(norm(m[k]))
    ensures Elements(ks) <= Normed(m, norm).Keys
    ensures Fold(sch, Entries(tag, ks, m, enc), x) == Ok(upd(x, PutAll(get(x), ks, Normed(m, norm))))
  {
    if ks == [] {
      FoldNone(sch, Entries(tag, ks, m, enc), x);
    } else {
      var k, rs := ks[0], Entries(tag, ks, m, enc);
      assert k in Elements(ks);
      assert ks == [k] + ks[1..] && rs == [rs[0]] + Entries(tag, ks[1..], m, enc);
      EntryFits(tag, ks, m, enc);
      DecodeEntryExact(dec, zero, 0, k, enc(m[k]), []);
      ApplyStr(sch, tag, EntryBytes(k, enc(m[k])), x);
      hide Fold, Apply, EntryBytes, DecodeEntry, Str, EncAll;
      var x' := upd(x, Put(get(x), k, norm(m[k])));
      assert Apply(sch, x, rs[0]) == Ok(x');
      FoldCons(sch, rs[0], Entries(tag, ks[1..], m, enc), x);
      FoldEntries(sch, tag, dec, zero, get, upd, enc, norm, ks[1..], m, x');
      PutAllStep(get(x), ks, Normed(m, norm));
    }
  }

  lemma EntryFits<V>(tag: byte, ks: seq<bytes>, m: map<bytes, V>, enc: V -> bytes)
    requires ks != [] && Elements(ks) <= m.Keys && Elements(ks[1..]) <= m.Keys && ks[0] in m
    requires |EncAll(Entries(tag, ks, m, enc))| <= MAX_INT
    ensures |EntryBytes(ks[0], enc(m[ks[0]]))| <= MAX_INT
    ensures |EncAll(Entries(tag, ks[1..], m, enc))| <= MAX_INT
  {
    var rs := Entries(tag, ks, m, enc);
    assert rs[1..] == Entries(tag, ks[1..], m, enc);
    EncStr(tag, EntryBytes(ks[0], enc(m[ks[0]])));
  }

  lemma PutAllStep<V>(x: Nilable<map<bytes, V>>, ks: seq<bytes>, m: map<bytes, V>)
    requires ks != [] && Elements(ks) <= m.Keys && Elements(ks[1..]) <= m.Keys && ks[0] in m
    ensures PutAll(Put(x, ks[0], m[ks[0]]), ks[1..], m) == PutAll(x, ks, m)
  {
    assert ks == [ks[0]] + ks[1..];
    assert forall k :: k in ks <==> k == ks[0] || k in ks[1..];
    var all, tail := map k | k in ks && k in m :: m[k], map k | k in ks[1..] && k in m :: m[k];
    AddStep(MapOf(x), ks[0], m[ks[0]], all, tail);
    if |ks| == 1 {
      assert tail == map[];
    }
  }

  lemma AddStep<V>(o: map<bytes, V>, k: bytes, v: V, all: map<bytes, V>, tail: map<bytes, V>)
    requires all.Keys == tail.Keys + {k} && all[k] == v
    requires forall y :: y in tail ==> all[y] == tail[y]
    ensures o + all == o[k := v] + tail
    ensures tail == map[] ==> o + all == o[k := v]
  {
    if tail == map[] {
      assert o + all == o[k := v];
    }
  }

  // Reading all entries of m into x: the union, entries read later winning.
  function Union<V>(x: Nilable<map<bytes, V>>, m: map<bytes, V>): Nilable<map<bytes, V>> {
    if m == map[] then x else Made(MapOf(x) + m)
  }

  lemma PutAllUnion<V>(x: Nilable<map<bytes, V>>, ks: seq<bytes>, m: map<bytes, V>)
    requires Elements(ks) == m.Keys
    ensures PutAll(x, ks, m) == Union(x, m)
  {
    ElementsEmpty(ks);
    if ks != [] {
      assert ks[0] in m;
      assert (map k | k in ks && k in m :: m[k]) == m by {
        assert forall k :: k in ks <==> k in Elements(ks);
      }
    }
  }

  lemma EntriesWellFormed<V>(tag: byte, ks: seq<bytes>, m: map<bytes, V>, enc: V -> bytes)
    requires tag < 128 && tag % 8 == 2 && Elements(ks) <= m.Keys
    requires |EncAll(Entries(tag, ks, m, enc))| <= MAX_INT
    ensures WellFormedAll(Entries(tag, ks, m, enc))
  {
    var rs := Entries(tag, ks, m, enc);
    forall i | 0 <= i < |rs|
      ensures WellFormed(rs[i])
    {
      EncAllAt(rs, i);
      EncStr(tag, rs[i].payload.content);
      StrWellFormed(tag, rs[i].payload.content);
    }
  }

  // The bytes of a value inside an encoded map are no longer than the whole.
  lemma ValueFits<V>(tag: byte, ks: seq<bytes>, m: map<bytes, V>, enc: V -> bytes, k: bytes)
    requires Elements(ks) <= m.Keys && k in ks && k in m
    ensures |enc(m[k])| <= |EncAll(Entries(tag, ks, m, enc))|
  {
    var rs := Entries(tag, ks, m, enc);
    var i :| 0 <= i < |ks| && ks[i] == k;
    EncAllAt(rs, i);
    EncStr(tag, EntryBytes(k, enc(m[k])));
    EncStr(0x12, enc(m[k]));
  }
}
