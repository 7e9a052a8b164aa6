// HardQuantity, UsedQuantity, ProjectSpec and ProjectStatus of
// api/business/v1: values, what is written, what is read, and round trips.
module Project {
  import opened Bits
  import opened Wrappers
  import opened Varint
  import opened Wire
  import opened Decoder
  import opened Fields
  import opened Keys
  import opened MapField

  // resource.Quantity, whose own codec is outside the repository: its encoding,
  // its decoder into a zero value, which may fail or panic, and the normal form
  // in which it reads back.
  datatype QuantityCodec<!Q> = QuantityCodec(enc: Q -> bytes, dec: bytes -> Result<Q>, zero: Q, norm: Q -> Q)

  // All that is asked of it: what it writes, it reads back up to norm.
  ghost predicate RoundTrips<Q(!new)>(qc: QuantityCodec<Q>) {
    forall q :: qc.dec(qc.enc(q)) == Ok(qc.norm(q))
  }

  // Asked only where encodings are compared: a normal form is written like the
  // quantity itself.
  ghost predicate Canonical<Q(!new)>(qc: QuantityCodec<Q>) {
    forall q :: qc.enc(qc.norm(q)) == qc.enc(q)
  }

  // HardQuantity and UsedQuantity: generated from the same shape, a map from
  // resource names to quantities in field 1.
  datatype Quantities<Q> = Quantities(hard: Nilable<map<bytes, Q>>)

  datatype Spec<Q> = Spec(
    finalizers: Nilable<seq<bytes>>,
    tenantID: bytes,
    displayName: bytes,
    members: Nilable<seq<bytes>>,
    parentProjectName: bytes,
    clusters: Nilable<map<bytes, Quantities<Q>>>)

  datatype Status<Q> = Status(
    locked: Option<bool>,
    phase: bytes,
    clusters: Nilable<map<bytes, Quantities<Q>>>,
    childProjects: Nilable<seq<bytes>>,
    namespaces: Nilable<seq<bytes>>)

  function ZeroHard<Q>(): Quantities<Q> {
    Quantities(Nil)
  }

  function ZeroSpec<Q>(): Spec<Q> {
    Spec(Nil, [], [], Nil, [], Nil)
  }

  function ZeroStatus<Q>(): Status<Q> {
    Status(None, [], Nil, Nil, Nil)
  }

  // ---- Decoding ----

  function PutHard<Q>(qc: QuantityCodec<Q>, m: Quantities<Q>, p: nat, c: bytes, a: bytes): Result<Quantities<Q>> {
    match DecodeEntry(qc.dec, qc.zero, p, c, a)
    case Ok((k, v)) => Ok(m.(hard := Put(m.hard, k, v)))
    case Err => Err
    case Panic => Panic
  }

  function HardSchema<Q>(qc: QuantityCodec<Q>): Schema<Quantities<Q>> {
    (f: int) =>
      match f
      case 1 => Delimited((m: Quantities<Q>, p: nat, c: bytes, a: bytes) => PutHard(qc, m, p, c, a))
      case _ => Unknown
  }

  function DecodeHard<Q>(qc: QuantityCodec<Q>, c: bytes): Result<Quantities<Q>> {
    if |c| <= MAX_INT then Decode(HardSchema(qc), c, 0, ZeroHard()) else Err
  }

  function HardDecoder<Q>(qc: QuantityCodec<Q>): bytes -> Result<Quantities<Q>> {
    (c: bytes) => DecodeHard(qc, c)
  }

  function PutSpecCluster<Q>(qc: QuantityCodec<Q>, m: Spec<Q>, p: nat, c: bytes, a: bytes): Result<Spec<Q>> {
    match DecodeEntry(HardDecoder(qc), ZeroHard(), p, c, a)
    case Ok((k, v)) => Ok(m.(clusters := Put(m.clusters, k, v)))
    case Err => Err
    case Panic => Panic
  }

  function SpecSchema<Q>(qc: QuantityCodec<Q>): Schema<Spec<Q>> {
    (f: int) =>
      match f
      case 1 => Delimited((m: Spec<Q>, p: nat, c: bytes, a: bytes) => Ok(m.(finalizers := Append(m.finalizers, c))))
      case 2 => Delimited((m: Spec<Q>, p: nat, c: bytes, a: bytes) => Ok(m.(tenantID := c)))
      case 3 => Delimited((m: Spec<Q>, p: nat, c: bytes, a: bytes) => Ok(m.(displayName := c)))
      case 4 => Delimited((m: Spec<Q>, p: nat, c: bytes, a: bytes) => Ok(m.(members := Append(m.members, c))))
      case 5 => Delimited((m: Spec<Q>, p: nat, c: bytes, a: bytes) => Ok(m.(parentProjectName := c)))
      case 6 => Delimited((m: Spec<Q>, p: nat, c: bytes, a: bytes) => PutSpecCluster(qc, m, p, c, a))
      case _ => Unknown
  }

  function PutStatusCluster<Q>(qc: QuantityCodec<Q>, m: Status<Q>, p: nat, c: bytes, a: bytes): Result<Status<Q>> {
    match DecodeEntry(HardDecoder(qc), ZeroHard(), p, c, a)
    case Ok((k, v)) => Ok(m.(clusters := Put(m.clusters, k, v)))
    case Err => Err
    case Panic => Panic
  }

  function StatusSchema<Q>(qc: QuantityCodec<Q>): Schema<Status<Q>> {
    (f: int) =>
      match f
      case 1 => Scalar((m: Status<Q>, v: uint64) => m.(locked := Some(ToInt64(v) != 0)))
      case 2 => Delimited((m: Status<Q>, p: nat, c: bytes, a: bytes) => Ok(m.(phase := c)))
      case 3 => Delimited((m: Status<Q>, p: nat, c: bytes, a: bytes) => PutStatusCluster(qc, m, p, c, a))
      case 4 =>
        Delimited((m: Status<Q>, p: nat, c: bytes, a: bytes) => Ok(m.(childProjects := Append(m.childProjects, c))))
      case 5 => Delimited((m: Status<Q>, p: nat, c: bytes, a: bytes) => Ok(m.(namespaces := Append(m.namespaces, c))))
      case _ => Unknown
  }

  // ---- Encoding ----

  ghost function HardRecords<Q>(qc: QuantityCodec<Q>, h: Quantities<Q>): seq<Record> {
    MapRecords(0x0a, MapOf(h.hard), qc.enc)
  }

  ghost function EncHard<Q>(qc: QuantityCodec<Q>, h: Quantities<Q>): bytes {
    EncAll(HardRecords(qc, h))
  }

  ghost function HardEncoder<Q>(qc: QuantityCodec<Q>): Quantities<Q> -> bytes {
    (h: Quantities<Q>) => EncHard(qc, h)
  }

  ghost function ClusterRecords<Q>(tag: byte, qc: QuantityCodec<Q>, m: Nilable<map<bytes, Quantities<Q>>>)
    : seq<Record>
  {
    MapRecords(tag, MapOf(m), HardEncoder(qc))
  }

  ghost function SpecPart<Q>(qc: QuantityCodec<Q>, s: Spec<Q>, k: nat): seq<Record> {
    match k
    case 0 => Strs(0x0a, Elems(s.finalizers))
    case 1 => [Str(0x12, s.tenantID)]
    case 2 => [Str(0x1a, s.displayName)]
    case 3 => Strs(0x22, Elems(s.members))
    case 4 => [Str(0x2a, s.parentProjectName)]
    case 5 => ClusterRecords(0x32, qc, s.clusters)
    case _ => []
  }

  ghost function SpecTail<Q>(qc: QuantityCodec<Q>, s: Spec<Q>, k: nat): seq<Record>
    decreases 6 - k
  {
    if k >= 6 then [] else SpecPart(qc, s, k) + SpecTail(qc, s, k + 1)
  }

  ghost function EncSpec<Q>(qc: QuantityCodec<Q>, s: Spec<Q>): bytes {
    EncAll(SpecTail(qc, s, 0))
  }

  function LockedRecords(locked: Option<bool>): seq<Record> {
    match locked
    case Some(b) => [Num(0x08, if b then 1 else 0)]
    case None => []
  }

  ghost function StatusPart<Q>(qc: QuantityCodec<Q>, s: Status<Q>, k: nat): seq<Record> {
    match k
    case 0 => LockedRecords(s.locked)
    case 1 => [Str(0x12, s.phase)]
    case 2 => ClusterRecords(0x1a, qc, s.clusters)
    case 3 => Strs(0x22, Elems(s.childProjects))
    case 4 => Strs(0x2a, Elems(s.namespaces))
    case _ => []
  }

  ghost function StatusTail<Q>(qc: QuantityCodec<Q>, s: Status<Q>, k: nat): seq<Record>
    decreases 5 - k
  {
    if k >= 5 then [] else StatusPart(qc, s, k) + StatusTail(qc, s, k + 1)
  }

  ghost function EncStatus<Q>(qc: QuantityCodec<Q>, s: Status<Q>): bytes {
    EncAll(StatusTail(qc, s, 0))
  }

  // ---- Up to nil against empty ----

  function NormMap<V>(m: Nilable<map<bytes, V>>, norm: V -> V): Nilable<map<bytes, V>> {
    if MapOf(m) == map[] then Nil else Made(Normed(MapOf(m), norm))
  }

  function NormHard<Q>(qc: QuantityCodec<Q>, h: Quantities<Q>): Quantities<Q> {
    Quantities(NormMap(h.hard, qc.norm))
  }

  function NormHardFn<Q>(qc: QuantityCodec<Q>): Quantities<Q> -> Quantities<Q> {
    (h: Quantities<Q>) => NormHard(qc, h)
  }

  function NormSpec<Q>(qc: QuantityCodec<Q>, s: Spec<Q>): Spec<Q> {
    s.(finalizers := NormSlice(s.finalizers),
       members := NormSlice(s.members),
       clusters := NormMap(s.clusters, NormHardFn(qc)))
  }

  function NormStatus<Q>(qc: QuantityCodec<Q>, s: Status<Q>): Status<Q> {
    s.(clusters := NormMap(s.clusters, NormHardFn(qc)),
       childProjects := NormSlice(s.childProjects),
       namespaces := NormSlice(s.namespaces))
  }

  // ---- Stability ----

  lemma HardStable<Q(!new)>(qc: QuantityCodec<Q>)
    ensures Stable(HardSchema(qc))
  {
    var dec := qc.dec;
    forall f: int, m: Quantities<Q>, p: nat, c: bytes, a: bytes, p': nat, t: bytes
      ensures StableAt(HardSchema(qc)(f), m, p, c, a, p', t)
    {
      hide DecodeEntry;
      if DecodeEntry(dec, qc.zero, p, c, a).Ok? && p' + |c| + |a| + |t| <= MAX_INT {
        DecodeEntryStable(dec, qc.zero, p, c, a, p', t);
      }
    }
  }

  lemma SpecStable<Q(!new)>(qc: QuantityCodec<Q>)
    ensures Stable(SpecSchema(qc))
  {
    forall f: int, m: Spec<Q>, p: nat, c: bytes, a: bytes, p': nat, t: bytes
      ensures StableAt(SpecSchema(qc)(f), m, p, c, a, p', t)
    {
      hide DecodeEntry, HardDecoder, Append;
      if f == 6 && p + |c| + |a| <= MAX_INT && p' + |c| + |a| + |t| <= MAX_INT {
        ClusterStable(qc, p, c, a, p', t);
        assert PutSpecCluster(qc, m, p, c, a).Ok?
            ==> PutSpecCluster(qc, m, p', c, a + t) == PutSpecCluster(qc, m, p, c, a);
        assert SpecSchema(qc)(f).step(m, p, c, a) == PutSpecCluster(qc, m, p, c, a);
      }
    }
  }

  lemma StatusStable<Q(!new)>(qc: QuantityCodec<Q>)
    ensures Stable(StatusSchema(qc))
  {
    forall f: int, m: Status<Q>, p: nat, c: bytes, a: bytes, p': nat, t: bytes
      ensures StableAt(StatusSchema(qc)(f), m, p, c, a, p', t)
    {
      hide DecodeEntry, HardDecoder, Append;
      if f == 3 && p + |c| + |a| <= MAX_INT && p' + |c| + |a| + |t| <= MAX_INT {
        ClusterStable(qc, p, c, a, p', t);
        assert PutStatusCluster(qc, m, p, c, a).Ok?
            ==> PutStatusCluster(qc, m, p', c, a + t) == PutStatusCluster(qc, m, p, c, a);
        assert StatusSchema(qc)(f).step(m, p, c, a) == PutStatusCluster(qc, m, p, c, a);
      }
    }
  }

  lemma ClusterStable<Q(!new)>(qc: QuantityCodec<Q>, p: nat, c: bytes, a: bytes, p': nat, t: bytes)
    ensures DecodeEntry(HardDecoder(qc), ZeroHard(), p, c, a).Ok? && p' + |c| + |a| + |t| <= MAX_INT ==>
              DecodeEntry(HardDecoder(qc), ZeroHard(), p', c, a + t)
              == DecodeEntry(HardDecoder(qc), ZeroHard(), p, c, a)
  {
    hide DecodeEntry, HardDecoder;
    if DecodeEntry(HardDecoder(qc), ZeroHard(), p, c, a).Ok? && p' + |c| + |a| + |t| <= MAX_INT {
      DecodeEntryStable(HardDecoder(qc), ZeroHard(), p, c, a, p', t);
    }
  }

  // ---- Reading back a map of quantities ----

  function HardGet<Q>(): Quantities<Q> -> Nilable<map<bytes, Q>> {
    (h: Quantities<Q>) => h.hard
  }

  function HardUpd<Q>(): (Quantities<Q>, Nilable<map<bytes, Q>>) -> Quantities<Q> {
    (h: Quantities<Q>, x: Nilable<map<bytes, Q>>) => h.(hard := x)
  }

  lemma HardPuts<Q(!new)>(qc: QuantityCodec<Q>)
    ensures PutsEntries(HardSchema(qc), 1, qc.dec, qc.zero, HardGet(), HardUpd())
  {
    hide DecodeEntry;
  }

  // Entries in any order of the keys are read back as the map, which is why
  // the order of the encoder does not matter to the reader.
  lemma HardAnyOrder<Q(!new)>(qc: QuantityCodec<Q>, ks: seq<bytes>, m: map<bytes, Q>, x: Quantities<Q>)
    requires RoundTrips(qc) && Elements(ks) == m.Keys
    requires |EncAll(Entries(0x0a, ks, m, qc.enc))| <= MAX_INT
    ensures Decode(HardSchema(qc), EncAll(Entries(0x0a, ks, m, qc.enc)), 0, x)
            == Ok(Quantities(Union(x.hard, Normed(m, qc.norm))))
    ensures WellFormedAll(Entries(0x0a, ks, m, qc.enc))
    ensures Fold(HardSchema(qc), Entries(0x0a, ks, m, qc.enc), x) == Ok(Quantities(Union(x.hard, Normed(m, qc.norm))))
  {
    HardPuts(qc);
    HardStable(qc);
    EntriesWellFormed(0x0a, ks, m, qc.enc);
    assert forall k :: k in ks ==> k in m by { assert forall k :: k in ks ==> k in Elements(ks); }
    assert forall k :: k in ks ==> qc.dec(qc.enc(m[k])) == Ok(qc.norm(m[k]));
    var n := Normed(m, qc.norm);
    PutAllUnion(x.hard, ks, n);
    FoldEntries(HardSchema(qc), 0x0a, qc.dec, qc.zero, HardGet(), HardUpd(), qc.enc, qc.norm, ks, m, x);
    var u := Union(x.hard, n);
    assert HardUpd<Q>()(x, u) == Quantities(u);
    assert HardGet<Q>()(x) == x.hard;
    hide *;
    DecodeRecords(HardSchema(qc), Entries(0x0a, ks, m, qc.enc), 0, x);
  }

  lemma HardRoundTrip<Q(!new)>(qc: QuantityCodec<Q>, h: Quantities<Q>)
    requires RoundTrips(qc) && |EncHard(qc, h)| <= MAX_INT
    ensures Decode(HardSchema(qc), EncHard(qc, h), 0, ZeroHard()) == Ok(NormHard(qc, h))
  {
    var m := MapOf(h.hard);
    HardAnyOrder(qc, KeyOrder(m.Keys), m, ZeroHard());
    UnionToNil(h.hard, qc.norm);
  }

  lemma UnionToNil<V>(m: Nilable<map<bytes, V>>, norm: V -> V)
    ensures Union(Nil, Normed(MapOf(m), norm)) == NormMap(m, norm)
  {
    var n := Normed(MapOf(m), norm);
    assert n.Keys == MapOf(m).Keys;
    assert map[] + n == n;
    assert n.Keys == {} <==> n == map[];
    assert MapOf(m).Keys == {} <==> MapOf(m) == map[];
  }

  // ---- Reading back a map of maps ----

  lemma ClustersDecode<Q(!new)>(tag: byte, qc: QuantityCodec<Q>, ks: seq<bytes>, m: map<bytes, Quantities<Q>>)
    requires RoundTrips(qc) && Elements(ks) == m.Keys
    requires |EncAll(Entries(tag, ks, m, HardEncoder(qc)))| <= MAX_INT
    ensures forall k :: k in ks ==> k in m && HardDecoder(qc)(HardEncoder(qc)(m[k])) == Ok(NormHardFn(qc)(m[k]))
  {
    forall k | k in ks
      ensures k in m && HardDecoder(qc)(HardEncoder(qc)(m[k])) == Ok(NormHardFn(qc)(m[k]))
    {
      assert k in Elements(ks);
      ValueFits(tag, ks, m, HardEncoder(qc), k);
      assert HardEncoder(qc)(m[k]) == EncHard(qc, m[k]);
      hide EncHard;
      HardRoundTrip(qc, m[k]);
    }
  }

  function NormedClusters<Q>(qc: QuantityCodec<Q>, m: Nilable<map<bytes, Quantities<Q>>>): map<bytes, Quantities<Q>> {
    Normed(MapOf(m), NormHardFn(qc))
  }

  function SpecGet<Q>(): Spec<Q> -> Nilable<map<bytes, Quantities<Q>>> {
    (s: Spec<Q>) => s.clusters
  }

  function SpecUpd<Q>(): (Spec<Q>, Nilable<map<bytes, Quantities<Q>>>) -> Spec<Q> {
    (s: Spec<Q>, x: Nilable<map<bytes, Quantities<Q>>>) => s.(clusters := x)
  }

  function StatusGet<Q>(): Status<Q> -> Nilable<map<bytes, Quantities<Q>>> {
    (s: Status<Q>) => s.clusters
  }

  function StatusUpd<Q>(): (Status<Q>, Nilable<map<bytes, Quantities<Q>>>) -> Status<Q> {
    (s: Status<Q>, x: Nilable<map<bytes, Quantities<Q>>>) => s.(clusters := x)
  }

  lemma SpecPuts<Q(!new)>(qc: QuantityCodec<Q>)
    ensures PutsEntries(SpecSchema(qc), 6, HardDecoder(qc), ZeroHard(), SpecGet(), SpecUpd())
  {
    hide DecodeEntry, HardDecoder;
    forall m: Spec<Q>, p: nat, c: bytes, a: bytes
      ensures SpecSchema(qc)(6).step(m, p, c, a)
              == PutEntry(HardDecoder(qc), ZeroHard(), SpecGet(), SpecUpd(), m, p, c, a)
    {
      assert SpecSchema(qc)(6).step(m, p, c, a) == PutSpecCluster(qc, m, p, c, a);
    }
  }

  lemma StatusPuts<Q(!new)>(qc: QuantityCodec<Q>)
    ensures PutsEntries(StatusSchema(qc), 3, HardDecoder(qc), ZeroHard(), StatusGet(), StatusUpd())
  {
    hide DecodeEntry, HardDecoder;
    forall m: Status<Q>, p: nat, c: bytes, a: bytes
      ensures StatusSchema(qc)(3).step(m, p, c, a)
              == PutEntry(HardDecoder(qc), ZeroHard(), StatusGet(), StatusUpd(), m, p, c, a)
    {
      assert StatusSchema(qc)(3).step(m, p, c, a) == PutStatusCluster(qc, m, p, c, a);
    }
  }

  // Entries of the clusters of a spec, in any order of the keys.
  lemma SpecClustersAnyOrder<Q(!new)>(qc: QuantityCodec<Q>, ks: seq<bytes>, m: map<bytes, Quantities<Q>>, x: Spec<Q>)
    requires RoundTrips(qc) && Elements(ks) == m.Keys
    requires |EncAll(Entries(0x32, ks, m, HardEncoder(qc)))| <= MAX_INT
    ensures Fold(SpecSchema(qc), Entries(0x32, ks, m, HardEncoder(qc)), x)
            == Ok(x.(clusters := Union(x.clusters, Normed(m, NormHardFn(qc)))))
  {
    SpecPuts(qc);
    ClustersDecode(0x32, qc, ks, m);
    var u := Union(x.clusters, Normed(m, NormHardFn(qc)));
    assert SpecUpd<Q>()(x, u) == x.(clusters := u) && SpecGet<Q>()(x) == x.clusters;
    PutAllUnion(x.clusters, ks, Normed(m, NormHardFn(qc)));
    hide Fold, HardDecoder, HardEncoder, SpecSchema, PutsEntries, RoundTrips, PutAll, Union;
    FoldEntries(SpecSchema(qc), 0x32, HardDecoder(qc), ZeroHard(), SpecGet(), SpecUpd(), HardEncoder(qc),
        NormHardFn(qc), ks, m, x);
  }

  lemma StatusClustersAnyOrder<Q(!new)>(qc: QuantityCodec<Q>, ks: seq<bytes>, m: map<bytes, Quantities<Q>>,
      x: Status<Q>)
    requires RoundTrips(qc) && Elements(ks) == m.Keys
    requires |EncAll(Entries(0x1a, ks, m, HardEncoder(qc)))| <= MAX_INT
    ensures Fold(StatusSchema(qc), Entries(0x1a, ks, m, HardEncoder(qc)), x)
            == Ok(x.(clusters := Union(x.clusters, Normed(m, NormHardFn(qc)))))
  {
    StatusPuts(qc);
    ClustersDecode(0x1a, qc, ks, m);
    var u := Union(x.clusters, Normed(m, NormHardFn(qc)));
    assert StatusUpd<Q>()(x, u) == x.(clusters := u) && StatusGet<Q>()(x) == x.clusters;
    PutAllUnion(x.clusters, ks, Normed(m, NormHardFn(qc)));
    hide Fold, HardDecoder, HardEncoder, StatusSchema, PutsEntries, RoundTrips, PutAll, Union;
    FoldEntries(StatusSchema(qc), 0x1a, HardDecoder(qc), ZeroHard(), StatusGet(), StatusUpd(), HardEncoder(qc),
        NormHardFn(qc), ks, m, x);
  }

  // So the cluster entries of a spec decode to the same map whatever their order.
  lemma SpecReadsAnyOrder<Q(!new)>(qc: QuantityCodec<Q>, ks: seq<bytes>, m: map<bytes, Quantities<Q>>, x: Spec<Q>)
    requires RoundTrips(qc) && Elements(ks) == m.Keys
    requires |EncAll(Entries(0x32, ks, m, HardEncoder(qc)))| <= MAX_INT
    ensures Decode(SpecSchema(qc), EncAll(Entries(0x32, ks, m, HardEncoder(qc))), 0, x)
            == Ok(x.(clusters := Union(x.clusters, Normed(m, NormHardFn(qc)))))
  {
    hide *;
    SpecClustersAnyOrder(qc, ks, m, x);
    EntriesWellFormed(0x32, ks, m, HardEncoder(qc));
    SpecStable(qc);
    DecodeRecords(SpecSchema(qc), Entries(0x32, ks, m, HardEncoder(qc)), 0, x);
  }

  // So the cluster entries of a status decode to the same map whatever their order.
  lemma StatusReadsAnyOrder<Q(!new)>(qc: QuantityCodec<Q>, ks: seq<bytes>, m: map<bytes, Quantities<Q>>, x: Status<Q>)
    requires RoundTrips(qc) && Elements(ks) == m.Keys
    requires |EncAll(Entries(0x1a, ks, m, HardEncoder(qc)))| <= MAX_INT
    ensures Decode(StatusSchema(qc), EncAll(Entries(0x1a, ks, m, HardEncoder(qc))), 0, x)
            == Ok(x.(clusters := Union(x.clusters, Normed(m, NormHardFn(qc)))))
  {
    hide *;
    StatusClustersAnyOrder(qc, ks, m, x);
    EntriesWellFormed(0x1a, ks, m, HardEncoder(qc));
    StatusStable(qc);
    DecodeRecords(StatusSchema(qc), Entries(0x1a, ks, m, HardEncoder(qc)), 0, x);
  }

  // ---- Normal forms are written alike ----

  lemma MapNormEncodes<V>(tag: byte, m: Nilable<map<bytes, V>>, enc: V -> bytes, norm: V -> V)
    requires forall k :: k in MapOf(m) ==> enc(norm(MapOf(m)[k])) == enc(MapOf(m)[k])
    ensures MapRecords(tag, MapOf(NormMap(m, norm)), enc) == MapRecords(tag, MapOf(m), enc)
  {
    var o, n := MapOf(m), MapOf(NormMap(m, norm));
    assert n.Keys == o.Keys;
    hide EntryBytes, Str;
    var ks := KeyOrder(o.Keys);
    forall i | 0 <= i < |ks|
      ensures Entries(tag, ks, n, enc)[i] == Entries(tag, ks, o, enc)[i]
    {
      assert ks[i] in Elements(ks);
    }
  }

  lemma HardNormEncodes<Q(!new)>(qc: QuantityCodec<Q>, h: Quantities<Q>)
    requires Canonical(qc)
    ensures EncHard(qc, NormHard(qc, h)) == EncHard(qc, h)
  {
    hide MapRecords, EncAll, NormMap;
    MapNormEncodes(0x0a, h.hard, qc.enc, qc.norm);
  }

  lemma ClustersNormEncode<Q(!new)>(tag: byte, qc: QuantityCodec<Q>, m: Nilable<map<bytes, Quantities<Q>>>)
    requires Canonical(qc)
    ensures ClusterRecords(tag, qc, NormMap(m, NormHardFn(qc))) == ClusterRecords(tag, qc, m)
  {
    forall k | k in MapOf(m)
      ensures HardEncoder(qc)(NormHardFn(qc)(MapOf(m)[k])) == HardEncoder(qc)(MapOf(m)[k])
    {
      hide EncHard, NormHard;
      HardNormEncodes(qc, MapOf(m)[k]);
    }
    hide MapRecords, NormMap, HardEncoder, NormHardFn;
    MapNormEncodes(tag, m, HardEncoder(qc), NormHardFn(qc));
  }

  // ---- ProjectSpec ----

  // Decoding an encoded spec into a message: strings are replaced, lists are
  // appended to, clusters are added, those of the spec winning.
  function MergeSpec<Q>(qc: QuantityCodec<Q>, m: Spec<Q>, s: Spec<Q>): Spec<Q> {
    Spec(
      AppendAll(m.finalizers, Elems(s.finalizers)),
      s.tenantID,
      s.displayName,
      AppendAll(m.members, Elems(s.members)),
      s.parentProjectName,
      Union(m.clusters, NormedClusters(qc, s.clusters)))
  }

  function SpecUpto<Q>(qc: QuantityCodec<Q>, m: Spec<Q>, s: Spec<Q>, k: nat): Spec<Q> {
    var n := MergeSpec(qc, m, s);
    Spec(
      if k > 0 then n.finalizers else m.finalizers,
      if k > 1 then n.tenantID else m.tenantID,
      if k > 2 then n.displayName else m.displayName,
      if k > 3 then n.members else m.members,
      if k > 4 then n.parentProjectName else m.parentProjectName,
      if k > 5 then n.clusters else m.clusters)
  }

  lemma {:induction false} FoldSpecList<Q>(qc: QuantityCodec<Q>, tag: byte, ss: seq<bytes>, m: Spec<Q>)
    requires tag == 0x0a || tag == 0x22
    ensures Fold(SpecSchema(qc), Strs(tag, ss), m)
            == Ok(if tag == 0x0a then m.(finalizers := AppendAll(m.finalizers, ss))
                  else m.(members := AppendAll(m.members, ss)))
  {
    if ss == [] {
      FoldNone(SpecSchema(qc), Strs(tag, ss), m);
    } else {
      var m' := if tag == 0x0a then m.(finalizers := Append(m.finalizers, ss[0]))
                else m.(members := Append(m.members, ss[0]));
      ApplyStr(SpecSchema(qc), tag, ss[0], m);
      hide *;
      StrsHead(tag, ss);
      FoldCons(SpecSchema(qc), Str(tag, ss[0]), Strs(tag, ss[1..]), m);
      FoldSpecList(qc, tag, ss[1..], m');
      AppendAllStep(m.finalizers, ss);
      AppendAllStep(m.members, ss);
    }
  }

  lemma FoldSpecStr<Q>(qc: QuantityCodec<Q>, tag: byte, s: bytes, m: Spec<Q>)
    requires tag in {0x12, 0x1a, 0x2a}
    ensures Fold(SpecSchema(qc), [Str(tag, s)], m)
            == Ok(if tag == 0x12 then m.(tenantID := s) else if tag == 0x1a then m.(displayName := s)
                  else m.(parentProjectName := s))
  {
    ApplyStr(SpecSchema(qc), tag, s, m);
    hide Apply, Str;
    FoldOne(SpecSchema(qc), Str(tag, s), m);
  }

  lemma FoldSpecPart<Q(!new)>(qc: QuantityCodec<Q>, m0: Spec<Q>, s: Spec<Q>, k: nat)
    requires RoundTrips(qc) && k < 6 && |EncAll(SpecPart(qc, s, k))| <= MAX_INT
    ensures Fold(SpecSchema(qc), SpecPart(qc, s, k), SpecUpto(qc, m0, s, k)) == Ok(SpecUpto(qc, m0, s, k + 1))
  {
    hide Fold, Str, Strs, SpecSchema, AppendAll, Elems, Union, Entries, HardEncoder, RoundTrips, EncAll, NormHardFn;
    var m := SpecUpto(qc, m0, s, k);
    match k
    case 0 => FoldSpecList(qc, 0x0a, Elems(s.finalizers), m);
    case 1 => FoldSpecStr(qc, 0x12, s.tenantID, m);
    case 2 => FoldSpecStr(qc, 0x1a, s.displayName, m);
    case 3 => FoldSpecList(qc, 0x22, Elems(s.members), m);
    case 4 => FoldSpecStr(qc, 0x2a, s.parentProjectName, m);
    case 5 => SpecClustersAnyOrder(qc, KeyOrder(MapOf(s.clusters).Keys), MapOf(s.clusters), m);
  }

  lemma SpecPartWellFormed<Q(!new)>(qc: QuantityCodec<Q>, s: Spec<Q>, k: nat)
    requires k < 6 && |EncAll(SpecPart(qc, s, k))| <= MAX_INT
    ensures WellFormedAll(SpecPart(qc, s, k))
  {
    hide Entries, HardEncoder, EncVarint, WellFormed;
    match k
    case 0 => StrsFit(0x0a, Elems(s.finalizers));
    case 1 => StrFits(0x12, s.tenantID);
    case 2 => StrFits(0x1a, s.displayName);
    case 3 => StrsFit(0x22, Elems(s.members));
    case 4 => StrFits(0x2a, s.parentProjectName);
    case 5 => EntriesWellFormed(0x32, KeyOrder(MapOf(s.clusters).Keys), MapOf(s.clusters), HardEncoder(qc));
  }

  lemma {:induction false} SpecTailMeaning<Q(!new)>(qc: QuantityCodec<Q>, m: Spec<Q>, s: Spec<Q>, k: nat)
    requires RoundTrips(qc) && k <= 6 && |EncAll(SpecTail(qc, s, k))| <= MAX_INT
    ensures WellFormedAll(SpecTail(qc, s, k))
    ensures Fold(SpecSchema(qc), SpecTail(qc, s, k), SpecUpto(qc, m, s, k)) == Ok(MergeSpec(qc, m, s))
    decreases 6 - k
  {
    hide SpecPart, EncAll, RoundTrips, WellFormed, SpecSchema, MergeSpec;
    if k < 6 {
      EncAllAppend(SpecPart(qc, s, k), SpecTail(qc, s, k + 1));
      FoldSpecPart(qc, m, s, k);
      SpecPartWellFormed(qc, s, k);
      hide SpecUpto;
      FoldAppend(SpecSchema(qc), SpecPart(qc, s, k), SpecTail(qc, s, k + 1), SpecUpto(qc, m, s, k));
      SpecTailMeaning(qc, m, s, k + 1);
    }
  }

  // Decoding an encoded spec into any message merges it in.
  lemma SpecMerges<Q(!new)>(qc: QuantityCodec<Q>, m: Spec<Q>, s: Spec<Q>)
    requires RoundTrips(qc) && |EncSpec(qc, s)| <= MAX_INT
    ensures WellFormedAll(SpecTail(qc, s, 0)) && Fold(SpecSchema(qc), SpecTail(qc, s, 0), m) == Ok(MergeSpec(qc, m, s))
    ensures Decode(SpecSchema(qc), EncSpec(qc, s), 0, m) == Ok(MergeSpec(qc, m, s))
  {
    assert SpecUpto(qc, m, s, 0) == m;
    hide RoundTrips, SpecSchema, SpecTail, WellFormed, Fold, EncAll;
    SpecTailMeaning(qc, m, s, 0);
    SpecStable(qc);
    DecodeRecords(SpecSchema(qc), SpecTail(qc, s, 0), 0, m);
  }

  // Every spec comes back from its encoding, maps of messages of maps included,
  // with empty slices and maps read back as nil and quantities in their normal
  // form.
  lemma SpecRoundTrip<Q(!new)>(qc: QuantityCodec<Q>, s: Spec<Q>)
    requires RoundTrips(qc) && |EncSpec(qc, s)| <= MAX_INT
    ensures Decode(SpecSchema(qc), EncSpec(qc, s), 0, ZeroSpec()) == Ok(NormSpec(qc, s))
  {
    hide RoundTrips;
    SpecMerges(qc, ZeroSpec(), s);
    AppendAllToNil(s.finalizers);
    AppendAllToNil(s.members);
    UnionToNil(s.clusters, NormHardFn(qc));
  }

  // Writing a spec that has been stored gives the same bytes.
  lemma SpecNormEncodes<Q(!new)>(qc: QuantityCodec<Q>, s: Spec<Q>)
    requires Canonical(qc)
    ensures EncSpec(qc, NormSpec(qc, s)) == EncSpec(qc, s)
  {
    ClustersNormEncode(0x32, qc, s.clusters);
    hide Canonical, Strs, Str, MapRecords, NormHardFn, HardEncoder, EncAll;
    SpecTailNorm(qc, s, 0);
  }

  lemma {:induction false} SpecTailNorm<Q(!new)>(qc: QuantityCodec<Q>, s: Spec<Q>, k: nat)
    requires ClusterRecords(0x32, qc, NormSpec(qc, s).clusters) == ClusterRecords(0x32, qc, s.clusters)
    ensures SpecTail(qc, NormSpec(qc, s), k) == SpecTail(qc, s, k)
    decreases 6 - k
  {
    hide Strs, Str, ClusterRecords, NormHardFn, NormMap;
    if k < 6 {
      SpecTailNorm(qc, s, k + 1);
    }
  }

  // Specs with different contents have different encodings, and only those.
  lemma SpecEncodingInjective<Q(!new)>(qc: QuantityCodec<Q>, s: Spec<Q>, t: Spec<Q>)
    requires RoundTrips(qc) && |EncSpec(qc, s)| <= MAX_INT
    ensures EncSpec(qc, s) == EncSpec(qc, t) ==> NormSpec(qc, s) == NormSpec(qc, t)
    ensures Canonical(qc) ==> (EncSpec(qc, s) == EncSpec(qc, t) <==> NormSpec(qc, s) == NormSpec(qc, t))
  {
    hide *;
    if EncSpec(qc, s) == EncSpec(qc, t) {
      SpecRoundTrip(qc, s);
      SpecRoundTrip(qc, t);
    }
    if Canonical(qc) {
      SpecNormEncodes(qc, s);
      SpecNormEncodes(qc, t);
    }
  }

  // A prefix of an encoded spec decodes when the cut falls between two of its
  // records, and is an error return otherwise.
  lemma SpecTruncation<Q(!new)>(qc: QuantityCodec<Q>, s: Spec<Q>, p: bytes, m: Spec<Q>)
    requires RoundTrips(qc) && |EncSpec(qc, s)| <= MAX_INT && p <= EncSpec(qc, s)
    ensures Decode(SpecSchema(qc), p, 0, m).Ok? <==>
            exists k :: 0 <= k <= |SpecTail(qc, s, 0)| && p == EncAll(SpecTail(qc, s, 0)[..k])
    ensures Decode(SpecSchema(qc), p, 0, m).Ok? || Decode(SpecSchema(qc), p, 0, m) == Err
  {
    hide RoundTrips, SpecSchema, SpecTail, WellFormed, Fold, EncAll;
    SpecMerges(qc, m, s);
    SpecStable(qc);
    hide Stable;
    TruncationDetected(SpecSchema(qc), SpecTail(qc, s, 0), p, m);
  }

  // ---- ProjectStatus ----

  function MergeStatus<Q>(qc: QuantityCodec<Q>, m: Status<Q>, s: Status<Q>): Status<Q> {
    Status(
      if s.locked.Some? then s.locked else m.locked,
      s.phase,
      Union(m.clusters, NormedClusters(qc, s.clusters)),
      AppendAll(m.childProjects, Elems(s.childProjects)),
      AppendAll(m.namespaces, Elems(s.namespaces)))
  }

  function StatusUpto<Q>(qc: QuantityCodec<Q>, m: Status<Q>, s: Status<Q>, k: nat): Status<Q> {
    var n := MergeStatus(qc, m, s);
    Status(
      if k > 0 then n.locked else m.locked,
      if k > 1 then n.phase else m.phase,
      if k > 2 then n.clusters else m.clusters,
      if k > 3 then n.childProjects else m.childProjects,
      if k > 4 then n.namespaces else m.namespaces)
  }

  lemma {:induction false} FoldStatusList<Q>(qc: QuantityCodec<Q>, tag: byte, ss: seq<bytes>, m: Status<Q>)
    requires tag == 0x22 || tag == 0x2a
    ensures Fold(StatusSchema(qc), Strs(tag, ss), m)
            == Ok(if tag == 0x22 then m.(childProjects := AppendAll(m.childProjects, ss))
                  else m.(namespaces := AppendAll(m.namespaces, ss)))
  {
    if ss == [] {
      FoldNone(StatusSchema(qc), Strs(tag, ss), m);
    } else {
      var m' := if tag == 0x22 then m.(childProjects := Append(m.childProjects, ss[0]))
                else m.(namespaces := Append(m.namespaces, ss[0]));
      ApplyStr(StatusSchema(qc), tag, ss[0], m);
      hide *;
      StrsHead(tag, ss);
      FoldCons(StatusSchema(qc), Str(tag, ss[0]), Strs(tag, ss[1..]), m);
      FoldStatusList(qc, tag, ss[1..], m');
      AppendAllStep(m.childProjects, ss);
      AppendAllStep(m.namespaces, ss);
    }
  }

  lemma FoldPhase<Q>(qc: QuantityCodec<Q>, s: bytes, m: Status<Q>)
    ensures Fold(StatusSchema(qc), [Str(0x12, s)], m) == Ok(m.(phase := s))
  {
    ApplyStr(StatusSchema(qc), 0x12, s, m);
    hide Apply, Str;
    FoldOne(StatusSchema(qc), Str(0x12, s), m);
  }

  lemma FoldLocked<Q>(qc: QuantityCodec<Q>, locked: Option<bool>, m: Status<Q>)
    ensures Fold(StatusSchema(qc), LockedRecords(locked), m)
            == Ok(if locked.Some? then m.(locked := locked) else m)
  {
    if locked.Some? {
      var v: uint64 := if locked.value then 1 else 0;
      assert StatusSchema(qc)(1).put(m, v) == m.(locked := Some(ToInt64(v) != 0));
      ApplyNum(StatusSchema(qc), 0x08, v, m);
      hide Apply, Num;
      FoldOne(StatusSchema(qc), Num(0x08, v), m);
    } else {
      FoldNone(StatusSchema(qc), LockedRecords(locked), m);
    }
  }

  lemma FoldStatusPart<Q(!new)>(qc: QuantityCodec<Q>, m0: Status<Q>, s: Status<Q>, k: nat)
    requires RoundTrips(qc) && k < 5 && |EncAll(StatusPart(qc, s, k))| <= MAX_INT
    ensures Fold(StatusSchema(qc), StatusPart(qc, s, k), StatusUpto(qc, m0, s, k)) == Ok(StatusUpto(qc, m0, s, k + 1))
  {
    hide Fold, Str, Num, Strs, StatusSchema, AppendAll, Elems, Union, Entries, HardEncoder, RoundTrips, EncAll,
        NormHardFn;
    var m := StatusUpto(qc, m0, s, k);
    match k
    case 0 => FoldLocked(qc, s.locked, m);
    case 1 => FoldPhase(qc, s.phase, m);
    case 2 => StatusClustersAnyOrder(qc, KeyOrder(MapOf(s.clusters).Keys), MapOf(s.clusters), m);
    case 3 => FoldStatusList(qc, 0x22, Elems(s.childProjects), m);
    case 4 => FoldStatusList(qc, 0x2a, Elems(s.namespaces), m);
  }

  lemma StatusPartWellFormed<Q(!new)>(qc: QuantityCodec<Q>, s: Status<Q>, k: nat)
    requires k < 5 && |EncAll(StatusPart(qc, s, k))| <= MAX_INT
    ensures WellFormedAll(StatusPart(qc, s, k))
  {
    hide Entries, HardEncoder, EncVarint, WellFormed;
    match k
    case 0 =>
      NumWellFormed(0x08, if s.locked == Some(true) then 1 else 0);
    case 1 => StrFits(0x12, s.phase);
    case 2 => EntriesWellFormed(0x1a, KeyOrder(MapOf(s.clusters).Keys), MapOf(s.clusters), HardEncoder(qc));
    case 3 => StrsFit(0x22, Elems(s.childProjects));
    case 4 => StrsFit(0x2a, Elems(s.namespaces));
  }

  lemma {:induction false} StatusTailMeaning<Q(!new)>(qc: QuantityCodec<Q>, m: Status<Q>, s: Status<Q>, k: nat)
    requires RoundTrips(qc) && k <= 5 && |EncAll(StatusTail(qc, s, k))| <= MAX_INT
    ensures WellFormedAll(StatusTail(qc, s, k))
    ensures Fold(StatusSchema(qc), StatusTail(qc, s, k), StatusUpto(qc, m, s, k)) == Ok(MergeStatus(qc, m, s))
    decreases 5 - k
  {
    hide StatusPart, EncAll, RoundTrips, WellFormed, StatusSchema, MergeStatus;
    if k < 5 {
      EncAllAppend(StatusPart(qc, s, k), StatusTail(qc, s, k + 1));
      FoldStatusPart(qc, m, s, k);
      StatusPartWellFormed(qc, s, k);
      hide StatusUpto;
      FoldAppend(StatusSchema(qc), StatusPart(qc, s, k), StatusTail(qc, s, k + 1), StatusUpto(qc, m, s, k));
      StatusTailMeaning(qc, m, s, k + 1);
    }
  }

  // Decoding an encoded status into any message merges it in.
  lemma StatusMerges<Q(!new)>(qc: QuantityCodec<Q>, m: Status<Q>, s: Status<Q>)
    requires RoundTrips(qc) && |EncStatus(qc, s)| <= MAX_INT
    ensures WellFormedAll(StatusTail(qc, s, 0)) && Fold(StatusSchema(qc), StatusTail(qc, s, 0), m)
            == Ok(MergeStatus(qc, m, s))
    ensures Decode(StatusSchema(qc), EncStatus(qc, s), 0, m) == Ok(MergeStatus(qc, m, s))
  {
    assert StatusUpto(qc, m, s, 0) == m;
    hide RoundTrips, StatusSchema, StatusTail, WellFormed, Fold, EncAll;
    StatusTailMeaning(qc, m, s, 0);
    StatusStable(qc);
    DecodeRecords(StatusSchema(qc), StatusTail(qc, s, 0), 0, m);
  }

  // Every status comes back from its encoding, with empty slices and maps read
  // back as nil and quantities in their normal form.
  lemma StatusRoundTrip<Q(!new)>(qc: QuantityCodec<Q>, s: Status<Q>)
    requires RoundTrips(qc) && |EncStatus(qc, s)| <= MAX_INT
    ensures Decode(StatusSchema(qc), EncStatus(qc, s), 0, ZeroStatus()) == Ok(NormStatus(qc, s))
  {
    hide RoundTrips;
    StatusMerges(qc, ZeroStatus(), s);
    AppendAllToNil(s.childProjects);
    AppendAllToNil(s.namespaces);
    UnionToNil(s.clusters, NormHardFn(qc));
  }

  // Writing a status that has been stored gives the same bytes.
  lemma StatusNormEncodes<Q(!new)>(qc: QuantityCodec<Q>, s: Status<Q>)
    requires Canonical(qc)
    ensures EncStatus(qc, NormStatus(qc, s)) == EncStatus(qc, s)
  {
    ClustersNormEncode(0x1a, qc, s.clusters);
    hide Canonical, Strs, Str, MapRecords, NormHardFn, HardEncoder, EncAll, LockedRecords;
    StatusTailNorm(qc, s, 0);
  }

  lemma {:induction false} StatusTailNorm<Q(!new)>(qc: QuantityCodec<Q>, s: Status<Q>, k: nat)
    requires ClusterRecords(0x1a, qc, NormStatus(qc, s).clusters) == ClusterRecords(0x1a, qc, s.clusters)
    ensures StatusTail(qc, NormStatus(qc, s), k) == StatusTail(qc, s, k)
    decreases 5 - k
  {
    hide Strs, Str, ClusterRecords, NormHardFn, NormMap, LockedRecords;
    if k < 5 {
      StatusTailNorm(qc, s, k + 1);
    }
  }

  // Statuses with different contents have different encodings, and only those.
  lemma StatusEncodingInjective<Q(!new)>(qc: QuantityCodec<Q>, s: Status<Q>, t: Status<Q>)
    requires RoundTrips(qc) && |EncStatus(qc, s)| <= MAX_INT
    ensures EncStatus(qc, s) == EncStatus(qc, t) ==> NormStatus(qc, s) == NormStatus(qc, t)
    ensures Canonical(qc) ==> (EncStatus(qc, s) == EncStatus(qc, t) <==> NormStatus(qc, s) == NormStatus(qc, t))
  {
    hide *;
    if EncStatus(qc, s) == EncStatus(qc, t) {
      StatusRoundTrip(qc, s);
      StatusRoundTrip(qc, t);
    }
    if Canonical(qc) {
      StatusNormEncodes(qc, s);
      StatusNormEncodes(qc, t);
    }
  }

  // A prefix of an encoded status decodes when the cut falls between two of its
  // records, and is an error return otherwise.
  lemma StatusTruncation<Q(!new)>(qc: QuantityCodec<Q>, s: Status<Q>, p: bytes, m: Status<Q>)
    requires RoundTrips(qc) && |EncStatus(qc, s)| <= MAX_INT && p <= EncStatus(qc, s)
    ensures Decode(StatusSchema(qc), p, 0, m).Ok? <==>
            exists k :: 0 <= k <= |StatusTail(qc, s, 0)| && p == EncAll(StatusTail(qc, s, 0)[..k])
    ensures Decode(StatusSchema(qc), p, 0, m).Ok? || Decode(StatusSchema(qc), p, 0, m) == Err
  {
    hide RoundTrips, StatusSchema, StatusTail, WellFormed, Fold, EncAll;
    StatusMerges(qc, m, s);
    StatusStable(qc);
    hide Stable;
    TruncationDetected(StatusSchema(qc), StatusTail(qc, s, 0), p, m);
  }

  // Encodings of two specs read as one are merged.
  lemma SpecConcat<Q(!new)>(qc: QuantityCodec<Q>, p: Spec<Q>, s: Spec<Q>)
    requires RoundTrips(qc) && |EncSpec(qc, p) + EncSpec(qc, s)| <= MAX_INT
    ensures Decode(SpecSchema(qc), EncSpec(qc, p) + EncSpec(qc, s), 0, ZeroSpec())
            == Ok(MergeSpec(qc, NormSpec(qc, p), s))
  {
    hide *;
    SpecRoundTrip(qc, p);
    SpecMerges(qc, NormSpec(qc, p), s);
    SpecStable(qc);
    DecodeConcat(SpecSchema(qc), EncSpec(qc, p), EncSpec(qc, s), 0, 0, ZeroSpec());
    DecodeMoved(SpecSchema(qc), EncSpec(qc, s), 0, |EncSpec(qc, p)|, NormSpec(qc, p));
  }

  // A record of a field number unknown to the message, inserted between any
  // two records of an encoding, changes nothing.
  lemma SpecUnknownTransparent<Q(!new)>(qc: QuantityCodec<Q>, s: Spec<Q>, k: nat, r: Record, m: Spec<Q>)
    requires RoundTrips(qc) && IsUnknown(SpecSchema(qc), r) && k <= |SpecTail(qc, s, 0)|
    requires |EncAll(SpecTail(qc, s, 0)[..k]) + Enc(r) + EncAll(SpecTail(qc, s, 0)[k..])| <= MAX_INT
    ensures var rs := SpecTail(qc, s, 0);
            Decode(SpecSchema(qc), EncAll(rs[..k]) + Enc(r) + EncAll(rs[k..]), 0, m)
            == Ok(MergeSpec(qc, m, s))
  {
    SpecEncodes(qc, s);
    hide *;
    var rs := SpecTail(qc, s, 0);
    assert rs == rs[..k] + rs[k..];
    EncAllAppend(rs[..k], rs[k..]);
    SpecMerges(qc, m, s);
    SpecStable(qc);
    UnknownInserted(SpecSchema(qc), rs, k, r, m);
  }

  lemma SpecEncodes<Q(!new)>(qc: QuantityCodec<Q>, s: Spec<Q>)
    ensures EncSpec(qc, s) == EncAll(SpecTail(qc, s, 0))
  {
  }

  // Encodings of two statuses read as one are merged.
  lemma StatusConcat<Q(!new)>(qc: QuantityCodec<Q>, p: Status<Q>, s: Status<Q>)
    requires RoundTrips(qc) && |EncStatus(qc, p) + EncStatus(qc, s)| <= MAX_INT
    ensures Decode(StatusSchema(qc), EncStatus(qc, p) + EncStatus(qc, s), 0, ZeroStatus())
            == Ok(MergeStatus(qc, NormStatus(qc, p), s))
  {
    hide *;
    StatusRoundTrip(qc, p);
    StatusMerges(qc, NormStatus(qc, p), s);
    StatusStable(qc);
    DecodeConcat(StatusSchema(qc), EncStatus(qc, p), EncStatus(qc, s), 0, 0, ZeroStatus());
    DecodeMoved(StatusSchema(qc), EncStatus(qc, s), 0, |EncStatus(qc, p)|, NormStatus(qc, p));
  }

  // A record of a field number unknown to the message, inserted between any
  // two records of an encoding, changes nothing.
  lemma StatusUnknownTransparent<Q(!new)>(qc: QuantityCodec<Q>, s: Status<Q>, k: nat, r: Record, m: Status<Q>)
    requires RoundTrips(qc) && IsUnknown(StatusSchema(qc), r) && k <= |StatusTail(qc, s, 0)|
    requires |EncAll(StatusTail(qc, s, 0)[..k]) + Enc(r) + EncAll(StatusTail(qc, s, 0)[k..])| <= MAX_INT
    ensures var rs := StatusTail(qc, s, 0);
            Decode(StatusSchema(qc), EncAll(rs[..k]) + Enc(r) + EncAll(rs[k..]), 0, m)
            == Ok(MergeStatus(qc, m, s))
  {
    StatusEncodes(qc, s);
    hide *;
    var rs := StatusTail(qc, s, 0);
    assert rs == rs[..k] + rs[k..];
    EncAllAppend(rs[..k], rs[k..]);
    StatusMerges(qc, m, s);
    StatusStable(qc);
    UnknownInserted(StatusSchema(qc), rs, k, r, m);
  }

  lemma StatusEncodes<Q(!new)>(qc: QuantityCodec<Q>, s: Status<Q>)
    ensures EncStatus(qc, s) == EncAll(StatusTail(qc, s, 0))
  {
  }
}
