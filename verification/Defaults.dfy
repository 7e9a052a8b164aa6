// SetDefaults_ProjectSpec and SetDefaults_ProjectStatus, and what they repair
// after a value has been stored and read back.
module Defaults {
  import opened Bits
  import opened Decoder
  import opened Fields
  import opened MapField
  import opened Project

  // ProjectActive
  const PROJECT_ACTIVE: bytes := [0x41, 0x63, 0x74, 0x69, 0x76, 0x65]

  function OrEmpty<T>(s: Nilable<seq<T>>): Nilable<seq<T>> {
    if s.Nil? then Made([]) else s
  }

  function OrEmptyMap<V>(m: Nilable<map<bytes, V>>): Nilable<map<bytes, V>> {
    if m.Nil? then Made(map[]) else m
  }

  function DefaultSpec<Q>(s: Spec<Q>): Spec<Q> {
    s.(members := OrEmpty(s.members), clusters := OrEmptyMap(s.clusters))
  }

  function DefaultStatus<Q>(s: Status<Q>): Status<Q> {
    s.(phase := if s.phase == [] then PROJECT_ACTIVE else s.phase,
       childProjects := OrEmpty(s.childProjects),
       namespaces := OrEmpty(s.namespaces),
       clusters := OrEmptyMap(s.clusters))
  }

  // What defaulting computes, field by field: what is set is kept, a nil list or
  // map becomes empty, an empty phase becomes Active.
  lemma SpecDefaults<Q>(s: Spec<Q>)
    ensures var d := DefaultSpec(s);
            && d.finalizers == s.finalizers && d.tenantID == s.tenantID && d.displayName == s.displayName
            && d.parentProjectName == s.parentProjectName
            && d.members == (if s.members == Nil then Made([]) else s.members)
            && d.clusters == (if s.clusters == Nil then Made(map[]) else s.clusters)
  {
  }

  lemma StatusDefaults<Q>(s: Status<Q>)
    ensures var d := DefaultStatus(s);
            && d.locked == s.locked
            && d.phase == (if s.phase == [] then [0x41, 0x63, 0x74, 0x69, 0x76, 0x65] else s.phase)
            && d.childProjects == (if s.childProjects == Nil then Made([]) else s.childProjects)
            && d.namespaces == (if s.namespaces == Nil then Made([]) else s.namespaces)
            && d.clusters == (if s.clusters == Nil then Made(map[]) else s.clusters)
  {
  }

  // Defaulting changes nothing exactly when every defaulted field is set; so
  // defaulting twice is defaulting once.
  lemma SpecFixed<Q>(s: Spec<Q>)
    ensures DefaultSpec(s) == s <==> s.members != Nil && s.clusters != Nil
    ensures DefaultSpec(DefaultSpec(s)) == DefaultSpec(s)
  {
  }

  lemma StatusFixed<Q>(s: Status<Q>)
    ensures DefaultStatus(s) == s <==>
            s.phase != [] && s.childProjects != Nil && s.namespaces != Nil && s.clusters != Nil
    ensures DefaultStatus(DefaultStatus(s)) == DefaultStatus(s)
  {
  }

  // Inner maps are never defaulted: they come back up to nil against empty.
  function InnerNorm<Q>(qc: QuantityCodec<Q>, m: Nilable<map<bytes, Quantities<Q>>>)
    : Nilable<map<bytes, Quantities<Q>>>
  {
    if m.Nil? then Nil else Made(NormedClusters(qc, m))
  }

  // What storing and reading back a defaulted spec may change.
  function StoredSpec<Q>(qc: QuantityCodec<Q>, s: Spec<Q>): Spec<Q> {
    s.(finalizers := NormSlice(s.finalizers), clusters := InnerNorm(qc, s.clusters))
  }

  function StoredStatus<Q>(qc: QuantityCodec<Q>, s: Status<Q>): Status<Q> {
    s.(clusters := InnerNorm(qc, s.clusters))
  }

  lemma ClustersRepaired<Q>(qc: QuantityCodec<Q>, m: Nilable<map<bytes, Quantities<Q>>>)
    requires !m.Nil?
    ensures OrEmptyMap(NormMap(m, NormHardFn(qc))) == InnerNorm(qc, m)
    ensures InnerNorm(qc, m).made.Keys == m.made.Keys
  {
    var n := NormedClusters(qc, m);
    assert n.Keys == MapOf(m).Keys;
    assert MapOf(m).Keys == {} <==> MapOf(m) == map[];
    assert n.Keys == {} <==> n == map[];
  }

  // A normal form is its own normal form.
  ghost predicate NormSettles<Q(!new)>(qc: QuantityCodec<Q>) {
    forall q :: qc.norm(qc.norm(q)) == qc.norm(q)
  }

  // So it is when normal forms are written like the originals.
  lemma CanonicalSettles<Q(!new)>(qc: QuantityCodec<Q>)
    requires RoundTrips(qc) && Canonical(qc)
    ensures NormSettles(qc)
  {
    forall q
      ensures qc.norm(qc.norm(q)) == qc.norm(q)
    {
      assert qc.dec(qc.enc(qc.norm(q))) == qc.dec(qc.enc(q));
    }
  }

  lemma InnerNormTwice<Q(!new)>(qc: QuantityCodec<Q>, m: Nilable<map<bytes, Quantities<Q>>>)
    requires NormSettles(qc)
    ensures InnerNorm(qc, InnerNorm(qc, m)) == InnerNorm(qc, m)
  {
    if !m.Nil? {
      var n := InnerNorm(qc, m).made;
      forall k | k in n
        ensures NormHardFn(qc)(n[k]) == n[k]
      {
        NormMapTwice(qc, m.made[k].hard);
      }
      assert NormedClusters(qc, Made(n)) == n;
    }
  }

  lemma NormMapTwice<Q(!new)>(qc: QuantityCodec<Q>, m: Nilable<map<bytes, Q>>)
    requires NormSettles(qc)
    ensures NormMap(NormMap(m, qc.norm), qc.norm) == NormMap(m, qc.norm)
  {
    if MapOf(m) != map[] {
      var n := Normed(MapOf(m), qc.norm);
      assert Normed(n, qc.norm) == n;
      assert n.Keys == MapOf(m).Keys;
    }
  }

  // Defaulting repairs what encoding loses: default, encode, decode and
  // default again gives back the defaulted spec, with only Finalizers and the
  // inner maps up to nil against empty, and quantities in their normal form.
  lemma SpecDefaultsRepair<Q(!new)>(qc: QuantityCodec<Q>, s: Spec<Q>)
    requires RoundTrips(qc) && |EncSpec(qc, DefaultSpec(s))| <= MAX_INT
    ensures var d := DefaultSpec(s);
            var r := Decode(SpecSchema(qc), EncSpec(qc, d), 0, ZeroSpec());
            && r.Ok?
            && DefaultSpec(r.value) == StoredSpec(qc, d)
            && DefaultSpec(r.value).members == d.members
            && (DefaultSpec(r.value).clusters.made.Keys == d.clusters.made.Keys)
  {
    var d := DefaultSpec(s);
    hide RoundTrips, EncSpec, SpecSchema, Decode;
    SpecRoundTrip(qc, d);
    ClustersRepaired(qc, d.clusters);
  }

  lemma StatusDefaultsRepair<Q(!new)>(qc: QuantityCodec<Q>, s: Status<Q>)
    requires RoundTrips(qc) && |EncStatus(qc, DefaultStatus(s))| <= MAX_INT
    ensures var d := DefaultStatus(s);
            var r := Decode(StatusSchema(qc), EncStatus(qc, d), 0, ZeroStatus());
            && r.Ok?
            && DefaultStatus(r.value) == StoredStatus(qc, d)
            && DefaultStatus(r.value).(clusters := d.clusters) == d
            && (DefaultStatus(r.value).clusters.made.Keys == d.clusters.made.Keys)
  {
    var d := DefaultStatus(s);
    hide RoundTrips, EncStatus, StatusSchema, Decode;
    StatusRoundTrip(qc, d);
    ClustersRepaired(qc, d.clusters);
  }

  // What has been stored is written like the original.
  lemma StoredSpecEncodes<Q(!new)>(qc: QuantityCodec<Q>, s: Spec<Q>)
    requires RoundTrips(qc) && Canonical(qc)
    ensures EncSpec(qc, StoredSpec(qc, s)) == EncSpec(qc, s)
  {
    SpecNormEncodes(qc, s);
    SpecNormEncodes(qc, StoredSpec(qc, s));
    CanonicalSettles(qc);
    StoredClusters(qc, s.clusters);
    hide EncSpec, RoundTrips, Canonical, InnerNorm, NormMap, NormHardFn, NormSettles;
    assert NormSpec(qc, StoredSpec(qc, s)) == NormSpec(qc, s);
  }

  lemma StoredStatusEncodes<Q(!new)>(qc: QuantityCodec<Q>, s: Status<Q>)
    requires RoundTrips(qc) && Canonical(qc)
    ensures EncStatus(qc, StoredStatus(qc, s)) == EncStatus(qc, s)
  {
    StatusNormEncodes(qc, s);
    StatusNormEncodes(qc, StoredStatus(qc, s));
    CanonicalSettles(qc);
    StoredClusters(qc, s.clusters);
    hide EncStatus, RoundTrips, Canonical, InnerNorm, NormMap, NormHardFn, NormSettles;
    assert NormStatus(qc, StoredStatus(qc, s)) == NormStatus(qc, s);
  }

  lemma StoredClusters<Q(!new)>(qc: QuantityCodec<Q>, m: Nilable<map<bytes, Quantities<Q>>>)
    requires NormSettles(qc)
    ensures NormMap(InnerNorm(qc, m), NormHardFn(qc)) == NormMap(m, NormHardFn(qc))
  {
    hide NormSettles, NormHardFn;
    if !m.Nil? {
      InnerNormTwice(qc, m);
      ClustersRepaired(qc, m);
      assert InnerNorm(qc, m).made.Keys == {} <==> InnerNorm(qc, m).made == map[];
      assert MapOf(m).Keys == {} <==> MapOf(m) == map[];
    }
  }

  // Hence storing again changes nothing: default after decode after encode is
  // idempotent on defaulted objects, when normal forms of quantities settle.
  lemma SpecStoredTwice<Q(!new)>(qc: QuantityCodec<Q>, s: Spec<Q>)
    requires RoundTrips(qc) && NormSettles(qc) && |EncSpec(qc, StoredSpec(qc, DefaultSpec(s)))| <= MAX_INT
    ensures var once := StoredSpec(qc, DefaultSpec(s));
            var r := Decode(SpecSchema(qc), EncSpec(qc, once), 0, ZeroSpec());
            r.Ok? && DefaultSpec(r.value) == once
  {
    var once := StoredSpec(qc, DefaultSpec(s));
    assert DefaultSpec(once) == once;
    InnerNormTwice(qc, DefaultSpec(s).clusters);
    hide RoundTrips, NormSettles, EncSpec, SpecSchema, Decode;
    SpecDefaultsRepair(qc, once);
  }

  // In particular when they are written like the originals; then the stored
  // object is also no longer than the defaulted one.
  lemma SpecStorageIdempotent<Q(!new)>(qc: QuantityCodec<Q>, s: Spec<Q>)
    requires RoundTrips(qc) && Canonical(qc) && |EncSpec(qc, DefaultSpec(s))| <= MAX_INT
    ensures |EncSpec(qc, StoredSpec(qc, DefaultSpec(s)))| <= MAX_INT
    ensures var once := StoredSpec(qc, DefaultSpec(s));
            var r := Decode(SpecSchema(qc), EncSpec(qc, once), 0, ZeroSpec());
            r.Ok? && DefaultSpec(r.value) == once
  {
    hide *;
    CanonicalSettles(qc);
    StoredSpecEncodes(qc, DefaultSpec(s));
    SpecStoredTwice(qc, s);
  }

  lemma StatusStoredTwice<Q(!new)>(qc: QuantityCodec<Q>, s: Status<Q>)
    requires RoundTrips(qc) && NormSettles(qc) && |EncStatus(qc, StoredStatus(qc, DefaultStatus(s)))| <= MAX_INT
    ensures var once := StoredStatus(qc, DefaultStatus(s));
            var r := Decode(StatusSchema(qc), EncStatus(qc, once), 0, ZeroStatus());
            r.Ok? && DefaultStatus(r.value) == once
  {
    var once := StoredStatus(qc, DefaultStatus(s));
    assert DefaultStatus(once) == once;
    InnerNormTwice(qc, DefaultStatus(s).clusters);
    hide RoundTrips, NormSettles, EncStatus, StatusSchema, Decode;
    StatusDefaultsRepair(qc, once);
  }

  lemma StatusStorageIdempotent<Q(!new)>(qc: QuantityCodec<Q>, s: Status<Q>)
    requires RoundTrips(qc) && Canonical(qc) && |EncStatus(qc, DefaultStatus(s))| <= MAX_INT
    ensures |EncStatus(qc, StoredStatus(qc, DefaultStatus(s)))| <= MAX_INT
    ensures var once := StoredStatus(qc, DefaultStatus(s));
            var r := Decode(StatusSchema(qc), EncStatus(qc, once), 0, ZeroStatus());
            r.Ok? && DefaultStatus(r.value) == once
  {
    hide *;
    CanonicalSettles(qc);
    StoredStatusEncodes(qc, DefaultStatus(s));
    StatusStoredTwice(qc, s);
  }
}
