// The generated methods of ProjectSpec and ProjectStatus, and their defaults.
module ProjectCodec {
  import opened Bits
  import opened Wrappers
  import opened Varint
  import opened Wire
  import opened Decoder
  import opened Fields
  import opened Reading
  import opened MapField
  import opened MapLoops
  import opened Project
  import opened Clusters
  import opened Defaults

  class ProjectSpec<Q(!new)> {
    var finalizers: Nilable<seq<bytes>>
    var tenantID: bytes
    var displayName: bytes
    var members: Nilable<seq<bytes>>
    var parentProjectName: bytes
    var clusters: Nilable<map<bytes, Quantities<Q>>>

    constructor (s: Spec<Q>)
      ensures Contents() == s
    {
      finalizers, tenantID, displayName := s.finalizers, s.tenantID, s.displayName;
      members, parentProjectName, clusters := s.members, s.parentProjectName, s.clusters;
    }

    function Contents(): Spec<Q>
      reads this
    {
      Spec(finalizers, tenantID, displayName, members, parentProjectName, clusters)
    }

    method Size(qc: QuantityCodec<Q>) returns (n: nat)
      requires |EncSpec(qc, Contents())| <= MAX_INT
      ensures n == |EncSpec(qc, Contents())|
    {
      SpecFits(qc, Contents());
      StrSize(0x12, tenantID);
      StrSize(0x1a, displayName);
      StrSize(0x2a, parentProjectName);
      hide EncSpec, SpecTail, SpecPart, Strs, MapRecords, HardEncoder, EncAll, Sov, Enc, Str;
      n := 0;
      var s := SizeStrs(0x0a, Elems(finalizers));
      n := n + s;
      var l := |tenantID|;
      n := n + 1 + l + Sov(l);
      l := |displayName|;
      n := n + 1 + l + Sov(l);
      s := SizeStrs(0x22, Elems(members));
      n := n + s;
      l := |parentProjectName|;
      n := n + 1 + l + Sov(l);
      s := SizeClusters(0x32, qc, MapOf(clusters));
      n := n + s;
    }

    // The slice dAtA[:end] of the source.
    method MarshalToSizedBuffer(qc: QuantityCodec<Q>, dAtA: array<byte>, end: nat) returns (n: nat)
      requires |EncSpec(qc, Contents())| <= end <= dAtA.Length <= MAX_INT
      modifies dAtA
      ensures Contents() == old(Contents()) && n == |EncSpec(qc, Contents())|
      ensures Written(old(dAtA[..]), dAtA[..], end - n, end, EncSpec(qc, Contents()))
    {
      ghost var q, a := Contents(), dAtA[..];
      SpecFits(qc, q);
      hide Written, SpecPart, SpecTail, EncSpec, Strs, MapRecords, HardEncoder, EncAll, Enc, Str;
      WrittenNone(a, end);
      var i := end;
      i := PutClusters(dAtA, i, 0x32, qc, MapOf(clusters), a, end, EncAll(SpecTail(qc, q, 6)));
      i := PutBytes(dAtA, i, 0x2a, parentProjectName, a, end, EncAll(SpecTail(qc, q, 5)));
      i := PutStrs(dAtA, i, 0x22, Elems(members), a, end, EncAll(SpecTail(qc, q, 4)));
      i := PutBytes(dAtA, i, 0x1a, displayName, a, end, EncAll(SpecTail(qc, q, 3)));
      i := PutBytes(dAtA, i, 0x12, tenantID, a, end, EncAll(SpecTail(qc, q, 2)));
      i := PutStrs(dAtA, i, 0x0a, Elems(finalizers), a, end, EncAll(SpecTail(qc, q, 1)));
      WrittenRoom(a, dAtA[..], i, end, EncSpec(qc, q));
      return end - i;
    }

    // dAtA[:n] is the whole buffer, and the buffer is the encoding.
    method Marshal(qc: QuantityCodec<Q>) returns (r: bytes)
      requires |EncSpec(qc, Contents())| <= MAX_INT
      ensures r == EncSpec(qc, Contents())
    {
      hide EncSpec, Written;
      var size := Size(qc);
      var dAtA := new byte[size](_ => 0);
      ghost var a := dAtA[..];
      var n := MarshalToSizedBuffer(qc, dAtA, size);
      WrittenWhole(a, dAtA[..], size - n, EncSpec(qc, Contents()));
      return dAtA[..n];
    }

    method Unmarshal(qc: QuantityCodec<Q>, data: bytes) returns (st: Outcome)
      requires |data| <= MAX_INT
      modifies this
      ensures Agrees(Decode(SpecSchema(qc), data, 0, old(Contents())), st, Contents())
    {
      hide Run, TagAt, BoundsAt, SkipAt, Decode, SpecSchema, FieldStep;
      ghost var m0 := Contents();
      RunEnds(SpecSchema(qc), data, m0);
      var i := 0;
      while i < |data|
        invariant 0 <= i <= |data|
        invariant Run(SpecSchema(qc), data, i, Contents()) == Run(SpecSchema(qc), data, 0, m0)
      {
        Turn(SpecSchema(qc), data, i, Contents());
        var tag := ReadTag(data, i);
        if tag.None? {
          return Failed;
        }
        var (fieldNum, wireType, next) := tag.value;
        st, i := Field(qc, data, i, fieldNum, wireType, next);
        if st != Good {
          return;
        }
      }
      RunEnds(SpecSchema(qc), data, Contents());
      return Good;
    }

    // The switch of Unmarshal on the field number.
    method Field(qc: QuantityCodec<Q>, data: bytes, preIndex: nat, fieldNum: int, wireType: nat, next: nat)
      returns (st: Outcome, i: nat)
      requires preIndex < next <= |data| <= MAX_INT
      modifies this
      ensures match FieldStep(SpecSchema(qc)(fieldNum), wireType, data, preIndex, next, old(Contents()))
              case Ok((m, e)) => st == Good && Contents() == m && i == e
              case Err => st == Failed
              case Panic => st == Panicked
    {
      SpecCases(qc, fieldNum, wireType, data, preIndex, next, Contents());
      hide BoundsAt, SkipAt, SpecSchema, FieldStep, EntryOutcome, HardDecoder, Decode;
      i := next;
      if 1 <= fieldNum <= 6 {
        if wireType != 2 {
          return Failed, i;
        }
        var bounds := ReadBounds(data, i);
        if bounds.None? {
          return Failed, i;
        }
        var (start, postIndex) := bounds.value;
        match fieldNum {
          case 1 => finalizers := Append(finalizers, data[start..postIndex]);
          case 2 => tenantID := data[start..postIndex];
          case 3 => displayName := data[start..postIndex];
          case 4 => members := Append(members, data[start..postIndex]);
          case 5 => parentProjectName := data[start..postIndex];
          case _ =>
            var k, v;
            st, k, v := ReadCluster(qc, data, start, postIndex);
            if st != Good {
              return st, i;
            }
            clusters := Put(clusters, k, v);
        }
        return Good, postIndex;
      }
      var skipped := SkipUnknown(data, preIndex);
      if skipped.None? {
        return Failed, i;
      }
      return Good, skipped.value;
    }

    // SetDefaults_ProjectSpec
    method SetDefaults()
      modifies this
      ensures finalizers == old(finalizers) && tenantID == old(tenantID) && displayName == old(displayName)
      ensures parentProjectName == old(parentProjectName)
      ensures old(members) != Nil ==> members == old(members)
      ensures old(members) == Nil ==> members == Made([])
      ensures old(clusters) != Nil ==> clusters == old(clusters)
      ensures old(clusters) == Nil ==> clusters == Made(map[])
      ensures Contents() == DefaultSpec(old(Contents()))
    {
      if members.Nil? {
        members := Made([]);
      }
      if clusters.Nil? {
        clusters := Made(map[]);
      }
    }
  }

  // What each part of the encoding is, and that its pieces fit.
  lemma SpecFits<Q(!new)>(qc: QuantityCodec<Q>, s: Spec<Q>)
    requires |EncSpec(qc, s)| <= MAX_INT
    ensures EncAll(SpecTail(qc, s, 6)) == [] && EncSpec(qc, s) == EncAll(SpecTail(qc, s, 0))
    ensures EncAll(SpecTail(qc, s, 5))
            == EncAll(MapRecords(0x32, MapOf(s.clusters), HardEncoder(qc))) + EncAll(SpecTail(qc, s, 6))
    ensures EncAll(SpecTail(qc, s, 4)) == Enc(Str(0x2a, s.parentProjectName)) + EncAll(SpecTail(qc, s, 5))
    ensures EncAll(SpecTail(qc, s, 3)) == EncAll(Strs(0x22, Elems(s.members))) + EncAll(SpecTail(qc, s, 4))
    ensures EncAll(SpecTail(qc, s, 2)) == Enc(Str(0x1a, s.displayName)) + EncAll(SpecTail(qc, s, 3))
    ensures EncAll(SpecTail(qc, s, 1)) == Enc(Str(0x12, s.tenantID)) + EncAll(SpecTail(qc, s, 2))
    ensures EncAll(SpecTail(qc, s, 0)) == EncAll(Strs(0x0a, Elems(s.finalizers))) + EncAll(SpecTail(qc, s, 1))
    ensures |s.tenantID| <= MAX_INT && |s.displayName| <= MAX_INT && |s.parentProjectName| <= MAX_INT
  {
    SpecParts(qc, s);
    hide *;
    SpecPartTail(qc, s, 0);
    SpecPartTail(qc, s, 1);
    SpecPartTail(qc, s, 2);
    SpecPartTail(qc, s, 3);
    SpecPartTail(qc, s, 4);
    SpecPartTail(qc, s, 5);
    EncAllOne(Str(0x12, s.tenantID));
    EncAllOne(Str(0x1a, s.displayName));
    EncAllOne(Str(0x2a, s.parentProjectName));
    EncStr(0x12, s.tenantID);
    EncStr(0x1a, s.displayName);
    EncStr(0x2a, s.parentProjectName);
  }

  lemma SpecParts<Q>(qc: QuantityCodec<Q>, s: Spec<Q>)
    ensures EncAll(SpecTail(qc, s, 6)) == [] && EncSpec(qc, s) == EncAll(SpecTail(qc, s, 0))
    ensures SpecPart(qc, s, 0) == Strs(0x0a, Elems(s.finalizers))
    ensures SpecPart(qc, s, 1) == [Str(0x12, s.tenantID)]
    ensures SpecPart(qc, s, 2) == [Str(0x1a, s.displayName)]
    ensures SpecPart(qc, s, 3) == Strs(0x22, Elems(s.members))
    ensures SpecPart(qc, s, 4) == [Str(0x2a, s.parentProjectName)]
    ensures SpecPart(qc, s, 5) == MapRecords(0x32, MapOf(s.clusters), HardEncoder(qc))
  {
    hide Strs, MapRecords, HardEncoder, Str;
  }

  lemma SpecPartTail<Q(!new)>(qc: QuantityCodec<Q>, s: Spec<Q>, k: nat)
    requires k < 6
    ensures EncAll(SpecTail(qc, s, k)) == EncAll(SpecPart(qc, s, k)) + EncAll(SpecTail(qc, s, k + 1))
  {
    hide SpecPart, EncAll;
    EncAllAppend(SpecPart(qc, s, k), SpecTail(qc, s, k + 1));
  }

  lemma SpecCases<Q>(qc: QuantityCodec<Q>, f: int, wireType: nat, data: bytes, i: nat, next: nat, m: Spec<Q>)
    requires i < next <= |data| <= MAX_INT
    ensures FieldStep(SpecSchema(qc)(f), wireType, data, i, next, m) ==
            if 1 <= f <= 6 then
              if wireType != 2 then Err else
              match BoundsAt(data, next)
              case None => Err
              case Some((s, e)) =>
                if f == 1 then Ok((m.(finalizers := Append(m.finalizers, data[s..e])), e))
                else if f == 2 then Ok((m.(tenantID := data[s..e]), e))
                else if f == 3 then Ok((m.(displayName := data[s..e]), e))
                else if f == 4 then Ok((m.(members := Append(m.members, data[s..e])), e))
                else if f == 5 then Ok((m.(parentProjectName := data[s..e]), e))
                else
                  match EntryOutcome(HardDecoder(qc), ZeroHard(), data, s, e)
                  case Ok((k, v)) => Ok((m.(clusters := Put(m.clusters, k, v)), e))
                  case Err => Err
                  case Panic => Panic
            else
              match SkipAt(data, i)
              case Some(e) => Ok((m, e))
              case None => Err
  {
    hide BoundsAt, SkipAt, DecodeEntry, HardDecoder;
    if f == 6 && BoundsAt(data, next).Some? {
      var (s, e) := BoundsAt(data, next).value;
      assert SpecSchema(qc)(f).step(m, s, data[s..e], data[e..]) == PutSpecCluster(qc, m, s, data[s..e], data[e..]);
    }
  }

  class ProjectStatus<Q(!new)> {
    var locked: Option<bool>
    var phase: bytes
    var clusters: Nilable<map<bytes, Quantities<Q>>>
    var childProjects: Nilable<seq<bytes>>
    var namespaces: Nilable<seq<bytes>>

    constructor (s: Status<Q>)
      ensures Contents() == s
    {
      locked, phase, clusters := s.locked, s.phase, s.clusters;
      childProjects, namespaces := s.childProjects, s.namespaces;
    }

    function Contents(): Status<Q>
      reads this
    {
      Status(locked, phase, clusters, childProjects, namespaces)
    }

    method Size(qc: QuantityCodec<Q>) returns (n: nat)
      requires |EncStatus(qc, Contents())| <= MAX_INT
      ensures n == |EncStatus(qc, Contents())|
    {
      StatusFits(qc, Contents());
      StrSize(0x12, phase);
      hide EncStatus, StatusTail, StatusPart, Strs, MapRecords, HardEncoder, EncAll, Sov, Enc, Str;
      n := 0;
      if locked.Some? {
        n := n + 2;
      }
      var l := |phase|;
      n := n + 1 + l + Sov(l);
      var s := SizeClusters(0x1a, qc, MapOf(clusters));
      n := n + s;
      s := SizeStrs(0x22, Elems(childProjects));
      n := n + s;
      s := SizeStrs(0x2a, Elems(namespaces));
      n := n + s;
    }

    // The slice dAtA[:end] of the source.
    method MarshalToSizedBuffer(qc: QuantityCodec<Q>, dAtA: array<byte>, end: nat) returns (n: nat)
      requires |EncStatus(qc, Contents())| <= end <= dAtA.Length <= MAX_INT
      modifies dAtA
      ensures Contents() == old(Contents()) && n == |EncStatus(qc, Contents())|
      ensures Written(old(dAtA[..]), dAtA[..], end - n, end, EncStatus(qc, Contents()))
    {
      ghost var q, a := Contents(), dAtA[..];
      StatusFits(qc, q);
      hide Written, StatusPart, StatusTail, EncStatus, Strs, MapRecords, HardEncoder, EncAll, Enc, Str, LockedRecords;
      WrittenNone(a, end);
      var i := end;
      i := PutStrs(dAtA, i, 0x2a, Elems(namespaces), a, end, EncAll(StatusTail(qc, q, 5)));
      i := PutStrs(dAtA, i, 0x22, Elems(childProjects), a, end, EncAll(StatusTail(qc, q, 4)));
      i := PutClusters(dAtA, i, 0x1a, qc, MapOf(clusters), a, end, EncAll(StatusTail(qc, q, 3)));
      i := PutBytes(dAtA, i, 0x12, phase, a, end, EncAll(StatusTail(qc, q, 2)));
      i := PutLocked(dAtA, i, locked, a, end, EncAll(StatusTail(qc, q, 1)));
      WrittenRoom(a, dAtA[..], i, end, EncStatus(qc, q));
      return end - i;
    }

    // dAtA[:n] is the whole buffer, and the buffer is the encoding.
    method Marshal(qc: QuantityCodec<Q>) returns (r: bytes)
      requires |EncStatus(qc, Contents())| <= MAX_INT
      ensures r == EncStatus(qc, Contents())
    {
      hide EncStatus, Written;
      var size := Size(qc);
      var dAtA := new byte[size](_ => 0);
      ghost var a := dAtA[..];
      var n := MarshalToSizedBuffer(qc, dAtA, size);
      WrittenWhole(a, dAtA[..], size - n, EncStatus(qc, Contents()));
      return dAtA[..n];
    }

    method Unmarshal(qc: QuantityCodec<Q>, data: bytes) returns (st: Outcome)
      requires |data| <= MAX_INT
      modifies this
      ensures Agrees(Decode(StatusSchema(qc), data, 0, old(Contents())), st, Contents())
    {
      hide Run, TagAt, BoundsAt, SkipAt, Decode, StatusSchema, FieldStep;
      ghost var m0 := Contents();
      RunEnds(StatusSchema(qc), data, m0);
      var i := 0;
      while i < |data|
        invariant 0 <= i <= |data|
        invariant Run(StatusSchema(qc), data, i, Contents()) == Run(StatusSchema(qc), data, 0, m0)
      {
        Turn(StatusSchema(qc), data, i, Contents());
        var tag := ReadTag(data, i);
        if tag.None? {
          return Failed;
        }
        var (fieldNum, wireType, next) := tag.value;
        st, i := Field(qc, data, i, fieldNum, wireType, next);
        if st != Good {
          return;
        }
      }
      RunEnds(StatusSchema(qc), data, Contents());
      return Good;
    }

    // The switch of Unmarshal on the field number.
    method Field(qc: QuantityCodec<Q>, data: bytes, preIndex: nat, fieldNum: int, wireType: nat, next: nat)
      returns (st: Outcome, i: nat)
      requires preIndex < next <= |data| <= MAX_INT
      modifies this
      ensures match FieldStep(StatusSchema(qc)(fieldNum), wireType, data, preIndex, next, old(Contents()))
              case Ok((m, e)) => st == Good && Contents() == m && i == e
              case Err => st == Failed
              case Panic => st == Panicked
    {
      StatusCases(qc, fieldNum, wireType, data, preIndex, next, Contents());
      hide BoundsAt, SkipAt, StatusSchema, FieldStep, EntryOutcome, HardDecoder, Decode, ReadVarintAt, ToInt64;
      i := next;
      if fieldNum == 1 {
        if wireType != 0 {
          return Failed, i;
        }
        var v, e := ReadInt64(data, i);
        if !v.Ok? {
          return Failed, i;
        }
        locked := Some(v.value != 0);
        return Good, e;
      }
      if 2 <= fieldNum <= 5 {
        if wireType != 2 {
          return Failed, i;
        }
        var bounds := ReadBounds(data, i);
        if bounds.None? {
          return Failed, i;
        }
        var (start, postIndex) := bounds.value;
        match fieldNum {
          case 2 => phase := data[start..postIndex];
          case 3 =>
            var k, v;
            st, k, v := ReadCluster(qc, data, start, postIndex);
            if st != Good {
              return st, i;
            }
            clusters := Put(clusters, k, v);
          case 4 => childProjects := Append(childProjects, data[start..postIndex]);
          case _ => namespaces := Append(namespaces, data[start..postIndex]);
        }
        return Good, postIndex;
      }
      var skipped := SkipUnknown(data, preIndex);
      if skipped.None? {
        return Failed, i;
      }
      return Good, skipped.value;
    }

    // SetDefaults_ProjectStatus
    method SetDefaults()
      modifies this
      ensures locked == old(locked)
      ensures old(phase) != [] ==> phase == old(phase)
      ensures old(phase) == [] ==> phase == [0x41, 0x63, 0x74, 0x69, 0x76, 0x65]
      ensures old(childProjects) != Nil ==> childProjects == old(childProjects)
      ensures old(childProjects) == Nil ==> childProjects == Made([])
      ensures old(namespaces) != Nil ==> namespaces == old(namespaces)
      ensures old(namespaces) == Nil ==> namespaces == Made([])
      ensures old(clusters) != Nil ==> clusters == old(clusters)
      ensures old(clusters) == Nil ==> clusters == Made(map[])
      ensures Contents() == DefaultStatus(old(Contents()))
    {
      if phase == [] {
        phase := PROJECT_ACTIVE;
      }
      if childProjects.Nil? {
        childProjects := Made([]);
      }
      if namespaces.Nil? {
        namespaces := Made([]);
      }
      if clusters.Nil? {
        clusters := Made(map[]);
      }
    }
  }

  // The Locked block: one byte 0 or 1, then the tag.
  method PutLocked(dAtA: array<byte>, i: nat, locked: Option<bool>, ghost a: bytes, ghost end: nat, ghost x: bytes)
    returns (j: nat)
    requires Written(a, dAtA[..], i, end, x) && |EncAll(LockedRecords(locked))| + |x| <= end
    modifies dAtA
    ensures Written(a, dAtA[..], j, end, EncAll(LockedRecords(locked)) + x)
  {
    LockedBytes(locked);
    WrittenRoom(a, dAtA[..], i, end, x);
    j := i;
    if locked.Some? {
      ghost var b := dAtA[..];
      j := j - 1;
      if locked.value {
        dAtA[j] := 1;
      } else {
        dAtA[j] := 0;
      }
      j := j - 1;
      dAtA[j] := 0x8;
      assert Written(b, dAtA[..], j, i, [0x8, if locked.value then 1 else 0]);
      hide Written, LockedRecords, EncAll;
      WrittenThen(a, b, dAtA[..], j, i, end, [0x8, if locked.value then 1 else 0], x);
    } else {
      assert [] + x == x;
    }
  }

  lemma LockedBytes(locked: Option<bool>)
    ensures EncAll(LockedRecords(locked)) ==
            (match locked case Some(b) => [0x8, if b then 1 else 0] case None => [])
  {
    if locked.Some? {
      var r := Num(0x08, if locked.value then 1 else 0);
      EncAllOne(r);
      EncNum(0x08, if locked.value then 1 else 0);
    }
  }

  lemma StatusFits<Q(!new)>(qc: QuantityCodec<Q>, s: Status<Q>)
    requires |EncStatus(qc, s)| <= MAX_INT
    ensures EncAll(StatusTail(qc, s, 5)) == [] && EncStatus(qc, s) == EncAll(StatusTail(qc, s, 0))
    ensures EncAll(StatusTail(qc, s, 4)) == EncAll(Strs(0x2a, Elems(s.namespaces))) + EncAll(StatusTail(qc, s, 5))
    ensures EncAll(StatusTail(qc, s, 3)) == EncAll(Strs(0x22, Elems(s.childProjects))) + EncAll(StatusTail(qc, s, 4))
    ensures EncAll(StatusTail(qc, s, 2))
            == EncAll(MapRecords(0x1a, MapOf(s.clusters), HardEncoder(qc))) + EncAll(StatusTail(qc, s, 3))
    ensures EncAll(StatusTail(qc, s, 1)) == Enc(Str(0x12, s.phase)) + EncAll(StatusTail(qc, s, 2))
    ensures EncAll(StatusTail(qc, s, 0)) == EncAll(LockedRecords(s.locked)) + EncAll(StatusTail(qc, s, 1))
    ensures |EncAll(LockedRecords(s.locked))| == if s.locked.Some? then 2 else 0
    ensures |s.phase| <= MAX_INT
  {
    StatusParts(qc, s);
    LockedBytes(s.locked);
    hide *;
    StatusPartTail(qc, s, 0);
    StatusPartTail(qc, s, 1);
    StatusPartTail(qc, s, 2);
    StatusPartTail(qc, s, 3);
    StatusPartTail(qc, s, 4);
    EncAllOne(Str(0x12, s.phase));
    EncStr(0x12, s.phase);
  }

  lemma StatusParts<Q>(qc: QuantityCodec<Q>, s: Status<Q>)
    ensures EncAll(StatusTail(qc, s, 5)) == [] && EncStatus(qc, s) == EncAll(StatusTail(qc, s, 0))
    ensures StatusPart(qc, s, 0) == LockedRecords(s.locked)
    ensures StatusPart(qc, s, 1) == [Str(0x12, s.phase)]
    ensures StatusPart(qc, s, 2) == MapRecords(0x1a, MapOf(s.clusters), HardEncoder(qc))
    ensures StatusPart(qc, s, 3) == Strs(0x22, Elems(s.childProjects))
    ensures StatusPart(qc, s, 4) == Strs(0x2a, Elems(s.namespaces))
  {
    hide Strs, MapRecords, HardEncoder, Str, LockedRecords;
  }

  lemma StatusPartTail<Q(!new)>(qc: QuantityCodec<Q>, s: Status<Q>, k: nat)
    requires k < 5
    ensures EncAll(StatusTail(qc, s, k)) == EncAll(StatusPart(qc, s, k)) + EncAll(StatusTail(qc, s, k + 1))
  {
    hide StatusPart, EncAll;
    EncAllAppend(StatusPart(qc, s, k), StatusTail(qc, s, k + 1));
  }

  lemma StatusCases<Q>(qc: QuantityCodec<Q>, f: int, wireType: nat, data: bytes, i: nat, next: nat, m: Status<Q>)
    requires i < next <= |data| <= MAX_INT
    ensures FieldStep(StatusSchema(qc)(f), wireType, data, i, next, m) ==
            if f == 1 then
              if wireType != 0 then Err else
              match ReadVarintAt(data, next)
              case Ok((v, k)) => Ok((m.(locked := Some(ToInt64(v) != 0)), next + k))
              case _ => Err
            else if 2 <= f <= 5 then
              if wireType != 2 then Err else
              match BoundsAt(data, next)
              case None => Err
              case Some((s, e)) =>
                if f == 2 then Ok((m.(phase := data[s..e]), e))
                else if f == 4 then Ok((m.(childProjects := Append(m.childProjects, data[s..e])), e))
                else if f == 5 then Ok((m.(namespaces := Append(m.namespaces, data[s..e])), e))
                else
                  match EntryOutcome(HardDecoder(qc), ZeroHard(), data, s, e)
                  case Ok((k, v)) => Ok((m.(clusters := Put(m.clusters, k, v)), e))
                  case Err => Err
                  case Panic => Panic
            else
              match SkipAt(data, i)
              case Some(e) => Ok((m, e))
              case None => Err
  {
    hide BoundsAt, SkipAt, DecodeEntry, HardDecoder, ReadVarintAt, ToInt64;
    if f == 3 && BoundsAt(data, next).Some? {
      var (s, e) := BoundsAt(data, next).value;
      assert StatusSchema(qc)(f).step(m, s, data[s..e], data[e..]) == PutStatusCluster(qc, m, s, data[s..e], data[e..]);
    }
  }
}
