// When decoding a message with a map is an error return, and what a value that
// decodes contributes.
module MapErrors {
  import opened Bits
  import opened Wrappers
  import opened Decoder
  import opened Fields
  import opened MapField
  import opened Project
  import opened MapLimits
  import opened Meanings

  // The turn that fails.
  lemma {:induction false} ErrFound<M>(sch: Schema<M>, s: bytes, pos: nat, m: M) returns (i: nat)
    requires pos + |s| <= MAX_INT && Decode(sch, s, pos, m).Err?
    ensures i < |s| && Reach(sch, s, pos, m, i).Some?
    ensures DecodeOne(sch, s[i..], pos + i, Reach(sch, s, pos, m, i).value).Err?
    decreases |s|
  {
    hide DecodeOne;
    if DecodeOne(sch, s, pos, m).Err? {
      i := 0;
      assert s[0..] == s;
    } else {
      var (m', n) := DecodeOne(sch, s, pos, m).value;
      var j := ErrFound(sch, s[n..], pos + n, m');
      i := n + j;
      assert s[n..][j..] == s[i..];
    }
  }

  lemma ErrHappens<M>(sch: Schema<M>, s: bytes, pos: nat, m: M, i: nat)
    requires pos + |s| <= MAX_INT && i < |s| && Reach(sch, s, pos, m, i).Some?
    requires DecodeOne(sch, s[i..], pos + i, Reach(sch, s, pos, m, i).value).Err?
    ensures Decode(sch, s, pos, m) == Err
  {
    hide *;
    ReachDecides(sch, s, pos, m, i);
    DecodeTurn(sch, s[i..], pos + i, Reach(sch, s, pos, m, i).value);
  }

  // The entry loop arrives at offset j and fails there: what it finds is
  // broken, or a value that does not decode.
  predicate EntryErrsAt<V>(dec: bytes -> Result<V>, zero: V, rest: bytes, n: nat, pos: nat, j: nat)
    requires n <= |rest| && pos + |rest| <= MAX_INT
  {
    && j < n
    && EntryReach(dec, rest, n, pos, 0, [], zero, j).Some?
    && (ItemAt(rest, n, pos, j).Broken? || (ItemAt(rest, n, pos, j).ValueItem? && dec(ItemAt(rest, n, pos, j).v).Err?))
  }

  lemma {:induction false} EntryErrFound<V>(dec: bytes -> Result<V>, rest: bytes, n: nat, pos: nat, i: nat,
                                           key: bytes, val: V) returns (j: nat)
    requires n <= |rest| && i <= |rest| && pos + |rest| <= MAX_INT
    requires EntryFrom(dec, rest, n, pos, i, key, val).Err?
    ensures i <= j < n && EntryReach(dec, rest, n, pos, i, key, val, j).Some?
    ensures var item := ItemAt(rest, n, pos, j); item.Broken? || (item.ValueItem? && dec(item.v).Err?)
    decreases |rest| - i
  {
    hide ItemAt;
    if EntryStep(dec, rest, n, pos, i, key, val).Err? {
      j := i;
    } else {
      var (i', key', val') := EntryStep(dec, rest, n, pos, i, key, val).value;
      j := EntryErrFound(dec, rest, n, pos, i', key', val');
    }
  }

  // Reading an entry fails exactly when its loop arrives at something broken or
  // at a value that does not decode.
  lemma EntryErrs<V>(dec: bytes -> Result<V>, zero: V, rest: bytes, n: nat, pos: nat)
    requires n <= |rest| && pos + |rest| <= MAX_INT
    ensures DecodeEntry(dec, zero, pos, rest[..n], rest[n..]).Err? <==>
            exists j :: EntryErrsAt(dec, zero, rest, n, pos, j)
  {
    assert rest[..n] + rest[n..] == rest;
    hide EntryFrom, EntryReach, ItemAt;
    if EntryFrom(dec, rest, n, pos, 0, [], zero).Err? {
      var j := EntryErrFound(dec, rest, n, pos, 0, [], zero);
      assert EntryErrsAt(dec, zero, rest, n, pos, j);
    }
    forall j | EntryErrsAt(dec, zero, rest, n, pos, j)
      ensures EntryFrom(dec, rest, n, pos, 0, [], zero).Err?
    {
      EntryReachDecides(dec, rest, n, pos, 0, [], zero, j);
      var (key, val) := EntryReach(dec, rest, n, pos, 0, [], zero, j).value;
      EntryTurn(dec, rest, n, pos, j, key, val);
    }
  }

  predicate MapErrsAt<M, V>(x: MapMessage<M, V>, s: bytes, pos: nat, m: M, i: nat, j: nat)
    requires pos + |s| <= MAX_INT
  {
    && ArrivesAt(x, s, pos, m, i)
    && var (rest, n, p) := EntryPlace(x, s, pos, m, i);
       EntryErrsAt(x.dec, x.zero, rest, n, p, j)
  }

  // The loop arrives at offset i, where no entry of the map stands, and fails.
  predicate OtherErrsAt<M, V>(x: MapMessage<M, V>, s: bytes, pos: nat, m: M, i: nat)
    requires pos + |s| <= MAX_INT
  {
    && i < |s| && Reach(x.schema, s, pos, m, i).Some? && FieldPayload(s[i..], x.field).None?
    && DecodeOne(x.schema, s[i..], pos + i, Reach(x.schema, s, pos, m, i).value).Err?
  }

  lemma MapErrs<M(!new), V(!new)>(x: MapMessage<M, V>, s: bytes, pos: nat, m: M)
    requires Valid(x) && pos + |s| <= MAX_INT
    ensures Decode(x.schema, s, pos, m).Err? <==>
            (exists i, j :: MapErrsAt(x, s, pos, m, i, j)) || (exists i :: OtherErrsAt(x, s, pos, m, i))
  {
    hide Valid, DecodeOne, DecodeEntry, EntryErrsAt, FieldPayload, Reach, EntryPlace, Decode;
    if Decode(x.schema, s, pos, m).Err? {
      var i := ErrFound(x.schema, s, pos, m);
      if FieldPayload(s[i..], x.field).None? {
        assert OtherErrsAt(x, s, pos, m, i);
      } else {
        EntryPlaceTurn(x, s, pos, m, i);
        var (rest, n, p) := EntryPlace(x, s, pos, m, i);
        EntryErrs(x.dec, x.zero, rest, n, p);
        var j :| EntryErrsAt(x.dec, x.zero, rest, n, p, j);
        assert MapErrsAt(x, s, pos, m, i, j);
      }
    }
    forall i | OtherErrsAt(x, s, pos, m, i)
      ensures Decode(x.schema, s, pos, m).Err?
    {
      ErrHappens(x.schema, s, pos, m, i);
    }
    forall i, j | MapErrsAt(x, s, pos, m, i, j)
      ensures Decode(x.schema, s, pos, m).Err?
    {
      EntryPlaceTurn(x, s, pos, m, i);
      var (rest, n, p) := EntryPlace(x, s, pos, m, i);
      EntryErrs(x.dec, x.zero, rest, n, p);
      ErrHappens(x.schema, s, pos, m, i);
    }
  }

  // ProjectSpec.Unmarshal and ProjectStatus.Unmarshal arrive at a cluster entry
  // and, in it, at something broken or at a value that HardQuantity.Unmarshal
  // does not decode from the empty quantities.
  predicate ClusterErrsAt<M, Q>(x: MapMessage<M, Quantities<Q>>, qc: QuantityCodec<Q>, s: bytes, pos: nat, m: M,
                                i: nat, j: nat)
    requires pos + |s| <= MAX_INT
  {
    && ArrivesAt(x, s, pos, m, i)
    && var (rest, n, p) := EntryPlace(x, s, pos, m, i);
       && j < n
       && EntryReach(x.dec, rest, n, p, 0, [], x.zero, j).Some?
       && var item := ItemAt(rest, n, p, j);
          item.Broken? ||
          (item.ValueItem? && |item.v| <= MAX_INT && Decode(HardSchema(qc), item.v, 0, Quantities(Nil)).Err?)
  }

  lemma ClusterErrSame<M, Q(!new)>(x: MapMessage<M, Quantities<Q>>, qc: QuantityCodec<Q>, s: bytes, pos: nat, m: M,
                                   i: nat, j: nat)
    requires pos + |s| <= MAX_INT && x.dec == HardDecoder(qc)
    ensures MapErrsAt(x, s, pos, m, i, j) <==> ClusterErrsAt(x, qc, s, pos, m, i, j)
  {
    hide ArrivesAt, EntryPlace, HardDecoder, ItemAt, EntryReach, Decode, HardSchema;
    if ArrivesAt(x, s, pos, m, i) {
      var (rest, n, p) := EntryPlace(x, s, pos, m, i);
      if j < n && ItemAt(rest, n, p, j).ValueItem? {
        var o := ValueOffset(rest, n, p, j);
        HardDecoderIs(qc, ItemAt(rest, n, p, j).v);
      }
    }
  }

  lemma SpecErrs<Q(!new)>(qc: QuantityCodec<Q>, s: bytes, pos: nat, m: Spec<Q>)
    requires pos + |s| <= MAX_INT
    ensures var x := SpecMap(qc);
            Decode(SpecSchema(qc), s, pos, m).Err? <==>
            (exists i, j :: ClusterErrsAt(x, qc, s, pos, m, i, j)) || (exists i :: OtherErrsAt(x, s, pos, m, i))
  {
    SpecIsMap(qc);
    var x := SpecMap(qc);
    assert x.schema == SpecSchema(qc) && x.dec == HardDecoder(qc);
    hide *;
    MapErrs(x, s, pos, m);
    forall i: nat, j: nat
      ensures MapErrsAt(x, s, pos, m, i, j) <==> ClusterErrsAt(x, qc, s, pos, m, i, j)
    {
      ClusterErrSame(x, qc, s, pos, m, i, j);
    }
  }

  lemma StatusErrs<Q(!new)>(qc: QuantityCodec<Q>, s: bytes, pos: nat, m: Status<Q>)
    requires pos + |s| <= MAX_INT
    ensures var x := StatusMap(qc);
            Decode(StatusSchema(qc), s, pos, m).Err? <==>
            (exists i, j :: ClusterErrsAt(x, qc, s, pos, m, i, j)) || (exists i :: OtherErrsAt(x, s, pos, m, i))
  {
    StatusIsMap(qc);
    var x := StatusMap(qc);
    assert x.schema == StatusSchema(qc) && x.dec == HardDecoder(qc);
    hide *;
    MapErrs(x, s, pos, m);
    forall i: nat, j: nat
      ensures MapErrsAt(x, s, pos, m, i, j) <==> ClusterErrsAt(x, qc, s, pos, m, i, j)
    {
      ClusterErrSame(x, qc, s, pos, m, i, j);
    }
  }

  // A value that decodes is the value with which the entry loop goes on, in
  // place of any value read before; the key stays.
  lemma ClusterValueKept<Q(!new)>(qc: QuantityCodec<Q>, rest: bytes, n: nat, p: nat, j: nat, h: Quantities<Q>)
    requires j < n <= |rest| && p + |rest| <= MAX_INT
    requires EntryReach(HardDecoder(qc), rest, n, p, 0, [], ZeroHard(), j).Some?
    requires ItemAt(rest, n, p, j).ValueItem? && |ItemAt(rest, n, p, j).v| <= MAX_INT
    requires Decode(HardSchema(qc), ItemAt(rest, n, p, j).v, 0, Quantities(Nil)) == Ok(h)
    ensures EntryReach(HardDecoder(qc), rest, n, p, 0, [], ZeroHard(), ItemAt(rest, n, p, j).next)
            == Some((EntryReach(HardDecoder(qc), rest, n, p, 0, [], ZeroHard(), j).value.0, h))
  {
    HardDecoderIs(qc, ItemAt(rest, n, p, j).v);
    hide *;
    var (key, val) := EntryReach(HardDecoder(qc), rest, n, p, 0, [], ZeroHard(), j).value;
    StepOfItem(HardDecoder(qc), rest, n, p, j, key, val);
    ReachOneMore(HardDecoder(qc), rest, n, p, 0, [], ZeroHard(), j);
  }

  lemma {:induction false} ReachOneMore<V>(dec: bytes -> Result<V>, rest: bytes, n: nat, pos: nat, i: nat,
                                          key: bytes, val: V, j: nat)
    requires n <= |rest| && i <= |rest| && pos + |rest| <= MAX_INT && j < n
    requires EntryReach(dec, rest, n, pos, i, key, val, j).Some?
    ensures var (k, v) := EntryReach(dec, rest, n, pos, i, key, val, j).value;
            var r := EntryStep(dec, rest, n, pos, j, k, v);
            r.Ok? ==> EntryReach(dec, rest, n, pos, i, key, val, r.value.0) == Some((r.value.1, r.value.2))
    decreases |rest| - i
  {
    hide EntryStep;
    if i != j {
      var (i', key', val') := EntryStep(dec, rest, n, pos, i, key, val).value;
      ReachOneMore(dec, rest, n, pos, i', key', val', j);
      assert EntryReach(dec, rest, n, pos, i', key', val', j).Some?;
      ReachForward(dec, rest, n, pos, i', key', val', j);
    }
  }

  lemma ReachForward<V>(dec: bytes -> Result<V>, rest: bytes, n: nat, pos: nat, i: nat, key: bytes, val: V, j: nat)
    requires n <= |rest| && i <= |rest| && pos + |rest| <= MAX_INT
    requires EntryReach(dec, rest, n, pos, i, key, val, j).Some?
    ensures i <= j
  {
  }
}
