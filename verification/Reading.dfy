// The steps that every generated Unmarshal loop repeats, with the absolute
// indices of the source, and one turn of the loop in those terms.
module Reading {
  import opened Bits
  import opened Wrappers
  import opened Varint
  import opened Wire
  import opened Decoder

  // How an Unmarshal method ends.
  datatype Outcome = Good | Failed | Panicked

  // The end of an Unmarshal method against the outcome of Decode.  The message
  // is compared on success only.
  ghost predicate Agrees<M(!new)>(r: Result<M>, st: Outcome, m: M) {
    match r
    case Ok(m') => st == Good && m == m'
    case Err => st == Failed
    case Panic => st == Panicked
  }

  // Decoding the rest of data from index i.
  function Run<M>(sch: Schema<M>, data: bytes, i: nat, m: M): Result<M>
    requires i <= |data| <= MAX_INT
  {
    Decode(sch, data[i..], i, m)
  }

  // The tag at index i, if acceptable: field number, wire type, end index.
  function TagAt(data: bytes, i: nat): (r: Option<(int, nat, nat)>)
    requires i <= |data|
    ensures r.Some? ==> i < r.value.2 <= |data| && r.value.0 > 0
  {
    match ReadVarint(data[i..])
    case None => None
    case Some((w, n)) =>
      if w % 8 == 4 || FieldNumber(w) <= 0 then None else Some((FieldNumber(w), w % 8, i + n))
  }

  // Start and end index of the payload whose length prefix is at index i.
  function BoundsAt(data: bytes, i: nat): (r: Option<(nat, nat)>)
    requires i <= |data|
    ensures r.Some? ==> i < r.value.0 <= r.value.1 <= |data|
  {
    match PayloadBounds(data[i..])
    case None => None
    case Some((k, e)) => Some((i + k, i + e))
  }

  // End index of the record that starts at index i.
  function SkipAt(data: bytes, i: nat): (r: Option<nat>)
    requires i < |data| <= MAX_INT
    ensures r.Some? ==> i < r.value <= |data|
  {
    match Skip(data[i..])
    case Ok(k) => if k < 0 || i + k > |data| then None else Some(i + k)
    case _ => None
  }

  // The switch on a field whose record starts at i and whose tag ends before
  // next: the new message and the next index.
  function FieldStep<M>(kind: Kind<M>, wireType: nat, data: bytes, i: nat, next: nat, m: M): Result<(M, nat)>
    requires i < next <= |data| <= MAX_INT
  {
    match kind
    case Unknown =>
      (match SkipAt(data, i)
       case Some(e) => Ok((m, e))
       case None => Err)
    case Scalar(put) =>
      if wireType != 0 then Err else
      (match ReadVarintAt(data, next)
       case Ok((v, k)) => Ok((put(m, v), next + k))
       case _ => Err)
    case Delimited(step) =>
      if wireType != 2 then Err else
      match BoundsAt(data, next)
      case None => Err
      case Some((s, e)) =>
        match step(m, s, data[s..e], data[e..])
        case Ok(m') => Ok((m', e))
        case Err => Err
        case Panic => Panic
  }

  // One turn of the loop.
  lemma Turn<M>(sch: Schema<M>, data: bytes, i: nat, m: M)
    requires i < |data| <= MAX_INT
    ensures TagAt(data, i).None? ==> Run(sch, data, i, m) == Err
    ensures TagAt(data, i).Some? ==>
              var (f, wireType, next) := TagAt(data, i).value;
              var r := FieldStep(sch(f), wireType, data, i, next, m);
              && (r.Err? ==> Run(sch, data, i, m) == Err)
              && (r.Panic? ==> Run(sch, data, i, m) == Panic)
              && (r.Ok? ==> i < r.value.1 <= |data| && Run(sch, data, i, m) == Run(sch, data, r.value.1, r.value.0))
  {
    hide ReadVarint, Skip, FieldNumber, PayloadBounds;
    var s := data[i..];
    TurnStep(sch, data, i, m);
    hide DecodeOne, FieldStep;
    if DecodeOne(sch, s, i, m).Ok? {
      var n := DecodeOne(sch, s, i, m).value.1;
      assert s[n..] == data[i + n..];
    }
  }

  lemma TurnStep<M>(sch: Schema<M>, data: bytes, i: nat, m: M)
    requires i < |data| <= MAX_INT
    ensures TagAt(data, i).None? ==> DecodeOne(sch, data[i..], i, m) == Err
    ensures TagAt(data, i).Some? ==>
              var (f, wireType, next) := TagAt(data, i).value;
              var r := FieldStep(sch(f), wireType, data, i, next, m);
              DecodeOne(sch, data[i..], i, m) == (match r
                                                  case Ok((m', e)) => Ok((m', e - i))
                                                  case Err => Err
                                                  case Panic => Panic)
  {
    hide ReadVarint, Skip, FieldNumber, PayloadBounds;
    if TagAt(data, i).Some? {
      var (f, wireType, next) := TagAt(data, i).value;
      assert data[i..][next - i..] == data[next..];
      if sch(f).Delimited? && BoundsAt(data, next).Some? {
        var (s, e) := BoundsAt(data, next).value;
        assert data[next..][s - next..e - next] == data[s..e];
        assert data[next..][e - next..] == data[e..];
      }
    }
  }

  lemma RunEnds<M>(sch: Schema<M>, data: bytes, m: M)
    requires |data| <= MAX_INT
    ensures Run(sch, data, |data|, m) == Ok(m)
    ensures Run(sch, data, 0, m) == Decode(sch, data, 0, m)
  {
    assert data[|data|..] == [] && data[0..] == data;
  }

  // The two parts of a tag, as the source takes them out of it.
  lemma TagParts(w: uint64)
    ensures TWO32 > 0 && ToInt32(Shr(w, 3) % TWO32) == FieldNumber(w) && And(w, 0x7) == w % 8
  {
    Masks(w);
    hide Shr, And, ToInt32;
  }

  lemma TagCases(data: bytes, i: nat)
    requires i < |data|
    ensures TagAt(data, i) == (match ReadVarintAt(data, i)
                               case Ok((w, n)) =>
                                 if w % 8 == 4 || FieldNumber(w) <= 0 then None
                                 else Some((FieldNumber(w), w % 8, i + n))
                               case _ => None)
  {
    hide ReadVarint, FieldNumber;
  }

  // Read a tag: fieldNum and wireType, and the two checks that follow.
  method ReadTag(data: bytes, i: nat) returns (r: Option<(int, nat, nat)>)
    requires i < |data| <= MAX_INT
    ensures r == TagAt(data, i)
  {
    TagCases(data, i);
    hide *;
    var wire, next := ReadUint64(data, i);
    if !wire.Ok? {
      return None;
    }
    TagParts(wire.value);
    var fieldNum := ToInt32(Shr(wire.value, 3) % TWO32);
    var wireType := And(wire.value, 0x7);
    if wireType == 4 {
      return None;
    }
    if fieldNum <= 0 {
      return None;
    }
    return Some((fieldNum, wireType, next));
  }

  // Read a length and check the payload's bounds.  int(stringLen) and
  // int msglen are the same reading.
  method ReadBounds(data: bytes, i: nat) returns (r: Option<(nat, nat)>)
    requires i <= |data| <= MAX_INT
    ensures r == BoundsAt(data, i)
  {
    hide ReadVarint;
    var length, start := ReadInt64(data, i);
    if !length.Ok? || length.value < 0 {
      return None;
    }
    var postIndex := Wrap64(start + length.value);
    if postIndex < 0 {
      return None;
    }
    if postIndex > |data| {
      return None;
    }
    return Some((start, postIndex));
  }

  // The default branch: skip the record that starts at i.
  method SkipUnknown(data: bytes, i: nat) returns (r: Option<nat>)
    requires i < |data| <= MAX_INT
    ensures r == SkipAt(data, i)
  {
    hide Skip;
    var skippy := SkipGenerated(data[i..]);
    if !skippy.Ok? || skippy.value < 0 {
      return None;
    }
    var next := Wrap64(i + skippy.value);
    if next < 0 {
      return None;
    }
    if next > |data| {
      return None;
    }
    return Some(next);
  }
}
