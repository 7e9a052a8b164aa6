// The tag-dispatching decoder, once for all messages: a schema says what each
// field number does, and Decode is what the generated Unmarshal loops compute.
module Decoder {
  import opened Bits
  import opened Wrappers
  import opened Varint
  import opened Wire

  // What the switch on the field number does with a field.
  //   Scalar:    require wire type 0 and store the varint.
  //   Delimited: require wire type 2 and hand over the payload.  step receives
  //              the message, the index of the payload in the message's slice,
  //              the payload, and the rest of the slice after it.
  datatype Kind<!M> =
    | Unknown
    | Scalar(put: (M, uint64) -> M)
    | Delimited(step: (M, nat, bytes, bytes) -> Result<M>)

  type Schema<!M> = int -> Kind<M>

  // One turn of the Unmarshal loop at index pos, s being the rest of the slice:
  // the new message and the number of bytes consumed.
  function DecodeOne<M>(sch: Schema<M>, s: bytes, pos: nat, m: M): (r: Result<(M, nat)>)
    requires pos + |s| <= MAX_INT
    ensures r.Ok? ==> 1 <= r.value.1 <= |s|
  {
    match ReadVarint(s)
    case None => Err
    case Some((w, n)) =>
      if w % 8 == 4 || FieldNumber(w) <= 0 then Err
      else Dispatch(sch(FieldNumber(w)), w % 8, s, pos, n, m)
  }

  // The switch on the field, after a tag of n bytes.
  function Dispatch<M>(kind: Kind<M>, wireType: nat, s: bytes, pos: nat, n: nat, m: M): (r: Result<(M, nat)>)
    requires 1 <= n <= |s| && pos + |s| <= MAX_INT
    ensures r.Ok? ==> 1 <= r.value.1 <= |s|
  {
    match kind
    case Unknown => DecodeUnknown(s, m)
    case Scalar(put) => if wireType != 0 then Err else DecodeScalar(put, s[n..], n, m)
    case Delimited(step) => if wireType != 2 then Err else DecodeDelimited(step, s[n..], pos + n, n, m)
  }

  function DecodeUnknown<M>(s: bytes, m: M): (r: Result<(M, nat)>)
    requires 0 < |s| <= MAX_INT
    ensures r.Ok? ==> 1 <= r.value.1 <= |s|
  {
    match Skip(s)
    case Ok(k) => if k < 0 || k > |s| then Err else Ok((m, k))
    case _ => Err
  }

  // s starts after a tag of n bytes.
  function DecodeScalar<M>(put: (M, uint64) -> M, s: bytes, n: nat, m: M): (r: Result<(M, nat)>)
    ensures r.Ok? ==> n < r.value.1 <= n + |s|
  {
    match ReadVarint(s)
    case Some((v, k)) => Ok((put(m, v), n + k))
    case None => Err
  }

  // The length prefix of a payload: where the payload starts and ends in s.
  function PayloadBounds(s: bytes): (r: Option<(nat, nat)>)
    ensures r.Some? ==> 1 <= r.value.0 <= r.value.1 <= |s|
  {
    match ReadVarint(s)
    case None => None
    case Some((v, k)) =>
      if ToInt64(v) < 0 || k + ToInt64(v) > |s| then None else Some((k, k + ToInt64(v)))
  }

  function DecodeDelimited<M>(step: (M, nat, bytes, bytes) -> Result<M>, s: bytes, pos: nat, n: nat, m: M)
    : (r: Result<(M, nat)>)
    ensures r.Ok? ==> n < r.value.1 <= n + |s|
  {
    match PayloadBounds(s)
    case None => Err
    case Some((k, e)) =>
      match step(m, pos + k, s[k..e], s[e..])
      case Ok(m') => Ok((m', n + e))
      case Err => Err
      case Panic => Panic
  }

  // The whole loop.
  function Decode<M>(sch: Schema<M>, s: bytes, pos: nat, m: M): Result<M>
    requires pos + |s| <= MAX_INT
    decreases |s|
  {
    if s == [] then Ok(m) else
    match DecodeOne(sch, s, pos, m)
    case Ok((m', n)) => Decode(sch, s[n..], pos + n, m')
    case Err => Err
    case Panic => Panic
  }

  lemma DecodeTurn<M>(sch: Schema<M>, s: bytes, pos: nat, m: M)
    requires s != [] && pos + |s| <= MAX_INT
    ensures Decode(sch, s, pos, m) == (match DecodeOne(sch, s, pos, m)
                                       case Ok((m', n)) => Decode(sch, s[n..], pos + n, m')
                                       case Err => Err
                                       case Panic => Panic)
  {
    hide DecodeOne;
  }

  lemma NothingLeft<M>(sch: Schema<M>, pos: nat, m: M)
    requires pos <= MAX_INT
    ensures Decode(sch, [], pos, m) == Ok(m)
  {
  }

  // ---- The record grammar above the bytes ----

  predicate WellFormedAll(rs: seq<Record>) {
    forall i :: 0 <= i < |rs| ==> WellFormed(rs[i])
  }

  // What a record means to a message when its payload starts at index p and
  // the bytes after follow it: records of fields outside the schema mean
  // nothing; the others must have the wire type of their field.
  function Meaning<M>(sch: Schema<M>, m: M, r: Record, p: nat, after: bytes): Result<M> {
    var f := FieldNumber(Value(r.tag));
    if r.payload.EndGroup? || f <= 0 then Err else
    match sch(f)
    case Unknown => Ok(m)
    case Scalar(put) => if r.payload.VarintValue? then Ok(put(m, Value(r.payload.raw))) else Err
    case Delimited(step) => if r.payload.Bytes? then step(m, p, r.payload.content, after) else Err
  }

  // What a record means by itself.
  function Apply<M>(sch: Schema<M>, m: M, r: Record): Result<M> {
    Meaning(sch, m, r, 0, [])
  }

  function Fold<M>(sch: Schema<M>, rs: seq<Record>, m: M): Result<M> {
    if rs == [] then Ok(m) else
    match Apply(sch, m, rs[0])
    case Ok(m') => Fold(sch, rs[1..], m')
    case Err => Err
    case Panic => Panic
  }

  // Where the payload of a record starts.
  function PayloadStart(r: Record): nat {
    |r.tag| + if r.payload.Bytes? then |r.payload.len| else 0
  }

  // The fold in which every record also sees its position and what follows it.
  function FoldAt<M>(sch: Schema<M>, rs: seq<Record>, pos: nat, m: M): Result<M> {
    if rs == [] then Ok(m) else
    match Meaning(sch, m, rs[0], pos + PayloadStart(rs[0]), EncAll(rs[1..]))
    case Ok(m') => FoldAt(sch, rs[1..], pos + |Enc(rs[0])|, m')
    case Err => Err
    case Panic => Panic
  }

  // A field is stable when a successful step does not depend on what follows
  // the bytes it saw, nor on where they lie.
  ghost predicate StableAt<M>(k: Kind<M>, m: M, p: nat, c: bytes, a: bytes, p': nat, t: bytes) {
    k.Delimited? && k.step(m, p, c, a).Ok? && p + |c| + |a| <= MAX_INT && p' + |c| + |a| + |t| <= MAX_INT
    ==> k.step(m, p', c, a + t) == k.step(m, p, c, a)
  }

  ghost predicate Stable<M(!new)>(sch: Schema<M>) {
    forall f: int, m: M, p: nat, c: bytes, a: bytes, p': nat, t: bytes :: StableAt(sch(f), m, p, c, a, p', t)
  }

  // A field is local when its step depends on its payload only.
  ghost predicate LocalAt<M>(k: Kind<M>, m: M, p: nat, c: bytes, a: bytes) {
    k.Delimited? && p + |c| + |a| <= MAX_INT ==> k.step(m, p, c, a) == k.step(m, 0, c, [])
  }

  ghost predicate Local<M(!new)>(sch: Schema<M>) {
    forall f: int, m: M, p: nat, c: bytes, a: bytes :: LocalAt(sch(f), m, p, c, a)
  }

  // A field is quiet when its step does not panic.
  ghost predicate QuietAt<M>(k: Kind<M>, m: M, p: nat, c: bytes, a: bytes) {
    k.Delimited? && p + |c| + |a| <= MAX_INT ==> !k.step(m, p, c, a).Panic?
  }

  ghost predicate Quiet<M(!new)>(sch: Schema<M>) {
    forall f: int, m: M, p: nat, c: bytes, a: bytes :: QuietAt(sch(f), m, p, c, a)
  }

  // ---- One record ----

  lemma PayloadExact(len: bytes, content: bytes, t: bytes)
    requires IsVarint(len) && Value(len) == |content| <= MAX_INT
    ensures PayloadBounds(len + content + t) == Some((|len|, |len| + |content|))
    ensures (len + content + t)[|len|..|len| + |content|] == content
    ensures (len + content + t)[|len| + |content|..] == t
  {
    Assoc(len, content, t);
    ReadVarintExact(len, content + t);
  }

  lemma PayloadExtends(s: bytes, t: bytes)
    requires PayloadBounds(s).Some?
    ensures PayloadBounds(s + t) == PayloadBounds(s)
    ensures var (k, e) := PayloadBounds(s).value; (s + t)[k..e] == s[k..e] && (s + t)[e..] == s[e..] + t
  {
    hide ReadVarint;
    ReadVarintExtends(s, t);
  }

  // A record is decoded to what it means there, errors and panics included, and
  // to its last byte.
  lemma DecodeOneIs<M>(sch: Schema<M>, m: M, r: Record, pos: nat, t: bytes)
    requires WellFormed(r) && pos + |Enc(r) + t| <= MAX_INT
    ensures DecodeOne(sch, Enc(r) + t, pos, m)
            == (match Meaning(sch, m, r, pos + PayloadStart(r), t)
                case Ok(m') => Ok((m', |Enc(r)|))
                case Err => Err
                case Panic => Panic)
  {
    DecodeOneTag(sch, m, r, pos, t);
    if !r.payload.EndGroup? && FieldNumber(Value(r.tag)) > 0 {
      DispatchRecord(sch, m, r, pos, t);
    }
    hide WellFormed, FieldNumber, DecodeOne, Dispatch, Enc, PayloadStart;
  }

  lemma DispatchRecord<M>(sch: Schema<M>, m: M, r: Record, pos: nat, t: bytes)
    requires WellFormed(r) && pos + |Enc(r) + t| <= MAX_INT
    requires !r.payload.EndGroup? && FieldNumber(Value(r.tag)) > 0
    ensures Dispatch(sch(FieldNumber(Value(r.tag))), WireType(r.payload), Enc(r) + t, pos, |r.tag|, m)
            == (match Meaning(sch, m, r, pos + PayloadStart(r), t)
                case Ok(m') => Ok((m', |Enc(r)|))
                case Err => Err
                case Panic => Panic)
  {
    hide *;
    RecordBody(r, t);
    var f, s, body, n := FieldNumber(Value(r.tag)), Enc(r) + t, (Enc(r) + t)[|r.tag|..], |r.tag|;
    SkipExact(r, t);
    DispatchIs(sch(f), WireType(r.payload), s, pos, n, m);
    MeaningIs(sch, m, r, pos + PayloadStart(r), t);
    match sch(f)
    case Unknown =>
      UnknownIs(s, m, |Enc(r)|);
    case Scalar(put) =>
      if r.payload.VarintValue? {
        ScalarIs(put, body, n, m, Value(r.payload.raw), |Enc(r)| - n);
      }
    case Delimited(step) =>
      if r.payload.Bytes? {
        PayloadStartIs(r);
        DelimitedIs(step, body, pos + n, n, m, |r.payload.len|, |Enc(r)| - n);
      }
  }

  // The switch and what its branches compute, one unfolding each.
  lemma DispatchIs<M>(kind: Kind<M>, wireType: nat, s: bytes, pos: nat, n: nat, m: M)
    requires 1 <= n <= |s| && pos + |s| <= MAX_INT
    ensures kind.Unknown? ==> Dispatch(kind, wireType, s, pos, n, m) == DecodeUnknown(s, m)
    ensures kind.Scalar? ==> Dispatch(kind, wireType, s, pos, n, m)
                             == if wireType != 0 then Err else DecodeScalar(kind.put, s[n..], n, m)
    ensures kind.Delimited? ==> Dispatch(kind, wireType, s, pos, n, m)
                                == if wireType != 2 then Err else DecodeDelimited(kind.step, s[n..], pos + n, n, m)
  {
    hide DecodeUnknown, DecodeScalar, DecodeDelimited;
  }

  lemma UnknownIs<M>(s: bytes, m: M, k: nat)
    requires 0 < |s| <= MAX_INT && k <= |s| && Skip(s) == Ok(k)
    ensures DecodeUnknown(s, m) == Ok((m, k))
  {
    hide Skip;
  }

  lemma ScalarIs<M>(put: (M, uint64) -> M, s: bytes, n: nat, m: M, v: uint64, k: nat)
    requires ReadVarint(s) == Some((v, k))
    ensures DecodeScalar(put, s, n, m) == Ok((put(m, v), n + k))
  {
    hide ReadVarint;
  }

  lemma DelimitedIs<M>(step: (M, nat, bytes, bytes) -> Result<M>, s: bytes, pos: nat, n: nat, m: M, k: nat, e: nat)
    requires k <= e <= |s| && PayloadBounds(s) == Some((k, e))
    ensures DecodeDelimited(step, s, pos, n, m) == (match step(m, pos + k, s[k..e], s[e..])
                                                    case Ok(m') => Ok((m', n + e))
                                                    case Err => Err
                                                    case Panic => Panic)
  {
    hide PayloadBounds;
  }

  lemma MeaningIs<M>(sch: Schema<M>, m: M, r: Record, p: nat, after: bytes)
    requires !r.payload.EndGroup? && FieldNumber(Value(r.tag)) > 0
    ensures var k := sch(FieldNumber(Value(r.tag)));
            && (k.Unknown? ==> Meaning(sch, m, r, p, after) == Ok(m))
            && (k.Scalar? ==> Meaning(sch, m, r, p, after)
                              == if r.payload.VarintValue? then Ok(k.put(m, Value(r.payload.raw))) else Err)
            && (k.Delimited? ==> Meaning(sch, m, r, p, after)
                                 == if r.payload.Bytes? then k.step(m, p, r.payload.content, after) else Err)
  {
    hide FieldNumber, Value;
  }

  lemma PayloadStartIs(r: Record)
    requires r.payload.Bytes?
    ensures PayloadStart(r) == |r.tag| + |r.payload.len|
  {
  }

  // The bytes after the tag of a record, as the switch reads them.
  lemma RecordBody(r: Record, t: bytes)
    requires WellFormed(r) && |Enc(r) + t| <= MAX_INT
    ensures 1 <= |r.tag| <= |Enc(r)| && 0 < |Enc(r) + t|
    ensures WireType(r.payload) == 0 <==> r.payload.VarintValue?
    ensures WireType(r.payload) == 2 <==> r.payload.Bytes?
    ensures var s := (Enc(r) + t)[|r.tag|..];
            && (r.payload.VarintValue? ==> ReadVarint(s) == Some((Value(r.payload.raw), |Enc(r)| - |r.tag|)))
            && (r.payload.Bytes? ==>
                  var k, e := |r.payload.len|, |Enc(r)| - |r.tag|;
                  PayloadBounds(s) == Some((k, e)) && s[k..e] == r.payload.content && s[e..] == t)
  {
    assert (Enc(r) + t)[|r.tag|..] == EncPayload(r.payload) + t;
    hide ReadVarint, Raw, WellFormedPayload, PayloadBounds, EncPayload;
    if r.payload.VarintValue? {
      RecordValue(r, t);
    } else if r.payload.Bytes? {
      ContentFits(r);
      RecordContent(r, t);
    }
  }

  lemma ContentFits(r: Record)
    ensures r.payload.Bytes? ==> |r.payload.content| <= |Enc(r)|
  {
  }

  // A record that means something to the message is decoded to that meaning,
  // whatever follows.
  lemma DecodeOneRecord<M(!new)>(sch: Schema<M>, m: M, r: Record, pos: nat, t: bytes)
    requires Stable(sch) && WellFormed(r) && Apply(sch, m, r).Ok?
    requires pos + |Enc(r) + t| <= MAX_INT
    ensures DecodeOne(sch, Enc(r) + t, pos, m) == Ok((Apply(sch, m, r).value, |Enc(r)|))
  {
    DecodeOneIs(sch, m, r, pos, t);
    MeaningStable(sch, m, r, 0, [], pos + PayloadStart(r), t);
    assert [] + t == t;
    EncLength(r);
    hide Stable, WellFormed, DecodeOne, Enc, Meaning;
  }

  lemma EncLength(r: Record)
    ensures |Enc(r)| >= PayloadStart(r) + if r.payload.Bytes? then |r.payload.content| else 0
  {
  }

  lemma MeaningStable<M(!new)>(sch: Schema<M>, m: M, r: Record, p: nat, a: bytes, p': nat, t: bytes)
    requires Stable(sch) && Meaning(sch, m, r, p, a).Ok?
    ensures var c := if r.payload.Bytes? then |r.payload.content| else 0;
            p + c + |a| <= MAX_INT && p' + c + |a| + |t| <= MAX_INT
            ==> Meaning(sch, m, r, p', a + t) == Meaning(sch, m, r, p, a)
  {
    hide FieldNumber, Value, Stable;
    if r.payload.Bytes? {
      StableUse(sch, FieldNumber(Value(r.tag)), m, p, r.payload.content, a, p', t);
    }
  }

  lemma DecodeOneTag<M>(sch: Schema<M>, m: M, r: Record, pos: nat, t: bytes)
    requires WellFormed(r) && pos + |Enc(r) + t| <= MAX_INT
    ensures (Enc(r) + t)[|r.tag|..] == EncPayload(r.payload) + t
    ensures r.payload.EndGroup? || FieldNumber(Value(r.tag)) <= 0 ==> DecodeOne(sch, Enc(r) + t, pos, m) == Err
    ensures !r.payload.EndGroup? && FieldNumber(Value(r.tag)) > 0 ==>
              DecodeOne(sch, Enc(r) + t, pos, m)
              == Dispatch(sch(FieldNumber(Value(r.tag))), WireType(r.payload), Enc(r) + t, pos, |r.tag|, m)
  {
    var s, body := Enc(r) + t, EncPayload(r.payload) + t;
    assert s == r.tag + body && s[|r.tag|..] == body;
    ReadVarintExact(r.tag, body);
    hide ReadVarint, IsVarint, WellFormedPayload, Dispatch, FieldNumber, Raw, EncPayload;
  }

  lemma RecordValue(r: Record, t: bytes)
    requires WellFormed(r) && r.payload.VarintValue?
    ensures ReadVarint(EncPayload(r.payload) + t) == Some((Value(r.payload.raw), |EncPayload(r.payload)|))
  {
    ReadVarintExact(r.payload.raw, t);
  }

  lemma RecordContent(r: Record, t: bytes)
    requires WellFormed(r) && r.payload.Bytes? && |r.payload.content| <= MAX_INT
    ensures var s, k, e := EncPayload(r.payload) + t, |r.payload.len|, |EncPayload(r.payload)|;
            PayloadBounds(s) == Some((k, e)) && s[k..e] == r.payload.content && s[e..] == t
  {
    PayloadExact(r.payload.len, r.payload.content, t);
  }

  lemma StableUse<M(!new)>(sch: Schema<M>, f: int, m: M, p: nat, c: bytes, a: bytes, p': nat, t: bytes)
    requires Stable(sch)
    ensures StableAt(sch(f), m, p, c, a, p', t)
  {
  }

  lemma LocalUse<M(!new)>(sch: Schema<M>, f: int, m: M, p: nat, c: bytes, a: bytes)
    requires Local(sch)
    ensures LocalAt(sch(f), m, p, c, a)
  {
  }

  lemma LocalIsStable<M(!new)>(sch: Schema<M>)
    requires Local(sch)
    ensures Stable(sch)
  {
    forall f: int, m: M, p: nat, c: bytes, a: bytes, p': nat, t: bytes
      ensures StableAt(sch(f), m, p, c, a, p', t)
    {
      LocalUse(sch, f, m, p, c, a);
      LocalUse(sch, f, m, p', c, a + t);
    }
  }

  lemma SkipExtends(s: bytes, t: bytes)
    requires |s + t| <= MAX_INT && Skip(s).Ok? && 0 <= Skip(s).value <= |s|
    ensures Skip(s + t) == Skip(s)
  {
    hide *;
    var r := SkipParses(s);
    var n := Skip(s).value;
    SkipExact(r, s[n..] + t);
    assert s + t == s[..n] + (s[n..] + t);
  }

  // A successful turn of the loop does not look past the bytes it was given.
  lemma DecodeOneExtends<M(!new)>(sch: Schema<M>, s: bytes, pos: nat, m: M, t: bytes, pos': nat)
    requires Stable(sch) && pos + |s| <= MAX_INT && pos' + |s + t| <= MAX_INT
    requires DecodeOne(sch, s, pos, m).Ok?
    ensures DecodeOne(sch, s + t, pos', m) == DecodeOne(sch, s, pos, m)
  {
    var (w, n) := ReadVarint(s).value;
    ReadVarintExtends(s, t);
    hide ReadVarint, Stable, FieldNumber, Dispatch;
    DispatchExtends(sch, FieldNumber(w), w % 8, s, pos, n, m, t, pos');
  }

  lemma DispatchExtends<M(!new)>(sch: Schema<M>, f: int, wireType: nat, s: bytes, pos: nat, n: nat, m: M, t: bytes,
      pos': nat)
    requires Stable(sch) && 1 <= n <= |s| && pos + |s| <= MAX_INT && pos' + |s + t| <= MAX_INT
    requires Dispatch(sch(f), wireType, s, pos, n, m).Ok?
    ensures Dispatch(sch(f), wireType, s + t, pos', n, m) == Dispatch(sch(f), wireType, s, pos, n, m)
  {
    hide ReadVarint, Stable, Skip, PayloadBounds;
    assert (s + t)[n..] == s[n..] + t;
    match sch(f)
    case Unknown =>
      SkipExtends(s, t);
    case Scalar(put) =>
      ReadVarintExtends(s[n..], t);
    case Delimited(step) =>
      var b := s[n..];
      var (k, e) := PayloadBounds(b).value;
      PayloadExtends(b, t);
      StableUse(sch, f, m, pos + n + k, b[k..e], b[e..], pos' + n + k, t);
  }

  // ---- Whole runs ----

  // Records that mean something to the message, one after the other, are
  // decoded to that meaning.
  lemma {:induction false} DecodeRecords<M(!new)>(sch: Schema<M>, rs: seq<Record>, pos: nat, m: M)
    requires Stable(sch) && WellFormedAll(rs) && Fold(sch, rs, m).Ok?
    requires pos + |EncAll(rs)| <= MAX_INT
    ensures Decode(sch, EncAll(rs), pos, m) == Fold(sch, rs, m)
  {
    hide Stable, DecodeOne, Apply, WellFormed;
    if rs != [] {
      var n, t := |Enc(rs[0])|, EncAll(rs[1..]);
      DecodeOneRecord(sch, m, rs[0], pos, t);
      assert EncAll(rs)[n..] == t;
      DecodeRecords(sch, rs[1..], pos + n, Apply(sch, m, rs[0]).value);
    }
  }

  // Decoding the encoding of records is their fold in place, for every schema.
  lemma {:induction false} DecodeIsFold<M>(sch: Schema<M>, rs: seq<Record>, pos: nat, m: M)
    requires WellFormedAll(rs) && pos + |EncAll(rs)| <= MAX_INT
    ensures Decode(sch, EncAll(rs), pos, m) == FoldAt(sch, rs, pos, m)
  {
    hide DecodeOne, Meaning, WellFormed, Enc, PayloadStart;
    if rs != [] {
      var e, t := Enc(rs[0]), EncAll(rs[1..]);
      EncNonempty(rs[0]);
      DecodeOneIs(sch, m, rs[0], pos, t);
      assert EncAll(rs)[|e|..] == t;
      var r := Meaning(sch, m, rs[0], pos + PayloadStart(rs[0]), t);
      if r.Ok? {
        DecodeIsFold(sch, rs[1..], pos + |e|, r.value);
      }
    }
  }

  lemma EncNonempty(r: Record)
    requires WellFormed(r)
    ensures Enc(r) != []
  {
  }

  // Whatever a turn of the loop accepts is a record.
  lemma DecodeOneSplits<M>(sch: Schema<M>, s: bytes, pos: nat, m: M) returns (r: Record)
    requires pos + |s| <= MAX_INT && DecodeOne(sch, s, pos, m).Ok?
    ensures WellFormed(r) && Enc(r) == s[..DecodeOne(sch, s, pos, m).value.1]
  {
    var (w, n) := ReadVarint(s).value;
    ReadVarintSplits(s);
    hide ReadVarint, FieldNumber, Skip, PayloadBounds, Raw, IsVarint;
    match sch(FieldNumber(w))
    case Unknown =>
      r := SkipParses(s);
    case Scalar(put) =>
      r := ScalarParses(s, n);
    case Delimited(step) =>
      r := DelimitedParses(s, n);
  }

  lemma ScalarParses(s: bytes, n: nat) returns (r: Record)
    requires n <= |s| && IsVarint(s[..n]) && Value(s[..n]) % 8 == 0 && ReadVarint(s[n..]).Some?
    ensures WellFormed(r) && r.tag == s[..n] && r.payload.VarintValue?
    ensures Value(r.payload.raw) == ReadVarint(s[n..]).value.0
    ensures Enc(r) == s[..n + ReadVarint(s[n..]).value.1]
  {
    hide Raw, IsVarint, ReadVarint;
    ReadVarintSplits(s[n..]);
    r := Record(s[..n], VarintValue(s[n..][..ReadVarint(s[n..]).value.1]));
  }

  lemma DelimitedParses(s: bytes, n: nat) returns (r: Record)
    requires n <= |s| && IsVarint(s[..n]) && Value(s[..n]) % 8 == 2 && PayloadBounds(s[n..]).Some?
    ensures WellFormed(r) && r.tag == s[..n] && r.payload.Bytes?
    ensures r.payload.content == s[n..][PayloadBounds(s[n..]).value.0..PayloadBounds(s[n..]).value.1]
    ensures Enc(r) == s[..n + PayloadBounds(s[n..]).value.1]
  {
    hide Raw, IsVarint, ReadVarint;
    var b := s[n..];
    ReadVarintSplits(b);
    var (k, e) := PayloadBounds(b).value;
    r := Record(s[..n], Bytes(b[..k], b[k..e]));
    assert b[..k] + b[k..e] == b[..e];
    assert s[..n] + b[..e] == s[..n + e];
  }

  lemma {:induction false} DecodeSplits<M>(sch: Schema<M>, s: bytes, pos: nat, m: M) returns (rs: seq<Record>)
    requires pos + |s| <= MAX_INT && Decode(sch, s, pos, m).Ok?
    ensures WellFormedAll(rs) && EncAll(rs) == s
    decreases |s|
  {
    hide DecodeOne, WellFormed, Enc;
    if s == [] {
      rs := [];
    } else {
      var (m', n) := DecodeOne(sch, s, pos, m).value;
      var r := DecodeOneSplits(sch, s, pos, m);
      var tail := DecodeSplits(sch, s[n..], pos + n, m');
      rs := [r] + tail;
      assert rs[1..] == tail;
      assert s == s[..n] + s[n..];
    }
  }

  // For every schema, maps included: decoding succeeds exactly on the byte
  // strings that split into well-formed records whose fold in place succeeds,
  // with the result of that fold.
  lemma DecodeRefinesRecords<M(!new)>(sch: Schema<M>, s: bytes, pos: nat, m: M, m': M)
    requires pos + |s| <= MAX_INT
    ensures Decode(sch, s, pos, m) == Ok(m') <==>
            exists rs :: WellFormedAll(rs) && EncAll(rs) == s && FoldAt(sch, rs, pos, m) == Ok(m')
  {
    hide *;
    if Decode(sch, s, pos, m) == Ok(m') {
      var rs := DecodeSplits(sch, s, pos, m);
      DecodeIsFold(sch, rs, pos, m);
    }
    forall rs | WellFormedAll(rs) && EncAll(rs) == s && FoldAt(sch, rs, pos, m) == Ok(m')
      ensures Decode(sch, s, pos, m) == Ok(m')
    {
      DecodeIsFold(sch, rs, pos, m);
    }
  }

  // In a local schema position and what follows do not matter.
  lemma {:induction false} FoldAtLocal<M(!new)>(sch: Schema<M>, rs: seq<Record>, pos: nat, m: M)
    requires Local(sch) && pos + |EncAll(rs)| <= MAX_INT
    ensures FoldAt(sch, rs, pos, m) == Fold(sch, rs, m)
  {
    hide Local, Meaning, Enc, PayloadStart;
    if rs != [] {
      MeaningLocal(sch, m, rs[0], pos, EncAll(rs[1..]));
      if Apply(sch, m, rs[0]).Ok? {
        FoldAtLocal(sch, rs[1..], pos + |Enc(rs[0])|, Apply(sch, m, rs[0]).value);
      }
    }
  }

  lemma MeaningLocal<M(!new)>(sch: Schema<M>, m: M, r: Record, pos: nat, t: bytes)
    requires Local(sch) && pos + |Enc(r) + t| <= MAX_INT
    ensures Meaning(sch, m, r, pos + PayloadStart(r), t) == Apply(sch, m, r)
  {
    EncLength(r);
    hide FieldNumber, Value, Local, Enc, PayloadStart;
    if r.payload.Bytes? {
      LocalUse(sch, FieldNumber(Value(r.tag)), m, pos + PayloadStart(r), r.payload.content, t);
      LocalUse(sch, FieldNumber(Value(r.tag)), m, 0, r.payload.content, []);
    }
  }

  lemma DecodeParses<M(!new)>(sch: Schema<M>, s: bytes, pos: nat, m: M) returns (rs: seq<Record>)
    requires Local(sch) && pos + |s| <= MAX_INT && Decode(sch, s, pos, m).Ok?
    ensures WellFormedAll(rs) && EncAll(rs) == s && Fold(sch, rs, m) == Decode(sch, s, pos, m)
  {
    hide *;
    rs := DecodeSplits(sch, s, pos, m);
    DecodeIsFold(sch, rs, pos, m);
    FoldAtLocal(sch, rs, pos, m);
  }

  // Decoding refines the grammar: it succeeds exactly on the byte strings that
  // split into well-formed records, each of them meaningful to the message,
  // and the result is the left fold of those records.
  lemma DecodeRefinesGrammar<M(!new)>(sch: Schema<M>, s: bytes, m: M, m': M)
    requires Local(sch) && |s| <= MAX_INT
    ensures Decode(sch, s, 0, m) == Ok(m') <==>
            exists rs :: WellFormedAll(rs) && EncAll(rs) == s && Fold(sch, rs, m) == Ok(m')
  {
    hide *;
    LocalIsStable(sch);
    if Decode(sch, s, 0, m) == Ok(m') {
      var rs := DecodeParses(sch, s, 0, m);
    }
    forall rs | WellFormedAll(rs) && EncAll(rs) == s && Fold(sch, rs, m) == Ok(m')
      ensures Decode(sch, s, 0, m) == Ok(m')
    {
      DecodeRecords(sch, rs, 0, m);
    }
  }

  // The splitting of DecodeRefinesGrammar is unique.
  lemma {:induction false} RecordsUnique(rs: seq<Record>, qs: seq<Record>)
    requires WellFormedAll(rs) && WellFormedAll(qs) && EncAll(rs) == EncAll(qs)
    ensures rs == qs
  {
    hide WellFormed, Enc;
    if rs == [] || qs == [] {
      EncAllNonempty(rs);
      EncAllNonempty(qs);
    } else {
      RecordUnique(rs[0], EncAll(rs[1..]), qs[0], EncAll(qs[1..]));
      RecordsUnique(rs[1..], qs[1..]);
      assert rs == [rs[0]] + rs[1..] && qs == [qs[0]] + qs[1..];
    }
  }

  lemma EncAllNonempty(rs: seq<Record>)
    requires WellFormedAll(rs)
    ensures rs == [] <==> EncAll(rs) == []
  {
    if rs != [] {
      assert IsVarint(rs[0].tag);
    }
  }

  // A quiet schema cannot make the decoder panic.
  lemma {:induction false} DecodeTotal<M(!new)>(sch: Schema<M>, s: bytes, pos: nat, m: M)
    requires Quiet(sch) && pos + |s| <= MAX_INT
    ensures !Decode(sch, s, pos, m).Panic?
    decreases |s|
  {
    hide Quiet, DecodeOne;
    if s != [] {
      DecodeOneQuiet(sch, s, pos, m);
      if DecodeOne(sch, s, pos, m).Ok? {
        var (m', n) := DecodeOne(sch, s, pos, m).value;
        DecodeTotal(sch, s[n..], pos + n, m');
      }
    }
  }

  lemma DecodeOneQuiet<M(!new)>(sch: Schema<M>, s: bytes, pos: nat, m: M)
    requires Quiet(sch) && pos + |s| <= MAX_INT
    ensures !DecodeOne(sch, s, pos, m).Panic?
  {
    hide ReadVarint, FieldNumber, Skip, PayloadBounds;
    if ReadVarint(s).Some? {
      var (w, n) := ReadVarint(s).value;
      if PayloadBounds(s[n..]).Some? {
        var (k, e) := PayloadBounds(s[n..]).value;
        assert QuietAt(sch(FieldNumber(w)), m, pos + n + k, s[n..][k..e], s[n..][e..]);
      }
    }
  }

  // A local schema does not see positions.
  lemma {:induction false} DecodeShift<M(!new)>(sch: Schema<M>, s: bytes, pos: nat, pos': nat, m: M)
    requires Local(sch) && pos + |s| <= MAX_INT && pos' + |s| <= MAX_INT
    ensures Decode(sch, s, pos, m) == Decode(sch, s, pos', m)
    decreases |s|
  {
    hide Local, DecodeOne;
    if s != [] {
      DecodeOneLocal(sch, s, pos, pos', m);
      if DecodeOne(sch, s, pos, m).Ok? {
        var (m', n) := DecodeOne(sch, s, pos, m).value;
        DecodeShift(sch, s[n..], pos + n, pos' + n, m');
      }
    }
  }

  lemma DecodeOneLocal<M(!new)>(sch: Schema<M>, s: bytes, pos: nat, pos': nat, m: M)
    requires Local(sch) && pos + |s| <= MAX_INT && pos' + |s| <= MAX_INT
    ensures DecodeOne(sch, s, pos, m) == DecodeOne(sch, s, pos', m)
  {
    hide ReadVarint, Local, FieldNumber, Skip, PayloadBounds;
    if ReadVarint(s).Some? {
      var (w, n) := ReadVarint(s).value;
      if sch(FieldNumber(w)).Delimited? && PayloadBounds(s[n..]).Some? {
        var (k, e) := PayloadBounds(s[n..]).value;
        LocalUse(sch, FieldNumber(w), m, pos + n + k, s[n..][k..e], s[n..][e..]);
        LocalUse(sch, FieldNumber(w), m, pos' + n + k, s[n..][k..e], s[n..][e..]);
      }
    }
  }

  // Concatenation is merge: once a has been decoded, decoding continues with b
  // from the message reached.
  lemma {:induction false} DecodeConcat<M(!new)>(sch: Schema<M>, a: bytes, b: bytes, pos: nat, pos': nat, m: M)
    requires Stable(sch) && pos + |a| <= MAX_INT && pos' + |a + b| <= MAX_INT
    requires Decode(sch, a, pos, m).Ok?
    ensures Decode(sch, a + b, pos', m) == Decode(sch, b, pos' + |a|, Decode(sch, a, pos, m).value)
    decreases |a|
  {
    hide Stable, DecodeOne;
    if a == [] {
      assert a + b == b;
    } else {
      var (m', n) := DecodeOne(sch, a, pos, m).value;
      DecodeOneExtends(sch, a, pos, m, b, pos');
      assert (a + b)[n..] == a[n..] + b;
      DecodeConcat(sch, a[n..], b, pos + n, pos' + n, m');
    }
  }

  lemma MergeLocal<M(!new)>(sch: Schema<M>, a: bytes, b: bytes, m: M)
    requires Local(sch) && |a + b| <= MAX_INT && Decode(sch, a, 0, m).Ok?
    ensures Decode(sch, a + b, 0, m) == Decode(sch, b, 0, Decode(sch, a, 0, m).value)
  {
    hide *;
    LocalIsStable(sch);
    DecodeConcat(sch, a, b, 0, 0, m);
    DecodeShift(sch, b, |a|, 0, Decode(sch, a, 0, m).value);
  }

  // A record with a field number outside the schema.
  predicate IsUnknown<M>(sch: Schema<M>, r: Record) {
    && WellFormed(r)
    && !r.payload.EndGroup?
    && FieldNumber(Value(r.tag)) > 0
    && sch(FieldNumber(Value(r.tag))).Unknown?
  }

  // Unknown fields are transparent to success: after a prefix that decodes, such
  // a record, nested groups included, only moves up the bytes b that follow it,
  // and a successful decoding of b does not depend on where b lies.
  lemma UnknownTransparent<M(!new)>(sch: Schema<M>, a: bytes, r: Record, b: bytes, m: M)
    requires Stable(sch) && IsUnknown(sch, r) && |a + Enc(r) + b| <= MAX_INT
    requires Decode(sch, a, 0, m).Ok?
    ensures Decode(sch, a + b, 0, m) == Decode(sch, b, |a|, Decode(sch, a, 0, m).value)
    ensures Decode(sch, a + Enc(r) + b, 0, m) == Decode(sch, b, |a + Enc(r)|, Decode(sch, a, 0, m).value)
    ensures forall x :: Decode(sch, a + Enc(r) + b, 0, m) == Ok(x) <==> Decode(sch, a + b, 0, m) == Ok(x)
  {
    hide *;
    var m', e := Decode(sch, a, 0, m).value, Enc(r);
    Assoc(a, e, b);
    UnknownKept(sch, r, m');
    DecodeConcat(sch, a, b, 0, 0, m);
    DecodeConcat(sch, a, e + b, 0, 0, m);
    DecodeConcat(sch, e, b, 0, |a|, m');
    DecodeMoved(sch, b, |a|, |a + e|, m');
  }

  lemma UnknownKept<M(!new)>(sch: Schema<M>, r: Record, m: M)
    requires Stable(sch) && IsUnknown(sch, r) && |Enc(r)| <= MAX_INT
    ensures Decode(sch, Enc(r), 0, m) == Ok(m)
  {
    EncAllOne(r);
    assert Fold(sch, [r], m) == Ok(m) by {
      assert [r][1..] == [];
    }
    hide *;
    DecodeRecords(sch, [r], 0, m);
  }

  // A successful result does not depend on where the bytes lie.
  lemma DecodeMoved<M(!new)>(sch: Schema<M>, s: bytes, pos: nat, pos': nat, m: M)
    requires Stable(sch) && pos + |s| <= MAX_INT && pos' + |s| <= MAX_INT
    ensures forall x :: Decode(sch, s, pos, m) == Ok(x) <==> Decode(sch, s, pos', m) == Ok(x)
  {
    assert s + [] == s;
    hide Stable, DecodeOne;
    if Decode(sch, s, pos, m).Ok? {
      DecodeConcat(sch, s, [], pos, pos', m);
    }
    if Decode(sch, s, pos', m).Ok? {
      DecodeConcat(sch, s, [], pos', pos, m);
    }
  }

  // Truncation is detected: a prefix of an encoding decodes when the cut falls
  // between two records, and is an error return otherwise.
  lemma TruncationDetected<M(!new)>(sch: Schema<M>, rs: seq<Record>, p: bytes, m: M)
    requires Stable(sch) && WellFormedAll(rs) && Fold(sch, rs, m).Ok?
    requires |EncAll(rs)| <= MAX_INT && p <= EncAll(rs)
    ensures Decode(sch, p, 0, m).Ok? <==> exists k :: 0 <= k <= |rs| && p == EncAll(rs[..k])
    ensures Decode(sch, p, 0, m).Ok? || Decode(sch, p, 0, m) == Err
  {
    hide Stable, DecodeOne, Apply, WellFormed, Decode;
    if Decode(sch, p, 0, m) != Err {
      var k := CutPoint(sch, rs, p, 0, m);
    }
    forall k | 0 <= k <= |rs| && p == EncAll(rs[..k])
      ensures Decode(sch, p, 0, m).Ok?
    {
      FoldPrefix(sch, rs, k, m);
      DecodeRecords(sch, rs[..k], 0, m);
    }
  }

  lemma {:induction false} CutPoint<M(!new)>(sch: Schema<M>, rs: seq<Record>, p: bytes, pos: nat, m: M) returns (k: nat)
    requires Stable(sch) && WellFormedAll(rs) && Fold(sch, rs, m).Ok?
    requires pos + |EncAll(rs)| <= MAX_INT && p <= EncAll(rs) && Decode(sch, p, pos, m) != Err
    ensures k <= |rs| && p == EncAll(rs[..k])
    decreases |rs|
  {
    hide Stable, DecodeOne, Apply, WellFormed, Enc;
    if p == [] {
      k := 0;
    } else {
      var e, t := Enc(rs[0]), EncAll(rs[1..]);
      assert EncAll(rs) == e + t;
      if |p| < |e| {
        CutRecordFails(sch, rs[0], p, pos, m);
        assert false;
      } else {
        assert p == e + p[|e|..] && p[|e|..] <= t;
        DecodeOneRecord(sch, m, rs[0], pos, p[|e|..]);
        var j := CutPoint(sch, rs[1..], p[|e|..], pos + |e|, Apply(sch, m, rs[0]).value);
        k := j + 1;
        assert rs[..k][1..] == rs[1..][..j];
      }
    }
  }

  // A record that has been cut is an error return, whatever its field.
  lemma CutRecordFails<M>(sch: Schema<M>, r: Record, p: bytes, pos: nat, m: M)
    requires WellFormed(r) && p < Enc(r) && pos + |Enc(r)| <= MAX_INT
    ensures DecodeOne(sch, p, pos, m) == Err
  {
    var t := Enc(r)[|p|..];
    assert p + t == Enc(r);
    if ReadVarint(p).Some? {
      ReadVarintExtends(p, t);
      ReadVarintExact(r.tag, EncPayload(r.payload));
      assert p[|r.tag|..] + t == EncPayload(r.payload);
      hide ReadVarint, Raw, IsVarint, FieldNumber, PayloadBounds, Skip, EncPayload, WellFormedPayload;
      CutSkip(r, p, t);
      CutPayload(r, p[|r.tag|..], t);
    }
  }

  lemma CutPayload(r: Record, s: bytes, t: bytes)
    requires WellFormed(r) && s + t == EncPayload(r.payload) && t != [] && |s + t| <= MAX_INT
    ensures r.payload.VarintValue? ==> ReadVarint(s).None?
    ensures r.payload.Bytes? ==> PayloadBounds(s).None?
  {
    assert s + t + [] == s + t;
    hide ReadVarint, PayloadBounds, EncPayload;
    if r.payload.VarintValue? {
      RecordValue(r, []);
      CutVarint(s, t);
    } else if r.payload.Bytes? {
      RecordContent(r, []);
      CutBounds(s, t);
    }
  }

  lemma CutVarint(s: bytes, t: bytes)
    requires t != [] && ReadVarint(s + t).Some? && ReadVarint(s + t).value.1 == |s + t|
    ensures ReadVarint(s).None?
  {
    hide ReadVarint;
    if ReadVarint(s).Some? {
      ReadVarintExtends(s, t);
    }
  }

  lemma CutBounds(s: bytes, t: bytes)
    requires t != [] && PayloadBounds(s + t).Some? && PayloadBounds(s + t).value.1 == |s + t|
    ensures PayloadBounds(s).None?
  {
    hide PayloadBounds;
    if PayloadBounds(s).Some? {
      PayloadExtends(s, t);
    }
  }

  lemma CutSkip(r: Record, p: bytes, t: bytes)
    requires WellFormed(r) && p + t == Enc(r) && t != [] && |Enc(r)| <= MAX_INT
    ensures Skip(p).Ok? ==> Skip(p).value < 0 || Skip(p).value > |p|
  {
    hide *;
    assert Enc(r) + [] == Enc(r);
    SkipExact(r, []);
    if Skip(p).Ok? && 0 <= Skip(p).value <= |p| {
      SkipExtends(p, t);
    }
  }

  lemma {:induction false} FoldPrefix<M>(sch: Schema<M>, rs: seq<Record>, k: nat, m: M)
    requires k <= |rs| && Fold(sch, rs, m).Ok?
    ensures Fold(sch, rs[..k], m).Ok?
  {
    hide Apply;
    if k > 0 {
      FoldPrefix(sch, rs[1..], k - 1, Apply(sch, m, rs[0]).value);
      assert rs[..k][1..] == rs[1..][..k - 1];
    }
  }

  // An unknown record inserted between any two records of an encoding changes
  // nothing.
  lemma UnknownInserted<M(!new)>(sch: Schema<M>, rs: seq<Record>, k: nat, r: Record, m: M)
    requires Stable(sch) && WellFormedAll(rs) && Fold(sch, rs, m).Ok? && k <= |rs| && IsUnknown(sch, r)
    requires |EncAll(rs[..k]) + Enc(r) + EncAll(rs[k..])| <= MAX_INT
    ensures Decode(sch, EncAll(rs[..k]) + Enc(r) + EncAll(rs[k..]), 0, m) == Fold(sch, rs, m)
  {
    assert WellFormedAll(rs[..k]);
    hide *;
    var a, b := EncAll(rs[..k]), EncAll(rs[k..]);
    assert rs == rs[..k] + rs[k..];
    EncAllAppend(rs[..k], rs[k..]);
    FoldPrefix(sch, rs, k, m);
    DecodeRecords(sch, rs[..k], 0, m);
    DecodeRecords(sch, rs, 0, m);
    UnknownTransparent(sch, a, r, b, m);
  }

  // In a local schema a record decodes to exactly what it means, errors
  // included.
  lemma DecodeOneRecordExact<M(!new)>(sch: Schema<M>, m: M, r: Record, pos: nat, t: bytes)
    requires Local(sch) && WellFormed(r) && pos + |Enc(r) + t| <= MAX_INT
    ensures DecodeOne(sch, Enc(r) + t, pos, m)
            == (match Apply(sch, m, r)
                case Ok(m') => Ok((m', |Enc(r)|))
                case Err => Err
                case Panic => Panic)
  {
    hide *;
    DecodeOneIs(sch, m, r, pos, t);
    MeaningLocal(sch, m, r, pos, t);
  }

  lemma {:induction false} DecodeRecordsThen<M(!new)>(sch: Schema<M>, rs: seq<Record>, b: bytes, pos: nat, m: M)
    requires Local(sch) && WellFormedAll(rs) && pos + |EncAll(rs) + b| <= MAX_INT
    ensures Decode(sch, EncAll(rs) + b, pos, m)
            == (match Fold(sch, rs, m)
                case Ok(m') => Decode(sch, b, pos + |EncAll(rs)|, m')
                case Err => Err
                case Panic => Panic)
  {
    hide Local, DecodeOne, Apply, WellFormed, Enc;
    if rs == [] {
      assert EncAll(rs) + b == b;
    } else {
      var e, t := Enc(rs[0]), EncAll(rs[1..]);
      EncNonempty(rs[0]);
      Assoc(e, t, b);
      DecodeOneRecordExact(sch, m, rs[0], pos, t + b);
      assert (e + (t + b))[|e|..] == t + b;
      if Apply(sch, m, rs[0]).Ok? {
        DecodeRecordsThen(sch, rs[1..], b, pos + |e|, Apply(sch, m, rs[0]).value);
      }
    }
  }

  // A record that does not fit is an error return: an end-group tag, a field
  // number that is not positive, a wire type other than the field's.
  lemma MisfitFails<M>(sch: Schema<M>, r: Record, pos: nat, b: bytes, m: M)
    requires WellFormed(r) && pos + |Enc(r) + b| <= MAX_INT
    requires var f := FieldNumber(Value(r.tag));
             || Value(r.tag) % 8 == 4
             || f <= 0
             || (sch(f).Scalar? && Value(r.tag) % 8 != 0)
             || (sch(f).Delimited? && Value(r.tag) % 8 != 2)
    ensures Decode(sch, Enc(r) + b, pos, m) == Err
  {
    EncNonempty(r);
    DecodeOneIs(sch, m, r, pos, b);
    hide DecodeOne, Enc, FieldNumber, PayloadStart, Value;
  }

  // Decoding stops at the first record that fails or panics.
  lemma DecodeStops<M(!new)>(sch: Schema<M>, rs: seq<Record>, r: Record, b: bytes, m: M)
    requires Local(sch) && WellFormedAll(rs) && WellFormed(r) && |EncAll(rs) + (Enc(r) + b)| <= MAX_INT
    requires Fold(sch, rs, m).Ok? && !Apply(sch, Fold(sch, rs, m).value, r).Ok?
    ensures Decode(sch, EncAll(rs) + (Enc(r) + b), 0, m).Err? <==> Apply(sch, Fold(sch, rs, m).value, r).Err?
    ensures Decode(sch, EncAll(rs) + (Enc(r) + b), 0, m).Panic? <==> Apply(sch, Fold(sch, rs, m).value, r).Panic?
  {
    hide *;
    var m' := Fold(sch, rs, m).value;
    EncNonempty(r);
    DecodeRecordsThen(sch, rs, Enc(r) + b, 0, m);
    DecodeOneRecordExact(sch, m', r, |EncAll(rs)|, b);
    DecodeTurn(sch, Enc(r) + b, |EncAll(rs)|, m');
  }

  // Transparency at every record boundary of a local schema, whether or not
  // the records before it decode.
  lemma UnknownTransparentLocal<M(!new)>(sch: Schema<M>, rs: seq<Record>, r: Record, b: bytes, m: M)
    requires Local(sch) && WellFormedAll(rs) && IsUnknown(sch, r)
    requires |EncAll(rs) + Enc(r) + b| <= MAX_INT
    ensures Decode(sch, EncAll(rs) + Enc(r) + b, 0, m) == Decode(sch, EncAll(rs) + b, 0, m)
  {
    hide *;
    LocalIsStable(sch);
    var a, e := EncAll(rs), Enc(r);
    Assoc(a, e, b);
    DecodeRecordsThen(sch, rs, b, 0, m);
    DecodeRecordsThen(sch, rs, e + b, 0, m);
    if Fold(sch, rs, m).Ok? {
      var m' := Fold(sch, rs, m).value;
      UnknownKept(sch, r, m');
      DecodeConcat(sch, e, b, 0, |a|, m');
      DecodeShift(sch, b, |a| + |e|, |a|, m');
    }
  }
}
