// The wire grammar (Protocol Buffers Encoding, "Message Structure" and the
// group wire types) and the routine that skips one record of it.
module Wire {
  import opened Bits
  import opened Wrappers
  import opened Varint

  // A record keeps the bytes it was read from: tags, lengths and values may
  // be over-long varints.
  datatype Payload =
    | VarintValue(raw: bytes)
    | Fixed64(bits: bytes)
    | Bytes(len: bytes, content: bytes)
    | Group(items: seq<Record>, end: bytes)
    | EndGroup
    | Fixed32(bits: bytes)

  datatype Record = Record(tag: bytes, payload: Payload)

  // The value a uint64 loop reads from a varint.
  function Value(raw: bytes): uint64 {
    Raw(raw) % TWO64
  }

  function WireType(p: Payload): nat {
    match p
    case VarintValue(_) => 0
    case Fixed64(_) => 1
    case Bytes(_, _) => 2
    case Group(_, _) => 3
    case EndGroup => 4
    case Fixed32(_) => 5
  }

  // The field number: what is above the wire type, cut down to 32 bits.
  function FieldNumber(w: uint64): int32 {
    ToInt32((w / 8) % TWO32)
  }

  predicate WellFormed(r: Record) {
    IsVarint(r.tag) && Value(r.tag) % 8 == WireType(r.payload) && WellFormedPayload(r.payload)
  }

  predicate WellFormedPayload(p: Payload) {
    match p
    case VarintValue(raw) => IsVarint(raw)
    case Fixed64(bits) => |bits| == 8
    case Bytes(len, content) => IsVarint(len) && Value(len) == |content|
    case Group(items, end) => GroupItems(items) && EndTag(end)
    case EndGroup => true
    case Fixed32(bits) => |bits| == 4
  }

  predicate EndTag(end: bytes) {
    IsVarint(end) && Value(end) % 8 == 4
  }

  // The contents of a group: records other than end-group tags.
  predicate GroupItems(items: seq<Record>) {
    items != [] ==> WellFormed(items[0]) && !items[0].payload.EndGroup? && GroupItems(items[1..])
  }

  function Enc(r: Record): bytes {
    r.tag + EncPayload(r.payload)
  }

  function EncPayload(p: Payload): bytes {
    match p
    case VarintValue(raw) => raw
    case Fixed64(bits) => bits
    case Bytes(len, content) => len + content
    case Group(items, end) => EncAll(items) + end
    case EndGroup => []
    case Fixed32(bits) => bits
  }

  function EncAll(rs: seq<Record>): bytes {
    if rs == [] then [] else Enc(rs[0]) + EncAll(rs[1..])
  }

  // A result of skipGenerated on l bytes: it moves forward, unless an
  // addition of at most 8 wrapped to a negative index.
  predicate SkipRange(n: int, l: nat) {
    1 <= n <= MAX_INT || (-0x8000_0000_0000_0000 <= n < 0 && n + TWO64 <= l + 8)
  }

  // The result of skipGenerated on s: the end index of the record that starts
  // s.  For fixed-width and length-delimited records it is not compared with
  // the length of s, and the additions wrap like the source's int additions.
  function Skip(s: bytes): (r: Result<int>)
    requires |s| <= MAX_INT
    ensures r.Panic? <==> s == []
    ensures r.Ok? ==> SkipRange(r.value, |s|)
    decreases |s|, 0
  {
    if s == [] then Panic else
    match ReadVarint(s)
    case None => Err
    case Some((w, n)) => SkipPayload(w % 8, n, s[n..])
  }

  // The switch on the wire type, at index n with s still to come.
  function SkipPayload(wireType: nat, n: nat, s: bytes): (r: Result<int>)
    requires 1 <= n && n + |s| <= MAX_INT
    ensures !r.Panic?
    ensures r.Ok? ==> SkipRange(r.value, n + |s|)
    decreases |s|, 2
  {
    match wireType
    case 0 =>
      (match VarintEnd(s, 0)
       case None => Err
       case Some(k) => Ok(n + k))
    case 1 => Ok(Wrap64(n + 8))
    case 2 =>
      (match ReadVarint(s)
       case None => Err
       case Some((v, k)) =>
         if ToInt64(v) < 0 || Wrap64(n + k + ToInt64(v)) < 0 then Err
         else Ok(Wrap64(n + k + ToInt64(v))))
    case 3 =>
      (match SkipGroup(s)
       case None => Err
       case Some(k) => Ok(n + k))
    case 4 => Ok(n)
    case 5 => Ok(Wrap64(n + 4))
    case _ => Err
  }

  // From inside a group to just after its end tag.
  function SkipGroup(s: bytes): (r: Option<nat>)
    requires |s| <= MAX_INT
    ensures r.Some? ==> 1 <= r.value <= |s|
    decreases |s|, 1
  {
    match ReadVarint(s)
    case None => None
    case Some((w, n)) =>
      if w % 8 == 4 then Some(n) else
      match Skip(s)
      case Ok(k) =>
        if k < 0 || k > |s| then None else
        (match SkipGroup(s[k..])
         case Some(j) => Some(k + j)
         case None => None)
      case _ => None
  }

  lemma {:induction false} EncAllAppend(a: seq<Record>, b: seq<Record>)
    ensures EncAll(a + b) == EncAll(a) + EncAll(b)
  {
    if a == [] {
      assert a + b == b;
    } else {
      assert (a + b)[1..] == a[1..] + b;
      EncAllAppend(a[1..], b);
    }
  }

  lemma EncAllCons(r: Record, rs: seq<Record>)
    ensures EncAll([r] + rs) == Enc(r) + EncAll(rs)
  {
    hide Enc;
    assert ([r] + rs)[1..] == rs;
  }

  lemma EncAllOne(r: Record)
    ensures EncAll([r]) == Enc(r)
  {
    assert EncAll([r]) == Enc(r) + EncAll([r][1..]);
  }

  // Skipping is exact: a well-formed record, groups nested to any depth, is
  // consumed to its last byte and nothing after it is looked at.
  lemma {:induction false} SkipExact(r: Record, t: bytes)
    requires WellFormed(r) && |Enc(r) + t| <= MAX_INT
    ensures Skip(Enc(r) + t) == Ok(|Enc(r)|)
    decreases r
  {
    hide VarintEnd, ReadVarint, Raw, IsVarint, SkipPayload;
    var s := Enc(r) + t;
    assert s == r.tag + (EncPayload(r.payload) + t);
    ReadVarintExact(r.tag, EncPayload(r.payload) + t);
    assert s[|r.tag|..] == EncPayload(r.payload) + t;
    SkipPayloadExact(r.payload, |r.tag|, t);
  }

  lemma {:induction false} SkipPayloadExact(p: Payload, n: nat, t: bytes)
    requires WellFormedPayload(p) && 1 <= n && n + |EncPayload(p) + t| <= MAX_INT
    ensures SkipPayload(WireType(p), n, EncPayload(p) + t) == Ok(n + |EncPayload(p)|)
    decreases p
  {
    hide ReadVarint, Raw, IsVarint, VarintEnd, SkipGroup;
    match p
    case VarintValue(raw) =>
      VarintEndExact(raw, t);
    case Bytes(len, content) =>
      SkipBytesExact(len, content, n, t);
    case Group(items, end) =>
      SkipGroupExact(items, end, t);
    case _ =>
  }

  lemma SkipBytesExact(len: bytes, content: bytes, n: nat, t: bytes)
    requires IsVarint(len) && Value(len) == |content| && 1 <= n && n + |len + content + t| <= MAX_INT
    ensures SkipPayload(2, n, len + content + t) == Ok(n + |len| + |content|)
  {
    Assoc(len, content, t);
    ReadVarintExact(len, content + t);
    hide ReadVarint, Raw, IsVarint, VarintEnd, SkipGroup;
  }

  lemma {:induction false} SkipGroupExact(items: seq<Record>, end: bytes, t: bytes)
    requires GroupItems(items) && EndTag(end)
    requires |EncAll(items) + end + t| <= MAX_INT
    ensures SkipGroup(EncAll(items) + end + t) == Some(|EncAll(items)| + |end|)
    decreases items
  {
    hide VarintEnd, ReadVarint, Raw, IsVarint, SkipPayload, EncPayload;
    var s := EncAll(items) + end + t;
    if items == [] {
      assert s == end + t;
      ReadVarintExact(end, t);
    } else {
      var r, rest := items[0], EncAll(items[1..]) + end + t;
      assert s == Enc(r) + rest;
      SkipExact(r, rest);
      assert s == r.tag + (EncPayload(r.payload) + rest);
      ReadVarintExact(r.tag, EncPayload(r.payload) + rest);
      SkipGroupExact(items[1..], end, t);
      assert s[|Enc(r)|..] == rest;
    }
  }

  // Conversely, whatever skipGenerated accepts within its input is a
  // well-formed record.
  lemma {:induction false} SkipParses(s: bytes) returns (r: Record)
    requires |s| <= MAX_INT && Skip(s).Ok? && 0 <= Skip(s).value <= |s|
    ensures WellFormed(r) && Enc(r) == s[..Skip(s).value]
    ensures r.tag == s[..ReadVarint(s).value.1]
    decreases |s|, 0
  {
    hide VarintEnd, ReadVarint, Raw, IsVarint, SkipPayload, EncPayload;
    var (w, n) := ReadVarint(s).value;
    ReadVarintSplits(s);
    var p := SkipPayloadParses(w % 8, n, s[n..]);
    r := Record(s[..n], p);
    var e := Skip(s).value;
    assert s[..n] + s[n..][..e - n] == s[..e];
  }

  lemma {:induction false} SkipPayloadParses(wireType: nat, n: nat, s: bytes) returns (p: Payload)
    requires 1 <= n && n + |s| <= MAX_INT
    requires var r := SkipPayload(wireType, n, s); r.Ok? && 0 <= r.value <= n + |s|
    ensures WellFormedPayload(p) && WireType(p) == wireType
    ensures SkipPayload(wireType, n, s).value == n + |EncPayload(p)|
    ensures EncPayload(p) <= s
    decreases |s|, 2
  {
    hide Raw, IsVarint, GroupItems, EncAll;
    match wireType
    case 0 =>
      ReadVarintSplits(s);
      p := VarintValue(s[..VarintEnd(s, 0).value]);
    case 1 => p := Fixed64(s[..8]);
    case 2 =>
      ReadVarintSplits(s);
      p := ParsedBytes(s, n);
    case 3 =>
      var items, end := SkipGroupParses(s);
      p := Group(items, end);
    case 4 => p := EndGroup;
    case _ => p := Fixed32(s[..4]);
  }

  lemma ParsedBytes(s: bytes, n: nat) returns (p: Payload)
    requires 1 <= n && n + |s| <= MAX_INT
    requires var r := SkipPayload(2, n, s); r.Ok? && 0 <= r.value <= n + |s|
    ensures WellFormedPayload(p) && p.Bytes?
    ensures SkipPayload(2, n, s).value == n + |EncPayload(p)|
    ensures EncPayload(p) <= s
  {
    SkippedLength(s, n);
    ReadVarintSplits(s);
    var (v, k) := ReadVarint(s).value;
    hide *;
    p := Bytes(s[..k], s[k..k + v]);
    assert s[..k] + s[k..k + v] == s[..k + v];
    BytesParts(s[..k], s[k..k + v]);
  }

  lemma BytesParts(len: bytes, content: bytes)
    ensures EncPayload(Bytes(len, content)) == len + content
    ensures IsVarint(len) && Raw(len) % TWO64 == |content| ==> WellFormedPayload(Bytes(len, content))
  {
    hide IsVarint, Raw;
  }

  // A length-delimited payload that ends inside s.
  lemma SkippedLength(s: bytes, n: nat)
    requires 1 <= n && n + |s| <= MAX_INT
    requires var r := SkipPayload(2, n, s); r.Ok? && 0 <= r.value <= n + |s|
    ensures ReadVarint(s).Some?
    ensures var (v, k) := ReadVarint(s).value; k + v <= |s| && SkipPayload(2, n, s) == Ok(n + k + v)
  {
    hide ReadVarint, VarintEnd, SkipGroup;
  }

  // The tag and the rest of a record that is skipped.
  lemma SkipIs(s: bytes, w: uint64, n: nat)
    requires 0 < |s| <= MAX_INT && ReadVarint(s) == Some((w, n))
    ensures n <= |s| && Skip(s) == SkipPayload(w % 8, n, s[n..])
  {
    hide ReadVarint, SkipPayload;
  }

  lemma {:induction false} SkipGroupParses(s: bytes) returns (items: seq<Record>, end: bytes)
    requires |s| <= MAX_INT && SkipGroup(s).Some?
    ensures GroupItems(items) && EndTag(end)
    ensures EncAll(items) + end == s[..SkipGroup(s).value]
    decreases |s|, 1
  {
    hide VarintEnd, ReadVarint, Raw, IsVarint, SkipPayload, EncPayload;
    var (w, n) := ReadVarint(s).value;
    ReadVarintSplits(s);
    if w % 8 == 4 {
      items, end := [], s[..n];
    } else {
      var k := Skip(s).value;
      var r := SkipParses(s);
      var j := SkipGroup(s[k..]).value;
      var tail, e := SkipGroupParses(s[k..]);
      items, end := [r] + tail, e;
      assert items[1..] == tail;
      GroupSplits(s, k, j, Enc(r), EncAll(tail), end);
    }
  }

  lemma GroupSplits(s: bytes, k: nat, j: nat, a: bytes, b: bytes, c: bytes)
    requires k + j <= |s| && a == s[..k] && b + c == s[k..][..j]
    ensures a + b + c == s[..k + j]
  {
    assert a + b + c == a + (b + c);
  }

  // Skip accepts exactly the records of the grammar.
  lemma SkipIffRecord(s: bytes, n: nat)
    requires |s| <= MAX_INT && n <= |s|
    ensures Skip(s) == Ok(n) <==> exists r :: WellFormed(r) && Enc(r) == s[..n]
  {
    hide Skip, WellFormed, Enc;
    if Skip(s) == Ok(n) {
      var r := SkipParses(s);
    }
    forall r | WellFormed(r) && Enc(r) == s[..n]
      ensures Skip(s) == Ok(n)
    {
      assert s == Enc(r) + s[n..];
      SkipExact(r, s[n..]);
    }
  }

  // The grammar is unambiguous: bytes split into records in at most one way.
  lemma {:induction false} RecordUnique(a: Record, s: bytes, b: Record, t: bytes)
    requires WellFormed(a) && WellFormed(b) && Enc(a) + s == Enc(b) + t
    ensures a == b && s == t
    decreases a
  {
    hide Raw, IsVarint, EncPayload;
    var p, q := EncPayload(a.payload) + s, EncPayload(b.payload) + t;
    assert a.tag + p == Enc(a) + s && b.tag + q == Enc(b) + t;
    VarintUnique(a.tag, p, b.tag, q);
    PayloadUnique(a.payload, s, b.payload, t);
  }

  lemma {:induction false} PayloadUnique(a: Payload, s: bytes, b: Payload, t: bytes)
    requires WellFormedPayload(a) && WellFormedPayload(b) && WireType(a) == WireType(b)
    requires EncPayload(a) + s == EncPayload(b) + t
    ensures a == b && s == t
    decreases a
  {
    hide Raw, IsVarint;
    match a
    case VarintValue(u) =>
      VarintUnique(u, s, b.raw, t);
    case Bytes(k, u) =>
      assert EncPayload(a) + s == k + (u + s) && EncPayload(b) + t == b.len + (b.content + t);
      VarintUnique(k, u + s, b.len, b.content + t);
      PrefixUnique(u, s, b.content, t);
    case Group(u, e) =>
      GroupUnique(u, e, s, b.items, b.end, t);
    case Fixed64(u) =>
      PrefixUnique(u, s, b.bits, t);
    case Fixed32(u) =>
      PrefixUnique(u, s, b.bits, t);
    case EndGroup =>
      assert EncPayload(a) + s == s && EncPayload(b) + t == t;
  }

  lemma PrefixUnique(u: bytes, s: bytes, v: bytes, t: bytes)
    requires u + s == v + t && |u| == |v|
    ensures u == v && s == t
  {
    assert u == (u + s)[..|u|] && v == (v + t)[..|v|];
    assert s == (u + s)[|u|..] && t == (v + t)[|v|..];
  }

  lemma VarintUnique(u: bytes, s: bytes, v: bytes, t: bytes)
    requires IsVarint(u) && IsVarint(v) && u + s == v + t
    ensures u == v && s == t
  {
    ReadVarintExact(u, s);
    ReadVarintExact(v, t);
    PrefixUnique(u, s, v, t);
  }

  lemma {:induction false} GroupUnique(a: seq<Record>, e: bytes, s: bytes, b: seq<Record>, f: bytes, t: bytes)
    requires GroupItems(a) && EndTag(e) && GroupItems(b) && EndTag(f)
    requires EncAll(a) + e + s == EncAll(b) + f + t
    ensures a == b && e == f && s == t
    decreases a
  {
    hide VarintEnd, ReadVarint, Raw, IsVarint, EncPayload;
    GroupHead(a, e, s);
    GroupHead(b, f, t);
    var u, v := HeadTag(a, e), HeadTag(b, f);
    VarintUnique(u, (EncAll(a) + e + s)[|u|..], v, (EncAll(b) + f + t)[|v|..]);
    if a == [] {
      assert EncAll(a) + e + s == e + s && EncAll(b) + f + t == f + t;
      VarintUnique(e, s, f, t);
    } else {
      var p, q := EncAll(a[1..]) + e + s, EncAll(b[1..]) + f + t;
      GroupFirst(a, e, s);
      GroupFirst(b, f, t);
      RecordUnique(a[0], p, b[0], q);
      GroupUnique(a[1..], e, s, b[1..], f, t);
      assert a == [a[0]] + a[1..] && b == [b[0]] + b[1..];
    }
  }

  lemma GroupFirst(items: seq<Record>, end: bytes, t: bytes)
    requires items != []
    ensures EncAll(items) + end + t == Enc(items[0]) + (EncAll(items[1..]) + end + t)
  {
    hide Enc;
  }

  function HeadTag(items: seq<Record>, end: bytes): bytes {
    if items == [] then end else items[0].tag
  }

  lemma GroupHead(items: seq<Record>, end: bytes, t: bytes)
    requires GroupItems(items) && EndTag(end)
    ensures IsVarint(HeadTag(items, end)) && HeadTag(items, end) <= EncAll(items) + end + t
    ensures items == [] <==> Value(HeadTag(items, end)) % 8 == 4
  {
    hide VarintEnd, ReadVarint, Raw, EncPayload, IsVarint, WellFormedPayload;
    if items != [] {
      var x, y := items[0].tag, EncPayload(items[0].payload) + EncAll(items[1..]);
      assert EncAll(items) == x + y;
      assert x + y + end + t == x + (y + end + t);
    }
  }

  // The scan over a varint whose value is not needed.
  method SkipVarint(data: bytes, i: nat) returns (r: Option<nat>)
    requires i <= |data|
    ensures match VarintEnd(data[i..], 0)
            case Some(k) => r == Some(i + k)
            case None => r == None
  {
    var next, shift := i, 0;
    while true
      invariant i <= next <= |data| && shift == 7 * (next - i) && next - i <= 10
      invariant VarintEnd(data[i..], 0) == VarintEnd(data[i..], next - i)
      decreases 10 - (next - i)
    {
      if shift >= 64 || next >= |data| {
        return None;
      }
      next := next + 1;
      if data[next - 1] < 0x80 {
        return Some(next);
      }
      shift := shift + 7;
    }
  }

  // skipGenerated.  Every branch of the switch returns, so the source's outer
  // loop is a conditional, and its panic is reached on empty input only.
  method SkipGenerated(data: bytes) returns (r: Result<int>)
    requires |data| <= MAX_INT
    ensures r == Skip(data)
    decreases |data|, 0
  {
    hide *;
    var i := 0;
    if i < |data| {
      SkipTag(data);
      var wire, tagEnd := ReadUint64(data, i);
      if !wire.Ok? {
        return Err;
      }
      i := tagEnd;
      Masks(wire.value);
      var wireType := And(wire.value, 0x7);
      SkipCases(wireType, i, data);
      if wireType == 0 {
        var end := SkipVarint(data, i);
        if end.None? {
          return Err;
        }
        return Ok(end.value);
      } else if wireType == 1 {
        return Ok(Wrap64(i + 8));
      } else if wireType == 2 {
        var length, lenEnd := ReadInt64(data, i);
        if !length.Ok? || length.value < 0 {
          return Err;
        }
        i := Wrap64(lenEnd + length.value);
        if i < 0 {
          return Err;
        }
        return Ok(i);
      } else if wireType == 3 {
        r := SkipGroupItems(data, i);
        return r;
      } else if wireType == 4 {
        return Ok(i);
      } else if wireType == 5 {
        return Ok(Wrap64(i + 4));
      } else {
        return Err;
      }
    }
    return Panic;
  }

  lemma SkipTag(data: bytes)
    requires 0 < |data| <= MAX_INT
    ensures var v := ReadVarintAt(data, 0);
            if v.Ok? then
              && 1 <= v.value.1 <= |data|
              && Skip(data) == SkipPayload(v.value.0 % 8, v.value.1, data[v.value.1..])
            else
              Skip(data) == Err
  {
    hide ReadVarint;
    assert data[0..] == data;
  }

  // The switch of Skip, case by case, with absolute indices.
  lemma SkipCases(wireType: nat, n: nat, data: bytes)
    requires 1 <= n <= |data| <= MAX_INT
    ensures var r := SkipPayload(wireType, n, data[n..]);
            match wireType
            case 0 => r == (match VarintEnd(data[n..], 0) case Some(k) => Ok(n + k) case None => Err)
            case 1 => r == Ok(Wrap64(n + 8))
            case 2 => r == (match ReadVarintAt(data, n)
                            case Ok((v, k)) =>
                              if ToInt64(v) < 0 || Wrap64(n + k + ToInt64(v)) < 0 then Err
                              else Ok(Wrap64(n + k + ToInt64(v)))
                            case _ => Err)
            case 3 => r == (match GroupFrom(data, n, n) case Some(k) => Ok(n + k) case None => Err)
            case 4 => r == Ok(n)
            case 5 => r == Ok(Wrap64(n + 4))
            case _ => r == Err
  {
    hide VarintEnd, ReadVarint, SkipGroup;
  }

  // The loop of the start-group case: skip records until an end-group tag,
  // calling skipGenerated on the rest of the slice for each of them.
  method SkipGroupItems(data: bytes, i0: nat) returns (r: Result<int>)
    requires 1 <= i0 <= |data| <= MAX_INT
    ensures r == (match GroupFrom(data, i0, i0)
                  case Some(k) => Ok(i0 + k)
                  case None => Err)
    decreases |data| - i0, 1
  {
    hide *;
    var i: int := i0;
    while true
      invariant i0 <= i
      invariant GroupFrom(data, i0, i0) == GroupFrom(data, i0, i)
      decreases |data| - i
    {
      var start := i;
      GroupTag(data, i0, start);
      var innerWire, innerEnd := ReadUint64(data, i);
      if !innerWire.Ok? {
        return Err;
      }
      i := innerEnd;
      Masks(innerWire.value);
      if And(innerWire.value, 0x7) == 4 {
        break;
      }
      var next := SkipGenerated(data[start..]);
      GroupStep(data, i0, start);
      if !next.Ok? {
        return Err;
      }
      i := Wrap64(start + next.value);
      if i < 0 {
        return Err;
      }
    }
    return Ok(i);
  }

  // The end of a group read from index i0, when index i has been reached.
  function GroupFrom(data: bytes, i0: nat, i: nat): Option<nat>
    requires i0 <= |data| <= MAX_INT && i0 <= i
  {
    if i > |data| then None else
    match SkipGroup(data[i..])
    case Some(k) => Some(i - i0 + k)
    case None => None
  }

  // The last turn: no tag can be read, or it is the end tag.
  lemma GroupTag(data: bytes, i0: nat, start: nat)
    requires i0 <= start && i0 <= |data| <= MAX_INT
    ensures match ReadVarintAt(data, start)
            case Ok((w, n)) => start <= |data| && (w % 8 == 4 ==> GroupFrom(data, i0, start) == Some(start - i0 + n))
            case _ => GroupFrom(data, i0, start) == None
  {
    hide ReadVarint, Skip;
  }

  // One turn of the group loop that does not see the end tag.
  lemma GroupStep(data: bytes, i0: nat, start: nat)
    requires i0 <= start <= |data| <= MAX_INT && ReadVarintAt(data, start).Ok?
    requires ReadVarintAt(data, start).value.0 % 8 != 4
    ensures match Skip(data[start..])
            case Ok(next) =>
              var i := Wrap64(start + next);
              if i < 0 then GroupFrom(data, i0, start) == None
              else start < i && GroupFrom(data, i0, start) == GroupFrom(data, i0, i)
            case _ => GroupFrom(data, i0, start) == None
  {
    hide ReadVarint, Skip;
    var s := data[start..];
    if Skip(s).Ok? {
      var next := Skip(s).value;
      var i := Wrap64(start + next);
      if 0 <= next <= |s| {
        assert i == start + next && s[next..] == data[i..];
      } else {
        assert SkipGroup(s) == None;
        assert i < 0 || i > |data|;
      }
    }
  }
}
