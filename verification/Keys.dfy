// Map keys in the order the encoder writes them: ascending as Go strings.
module Keys {
  import opened Bits

  predicate Leq(a: bytes, b: bytes) {
    a == [] || (b != [] && (a[0] < b[0] || (a[0] == b[0] && Leq(a[1..], b[1..]))))
  }

  predicate Less(a: bytes, b: bytes) {
    a != b && Leq(a, b)
  }

  // The order of Go strings: a proper prefix comes first, and otherwise the
  // first byte that differs decides.
  ghost predicate Precedes(a: bytes, b: bytes) {
    a < b || exists k :: 0 <= k < |a| && k < |b| && a[..k] == b[..k] && a[k] < b[k]
  }

  predicate Ascending(ks: seq<bytes>) {
    forall i, j :: 0 <= i < j < |ks| ==> Less(ks[i], ks[j])
  }

  predicate Distinct(ks: seq<bytes>) {
    forall i, j :: 0 <= i < j < |ks| ==> ks[i] != ks[j]
  }

  function Elements(ks: seq<bytes>): set<bytes> {
    set k | k in ks
  }

  lemma {:induction false} LeqAntisym(a: bytes, b: bytes)
    requires Leq(a, b) && Leq(b, a)
    ensures a == b
  {
    if a != [] && b != [] {
      LeqAntisym(a[1..], b[1..]);
      assert a == [a[0]] + a[1..] && b == [b[0]] + b[1..];
    }
  }

  lemma {:induction false} LeqTotal(a: bytes, b: bytes)
    ensures Leq(a, b) || Leq(b, a)
  {
    if a != [] && b != [] {
      LeqTotal(a[1..], b[1..]);
    }
  }

  lemma {:induction false} LeqTrans(a: bytes, b: bytes, c: bytes)
    requires Leq(a, b) && Leq(b, c)
    ensures Leq(a, c)
  {
    if a != [] && b != [] && c != [] && a[0] == b[0] == c[0] {
      LeqTrans(a[1..], b[1..], c[1..]);
    }
  }

  lemma LessTrans(a: bytes, b: bytes, c: bytes)
    requires Less(a, b) && Less(b, c)
    ensures Less(a, c)
  {
    LeqTrans(a, b, c);
    if a == c {
      LeqAntisym(a, b);
    }
  }

  lemma LessTotal(a: bytes, b: bytes)
    requires a != b
    ensures Less(a, b) || Less(b, a)
  {
    LeqTotal(a, b);
  }

  lemma {:induction false} LessPrecedes(a: bytes, b: bytes)
    requires Less(a, b)
    ensures Precedes(a, b)
  {
    if a == [] {
    } else if a[0] < b[0] {
      assert a[..0] == b[..0];
    } else {
      assert a == [a[0]] + a[1..] && b == [b[0]] + b[1..];
      LessPrecedes(a[1..], b[1..]);
      if !(a[1..] < b[1..]) {
        var k :| 0 <= k < |a[1..]| && k < |b[1..]| && a[1..][..k] == b[1..][..k] && a[1..][k] < b[1..][k];
        assert a[..k + 1] == [a[0]] + a[1..][..k] && b[..k + 1] == [b[0]] + b[1..][..k];
        assert a[k + 1] < b[k + 1];
      }
    }
  }

  lemma {:induction false} PrecedesLess(a: bytes, b: bytes)
    requires Precedes(a, b)
    ensures Less(a, b)
  {
    if a != [] {
      if a < b {
        assert a[1..] < b[1..];
        PrecedesLess(a[1..], b[1..]);
      } else {
        var k :| 0 <= k < |a| && k < |b| && a[..k] == b[..k] && a[k] < b[k];
        if k > 0 {
          assert a[0] == a[..k][0] == b[..k][0] == b[0];
          assert a[1..][..k - 1] == a[..k][1..] == b[..k][1..] == b[1..][..k - 1];
          assert a[1..][k - 1] < b[1..][k - 1];
          PrecedesLess(a[1..], b[1..]);
        }
      }
    }
  }

  // Less is that order.
  lemma LessIsPrecedes(a: bytes, b: bytes)
    ensures Less(a, b) <==>
            a < b || exists k :: 0 <= k < |a| && k < |b| && a[..k] == b[..k] && a[k] < b[k]
  {
    if Less(a, b) {
      LessPrecedes(a, b);
    }
    if Precedes(a, b) {
      PrecedesLess(a, b);
    }
  }

  lemma AscendingPrecedes(ks: seq<bytes>)
    requires Ascending(ks)
    ensures forall i, j :: 0 <= i < j < |ks| ==> Precedes(ks[i], ks[j])
  {
    forall i, j | 0 <= i < j < |ks|
      ensures Precedes(ks[i], ks[j])
    {
      LessPrecedes(ks[i], ks[j]);
    }
  }

  // Insertion of a key into ascending keys.
  function Insert(k: bytes, ks: seq<bytes>): seq<bytes> {
    if ks == [] || Leq(k, ks[0]) then [k] + ks else [ks[0]] + Insert(k, ks[1..])
  }

  lemma {:induction false} InsertElements(k: bytes, ks: seq<bytes>)
    ensures Elements(Insert(k, ks)) == Elements(ks) + {k}
  {
    if ks == [] || Leq(k, ks[0]) {
    } else {
      InsertElements(k, ks[1..]);
      assert ks == [ks[0]] + ks[1..];
      assert forall x :: x in Insert(k, ks) <==> x == ks[0] || x in Elements(Insert(k, ks[1..]));
      assert forall x :: x in Elements(ks) <==> x == ks[0] || x in Elements(ks[1..]);
    }
  }

  lemma {:induction false} InsertAscending(k: bytes, ks: seq<bytes>)
    requires Ascending(ks) && k !in ks
    ensures Ascending(Insert(k, ks))
  {
    if ks == [] {
    } else if Leq(k, ks[0]) {
      forall j | 0 <= j < |ks|
        ensures Less(k, ks[j])
      {
        if j > 0 {
          LessTrans(k, ks[0], ks[j]);
        }
      }
    } else {
      InsertAscending(k, ks[1..]);
      InsertElements(k, ks[1..]);
      LessTotal(k, ks[0]);
      var r := Insert(k, ks[1..]);
      forall j | 0 <= j < |r|
        ensures Less(ks[0], r[j])
      {
        assert r[j] in Elements(r);
        if r[j] != k {
          assert r[j] in Elements(ks[1..]);
        }
      }
    }
  }

  // The keys of a map in ascending order.
  ghost predicate IsKeyOrder(ks: seq<bytes>, keys: set<bytes>) {
    Ascending(ks) && Elements(ks) == keys
  }

  lemma {:induction false} KeyOrderExists(keys: set<bytes>) returns (ks: seq<bytes>)
    ensures IsKeyOrder(ks, keys)
    decreases |keys|
  {
    if keys == {} {
      ks := [];
    } else {
      var k :| k in keys;
      var rest := KeyOrderExists(keys - {k});
      assert k !in Elements(rest);
      InsertAscending(k, rest);
      InsertElements(k, rest);
      ks := Insert(k, rest);
      assert keys - {k} + {k} == keys;
    }
  }

  lemma {:induction false} KeyOrderUnique(ks: seq<bytes>, ls: seq<bytes>)
    requires Ascending(ks) && Ascending(ls) && Elements(ks) == Elements(ls)
    ensures ks == ls
  {
    if ks == [] {
      ElementsEmpty(ls);
    } else {
      assert ks[0] in Elements(ls);
      assert ls[0] in Elements(ks);
      var i :| 0 <= i < |ls| && ls[i] == ks[0];
      var j :| 0 <= j < |ks| && ks[j] == ls[0];
      if i > 0 && j > 0 {
        LeqAntisym(ks[0], ls[0]);
      }
      TailElements(ks);
      TailElements(ls);
      KeyOrderUnique(ks[1..], ls[1..]);
      assert ks == [ks[0]] + ks[1..] && ls == [ls[0]] + ls[1..];
    }
  }

  lemma ElementsEmpty(ks: seq<bytes>)
    ensures ks == [] <==> Elements(ks) == {}
  {
    if ks != [] {
      assert ks[0] in Elements(ks);
    }
  }

  lemma TailElements(ks: seq<bytes>)
    requires ks != [] && Ascending(ks)
    ensures Elements(ks[1..]) == Elements(ks) - {ks[0]}
  {
    forall x | x in ks[1..]
      ensures x != ks[0]
    {
      var i :| 0 <= i < |ks[1..]| && ks[1..][i] == x;
      assert Less(ks[0], ks[i + 1]);
    }
    assert ks == [ks[0]] + ks[1..];
  }

  ghost function KeyOrder(keys: set<bytes>): (ks: seq<bytes>)
    ensures IsKeyOrder(ks, keys)
  {
    assert exists ks :: IsKeyOrder(ks, keys) by {
      var ks := KeyOrderExists(keys);
    }
    var ks :| IsKeyOrder(ks, keys);
    ks
  }

  // sortkeys.Strings, applied to the keys of a map, which are distinct.
  method SortStrings(ks: seq<bytes>) returns (r: seq<bytes>)
    requires Distinct(ks)
    ensures r == KeyOrder(Elements(ks))
    ensures Elements(r) == Elements(ks) && forall i, j :: 0 <= i < j < |r| ==> Precedes(r[i], r[j])
  {
    r := [];
    for i := 0 to |ks|
      invariant Ascending(r) && Elements(r) == Elements(ks[..i])
    {
      assert ks[i] !in Elements(ks[..i]);
      assert ks[..i + 1] == ks[..i] + [ks[i]];
      assert Elements(ks[..i + 1]) == Elements(ks[..i]) + {ks[i]};
      InsertAscending(ks[i], r);
      InsertElements(ks[i], r);
      r := Insert(ks[i], r);
    }
    assert ks[..|ks|] == ks;
    KeyOrderUnique(r, KeyOrder(Elements(ks)));
    AscendingPrecedes(r);
  }

  lemma KeysGrow(ks: seq<bytes>, k: bytes)
    requires Distinct(ks) && k !in Elements(ks)
    ensures Distinct(ks + [k]) && Elements(ks + [k]) == Elements(ks) + {k}
  {
    assert forall x :: x in ks + [k] <==> x in ks || x == k;
  }

  // Collect the keys in whatever order the range over the map yields them,
  // then sort: the result does not depend on that order.
  method SortedKeys<V>(m: map<bytes, V>) returns (r: seq<bytes>)
    ensures r == KeyOrder(m.Keys)
    ensures Elements(r) == m.Keys && forall i, j :: 0 <= i < j < |r| ==> Precedes(r[i], r[j])
  {
    var rest := m.Keys;
    var ks: seq<bytes> := [];
    while rest != {}
      invariant rest <= m.Keys && Elements(ks) == m.Keys - rest
      invariant Distinct(ks)
      decreases |rest|
    {
      var k :| k in rest;
      KeysGrow(ks, k);
      ks := ks + [k];
      rest := rest - {k};
    }
    assert Elements(ks) == m.Keys;
    r := SortStrings(ks);
  }
}
