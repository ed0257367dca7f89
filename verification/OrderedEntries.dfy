/**
 Key/value sequences in strictly ascending key order. They are the abstract value
 of every index in this project: a tree is correct when its in-order contents
 are what the functions below say, and `Contents` ties them to finite maps.
 The key order `lt` is a parameter: any strict total order will do.
 */
module OrderedEntries {

  datatype Option<+T> = None | Some(value: T)

  ghost predicate TotalOrder<K(!new)>(lt: (K, K) -> bool) {
    && (forall a :: !lt(a, a))
    && (forall a, b :: a == b || lt(a, b) || lt(b, a))
    && (forall a, b, c :: lt(a, b) && lt(b, c) ==> lt(a, c))
  }

  ghost predicate Asymmetric<K(!new)>(lt: (K, K) -> bool) {
    forall a, b :: lt(a, b) ==> !lt(b, a)
  }

  ghost predicate Sorted<K, V>(lt: (K, K) -> bool, s: seq<(K, V)>) {
    forall i, j :: 0 <= i < j < |s| ==> lt(s[i].0, s[j].0)
  }

  ghost predicate AllBelow<K, V>(lt: (K, K) -> bool, s: seq<(K, V)>, k: K) {
    forall i :: 0 <= i < |s| ==> lt(s[i].0, k)
  }

  ghost predicate AllAbove<K, V>(lt: (K, K) -> bool, s: seq<(K, V)>, k: K) {
    forall i :: 0 <= i < |s| ==> lt(k, s[i].0)
  }

  /** One end of a key range. */
  datatype Bound<+K> = Unbounded | Open(key: K) | Closed(key: K)

  predicate Within<K>(lt: (K, K) -> bool, lo: Bound<K>, hi: Bound<K>, k: K) {
    && (match lo
        case Unbounded => true
        case Open(b) => lt(b, k)
        case Closed(b) => !lt(k, b))
    && (match hi
        case Unbounded => true
        case Open(b) => lt(k, b)
        case Closed(b) => !lt(b, k))
  }

  /** The entries of `s` whose key lies in the range, in the order of `s`. */
  function Between<K, V>(lt: (K, K) -> bool, s: seq<(K, V)>, lo: Bound<K>, hi: Bound<K>): seq<(K, V)> {
    if s == [] then []
    else (if Within(lt, lo, hi, s[0].0) then [s[0]] else []) + Between(lt, s[1..], lo, hi)
  }

  function Put<K, V>(lt: (K, K) -> bool, s: seq<(K, V)>, k: K, v: V): seq<(K, V)> {
    Between(lt, s, Unbounded, Open(k)) + [(k, v)] + Between(lt, s, Open(k), Unbounded)
  }

  function Drop<K, V>(lt: (K, K) -> bool, s: seq<(K, V)>, k: K): seq<(K, V)> {
    Between(lt, s, Unbounded, Open(k)) + Between(lt, s, Open(k), Unbounded)
  }

  /** The finite map a sequence of entries stands for. */
  function Contents<K, V>(s: seq<(K, V)>): map<K, V> {
    if s == [] then map[] else Contents(s[..|s| - 1])[s[|s| - 1].0 := s[|s| - 1].1]
  }

  function Get<K, V>(m: map<K, V>, k: K): Option<V> {
    if k in m then Some(m[k]) else None
  }

  predicate Binds<K, V(==)>(m: map<K, V>, k: K, v: V) {
    k in m && m[k] == v
  }

  function Lookup<K(==), V>(s: seq<(K, V)>, k: K): Option<V> {
    Get(Contents(s), k)
  }

  // ---------- ranges ----------

  lemma {:induction false} BetweenConcat<K, V>(lt: (K, K) -> bool, a: seq<(K, V)>, b: seq<(K, V)>, lo: Bound<K>,
                                               hi: Bound<K>)
    ensures Between(lt, a + b, lo, hi) == Between(lt, a, lo, hi) + Between(lt, b, lo, hi)
  {
    if a == [] {
      assert a + b == b;
    } else {
      var c := a + b;
      var head := if Within(lt, lo, hi, a[0].0) then [a[0]] else [];
      assert c[0] == a[0] && c[1..] == a[1..] + b;
      BetweenConcat(lt, a[1..], b, lo, hi);
      calc {
        Between(lt, c, lo, hi);
        head + Between(lt, c[1..], lo, hi);
        head + (Between(lt, a[1..], lo, hi) + Between(lt, b, lo, hi));
        (head + Between(lt, a[1..], lo, hi)) + Between(lt, b, lo, hi);
        Between(lt, a, lo, hi) + Between(lt, b, lo, hi);
      }
    }
  }

  lemma {:induction false} BetweenAll<K, V>(lt: (K, K) -> bool, s: seq<(K, V)>, lo: Bound<K>, hi: Bound<K>)
    requires forall i :: 0 <= i < |s| ==> Within(lt, lo, hi, s[i].0)
    ensures Between(lt, s, lo, hi) == s
  {
    if s != [] {
      BetweenAll(lt, s[1..], lo, hi);
    }
  }

  lemma {:induction false} BetweenNone<K, V>(lt: (K, K) -> bool, s: seq<(K, V)>, lo: Bound<K>, hi: Bound<K>)
    requires forall i :: 0 <= i < |s| ==> !Within(lt, lo, hi, s[i].0)
    ensures Between(lt, s, lo, hi) == []
  {
    if s != [] {
      BetweenNone(lt, s[1..], lo, hi);
    }
  }

  lemma {:induction false} BetweenMembers<K, V>(lt: (K, K) -> bool, s: seq<(K, V)>, lo: Bound<K>, hi: Bound<K>,
                                                e: (K, V))
    ensures e in Between(lt, s, lo, hi) <==> e in s && Within(lt, lo, hi, e.0)
  {
    if s != [] {
      BetweenMembers(lt, s[1..], lo, hi, e);
      assert s == [s[0]] + s[1..];
    }
  }

  lemma {:induction false} BetweenSorted<K, V>(lt: (K, K) -> bool, s: seq<(K, V)>, lo: Bound<K>, hi: Bound<K>)
    requires Sorted(lt, s)
    ensures Sorted(lt, Between(lt, s, lo, hi))
  {
    if s != [] {
      var r := Between(lt, s[1..], lo, hi);
      BetweenSorted(lt, s[1..], lo, hi);
      forall j | 0 <= j < |r|
        ensures lt(s[0].0, r[j].0)
      {
        BetweenMembers(lt, s[1..], lo, hi, r[j]);
        var i :| 0 <= i < |s[1..]| && s[1..][i] == r[j];
        assert s[i + 1] == r[j];
      }
    }
  }

  // ---------- insertion and deletion around a focus ----------

  lemma BetweenThree<K, V>(lt: (K, K) -> bool, p: seq<(K, V)>, m: seq<(K, V)>, q: seq<(K, V)>, lo: Bound<K>,
                           hi: Bound<K>)
    ensures Between(lt, p + m + q, lo, hi) == Between(lt, p, lo, hi) + Between(lt, m, lo, hi) + Between(lt, q, lo, hi)
  {
    BetweenConcat(lt, p + m, q, lo, hi);
    BetweenConcat(lt, p, m, lo, hi);
  }

  lemma FocusBelow<K(!new), V>(lt: (K, K) -> bool, p: seq<(K, V)>, m: seq<(K, V)>, q: seq<(K, V)>, k: K)
    requires Asymmetric(lt) && AllBelow(lt, p, k) && AllAbove(lt, q, k)
    ensures Between(lt, p + m + q, Unbounded, Open(k)) == p + Between(lt, m, Unbounded, Open(k))
  {
    BetweenAll(lt, p, Unbounded, Open(k));
    BetweenNone(lt, q, Unbounded, Open(k));
    BetweenThree(lt, p, m, q, Unbounded, Open(k));
  }

  lemma FocusAbove<K(!new), V>(lt: (K, K) -> bool, p: seq<(K, V)>, m: seq<(K, V)>, q: seq<(K, V)>, k: K)
    requires Asymmetric(lt) && AllBelow(lt, p, k) && AllAbove(lt, q, k)
    ensures Between(lt, p + m + q, Open(k), Unbounded) == Between(lt, m, Open(k), Unbounded) + q
  {
    BetweenNone(lt, p, Open(k), Unbounded);
    BetweenAll(lt, q, Open(k), Unbounded);
    BetweenThree(lt, p, m, q, Open(k), Unbounded);
  }

  /** Entries strictly below or above `k` take no part in an update at `k`. */
  lemma FocusUpdate<K(!new), V>(lt: (K, K) -> bool, p: seq<(K, V)>, m: seq<(K, V)>, q: seq<(K, V)>, k: K, v: V)
    requires TotalOrder(lt) && AllBelow(lt, p, k) && AllAbove(lt, q, k)
    ensures Put(lt, p + m + q, k, v) == p + Put(lt, m, k, v) + q
    ensures Drop(lt, p + m + q, k) == p + Drop(lt, m, k) + q
  {
    assert Asymmetric(lt);
    FocusBelow(lt, p, m, q, k);
    FocusAbove(lt, p, m, q, k);
  }

  lemma UpdateOne<K(!new), V>(lt: (K, K) -> bool, k: K, v: V, w: V)
    requires TotalOrder(lt)
    ensures Put(lt, [], k, w) == [(k, w)] == Put(lt, [(k, v)], k, w)
    ensures Drop(lt, [], k) == [] == Drop(lt, [(k, v)], k)
  {
    BetweenNone(lt, [(k, v)], Unbounded, Open(k));
    BetweenNone(lt, [(k, v)], Open(k), Unbounded);
  }

  /** Splitting a sorted sequence at an entry separates smaller keys from larger ones. */
  lemma SortedSplit<K(!new), V>(lt: (K, K) -> bool, p: seq<(K, V)>, e: (K, V), q: seq<(K, V)>)
    requires Sorted(lt, p + [e] + q)
    ensures Sorted(lt, p) && Sorted(lt, q) && AllBelow(lt, p, e.0) && AllAbove(lt, q, e.0)
  {
    var s := p + [e] + q;
    assert s[|p|] == e;
    assert forall i :: 0 <= i < |p| ==> p[i] == s[i];
    assert forall i :: 0 <= i < |q| ==> q[i] == s[|p| + 1 + i];
  }

  lemma SortedParts<K(!new), V>(lt: (K, K) -> bool, p: seq<(K, V)>, m: seq<(K, V)>, q: seq<(K, V)>)
    requires Sorted(lt, p + m + q)
    ensures Sorted(lt, p) && Sorted(lt, m) && Sorted(lt, q)
  {
    var s := p + m + q;
    assert forall i :: 0 <= i < |p| ==> p[i] == s[i];
    assert forall i :: 0 <= i < |m| ==> m[i] == s[|p| + i];
    assert forall i :: 0 <= i < |q| ==> q[i] == s[|p| + |m| + i];
  }

  lemma SortedPut<K(!new), V>(lt: (K, K) -> bool, s: seq<(K, V)>, k: K, v: V)
    requires TotalOrder(lt) && Sorted(lt, s)
    ensures Sorted(lt, Put(lt, s, k, v)) && Sorted(lt, Drop(lt, s, k))
  {
    var p, q := Between(lt, s, Unbounded, Open(k)), Between(lt, s, Open(k), Unbounded);
    BetweenSorted(lt, s, Unbounded, Open(k));
    BetweenSorted(lt, s, Open(k), Unbounded);
    forall i | 0 <= i < |p|
      ensures lt(p[i].0, k)
    {
      BetweenMembers(lt, s, Unbounded, Open(k), p[i]);
    }
    forall i | 0 <= i < |q|
      ensures lt(k, q[i].0)
    {
      BetweenMembers(lt, s, Open(k), Unbounded, q[i]);
    }
  }

  /** Dropping the key of an entry takes out just that entry. */
  lemma DropEntry<K(!new), V>(lt: (K, K) -> bool, p: seq<(K, V)>, e: (K, V), q: seq<(K, V)>)
    requires TotalOrder(lt) && Sorted(lt, p + [e] + q)
    ensures Drop(lt, p + [e] + q, e.0) == p + q
  {
    SortedSplit(lt, p, e, q);
    UpdateOne(lt, e.0, e.1, e.1);
    FocusUpdate(lt, p, [e], q, e.0, e.1);
  }

  lemma DropEnds<K(!new), V>(lt: (K, K) -> bool, s: seq<(K, V)>)
    requires TotalOrder(lt) && Sorted(lt, s) && s != []
    ensures Drop(lt, s, s[|s| - 1].0) == s[..|s| - 1]
    ensures Drop(lt, s, s[0].0) == s[1..]
  {
    assert s == s[..|s| - 1] + [s[|s| - 1]] + [];
    DropEntry(lt, s[..|s| - 1], s[|s| - 1], []);
    assert s == [] + [s[0]] + s[1..];
    DropEntry(lt, [], s[0], s[1..]);
  }

  lemma SortedDrop<K(!new), V>(lt: (K, K) -> bool, s: seq<(K, V)>, k: K)
    requires TotalOrder(lt) && Sorted(lt, s)
    ensures Sorted(lt, Drop(lt, s, k))
  {
    if s != [] {
      SortedPut(lt, s, k, s[0].1);
    }
  }

  // ---------- the finite map ----------

  lemma {:induction false} ContentsConcat<K, V>(a: seq<(K, V)>, b: seq<(K, V)>)
    ensures Contents(a + b) == Contents(a) + Contents(b)
  {
    if b == [] {
      assert a + b == a;
    } else {
      assert (a + b)[..|a + b| - 1] == a + b[..|b| - 1];
      ContentsConcat(a, b[..|b| - 1]);
    }
  }

  lemma {:induction false} ContentsEntries<K(!new), V>(lt: (K, K) -> bool, s: seq<(K, V)>, k: K, v: V)
    requires TotalOrder(lt) && Sorted(lt, s)
    ensures Binds(Contents(s), k, v) <==> (k, v) in s
  {
    if s != [] {
      var p, e := s[..|s| - 1], s[|s| - 1];
      assert s == p + [e];
      ContentsEntries(lt, p, k, v);
    }
  }

  /** `Put`, `Drop` and `Between` are map update, map removal and map restriction. */
  lemma PutIsMapUpdate<K(!new), V>(lt: (K, K) -> bool, s: seq<(K, V)>, k: K, v: V)
    requires TotalOrder(lt) && Sorted(lt, s)
    ensures Contents(Put(lt, s, k, v)) == Contents(s)[k := v]
  {
    var r := Put(lt, s, k, v);
    var m := Contents(s)[k := v];
    SortedPut(lt, s, k, v);
    forall a, b
      ensures Binds(Contents(r), a, b) <==> Binds(m, a, b)
    {
      ContentsEntries(lt, r, a, b);
      ContentsEntries(lt, s, a, b);
      BetweenMembers(lt, s, Unbounded, Open(k), (a, b));
      BetweenMembers(lt, s, Open(k), Unbounded, (a, b));
    }
    SameEntries(Contents(r), m);
  }

  lemma DropIsMapRemoval<K(!new), V>(lt: (K, K) -> bool, s: seq<(K, V)>, k: K)
    requires TotalOrder(lt) && Sorted(lt, s)
    ensures Contents(Drop(lt, s, k)) == Contents(s) - {k}
  {
    var r := Drop(lt, s, k);
    var m := Contents(s) - {k};
    SortedDrop(lt, s, k);
    forall a, b
      ensures Binds(Contents(r), a, b) <==> Binds(m, a, b)
    {
      ContentsEntries(lt, r, a, b);
      ContentsEntries(lt, s, a, b);
      BetweenMembers(lt, s, Unbounded, Open(k), (a, b));
      BetweenMembers(lt, s, Open(k), Unbounded, (a, b));
    }
    SameEntries(Contents(r), m);
  }

  function Restrict<K, V>(lt: (K, K) -> bool, m: map<K, V>, lo: Bound<K>, hi: Bound<K>): map<K, V> {
    map k | k in m && Within(lt, lo, hi, k) :: m[k]
  }

  lemma BetweenIsMapRestriction<K(!new), V>(lt: (K, K) -> bool, s: seq<(K, V)>, lo: Bound<K>, hi: Bound<K>)
    requires TotalOrder(lt) && Sorted(lt, s)
    ensures Sorted(lt, Between(lt, s, lo, hi))
    ensures Contents(Between(lt, s, lo, hi)) == Restrict(lt, Contents(s), lo, hi)
  {
    var r := Between(lt, s, lo, hi);
    var m := Restrict(lt, Contents(s), lo, hi);
    BetweenSorted(lt, s, lo, hi);
    forall a, b
      ensures Binds(Contents(r), a, b) <==> Binds(m, a, b)
    {
      ContentsEntries(lt, r, a, b);
      ContentsEntries(lt, s, a, b);
      BetweenMembers(lt, s, lo, hi, (a, b));
    }
    SameEntries(Contents(r), m);
  }

  lemma SameEntries<K, V>(m: map<K, V>, n: map<K, V>)
    requires forall a, b :: Binds(m, a, b) <==> Binds(n, a, b)
    ensures m == n
  {
    forall a | a in m
      ensures a in n && n[a] == m[a]
    {
      assert Binds(m, a, m[a]);
    }
    forall a | a in n
      ensures a in m
    {
      assert Binds(n, a, n[a]);
    }
  }

  lemma SameLast<K(!new), V>(lt: (K, K) -> bool, a: seq<(K, V)>, b: seq<(K, V)>)
    requires TotalOrder(lt) && Sorted(lt, a) && Sorted(lt, b)
    requires Contents(a) == Contents(b) && a != [] && b != []
    ensures a[|a| - 1] == b[|b| - 1]
  {
    var e, f := a[|a| - 1], b[|b| - 1];
    ContentsEntries(lt, a, f.0, f.1);
    ContentsEntries(lt, b, e.0, e.1);
    ContentsEntries(lt, a, e.0, e.1);
    ContentsEntries(lt, b, f.0, f.1);
    assert e in b && f in a;
  }

  lemma WithoutLast<K(!new), V>(lt: (K, K) -> bool, a: seq<(K, V)>, x: K, y: V)
    requires TotalOrder(lt) && Sorted(lt, a) && a != []
    ensures Binds(Contents(a[..|a| - 1]), x, y) <==> Binds(Contents(a), x, y) && x != a[|a| - 1].0
  {
    var p, e := a[..|a| - 1], a[|a| - 1];
    assert a == p + [e];
    ContentsEntries(lt, p, x, y);
    ContentsEntries(lt, a, x, y);
    if (x, y) in p {
      var i :| 0 <= i < |p| && p[i] == (x, y);
      assert lt(a[i].0, e.0);
    }
  }

  lemma SameWithoutLast<K(!new), V>(lt: (K, K) -> bool, a: seq<(K, V)>, b: seq<(K, V)>)
    requires TotalOrder(lt) && Sorted(lt, a) && Sorted(lt, b) && a != [] && b != []
    requires Contents(a) == Contents(b)
    ensures Contents(a[..|a| - 1]) == Contents(b[..|b| - 1])
  {
    var p, q := a[..|a| - 1], b[..|b| - 1];
    SameLast(lt, a, b);
    forall x, y
      ensures Binds(Contents(p), x, y) <==> Binds(Contents(q), x, y)
    {
      WithoutLast(lt, a, x, y);
      WithoutLast(lt, b, x, y);
    }
    SameEntries(Contents(p), Contents(q));
  }

  /** A map has only one strictly ascending listing, so any correct sort gives the same answer. */
  lemma {:induction false} SortedIsUnique<K(!new), V>(lt: (K, K) -> bool, a: seq<(K, V)>, b: seq<(K, V)>)
    requires TotalOrder(lt) && Sorted(lt, a) && Sorted(lt, b)
    requires Contents(a) == Contents(b)
    ensures a == b
  {
    if a == [] || b == [] {
      if a != [] { ContentsEntries(lt, a, a[0].0, a[0].1); }
      if b != [] { ContentsEntries(lt, b, b[0].0, b[0].1); }
    } else {
      SameLast(lt, a, b);
      SameWithoutLast(lt, a, b);
      SortedIsUnique(lt, a[..|a| - 1], b[..|b| - 1]);
      assert a == a[..|a| - 1] + [a[|a| - 1]];
      assert b == b[..|b| - 1] + [b[|b| - 1]];
    }
  }

  lemma {:induction false} ContentsSize<K(!new), V>(lt: (K, K) -> bool, s: seq<(K, V)>)
    requires TotalOrder(lt) && Sorted(lt, s)
    ensures |Contents(s)| == |s|
  {
    if s != [] {
      var p, e := s[..|s| - 1], s[|s| - 1];
      ContentsSize(lt, p);
      if e.0 in Contents(p) {
        ContentsEntries(lt, p, e.0, Contents(p)[e.0]);
      }
    }
  }

  lemma FocusLookup<K(!new), V>(lt: (K, K) -> bool, p: seq<(K, V)>, m: seq<(K, V)>, q: seq<(K, V)>, k: K)
    requires TotalOrder(lt) && AllBelow(lt, p, k) && AllAbove(lt, q, k)
    ensures Lookup(p + m + q, k) == Lookup(m, k)
  {
    ContentsConcat(p + m, q);
    ContentsConcat(p, m);
    Absent(p, k);
    Absent(q, k);
  }

  lemma {:induction false} Absent<K, V>(s: seq<(K, V)>, k: K)
    requires forall i :: 0 <= i < |s| ==> s[i].0 != k
    ensures k !in Contents(s)
  {
    if s != [] {
      Absent(s[..|s| - 1], k);
    }
  }
}
