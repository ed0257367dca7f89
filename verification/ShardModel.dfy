/**
 Keys striped over several B-trees. `hash` is an arbitrary function of the key.
 As long as every key sits in its own shard the shards together stand for one
 map, and merging the shard listings and sorting gives that map's listing.
 */
module ShardModel {
  import opened OrderedEntries
  import opened TreeIndex
  import opened BTreeScan

  function Owner<K>(hash: K -> nat, n: nat, k: K): (i: nat)
    requires n > 0
    ensures i < n
  {
    hash(k) % n
  }

  ghost function MapOf<K, V>(x: Index<K, V>): map<K, V> {
    Contents(Listing(x))
  }

  /** Every shard is a good tree that holds only keys it owns. */
  ghost predicate Routed<K(!new), V>(lt: (K, K) -> bool, t: nat, hash: K -> nat, xs: seq<Index<K, V>>) {
    && |xs| > 0
    && (forall i :: 0 <= i < |xs| ==> Good(lt, t, xs[i]))
    && (forall i, k :: 0 <= i < |xs| && k in MapOf(xs[i]) ==> Owner(hash, |xs|, k) == i)
  }

  /** The one map all shards stand for. */
  ghost function Union<K, V>(xs: seq<Index<K, V>>): map<K, V> {
    if xs == [] then map[] else Union(xs[..|xs| - 1]) + MapOf(xs[|xs| - 1])
  }

  lemma {:induction false} UnionBinds<K, V>(xs: seq<Index<K, V>>, k: K, v: V)
    requires forall i, j :: 0 <= i < j < |xs| ==> k !in MapOf(xs[i]) || k !in MapOf(xs[j])
    ensures Binds(Union(xs), k, v) <==> exists i :: 0 <= i < |xs| && Binds(MapOf(xs[i]), k, v)
  {
    hide Contents, Listing;
    if xs != [] {
      var ys, x := xs[..|xs| - 1], xs[|xs| - 1];
      UnionBinds(ys, k, v);
      assert Union(xs) == Union(ys) + MapOf(x);
      assert forall i :: 0 <= i < |ys| ==> ys[i] == xs[i];
      if Binds(Union(xs), k, v) {
        if k in MapOf(x) {
          assert Binds(MapOf(xs[|xs| - 1]), k, v);
        } else {
          var i :| 0 <= i < |ys| && Binds(MapOf(ys[i]), k, v);
          assert Binds(MapOf(xs[i]), k, v);
        }
      }
      forall i | 0 <= i < |xs| && Binds(MapOf(xs[i]), k, v)
        ensures Binds(Union(xs), k, v)
      {
        if i < |ys| { assert Binds(MapOf(ys[i]), k, v); }
      }
    }
  }

  /** A key's binding is the one in its own shard; shard maps are disjoint. */
  lemma OwnerDecides<K(!new), V>(lt: (K, K) -> bool, t: nat, hash: K -> nat, xs: seq<Index<K, V>>, k: K)
    requires Routed(lt, t, hash, xs)
    ensures Get(Union(xs), k) == Get(MapOf(xs[Owner(hash, |xs|, k)]), k)
  {
    hide Contents, Listing, Good;
    var o := Owner(hash, |xs|, k);
    if k in Union(xs) {
      UnionBinds(xs, k, Union(xs)[k]);
      assert Binds(Union(xs), k, Union(xs)[k]);
    }
    if k in MapOf(xs[o]) {
      UnionBinds(xs, k, MapOf(xs[o])[k]);
      assert Binds(MapOf(xs[o]), k, MapOf(xs[o])[k]);
    }
  }

  lemma SameGet<K(!new), V>(m: map<K, V>, n: map<K, V>)
    requires forall k :: Get(m, k) == Get(n, k)
    ensures m == n
  {
    forall k | k in m
      ensures k in n && n[k] == m[k]
    {
      assert Get(m, k) == Get(n, k);
    }
    forall k | k in n
      ensures k in m
    {
      assert Get(m, k) == Get(n, k);
    }
  }

  /** Updating a key in its own shard updates the one map at that key. */
  lemma ShardUpdate<K(!new), V>(lt: (K, K) -> bool, t: nat, hash: K -> nat, xs: seq<Index<K, V>>, k: K,
                                y: Index<K, V>, m: map<K, V>)
    requires Routed(lt, t, hash, xs) && Good(lt, t, y)
    requires forall j :: j != k ==> Get(MapOf(y), j) == Get(MapOf(xs[Owner(hash, |xs|, k)]), j)
    requires forall j :: Get(m, j) == if j == k then Get(MapOf(y), k) else Get(Union(xs), j)
    ensures Routed(lt, t, hash, xs[Owner(hash, |xs|, k) := y])
    ensures Union(xs[Owner(hash, |xs|, k) := y]) == m
  {
    hide Contents, Listing, Good, Union;
    var o := Owner(hash, |xs|, k);
    var ys := xs[o := y];
    forall i, j | 0 <= i < |ys| && j in MapOf(ys[i])
      ensures Owner(hash, |ys|, j) == i
    {
      if i == o && j != k { assert Get(MapOf(y), j) == Get(MapOf(xs[o]), j); }
    }
    forall j
      ensures Get(Union(ys), j) == Get(m, j)
    {
      OwnerDecides(lt, t, hash, xs, j);
      OwnerDecides(lt, t, hash, ys, j);
    }
    SameGet(Union(ys), m);
  }

  // ---------- merged queries ----------

  ghost function Listings<K(!new), V>(lt: (K, K) -> bool, start: K, end: K, xs: seq<Index<K, V>>): seq<(K, V)> {
    if xs == [] then []
    else Listings(lt, start, end, xs[..|xs| - 1]) + InRange(lt, start, end, Listing(xs[|xs| - 1]))
  }

  ghost predicate Ascending<K, V>(lt: (K, K) -> bool, s: seq<(K, V)>) {
    forall i, j :: 0 <= i < j < |s| ==> !lt(s[j].0, s[i].0)
  }

  ghost predicate DistinctKeys<K, V>(s: seq<(K, V)>) {
    forall i, j :: 0 <= i < j < |s| ==> s[i].0 != s[j].0
  }

  lemma {:induction false} ListingsMembers<K(!new), V>(lt: (K, K) -> bool, start: K, end: K, xs: seq<Index<K, V>>,
                                                       e: (K, V))
    ensures e in Listings(lt, start, end, xs) <==>
      exists i :: 0 <= i < |xs| && e in InRange(lt, start, end, Listing(xs[i]))
  {
    hide InRange, Listing;
    if xs != [] {
      var ys, x := xs[..|xs| - 1], xs[|xs| - 1];
      ListingsMembers(lt, start, end, ys, e);
      if e in InRange(lt, start, end, Listing(x)) {
        assert xs[|xs| - 1] == x;
      }
      if e in Listings(lt, start, end, ys) {
        var i :| 0 <= i < |ys| && e in InRange(lt, start, end, Listing(ys[i]));
        assert xs[i] == ys[i];
      }
      if exists i :: 0 <= i < |xs| && e in InRange(lt, start, end, Listing(xs[i])) {
        var i :| 0 <= i < |xs| && e in InRange(lt, start, end, Listing(xs[i]));
        if i < |ys| { assert ys[i] == xs[i]; }
      }
    }
  }

  lemma InRangeMember<K(!new), V>(lt: (K, K) -> bool, t: nat, start: K, end: K, x: Index<K, V>, e: (K, V))
    requires Good(lt, t, x)
    ensures e in InRange(lt, start, end, Listing(x)) <==>
      Binds(MapOf(x), e.0, e.1) && Within(lt, LowEnd(start, end), HighEnd(start, end), e.0)
  {
    BetweenMembers(lt, Listing(x), LowEnd(start, end), HighEnd(start, end), e);
    ContentsEntries(lt, Listing(x), e.0, e.1);
  }

  lemma SortedDistinct<K(!new), V>(lt: (K, K) -> bool, s: seq<(K, V)>)
    requires TotalOrder(lt) && Sorted(lt, s)
    ensures DistinctKeys(s)
  {
  }

  /** Shards own disjoint keys, so the concatenated listings have no duplicate key. */
  lemma {:induction false} ListingsDistinct<K(!new), V>(lt: (K, K) -> bool, t: nat, hash: K -> nat, n: nat,
                                                        start: K, end: K, xs: seq<Index<K, V>>)
    requires n > 0 && |xs| <= n && TotalOrder(lt)
    requires forall i :: 0 <= i < |xs| ==> Good(lt, t, xs[i])
    requires forall i, k :: 0 <= i < |xs| && k in MapOf(xs[i]) ==> Owner(hash, n, k) == i
    ensures DistinctKeys(Listings(lt, start, end, xs))
  {
    hide InRange, Listing, Good, TotalOrder;
    if xs != [] {
      var ys, x := xs[..|xs| - 1], xs[|xs| - 1];
      ListingsDistinct(lt, t, hash, n, start, end, ys);
      var a, b := Listings(lt, start, end, ys), InRange(lt, start, end, Listing(x));
      RangeDistinct(lt, t, start, end, x);
      forall i, j | 0 <= i < |a| && 0 <= j < |b|
        ensures a[i].0 != b[j].0
      {
        ListingsMembers(lt, start, end, ys, a[i]);
        var m :| 0 <= m < |ys| && a[i] in InRange(lt, start, end, Listing(ys[m]));
        InRangeMember(lt, t, start, end, ys[m], a[i]);
        InRangeMember(lt, t, start, end, x, b[j]);
        assert b[j] in b;
        assert Owner(hash, n, a[i].0) == m by { assert ys[m] == xs[m] && a[i].0 in MapOf(xs[m]); }
        assert Owner(hash, n, b[j].0) == |xs| - 1 by { assert b[j].0 in MapOf(xs[|xs| - 1]); }
      }
      DistinctConcat(a, b);
    }
  }

  lemma RangeDistinct<K(!new), V>(lt: (K, K) -> bool, t: nat, start: K, end: K, x: Index<K, V>)
    requires Good(lt, t, x)
    ensures DistinctKeys(InRange(lt, start, end, Listing(x)))
  {
    BetweenSorted(lt, Listing(x), LowEnd(start, end), HighEnd(start, end));
    SortedDistinct(lt, InRange(lt, start, end, Listing(x)));
  }

  lemma DistinctConcat<K, V>(a: seq<(K, V)>, b: seq<(K, V)>)
    requires DistinctKeys(a) && DistinctKeys(b)
    requires forall i, j :: 0 <= i < |a| && 0 <= j < |b| ==> a[i].0 != b[j].0
    ensures DistinctKeys(a + b)
  {
  }

  /** Sorting some entries with distinct keys, stable or not, gives a strictly ascending listing of them. */
  lemma SortIsStrict<K(!new), V>(lt: (K, K) -> bool, a: seq<(K, V)>, r: seq<(K, V)>)
    requires TotalOrder(lt) && DistinctKeys(a) && multiset(r) <= multiset(a) && Ascending(lt, r)
    ensures Sorted(lt, r)
    ensures forall e :: e in r ==> e in a
    ensures multiset(r) == multiset(a) ==> forall e :: e in a ==> e in r
  {
    forall e
      ensures e in r ==> e in a
      ensures multiset(r) == multiset(a) && e in a ==> e in r
    {
      assert e in r <==> e in multiset(r);
      assert e in a <==> e in multiset(a);
    }
    forall i, j | 0 <= i < j < |r|
      ensures lt(r[i].0, r[j].0)
    {
      if r[i].0 == r[j].0 {
        TwoOfOneKey(r, i, j);
        OneOfEachKey(a, r[i], r[j]);
      }
    }
  }

  lemma TwoOfOneKey<E>(r: seq<E>, i: nat, j: nat)
    requires i < j < |r|
    ensures multiset{r[i], r[j]} <= multiset(r)
  {
    assert r == r[..i] + [r[i]] + r[i + 1..j] + [r[j]] + r[j + 1..];
  }

  lemma {:induction false} OneOfEachKey<K(!new), V>(a: seq<(K, V)>, e: (K, V), f: (K, V))
    requires DistinctKeys(a) && e.0 == f.0
    ensures !(multiset{e, f} <= multiset(a))
  {
    if a != [] {
      var b, l := a[..|a| - 1], a[|a| - 1];
      assert a == b + [l];
      OneOfEachKey(b, e, f);
      assert multiset(a) == multiset(b) + multiset{l};
      if e.0 == l.0 {
        NoKey(b, e);
        NoKey(b, f);
      }
      if e == f { assert multiset{e, f}[e] == 2; }
    }
  }

  lemma NoKey<K(!new), V>(b: seq<(K, V)>, e: (K, V))
    requires forall i :: 0 <= i < |b| ==> b[i].0 != e.0
    ensures e !in multiset(b)
  {
  }
}
