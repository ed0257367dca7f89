/**
 Runs of the sharded index. Sequentially it answers exactly as one B-tree; with
 writers between the shard loads of a query, the merged answer is still sorted
 and free of duplicates, and is bounded by what the map held during the query.
 */
module ShardRuns {
  import opened OrderedEntries
  import opened TreeIndex
  import opened BTreeScan
  import opened ShardModel

  /** The shards after the first `j` operations, each run in the shard that owns its key. */
  ghost function StateAt<K(!new), V>(lt: (K, K) -> bool, t: nat, hash: K -> nat, xs: seq<Index<K, V>>,
                                     ops: seq<Op<K, V>>, j: nat): (ys: seq<Index<K, V>>)
    requires Routed(lt, t, hash, xs) && j <= |ops|
    ensures Routed(lt, t, hash, ys) && |ys| == |xs|
    decreases j
  {
    if j == 0 then xs
    else
      var ys := StateAt(lt, t, hash, xs, ops, j - 1);
      var o := Owner(hash, |ys|, ops[j - 1].key);
      ShardStep(lt, t, hash, ys, ops[j - 1]);
      ys[o := AppliedTo(lt, t, ys[o], ops[j - 1])]
  }

  /** One operation in the owning shard is that operation on the one map. */
  lemma ShardStep<K(!new), V>(lt: (K, K) -> bool, t: nat, hash: K -> nat, xs: seq<Index<K, V>>, op: Op<K, V>)
    requires Routed(lt, t, hash, xs)
    ensures var o := Owner(hash, |xs|, op.key);
      && Routed(lt, t, hash, xs[o := AppliedTo(lt, t, xs[o], op)])
      && Union(xs[o := AppliedTo(lt, t, xs[o], op)]) == MapAfter(Union(xs), op)
  {
    hide Contents, Listing, Upserted, Removed, Union;
    var k := op.key;
    var o := Owner(hash, |xs|, k);
    var y := AppliedTo(lt, t, xs[o], op);
    OpCorrect(lt, t, xs[o], op);
    ShardUpdate(lt, t, hash, xs, k, y, MapAfter(Union(xs), op));
  }

  ghost function Fresh<K(!new), V>(n: nat): (xs: seq<Index<K, V>>)
    ensures |xs| == n && forall i :: 0 <= i < n ==> xs[i] == Empty
  {
    seq(n, i => Empty)
  }

  lemma {:induction false} FreshUnion<K(!new), V>(n: nat)
    ensures Union(Fresh<K, V>(n)) == map[]
  {
    if n > 0 {
      FreshUnion<K, V>(n - 1);
      assert Fresh<K, V>(n)[..n - 1] == Fresh<K, V>(n - 1);
    }
  }

  lemma {:induction false} UnionAt<K(!new), V>(lt: (K, K) -> bool, t: nat, hash: K -> nat, xs: seq<Index<K, V>>,
                                               ops: seq<Op<K, V>>, j: nat)
    requires Routed(lt, t, hash, xs) && Union(xs) == map[] && j <= |ops|
    ensures Union(StateAt(lt, t, hash, xs, ops, j)) == RunMap(ops[..j])
    decreases j
  {
    hide Routed, Union;
    if j > 0 {
      UnionAt(lt, t, hash, xs, ops, j - 1);
      ShardStep(lt, t, hash, StateAt(lt, t, hash, xs, ops, j - 1), ops[j - 1]);
      assert ops[..j][..j - 1] == ops[..j - 1];
    } else {
      assert ops[..0] == [];
    }
  }

  /** `r` is some sort by key of the concatenated shard answers. */
  ghost predicate Merged<K(!new), V>(lt: (K, K) -> bool, xs: seq<Index<K, V>>, start: K, end: K, r: seq<(K, V)>) {
    multiset(r) == multiset(Listings(lt, start, end, xs)) && Ascending(lt, r)
  }

  /** Any sort of some of the concatenated shard answers is strictly ascending and within the one map and the range. */
  lemma PartialListing<K(!new), V>(lt: (K, K) -> bool, t: nat, hash: K -> nat, xs: seq<Index<K, V>>,
                                   start: K, end: K, r: seq<(K, V)>)
    requires Routed(lt, t, hash, xs)
    requires multiset(r) <= multiset(Listings(lt, start, end, xs)) && Ascending(lt, r)
    ensures Sorted(lt, r)
    ensures forall k, v :: (k, v) in r ==>
      Binds(Union(xs), k, v) && Within(lt, LowEnd(start, end), HighEnd(start, end), k)
  {
    hide Contents, Listing, InRange, Within, Union, Good, Sorted;
    RoutedFacts(lt, t, hash, xs);
    ListingsDistinct(lt, t, hash, |xs|, start, end, xs);
    SortIsStrict(lt, Listings(lt, start, end, xs), r);
    forall k, v | (k, v) in r
      ensures Binds(Union(xs), k, v) && Within(lt, LowEnd(start, end), HighEnd(start, end), k)
    {
      ListingsMembers(lt, start, end, xs, (k, v));
      OwnerDecides(lt, t, hash, xs, k);
      var i :| 0 <= i < |xs| && (k, v) in InRange(lt, start, end, Listing(xs[i]));
      InRangeMember(lt, t, start, end, xs[i], (k, v));
      assert k in MapOf(xs[i]);
    }
  }

  /** Any sort of the concatenated shard listings is the ascending listing of the one map in the range. */
  lemma MergedListing<K(!new), V>(lt: (K, K) -> bool, t: nat, hash: K -> nat, xs: seq<Index<K, V>>,
                                  start: K, end: K, r: seq<(K, V)>)
    requires Routed(lt, t, hash, xs) && Merged(lt, xs, start, end, r)
    ensures Sorted(lt, r)
    ensures forall k, v :: (k, v) in r <==>
      Binds(Union(xs), k, v) && Within(lt, LowEnd(start, end), HighEnd(start, end), k)
  {
    hide Contents, Listing, InRange, Within, Union, Good, Sorted;
    RoutedFacts(lt, t, hash, xs);
    PartialListing(lt, t, hash, xs, start, end, r);
    ListingsDistinct(lt, t, hash, |xs|, start, end, xs);
    SortIsStrict(lt, Listings(lt, start, end, xs), r);
    forall k, v | Binds(Union(xs), k, v) && Within(lt, LowEnd(start, end), HighEnd(start, end), k)
      ensures (k, v) in r
    {
      var o := Owner(hash, |xs|, k);
      ListingsMembers(lt, start, end, xs, (k, v));
      OwnerDecides(lt, t, hash, xs, k);
      InRangeMember(lt, t, start, end, xs[o], (k, v));
    }
  }

  lemma GoodOrder<K(!new), V>(lt: (K, K) -> bool, t: nat, x: Index<K, V>)
    requires Good(lt, t, x)
    ensures TotalOrder(lt)
  {
  }

  /** ... which is what one tree with that map lists. */
  lemma MergedIsTreeQuery<K(!new), V>(lt: (K, K) -> bool, t: nat, hash: K -> nat, xs: seq<Index<K, V>>,
                                      x: Index<K, V>, start: K, end: K, r: seq<(K, V)>)
    requires Routed(lt, t, hash, xs) && Good(lt, t, x) && MapOf(x) == Union(xs)
    requires Merged(lt, xs, start, end, r)
    ensures r == InRange(lt, start, end, Listing(x))
  {
    hide Contents, Listing, InRange, Within, Union, Good, Sorted, TotalOrder;
    var q := InRange(lt, start, end, Listing(x));
    GoodOrder(lt, t, x);
    MergedListing(lt, t, hash, xs, start, end, r);
    RangeSorted(lt, t, x, start, end);
    forall k, v
      ensures Binds(Contents(r), k, v) <==> Binds(Contents(q), k, v)
    {
      ContentsEntries(lt, r, k, v);
      ContentsEntries(lt, q, k, v);
      InRangeMember(lt, t, start, end, x, (k, v));
    }
    SameEntries(Contents(r), Contents(q));
    SortedIsUnique(lt, r, q);
  }

  lemma RangeSorted<K(!new), V>(lt: (K, K) -> bool, t: nat, x: Index<K, V>, start: K, end: K)
    requires Good(lt, t, x)
    ensures Sorted(lt, InRange(lt, start, end, Listing(x)))
  {
    BetweenSorted(lt, Listing(x), LowEnd(start, end), HighEnd(start, end));
  }

  /**
   For every shard count, hash and operation sequence, the shards hold the map
   of one B-tree run on the same operations, each lookup in the owning shard
   answers as that tree would, and so does each merged query.
   */
  lemma ShardsRefineTree<K(!new), V>(lt: (K, K) -> bool, t: nat, hash: K -> nat, n: nat, ops: seq<Op<K, V>>,
                                     key: K, start: K, end: K, r: seq<(K, V)>)
    requires TotalOrder(lt) && t >= 2 && n >= 1
    ensures Routed(lt, t, hash, Fresh<K, V>(n))
    ensures var xs, x := StateAt(lt, t, hash, Fresh<K, V>(n), ops, |ops|), Run(lt, t, ops);
      && Union(xs) == MapOf(x) == RunMap(ops)
      && Get(MapOf(xs[Owner(hash, n, key)]), key) == Get(MapOf(x), key)
      && (Merged(lt, xs, start, end, r) ==> r == InRange(lt, start, end, Listing(x)))
  {
    FreshRouted<K, V>(lt, t, hash, n);
    FreshUnion<K, V>(n);
    hide TotalOrder, Contents, InRange, Union, Fresh, Good, Listing, Merged, Routed;
    var xs, x := StateAt(lt, t, hash, Fresh<K, V>(n), ops, |ops|), Run(lt, t, ops);
    UnionAt(lt, t, hash, Fresh<K, V>(n), ops, |ops|);
    assert ops[..|ops|] == ops;
    RunRefinesMap(lt, t, ops);
    OwnerDecides(lt, t, hash, xs, key);
    if Merged(lt, xs, start, end, r) {
      MergedIsTreeQuery(lt, t, hash, xs, x, start, end, r);
    }
  }

  lemma FreshRouted<K(!new), V>(lt: (K, K) -> bool, t: nat, hash: K -> nat, n: nat)
    requires TotalOrder(lt) && t >= 2 && n >= 1
    ensures Routed(lt, t, hash, Fresh<K, V>(n))
  {
  }

  // ---------- concurrent queries ----------

  /** What a query sees that loads the root of shard i at instant at[i] of the run. */
  ghost function Seen<K(!new), V>(lt: (K, K) -> bool, t: nat, hash: K -> nat, xs: seq<Index<K, V>>,
                                  ops: seq<Op<K, V>>, at: seq<nat>): (ys: seq<Index<K, V>>)
    requires Routed(lt, t, hash, xs) && |at| == |xs| && forall i :: 0 <= i < |at| ==> at[i] <= |ops|
    ensures |ys| == |xs|
  {
    seq(|xs|, i requires 0 <= i < |xs| => StateAt(lt, t, hash, xs, ops, at[i])[i])
  }

  ghost predicate LoadsInOrder(at: seq<nat>) {
    forall i, j :: 0 <= i <= j < |at| ==> at[i] <= at[j]
  }

  /** The index as a whole binds `k` to `v` after the first `j` operations. */
  ghost predicate Held<K(!new), V>(lt: (K, K) -> bool, t: nat, hash: K -> nat, xs: seq<Index<K, V>>, ops: seq<Op<K, V>>,
                                   j: nat, k: K, v: V)
    requires Routed(lt, t, hash, xs) && j <= |ops|
  {
    Binds(Union(StateAt(lt, t, hash, xs, ops, j)), k, v)
  }

  /**
   With any writes between the shard loads: the answer is strictly sorted; every
   binding in it is in range and held at an instant between the first and the
   last load; every binding in range that held throughout is in it.
   */
  lemma ConcurrentQuery<K(!new), V>(lt: (K, K) -> bool, t: nat, hash: K -> nat, xs: seq<Index<K, V>>,
                                    ops: seq<Op<K, V>>,
                                    at: seq<nat>, start: K, end: K, r: seq<(K, V)>, k: K, v: V)
    requires Routed(lt, t, hash, xs) && |at| == |xs| && LoadsInOrder(at)
    requires forall i :: 0 <= i < |at| ==> at[i] <= |ops|
    ensures Merged(lt, Seen(lt, t, hash, xs, ops, at), start, end, r) ==>
      && Sorted(lt, r)
      && ((k, v) in r ==>
            && Within(lt, LowEnd(start, end), HighEnd(start, end), k)
            && exists j :: at[0] <= j <= at[|at| - 1] && Held(lt, t, hash, xs, ops, j, k, v))
      && (Within(lt, LowEnd(start, end), HighEnd(start, end), k)
          && (forall j :: at[0] <= j <= at[|at| - 1] ==> Held(lt, t, hash, xs, ops, j, k, v))
          ==> (k, v) in r)
  {
    hide Contents, InRange, Union, Listing, Sorted, Good, Within, Merged, StateAt, Routed;
    RoutedFacts(lt, t, hash, xs);
    if Merged(lt, Seen(lt, t, hash, xs, ops, at), start, end, r) {
      SeenRouted(lt, t, hash, xs, ops, at);
      MergedListing(lt, t, hash, Seen(lt, t, hash, xs, ops, at), start, end, r);
      SeenHeld(lt, t, hash, xs, ops, at, k, v);
      assert at[0] <= at[Owner(hash, |xs|, k)] <= at[|at| - 1];
    }
  }

  lemma RoutedFacts<K(!new), V>(lt: (K, K) -> bool, t: nat, hash: K -> nat, xs: seq<Index<K, V>>)
    requires Routed(lt, t, hash, xs)
    ensures |xs| > 0 && TotalOrder(lt) && forall i :: 0 <= i < |xs| ==> Good(lt, t, xs[i])
  {
    assert Good(lt, t, xs[0]);
  }

  lemma SeenHeld<K(!new), V>(lt: (K, K) -> bool, t: nat, hash: K -> nat, xs: seq<Index<K, V>>, ops: seq<Op<K, V>>,
                             at: seq<nat>, k: K, v: V)
    requires Routed(lt, t, hash, xs) && |at| == |xs| > 0 && forall i :: 0 <= i < |at| ==> at[i] <= |ops|
    ensures Binds(Union(Seen(lt, t, hash, xs, ops, at)), k, v)
       <==> Held(lt, t, hash, xs, ops, at[Owner(hash, |xs|, k)], k, v)
  {
    hide Union, StateAt, Routed;
    SeenBinds(lt, t, hash, xs, ops, at, k);
  }

  lemma SeenRouted<K(!new), V>(lt: (K, K) -> bool, t: nat, hash: K -> nat, xs: seq<Index<K, V>>, ops: seq<Op<K, V>>,
                               at: seq<nat>)
    requires Routed(lt, t, hash, xs) && |at| == |xs| && forall i :: 0 <= i < |at| ==> at[i] <= |ops|
    ensures Routed(lt, t, hash, Seen(lt, t, hash, xs, ops, at))
  {
    hide Good, Contents, Listing, StateAt;
    var ys := Seen(lt, t, hash, xs, ops, at);
    forall i | 0 <= i < |ys|
      ensures Good(lt, t, ys[i]) && forall k :: k in MapOf(ys[i]) ==> Owner(hash, |ys|, k) == i
    {
      var zs := StateAt(lt, t, hash, xs, ops, at[i]);
      assert ys[i] == zs[i];
    }
  }

  lemma SeenBinds<K(!new), V>(lt: (K, K) -> bool, t: nat, hash: K -> nat, xs: seq<Index<K, V>>, ops: seq<Op<K, V>>,
                              at: seq<nat>, k: K)
    requires Routed(lt, t, hash, xs) && |at| == |xs| > 0 && forall i :: 0 <= i < |at| ==> at[i] <= |ops|
    ensures Get(Union(Seen(lt, t, hash, xs, ops, at)), k)
         == Get(Union(StateAt(lt, t, hash, xs, ops, at[Owner(hash, |xs|, k)])), k)
  {
    hide Good, Contents, Listing, StateAt, Union, Routed;
    var o := Owner(hash, |xs|, k);
    SeenRouted(lt, t, hash, xs, ops, at);
    OwnerDecides(lt, t, hash, Seen(lt, t, hash, xs, ops, at), k);
    OwnerDecides(lt, t, hash, StateAt(lt, t, hash, xs, ops, at[o]), k);
  }
}
