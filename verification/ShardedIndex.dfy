/**
 The sharded index: `shards[hash(key) % n]` owns a key. Its operations are tied
 to the one map all shards stand for, with the same answers as a single B-tree.
 */
module ShardedIndex {
  import opened OrderedEntries
  import opened TreeIndex
  import opened BTreeScan
  import opened BTreeIndex
  import opened ShardModel
  import opened ShardRuns

  class Sharded<K(==, !new), V> {
    const lt: (K, K) -> bool
    const t: nat
    const hash: K -> nat
    var shards: seq<BTree<K, V>>

    ghost function Values(): (xs: seq<Index<K, V>>)
      reads this, shards, set i | 0 <= i < |shards| :: shards[i].root
      ensures |xs| == |shards|
      ensures forall i :: 0 <= i < |shards| ==> xs[i] == shards[i].Value()
    {
      ValuesOf(shards)
    }

    /** Separate valid trees. */
    ghost predicate Apart()
      reads this, shards, set i | 0 <= i < |shards| :: shards[i].root
      reads set i, o | 0 <= i < |shards| && shards[i].root != null && o in shards[i].root.repr :: o
    {
      && (forall i, j :: 0 <= i < j < |shards| ==> shards[i] != shards[j])
      && (forall i :: 0 <= i < |shards| ==> shards[i].Valid() && shards[i].lt == lt && shards[i].t == t)
    }

    ghost predicate Valid()
      reads this, shards, set i | 0 <= i < |shards| :: shards[i].root
      reads set i, o | 0 <= i < |shards| && shards[i].root != null && o in shards[i].root.repr :: o
    {
      Apart() && Routed(lt, t, hash, Values())
    }

    ghost function Map(): map<K, V>
      reads this, shards, set i | 0 <= i < |shards| :: shards[i].root
    {
      Union(Values())
    }

    /** A shard count below one is raised to one. */
    constructor (lt: (K, K) -> bool, hash: K -> nat, n: int := 16, t: nat := 32)
      requires TotalOrder(lt) && t >= 2
      ensures Valid() && Map() == map[]
      ensures |shards| == if n < 1 then 1 else n
      ensures this.lt == lt && this.hash == hash && this.t == t
    {
      hide Contents, Listing, TotalOrder, Union, Routed, BTree.Valid, BTree.Value, Fresh;
      this.lt, this.t, this.hash := lt, t, hash;
      var count: nat := if n < 1 then 1 else n;
      var made := EmptyTrees<K, V>(lt, t, count);
      shards := made;
      FreshRouted<K, V>(lt, t, hash, count);
      FreshUnion<K, V>(count);
    }

    method ShardFor(key: K) returns (i: nat)
      requires |shards| > 0
      ensures i == Owner(hash, |shards|, key)
    {
      i := hash(key) % |shards|;
    }

    method Find(key: K) returns (r: Option<V>)
      requires Valid()
      ensures r == Get(Map(), key)
    {
      hide Contents, Listing, Good, TotalOrder, Union, Upserted, Removed, Routed, BTree.Valid, BTree.Value;
      RoutedFacts(lt, t, hash, Values());
      var i := ShardFor(key);
      OwnerDecides(lt, t, hash, Values(), key);
      var found, _ := shards[i].Find(key);
      r := found;
    }

    method Upsert<E>(key: K, check: (K, Option<V>) -> Verdict<V, E>) returns (updated: bool, err: Option<E>)
      requires Valid()
      modifies shards
      ensures Valid() && shards == old(shards)
      ensures match check(key, Get(old(Map()), key))
        case Store(v) => updated && err == None && Map() == old(Map())[key := v]
        case Refuse(e) => !updated && Map() == old(Map()) && err == if key in old(Map()) then None else Some(e)
    {
      hide Contents, Listing, Good, TotalOrder, Union;
      hide Upserted, Removed, Routed, BTree.Valid, BTree.Value, Sharded.Apart;
      RoutedFacts(lt, t, hash, Values());
      ghost var xs := Values();
      var i := ShardFor(key);
      OwnerDecides(lt, t, hash, xs, key);
      updated, err := UpsertIn(i, key, check);
      match check(key, Get(MapOf(xs[i]), key)) {
        case Store(v) => ShardStep(lt, t, hash, xs, OpUpsert(key, v));
        case Refuse(_) =>
      }
    }

    /** The upsert of one shard; the others stay. */
    method UpsertIn<E>(i: nat, key: K, check: (K, Option<V>) -> Verdict<V, E>) returns (updated: bool, err: Option<E>)
      requires Apart() && i < |shards| && Good(lt, t, Values()[i])
      modifies shards[i]
      ensures Apart() && shards == old(shards)
      ensures match check(key, Get(MapOf(old(Values()[i])), key))
        case Store(v) =>
          updated && err == None && Values() == old(Values())[i := Upserted(lt, t, old(Values()[i]), key, v)]
        case Refuse(e) =>
          && !updated && Values() == old(Values())
          && err == if key in MapOf(old(Values()[i])) then None else Some(e)
    {
      hide Contents, Listing, Good, Upserted, BTree.Valid, BTree.Value;
      ghost var xs := Values();
      updated, err := shards[i].Upsert(key, check);
      assert forall j :: 0 <= j < |shards| && j != i ==> Values()[j] == xs[j];
    }

    method Remove(key: K) returns (was: Option<V>)
      requires Valid()
      modifies shards
      ensures Valid() && shards == old(shards)
      ensures was == Get(old(Map()), key) && Map() == old(Map()) - {key}
    {
      hide Contents, Listing, Good, TotalOrder, Union;
      hide Upserted, Removed, Routed, BTree.Valid, BTree.Value, Sharded.Apart;
      RoutedFacts(lt, t, hash, Values());
      ghost var xs := Values();
      var i := ShardFor(key);
      OwnerDecides(lt, t, hash, xs, key);
      ShardStep(lt, t, hash, xs, OpRemove(key));
      was := RemoveIn(i, key);
    }

    /** The removal from one shard; the others stay. */
    method RemoveIn(i: nat, key: K) returns (was: Option<V>)
      requires Apart() && i < |shards| && Good(lt, t, Values()[i])
      modifies shards[i]
      ensures Apart() && shards == old(shards)
      ensures was == Get(MapOf(old(Values()[i])), key)
      ensures Values() == old(Values())[i := Removed(lt, t, old(Values()[i]), key).0]
    {
      hide Contents, Listing, Good, Removed, BTree.Valid, BTree.Value;
      ghost var xs := Values();
      was := shards[i].Remove(key);
      assert forall j :: 0 <= j < |shards| && j != i ==> Values()[j] == xs[j];
    }

    /**
     Queries every shard in turn and sorts the concatenated answers by key.
     `cancelled(i, j)` is what shard i is told when it polls the context for the
     j-th time; a cancelled query answers with a part of the bindings.
     */
    method Query(start: K, end: K, cancelled: (nat, nat) -> bool) returns (all: seq<(K, V)>)
      requires Valid()
      ensures Sorted(lt, all)
      ensures forall k, v :: (k, v) in all ==>
        Binds(Map(), k, v) && (start == end || (!lt(k, start) && !lt(end, k)))
      ensures (forall i, j :: !cancelled(i, j)) ==>
        forall k, v :: Binds(Map(), k, v) && (start == end || (!lt(k, start) && !lt(end, k))) ==> (k, v) in all
    {
      hide Contents, Listing, Good, TotalOrder, Union, Routed;
      hide BTree.Valid, BTree.Value, InRange, Listings, Sorted;
      RoutedFacts(lt, t, hash, Values());
      ghost var xs := Values();
      var found := Gather(start, end, cancelled);
      all := SortByKey(lt, found);
      PartialListing(lt, t, hash, xs, start, end, all);
      if forall i, j :: !cancelled(i, j) { MergedListing(lt, t, hash, xs, start, end, all); }
    }

    /** The answer of one shard, or a part of it when cancelled. */
    method Ask(i: nat, start: K, end: K, cancelled: (nat, nat) -> bool) returns (res: seq<(K, V)>)
      requires Valid() && i < |shards|
      ensures res <= InRange(lt, start, end, Listing(Values()[i]))
      ensures (forall j :: !cancelled(i, j)) ==> res == InRange(lt, start, end, Listing(Values()[i]))
    {
      hide Listing, Good, TotalOrder, BTree.Valid, BTree.Value, InRange, Polled, NoneCancelled;
      res := shards[i].Query(start, end, (j: nat) => cancelled(i, j));
    }

    /** The answers of all shards, one after the other; parts of them when cancelled. */
    method Gather(start: K, end: K, cancelled: (nat, nat) -> bool) returns (found: seq<(K, V)>)
      requires Valid()
      ensures multiset(found) <= multiset(Listings(lt, start, end, Values()))
      ensures (forall i, j :: !cancelled(i, j)) ==> found == Listings(lt, start, end, Values())
    {
      hide Contents, Listing, Good, TotalOrder, Union, Routed, BTree.Valid, BTree.Value, InRange, Listings;
      ghost var xs := Values();
      found := [];
      var i: nat := 0;
      ListingsStep(lt, start, end, xs, 0);
      while i < |shards|
        invariant i <= |shards|
        invariant multiset(found) <= multiset(Listings(lt, start, end, xs[..i]))
        invariant (forall a, b :: !cancelled(a, b)) ==> found == Listings(lt, start, end, xs[..i])
      {
        var res := Ask(i, start, end, cancelled);
        ListingsStep(lt, start, end, xs, i + 1);
        PartConcat(found, Listings(lt, start, end, xs[..i]), res, InRange(lt, start, end, Listing(xs[i])));
        found := found + res;
        i := i + 1;
      }
      assert xs[..i] == xs;
    }
  }

  lemma ListingsStep<K(!new), V>(lt: (K, K) -> bool, start: K, end: K, xs: seq<Index<K, V>>, i: nat)
    requires i <= |xs|
    ensures Listings(lt, start, end, xs[..i]) ==
      if i == 0 then [] else Listings(lt, start, end, xs[..i - 1]) + InRange(lt, start, end, Listing(xs[i - 1]))
  {
    if i > 0 { assert xs[..i][..i - 1] == xs[..i - 1]; }
  }

  lemma PartConcat<E>(found: seq<E>, all: seq<E>, p: seq<E>, s: seq<E>)
    requires multiset(found) <= multiset(all) && p <= s
    ensures multiset(found + p) <= multiset(all + s)
  {
    assert all + s == all + p + s[|p|..];
  }

  /** The loop that fills the slice of shards. */
  method EmptyTrees<K(==, !new), V>(lt: (K, K) -> bool, t: nat, count: nat) returns (made: seq<BTree<K, V>>)
    requires TotalOrder(lt) && t >= 2
    ensures |made| == count
    ensures forall i, j :: 0 <= i < j < |made| ==> made[i] != made[j]
    ensures forall i :: 0 <= i < |made| ==> fresh(made[i]) && made[i].Valid() && made[i].lt == lt && made[i].t == t
    ensures ValuesOf(made) == Fresh<K, V>(count)
  {
    hide TotalOrder, BTree.Valid, BTree.Value;
    made := [];
    while |made| < count
      invariant |made| <= count
      invariant forall i, j :: 0 <= i < j < |made| ==> made[i] != made[j]
      invariant forall i :: 0 <= i < |made| ==>
        fresh(made[i]) && made[i].Valid() && made[i].lt == lt && made[i].t == t && made[i].Value() == Empty
    {
      var tree := new BTree(lt, t);
      made := made + [tree];
    }
    assert ValuesOf(made) == Fresh<K, V>(count);
  }

  ghost function ValuesOf<K(!new), V>(shards: seq<BTree<K, V>>): (xs: seq<Index<K, V>>)
    reads shards, set i | 0 <= i < |shards| :: shards[i].root
    ensures |xs| == |shards|
    ensures forall i :: 0 <= i < |shards| ==> xs[i] == shards[i].Value()
  {
    if shards == [] then [] else ValuesOf(shards[..|shards| - 1]) + [shards[|shards| - 1].Value()]
  }

  /** Stands for sort.Slice: some ascending permutation. */
  method SortByKey<K(!new), V>(lt: (K, K) -> bool, s: seq<(K, V)>) returns (r: seq<(K, V)>)
    requires TotalOrder(lt)
    ensures multiset(r) == multiset(s) && Ascending(lt, r)
  {
    r := [];
    var i := 0;
    while i < |s|
      invariant i <= |s| && multiset(r) == multiset(s[..i]) && Ascending(lt, r)
    {
      r := InsertByKey(lt, r, s[i]);
      assert s[..i + 1] == s[..i] + [s[i]];
      i := i + 1;
    }
    assert s[..i] == s;
  }

  method InsertByKey<K(!new), V>(lt: (K, K) -> bool, s: seq<(K, V)>, e: (K, V)) returns (r: seq<(K, V)>)
    requires TotalOrder(lt) && Ascending(lt, s)
    ensures multiset(r) == multiset(s) + multiset{e} && Ascending(lt, r)
  {
    var j: nat := |s|;
    while j > 0 && lt(e.0, s[j - 1].0)
      invariant j <= |s|
      invariant forall m :: j <= m < |s| ==> lt(e.0, s[m].0)
    {
      j := j - 1;
    }
    r := s[..j] + [e] + s[j..];
    assert s == s[..j] + s[j..];
    InsertAscending(lt, s, e, j);
  }

  lemma InsertAscending<K(!new), V>(lt: (K, K) -> bool, s: seq<(K, V)>, e: (K, V), j: nat)
    requires TotalOrder(lt) && Ascending(lt, s) && j <= |s|
    requires j > 0 ==> !lt(e.0, s[j - 1].0)
    requires forall m :: j <= m < |s| ==> lt(e.0, s[m].0)
    ensures Ascending(lt, s[..j] + [e] + s[j..])
  {
    var r := s[..j] + [e] + s[j..];
    forall a, b | 0 <= a < b < |r|
      ensures !lt(r[b].0, r[a].0)
    {
      if b < j {
        assert r[a] == s[a] && r[b] == s[b];
      } else if b == j {
        assert r[a] == s[a];
        if a < j - 1 { assert !lt(s[j - 1].0, s[a].0); }
      } else if a == j {
        assert r[b] == s[b - 1];
      } else {
        assert r[b] == s[b - 1] && r[a] == if a < j then s[a] else s[a - 1];
      }
    }
  }
}
