/**
 The whole index as a value: no root, or a balanced tree of some height whose
 listing is sorted. Upsert and remove keep that invariant and change the finite
 map the index stands for at one key.
 */
module TreeIndex {
  import opened OrderedEntries
  import opened Weaving
  import opened TreeModel
  import opened TreeInsert
  import opened TreeDelete

  datatype Index<K, V> = Empty | Rooted(h: nat, node: Tree<K, V>)

  /** The B-tree invariant: all leaves at depth `h`, every node but the root at least t-1 entries. */
  ghost predicate Good<K(!new), V>(lt: (K, K) -> bool, t: nat, x: Index<K, V>) {
    && TotalOrder(lt) && t >= 2
    && (x.Rooted? ==>
          && Balanced(t, x.h, x.node)
          && 1 <= |x.node.entries| <= 2 * t - 1
          && Sorted(lt, Flat(x.node)))
  }

  ghost function Listing<K, V>(x: Index<K, V>): seq<(K, V)> {
    match x
    case Empty => []
    case Rooted(_, n) => Flat(n)
  }

  ghost function Upserted<K(!new), V>(lt: (K, K) -> bool, t: nat, x: Index<K, V>, k: K, v: V): Index<K, V>
    requires Good(lt, t, x)
  {
    match x
    case Empty => Rooted(0, Node([(k, v)], []))
    case Rooted(h, n) => Grown(h, Insert(lt, t, h, n, k, v))
  }

  /** Two halves are put under a new root. */
  function Grown<K, V>(h: nat, r: Inserted<K, V>): Index<K, V> {
    match r
    case Whole(m) => Rooted(h, m)
    case Halves(l, e, g) => Rooted(h + 1, Node([e], [l, g]))
  }

  /** The index after the removal of `k`; the whole index is left as it was when `k` is absent. */
  ghost function Removed<K(!new), V>(lt: (K, K) -> bool, t: nat, x: Index<K, V>, k: K): (Index<K, V>, Option<V>)
    requires Good(lt, t, x)
  {
    match x
    case Empty => (Empty, None)
    case Rooted(h, n) =>
      var d := Delete(lt, t, h, n, k);
      if d.removed == None then (x, None) else (Shrunk(h, d.node), d.removed)
  }

  /** An emptied internal root gives way to its only child, an emptied leaf to no root. */
  ghost function Shrunk<K, V>(h: nat, m: Tree<K, V>): Index<K, V>
    requires Formed(h, m)
  {
    if m.entries != [] then Rooted(h, m)
    else if h > 0 then Rooted(h - 1, m.children[0])
    else Empty
  }

  lemma InsertListing<K(!new), V>(lt: (K, K) -> bool, t: nat, x: Index<K, V>, k: K, v: V)
    requires Good(lt, t, x)
    ensures Listing(Upserted(lt, t, x, k, v)) == Put(lt, Listing(x), k, v)
    ensures Upserted(lt, t, x, k, v).Rooted?
  {
    match x {
      case Empty => UpdateOne(lt, k, v, v);
      case Rooted(h, n) =>
        InsertCorrect(lt, t, h, n, k, v);
        NewRoot(t, h, Insert(lt, t, h, n, k, v));
    }
  }

  lemma InsertKeepsShape<K(!new), V>(lt: (K, K) -> bool, t: nat, x: Index<K, V>, k: K, v: V)
    requires Good(lt, t, x)
    ensures var y := Upserted(lt, t, x, k, v);
      && Balanced(t, y.h, y.node) && 1 <= |y.node.entries| <= 2 * t - 1
      && (if x.Empty? then y.h == 0 else x.h <= y.h <= x.h + 1)
  {
    if x.Rooted? {
      NewRoot(t, x.h, Insert(lt, t, x.h, x.node, k, v));
    }
  }

  /** Upsert: the invariant holds again, exactly one key changes, and the height grows by at most one. */
  lemma InsertIndexCorrect<K(!new), V>(lt: (K, K) -> bool, t: nat, x: Index<K, V>, k: K, v: V)
    requires Good(lt, t, x)
    ensures var y := Upserted(lt, t, x, k, v);
      && Good(lt, t, y) && y.Rooted?
      && Listing(y) == Put(lt, Listing(x), k, v)
      && Contents(Listing(y)) == Contents(Listing(x))[k := v]
      && (if x.Empty? then y.h == 0 else x.h <= y.h <= x.h + 1)
  {
    InsertListing(lt, t, x, k, v);
    InsertKeepsShape(lt, t, x, k, v);
    SortedPut(lt, Listing(x), k, v);
    PutIsMapUpdate(lt, Listing(x), k, v);
  }

  lemma NewRoot<K, V>(t: nat, h: nat, r: Inserted<K, V>)
    requires t >= 2
    requires r.Whole? ==> Balanced(t, h, r.node)
    requires r.Halves? ==> Full(t, h, r.left) && Full(t, h, r.right)
    ensures Balanced(t, Grown(h, r).h, Grown(h, r).node)
    ensures Flat(Grown(h, r).node) == FlatInserted(r)
  {
    if r.Halves? {
      var n := Node([r.mid], [r.left, r.right]);
      FlatEntry(n, 0);
      assert Left(n, 0) == [] && Right(n, 1) == [];
    }
  }

  lemma ShrunkFlat<K, V>(h: nat, m: Tree<K, V>)
    requires Formed(h, m)
    ensures Listing(Shrunk(h, m)) == Flat(m)
  {
    if m.entries == [] && h > 0 {
      FlatFocus(m, 0);
      assert Left(m, 0) == [] && Right(m, 0) == [];
    }
  }

  lemma RemoveListing<K(!new), V>(lt: (K, K) -> bool, t: nat, x: Index<K, V>, k: K)
    requires Good(lt, t, x)
    ensures Listing(Removed(lt, t, x, k).0) == Drop(lt, Listing(x), k)
    ensures Removed(lt, t, x, k).1 == Get(Contents(Listing(x)), k)
  {
    if x.Rooted? {
      var d := Delete(lt, t, x.h, x.node, k);
      DeleteCorrect(lt, t, x.h, x.node, k);
      if d.removed == None {
        AbsentDrop(lt, Flat(x.node), k);
      } else {
        ShrunkFlat(x.h, d.node);
      }
    }
  }

  lemma ShrunkShape<K, V>(t: nat, h: nat, m: Tree<K, V>)
    requires t >= 2 && Balanced(t, h, m) && |m.entries| <= 2 * t - 1
    ensures var y := Shrunk(h, m);
      y.Rooted? ==> Balanced(t, y.h, y.node) && 1 <= |y.node.entries| <= 2 * t - 1
  {
  }

  /** Remove: the invariant holds again, exactly one key goes, and its old value is returned. */
  lemma RemoveIndexCorrect<K(!new), V>(lt: (K, K) -> bool, t: nat, x: Index<K, V>, k: K)
    requires Good(lt, t, x)
    ensures var (y, was) := Removed(lt, t, x, k);
      && Good(lt, t, y)
      && Listing(y) == Drop(lt, Listing(x), k)
      && Contents(Listing(y)) == Contents(Listing(x)) - {k}
      && was == Get(Contents(Listing(x)), k)
  {
    RemoveListing(lt, t, x, k);
    DropIsMapRemoval(lt, Listing(x), k);
    SortedDrop(lt, Listing(x), k);
    if x.Rooted? {
      ShrunkShape(t, x.h, Delete(lt, t, x.h, x.node, k).node);
    }
  }

  lemma AbsentDrop<K(!new), V>(lt: (K, K) -> bool, s: seq<(K, V)>, k: K)
    requires TotalOrder(lt) && Sorted(lt, s) && Lookup(s, k) == None
    ensures Drop(lt, s, k) == s
  {
    var r := Drop(lt, s, k);
    DropIsMapRemoval(lt, s, k);
    SortedDrop(lt, s, k);
    assert Contents(r) == Contents(s);
    SortedIsUnique(lt, r, s);
  }

  // ---------- lookup ----------

  /** One step of the descent keeps the answer. */
  lemma LookupStep<K(!new), V>(lt: (K, K) -> bool, h: nat, n: Tree<K, V>, key: K)
    requires Formed(h, n) && TotalOrder(lt) && Sorted(lt, Flat(n))
    ensures var i := Rank(lt, n.entries, key);
      if Hit(n.entries, i, key) then Lookup(Flat(n), key) == Some(n.entries[i].1)
      else if h == 0 then Lookup(Flat(n), key) == None
      else Lookup(Flat(n), key) == Lookup(Flat(n.children[i]), key) && Sorted(lt, Flat(n.children[i]))
  {
    var i := Rank(lt, n.entries, key);
    if h == 0 {
      if Hit(n.entries, i, key) { LeafHitDrop(lt, n.entries, i); } else { LeafMissDrop(lt, n.entries, key); }
    } else if Hit(n.entries, i, key) {
      InnerLookup(lt, n, i);
    } else {
      SearchLeft(lt, n, key);
      SearchRight(lt, n, key);
      FlatFocus(n, i);
      FocusLookup(lt, Left(n, i), Flat(n.children[i]), Right(n, i), key);
      ChildSorted(lt, n, i);
    }
  }

  // ---------- occupancy ----------

  function Pow(t: nat, e: nat): (p: nat)
    ensures t >= 1 ==> p >= 1
  {
    if e == 0 then 1 else t * Pow(t, e - 1)
  }

  /** Everything in a non-root subtree of height h: at least t^(h+1) - 1 entries. */
  lemma {:induction false} SubtreeSize<K, V>(t: nat, h: nat, n: Tree<K, V>)
    requires t >= 2 && Balanced(t, h, n) && |n.entries| >= t - 1
    ensures |Flat(n)| >= Pow(t, h + 1) - 1
    decreases h
  {
    if h > 0 {
      var m := Pow(t, h) - 1;
      forall i | 0 <= i < |n.children|
        ensures |Flats(n.children)[i]| >= m
      {
        SubtreeSize(t, h - 1, n.children[i]);
      }
      WeaveSize(Flats(n.children), n.entries, m);
      Scale(t, |n.entries| + 1, m + 1);
    }
  }

  lemma Scale(t: nat, c: nat, p: nat)
    requires c >= t
    ensures c * p >= t * p
  {
  }

  lemma {:induction false} AfterSize<E>(fs: seq<seq<E>>, es: seq<E>, i: nat, m: nat)
    requires |fs| == |es| + 1 && i <= |es| && forall j :: 0 <= j < |fs| ==> |fs[j]| >= m
    ensures |After(fs, es, i)| >= (|es| - i) * (m + 1)
    decreases |es| - i
  {
    if i < |es| {
      AfterSize(fs, es, i + 1, m);
      assert (|es| - i) * (m + 1) == (|es| - (i + 1)) * (m + 1) + (m + 1);
    }
  }

  lemma WeaveSize<E>(fs: seq<seq<E>>, es: seq<E>, m: nat)
    requires |fs| == |es| + 1 && forall j :: 0 <= j < |fs| ==> |fs[j]| >= m
    ensures |Weave(fs, es)| >= (|es| + 1) * (m + 1) - 1
  {
    AfterSize(fs, es, 0, m);
    assert (|es| + 1) * (m + 1) == |es| * (m + 1) + (m + 1);
  }

  /** A tree of height h holds at least 2 t^h - 1 keys. */
  lemma OccupancyBound<K(!new), V>(lt: (K, K) -> bool, t: nat, x: Index<K, V>)
    requires Good(lt, t, x) && x.Rooted?
    ensures |Contents(Listing(x))| == |Listing(x)| >= 2 * Pow(t, x.h) - 1
  {
    ContentsSize(lt, Listing(x));
    if x.h > 0 {
      var n, m := x.node, Pow(t, x.h) - 1;
      forall i | 0 <= i < |n.children|
        ensures |Flats(n.children)[i]| >= m
      {
        SubtreeSize(t, x.h - 1, n.children[i]);
      }
      WeaveSize(Flats(n.children), n.entries, m);
      Scale(2, |n.entries| + 1, m + 1);
    }
  }

  // ---------- runs ----------

  datatype Op<K, V> = OpUpsert(key: K, val: V) | OpRemove(key: K)

  ghost function AppliedTo<K(!new), V>(lt: (K, K) -> bool, t: nat, x: Index<K, V>, op: Op<K, V>): Index<K, V>
    requires Good(lt, t, x)
  {
    match op
    case OpUpsert(k, v) => Upserted(lt, t, x, k, v)
    case OpRemove(k) => Removed(lt, t, x, k).0
  }

  function MapAfter<K, V>(m: map<K, V>, op: Op<K, V>): map<K, V> {
    match op
    case OpUpsert(k, v) => m[k := v]
    case OpRemove(k) => m - {k}
  }

  /** Every operation keeps the invariant and does to the map what it does to a plain map. */
  lemma OpCorrect<K(!new), V>(lt: (K, K) -> bool, t: nat, x: Index<K, V>, op: Op<K, V>)
    requires Good(lt, t, x)
    ensures Good(lt, t, AppliedTo(lt, t, x, op))
    ensures Contents(Listing(AppliedTo(lt, t, x, op))) == MapAfter(Contents(Listing(x)), op)
  {
    match op {
      case OpUpsert(k, v) => InsertIndexCorrect(lt, t, x, k, v);
      case OpRemove(k) => RemoveIndexCorrect(lt, t, x, k);
    }
  }

  ghost function Run<K(!new), V>(lt: (K, K) -> bool, t: nat, ops: seq<Op<K, V>>): (x: Index<K, V>)
    requires TotalOrder(lt) && t >= 2
    ensures Good(lt, t, x)
  {
    if ops == [] then Empty
    else
      var x := Run(lt, t, ops[..|ops| - 1]);
      OpCorrect(lt, t, x, ops[|ops| - 1]);
      AppliedTo(lt, t, x, ops[|ops| - 1])
  }

  function RunMap<K, V>(ops: seq<Op<K, V>>): map<K, V> {
    if ops == [] then map[] else MapAfter(RunMap(ops[..|ops| - 1]), ops[|ops| - 1])
  }

  /** After any run of operations the tree holds the same map as a plain map would, in logarithmic height. */
  lemma {:induction false} RunRefinesMap<K(!new), V>(lt: (K, K) -> bool, t: nat, ops: seq<Op<K, V>>)
    requires TotalOrder(lt) && t >= 2
    ensures var x := Run(lt, t, ops);
      && Contents(Listing(x)) == RunMap(ops)
      && (x.Rooted? ==> 2 * Pow(t, x.h) <= |RunMap(ops)| + 1)
  {
    if ops != [] {
      RunRefinesMap(lt, t, ops[..|ops| - 1]);
      OpCorrect(lt, t, Run(lt, t, ops[..|ops| - 1]), ops[|ops| - 1]);
    }
    if Run(lt, t, ops).Rooted? { OccupancyBound(lt, t, Run(lt, t, ops)); }
  }
}
