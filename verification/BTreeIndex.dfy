/**
 The copy-on-write B-tree index. Every operation is tied to the finite map the
 tree stands for. Upsert and remove may change only the root pointer of the
 index: every node that stood for a tree before stands for the same tree after,
 so any root loaded earlier still stands for the same map.
 */
module BTreeIndex {
  import opened OrderedEntries
  import opened TreeModel
  import opened TreeInsert
  import opened TreeDelete
  import opened TreeIndex
  import opened BTreeNodes
  import opened BTreeScan
  import T = TreeModel

  /** What the caller's check decides about the current value. */
  datatype Verdict<+V, +E> = Store(value: V) | Refuse(error: E)

  class BTree<K(==, !new), V> {
    const lt: (K, K) -> bool
    const t: nat
    var root: Node?<K, V>
    ghost var height: nat

    ghost function Value(): Index<K, V>
      reads this, root
    {
      if root == null then Empty else Rooted(height, root.tree)
    }

    ghost predicate Valid()
      reads this, root, if root == null then {} else root.repr
    {
      && (root != null ==> root.Valid())
      && Good(lt, t, Value())
    }

    ghost function Map(): map<K, V>
      reads this, root
    {
      Contents(Listing(Value()))
    }

    constructor (lt: (K, K) -> bool, t: nat := 32)
      requires TotalOrder(lt) && t >= 2
      ensures Valid() && Map() == map[] && Value() == Empty
      ensures this.lt == lt && this.t == t && fresh(this)
    {
      this.lt, this.t := lt, t;
      root, height := null, 0;
    }

    /** Lock-free lookup; `visits` counts the nodes it touches, which `VisitBound` bounds by the number of keys. */
    method Find(key: K) returns (r: Option<V>, ghost visits: nat)
      requires Valid()
      ensures r == Get(Map(), key)
      ensures visits <= if root == null then 0 else height + 1
    {
      if root == null {
        return None, 0;
      }
      r, visits := FindFrom(lt, t, height, root, key);
    }

    /**
     All bindings with start <= key <= end, in ascending order, or every binding
     when start == end. `cancelled(j)` is the answer of the j-th poll of the
     context: the first poll that answers true ends the scan with what it had
     listed by then.
     */
    method Query(start: K, end: K, cancelled: nat -> bool) returns (results: seq<(K, V)>)
      requires Valid()
      ensures results <= InRange(lt, start, end, Listing(Value()))
      ensures (forall j :: !cancelled(j)) ==> results == InRange(lt, start, end, Listing(Value()))
      ensures Value().Rooted? ==>
        var p := Polled(lt, start, end, Value().node, []);
        && (NoneCancelled(cancelled, 0, |p|) ==> results == InRange(lt, start, end, Listing(Value())))
        && (forall k :: 0 <= k < |p| && NoneCancelled(cancelled, 0, k) && cancelled(k) ==> results == p[k])
    {
      hide TotalOrder, Sorted, Flat, Balanced, Contents, Polled;
      if root == null {
        return [];
      }
      var more, polls;
      results, more, polls := Walk(lt, t, height, root, start, end, cancelled, 0, [], []);
    }

    /** Inserts or replaces the value the check asks for; a refusal changes nothing. */
    method Upsert<E>(key: K, check: (K, Option<V>) -> Verdict<V, E>) returns (updated: bool, err: Option<E>)
      requires Valid()
      modifies this
      ensures Valid()
      ensures match check(key, Get(old(Map()), key))
        case Store(v) =>
          && updated && err == None
          && Map() == old(Map())[key := v]
          && Value() == Upserted(lt, t, old(Value()), key, v)
        case Refuse(e) =>
          && !updated && unchanged(this)
          && err == if key in old(Map()) then None else Some(e)
      ensures forall n: Node<K, V> :: old(allocated(n)) && old(n.Valid()) ==> n.Valid() && n.tree == old(n.tree)
    {
      hide TotalOrder, Sorted, Flat, Insert, Balanced, Contents;
      var curr, _ := Find(key);
      match check(key, curr) {
        case Refuse(e) =>
          return false, if curr.Some? then None else Some(e);
        case Store(v) =>
          InsertLocked(key, v);
          return true, None;
      }
    }

    method InsertLocked(key: K, val: V)
      requires Valid()
      modifies this
      ensures Valid() && Value() == Upserted(lt, t, old(Value()), key, val)
      ensures Map() == old(Map())[key := val]
      ensures forall n: Node<K, V> :: old(allocated(n)) && old(n.Valid()) ==> n.Valid() && n.tree == old(n.tree)
    {
      hide TotalOrder, Sorted, Flat, Insert, Balanced, Contents;
      InsertIndexCorrect(lt, t, Value(), key, val);
      if root == null {
        root := new Node([key], [val], [], T.Node([(key, val)], []), {});
        height := 0;
        return;
      }
      var g := InsertNode(lt, t, height, root, key, val);
      root, height := RootOf(g, height, Insert(lt, t, height, root.tree, key, val));
    }

    /** Deletes the key and returns its value; when it is absent the published tree stays. */
    method Remove(key: K) returns (was: Option<V>)
      requires Valid()
      modifies this
      ensures Valid()
      ensures was == Get(old(Map()), key)
      ensures Map() == old(Map()) - {key}
      ensures Value() == Removed(lt, t, old(Value()), key).0
      ensures was == None ==> unchanged(this)
      ensures forall n: Node<K, V> :: old(allocated(n)) && old(n.Valid()) ==> n.Valid() && n.tree == old(n.tree)
    {
      hide TotalOrder, Sorted, Flat, Delete, Contents;
      RemoveIndexCorrect(lt, t, Value(), key);
      if root == null {
        return None;
      }
      var newRoot;
      newRoot, was := DeleteNode(lt, t, height, root, key);
      if was != None {
        Publish(newRoot, height);
      }
    }

    /** Stores the new root, one level lower if it became an empty internal node. */
    method Publish(newRoot0: Node<K, V>, ghost h: nat)
      requires newRoot0.Valid() && Formed(h, newRoot0.tree) && Good(lt, t, Shrunk(h, newRoot0.tree))
      modifies this
      ensures Valid() && Value() == Shrunk(h, newRoot0.tree)
      ensures forall n: Node<K, V> :: old(allocated(n)) && old(n.Valid()) ==> n.Valid() && n.tree == old(n.tree)
    {
      var newRoot := newRoot0;
      height := h;
      if |newRoot.children| != 0 && |newRoot.keys| == 0 {
        newRoot := newRoot.children[0];
        height := height - 1;
      }
      if |newRoot.children| == 0 && |newRoot.keys| == 0 {
        root := null;
      } else {
        root := newRoot;
      }
    }
  }

  /** The new root: the rewritten tree, or a fresh node over its two halves. */
  method RootOf<K(==, !new), V>(g: BTreeNodes.Grown<K, V>, ghost h: nat, ghost r: Inserted<K, V>)
    returns (n: Node<K, V>, ghost height: nat)
    requires GrownIs(g, r)
    ensures n.Valid() && Rooted(height, n.tree) == TreeIndex.Grown(h, r)
  {
    match g {
      case One(out) =>
        n, height := out, h;
      case Two(left, mk, mv, right) =>
        n := new Node([mk], [mv], [left, right],
                      T.Node([(mk, mv)], [left.tree, right.tree]), left.repr + right.repr);
        height := h + 1;
    }
  }

  /** A lookup that touches `visits` nodes needs at least 2 t^(visits-1) - 1 keys in the tree. */
  lemma VisitBound<K(!new), V>(lt: (K, K) -> bool, t: nat, x: Index<K, V>, visits: nat)
    requires Good(lt, t, x) && x.Rooted? && 1 <= visits <= x.h + 1
    ensures 2 * Pow(t, visits - 1) <= |Contents(Listing(x))| + 1
  {
    OccupancyBound(lt, t, x);
    PowMonotone(t, visits - 1, x.h);
  }

  method FindFrom<K(==, !new), V>(lt: (K, K) -> bool, t: nat, ghost h0: nat, root: Node<K, V>, key: K)
    returns (r: Option<V>, ghost visits: nat)
    requires root.Valid() && Balanced(t, h0, root.tree) && TotalOrder(lt) && Sorted(lt, Flat(root.tree))
    ensures r == Lookup(Flat(root.tree), key)
    ensures 1 <= visits <= h0 + 1
  {
    hide TotalOrder, Sorted, Flat, Contents;
    ghost var h := h0;
    var n := root;
    visits := 0;
    while true
      invariant n.Valid() && Balanced(t, h, n.tree) && Sorted(lt, Flat(n.tree))
      invariant Lookup(Flat(n.tree), key) == Lookup(Flat(root.tree), key)
      invariant visits + h == h0
      decreases h
    {
      visits := visits + 1;
      NodeSorted(lt, h, n.tree);
      LookupStep(lt, h, n.tree, key);
      var i, found := n.Search(lt, key);
      if found {
        return Some(n.vals[i]), visits;
      }
      if |n.children| == 0 {
        return None, visits;
      }
      n := n.children[i];
      h := h - 1;
    }
  }

  /** What a complete scan lists: the only strictly ascending listing of the map restricted to the range. */
  lemma QueryMeaning<K(!new), V>(lt: (K, K) -> bool, t: nat, x: Index<K, V>, start: K, end: K)
    requires Good(lt, t, x)
    ensures var r := InRange(lt, start, end, Listing(x));
      && Sorted(lt, r)
      && Contents(r) == Restrict(lt, Contents(Listing(x)), LowEnd(start, end), HighEnd(start, end))
      && (start == end ==> Contents(r) == Contents(Listing(x)))
      && (forall k, v ::
            (k, v) in r <==>
            Binds(Contents(Listing(x)), k, v) && (start == end || (!lt(k, start) && !lt(end, k))))
      && (forall s :: Sorted(lt, s) && Contents(s) == Contents(r) ==> s == r)
  {
    var r := InRange(lt, start, end, Listing(x));
    forall k, v
      ensures (k, v) in r <==>
        Binds(Contents(Listing(x)), k, v) && (start == end || (!lt(k, start) && !lt(end, k)))
    {
      ContentsEntries(lt, Listing(x), k, v);
      BetweenMembers(lt, Listing(x), LowEnd(start, end), HighEnd(start, end), (k, v));
    }
    BetweenIsMapRestriction(lt, Listing(x), LowEnd(start, end), HighEnd(start, end));
    forall s | Sorted(lt, s) && Contents(s) == Contents(r)
      ensures s == r
    {
      SortedIsUnique(lt, s, r);
    }
  }

  /** A root loaded earlier stands for the same tree as long as its nodes are left alone. */
  twostate lemma SnapshotKept<K(!new), V>(n: Node<K, V>)
    requires old(n.Valid()) && forall m :: m in old(n.repr) ==> unchanged(m)
    ensures n.Valid() && n.tree == old(n.tree)
  {
  }

  lemma PowMonotone(t: nat, a: nat, b: nat)
    requires t >= 1 && a <= b
    ensures Pow(t, a) <= Pow(t, b)
    decreases b
  {
    if a < b {
      PowMonotone(t, a, b - 1);
      Scale(1, t, Pow(t, b - 1));
    }
  }
}
