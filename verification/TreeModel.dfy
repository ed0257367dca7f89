/**
 B-trees as values. `Flat` lists a tree in order; `Balanced` is the shape
 invariant: every node below the root holds t-1 to 2t-1 entries, internal nodes
 have one child more than entries, and all leaves have the same depth.
 */
module TreeModel {
  import opened OrderedEntries
  import opened Slices
  import opened Weaving

  datatype Tree<K, V> = Node(entries: seq<(K, V)>, children: seq<Tree<K, V>>)

  ghost function Flat<K, V>(n: Tree<K, V>): seq<(K, V)>
    decreases n, 1
  {
    if |n.children| == |n.entries| + 1 then Weave(Flats(n.children), n.entries) else n.entries
  }

  ghost function Flats<K, V>(cs: seq<Tree<K, V>>): (r: seq<seq<(K, V)>>)
    ensures |r| == |cs|
    decreases cs, 0
  {
    seq(|cs|, i requires 0 <= i < |cs| => Flat(cs[i]))
  }

  /** Entry count and child count agree; `h` is the height, 0 for a leaf. */
  predicate Formed<K, V>(h: nat, n: Tree<K, V>) {
    if h == 0 then n.children == [] else |n.children| == |n.entries| + 1
  }

  /** The occupancy every non-root node must have. */
  predicate Occupied<K, V>(t: nat, n: Tree<K, V>) {
    t - 1 <= |n.entries| <= 2 * t - 1
  }

  ghost predicate Balanced<K, V>(t: nat, h: nat, n: Tree<K, V>)
    decreases h
  {
    && Formed(h, n)
    && (h > 0 ==> forall i :: 0 <= i < |n.children| ==>
          Occupied(t, n.children[i]) && Balanced(t, h - 1, n.children[i]))
  }

  ghost predicate Full<K, V>(t: nat, h: nat, n: Tree<K, V>) {
    Occupied(t, n) && Balanced(t, h, n)
  }

  /** Entries listed before and after child `i`. */
  ghost function Left<K, V>(n: Tree<K, V>, i: nat): seq<(K, V)>
    requires |n.children| == |n.entries| + 1 && i <= |n.entries|
  {
    Before(Flats(n.children), n.entries, i)
  }

  ghost function Right<K, V>(n: Tree<K, V>, i: nat): seq<(K, V)>
    requires |n.children| == |n.entries| + 1 && i <= |n.entries|
  {
    After(Flats(n.children), n.entries, i)
  }

  // ---------- changing one place of a node ----------

  lemma FlatFocus<K, V>(n: Tree<K, V>, i: nat)
    requires |n.children| == |n.entries| + 1 && i <= |n.entries|
    ensures Flat(n) == Left(n, i) + Flat(n.children[i]) + Right(n, i)
    ensures i < |n.entries| ==> Right(n, i) == [n.entries[i]] + (Flat(n.children[i + 1]) + Right(n, i + 1))
    ensures i > 0 ==> Left(n, i) == (Left(n, i - 1) + Flat(n.children[i - 1])) + [n.entries[i - 1]]
  {
    Focus(Flats(n.children), n.entries, i);
  }

  lemma FlatEntry<K, V>(n: Tree<K, V>, i: nat)
    requires |n.children| == |n.entries| + 1 && i < |n.entries|
    ensures Flat(n) == (Left(n, i) + Flat(n.children[i])) + [n.entries[i]] + (Flat(n.children[i + 1]) + Right(n, i + 1))
  {
    FlatFocus(n, i);
  }

  lemma SideLengths<K, V>(n: Tree<K, V>, i: nat)
    requires |n.children| == |n.entries| + 1 && i < |n.entries|
    ensures |Left(n, i + 1)| == |Left(n, i)| + |Flat(n.children[i])| + 1
    ensures |Right(n, i)| == 1 + |Flat(n.children[i + 1])| + |Right(n, i + 1)|
  {
    FlatFocus(n, i);
    FlatFocus(n, i + 1);
  }

  lemma FlatReplace<K, V>(n: Tree<K, V>, i: nat, c: Tree<K, V>)
    requires |n.children| == |n.entries| + 1 && i <= |n.entries|
    ensures Flat(n.(children := n.children[i := c])) == Left(n, i) + Flat(c) + Right(n, i)
  {
    assert Flats(n.children[i := c]) == Flats(n.children)[i := Flat(c)];
    WeaveReplace(Flats(n.children), n.entries, i, Flat(c));
  }

  lemma FlatSplit<K, V>(n: Tree<K, V>, i: nat, l: Tree<K, V>, e: (K, V), r: Tree<K, V>)
    requires |n.children| == |n.entries| + 1 && i <= |n.entries|
    ensures Flat(Node(InsertAt(n.entries, i, e), InsertAt(n.children[i := l], i + 1, r)))
         == Left(n, i) + (Flat(l) + [e] + Flat(r)) + Right(n, i)
  {
    var fs, cs := Flats(n.children), InsertAt(n.children[i := l], i + 1, r);
    assert Flats(cs) == fs[..i] + [Flat(l), Flat(r)] + fs[i + 1..];
    WeaveSplit(fs, n.entries, i, Flat(l), e, Flat(r));
  }

  lemma FlatMerge<K, V>(n: Tree<K, V>, i: nat, m: Tree<K, V>)
    requires |n.children| == |n.entries| + 1 && i < |n.entries|
    ensures var x := Node(RemoveAt(n.entries, i), RemoveAt(n.children[i := m], i + 1));
            && Flat(x) == Left(n, i) + Flat(m) + Right(n, i + 1)
            && Left(x, i) == Left(n, i)
            && Right(x, i) == Right(n, i + 1)
  {
    var fs, cs := Flats(n.children), RemoveAt(n.children[i := m], i + 1);
    assert Flats(cs) == fs[..i] + [Flat(m)] + fs[i + 2..];
    WeaveMerge(fs, n.entries, i, Flat(m));
  }

  lemma FlatPair<K, V>(n: Tree<K, V>, i: nat, l: Tree<K, V>, e: (K, V), r: Tree<K, V>)
    requires |n.children| == |n.entries| + 1 && i < |n.entries|
    ensures var x := Node(n.entries[i := e], n.children[i := l][i + 1 := r]);
            && Flat(x) == Left(n, i) + (Flat(l) + [e] + Flat(r)) + Right(n, i + 1)
            && Left(x, i) == Left(n, i)
            && Right(x, i + 1) == Right(n, i + 1)
  {
    var fs, cs := Flats(n.children), n.children[i := l][i + 1 := r];
    assert Flats(cs) == fs[i := Flat(l)][i + 1 := Flat(r)];
    WeavePair(fs, n.entries, i, Flat(l), e, Flat(r));
  }

  /** Two nodes of one height glued around a separator. */
  function Glue<K, V>(a: Tree<K, V>, e: (K, V), b: Tree<K, V>): Tree<K, V> {
    Node(a.entries + [e] + b.entries, a.children + b.children)
  }

  lemma FlatGlue<K, V>(h: nat, a: Tree<K, V>, e: (K, V), b: Tree<K, V>)
    requires Formed(h, a) && Formed(h, b)
    ensures Formed(h, Glue(a, e, b))
    ensures Flat(Glue(a, e, b)) == Flat(a) + [e] + Flat(b)
  {
    if h > 0 {
      assert Flats(a.children + b.children) == Flats(a.children) + Flats(b.children);
      WeaveConcat(Flats(a.children), a.entries, e, Flats(b.children), b.entries);
    }
  }

  // ---------- search ----------

  /** Number of leading entries whose key is below `k`: what the binary search finds. */
  function Rank<K, V>(lt: (K, K) -> bool, es: seq<(K, V)>, k: K): (i: nat)
    ensures i <= |es|
    ensures forall j :: 0 <= j < i ==> lt(es[j].0, k)
    ensures i < |es| ==> !lt(es[i].0, k)
  {
    if es == [] || !lt(es[0].0, k) then 0 else 1 + Rank(lt, es[1..], k)
  }

  predicate Hit<K(==), V>(es: seq<(K, V)>, i: nat, k: K) {
    i < |es| && es[i].0 == k
  }

  /** At the searched position everything to the left is smaller ... */
  lemma SearchLeft<K(!new), V>(lt: (K, K) -> bool, n: Tree<K, V>, k: K)
    requires |n.children| == |n.entries| + 1 && TotalOrder(lt) && Sorted(lt, Flat(n))
    ensures AllBelow(lt, Left(n, Rank(lt, n.entries, k)), k)
  {
    var i := Rank(lt, n.entries, k);
    if i > 0 {
      var p, e := Left(n, i - 1) + Flat(n.children[i - 1]), n.entries[i - 1];
      FlatFocus(n, i);
      FlatEntry(n, i - 1);
      SortedSplit(lt, p, e, Flat(n.children[i]) + Right(n, i));
      assert Left(n, i) == p + [e];
    }
  }

  /** ... and, unless the key is found there, everything to the right is larger. */
  lemma SearchRight<K(!new), V>(lt: (K, K) -> bool, n: Tree<K, V>, k: K)
    requires |n.children| == |n.entries| + 1 && TotalOrder(lt) && Sorted(lt, Flat(n))
    requires !Hit(n.entries, Rank(lt, n.entries, k), k)
    ensures AllAbove(lt, Right(n, Rank(lt, n.entries, k)), k)
  {
    var i := Rank(lt, n.entries, k);
    if i < |n.entries| {
      var e, q := n.entries[i], Flat(n.children[i + 1]) + Right(n, i + 1);
      FlatFocus(n, i);
      FlatEntry(n, i);
      SortedSplit(lt, Left(n, i) + Flat(n.children[i]), e, q);
      assert Right(n, i) == [e] + q && lt(k, e.0);
    }
  }

  /** On a hit the entry itself is the focus. */
  lemma HitFocus<K(!new), V>(lt: (K, K) -> bool, n: Tree<K, V>, i: nat)
    requires |n.children| == |n.entries| + 1 && i < |n.entries| && Sorted(lt, Flat(n))
    ensures AllBelow(lt, Left(n, i) + Flat(n.children[i]), n.entries[i].0)
    ensures AllAbove(lt, Flat(n.children[i + 1]) + Right(n, i + 1), n.entries[i].0)
    ensures Sorted(lt, Flat(n.children[i])) && Sorted(lt, Flat(n.children[i + 1]))
  {
    var p, e, q := Left(n, i) + Flat(n.children[i]), n.entries[i], Flat(n.children[i + 1]) + Right(n, i + 1);
    FlatEntry(n, i);
    SortedSplit(lt, p, e, q);
    assert p == Left(n, i) + Flat(n.children[i]) + [];
    SortedParts(lt, Left(n, i), Flat(n.children[i]), []);
    assert q == [] + Flat(n.children[i + 1]) + Right(n, i + 1);
    SortedParts(lt, [], Flat(n.children[i + 1]), Right(n, i + 1));
  }

  lemma ChildSorted<K(!new), V>(lt: (K, K) -> bool, n: Tree<K, V>, i: nat)
    requires |n.children| == |n.entries| + 1 && i <= |n.entries| && Sorted(lt, Flat(n))
    ensures Sorted(lt, Flat(n.children[i]))
  {
    FlatFocus(n, i);
    SortedParts(lt, Left(n, i), Flat(n.children[i]), Right(n, i));
  }

  /** The same for the entries of one node: a leaf, or the separators of an internal node. */
  lemma LeafFocus<K(!new), V>(lt: (K, K) -> bool, es: seq<(K, V)>, k: K)
    requires TotalOrder(lt) && Sorted(lt, es)
    ensures var i := Rank(lt, es, k);
            && AllBelow(lt, es[..i], k)
            && (Hit(es, i, k) ==> AllAbove(lt, es[i + 1..], k))
            && (!Hit(es, i, k) ==> AllAbove(lt, es[i..], k))
  {
    var i := Rank(lt, es, k);
    if i < |es| {
      assert es[i].0 == k || lt(k, es[i].0);
      forall j | i < j < |es|
        ensures lt(k, es[j].0)
      {
        assert lt(es[i].0, es[j].0);
      }
    }
  }

  /** The separators of a node are sorted when its listing is. */
  lemma {:induction false} SeparatorsSorted<K(!new), V>(lt: (K, K) -> bool, n: Tree<K, V>)
    requires |n.children| == |n.entries| + 1 && Sorted(lt, Flat(n))
    ensures Sorted(lt, n.entries)
  {
    forall i, j | 0 <= i < j < |n.entries|
      ensures lt(n.entries[i].0, n.entries[j].0)
    {
      HitFocus(lt, n, j);
      EntryOnLeft(n, i, j);
      var p := Left(n, j) + Flat(n.children[j]);
      assert n.entries[i] in p;
    }
  }

  lemma {:induction false} EntryOnLeft<K, V>(n: Tree<K, V>, i: nat, j: nat)
    requires |n.children| == |n.entries| + 1 && i < j <= |n.entries|
    ensures n.entries[i] in Left(n, j)
  {
    FlatFocus(n, j);
    if i < j - 1 {
      EntryOnLeft(n, i, j - 1);
    }
  }
}
