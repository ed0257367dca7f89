/** Insertion into a B-tree, split after overflow, on tree values. */
module TreeInsert {
  import opened OrderedEntries
  import opened Slices
  import opened TreeModel

  /** A rewritten subtree, or the two halves of one that overflowed. */
  datatype Inserted<K, V> =
    | Whole(node: Tree<K, V>)
    | Halves(left: Tree<K, V>, mid: (K, V), right: Tree<K, V>)

  /** Splits an overfull node around entry t-1. */
  function Split<K, V>(t: nat, m: Tree<K, V>): Inserted<K, V>
    requires t >= 1 && |m.entries| == 2 * t
    requires m.children == [] || |m.children| == 2 * t + 1
  {
    Halves(Node(m.entries[..t - 1], if m.children == [] then [] else m.children[..t]),
           m.entries[t - 1],
           Node(m.entries[t..], if m.children == [] then [] else m.children[t..]))
  }

  ghost function Insert<K(!new), V>(lt: (K, K) -> bool, t: nat, h: nat, n: Tree<K, V>, k: K, v: V): (r: Inserted<K, V>)
    requires t >= 2 && Balanced(t, h, n) && |n.entries| <= 2 * t - 1
    ensures InsertedShape(t, h, n, r)
    decreases h, 1
  {
    var i := Rank(lt, n.entries, k);
    if Hit(n.entries, i, k) then
      Whole(n.(entries := n.entries[i := (k, v)]))
    else
      var m := Unsplit(lt, t, h, n, k, v);
      if |m.entries| > 2 * t - 1 then
        SplitShape(t, h, m);
        Split(t, m)
      else
        Whole(m)
  }

  /** Puts the rewritten child, or its two halves, back into the parent. */
  function Graft<K, V>(n: Tree<K, V>, i: nat, c: Inserted<K, V>): Tree<K, V>
    requires |n.children| == |n.entries| + 1 && i <= |n.entries|
  {
    match c
    case Whole(m) => n.(children := n.children[i := m])
    case Halves(l, e, r) => Node(InsertAt(n.entries, i, e), InsertAt(n.children[i := l], i + 1, r))
  }

  /** Leaf depth is kept, a whole node stays within bounds, halves hold t-1 and t entries. */
  ghost predicate InsertedShape<K, V>(t: nat, h: nat, n: Tree<K, V>, r: Inserted<K, V>) {
    match r
    case Whole(m) => Balanced(t, h, m) && |n.entries| <= |m.entries| <= 2 * t - 1
    case Halves(l, e, g) => Balanced(t, h, l) && Balanced(t, h, g) && |l.entries| == t - 1 && |g.entries| == t
  }

  lemma SplitShape<K, V>(t: nat, h: nat, m: Tree<K, V>)
    requires t >= 1 && Balanced(t, h, m) && |m.entries| == 2 * t
    ensures var s := Split(t, m);
            && Balanced(t, h, s.left) && Balanced(t, h, s.right)
            && |s.left.entries| == t - 1 && |s.right.entries| == t
            && Flat(m) == Flat(s.left) + [s.mid] + Flat(s.right)
  {
    var s := Split(t, m);
    assert m.entries == s.left.entries + [s.mid] + s.right.entries;
    assert m.children == s.left.children + s.right.children;
    assert forall i :: 0 <= i < |s.left.children| ==> s.left.children[i] == m.children[i];
    assert forall i :: 0 <= i < |s.right.children| ==> s.right.children[i] == m.children[t + i];
    assert m == Glue(s.left, s.mid, s.right);
    FlatGlue(h, s.left, s.mid, s.right);
  }

  ghost function FlatInserted<K, V>(r: Inserted<K, V>): seq<(K, V)> {
    match r
    case Whole(m) => Flat(m)
    case Halves(l, e, g) => Flat(l) + [e] + Flat(g)
  }

  lemma GraftFlat<K, V>(n: Tree<K, V>, i: nat, c: Inserted<K, V>)
    requires |n.children| == |n.entries| + 1 && i <= |n.entries|
    ensures Flat(Graft(n, i, c)) == Left(n, i) + FlatInserted(c) + Right(n, i)
  {
    match c
    case Whole(m) => FlatReplace(n, i, m);
    case Halves(l, e, r) => FlatSplit(n, i, l, e, r);
  }

  lemma LeafHitFlat<K(!new), V>(lt: (K, K) -> bool, es: seq<(K, V)>, i: nat, v: V)
    requires TotalOrder(lt) && Sorted(lt, es) && i < |es|
    ensures es[i := (es[i].0, v)] == Put(lt, es, es[i].0, v)
  {
    var p, e, q := es[..i], es[i], es[i + 1..];
    assert es == p + [e] + q;
    SortedSplit(lt, p, e, q);
    UpdateOne(lt, e.0, e.1, v);
    FocusUpdate(lt, p, [e], q, e.0, v);
  }

  lemma InnerHitFlat<K(!new), V>(lt: (K, K) -> bool, n: Tree<K, V>, i: nat, v: V)
    requires TotalOrder(lt) && |n.children| == |n.entries| + 1 && Sorted(lt, Flat(n)) && i < |n.entries|
    ensures Flat(n.(entries := n.entries[i := (n.entries[i].0, v)])) == Put(lt, Flat(n), n.entries[i].0, v)
  {
    var e, p, q := n.entries[i], Left(n, i) + Flat(n.children[i]), Flat(n.children[i + 1]) + Right(n, i + 1);
    FlatEntry(n, i);
    HitFocus(lt, n, i);
    UpdateOne(lt, e.0, e.1, v);
    FocusUpdate(lt, p, [e], q, e.0, v);
    InnerHit(n, i, (e.0, v));
  }

  lemma InnerHit<K, V>(n: Tree<K, V>, i: nat, e: (K, V))
    requires |n.children| == |n.entries| + 1 && i < |n.entries|
    ensures Flat(n.(entries := n.entries[i := e]))
         == (Left(n, i) + Flat(n.children[i])) + [e] + (Flat(n.children[i + 1]) + Right(n, i + 1))
  {
    FlatPair(n, i, n.children[i], e, n.children[i + 1]);
    assert n.children[i := n.children[i]][i + 1 := n.children[i + 1]] == n.children;
  }

  lemma LeafInsertFlat<K(!new), V>(lt: (K, K) -> bool, es: seq<(K, V)>, k: K, v: V)
    requires TotalOrder(lt) && Sorted(lt, es) && !Hit(es, Rank(lt, es, k), k)
    ensures InsertAt(es, Rank(lt, es, k), (k, v)) == Put(lt, es, k, v)
  {
    var i := Rank(lt, es, k);
    LeafFocus(lt, es, k);
    assert es == es[..i] + [] + es[i..];
    UpdateOne(lt, k, v, v);
    FocusUpdate(lt, es[..i], [], es[i..], k, v);
  }

  lemma InnerInsertFlat<K(!new), V>(lt: (K, K) -> bool, n: Tree<K, V>, k: K, v: V, c: Inserted<K, V>)
    requires TotalOrder(lt) && |n.children| == |n.entries| + 1 && Sorted(lt, Flat(n))
    requires !Hit(n.entries, Rank(lt, n.entries, k), k)
    requires FlatInserted(c) == Put(lt, Flat(n.children[Rank(lt, n.entries, k)]), k, v)
    ensures Flat(Graft(n, Rank(lt, n.entries, k), c)) == Put(lt, Flat(n), k, v)
  {
    var i := Rank(lt, n.entries, k);
    SearchLeft(lt, n, k);
    SearchRight(lt, n, k);
    FlatFocus(n, i);
    FocusUpdate(lt, Left(n, i), Flat(n.children[i]), Right(n, i), k, v);
    GraftFlat(n, i, c);
  }

  /** Insertion changes the listing at exactly one key. */
  lemma {:induction false} InsertCorrect<K(!new), V>(lt: (K, K) -> bool, t: nat, h: nat, n: Tree<K, V>, k: K, v: V)
    requires t >= 2 && Balanced(t, h, n) && |n.entries| <= 2 * t - 1
    requires TotalOrder(lt) && Sorted(lt, Flat(n))
    ensures FlatInserted(Insert(lt, t, h, n, k, v)) == Put(lt, Flat(n), k, v)
    decreases h
  {
    var i := Rank(lt, n.entries, k);
    if Hit(n.entries, i, k) {
      if h == 0 { LeafHitFlat(lt, n.entries, i, v); } else { InnerHitFlat(lt, n, i, v); }
    } else if h == 0 {
      LeafInsertFlat(lt, n.entries, k, v);
      Overflow(lt, t, h, n, k, v);
    } else {
      ChildSorted(lt, n, i);
      InsertCorrect(lt, t, h - 1, n.children[i], k, v);
      InnerInsertFlat(lt, n, k, v, Insert(lt, t, h - 1, n.children[i], k, v));
      Overflow(lt, t, h, n, k, v);
    }
  }

  /** The node before a possible split, and the fact that the split keeps its listing. */
  ghost function Unsplit<K(!new), V>(lt: (K, K) -> bool, t: nat, h: nat, n: Tree<K, V>, k: K, v: V): (m: Tree<K, V>)
    requires t >= 2 && Balanced(t, h, n) && |n.entries| <= 2 * t - 1
    requires !Hit(n.entries, Rank(lt, n.entries, k), k)
    ensures Balanced(t, h, m) && |n.entries| <= |m.entries| <= 2 * t
    decreases h, 0
  {
    var i := Rank(lt, n.entries, k);
    if h == 0 then n.(entries := InsertAt(n.entries, i, (k, v)))
    else Graft(n, i, Insert(lt, t, h - 1, n.children[i], k, v))
  }

  lemma Overflow<K(!new), V>(lt: (K, K) -> bool, t: nat, h: nat, n: Tree<K, V>, k: K, v: V)
    requires t >= 2 && Balanced(t, h, n) && |n.entries| <= 2 * t - 1
    requires !Hit(n.entries, Rank(lt, n.entries, k), k)
    ensures FlatInserted(Insert(lt, t, h, n, k, v)) == Flat(Unsplit(lt, t, h, n, k, v))
  {
    var m := Unsplit(lt, t, h, n, k, v);
    if |m.entries| > 2 * t - 1 { SplitShape(t, h, m); }
  }
}
