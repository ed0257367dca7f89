/** Deletion from a B-tree, with borrowing and merging on the way down, on tree values. */
module TreeDelete {
  import opened OrderedEntries
  import opened Slices
  import opened TreeModel
  import opened Weaving

  /** The last and first entry of a tree, found by following the outermost children. */
  function MaxEntry<K, V>(h: nat, n: Tree<K, V>): (K, V)
    requires Spine(h, n)
    decreases h
  {
    if h == 0 then n.entries[|n.entries| - 1] else MaxEntry(h - 1, n.children[|n.children| - 1])
  }

  function MinEntry<K, V>(h: nat, n: Tree<K, V>): (K, V)
    requires Spine(h, n)
    decreases h
  {
    if h == 0 then n.entries[0] else MinEntry(h - 1, n.children[0])
  }

  /** No empty node on either outermost path. */
  predicate Spine<K, V>(h: nat, n: Tree<K, V>)
    decreases h
  {
    && Formed(h, n) && n.entries != []
    && (h > 0 ==> Spine(h - 1, n.children[0]) && Spine(h - 1, n.children[|n.children| - 1]))
  }

  lemma {:induction false} BalancedSpine<K, V>(t: nat, h: nat, n: Tree<K, V>)
    requires t >= 2 && Balanced(t, h, n) && n.entries != []
    ensures Spine(h, n)
    decreases h
  {
    if h > 0 {
      BalancedSpine(t, h - 1, n.children[0]);
      BalancedSpine(t, h - 1, n.children[|n.children| - 1]);
    }
  }

  predicate LastOf<E(==)>(s: seq<E>, e: E) {
    s != [] && s[|s| - 1] == e
  }

  predicate FirstOf<E(==)>(s: seq<E>, e: E) {
    s != [] && s[0] == e
  }

  lemma {:induction false} MaxIsLast<K, V>(h: nat, n: Tree<K, V>)
    requires Spine(h, n)
    ensures LastOf(Flat(n), MaxEntry(h, n))
    decreases h
  {
    if h > 0 {
      MaxIsLast(h - 1, n.children[|n.children| - 1]);
      FlatFocus(n, |n.entries|);
    }
  }

  lemma {:induction false} MinIsFirst<K, V>(h: nat, n: Tree<K, V>)
    requires Spine(h, n)
    ensures FirstOf(Flat(n), MinEntry(h, n))
    decreases h
  {
    if h > 0 {
      MinIsFirst(h - 1, n.children[0]);
      FlatFocus(n, 0);
      assert Left(n, 0) == [];
    }
  }

  // ---------- rebalancing ----------

  /** Two siblings and their separator. */
  datatype Pair<K, V> = Pair(left: Tree<K, V>, sep: (K, V), right: Tree<K, V>)

  ghost function FlatPairOf<K, V>(p: Pair<K, V>): seq<(K, V)> {
    Flat(p.left) + [p.sep] + Flat(p.right)
  }

  /** The last entry of the left sibling goes up, the separator goes down to the right. */
  function ShiftRight<K, V>(h: nat, s: Tree<K, V>, f: (K, V), c: Tree<K, V>): Pair<K, V>
    requires Formed(h, s) && Formed(h, c) && s.entries != []
  {
    var last := |s.entries| - 1;
    Pair(Node(s.entries[..last], if h > 0 then s.children[..|s.children| - 1] else []),
         s.entries[last],
         Node([f] + c.entries, if h > 0 then [s.children[|s.children| - 1]] + c.children else []))
  }

  /** The first entry of the right sibling goes up, the separator goes down to the left. */
  function ShiftLeft<K, V>(h: nat, c: Tree<K, V>, e: (K, V), s: Tree<K, V>): Pair<K, V>
    requires Formed(h, s) && Formed(h, c) && s.entries != []
  {
    Pair(Node(c.entries + [e], if h > 0 then c.children + [s.children[0]] else []),
         s.entries[0],
         Node(s.entries[1..], if h > 0 then s.children[1..] else []))
  }

  /** Moving a piece `m` between neighbours: l e (m f r) against (l e m) f r. */
  lemma Rotate<K, V>(h: nat, l: Tree<K, V>, e: (K, V), m: Tree<K, V>, f: (K, V), r: Tree<K, V>)
    requires Formed(h, l) && Formed(h, m) && Formed(h, r)
    ensures Flat(l) + [e] + Flat(Glue(m, f, r)) == Flat(Glue(l, e, m)) + [f] + Flat(r)
    ensures |Flat(l)| <= |Flat(Glue(l, e, m))| && |Flat(r)| <= |Flat(Glue(m, f, r))|
  {
    FlatGlue(h, m, f, r);
    FlatGlue(h, l, e, m);
    Regroup(Flat(l), [e], Flat(m), [f], Flat(r));
  }

  /** What moves besides the separator when an entry leaves the end of `s`: its last child, if it has children. */
  function LastPiece<K, V>(h: nat, s: Tree<K, V>): Tree<K, V>
    requires Formed(h, s)
  {
    Node([], if h > 0 then [s.children[|s.children| - 1]] else [])
  }

  lemma ShiftRightGiver<K, V>(h: nat, s: Tree<K, V>, f: (K, V), c: Tree<K, V>)
    requires Formed(h, s) && Formed(h, c) && s.entries != []
    ensures s == Glue(ShiftRight(h, s, f, c).left, ShiftRight(h, s, f, c).sep, LastPiece(h, s))
  {
    var p := ShiftRight(h, s, f, c);
    Unsnoc(s.entries);
    if h > 0 { Unsnoc(s.children); }
    var g := Glue(p.left, p.sep, LastPiece(h, s));
    assert g.entries == s.entries;
    assert g.children == s.children;
  }

  lemma ShiftRightTaker<K, V>(h: nat, s: Tree<K, V>, f: (K, V), c: Tree<K, V>)
    requires Formed(h, s) && Formed(h, c) && s.entries != []
    ensures ShiftRight(h, s, f, c).right == Glue(LastPiece(h, s), f, c)
  {
    var p, g := ShiftRight(h, s, f, c), Glue(LastPiece(h, s), f, c);
    assert g.entries == p.right.entries;
    assert g.children == p.right.children;
  }

  lemma ShiftRightFlat<K, V>(h: nat, s: Tree<K, V>, f: (K, V), c: Tree<K, V>)
    requires Formed(h, s) && Formed(h, c) && s.entries != []
    ensures FlatPairOf(ShiftRight(h, s, f, c)) == Flat(s) + [f] + Flat(c)
    ensures |Flat(ShiftRight(h, s, f, c).left)| <= |Flat(s)|
  {
    var p := ShiftRight(h, s, f, c);
    ShiftRightGiver(h, s, f, c);
    ShiftRightTaker(h, s, f, c);
    Rotate(h, p.left, p.sep, LastPiece(h, s), f, c);
  }

  lemma ShiftLeftPiece<K, V>(h: nat, c: Tree<K, V>, e: (K, V), s: Tree<K, V>) returns (m: Tree<K, V>)
    requires Formed(h, s) && Formed(h, c) && s.entries != []
    ensures Formed(h, m)
    ensures s == Glue(m, ShiftLeft(h, c, e, s).sep, ShiftLeft(h, c, e, s).right)
    ensures ShiftLeft(h, c, e, s).left == Glue(c, e, m)
  {
    var p := ShiftLeft(h, c, e, s);
    m := Node([], if h > 0 then [s.children[0]] else []);
    assert s.entries == m.entries + [p.sep] + p.right.entries;
    assert s.children == m.children + p.right.children;
    assert p.left.entries == c.entries + [e] + m.entries;
  }

  lemma ShiftLeftFlat<K, V>(h: nat, c: Tree<K, V>, e: (K, V), s: Tree<K, V>)
    requires Formed(h, s) && Formed(h, c) && s.entries != []
    ensures FlatPairOf(ShiftLeft(h, c, e, s)) == Flat(c) + [e] + Flat(s)
    ensures |Flat(ShiftLeft(h, c, e, s).right)| <= |Flat(s)|
  {
    var p := ShiftLeft(h, c, e, s);
    var m := ShiftLeftPiece(h, c, e, s);
    Rotate(h, c, e, m, p.sep, p.right);
  }

  lemma ShiftRightShape<K, V>(t: nat, h: nat, s: Tree<K, V>, f: (K, V), c: Tree<K, V>)
    requires Balanced(t, h, s) && Balanced(t, h, c) && s.entries != []
    ensures var p := ShiftRight(h, s, f, c);
            && Balanced(t, h, p.left) && |p.left.entries| == |s.entries| - 1
            && Balanced(t, h, p.right) && |p.right.entries| == |c.entries| + 1
  {
    var p := ShiftRight(h, s, f, c);
    assert forall j :: 0 <= j < |p.left.children| ==> p.left.children[j] == s.children[j];
    assert forall j :: 0 <= j < |p.right.children| ==>
      p.right.children[j] == if j == 0 then s.children[|s.children| - 1] else c.children[j - 1];
  }

  lemma ShiftLeftShape<K, V>(t: nat, h: nat, c: Tree<K, V>, e: (K, V), s: Tree<K, V>)
    requires Balanced(t, h, s) && Balanced(t, h, c) && s.entries != []
    ensures var p := ShiftLeft(h, c, e, s);
            && Balanced(t, h, p.left) && |p.left.entries| == |c.entries| + 1
            && Balanced(t, h, p.right) && |p.right.entries| == |s.entries| - 1
  {
    var p := ShiftLeft(h, c, e, s);
    assert forall j :: 0 <= j < |p.right.children| ==> p.right.children[j] == s.children[j + 1];
    assert forall j :: 0 <= j < |p.left.children| ==>
      p.left.children[j] == if j < |c.children| then c.children[j] else s.children[0];
  }

  /** `x` with children i, i+1 and their separator replaced. */
  function SetPair<K, V>(x: Tree<K, V>, i: nat, p: Pair<K, V>): Tree<K, V>
    requires |x.children| == |x.entries| + 1 && i < |x.entries|
  {
    Node(x.entries[i := p.sep], x.children[i := p.left][i + 1 := p.right])
  }

  function BorrowPrev<K, V>(h: nat, x: Tree<K, V>, i: nat): Tree<K, V>
    requires Family(h, x) && 0 < i <= |x.entries| && x.children[i - 1].entries != []
  {
    SetPair(x, i - 1, ShiftRight(h - 1, x.children[i - 1], x.entries[i - 1], x.children[i]))
  }

  function BorrowNext<K, V>(h: nat, x: Tree<K, V>, i: nat): Tree<K, V>
    requires Family(h, x) && i < |x.entries| && x.children[i + 1].entries != []
  {
    SetPair(x, i, ShiftLeft(h - 1, x.children[i], x.entries[i], x.children[i + 1]))
  }

  /** Children i and i+1 and separator i become one child. */
  function Merge<K, V>(x: Tree<K, V>, i: nat): Tree<K, V>
    requires |x.children| == |x.entries| + 1 && i < |x.entries|
  {
    var m := Glue(x.children[i], x.entries[i], x.children[i + 1]);
    Node(RemoveAt(x.entries, i), RemoveAt(x.children[i := m], i + 1))
  }

  /** An internal node all of whose children are formed nodes of one height. */
  predicate Family<K, V>(h: nat, x: Tree<K, V>) {
    && h > 0 && Formed(h, x)
    && forall i :: 0 <= i < |x.children| ==> Formed(h - 1, x.children[i])
  }

  lemma BalancedFamily<K, V>(t: nat, h: nat, x: Tree<K, V>)
    requires h > 0 && Balanced(t, h, x)
    ensures Family(h, x)
  {
    forall i | 0 <= i < |x.children|
      ensures Formed(h - 1, x.children[i])
    {
      assert Balanced(t, h - 1, x.children[i]);
    }
  }

  /** The same listing, and child `j` of `y` covers at least what child `i` of `x` covered. */
  ghost predicate SameListing<K, V>(x: Tree<K, V>, i: nat, y: Tree<K, V>, j: nat)
    requires |x.children| == |x.entries| + 1 && i <= |x.entries|
  {
    && |y.children| == |y.entries| + 1 && j <= |y.entries|
    && Flat(y) == Flat(x)
    && |Left(y, j)| <= |Left(x, i)|
    && |Right(y, j)| <= |Right(x, i)|
  }

  lemma PairFlat<K, V>(x: Tree<K, V>, i: nat)
    requires |x.children| == |x.entries| + 1 && i < |x.entries|
    ensures Flat(x) == Left(x, i) + (Flat(x.children[i]) + [x.entries[i]] + Flat(x.children[i + 1])) + Right(x, i + 1)
  {
    FlatEntry(x, i);
    RegroupPair(Left(x, i), Flat(x.children[i]), [x.entries[i]], Flat(x.children[i + 1]), Right(x, i + 1));
  }

  lemma SetPairFlat<K, V>(x: Tree<K, V>, i: nat, p: Pair<K, V>)
    requires |x.children| == |x.entries| + 1 && i < |x.entries|
    requires FlatPairOf(p) == Flat(x.children[i]) + [x.entries[i]] + Flat(x.children[i + 1])
    ensures Flat(SetPair(x, i, p)) == Flat(x)
    ensures Left(SetPair(x, i, p), i) == Left(x, i)
    ensures Right(SetPair(x, i, p), i + 1) == Right(x, i + 1)
  {
    FlatPair(x, i, p.left, p.sep, p.right);
    PairFlat(x, i);
  }

  lemma BorrowPrevFlat<K, V>(h: nat, x: Tree<K, V>, i: nat)
    requires Family(h, x) && i < |x.entries| && x.children[i].entries != []
    ensures SameListing(x, i + 1, BorrowPrev(h, x, i + 1), i + 1)
  {
    var p := ShiftRight(h - 1, x.children[i], x.entries[i], x.children[i + 1]);
    var y := SetPair(x, i, p);
    ShiftRightFlat(h - 1, x.children[i], x.entries[i], x.children[i + 1]);
    SetPairFlat(x, i, p);
    SideLengths(x, i);
    SideLengths(y, i);
    assert y == BorrowPrev(h, x, i + 1);
  }

  lemma BorrowNextFlat<K, V>(h: nat, x: Tree<K, V>, i: nat)
    requires Family(h, x) && i < |x.entries| && x.children[i + 1].entries != []
    ensures SameListing(x, i, BorrowNext(h, x, i), i)
  {
    var p := ShiftLeft(h - 1, x.children[i], x.entries[i], x.children[i + 1]);
    var y := SetPair(x, i, p);
    ShiftLeftFlat(h - 1, x.children[i], x.entries[i], x.children[i + 1]);
    SetPairFlat(x, i, p);
    SideLengths(x, i);
    SideLengths(y, i);
  }

  lemma MergeFlat<K, V>(h: nat, x: Tree<K, V>, i: nat)
    requires Family(h, x) && i < |x.entries|
    ensures SameListing(x, i, Merge(x, i), i) && SameListing(x, i + 1, Merge(x, i), i)
    ensures Left(Merge(x, i), i) == Left(x, i) && Right(Merge(x, i), i) == Right(x, i + 1)
  {
    var m := Glue(x.children[i], x.entries[i], x.children[i + 1]);
    FlatGlue(h - 1, x.children[i], x.entries[i], x.children[i + 1]);
    FlatMerge(x, i, m);
    PairFlat(x, i);
    FlatFocus(x, i);
    FlatFocus(x, i + 1);
  }

  lemma GlueShape<K, V>(t: nat, h: nat, a: Tree<K, V>, e: (K, V), b: Tree<K, V>)
    requires Balanced(t, h, a) && Balanced(t, h, b)
    ensures Balanced(t, h, Glue(a, e, b))
  {
    var m := Glue(a, e, b);
    assert forall j :: 0 <= j < |m.children| ==>
      m.children[j] == if j < |a.children| then a.children[j] else b.children[j - |a.children|];
  }

  lemma MergeShape<K, V>(t: nat, h: nat, x: Tree<K, V>, i: nat)
    requires t >= 1 && h > 0 && Balanced(t, h, x) && i < |x.entries|
    requires |x.children[i].entries| == |x.children[i + 1].entries| == t - 1
    ensures Balanced(t, h, Merge(x, i)) && |Merge(x, i).entries| == |x.entries| - 1
    ensures |Merge(x, i).children[i].entries| == 2 * t - 1
  {
    var y := Merge(x, i);
    GlueShape(t, h - 1, x.children[i], x.entries[i], x.children[i + 1]);
    assert forall j :: 0 <= j < |y.children| && j != i ==>
      y.children[j] == if j < i then x.children[j] else x.children[j + 1];
  }

  lemma SetPairShape<K, V>(t: nat, h: nat, x: Tree<K, V>, i: nat, p: Pair<K, V>)
    requires h > 0 && Balanced(t, h, x) && i < |x.entries|
    requires Full(t, h - 1, p.left) && Full(t, h - 1, p.right)
    ensures Balanced(t, h, SetPair(x, i, p)) && |SetPair(x, i, p).entries| == |x.entries|
  {
  }

  // ---------- fill ----------

  datatype Filled<K, V> = Filled(node: Tree<K, V>, at: nat)

  /** Makes sure child `i` has at least `t` entries; `at` is where that child ends up. */
  function Fill<K, V>(t: nat, h: nat, x: Tree<K, V>, i: nat): Filled<K, V>
    requires t >= 1 && Family(h, x) && x.entries != [] && i <= |x.entries|
  {
    if i > 0 && |x.children[i - 1].entries| >= t then Filled(BorrowPrev(h, x, i), i)
    else if i < |x.children| - 1 && |x.children[i + 1].entries| >= t then Filled(BorrowNext(h, x, i), i)
    else if i < |x.children| - 1 then Filled(Merge(x, i), i)
    else Filled(Merge(x, i - 1), i - 1)
  }

  lemma FillListing<K, V>(t: nat, h: nat, x: Tree<K, V>, i: nat)
    requires t >= 1 && Family(h, x) && x.entries != [] && i <= |x.entries|
    ensures SameListing(x, i, Fill(t, h, x, i).node, Fill(t, h, x, i).at)
  {
    if i > 0 && |x.children[i - 1].entries| >= t {
      BorrowPrevFlat(h, x, i - 1);
    } else if i < |x.children| - 1 && |x.children[i + 1].entries| >= t {
      BorrowNextFlat(h, x, i);
    } else {
      MergeFlat(h, x, if i < |x.children| - 1 then i else i - 1);
    }
  }

  /** A node whose shape is kept and whose child `at` can lose an entry. */
  ghost predicate Ready<K, V>(t: nat, h: nat, x: Tree<K, V>, f: Filled<K, V>) {
    && f.at < |f.node.children|
    && Balanced(t, h, f.node)
    && |x.entries| - 1 <= |f.node.entries| <= |x.entries|
    && |f.node.children[f.at].entries| >= t
  }

  lemma BorrowPrevShape<K, V>(t: nat, h: nat, x: Tree<K, V>, i: nat)
    requires t >= 1 && h > 0 && Balanced(t, h, x) && 0 < i <= |x.entries| && Family(h, x)
    requires |x.children[i - 1].entries| >= t && |x.children[i].entries| == t - 1
    ensures Ready(t, h, x, Filled(BorrowPrev(h, x, i), i))
  {
    ShiftRightShape(t, h - 1, x.children[i - 1], x.entries[i - 1], x.children[i]);
    SetPairShape(t, h, x, i - 1, ShiftRight(h - 1, x.children[i - 1], x.entries[i - 1], x.children[i]));
  }

  lemma BorrowNextShape<K, V>(t: nat, h: nat, x: Tree<K, V>, i: nat)
    requires t >= 1 && h > 0 && Balanced(t, h, x) && i < |x.entries| && Family(h, x)
    requires |x.children[i + 1].entries| >= t && |x.children[i].entries| == t - 1
    ensures Ready(t, h, x, Filled(BorrowNext(h, x, i), i))
  {
    ShiftLeftShape(t, h - 1, x.children[i], x.entries[i], x.children[i + 1]);
    SetPairShape(t, h, x, i, ShiftLeft(h - 1, x.children[i], x.entries[i], x.children[i + 1]));
  }

  /** `fill` keeps the shape, and hands over a child that can lose an entry. */
  lemma FillShape<K, V>(t: nat, h: nat, x: Tree<K, V>, i: nat)
    requires t >= 1 && h > 0 && Balanced(t, h, x) && x.entries != [] && i <= |x.entries|
    requires |x.children[i].entries| == t - 1
    ensures Family(h, x) && Ready(t, h, x, Fill(t, h, x, i))
  {
    BalancedFamily(t, h, x);
    if i > 0 && |x.children[i - 1].entries| >= t {
      BorrowPrevShape(t, h, x, i);
    } else if i < |x.children| - 1 && |x.children[i + 1].entries| >= t {
      BorrowNextShape(t, h, x, i);
    } else {
      MergeShape(t, h, x, if i < |x.children| - 1 then i else i - 1);
    }
  }

  // ---------- deletion ----------

  /** The rewritten subtree and the removed value, if the key was there. */
  datatype Deleted<K, V> = Deleted(node: Tree<K, V>, removed: Option<V>)

  ghost function Delete<K(!new), V>(lt: (K, K) -> bool, t: nat, h: nat, n: Tree<K, V>, k: K): (r: Deleted<K, V>)
    requires t >= 2 && Balanced(t, h, n) && (h > 0 ==> n.entries != [])
    ensures LosesAtMostOne(t, h, n, r.node)
    decreases h, 1
  {
    var i := Rank(lt, n.entries, k);
    if Hit(n.entries, i, k) then
      if h == 0 then Deleted(n.(entries := RemoveAt(n.entries, i)), Some(n.entries[i].1))
      else Deleted(DeleteInner(lt, t, h, n, i), Some(n.entries[i].1))
    else if h == 0 then Deleted(n, None)
    else
      var f := Descend(t, h, n, i);
      var r := Delete(lt, t, h - 1, f.node.children[f.at], k);
      ReplaceShape(t, h, f.node, f.at, r.node, f.node.entries);
      Deleted(f.node.(children := f.node.children[f.at := r.node]), r.removed)
  }

  /** The entry found in an internal node gives way to its predecessor, or its successor, or is merged away. */
  ghost function DeleteInner<K(!new), V>(lt: (K, K) -> bool, t: nat, h: nat, n: Tree<K, V>, i: nat): (m: Tree<K, V>)
    requires t >= 2 && h > 0 && Balanced(t, h, n) && i < |n.entries|
    ensures LosesAtMostOne(t, h, n, m)
    decreases h, 0
  {
    var left, right := n.children[i], n.children[i + 1];
    if |left.entries| >= t then
      BalancedSpine(t, h - 1, left);
      var e := MaxEntry(h - 1, left);
      var c := Delete(lt, t, h - 1, left, e.0).node;
      ReplaceShape(t, h, n, i, c, n.entries[i := e]);
      Node(n.entries[i := e], n.children[i := c])
    else if |right.entries| >= t then
      BalancedSpine(t, h - 1, right);
      var e := MinEntry(h - 1, right);
      var c := Delete(lt, t, h - 1, right, e.0).node;
      ReplaceShape(t, h, n, i + 1, c, n.entries[i := e]);
      Node(n.entries[i := e], n.children[i + 1 := c])
    else
      MergeShape(t, h, n, i);
      var m := Merge(n, i);
      var c := Delete(lt, t, h - 1, m.children[i], n.entries[i].0).node;
      ReplaceShape(t, h, m, i, c, m.entries);
      m.(children := m.children[i := c])
  }

  /** The node to continue from: child `at` has at least `t` entries. */
  ghost function Descend<K(!new), V>(t: nat, h: nat, n: Tree<K, V>, i: nat): (f: Filled<K, V>)
    requires t >= 2 && h > 0 && Balanced(t, h, n) && n.entries != [] && i <= |n.entries|
    ensures Ready(t, h, n, f) && SameListing(n, i, f.node, f.at)
  {
    if |n.children[i].entries| < t then
      FillShape(t, h, n, i);
      FillListing(t, h, n, i);
      Fill(t, h, n, i)
    else Filled(n, i)
  }

  /** Leaf depth and occupancy below are kept; the node itself loses at most one entry. */
  ghost predicate LosesAtMostOne<K, V>(t: nat, h: nat, n: Tree<K, V>, m: Tree<K, V>) {
    Balanced(t, h, m) && |n.entries| - 1 <= |m.entries| <= |n.entries|
  }

  lemma ReplaceShape<K, V>(t: nat, h: nat, n: Tree<K, V>, i: nat, c: Tree<K, V>, es: seq<(K, V)>)
    requires h > 0 && Balanced(t, h, n) && i < |n.children| && |n.children[i].entries| >= t
    requires LosesAtMostOne(t, h - 1, n.children[i], c) && |es| == |n.entries|
    ensures LosesAtMostOne(t, h, n, Node(es, n.children[i := c]))
  {
  }

  /** What deletion does at an internal node both of whose neighbours are minimal. */
  lemma InnerMerged<K(!new), V>(lt: (K, K) -> bool, t: nat, h: nat, n: Tree<K, V>, i: nat)
    requires t >= 2 && h > 0 && Balanced(t, h, n) && i < |n.entries|
    requires |n.children[i].entries| < t && |n.children[i + 1].entries| < t
    ensures var m := Merge(n, i);
      && Balanced(t, h - 1, m.children[i]) && m.children[i].entries != []
      && DeleteInner(lt, t, h, n, i)
         == Node(m.entries, m.children[i := Delete(lt, t, h - 1, m.children[i], n.entries[i].0).node])
  {
    MergeShape(t, h, n, i);
  }

  lemma PredecessorFlat<K(!new), V>(lt: (K, K) -> bool, n: Tree<K, V>, i: nat, e: (K, V), c: Tree<K, V>)
    requires TotalOrder(lt) && |n.children| == |n.entries| + 1 && i < |n.entries| && Sorted(lt, Flat(n))
    requires LastOf(Flat(n.children[i]), e) && Flat(c) == Drop(lt, Flat(n.children[i]), e.0)
    ensures Flat(Node(n.entries[i := e], n.children[i := c])) == Drop(lt, Flat(n), n.entries[i].0)
  {
    var s, q := Flat(n.children[i]), Flat(n.children[i + 1]);
    HitFocus(lt, n, i);
    DropEnds(lt, s);
    FlatPair(n, i, c, e, n.children[i + 1]);
    assert n.children[i := c][i + 1 := n.children[i + 1]] == n.children[i := c];
    FlatEntry(n, i);
    DropEntry(lt, Left(n, i) + s, n.entries[i], q + Right(n, i + 1));
    Unsnoc(s);
    RegroupPlain(Left(n, i), s, q, Right(n, i + 1));
  }

  lemma SuccessorFlat<K(!new), V>(lt: (K, K) -> bool, n: Tree<K, V>, i: nat, e: (K, V), c: Tree<K, V>)
    requires TotalOrder(lt) && |n.children| == |n.entries| + 1 && i < |n.entries| && Sorted(lt, Flat(n))
    requires FirstOf(Flat(n.children[i + 1]), e) && Flat(c) == Drop(lt, Flat(n.children[i + 1]), e.0)
    ensures Flat(Node(n.entries[i := e], n.children[i + 1 := c])) == Drop(lt, Flat(n), n.entries[i].0)
  {
    var p, s := Flat(n.children[i]), Flat(n.children[i + 1]);
    HitFocus(lt, n, i);
    DropEnds(lt, s);
    FlatPair(n, i, n.children[i], e, c);
    assert n.children[i := n.children[i]][i + 1 := c] == n.children[i + 1 := c];
    FlatEntry(n, i);
    DropEntry(lt, Left(n, i) + p, n.entries[i], s + Right(n, i + 1));
    Uncons(p, s);
    RegroupPlain(Left(n, i), p, s, Right(n, i + 1));
  }

  /** Dropping a key inside the child that covers it. */
  lemma ChildDropFlat<K(!new), V>(lt: (K, K) -> bool, n: Tree<K, V>, i: nat, k: K, c: Tree<K, V>)
    requires TotalOrder(lt) && |n.children| == |n.entries| + 1 && i <= |n.entries|
    requires AllBelow(lt, Left(n, i), k) && AllAbove(lt, Right(n, i), k)
    requires Flat(c) == Drop(lt, Flat(n.children[i]), k)
    ensures Flat(n.(children := n.children[i := c])) == Drop(lt, Flat(n), k)
    ensures Lookup(Flat(n), k) == Lookup(Flat(n.children[i]), k)
  {
    FlatFocus(n, i);
    FlatReplace(n, i, c);
    if Flat(n) != [] {
      FocusUpdate(lt, Left(n, i), Flat(n.children[i]), Right(n, i), k, Flat(n)[0].1);
    }
    FocusLookup(lt, Left(n, i), Flat(n.children[i]), Right(n, i), k);
  }

  /** The searched key lies strictly inside the child that `fill` hands over. */
  lemma DescendFocus<K(!new), V>(lt: (K, K) -> bool, n: Tree<K, V>, k: K, f: Filled<K, V>)
    requires TotalOrder(lt) && |n.children| == |n.entries| + 1 && Sorted(lt, Flat(n))
    requires !Hit(n.entries, Rank(lt, n.entries, k), k)
    requires SameListing(n, Rank(lt, n.entries, k), f.node, f.at)
    ensures AllBelow(lt, Left(f.node, f.at), k) && AllAbove(lt, Right(f.node, f.at), k)
  {
    var i := Rank(lt, n.entries, k);
    SearchLeft(lt, n, k);
    SearchRight(lt, n, k);
    FlatFocus(n, i);
    FlatFocus(f.node, f.at);
    NarrowerSides(lt, Left(n, i), Flat(n.children[i]), Right(n, i),
                  Left(f.node, f.at), Flat(f.node.children[f.at]), Right(f.node, f.at), k);
  }

  lemma NarrowerSides<K(!new), V>(lt: (K, K) -> bool, p: seq<(K, V)>, m: seq<(K, V)>, q: seq<(K, V)>,
                                  p': seq<(K, V)>, m': seq<(K, V)>, q': seq<(K, V)>, k: K)
    requires p + m + q == p' + m' + q' && |p'| <= |p| && |q'| <= |q|
    requires AllBelow(lt, p, k) && AllAbove(lt, q, k)
    ensures AllBelow(lt, p', k) && AllAbove(lt, q', k)
  {
    var s, s' := p + m + q, p' + m' + q';
    forall j | 0 <= j < |p'|
      ensures lt(p'[j].0, k)
    {
      assert p'[j] == s'[j] == s[j] == p[j];
    }
    forall j | 0 <= j < |q'|
      ensures lt(k, q'[j].0)
    {
      var d := |s| - |q'| + j;
      assert q'[j] == s'[d] == s[d] == q[d - |p| - |m|];
    }
  }

  lemma HitLookup<K(!new), V>(lt: (K, K) -> bool, p: seq<(K, V)>, e: (K, V), q: seq<(K, V)>)
    requires TotalOrder(lt) && Sorted(lt, p + [e] + q)
    ensures Lookup(p + [e] + q, e.0) == Some(e.1)
  {
    assert e in p + [e] + q;
    ContentsEntries(lt, p + [e] + q, e.0, e.1);
  }

  lemma LeafHitDrop<K(!new), V>(lt: (K, K) -> bool, es: seq<(K, V)>, i: nat)
    requires TotalOrder(lt) && Sorted(lt, es) && i < |es|
    ensures RemoveAt(es, i) == Drop(lt, es, es[i].0) && Lookup(es, es[i].0) == Some(es[i].1)
  {
    assert es == es[..i] + [es[i]] + es[i + 1..];
    DropEntry(lt, es[..i], es[i], es[i + 1..]);
    HitLookup(lt, es[..i], es[i], es[i + 1..]);
  }

  lemma LeafMissDrop<K(!new), V>(lt: (K, K) -> bool, es: seq<(K, V)>, k: K)
    requires TotalOrder(lt) && Sorted(lt, es) && !Hit(es, Rank(lt, es, k), k)
    ensures es == Drop(lt, es, k) && Lookup(es, k) == None
  {
    var i := Rank(lt, es, k);
    LeafFocus(lt, es, k);
    assert es == es[..i] + [] + es[i..];
    if es != [] {
      UpdateOne(lt, k, es[0].1, es[0].1);
      FocusUpdate(lt, es[..i], [], es[i..], k, es[0].1);
    }
    FocusLookup(lt, es[..i], [], es[i..], k);
  }

  lemma MissFlat<K(!new), V>(lt: (K, K) -> bool, n: Tree<K, V>, k: K, f: Filled<K, V>, c: Tree<K, V>)
    requires TotalOrder(lt) && |n.children| == |n.entries| + 1 && Sorted(lt, Flat(n))
    requires !Hit(n.entries, Rank(lt, n.entries, k), k)
    requires SameListing(n, Rank(lt, n.entries, k), f.node, f.at)
    requires Flat(c) == Drop(lt, Flat(f.node.children[f.at]), k)
    ensures Flat(f.node.(children := f.node.children[f.at := c])) == Drop(lt, Flat(n), k)
    ensures Lookup(Flat(n), k) == Lookup(Flat(f.node.children[f.at]), k)
  {
    DescendFocus(lt, n, k, f);
    ChildDropFlat(lt, f.node, f.at, k, c);
  }

  lemma DescendChild<K(!new), V>(lt: (K, K) -> bool, t: nat, h: nat, n: Tree<K, V>, i: nat, f: Filled<K, V>)
    requires t >= 2 && h > 0 && i <= |n.entries| == |n.children| - 1 && Sorted(lt, Flat(n))
    requires Ready(t, h, n, f) && SameListing(n, i, f.node, f.at)
    ensures Sorted(lt, Flat(f.node.children[f.at]))
    ensures Balanced(t, h - 1, f.node.children[f.at]) && f.node.children[f.at].entries != []
  {
    ChildSorted(lt, f.node, f.at);
  }

  lemma InnerLookup<K(!new), V>(lt: (K, K) -> bool, n: Tree<K, V>, i: nat)
    requires TotalOrder(lt) && |n.children| == |n.entries| + 1 && Sorted(lt, Flat(n)) && i < |n.entries|
    ensures Lookup(Flat(n), n.entries[i].0) == Some(n.entries[i].1)
  {
    FlatEntry(n, i);
    HitLookup(lt, Left(n, i) + Flat(n.children[i]), n.entries[i], Flat(n.children[i + 1]) + Right(n, i + 1));
  }

  lemma MergeDropFlat<K(!new), V>(lt: (K, K) -> bool, h: nat, n: Tree<K, V>, i: nat, c: Tree<K, V>)
    requires TotalOrder(lt) && Family(h, n) && i < |n.entries| && Sorted(lt, Flat(n))
    requires Flat(c) == Drop(lt, Flat(Merge(n, i).children[i]), n.entries[i].0)
    ensures Flat(Merge(n, i).(children := Merge(n, i).children[i := c])) == Drop(lt, Flat(n), n.entries[i].0)
  {
    MergeFlat(h, n, i);
    HitFocus(lt, n, i);
    AboveTail(lt, Left(n, i), Flat(n.children[i]), n.entries[i].0);
    AboveHead(lt, Flat(n.children[i + 1]), Right(n, i + 1), n.entries[i].0);
    ChildDropFlat(lt, Merge(n, i), i, n.entries[i].0, c);
  }

  lemma AboveTail<K, V>(lt: (K, K) -> bool, a: seq<(K, V)>, b: seq<(K, V)>, k: K)
    requires AllBelow(lt, a + b, k)
    ensures AllBelow(lt, a, k)
  {
    assert forall i :: 0 <= i < |a| ==> a[i] == (a + b)[i];
  }

  lemma AboveHead<K, V>(lt: (K, K) -> bool, a: seq<(K, V)>, b: seq<(K, V)>, k: K)
    requires AllAbove(lt, a + b, k)
    ensures AllAbove(lt, b, k)
  {
    assert forall i :: 0 <= i < |b| ==> b[i] == (a + b)[|a| + i];
  }

  /** Deletion takes exactly one key out of the listing and reports its value. */
  lemma {:induction false} DeleteCorrect<K(!new), V>(lt: (K, K) -> bool, t: nat, h: nat, n: Tree<K, V>, k: K)
    requires t >= 2 && Balanced(t, h, n) && (h > 0 ==> n.entries != [])
    requires TotalOrder(lt) && Sorted(lt, Flat(n))
    ensures Flat(Delete(lt, t, h, n, k).node) == Drop(lt, Flat(n), k)
    ensures Delete(lt, t, h, n, k).removed == Lookup(Flat(n), k)
    decreases h, 1
  {
    hide TotalOrder, Sorted;
    var i := Rank(lt, n.entries, k);
    if h == 0 {
      if Hit(n.entries, i, k) { LeafHitDrop(lt, n.entries, i); } else { LeafMissDrop(lt, n.entries, k); }
    } else if Hit(n.entries, i, k) {
      DeleteInnerCorrect(lt, t, h, n, i);
      InnerLookup(lt, n, i);
    } else {
      var f := Descend(t, h, n, i);
      DescendChild(lt, t, h, n, i, f);
      DeleteCorrect(lt, t, h - 1, f.node.children[f.at], k);
      MissFlat(lt, n, k, f, Delete(lt, t, h - 1, f.node.children[f.at], k).node);
    }
  }

  lemma {:induction false} DeleteInnerCorrect<K(!new), V>(lt: (K, K) -> bool, t: nat, h: nat, n: Tree<K, V>, i: nat)
    requires t >= 2 && h > 0 && Balanced(t, h, n) && i < |n.entries|
    requires TotalOrder(lt) && Sorted(lt, Flat(n))
    ensures Flat(DeleteInner(lt, t, h, n, i)) == Drop(lt, Flat(n), n.entries[i].0)
    decreases h, 0
  {
    hide TotalOrder, Sorted;
    HitFocus(lt, n, i);
    if |n.children[i].entries| >= t {
      var e, c := DeleteMax(lt, t, h - 1, n.children[i]);
      PredecessorFlat(lt, n, i, e, c);
    } else if |n.children[i + 1].entries| >= t {
      var e, c := DeleteMin(lt, t, h - 1, n.children[i + 1]);
      SuccessorFlat(lt, n, i, e, c);
    } else {
      var c := DeleteMerged(lt, t, h, n, i);
      MergeDropFlat(lt, h, n, i, c);
    }
  }

  lemma {:induction false} DeleteMerged<K(!new), V>(lt: (K, K) -> bool, t: nat, h: nat, n: Tree<K, V>, i: nat)
    returns (c: Tree<K, V>)
    requires t >= 2 && h > 0 && Balanced(t, h, n) && i < |n.entries|
    requires TotalOrder(lt) && Sorted(lt, Flat(n))
    requires |n.children[i].entries| == |n.children[i + 1].entries| == t - 1
    ensures Family(h, n) && Balanced(t, h, Merge(n, i)) && |Merge(n, i).children[i].entries| == 2 * t - 1
    ensures c == Delete(lt, t, h - 1, Merge(n, i).children[i], n.entries[i].0).node
    ensures Flat(c) == Drop(lt, Flat(Merge(n, i).children[i]), n.entries[i].0)
    decreases h - 1, 4
  {
    hide TotalOrder, Sorted;
    MergeShape(t, h, n, i);
    BalancedFamily(t, h, n);
    MergeFlat(h, n, i);
    ChildSorted(lt, Merge(n, i), i);
    c := DeleteAt(lt, t, h - 1, Merge(n, i).children[i], n.entries[i].0);
  }

  lemma {:induction false} DeleteMax<K(!new), V>(lt: (K, K) -> bool, t: nat, h: nat, n: Tree<K, V>)
    returns (e: (K, V), c: Tree<K, V>)
    requires t >= 2 && Balanced(t, h, n) && n.entries != []
    requires TotalOrder(lt) && Sorted(lt, Flat(n))
    ensures Spine(h, n) && e == MaxEntry(h, n) && c == Delete(lt, t, h, n, e.0).node
    ensures LastOf(Flat(n), e) && Flat(c) == Drop(lt, Flat(n), e.0)
    decreases h, 3
  {
    BalancedSpine(t, h, n);
    MaxIsLast(h, n);
    e := MaxEntry(h, n);
    c := DeleteAt(lt, t, h, n, e.0);
  }

  lemma {:induction false} DeleteMin<K(!new), V>(lt: (K, K) -> bool, t: nat, h: nat, n: Tree<K, V>)
    returns (e: (K, V), c: Tree<K, V>)
    requires t >= 2 && Balanced(t, h, n) && n.entries != []
    requires TotalOrder(lt) && Sorted(lt, Flat(n))
    ensures Spine(h, n) && e == MinEntry(h, n) && c == Delete(lt, t, h, n, e.0).node
    ensures FirstOf(Flat(n), e) && Flat(c) == Drop(lt, Flat(n), e.0)
    decreases h, 3
  {
    BalancedSpine(t, h, n);
    MinIsFirst(h, n);
    e := MinEntry(h, n);
    c := DeleteAt(lt, t, h, n, e.0);
  }

  lemma {:induction false} DeleteAt<K(!new), V>(lt: (K, K) -> bool, t: nat, h: nat, n: Tree<K, V>, k: K)
    returns (c: Tree<K, V>)
    requires t >= 2 && Balanced(t, h, n) && n.entries != []
    requires TotalOrder(lt) && Sorted(lt, Flat(n))
    ensures c == Delete(lt, t, h, n, k).node && Flat(c) == Drop(lt, Flat(n), k)
    decreases h, 2
  {
    DeleteCorrect(lt, t, h, n, k);
    c := Delete(lt, t, h, n, k).node;
  }
}
