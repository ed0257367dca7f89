/**
 B-tree nodes on the heap. A node's key, value and child slices are edited in
 place, but only on nodes that the running operation has cloned or created
 itself: no method here that takes a published node has a `modifies` clause
 for it. Each method is proved equal to its counterpart on tree values.
 `tree` is the value a node stands for, `repr` every node reachable from it.
 */
module BTreeNodes {
  import opened OrderedEntries
  import opened Slices
  import opened TreeModel
  import opened TreeInsert
  import opened TreeDelete
  import T = TreeModel

  ghost predicate Zipped<K, V>(es: seq<(K, V)>, keys: seq<K>, vals: seq<V>) {
    && |es| == |keys| == |vals|
    && (forall i :: 0 <= i < |es| ==> es[i].0 == keys[i])
    && (forall i :: 0 <= i < |es| ==> es[i].1 == vals[i])
  }

  lemma ZippedSlice<K, V>(es: seq<(K, V)>, keys: seq<K>, vals: seq<V>, a: nat, b: nat)
    requires Zipped(es, keys, vals) && a <= b <= |es|
    ensures Zipped(es[a..b], keys[a..b], vals[a..b])
  {
  }

  class Node<K(==, !new), V> {
    var keys: seq<K>
    var vals: seq<V>
    var children: seq<Node<K, V>>
    ghost var tree: Tree<K, V>
    ghost var repr: set<Node<K, V>>

    ghost predicate Valid()
      reads this, repr
      decreases repr
    {
      && this in repr
      && Zipped(tree.entries, keys, vals)
      && |tree.children| == |children|
      && forall i :: 0 <= i < |children| ==>
           && children[i] in repr && children[i].repr <= repr && this !in children[i].repr
           && children[i].tree == tree.children[i]
           && children[i].Valid()
    }

    constructor (keys: seq<K>, vals: seq<V>, children: seq<Node<K, V>>, ghost t: Tree<K, V>, ghost r: set<Node<K, V>>)
      requires Zipped(t.entries, keys, vals) && |t.children| == |children|
      requires forall i :: 0 <= i < |children| ==>
        && children[i] in r && children[i].repr <= r
        && children[i].tree == t.children[i]
        && children[i].Valid()
      ensures Valid() && fresh(this) && tree == t && repr == {this} + r
      ensures this.keys == keys && this.vals == vals && this.children == children
    {
      this.keys, this.vals, this.children := keys, vals, children;
      this.tree, this.repr := t, {this} + r;
    }

    /** A shallow copy whose slices can be edited without touching this node. */
    method Clone() returns (m: Node<K, V>)
      requires Valid()
      ensures fresh(m) && m.Valid() && m.tree == tree && m.repr == {m} + (repr - {this})
      ensures m.keys == keys && m.vals == vals && m.children == children
    {
      m := new Node(keys, vals, children, tree, repr - {this});
    }

    /** Edits the slices of this node in place. Only ever called on a node that is not published yet. */
    method Edit(ks: seq<K>, vs: seq<V>, cs: seq<Node<K, V>>, ghost t: Tree<K, V>, ghost r: set<Node<K, V>>)
      requires Valid() && this !in r
      requires Zipped(t.entries, ks, vs) && |t.children| == |cs|
      requires forall i :: 0 <= i < |cs| ==>
        && cs[i] in r && cs[i].repr <= r
        && cs[i].tree == t.children[i]
        && cs[i].Valid()
      modifies this
      ensures Valid() && tree == t && repr == {this} + r
      ensures keys == ks && vals == vs && children == cs
    {
      keys, vals, children := ks, vs, cs;
      tree, repr := t, {this} + r;
    }

    method SetEntry(i: nat, key: K, val: V)
      requires Valid() && i < |keys|
      modifies this
      ensures Valid() && repr == old(repr)
      ensures tree == T.Node(old(tree.entries)[i := (key, val)], old(tree.children))
    {
      Edit(keys[i := key], vals[i := val], children,
           T.Node(tree.entries[i := (key, val)], tree.children), repr - {this});
    }

    method InsertEntry(i: nat, key: K, val: V)
      requires Valid() && i <= |keys|
      modifies this
      ensures Valid() && repr == old(repr)
      ensures tree == T.Node(InsertAt(old(tree.entries), i, (key, val)), old(tree.children))
    {
      Edit(InsertAt(keys, i, key), InsertAt(vals, i, val), children,
           T.Node(InsertAt(tree.entries, i, (key, val)), tree.children), repr - {this});
    }

    method RemoveEntry(i: nat)
      requires Valid() && i < |keys|
      modifies this
      ensures Valid() && repr == old(repr)
      ensures tree == T.Node(RemoveAt(old(tree.entries), i), old(tree.children))
    {
      Edit(RemoveAt(keys, i), RemoveAt(vals, i), children,
           T.Node(RemoveAt(tree.entries, i), tree.children), repr - {this});
    }

    method SetChild(i: nat, c: Node<K, V>)
      requires Valid() && i < |children| && c.Valid() && this !in c.repr
      modifies this
      ensures Valid() && repr == old(repr) + c.repr
      ensures tree == T.Node(old(tree.entries), old(tree.children)[i := c.tree])
    {
      Edit(keys, vals, children[i := c],
           T.Node(tree.entries, tree.children[i := c.tree]), repr - {this} + c.repr);
    }

    /** Binary search for `key`, or for the child to descend into. */
    method Search(lt: (K, K) -> bool, key: K) returns (lo: nat, found: bool)
      requires Valid() && TotalOrder(lt)
      requires Sorted(lt, tree.entries)
      ensures lo == Rank(lt, tree.entries, key)
      ensures found == Hit(tree.entries, lo, key)
    {
      var hi: nat;
      lo, hi := 0, |keys|;
      while lo < hi
        invariant 0 <= lo <= hi <= |keys|
        invariant forall j :: 0 <= j < lo ==> lt(tree.entries[j].0, key)
        invariant forall j :: hi <= j < |keys| ==> !lt(tree.entries[j].0, key)
      {
        var mid := (lo + hi) / 2;
        assert keys[mid] == tree.entries[mid].0;
        if lt(keys[mid], key) {
          BelowSplit(lt, tree.entries, mid, key);
          lo := mid + 1;
        } else {
          AboveSplit(lt, tree.entries, mid, key);
          hi := mid;
        }
      }
      RankUnique(lt, tree.entries, key, lo);
      found := lo < |keys| && keys[lo] == key;
    }
  }

  lemma BelowSplit<K(!new), V>(lt: (K, K) -> bool, es: seq<(K, V)>, mid: nat, key: K)
    requires TotalOrder(lt) && Sorted(lt, es) && mid < |es| && lt(es[mid].0, key)
    ensures forall j :: 0 <= j <= mid ==> lt(es[j].0, key)
  {
    forall j | 0 <= j <= mid
      ensures lt(es[j].0, key)
    {
      if j < mid { assert lt(es[j].0, es[mid].0); }
    }
  }

  lemma AboveSplit<K(!new), V>(lt: (K, K) -> bool, es: seq<(K, V)>, mid: nat, key: K)
    requires TotalOrder(lt) && Sorted(lt, es) && mid < |es| && !lt(es[mid].0, key)
    ensures forall j :: mid <= j < |es| ==> !lt(es[j].0, key)
  {
    forall j | mid <= j < |es|
      ensures !lt(es[j].0, key)
    {
      if mid < j { assert lt(es[mid].0, es[j].0); }
    }
  }

  lemma {:induction false} RankUnique<K, V>(lt: (K, K) -> bool, es: seq<(K, V)>, key: K, i: nat)
    requires i <= |es|
    requires forall j :: 0 <= j < i ==> lt(es[j].0, key)
    requires forall j :: i <= j < |es| ==> !lt(es[j].0, key)
    ensures i == Rank(lt, es, key)
  {
    if i > 0 {
      assert lt(es[0].0, key);
      RankUnique(lt, es[1..], key, i - 1);
    }
  }

  // ---------- insertion ----------

  /** A rewritten subtree, or two halves and the promoted entry. */
  datatype Grown<K(!new), V> =
    | One(out: Node<K, V>)
    | Two(left: Node<K, V>, mk: K, mv: V, right: Node<K, V>)

  ghost predicate GrownIs<K(!new), V>(g: Grown<K, V>, r: Inserted<K, V>)
    reads if g.One? then {g.out} + g.out.repr else {g.left, g.right} + g.left.repr + g.right.repr
  {
    match g
    case One(out) => out.Valid() && r == Whole(out.tree)
    case Two(left, mk, mv, right) => left.Valid() && right.Valid() && r == Halves(left.tree, (mk, mv), right.tree)
  }

  ghost function GrownRepr<K(!new), V>(g: Grown<K, V>): set<Node<K, V>>
    reads if g.One? then {g.out} else {g.left, g.right}
  {
    match g
    case One(out) => out.repr
    case Two(left, _, _, right) => left.repr + right.repr
  }

  /** The slices that a split takes out of a node hold the entries of the two halves. */
  lemma SplitZips<K(!new), V>(t: nat, m: Node<K, V>)
    requires t >= 1 && m.Valid() && |m.keys| == 2 * t
    requires m.children == [] || |m.children| == 2 * t + 1
    ensures |m.tree.entries| == |m.vals| == 2 * t && m.tree.entries[t - 1] == (m.keys[t - 1], m.vals[t - 1])
    ensures Zipped(Split(t, m.tree).left.entries, m.keys[..t - 1], m.vals[..t - 1])
    ensures Zipped(Split(t, m.tree).right.entries, m.keys[t..], m.vals[t..])
  {
    ZippedSlice(m.tree.entries, m.keys, m.vals, 0, t - 1);
    ZippedSlice(m.tree.entries, m.keys, m.vals, t, 2 * t);
    assert m.keys[t..2 * t] == m.keys[t..] && m.vals[t..2 * t] == m.vals[t..];
    assert m.tree.entries[t..2 * t] == m.tree.entries[t..];
  }

  method SplitNode<K(==, !new), V>(t: nat, m: Node<K, V>) returns (g: Grown<K, V>)
    requires t >= 1 && m.Valid() && |m.keys| == 2 * t
    requires m.children == [] || |m.children| == 2 * t + 1
    ensures GrownIs(g, Split(t, m.tree))
    ensures forall o :: o in GrownRepr(g) ==> o in m.repr || fresh(o)
  {
    hide Zipped;
    var mid := t - 1;
    SplitZips(t, m);
    ghost var s := Split(t, m.tree);
    var left, right;
    if |m.children| == 0 {
      left := new Node(m.keys[..mid], m.vals[..mid], [], s.left, m.repr - {m});
      right := new Node(m.keys[mid + 1..], m.vals[mid + 1..], [], s.right, m.repr - {m});
    } else {
      left := new Node(m.keys[..mid], m.vals[..mid], m.children[..mid + 1], s.left, m.repr - {m});
      right := new Node(m.keys[mid + 1..], m.vals[mid + 1..], m.children[mid + 1..], s.right, m.repr - {m});
    }
    g := Two(left, m.keys[mid], m.vals[mid], right);
  }

  /** Puts the rewritten child `i` back into the cloned parent `m`. */
  method PutBack<K(==, !new), V>(m: Node<K, V>, i: nat, c: Grown<K, V>, ghost r: Inserted<K, V>)
    requires m.Valid() && |m.children| == |m.keys| + 1 && i <= |m.keys|
    requires GrownIs(c, r) && m !in GrownRepr(c)
    modifies m
    ensures m.Valid() && m.tree == Graft(old(m.tree), i, r)
    ensures m.repr == old(m.repr) + GrownRepr(c)
  {
    match c {
      case One(nc) =>
        m.SetChild(i, nc);
      case Two(nc, ck, cv, cr) =>
        m.Edit(InsertAt(m.keys, i, ck), InsertAt(m.vals, i, cv), InsertAt(m.children[i := nc], i + 1, cr),
               Graft(m.tree, i, r), m.repr - {m} + GrownRepr(c));
    }
  }

  method InsertNode<K(==, !new), V>(lt: (K, K) -> bool, t: nat, ghost h: nat, n: Node<K, V>, key: K, val: V)
    returns (g: Grown<K, V>)
    requires t >= 2 && n.Valid() && Balanced(t, h, n.tree) && |n.tree.entries| <= 2 * t - 1
    requires TotalOrder(lt) && Sorted(lt, Flat(n.tree))
    ensures GrownIs(g, Insert(lt, t, h, n.tree, key, val))
    ensures forall o :: o in GrownRepr(g) ==> o in n.repr || fresh(o)
    decreases h, 1
  {
    hide TotalOrder, Sorted, Flat, Unsplit;
    var m := n.Clone();
    NodeSorted(lt, h, n.tree);
    var i, found := m.Search(lt, key);
    if found {
      m.SetEntry(i, key, val);
      g := One(m);
    } else {
      InsertBelow(lt, t, h, m, i, key, val);
      g := SplitIfOverfull(t, m);
    }
  }

  method SplitIfOverfull<K(==, !new), V>(t: nat, m: Node<K, V>) returns (g: Grown<K, V>)
    requires t >= 1 && m.Valid() && |m.keys| <= 2 * t
    requires m.children == [] || |m.children| == |m.keys| + 1
    ensures GrownIs(g, if |m.tree.entries| > 2 * t - 1 then Split(t, m.tree) else Whole(m.tree))
    ensures forall o :: o in GrownRepr(g) ==> o in m.repr || fresh(o)
  {
    if |m.keys| > 2 * t - 1 {
      g := SplitNode(t, m);
    } else {
      g := One(m);
    }
  }

  /** The part of the insertion that edits the clone `m` of `n` in place. */
  method InsertBelow<K(==, !new), V>(lt: (K, K) -> bool, t: nat, ghost h: nat, m: Node<K, V>, i: nat, key: K, val: V)
    requires t >= 2 && m.Valid() && Balanced(t, h, m.tree) && |m.tree.entries| <= 2 * t - 1
    requires TotalOrder(lt) && Sorted(lt, Flat(m.tree))
    requires i == Rank(lt, m.tree.entries, key) && !Hit(m.tree.entries, i, key)
    modifies m
    ensures m.Valid() && m.tree == Unsplit(lt, t, h, old(m.tree), key, val)
    ensures forall o :: o in m.repr ==> o in old(m.repr) || fresh(o)
    decreases h, 0
  {
    hide TotalOrder, Sorted, Flat, Insert;
    if |m.children| == 0 {
      m.InsertEntry(i, key, val);
    } else {
      ChildSorted(lt, m.tree, i);
      var c := InsertNode(lt, t, h - 1, m.children[i], key, val);
      PutBack(m, i, c, Insert(lt, t, h - 1, m.tree.children[i], key, val));
    }
  }

  lemma NodeSorted<K(!new), V>(lt: (K, K) -> bool, h: nat, n: Tree<K, V>)
    requires Formed(h, n) && Sorted(lt, Flat(n))
    ensures Sorted(lt, n.entries)
  {
    if h > 0 { SeparatorsSorted(lt, n); }
  }

  // ---------- deletion ----------

  method MaxEntryOf<K(==, !new), V>(ghost h: nat, n0: Node<K, V>) returns (key: K, val: V)
    requires n0.Valid() && Spine(h, n0.tree)
    ensures (key, val) == MaxEntry(h, n0.tree)
  {
    var n := n0;
    ghost var g := h;
    while |n.children| != 0
      invariant n.Valid() && Spine(g, n.tree) && MaxEntry(g, n.tree) == MaxEntry(h, n0.tree)
      decreases g
    {
      n := n.children[|n.children| - 1];
      g := g - 1;
    }
    return n.keys[|n.keys| - 1], n.vals[|n.vals| - 1];
  }

  method MinEntryOf<K(==, !new), V>(ghost h: nat, n0: Node<K, V>) returns (key: K, val: V)
    requires n0.Valid() && Spine(h, n0.tree)
    ensures (key, val) == MinEntry(h, n0.tree)
  {
    var n := n0;
    ghost var g := h;
    while |n.children| != 0
      invariant n.Valid() && Spine(g, n.tree) && MinEntry(g, n.tree) == MinEntry(h, n0.tree)
      decreases g
    {
      n := n.children[0];
      g := g - 1;
    }
    return n.keys[0], n.vals[0];
  }

  /** Appends a separator and the whole right sibling to the cloned left one. */
  method Absorb<K(==, !new), V>(left: Node<K, V>, key: K, val: V, right: Node<K, V>)
    requires left.Valid() && right.Valid() && left !in right.repr
    requires left.children == [] ==> right.children == []
    modifies left
    ensures left.Valid() && left.tree == Glue(old(left.tree), (key, val), right.tree)
    ensures left.repr == old(left.repr) + right.repr
  {
    var cs := if |left.children| != 0 then left.children + right.children else left.children;
    left.Edit(left.keys + [key] + right.keys, left.vals + [val] + right.vals, cs,
              Glue(left.tree, (key, val), right.tree), left.repr - {left} + right.repr);
  }

  /** Takes separator `i` and child `i + 1` out of `x`, with `c` as the new child `i`. */
  method DropSeparator<K(==, !new), V>(x: Node<K, V>, i: nat, c: Node<K, V>)
    requires x.Valid() && |x.children| == |x.keys| + 1 && i < |x.keys|
    requires c.Valid() && x !in c.repr
    modifies x
    ensures x.Valid() && x.repr == old(x.repr) + c.repr && x.children == RemoveAt(old(x.children)[i := c], i + 1)
    ensures x.tree == T.Node(RemoveAt(old(x.tree.entries), i), RemoveAt(old(x.tree.children)[i := c.tree], i + 1))
  {
    x.Edit(RemoveAt(x.keys, i), RemoveAt(x.vals, i), RemoveAt(x.children[i := c], i + 1),
           T.Node(RemoveAt(x.tree.entries, i), RemoveAt(x.tree.children[i := c.tree], i + 1)),
           x.repr - {x} + c.repr);
  }

  method MergeChildren<K(==, !new), V>(x: Node<K, V>, i: nat) returns (left: Node<K, V>)
    requires x.Valid() && |x.children| == |x.keys| + 1 && i < |x.keys|
    requires x.children[i].children == [] ==> x.children[i + 1].children == []
    modifies x
    ensures x.Valid() && x.tree == Merge(old(x.tree), i)
    ensures i < |x.children| && left == x.children[i]
    ensures forall o :: o in x.repr ==> o in old(x.repr) || fresh(o)
  {
    left := x.children[i].Clone();
    Absorb(left, x.keys[i], x.vals[i], x.children[i + 1]);
    DropSeparator(x, i, left);
  }

  /** A clone of `sib` without its last entry and last child. */
  method GiveLast<K(==, !new), V>(ghost h: nat, sib: Node<K, V>) returns (s: Node<K, V>)
    requires sib.Valid() && Formed(h, sib.tree) && |sib.keys| > 0
    ensures fresh(s) && s.Valid()
    ensures forall o :: o in s.repr ==> o in sib.repr || fresh(o)
    ensures s.tree == T.Node(sib.tree.entries[..|sib.tree.entries| - 1],
      if h > 0 then sib.tree.children[..|sib.tree.children| - 1] else [])
  {
    s := sib.Clone();
    var last := |s.keys| - 1;
    var cs := if |s.children| != 0 then s.children[..|s.children| - 1] else s.children;
    s.Edit(s.keys[..last], s.vals[..last], cs,
           T.Node(s.tree.entries[..last], if h > 0 then s.tree.children[..|s.tree.children| - 1] else []),
           s.repr - {s});
  }

  /** A clone of `sib` without its first entry and first child. */
  method GiveFirst<K(==, !new), V>(ghost h: nat, sib: Node<K, V>) returns (s: Node<K, V>)
    requires sib.Valid() && Formed(h, sib.tree) && |sib.keys| > 0
    ensures fresh(s) && s.Valid()
    ensures forall o :: o in s.repr ==> o in sib.repr || fresh(o)
    ensures s.tree == T.Node(sib.tree.entries[1..], if h > 0 then sib.tree.children[1..] else [])
  {
    s := sib.Clone();
    var cs := if |s.children| != 0 then s.children[1..] else s.children;
    s.Edit(s.keys[1..], s.vals[1..], cs,
           T.Node(s.tree.entries[1..], if h > 0 then s.tree.children[1..] else []), s.repr - {s});
  }

  /** A clone of `child` with an entry, and the last child of `sib`, put in front. */
  method TakeFront<K(==, !new), V>(ghost h: nat, child: Node<K, V>, key: K, val: V, sib: Node<K, V>)
    returns (c: Node<K, V>)
    requires child.Valid() && sib.Valid() && Formed(h, child.tree) && Formed(h, sib.tree)
    ensures fresh(c) && c.Valid()
    ensures forall o :: o in c.repr ==> o in child.repr || o in sib.repr || fresh(o)
    ensures c.tree == T.Node([(key, val)] + child.tree.entries,
      if h > 0 then [sib.tree.children[|sib.tree.children| - 1]] + child.tree.children else [])
  {
    c := child.Clone();
    var cs := if |c.children| != 0 then [sib.children[|sib.children| - 1]] + c.children else c.children;
    c.Edit([key] + c.keys, [val] + c.vals, cs,
           T.Node([(key, val)] + c.tree.entries,
             if h > 0 then [sib.tree.children[|sib.tree.children| - 1]] + c.tree.children else []),
           c.repr - {c} + (sib.repr - {sib}));
  }

  /** A clone of `child` with an entry, and the first child of `sib`, put behind. */
  method TakeBack<K(==, !new), V>(ghost h: nat, child: Node<K, V>, key: K, val: V, sib: Node<K, V>)
    returns (c: Node<K, V>)
    requires child.Valid() && sib.Valid() && Formed(h, child.tree) && Formed(h, sib.tree)
    ensures fresh(c) && c.Valid()
    ensures forall o :: o in c.repr ==> o in child.repr || o in sib.repr || fresh(o)
    ensures c.tree == T.Node(child.tree.entries + [(key, val)],
      if h > 0 then child.tree.children + [sib.tree.children[0]] else [])
  {
    c := child.Clone();
    var cs := if |c.children| != 0 then c.children + [sib.children[0]] else c.children;
    c.Edit(c.keys + [key], c.vals + [val], cs,
           T.Node(c.tree.entries + [(key, val)],
             if h > 0 then c.tree.children + [sib.tree.children[0]] else []),
           c.repr - {c} + (sib.repr - {sib}));
  }

  method SetSiblings<K(==, !new), V>(x: Node<K, V>, i: nat, left: Node<K, V>, k: K, v: V, right: Node<K, V>)
    requires x.Valid() && |x.children| == |x.keys| + 1 && i < |x.keys|
    requires left.Valid() && right.Valid() && x !in left.repr && x !in right.repr
    modifies x
    ensures x.Valid() && x.tree == SetPair(old(x.tree), i, Pair(left.tree, (k, v), right.tree))
    ensures x.repr == old(x.repr) + left.repr + right.repr
  {
    x.SetEntry(i, k, v);
    x.SetChild(i, left);
    x.SetChild(i + 1, right);
  }

  method ShiftedRight<K(==, !new), V>(ghost h: nat, l: Node<K, V>, key: K, val: V, r: Node<K, V>)
    returns (sib: Node<K, V>, k: K, v: V, child: Node<K, V>)
    requires l.Valid() && r.Valid() && Formed(h, l.tree) && Formed(h, r.tree) && l.tree.entries != []
    ensures sib.Valid() && child.Valid()
    ensures Pair(sib.tree, (k, v), child.tree) == ShiftRight(h, l.tree, (key, val), r.tree)
    ensures forall o :: o in sib.repr || o in child.repr ==> o in l.repr || o in r.repr || fresh(o)
  {
    hide Zipped, ShiftRight;
    LastEntry(l);
    child := TakeFront(h, r, key, val, l);
    sib := GiveLast(h, l);
    var last := |l.keys| - 1;
    k, v := l.keys[last], l.vals[last];
    ShiftedRightIs(h, l.tree, (key, val), r.tree, sib.tree, (k, v), child.tree);
  }

  lemma LastEntry<K(!new), V>(n: Node<K, V>)
    requires n.Valid()
    ensures |n.keys| == |n.vals| == |n.tree.entries|
    ensures |n.keys| > 0 ==> n.tree.entries[|n.keys| - 1] == (n.keys[|n.keys| - 1], n.vals[|n.keys| - 1])
  {
  }

  lemma ShiftedRightIs<K, V>(h: nat, l: Tree<K, V>, f: (K, V), r: Tree<K, V>, sib: Tree<K, V>, e: (K, V),
                             child: Tree<K, V>)
    requires Formed(h, l) && Formed(h, r) && l.entries != []
    requires sib == T.Node(l.entries[..|l.entries| - 1], if h > 0 then l.children[..|l.children| - 1] else [])
    requires e == l.entries[|l.entries| - 1]
    requires child == T.Node([f] + r.entries, if h > 0 then [l.children[|l.children| - 1]] + r.children else [])
    ensures Pair(sib, e, child) == ShiftRight(h, l, f, r)
  {
  }

  method ShiftedLeft<K(==, !new), V>(ghost h: nat, l: Node<K, V>, key: K, val: V, r: Node<K, V>)
    returns (child: Node<K, V>, k: K, v: V, sib: Node<K, V>)
    requires l.Valid() && r.Valid() && Formed(h, l.tree) && Formed(h, r.tree) && r.tree.entries != []
    ensures sib.Valid() && child.Valid()
    ensures Pair(child.tree, (k, v), sib.tree) == ShiftLeft(h, l.tree, (key, val), r.tree)
    ensures forall o :: o in sib.repr || o in child.repr ==> o in l.repr || o in r.repr || fresh(o)
  {
    child := TakeBack(h, l, key, val, r);
    sib := GiveFirst(h, r);
    k, v := r.keys[0], r.vals[0];
  }

  method RotateRight<K(==, !new), V>(ghost h: nat, x: Node<K, V>, i: nat)
    requires x.Valid() && |x.children| == |x.keys| + 1 && i < |x.keys|
    requires Formed(h, x.tree.children[i]) && Formed(h, x.tree.children[i + 1]) && x.tree.children[i].entries != []
    modifies x
    ensures x.Valid()
    ensures x.tree == SetPair(old(x.tree), i,
      ShiftRight(h, old(x.tree.children[i]), old(x.tree.entries[i]), old(x.tree.children[i + 1])))
    ensures forall o :: o in x.repr ==> o in old(x.repr) || fresh(o)
  {
    var sib, k, v, child := ShiftedRight(h, x.children[i], x.keys[i], x.vals[i], x.children[i + 1]);
    SetSiblings(x, i, sib, k, v, child);
  }

  method RotateLeft<K(==, !new), V>(ghost h: nat, x: Node<K, V>, i: nat)
    requires x.Valid() && |x.children| == |x.keys| + 1 && i < |x.keys|
    requires Formed(h, x.tree.children[i]) && Formed(h, x.tree.children[i + 1]) && x.tree.children[i + 1].entries != []
    modifies x
    ensures x.Valid()
    ensures x.tree == SetPair(old(x.tree), i,
      ShiftLeft(h, old(x.tree.children[i]), old(x.tree.entries[i]), old(x.tree.children[i + 1])))
    ensures forall o :: o in x.repr ==> o in old(x.repr) || fresh(o)
  {
    var child, k, v, sib := ShiftedLeft(h, x.children[i], x.keys[i], x.vals[i], x.children[i + 1]);
    SetSiblings(x, i, child, k, v, sib);
  }

  method BorrowFromPrev<K(==, !new), V>(ghost h: nat, x: Node<K, V>, i: nat)
    requires x.Valid() && Family(h, x.tree) && 0 < i < |x.children| && x.tree.children[i - 1].entries != []
    modifies x
    ensures x.Valid() && x.tree == BorrowPrev(h, old(x.tree), i)
    ensures forall o :: o in x.repr ==> o in old(x.repr) || fresh(o)
  {
    RotateRight(h - 1, x, i - 1);
  }

  method BorrowFromNext<K(==, !new), V>(ghost h: nat, x: Node<K, V>, i: nat)
    requires x.Valid() && Family(h, x.tree) && i < |x.children| - 1 && x.tree.children[i + 1].entries != []
    modifies x
    ensures x.Valid() && x.tree == BorrowNext(h, old(x.tree), i)
    ensures forall o :: o in x.repr ==> o in old(x.repr) || fresh(o)
  {
    RotateLeft(h - 1, x, i);
  }

  method FillChild<K(==, !new), V>(t: nat, ghost h: nat, x: Node<K, V>, i: nat) returns (j: nat)
    requires t >= 1 && x.Valid() && Family(h, x.tree) && |x.keys| > 0 && i < |x.children|
    modifies x
    ensures x.Valid() && Filled(x.tree, j) == Fill(t, h, old(x.tree), i)
    ensures forall o :: o in x.repr ==> o in old(x.repr) || fresh(o)
  {
    if i > 0 && |x.children[i - 1].keys| >= t {
      BorrowFromPrev(h, x, i);
      return i;
    }
    if i < |x.children| - 1 && |x.children[i + 1].keys| >= t {
      BorrowFromNext(h, x, i);
      return i;
    }
    if i < |x.children| - 1 {
      var _ := MergeChildren(x, i);
      return i;
    }
    var _ := MergeChildren(x, i - 1);
    return i - 1;
  }

  method DeleteNode<K(==, !new), V>(lt: (K, K) -> bool, t: nat, ghost h: nat, n: Node<K, V>, key: K)
    returns (x: Node<K, V>, removed: Option<V>)
    requires t >= 2 && n.Valid() && Balanced(t, h, n.tree) && (h > 0 ==> n.tree.entries != [])
    requires TotalOrder(lt) && Sorted(lt, Flat(n.tree))
    ensures x.Valid() && Deleted(x.tree, removed) == Delete(lt, t, h, n.tree, key)
    ensures forall o :: o in x.repr ==> o in n.repr || fresh(o)
    decreases h, 1
  {
    hide TotalOrder, Sorted, DeleteInner, Flat, Descend;
    x := n.Clone();
    NodeSorted(lt, h, n.tree);
    var i, found := x.Search(lt, key);
    if found {
      removed := Some(x.vals[i]);
      if |x.children| == 0 {
        x.RemoveEntry(i);
      } else {
        DeleteFound(lt, t, h, x, i);
      }
    } else if |x.children| == 0 {
      removed := None;
    } else {
      removed := DeleteBelow(lt, t, h, x, i, key);
    }
  }

  /** The two cases in which a neighbour replaces the entry. */
  lemma InnerReplaced<K(!new), V>(lt: (K, K) -> bool, t: nat, h: nat, n: Tree<K, V>, i: nat)
    requires t >= 2 && h > 0 && Balanced(t, h, n) && i < |n.entries|
    ensures var left, right := n.children[i], n.children[i + 1];
      if |left.entries| >= t then
        && Spine(h - 1, left)
        && var e := MaxEntry(h - 1, left);
           DeleteInner(lt, t, h, n, i)
           == T.Node(n.entries[i := e], n.children[i := Delete(lt, t, h - 1, left, e.0).node])
      else if |right.entries| >= t then
        && Spine(h - 1, right)
        && var e := MinEntry(h - 1, right);
           DeleteInner(lt, t, h, n, i)
           == T.Node(n.entries[i := e], n.children[i + 1 := Delete(lt, t, h - 1, right, e.0).node])
      else true
  {
    if |n.children[i].entries| >= t {
      BalancedSpine(t, h - 1, n.children[i]);
    } else if |n.children[i + 1].entries| >= t {
      BalancedSpine(t, h - 1, n.children[i + 1]);
    }
  }

  /**
   The key sits in the cloned internal node `x`: its predecessor or successor takes its place,
   or it is merged down.
   */
  method DeleteFound<K(==, !new), V>(lt: (K, K) -> bool, t: nat, ghost h: nat, x: Node<K, V>, i: nat)
    requires t >= 2 && h > 0 && x.Valid() && Balanced(t, h, x.tree) && i < |x.keys|
    requires TotalOrder(lt) && Sorted(lt, Flat(x.tree))
    modifies x
    ensures x.Valid() && x.tree == DeleteInner(lt, t, h, old(x.tree), i)
    ensures forall o :: o in x.repr ==> o in old(x.repr) || fresh(o)
    decreases h, 0
  {
    hide TotalOrder, Sorted, Delete, DeleteInner, Flat, MaxEntry, MinEntry;
    var left, right := x.children[i], x.children[i + 1];
    HitFocus(lt, x.tree, i);
    InnerReplaced(lt, t, h, x.tree, i);
    if |left.keys| >= t {
      var nc, pk, pv := WithoutMax(lt, t, h - 1, left);
      Replace(x, i, pk, pv, i, nc);
    } else if |right.keys| >= t {
      var nc, sk, sv := WithoutMin(lt, t, h - 1, right);
      Replace(x, i, sk, sv, i + 1, nc);
    } else {
      DeleteAcrossMerge(lt, t, h, x, i);
    }
  }

  method WithoutMax<K(==, !new), V>(lt: (K, K) -> bool, t: nat, ghost h: nat, n: Node<K, V>)
    returns (nc: Node<K, V>, key: K, val: V)
    requires t >= 2 && n.Valid() && Balanced(t, h, n.tree) && n.tree.entries != []
    requires TotalOrder(lt) && Sorted(lt, Flat(n.tree))
    ensures Spine(h, n.tree) && (key, val) == MaxEntry(h, n.tree)
    ensures nc.Valid() && nc.tree == Delete(lt, t, h, n.tree, key).node
    ensures forall o :: o in nc.repr ==> o in n.repr || fresh(o)
    decreases h, 2
  {
    BalancedSpine(t, h, n.tree);
    key, val := MaxEntryOf(h, n);
    var c, _ := DeleteNode(lt, t, h, n, key);
    nc := c;
  }

  method WithoutMin<K(==, !new), V>(lt: (K, K) -> bool, t: nat, ghost h: nat, n: Node<K, V>)
    returns (nc: Node<K, V>, key: K, val: V)
    requires t >= 2 && n.Valid() && Balanced(t, h, n.tree) && n.tree.entries != []
    requires TotalOrder(lt) && Sorted(lt, Flat(n.tree))
    ensures Spine(h, n.tree) && (key, val) == MinEntry(h, n.tree)
    ensures nc.Valid() && nc.tree == Delete(lt, t, h, n.tree, key).node
    ensures forall o :: o in nc.repr ==> o in n.repr || fresh(o)
    decreases h, 2
  {
    BalancedSpine(t, h, n.tree);
    key, val := MinEntryOf(h, n);
    var c, _ := DeleteNode(lt, t, h, n, key);
    nc := c;
  }

  method Replace<K(==, !new), V>(x: Node<K, V>, i: nat, key: K, val: V, j: nat, c: Node<K, V>)
    requires x.Valid() && i < |x.keys| && j < |x.children| && c.Valid() && x !in c.repr
    modifies x
    ensures x.Valid() && x.repr == old(x.repr) + c.repr
    ensures x.tree == T.Node(old(x.tree.entries)[i := (key, val)], old(x.tree.children)[j := c.tree])
  {
    x.SetChild(j, c);
    x.SetEntry(i, key, val);
  }

  method DeleteAcrossMerge<K(==, !new), V>(lt: (K, K) -> bool, t: nat, ghost h: nat, x: Node<K, V>, i: nat)
    requires t >= 2 && h > 0 && x.Valid() && Balanced(t, h, x.tree) && i < |x.keys|
    requires |x.tree.children[i].entries| < t && |x.tree.children[i + 1].entries| < t
    requires TotalOrder(lt) && Sorted(lt, Flat(x.tree))
    modifies x
    ensures x.Valid() && x.tree == DeleteInner(lt, t, h, old(x.tree), i)
    ensures forall o :: o in x.repr ==> o in old(x.repr) || fresh(o)
    decreases h - 1, 2
  {
    hide TotalOrder, Sorted, Delete, DeleteInner, Flat;
    var key := x.keys[i];
    BalancedFamily(t, h, x.tree);
    MergeFlat(h, x.tree, i);
    InnerMerged(lt, t, h, x.tree, i);
    var merged := MergeChildren(x, i);
    ChildSorted(lt, x.tree, i);
    var nc, _ := DeleteNode(lt, t, h - 1, merged, key);
    x.SetChild(i, nc);
  }

  /** The key may sit below child `i` of the cloned node `x`. */
  method DeleteBelow<K(==, !new), V>(lt: (K, K) -> bool, t: nat, ghost h: nat, x: Node<K, V>, i: nat, key: K)
    returns (removed: Option<V>)
    requires t >= 2 && h > 0 && x.Valid() && Balanced(t, h, x.tree) && x.tree.entries != []
    requires TotalOrder(lt) && Sorted(lt, Flat(x.tree))
    requires i == Rank(lt, x.tree.entries, key) && !Hit(x.tree.entries, i, key)
    modifies x
    ensures x.Valid() && Deleted(x.tree, removed) == Delete(lt, t, h, old(x.tree), key)
    ensures forall o :: o in x.repr ==> o in old(x.repr) || fresh(o)
    decreases h, 0
  {
    hide TotalOrder, Sorted, DeleteInner, Flat;
    ghost var f := Descend(t, h, x.tree, i);
    DescendChild(lt, t, h, x.tree, i, f);
    var j := PrepareChild(t, h, x, i);
    var nc;
    nc, removed := DeleteNode(lt, t, h - 1, x.children[j], key);
    x.SetChild(j, nc);
  }

  method PrepareChild<K(==, !new), V>(t: nat, ghost h: nat, x: Node<K, V>, i: nat) returns (j: nat)
    requires t >= 2 && h > 0 && x.Valid() && Balanced(t, h, x.tree) && x.tree.entries != [] && i < |x.children|
    modifies x
    ensures x.Valid() && Filled(x.tree, j) == Descend(t, h, old(x.tree), i)
    ensures forall o :: o in x.repr ==> o in old(x.repr) || fresh(o)
  {
    j := i;
    if |x.children[i].keys| < t {
      BalancedFamily(t, h, x.tree);
      j := FillChild(t, h, x, i);
    }
  }
}
