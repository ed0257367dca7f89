/**
 The range scan of the B-tree: a recursive walk that starts each node at the
 searched position, stops early once a key exceeds the upper end, and polls for
 cancellation once per node.
 */
module BTreeScan {
  import opened OrderedEntries
  import opened TreeModel
  import opened BTreeNodes

  /** start == end asks for everything. */
  function LowEnd<K(==)>(start: K, end: K): Bound<K> {
    if start == end then Unbounded else Closed(start)
  }

  function HighEnd<K(==)>(start: K, end: K): Bound<K> {
    if start == end then Unbounded else Closed(end)
  }

  function InRange<K(==), V>(lt: (K, K) -> bool, start: K, end: K, s: seq<(K, V)>): seq<(K, V)> {
    Between(lt, s, LowEnd(start, end), HighEnd(start, end))
  }

  /** What a scan of `n` has to list before it turns to child `i`. */
  ghost function Upto<K, V>(n: Tree<K, V>, i: nat): seq<(K, V)>
    requires |n.children| == |n.entries| + 1
  {
    if i <= |n.entries| then Left(n, i) else Flat(n)
  }

  lemma SkipSmaller<K(!new), V>(lt: (K, K) -> bool, start: K, end: K, s: seq<(K, V)>)
    requires AllBelow(lt, s, start) && start != end
    ensures InRange(lt, start, end, s) == []
  {
    BetweenNone(lt, s, LowEnd(start, end), HighEnd(start, end));
  }

  /** Once a key exceeds the upper end, neither it nor anything after it is in the range. */
  lemma StopAt<K(!new), V>(lt: (K, K) -> bool, start: K, end: K, p: seq<(K, V)>, e: (K, V), q: seq<(K, V)>)
    requires TotalOrder(lt) && Sorted(lt, p + [e] + q) && start != end && lt(end, e.0)
    ensures InRange(lt, start, end, p + [e] + q) == InRange(lt, start, end, p)
  {
    SortedSplit(lt, p, e, q);
    var lo, hi := LowEnd(start, end), HighEnd(start, end);
    BetweenNone(lt, [e], lo, hi);
    BetweenNone(lt, q, lo, hi);
    BetweenThree(lt, p, [e], q, lo, hi);
  }

  lemma TakeEntry<K(!new), V>(lt: (K, K) -> bool, start: K, end: K, p: seq<(K, V)>, e: (K, V))
    requires Within(lt, LowEnd(start, end), HighEnd(start, end), e.0)
    ensures InRange(lt, start, end, p + [e]) == InRange(lt, start, end, p) + [e]
  {
    BetweenConcat(lt, p, [e], LowEnd(start, end), HighEnd(start, end));
  }

  lemma SkipEntry<K(!new), V>(lt: (K, K) -> bool, start: K, end: K, p: seq<(K, V)>, e: (K, V))
    requires !Within(lt, LowEnd(start, end), HighEnd(start, end), e.0)
    ensures InRange(lt, start, end, p + [e]) == InRange(lt, start, end, p)
  {
    BetweenConcat(lt, p, [e], LowEnd(start, end), HighEnd(start, end));
  }

  /** The first position of a scan: nothing before it is in the range. */
  lemma ScanStart<K(!new), V>(lt: (K, K) -> bool, start: K, end: K, n: Tree<K, V>, i: nat)
    requires |n.children| == |n.entries| + 1 && TotalOrder(lt) && Sorted(lt, Flat(n))
    requires i == if start == end then 0 else Rank(lt, n.entries, start)
    ensures InRange(lt, start, end, Left(n, i)) == []
  {
    if start != end {
      SearchLeft(lt, n, start);
      SkipSmaller(lt, start, end, Left(n, i));
    }
  }

  /** Listing child `i` and separator `i` is listing up to child i+1; a partial child is a prefix of the whole. */
  lemma ScanChild<K(!new), V>(lt: (K, K) -> bool, start: K, end: K, n: Tree<K, V>, i: nat)
    requires |n.children| == |n.entries| + 1 && i <= |n.entries|
    ensures var c := Flat(n.children[i]);
      && InRange(lt, start, end, Left(n, i) + c) == InRange(lt, start, end, Left(n, i)) + InRange(lt, start, end, c)
      && InRange(lt, start, end, Left(n, i)) <= InRange(lt, start, end, Left(n, i) + c)
      && InRange(lt, start, end, Left(n, i) + c) <= InRange(lt, start, end, Flat(n))
      && InRange(lt, start, end, Left(n, i)) + InRange(lt, start, end, c) <= InRange(lt, start, end, Flat(n))
      && (i < |n.entries| ==> Left(n, i + 1) == Left(n, i) + c + [n.entries[i]])
      && (i == |n.entries| ==>
            InRange(lt, start, end, Flat(n)) == InRange(lt, start, end, Left(n, i)) + InRange(lt, start, end, c))
  {
    var lo, hi := LowEnd(start, end), HighEnd(start, end);
    FlatFocus(n, i);
    BetweenThree(lt, Left(n, i), Flat(n.children[i]), Right(n, i), lo, hi);
    BetweenConcat(lt, Left(n, i), Flat(n.children[i]), lo, hi);
    if i < |n.entries| { FlatFocus(n, i + 1); }
  }

  lemma ScanStop<K(!new), V>(lt: (K, K) -> bool, start: K, end: K, n: Tree<K, V>, i: nat)
    requires |n.children| == |n.entries| + 1 && i < |n.entries| && TotalOrder(lt) && Sorted(lt, Flat(n))
    requires start != end && lt(end, n.entries[i].0)
    ensures InRange(lt, start, end, Flat(n)) == InRange(lt, start, end, Left(n, i) + Flat(n.children[i]))
  {
    FlatEntry(n, i);
    StopAt(lt, start, end, Left(n, i) + Flat(n.children[i]), n.entries[i], Flat(n.children[i + 1]) + Right(n, i + 1));
  }

  /** Scans the entries of a leaf from position `i0`. */
  method WalkLeaf<K(==, !new), V>(lt: (K, K) -> bool, n: Node<K, V>, i0: nat, start: K, end: K, results0: seq<(K, V)>)
    returns (results: seq<(K, V)>)
    requires n.Valid() && TotalOrder(lt) && Sorted(lt, n.tree.entries)
    requires i0 == if start == end then 0 else Rank(lt, n.tree.entries, start)
    ensures results == results0 + InRange(lt, start, end, n.tree.entries)
  {
    ghost var es := n.tree.entries;
    var i := i0;
    results := results0;
    if start != end { SkipSmaller(lt, start, end, es[..i]); }
    while i < |n.keys|
      invariant i0 <= i <= |n.keys|
      invariant results == results0 + InRange(lt, start, end, es[..i])
    {
      LeafStep(lt, start, end, es, i0, i);
      if start != end && lt(end, n.keys[i]) {
        return;
      }
      results := results + [(n.keys[i], n.vals[i])];
      i := i + 1;
    }
    assert es[..i] == es;
  }

  lemma LeafStep<K(!new), V>(lt: (K, K) -> bool, start: K, end: K, es: seq<(K, V)>, i0: nat, i: nat)
    requires TotalOrder(lt) && Sorted(lt, es) && i0 <= i < |es|
    requires i0 == if start == end then 0 else Rank(lt, es, start)
    ensures if start != end && lt(end, es[i].0)
      then InRange(lt, start, end, es) == InRange(lt, start, end, es[..i])
      else InRange(lt, start, end, es[..i + 1]) == InRange(lt, start, end, es[..i]) + [es[i]]
  {
    hide InRange, Between, TotalOrder, Sorted;
    if start != end && lt(end, es[i].0) {
      assert es == es[..i] + [es[i]] + es[i + 1..];
      StopAt(lt, start, end, es[..i], es[i], es[i + 1..]);
    } else {
      NotBelowStart(lt, start, end, es, i0, i);
      assert es[..i + 1] == es[..i] + [es[i]];
      TakeEntry(lt, start, end, es[..i], es[i]);
    }
  }

  lemma NotBelowStart<K(!new), V>(lt: (K, K) -> bool, start: K, end: K, es: seq<(K, V)>, i0: nat, i: nat)
    requires TotalOrder(lt) && Sorted(lt, es) && i0 <= i < |es|
    requires i0 == if start == end then 0 else Rank(lt, es, start)
    ensures start != end ==> !lt(es[i].0, start)
  {
    if start != end {
      AboveSplit(lt, es, i0, start);
    }
  }

  /** What the walk does with separator `i` after child `i`: stop, take it, or skip it. */
  lemma SeparatorStep<K(!new), V>(lt: (K, K) -> bool, start: K, end: K, n: Tree<K, V>, i: nat)
    requires |n.children| == |n.entries| + 1 && i < |n.entries| && TotalOrder(lt) && Sorted(lt, Flat(n))
    ensures var r := InRange(lt, start, end, Left(n, i)) + InRange(lt, start, end, Flat(n.children[i]));
      if start != end && lt(end, n.entries[i].0) then InRange(lt, start, end, Flat(n)) == r
      else
        && InRange(lt, start, end, Upto(n, i + 1))
           == (if start == end || !lt(n.entries[i].0, start) then r + [n.entries[i]] else r)
        && InRange(lt, start, end, Upto(n, i + 1)) <= InRange(lt, start, end, Flat(n))
  {
    var p, e := Left(n, i) + Flat(n.children[i]), n.entries[i];
    ScanChild(lt, start, end, n, i);
    if start != end && lt(end, e.0) {
      ScanStop(lt, start, end, n, i);
    } else if start == end || !lt(e.0, start) {
      TakeEntry(lt, start, end, p, e);
    } else {
      SkipEntry(lt, start, end, p, e);
    }
    ScanChild(lt, start, end, n, i + 1);
  }

  // ---------- polls of the context ----------

  ghost predicate NoneCancelled(cancelled: nat -> bool, from: nat, to: nat) {
    forall j :: from <= j < to ==> !cancelled(j)
  }

  /**
   What a scan has listed at each of its polls. It polls once on entering a node,
   with everything in the range to the left of that node listed; `left` is what
   the whole tree holds to the left of `n`.
   */
  ghost function Polled<K(!new), V>(lt: (K, K) -> bool, start: K, end: K, n: Tree<K, V>, left: seq<(K, V)>)
    : (p: seq<seq<(K, V)>>)
    ensures |p| > 0 && p[0] == InRange(lt, start, end, left)
    decreases n, 1, 0
  {
    var i := if start == end then 0 else Rank(lt, n.entries, start);
    [InRange(lt, start, end, left)]
    + if |n.children| == |n.entries| + 1 then PolledFrom(lt, start, end, n, i, left) else []
  }

  /** ... in the children from `i` on, up to the separator that exceeds the upper end. */
  ghost function PolledFrom<K(!new), V>(lt: (K, K) -> bool, start: K, end: K, n: Tree<K, V>, i: nat,
                                        left: seq<(K, V)>)
    : (p: seq<seq<(K, V)>>)
    requires |n.children| == |n.entries| + 1 && i <= |n.entries|
    ensures |p| > 0
    decreases n, 0, |n.entries| - i
  {
    Polled(lt, start, end, n.children[i], left + Left(n, i))
    + if i < |n.entries| && (start == end || !lt(end, n.entries[i].0))
      then PolledFrom(lt, start, end, n, i + 1, left)
      else []
  }

  lemma PolledNode<K(!new), V>(lt: (K, K) -> bool, start: K, end: K, n: Tree<K, V>, i: nat, left: seq<(K, V)>)
    requires |n.children| == 0 || |n.children| == |n.entries| + 1
    requires i == if start == end then 0 else Rank(lt, n.entries, start)
    ensures var own := [InRange(lt, start, end, left)];
      Polled(lt, start, end, n, left)
      == if |n.children| == 0 then own else own + (PolledFrom(lt, start, end, n, i, left) + [])
  {
    if |n.children| > 0 {
      assert PolledFrom(lt, start, end, n, i, left) + [] == PolledFrom(lt, start, end, n, i, left);
    }
  }

  /**
   The walk of one part, whose polls find `p` listed, began with poll `polls0`: it
   has gone on if no poll answered that the context is cancelled, and the first
   that did has ended it with what was listed then.
   */
  ghost predicate Outcome<E>(p: seq<seq<E>>, cancelled: nat -> bool, polls0: nat, polls: nat, more: bool,
                             results: seq<E>)
  {
    && polls0 < polls <= polls0 + |p|
    && (more ==> polls == polls0 + |p| && NoneCancelled(cancelled, polls0, polls))
    && (!more ==>
          && NoneCancelled(cancelled, polls0, polls - 1) && cancelled(polls - 1)
          && results == p[polls - 1 - polls0])
  }

  /** A walk that ends in one of its parts ends there as a whole. */
  lemma OutcomeWithin<E>(before: seq<seq<E>>, p: seq<seq<E>>, after: seq<seq<E>>, whole: seq<seq<E>>,
                         cancelled: nat -> bool, polls0: nat, mid: nat, polls: nat, more: bool, results: seq<E>)
    requires whole == before + (p + after) && mid == polls0 + |before| && NoneCancelled(cancelled, polls0, mid)
    requires Outcome(p, cancelled, mid, polls, more, results)
    ensures !more || after == [] ==> Outcome(whole, cancelled, polls0, polls, more, results)
    ensures more ==> polls == polls0 + |before + p| && NoneCancelled(cancelled, polls0, polls)
    ensures whole == (before + p) + after
  {
  }

  /** What the polls of child `i` find, and then those of the children after it. */
  lemma PolledStep<K(!new), V>(lt: (K, K) -> bool, start: K, end: K, n: Tree<K, V>, i: nat, left: seq<(K, V)>)
    returns (p: seq<seq<(K, V)>>, after: seq<seq<(K, V)>>)
    requires |n.children| == |n.entries| + 1 && i <= |n.entries|
    ensures PolledFrom(lt, start, end, n, i, left) == p + after
    ensures p == Polled(lt, start, end, n.children[i], left + Left(n, i))
    ensures i == |n.entries| || (start != end && lt(end, n.entries[i].0)) ==> after == []
    ensures i < |n.entries| && (start == end || !lt(end, n.entries[i].0)) ==>
      after == PolledFrom(lt, start, end, n, i + 1, left)
    ensures InRange(lt, start, end, left + Left(n, i))
      == InRange(lt, start, end, left) + InRange(lt, start, end, Left(n, i))
  {
    hide Polled;
    p := Polled(lt, start, end, n.children[i], left + Left(n, i));
    after := if i < |n.entries| && (start == end || !lt(end, n.entries[i].0))
      then PolledFrom(lt, start, end, n, i + 1, left)
      else [];
    BetweenConcat(lt, left, Left(n, i), LowEnd(start, end), HighEnd(start, end));
  }

  /**
   Appends what `n` holds in the range. `cancelled(j)` is the answer of the j-th
   poll of the context. A cancelled walk has appended what was listed at the poll.
   */
  method Walk<K(==, !new), V>(lt: (K, K) -> bool, t: nat, ghost h: nat, n: Node<K, V>, start: K, end: K,
                              cancelled: nat -> bool, polls0: nat, ghost left: seq<(K, V)>, results0: seq<(K, V)>)
    returns (results: seq<(K, V)>, more: bool, polls: nat)
    requires n.Valid() && Balanced(t, h, n.tree) && TotalOrder(lt) && Sorted(lt, Flat(n.tree))
    requires results0 == InRange(lt, start, end, left)
    ensures results0 <= results <= results0 + InRange(lt, start, end, Flat(n.tree))
    ensures more ==> results == results0 + InRange(lt, start, end, Flat(n.tree))
    ensures Outcome(Polled(lt, start, end, n.tree, left), cancelled, polls0, polls, more, results)
    decreases h, 1
  {
    hide InRange, Polled, PolledFrom, TotalOrder, Sorted, Left, Rank;
    results, polls := results0, polls0 + 1;
    if cancelled(polls0) {
      return results, false, polls;
    }
    NodeSorted(lt, h, n.tree);
    var i: nat := 0;
    if start != end {
      var lo, _ := n.Search(lt, start);
      i := lo;
    }
    ghost var own := [InRange(lt, start, end, left)];
    PolledNode(lt, start, end, n.tree, i, left);
    if |n.children| == 0 {
      results := WalkLeaf(lt, n, i, start, end, results0);
      more := true;
    } else {
      ScanStart(lt, start, end, n.tree, i);
      results, more, polls := WalkChildren(lt, t, h, n, i, start, end, cancelled, polls, left, results0);
      OutcomeWithin(own, PolledFrom(lt, start, end, n.tree, i, left), [], Polled(lt, start, end, n.tree, left),
                    cancelled, polls0, polls0 + 1, polls, more, results);
    }
  }

  method WalkChildren<K(==, !new), V>(lt: (K, K) -> bool, t: nat, ghost h: nat, n: Node<K, V>, i0: nat, start: K,
                                      end: K, cancelled: nat -> bool, polls0: nat, ghost left: seq<(K, V)>,
                                      results0: seq<(K, V)>)
    returns (results: seq<(K, V)>, more: bool, polls: nat)
    requires n.Valid() && h > 0 && Balanced(t, h, n.tree) && TotalOrder(lt) && Sorted(lt, Flat(n.tree))
    requires i0 <= |n.keys| && InRange(lt, start, end, Left(n.tree, i0)) == []
    requires |n.tree.children| == |n.tree.entries| + 1 && results0 == InRange(lt, start, end, left)
    ensures results0 <= results <= results0 + InRange(lt, start, end, Flat(n.tree))
    ensures more ==> results == results0 + InRange(lt, start, end, Flat(n.tree))
    ensures Outcome(PolledFrom(lt, start, end, n.tree, i0, left), cancelled, polls0, polls, more, results)
    decreases h, 0
  {
    hide Between, InRange, Left, Flat, TotalOrder, Sorted, Balanced, Polled, PolledFrom, Outcome, NoneCancelled;
    results, polls := results0, polls0;
    InnerShape(t, h, n.tree);
    var i := i0;
    ghost var all := InRange(lt, start, end, Flat(n.tree));
    ghost var whole := PolledFrom(lt, start, end, n.tree, i0, left);
    ghost var done, before := [], [];
    UptoStart(lt, start, end, n.tree, i);
    NoPolls(cancelled, polls0);
    assert whole == [] + whole;
    while i <= |n.keys|
      invariant i <= |n.keys| + 1
      invariant results == results0 + done && done == InRange(lt, start, end, Upto(n.tree, i)) && done <= all
      invariant i == |n.keys| + 1 ==> done == all && Outcome(whole, cancelled, polls0, polls, true, results)
      invariant polls == polls0 + |before| && NoneCancelled(cancelled, polls0, polls)
      invariant i <= |n.keys| ==> whole == before + PolledFrom(lt, start, end, n.tree, i, left)
    {
      ChildSorted(lt, n.tree, i);
      ScanChild(lt, start, end, n.tree, i);
      ghost var part := InRange(lt, start, end, Flat(n.tree.children[i]));
      ghost var p, after := PolledStep(lt, start, end, n.tree, i, left);
      ghost var mid := polls;
      results, more, polls :=
        Walk(lt, t, h - 1, n.children[i], start, end, cancelled, polls, left + Left(n.tree, i), results);
      PrefixOf(results0, done, part, all, results);
      OutcomeWithin(before, p, after, whole, cancelled, polls0, mid, polls, more, results);
      if !more {
        return;
      }
      done, before := done + part, before + p;
      if i < |n.keys| {
        SeparatorStep(lt, start, end, n.tree, i);
        var k := n.keys[i];
        if start != end && lt(end, k) {
          return;
        }
        if start == end || !lt(k, start) {
          results := results + [(k, n.vals[i])];
          done := done + [n.tree.entries[i]];
        }
      }
      i := i + 1;
    }
    more := true;
  }

  lemma NoPolls(cancelled: nat -> bool, polls: nat)
    ensures NoneCancelled(cancelled, polls, polls)
  {
  }

  lemma InnerShape<K, V>(t: nat, h: nat, n: Tree<K, V>)
    requires h > 0 && Balanced(t, h, n)
    ensures |n.children| == |n.entries| + 1
    ensures forall i :: 0 <= i < |n.children| ==> Balanced(t, h - 1, n.children[i])
  {
  }

  lemma UptoStart<K(!new), V>(lt: (K, K) -> bool, start: K, end: K, n: Tree<K, V>, i: nat)
    requires |n.children| == |n.entries| + 1 && i <= |n.entries| && InRange(lt, start, end, Left(n, i)) == []
    ensures InRange(lt, start, end, Upto(n, i)) == []
  {
    hide Between;
  }

  lemma PrefixOf<E>(results0: seq<E>, done: seq<E>, part: seq<E>, all: seq<E>, results: seq<E>)
    requires done + part <= all && results0 + done <= results <= (results0 + done) + part
    ensures results0 <= results <= results0 + all
    ensures results == (results0 + done) + part ==> results == results0 + (done + part)
  {
    assert (results0 + done) + part == results0 + (done + part);
    assert all == (done + part) + all[|done + part|..];
  }
}
