/**
 Readers and writers of one B-tree, step by step. A writer holding the mutex
 allocates and edits unpublished nodes one write at a time and then stores a new
 root. Readers load the root once and then read one node per step, with any
 writer steps in between. Every result equals what the map held at the load.
 A reader's `snap`, `loadedAt`, `node` and `h` are history: no step reads them.
 */
module SnapshotReads {
  import opened OrderedEntries
  import opened TreeModel
  import opened TreeIndex
  import opened BTreeScan

  type Ref = nat

  datatype Cell<K, V> = Cell(entries: seq<(K, V)>, children: seq<Ref>)

  /** Where a scan stands in one node: about to enter it, about to walk child i, or back from child i. */
  datatype Place = Enter | Loop(i: nat) | Return(i: nat)

  datatype Frame<K, V> = Frame(at: Ref, place: Place, h: nat, node: Tree<K, V>)

  datatype Reader<K, V> =
    | Idle
    | Finding(key: K, at: Ref, h: nat, node: Tree<K, V>, snap: Index<K, V>, loadedAt: nat)
    | Found(key: K, result: Option<V>, snap: Index<K, V>, loadedAt: nat)
    | Scanning(start: K, end: K, stack: seq<Frame<K, V>>, results: seq<(K, V)>, snap: Index<K, V>, loadedAt: nat)
    | Scanned(start: K, end: K, results: seq<(K, V)>, complete: bool, snap: Index<K, V>, loadedAt: nat)

  /** `frozen` holds every node reachable from a root stored so far; `index` is the tree behind the current root. */
  datatype State<K, V> = State(
    heap: map<Ref, Cell<K, V>>,
    frozen: set<Ref>,
    root: Option<Ref>,
    index: Index<K, V>,
    writer: Option<Op<K, V>>,
    readers: map<nat, Reader<K, V>>,
    clock: nat)

  datatype Action<K, V> =
    | Lock(op: Op<K, V>)
    | Write(r: Ref, cell: Cell<K, V>)
    | Store(newRoot: Option<Ref>, more: set<Ref>)
    | Unlock
    | StartFind(id: nat, key: K)
    | FindStep(id: nat)
    | StartScan(id: nat, start: K, end: K)
    | ScanStep(id: nat)
    | Cancel(id: nat)
    | Reset(id: nat)

  /** The node at `r` is the root of the tree value `n`, all of it frozen. */
  ghost predicate Denotes<K, V>(heap: map<Ref, Cell<K, V>>, frozen: set<Ref>, r: Ref, n: Tree<K, V>)
    decreases n
  {
    && r in frozen && r in heap
    && heap[r].entries == n.entries
    && |heap[r].children| == |n.children|
    && forall i :: 0 <= i < |n.children| ==> Denotes(heap, frozen, heap[r].children[i], n.children[i])
  }

  ghost predicate RootDenotes<K, V>(heap: map<Ref, Cell<K, V>>, frozen: set<Ref>, root: Option<Ref>, x: Index<K, V>) {
    match root
    case None => x.Empty?
    case Some(r) => x.Rooted? && Denotes(heap, frozen, r, x.node)
  }

  ghost predicate Init<K, V>(s: State<K, V>) {
    && s.root == None && s.index == Empty && s.frozen == {} && s.writer == None && s.clock == 0
    && forall id :: id in s.readers ==> s.readers[id].Idle?
  }

  /**
   The writer's steps. It writes only nodes that are not frozen, and stores a
   root that denotes the operation's result. `WriterSteps` proves that every call
   of the index is such steps, and that a store can always be reached.
   */
  ghost predicate WriterStep<K(!new), V>(lt: (K, K) -> bool, t: nat, s: State<K, V>, a: Action<K, V>, s': State<K, V>) {
    match a
    case Lock(op) => s.writer == None && s' == s.(writer := Some(op), clock := s.clock + 1)
    case Write(r, cell) =>
      s.writer != None && r !in s.frozen && s' == s.(heap := s.heap[r := cell], clock := s.clock + 1)
    case Store(newRoot, more) =>
      && s.writer != None && Good(lt, t, s.index)
      && var y := AppliedTo(lt, t, s.index, s.writer.value);
        && RootDenotes(s.heap, s.frozen + more, newRoot, y)
        && s' == s.(root := newRoot, index := y, frozen := s.frozen + more, writer := None, clock := s.clock + 1)
    case Unlock => s.writer != None && s' == s.(writer := None, clock := s.clock + 1)
    case _ => false
  }

  ghost predicate ReaderStep<K(!new), V>(lt: (K, K) -> bool, s: State<K, V>, a: Action<K, V>, s': State<K, V>) {
    match a
    case StartFind(id, key) =>
      && id in s.readers && s.readers[id].Idle?
      && s' == Set(s, id, match s.root
        case None => Found(key, None, s.index, s.clock)
        case Some(r) => Finding(key, r, RootTree(s.index).0, RootTree(s.index).1, s.index, s.clock))
    case FindStep(id) =>
      && id in s.readers && s.readers[id].Finding?
      && s.readers[id].at in s.heap
      && s' == Set(s, id, Advance(lt, s.heap[s.readers[id].at], s.readers[id]))
    case StartScan(id, start, end) =>
      && id in s.readers && s.readers[id].Idle?
      && s' == Set(s, id, match s.root
        case None => Scanned(start, end, [], true, s.index, s.clock)
        case Some(r) =>
          Scanning(start, end, [Frame(r, Enter, RootTree(s.index).0, RootTree(s.index).1)], [], s.index, s.clock))
    case ScanStep(id) =>
      && id in s.readers && s.readers[id].Scanning?
      && (s.readers[id].stack != [] ==> s.readers[id].stack[0].at in s.heap)
      && s' == Set(s, id,
        if s.readers[id].stack == [] then Finish(s.readers[id], true)
        else Walked(lt, s.heap[s.readers[id].stack[0].at], s.readers[id]))
    case Cancel(id) =>
      && id in s.readers && s.readers[id].Scanning?
      && s.readers[id].stack != [] && s.readers[id].stack[0].place.Enter?
      && s' == Set(s, id, Finish(s.readers[id], false))
    case Reset(id) => id in s.readers && s' == Set(s, id, Idle)
    case _ => false
  }

  function Set<K, V>(s: State<K, V>, id: nat, r: Reader<K, V>): State<K, V> {
    s.(readers := s.readers[id := r], clock := s.clock + 1)
  }

  /** History of the tree value behind a root or a child that is being read. */
  function RootTree<K, V>(x: Index<K, V>): (nat, Tree<K, V>) {
    match x
    case Rooted(h, n) => (h, n)
    case Empty => (0, Node([], []))
  }

  function ChildTree<K, V>(h: nat, n: Tree<K, V>, i: nat): (nat, Tree<K, V>) {
    (if h > 0 then h - 1 else 0, if i < |n.children| then n.children[i] else n)
  }

  /** One node of a lookup. */
  function Advance<K(==), V>(lt: (K, K) -> bool, c: Cell<K, V>, r: Reader<K, V>): Reader<K, V>
    requires r.Finding?
  {
    var i := Rank(lt, c.entries, r.key);
    if Hit(c.entries, i, r.key) then Found(r.key, Some(c.entries[i].1), r.snap, r.loadedAt)
    else if i < |c.children| then
      r.(at := c.children[i], h := ChildTree(r.h, r.node, i).0, node := ChildTree(r.h, r.node, i).1)
    else Found(r.key, None, r.snap, r.loadedAt)
  }

  function Finish<K, V>(r: Reader<K, V>, complete: bool): Reader<K, V>
    requires r.Scanning?
  {
    Scanned(r.start, r.end, r.results, complete, r.snap, r.loadedAt)
  }

  /** One step of a scan in the node on top of the stack. */
  function Walked<K(==), V>(lt: (K, K) -> bool, c: Cell<K, V>, r: Reader<K, V>): Reader<K, V>
    requires r.Scanning? && r.stack != []
  {
    var f, rest := r.stack[0], r.stack[1..];
    match f.place
    case Enter =>
      if c.children == [] then r.(stack := rest, results := r.results + InRange(lt, r.start, r.end, c.entries))
      else
        var i := if r.start == r.end then 0 else Rank(lt, c.entries, r.start);
        r.(stack := [f.(place := Loop(i))] + rest)
    case Loop(i) =>
      if i < |c.children| then
        var (h, n) := ChildTree(f.h, f.node, i);
        r.(stack := [Frame(c.children[i], Enter, h, n), f.(place := Return(i))] + rest)
      else r.(stack := rest)
    case Return(i) =>
      if i >= |c.entries| || (r.start != r.end && lt(r.end, c.entries[i].0)) then r.(stack := rest)
      else
        r.(stack := [f.(place := Loop(i + 1))] + rest,
           results :=
             if r.start == r.end || !lt(c.entries[i].0, r.start) then r.results + [c.entries[i]] else r.results)
  }

  // ---------- invariant ----------

  /** What a frame still has to list. */
  ghost function Pending<K, V>(f: Frame<K, V>): seq<(K, V)>
    requires FrameShape(f)
  {
    match f.place
    case Enter => Flat(f.node)
    case Loop(i) => Flat(f.node.children[i]) + Right(f.node, i)
    case Return(i) => Right(f.node, i)
  }

  ghost predicate FrameShape<K, V>(f: Frame<K, V>) {
    f.place.Enter? || (f.h > 0 && |f.node.children| == |f.node.entries| + 1 && f.place.i <= |f.node.entries|)
  }

  ghost predicate FrameOk<K(!new), V>(lt: (K, K) -> bool, t: nat, heap: map<Ref, Cell<K, V>>, frozen: set<Ref>,
                                      f: Frame<K, V>) {
    && Denotes(heap, frozen, f.at, f.node)
    && Balanced(t, f.h, f.node) && Sorted(lt, Flat(f.node))
    && FrameShape(f)
  }

  /** The in-range part of everything the stack still has to list, top frame first. */
  ghost function Remaining<K(!new), V>(lt: (K, K) -> bool, start: K, end: K, stack: seq<Frame<K, V>>): seq<(K, V)>
    requires forall i :: 0 <= i < |stack| ==> FrameShape(stack[i])
  {
    if stack == [] then []
    else InRange(lt, start, end, Pending(stack[0])) + Remaining(lt, start, end, stack[1..])
  }

  ghost predicate ReaderOk<K(!new), V>(lt: (K, K) -> bool, t: nat, heap: map<Ref, Cell<K, V>>, frozen: set<Ref>,
                                       r: Reader<K, V>) {
    match r
    case Idle => true
    case Finding(key, at, h, node, snap, _) =>
      && Denotes(heap, frozen, at, node)
      && Balanced(t, h, node) && Sorted(lt, Flat(node))
      && Lookup(Flat(node), key) == Lookup(Listing(snap), key)
    case Found(key, result, snap, _) => result == Lookup(Listing(snap), key)
    case Scanning(start, end, stack, results, snap, _) =>
      && (forall i :: 0 <= i < |stack| ==> FrameOk(lt, t, heap, frozen, stack[i]))
      && results + Remaining(lt, start, end, stack) == InRange(lt, start, end, Listing(snap))
    case Scanned(start, end, results, complete, snap, _) =>
      && results <= InRange(lt, start, end, Listing(snap))
      && (complete ==> results == InRange(lt, start, end, Listing(snap)))
  }

  ghost predicate Inv<K(!new), V>(lt: (K, K) -> bool, t: nat, s: State<K, V>) {
    && Good(lt, t, s.index)
    && RootDenotes(s.heap, s.frozen, s.root, s.index)
    && forall id :: id in s.readers ==> ReaderOk(lt, t, s.heap, s.frozen, s.readers[id])
  }

  /** Nodes outside `frozen` may be written and `frozen` may grow: what was denoted stays denoted. */
  lemma {:induction false} DenotesKept<K, V>(heap: map<Ref, Cell<K, V>>, frozen: set<Ref>,
                                             heap': map<Ref, Cell<K, V>>, frozen': set<Ref>, r: Ref, n: Tree<K, V>)
    requires Denotes(heap, frozen, r, n) && frozen <= frozen'
    requires forall q :: q in frozen && q in heap ==> q in heap' && heap'[q] == heap[q]
    ensures Denotes(heap', frozen', r, n)
    decreases n
  {
    forall i | 0 <= i < |n.children|
      ensures Denotes(heap', frozen', heap'[r].children[i], n.children[i])
    {
      DenotesKept(heap, frozen, heap', frozen', heap[r].children[i], n.children[i]);
    }
  }

  lemma ReaderKept<K(!new), V>(lt: (K, K) -> bool, t: nat, heap: map<Ref, Cell<K, V>>, frozen: set<Ref>,
                               heap': map<Ref, Cell<K, V>>, frozen': set<Ref>, r: Reader<K, V>)
    requires ReaderOk(lt, t, heap, frozen, r) && frozen <= frozen'
    requires forall q :: q in frozen && q in heap ==> q in heap' && heap'[q] == heap[q]
    ensures ReaderOk(lt, t, heap', frozen', r)
  {
    hide Flat, Lookup, InRange, Sorted, Balanced;
    if r.Finding? {
      DenotesKept(heap, frozen, heap', frozen', r.at, r.node);
    } else if r.Scanning? {
      forall i | 0 <= i < |r.stack|
        ensures FrameOk(lt, t, heap', frozen', r.stack[i])
      {
        DenotesKept(heap, frozen, heap', frozen', r.stack[i].at, r.stack[i].node);
      }
    }
  }

  lemma WriterStepInv<K(!new), V>(lt: (K, K) -> bool, t: nat, s: State<K, V>, a: Action<K, V>, s': State<K, V>)
    requires Inv(lt, t, s) && WriterStep(lt, t, s, a, s')
    ensures Inv(lt, t, s') && s'.clock == s.clock + 1
  {
    hide Good, AppliedTo, ReaderOk;
    forall id | id in s'.readers
      ensures ReaderOk(lt, t, s'.heap, s'.frozen, s'.readers[id])
    {
      ReaderKept(lt, t, s.heap, s.frozen, s'.heap, s'.frozen, s.readers[id]);
    }
    match a {
      case Store(newRoot, more) => OpCorrect(lt, t, s.index, s.writer.value);
      case Write(r, cell) =>
        if s.root.Some? { DenotesKept(s.heap, s.frozen, s'.heap, s'.frozen, s.root.value, s.index.node); }
      case _ =>
    }
  }

  lemma AdvanceOk<K(!new), V>(lt: (K, K) -> bool, t: nat, heap: map<Ref, Cell<K, V>>, frozen: set<Ref>, r: Reader<K, V>)
    requires TotalOrder(lt) && r.Finding? && ReaderOk(lt, t, heap, frozen, r)
    ensures ReaderOk(lt, t, heap, frozen, Advance(lt, heap[r.at], r))
  {
    hide Flat, TotalOrder, Sorted, Contents;
    LookupStep(lt, r.h, r.node, r.key);
  }

  lemma FrameSorted<K(!new), V>(lt: (K, K) -> bool, t: nat, f: Frame<K, V>, i: nat)
    requires f.h > 0 && Balanced(t, f.h, f.node) && i <= |f.node.entries| && Sorted(lt, Flat(f.node))
    ensures Sorted(lt, Flat(f.node.children[i])) && Balanced(t, f.h - 1, f.node.children[i])
  {
    ChildSorted(lt, f.node, i);
  }

  /** Entering an internal node: what lies before the searched position is out of range. */
  lemma EnterPending<K(!new), V>(lt: (K, K) -> bool, start: K, end: K, n: Tree<K, V>)
    requires |n.children| == |n.entries| + 1 && TotalOrder(lt) && Sorted(lt, Flat(n))
    ensures var i := if start == end then 0 else Rank(lt, n.entries, start);
      InRange(lt, start, end, Flat(n)) == InRange(lt, start, end, Flat(n.children[i]) + Right(n, i))
  {
    var i := if start == end then 0 else Rank(lt, n.entries, start);
    var lo, hi := LowEnd(start, end), HighEnd(start, end);
    ScanStart(lt, start, end, n, i);
    FlatFocus(n, i);
    BetweenThree(lt, Left(n, i), Flat(n.children[i]), Right(n, i), lo, hi);
    BetweenConcat(lt, Flat(n.children[i]), Right(n, i), lo, hi);
  }

  /** Back from child i: stop when the separator is past the end, else take or skip it. */
  lemma ReturnPending<K(!new), V>(lt: (K, K) -> bool, start: K, end: K, n: Tree<K, V>, i: nat)
    requires |n.children| == |n.entries| + 1 && i < |n.entries| && TotalOrder(lt) && Sorted(lt, Flat(n))
    ensures var e, rest := n.entries[i], Flat(n.children[i + 1]) + Right(n, i + 1);
      InRange(lt, start, end, Right(n, i)) ==
        if start != end && lt(end, e.0) then []
        else if start == end || !lt(e.0, start) then [e] + InRange(lt, start, end, rest)
        else InRange(lt, start, end, rest)
  {
    var e, rest := n.entries[i], Flat(n.children[i + 1]) + Right(n, i + 1);
    var p := Left(n, i) + Flat(n.children[i]);
    FlatFocus(n, i);
    FlatEntry(n, i);
    assert Right(n, i) == [e] + rest == [] + [e] + rest;
    SortedParts(lt, p, [e] + rest, []);
    BetweenConcat(lt, [e], rest, LowEnd(start, end), HighEnd(start, end));
    if start != end && lt(end, e.0) {
      StopAt(lt, start, end, [], e, rest);
    }
  }

  lemma RemainingPush<K(!new), V>(lt: (K, K) -> bool, start: K, end: K, f: Frame<K, V>, rest: seq<Frame<K, V>>)
    requires FrameShape(f) && forall i :: 0 <= i < |rest| ==> FrameShape(rest[i])
    ensures forall i :: 0 <= i < |[f] + rest| ==> FrameShape(([f] + rest)[i])
    ensures Remaining(lt, start, end, [f] + rest)
         == InRange(lt, start, end, Pending(f)) + Remaining(lt, start, end, rest)
  {
    assert ([f] + rest)[1..] == rest;
  }

  /** `WalkedOk` for each place; `rem` is what the rest of the stack still lists. */
  lemma WalkedOk<K(!new), V>(lt: (K, K) -> bool, t: nat, heap: map<Ref, Cell<K, V>>, frozen: set<Ref>, r: Reader<K, V>)
    requires TotalOrder(lt) && r.Scanning? && r.stack != [] && ReaderOk(lt, t, heap, frozen, r)
    ensures r.stack[0].at in heap && ReaderOk(lt, t, heap, frozen, Walked(lt, heap[r.stack[0].at], r))
  {
    hide Flat, TotalOrder, Sorted, Contents, InRange, Left, Right, Remaining;
    var f, rest := r.stack[0], r.stack[1..];
    assert FrameOk(lt, t, heap, frozen, f);
    assert r.stack == [f] + rest;
    forall i | 0 <= i < |rest|
      ensures FrameOk(lt, t, heap, frozen, rest[i])
    {
      assert rest[i] == r.stack[i + 1];
    }
    RemainingPush(lt, r.start, r.end, f, rest);
    match f.place {
      case Enter => EnterOk(lt, t, heap, frozen, r, f, rest);
      case Loop(i) => LoopOk(lt, t, heap, frozen, r, f, rest);
      case Return(i) => ReturnOk(lt, t, heap, frozen, r, f, rest);
    }
  }

  ghost predicate Splits<K(!new), V>(lt: (K, K) -> bool, t: nat, heap: map<Ref, Cell<K, V>>, frozen: set<Ref>,
                                     r: Reader<K, V>, f: Frame<K, V>, rest: seq<Frame<K, V>>) {
    && r.Scanning? && r.stack == [f] + rest && r.stack[0] == f && r.stack[1..] == rest
    && FrameOk(lt, t, heap, frozen, f)
    && (forall i :: 0 <= i < |rest| ==> FrameOk(lt, t, heap, frozen, rest[i]))
    && r.results + (InRange(lt, r.start, r.end, Pending(f)) + Remaining(lt, r.start, r.end, rest))
       == InRange(lt, r.start, r.end, Listing(r.snap))
  }

  lemma EnterOk<K(!new), V>(lt: (K, K) -> bool, t: nat, heap: map<Ref, Cell<K, V>>, frozen: set<Ref>,
                            r: Reader<K, V>, f: Frame<K, V>, rest: seq<Frame<K, V>>)
    requires TotalOrder(lt) && Splits(lt, t, heap, frozen, r, f, rest) && f.place.Enter?
    ensures ReaderOk(lt, t, heap, frozen, Walked(lt, heap[f.at], r))
  {
    hide TotalOrder, Sorted, Contents, InRange, Left, Right, Remaining;
    var c := heap[f.at];
    if c.children == [] {
      assert Flat(f.node) == c.entries;
      assert r.results + (InRange(lt, r.start, r.end, c.entries) + Remaining(lt, r.start, r.end, rest))
          == (r.results + InRange(lt, r.start, r.end, c.entries)) + Remaining(lt, r.start, r.end, rest);
    } else {
      var i := if r.start == r.end then 0 else Rank(lt, c.entries, r.start);
      var g := f.(place := Loop(i));
      EnterPending(lt, r.start, r.end, f.node);
      RemainingPush(lt, r.start, r.end, g, rest);
    }
  }

  lemma LoopOk<K(!new), V>(lt: (K, K) -> bool, t: nat, heap: map<Ref, Cell<K, V>>, frozen: set<Ref>,
                           r: Reader<K, V>, f: Frame<K, V>, rest: seq<Frame<K, V>>)
    requires TotalOrder(lt) && Splits(lt, t, heap, frozen, r, f, rest) && f.place.Loop?
    ensures ReaderOk(lt, t, heap, frozen, Walked(lt, heap[f.at], r))
  {
    hide TotalOrder, Sorted, Contents, InRange, Left, Right, Remaining, Flat;
    var c, i := heap[f.at], f.place.i;
    var g, u := f.(place := Return(i)), Frame(c.children[i], Enter, f.h - 1, f.node.children[i]);
    FrameSorted(lt, t, f, i);
    BetweenConcat(lt, Flat(f.node.children[i]), Right(f.node, i), LowEnd(r.start, r.end), HighEnd(r.start, r.end));
    LoopPending(lt, r.start, r.end, f.node, i);
    RemainingPush(lt, r.start, r.end, g, rest);
    RemainingPush(lt, r.start, r.end, u, [g] + rest);
    assert [u, g] + rest == [u] + ([g] + rest);
    var a, b := InRange(lt, r.start, r.end, Pending(u)), InRange(lt, r.start, r.end, Pending(g));
    var d := Remaining(lt, r.start, r.end, rest);
    assert (a + b) + d == a + (b + d);
  }

  lemma LoopPending<K(!new), V>(lt: (K, K) -> bool, start: K, end: K, n: Tree<K, V>, i: nat)
    requires |n.children| == |n.entries| + 1 && i <= |n.entries|
    ensures InRange(lt, start, end, Flat(n.children[i]) + Right(n, i))
         == InRange(lt, start, end, Flat(n.children[i])) + InRange(lt, start, end, Right(n, i))
  {
    BetweenConcat(lt, Flat(n.children[i]), Right(n, i), LowEnd(start, end), HighEnd(start, end));
  }

  lemma ReturnOk<K(!new), V>(lt: (K, K) -> bool, t: nat, heap: map<Ref, Cell<K, V>>, frozen: set<Ref>,
                             r: Reader<K, V>, f: Frame<K, V>, rest: seq<Frame<K, V>>)
    requires TotalOrder(lt) && Splits(lt, t, heap, frozen, r, f, rest) && f.place.Return?
    ensures ReaderOk(lt, t, heap, frozen, Walked(lt, heap[f.at], r))
  {
    hide TotalOrder, Sorted, Contents, InRange, Left, Right, Remaining, Flat, Balanced, Denotes;
    DenotesEntries(heap, frozen, f.at, f.node);
    var c, i := heap[f.at], f.place.i;
    var d := Remaining(lt, r.start, r.end, rest);
    if i >= |c.entries| {
      LastPending(lt, r.start, r.end, f.node);
    } else {
      ReturnPending(lt, r.start, r.end, f.node, i);
      if r.start == r.end || !lt(r.end, c.entries[i].0) {
        var g := f.(place := Loop(i + 1));
        RemainingPush(lt, r.start, r.end, g, rest);
        TakeAssoc(r.results, c.entries[i], InRange(lt, r.start, r.end, Pending(g)), d);
      }
    }
  }

  lemma TakeAssoc<E>(results: seq<E>, e: E, a: seq<E>, d: seq<E>)
    ensures results + (([e] + a) + d) == (results + [e]) + (a + d)
  {
  }

  lemma DenotesEntries<K, V>(heap: map<Ref, Cell<K, V>>, frozen: set<Ref>, r: Ref, n: Tree<K, V>)
    requires Denotes(heap, frozen, r, n)
    ensures r in heap && heap[r].entries == n.entries && |heap[r].children| == |n.children|
  {
  }

  lemma LastPending<K(!new), V>(lt: (K, K) -> bool, start: K, end: K, n: Tree<K, V>)
    requires |n.children| == |n.entries| + 1
    ensures InRange(lt, start, end, Right(n, |n.entries|)) == []
  {
  }

  // ---------- steps and runs ----------

  lemma ReaderStepInv<K(!new), V>(lt: (K, K) -> bool, t: nat, s: State<K, V>, a: Action<K, V>, s': State<K, V>)
    requires Inv(lt, t, s) && ReaderStep(lt, s, a, s')
    ensures Inv(lt, t, s') && s'.clock == s.clock + 1
  {
    hide Walked, Advance, TotalOrder, Sorted, Flat, Contents, InRange, Balanced, Denotes;
    match a {
      case FindStep(id) => AdvanceOk(lt, t, s.heap, s.frozen, s.readers[id]);
      case ScanStep(id) =>
        if s.readers[id].stack != [] { WalkedOk(lt, t, s.heap, s.frozen, s.readers[id]); }
      case StartFind(id, key) => EmptyListing(lt, s.index, key, key);
      case StartScan(id, start, end) =>
        EmptyListing(lt, s.index, start, end);
        if s.root.Some? {
          OneFrame(lt, start, end, Frame(s.root.value, Enter, s.index.h, s.index.node));
        }
      case _ =>
    }
  }

  lemma OneFrame<K(!new), V>(lt: (K, K) -> bool, start: K, end: K, f: Frame<K, V>)
    requires f.place.Enter?
    ensures [] + Remaining(lt, start, end, [f]) == InRange(lt, start, end, Flat(f.node))
  {
  }

  lemma EmptyListing<K(!new), V>(lt: (K, K) -> bool, x: Index<K, V>, start: K, end: K)
    ensures x.Empty? ==> InRange(lt, start, end, Listing(x)) == [] && Lookup(Listing(x), start) == None
  {
  }

  ghost predicate Step<K(!new), V>(lt: (K, K) -> bool, t: nat, s: State<K, V>, a: Action<K, V>, s': State<K, V>) {
    WriterStep(lt, t, s, a, s') || ReaderStep(lt, s, a, s')
  }

  ghost predicate IsRun<K(!new), V>(lt: (K, K) -> bool, t: nat, run: seq<State<K, V>>, acts: seq<Action<K, V>>) {
    && TotalOrder(lt) && t >= 2
    && |run| == |acts| + 1 && Init(run[0])
    && forall j :: 0 <= j < |acts| ==> Step(lt, t, run[j], acts[j], run[j + 1])
  }

  datatype Request<+K> = Nothing | OneKey(key: K) | Range(start: K, end: K)

  /** The request that the action hands to the reader. */
  function Asks<K, V>(a: Action<K, V>, id: nat): Request<K> {
    match a
    case StartFind(i, key) => if i == id then OneKey(key) else Nothing
    case StartScan(i, start, end) => if i == id then Range(start, end) else Nothing
    case _ => Nothing
  }

  /** The request that the reader works on or has answered. */
  function Serving<K, V>(r: Reader<K, V>): Request<K> {
    match r
    case Idle => Nothing
    case Finding(key, _, _, _, _, _) => OneKey(key)
    case Found(key, _, _, _) => OneKey(key)
    case Scanning(start, end, _, _, _, _) => Range(start, end)
    case Scanned(start, end, _, _, _, _) => Range(start, end)
  }

  predicate Begins<K, V>(a: Action<K, V>, id: nat) {
    !Asks(a, id).Nothing?
  }

  /** A scan is incomplete exactly if it was cancelled. */
  ghost predicate Complete<K, V>(r: Reader<K, V>, cancelled: bool) {
    match r
    case Scanning(_, _, _, _, _, _) => !cancelled
    case Scanned(_, _, _, complete, _, _) => complete == !cancelled
    case _ => true
  }

  ghost predicate CancelledIn<K, V>(acts: seq<Action<K, V>>, id: nat, from: int, to: int) {
    exists k :: from < k < to && 0 <= k < |acts| && acts[k] == Cancel(id)
  }

  /** The latest request handed to the reader is the one it serves, and its history names the index at that instant. */
  ghost predicate Loaded<K(!new), V>(run: seq<State<K, V>>, acts: seq<Action<K, V>>, j: nat, id: nat, r: Reader<K, V>) {
    !r.Idle? ==>
      && r.loadedAt < j <= |acts| && |run| == |acts| + 1
      && run[r.loadedAt].index == r.snap
      && Asks(acts[r.loadedAt], id) == Serving(r)
      && (forall k :: r.loadedAt < k < j ==> !Begins(acts[k], id))
      && Complete(r, CancelledIn(acts, id, r.loadedAt, j))
  }

  lemma {:induction false} RunInv<K(!new), V>(lt: (K, K) -> bool, t: nat, run: seq<State<K, V>>,
                                              acts: seq<Action<K, V>>, j: nat)
    requires IsRun(lt, t, run, acts) && j < |run|
    ensures Inv(lt, t, run[j]) && run[j].clock == j
    ensures forall id :: id in run[j].readers ==> Loaded(run, acts, j, id, run[j].readers[id])
  {
    hide ReaderOk, Denotes, Good, Walked, Advance, AppliedTo;
    if j == 0 {
      InitInv(lt, t, run[0]);
    } else {
      hide Loaded, Kept;
      RunInv(lt, t, run, acts, j - 1);
      var s, a, s' := run[j - 1], acts[j - 1], run[j];
      assert Step(lt, t, s, a, s');
      if WriterStep(lt, t, s, a, s') { WriterStepInv(lt, t, s, a, s'); } else { ReaderStepInv(lt, t, s, a, s'); }
      forall id | id in s'.readers
        ensures Loaded(run, acts, j, id, s'.readers[id])
      {
        HistoryStep(lt, t, s, a, s', id);
        LoadedStep(run, acts, j - 1, id);
      }
    }
  }

  lemma InitInv<K(!new), V>(lt: (K, K) -> bool, t: nat, s: State<K, V>)
    requires Init(s) && TotalOrder(lt) && t >= 2
    ensures Inv(lt, t, s)
  {
  }

  /** How one action changes what a reader serves: not at all, or to the request of the action, or to nothing. */
  ghost predicate Kept<K, V>(a: Action<K, V>, id: nat, r: Reader<K, V>, r': Reader<K, V>, index: Index<K, V>,
                             clock: nat) {
    || r'.Idle?
    || (!r.Idle? && !Begins(a, id) && r'.snap == r.snap && r'.loadedAt == r.loadedAt
        && Serving(r') == Serving(r)
        && (forall c :: Complete(r, c) ==> Complete(r', c || a == Cancel(id))))
    || (r'.snap == index && r'.loadedAt == clock && Asks(a, id) == Serving(r') && Complete(r', false))
  }

  /** A step keeps a reader's history, or starts it at the current instant. */
  lemma HistoryStep<K(!new), V>(lt: (K, K) -> bool, t: nat, s: State<K, V>, a: Action<K, V>, s': State<K, V>, id: nat)
    requires Step(lt, t, s, a, s') && id in s'.readers
    ensures id in s.readers && Kept(a, id, s.readers[id], s'.readers[id], s.index, s.clock)
  {
    hide Denotes, Good, AppliedTo, RootDenotes, InRange, Rank;
  }

  lemma LoadedStep<K(!new), V>(run: seq<State<K, V>>, acts: seq<Action<K, V>>, j: nat, id: nat)
    requires |run| == |acts| + 1 && j < |acts| && id in run[j].readers && id in run[j + 1].readers
    requires run[j].clock == j && Loaded(run, acts, j, id, run[j].readers[id])
    requires Kept(acts[j], id, run[j].readers[id], run[j + 1].readers[id], run[j].index, j)
    ensures Loaded(run, acts, j + 1, id, run[j + 1].readers[id])
  {
    var r, r' := run[j].readers[id], run[j + 1].readers[id];
    if !r'.Idle? && !r.Idle? && r'.loadedAt == r.loadedAt {
      var at := r.loadedAt;
      assert CancelledIn(acts, id, at, j + 1) <==> CancelledIn(acts, id, at, j) || acts[j] == Cancel(id);
    }
    if !r'.Idle? && r'.loadedAt == j { assert !CancelledIn(acts, id, j, j + 1); }
  }

  /**
   In every run, whatever writers do in between, a finished lookup or scan
   answers its latest request, with what the map held at one instant of the run:
   the root load. A scan stops short only if it was cancelled.
   */
  lemma ReadsAreSnapshots<K(!new), V>(lt: (K, K) -> bool, t: nat, run: seq<State<K, V>>, acts: seq<Action<K, V>>,
                                      j: nat, id: nat)
    requires IsRun(lt, t, run, acts) && j < |run| && id in run[j].readers
    ensures match run[j].readers[id]
      case Found(key, result, _, at) =>
        && at < j && acts[at] == StartFind(id, key) && (forall k :: at < k < j ==> !Begins(acts[k], id))
        && result == Get(Contents(Listing(run[at].index)), key)
      case Scanned(start, end, results, complete, _, at) =>
        && at < j && acts[at] == StartScan(id, start, end) && (forall k :: at < k < j ==> !Begins(acts[k], id))
        && results <= InRange(lt, start, end, Listing(run[at].index))
        && (complete ==> results == InRange(lt, start, end, Listing(run[at].index)))
        && (complete <==> !CancelledIn(acts, id, at, j))
      case _ => true
  {
    RunInv(lt, t, run, acts, j);
  }

  /** No reader ever waits: its next step is enabled in every reachable state. */
  lemma ReadersNeverBlock<K(!new), V>(lt: (K, K) -> bool, t: nat, run: seq<State<K, V>>, acts: seq<Action<K, V>>,
                                      j: nat, id: nat)
    requires IsRun(lt, t, run, acts) && j < |run| && id in run[j].readers
    ensures run[j].readers[id].Finding? ==> exists s' :: ReaderStep(lt, run[j], FindStep(id), s')
    ensures run[j].readers[id].Scanning? ==> exists s' :: ReaderStep(lt, run[j], ScanStep(id), s')
  {
    RunInv(lt, t, run, acts, j);
    var s := run[j];
    var r := s.readers[id];
    if r.Finding? {
      assert ReaderStep(lt, s, FindStep(id), Set(s, id, Advance(lt, s.heap[r.at], r)));
    } else if r.Scanning? {
      if r.stack == [] {
        assert ReaderStep(lt, s, ScanStep(id), Set(s, id, Finish(r, true)));
      } else {
        assert FrameOk(lt, t, s.heap, s.frozen, r.stack[0]);
        assert ReaderStep(lt, s, ScanStep(id), Set(s, id, Walked(lt, s.heap[r.stack[0].at], r)));
      }
    }
  }

  /** The writers, taken alone, refine one map updated atomically at each root store. */
  lemma WritersRefineMap<K(!new), V>(lt: (K, K) -> bool, t: nat, s: State<K, V>, a: Action<K, V>, s': State<K, V>)
    requires Inv(lt, t, s) && Step(lt, t, s, a, s')
    ensures var m, m' := Contents(Listing(s.index)), Contents(Listing(s'.index));
      if a.Store? then s.writer.Some? && m' == MapAfter(m, s.writer.value)
      else m' == m
  {
    if a.Store? {
      OpCorrect(lt, t, s.index, s.writer.value);
    }
  }

  ghost predicate Unlocks<K, V>(a: Action<K, V>) {
    a.Store? || a.Unlock?
  }

  /** The writer at work does the operation with which it took the lock last, and no other holds the lock. */
  lemma {:induction false} LockedOp<K(!new), V>(lt: (K, K) -> bool, t: nat, run: seq<State<K, V>>,
                                                acts: seq<Action<K, V>>, j: nat) returns (i: nat)
    requires IsRun(lt, t, run, acts) && j < |run|
    ensures run[j].writer.Some? ==>
      && i < j && acts[i] == Lock(run[j].writer.value)
      && forall k :: i < k < j ==> !acts[k].Lock? && !Unlocks(acts[k])
  {
    hide Denotes, Good, AppliedTo, RootDenotes, Advance, Walked;
    i := 0;
    if j > 0 {
      i := LockedOp(lt, t, run, acts, j - 1);
      assert Step(lt, t, run[j - 1], acts[j - 1], run[j]);
      if acts[j - 1].Lock? { i := j - 1; }
    }
  }

  /** Until it stores or unlocks, the writer that took the lock keeps it: no other takes it. */
  lemma {:induction false} LockHeld<K(!new), V>(lt: (K, K) -> bool, t: nat, run: seq<State<K, V>>,
                                                acts: seq<Action<K, V>>, i: nat, j: nat)
    requires IsRun(lt, t, run, acts) && i < j < |run| && acts[i].Lock?
    requires forall k :: i < k < j ==> !Unlocks(acts[k])
    ensures run[j].writer == Some(acts[i].op) && forall k :: i < k < j ==> !acts[k].Lock?
    decreases j
  {
    hide Denotes, Good, AppliedTo, RootDenotes, Advance, Walked;
    if i < j - 1 { LockHeld(lt, t, run, acts, i, j - 1); }
    assert Step(lt, t, run[j - 1], acts[j - 1], run[j]);
  }

  /** Only a writer that holds the lock writes, stores or unlocks. */
  lemma WritesAreLocked<K(!new), V>(lt: (K, K) -> bool, t: nat, run: seq<State<K, V>>, acts: seq<Action<K, V>>, j: nat)
    returns (i: nat)
    requires IsRun(lt, t, run, acts) && j < |acts| && (acts[j].Write? || Unlocks(acts[j]))
    ensures i < j && acts[i].Lock? && forall k :: i < k < j ==> !Unlocks(acts[k])
  {
    hide Denotes, Good, AppliedTo, RootDenotes, Advance, Walked;
    i := LockedOp(lt, t, run, acts, j);
    assert Step(lt, t, run[j], acts[j], run[j + 1]);
  }

  /**
   Over whole runs: a root store changes the map by the operation that was locked, every other
   step leaves the map.
   */
  lemma StoresApplyLocked<K(!new), V>(lt: (K, K) -> bool, t: nat, run: seq<State<K, V>>, acts: seq<Action<K, V>>,
                                      j: nat)
    returns (i: nat)
    requires IsRun(lt, t, run, acts) && j < |acts|
    ensures var m, m' := Contents(Listing(run[j].index)), Contents(Listing(run[j + 1].index));
      if acts[j].Store? then
        && i < j && acts[i].Lock? && m' == MapAfter(m, acts[i].op)
        && forall k :: i < k < j ==> !acts[k].Lock? && !Unlocks(acts[k])
      else m' == m
  {
    hide Denotes, Good, AppliedTo, RootDenotes, Advance, Walked, ReaderOk;
    RunInv(lt, t, run, acts, j);
    i := LockedOp(lt, t, run, acts, j);
    assert Step(lt, t, run[j], acts[j], run[j + 1]);
    WritersRefineMap(lt, t, run[j], acts[j], run[j + 1]);
  }
}
