/**
 A reader finishes by its own steps alone, whatever writers do: a lookup needs at
 most one step for each level of the tree whose root it loaded, a scan a number
 of steps fixed by that tree.
 */
module ReaderProgress {
  import opened OrderedEntries
  import opened SnapshotReads
  import opened TreeIndex
  import opened TreeModel

  // ---------- work left ----------

  /** Steps of a scan that enters the node. */
  ghost function NodeWork<K, V>(n: Tree<K, V>): nat
    decreases n, 1, 0
  {
    1 + if |n.children| == |n.entries| + 1 then LoopWork(n, 0) else 0
  }

  /** Steps of a scan that is about to walk child `i`. */
  ghost function LoopWork<K, V>(n: Tree<K, V>, i: nat): nat
    requires |n.children| == |n.entries| + 1 && i <= |n.entries|
    decreases n, 0, 2 * (|n.entries| - i) + 1
  {
    1 + NodeWork(n.children[i]) + ReturnWork(n, i)
  }

  /** Steps of a scan that is back from child `i`. */
  ghost function ReturnWork<K, V>(n: Tree<K, V>, i: nat): nat
    requires |n.children| == |n.entries| + 1 && i <= |n.entries|
    decreases n, 0, 2 * (|n.entries| - i)
  {
    1 + if i < |n.entries| then LoopWork(n, i + 1) else 0
  }

  /** Starting the loop further right is less work. */
  lemma {:induction false} LaterLoop<K, V>(n: Tree<K, V>, i: nat)
    requires |n.children| == |n.entries| + 1 && i <= |n.entries|
    ensures LoopWork(n, i) <= LoopWork(n, 0)
    decreases i
  {
    if i > 0 {
      LaterLoop(n, i - 1);
    }
  }

  ghost function FrameWork<K, V>(f: Frame<K, V>): nat
    requires FrameShape(f)
  {
    match f.place
    case Enter => NodeWork(f.node)
    case Loop(i) => LoopWork(f.node, i)
    case Return(i) => ReturnWork(f.node, i)
  }

  ghost function StackWork<K, V>(stack: seq<Frame<K, V>>): nat
    requires forall i :: 0 <= i < |stack| ==> FrameShape(stack[i])
  {
    if stack == [] then 0 else FrameWork(stack[0]) + StackWork(stack[1..])
  }

  ghost predicate Shaped<K, V>(r: Reader<K, V>) {
    r.Scanning? ==> forall i :: 0 <= i < |r.stack| ==> FrameShape(r.stack[i])
  }

  ghost function ReaderWork<K, V>(r: Reader<K, V>): nat
    requires Shaped(r)
  {
    match r
    case Finding(_, _, h, _, _, _) => h + 1
    case Scanning(_, _, stack, _, _, _) => StackWork(stack) + 1
    case _ => 0
  }

  /** The work of a request at the instant of its root load. */
  ghost function RequestWork<K, V>(x: Index<K, V>, q: Request<K>): nat {
    match x
    case Empty => 0
    case Rooted(h, n) =>
      match q
      case Nothing => 0
      case OneKey(_) => h + 1
      case Range(_, _) => NodeWork(n) + 1
  }

  // ---------- one step ----------

  /** The reader's own steps. */
  predicate Own<K, V>(a: Action<K, V>, id: nat) {
    a == FindStep(id) || a == ScanStep(id) || a == Cancel(id)
  }

  lemma AdvanceWork<K(!new), V>(lt: (K, K) -> bool, t: nat, heap: map<Ref, Cell<K, V>>, frozen: set<Ref>,
                                r: Reader<K, V>)
    requires r.Finding? && ReaderOk(lt, t, heap, frozen, r)
    ensures r.at in heap && Shaped(Advance(lt, heap[r.at], r))
    ensures ReaderWork(Advance(lt, heap[r.at], r)) < ReaderWork(r)
  {
    hide Flat, Lookup, Sorted, Rank;
  }

  lemma WalkedWork<K(!new), V>(lt: (K, K) -> bool, t: nat, heap: map<Ref, Cell<K, V>>, frozen: set<Ref>,
                               r: Reader<K, V>)
    requires r.Scanning? && r.stack != [] && ReaderOk(lt, t, heap, frozen, r)
    ensures r.stack[0].at in heap && Shaped(r) && Shaped(Walked(lt, heap[r.stack[0].at], r))
    ensures ReaderWork(Walked(lt, heap[r.stack[0].at], r)) < ReaderWork(r)
  {
    hide Flat, Sorted, Rank, StackWork;
    var f, rest := r.stack[0], r.stack[1..];
    var c, r' := heap[f.at], Walked(lt, heap[f.at], r);
    assert FrameOk(lt, t, heap, frozen, f);
    assert forall i :: 0 <= i < |rest| ==> rest[i] == r.stack[i + 1] && FrameOk(lt, t, heap, frozen, rest[i]);
    assert r.stack == [f] + rest;
    Push(f, rest);
    match f.place {
      case Enter => if c.children != [] { EnterWork(lt, c, r, f, rest); }
      case Loop(i) => LoopWorkStep(lt, c, r, f, rest);
      case Return(i) => if i < |c.entries| { Push(f.(place := Loop(i + 1)), rest); }
    }
  }

  ghost predicate Top<K, V>(c: Cell<K, V>, r: Reader<K, V>, f: Frame<K, V>, rest: seq<Frame<K, V>>) {
    && r.Scanning? && r.stack != [] && r.stack[0] == f && r.stack[1..] == rest && FrameShape(f)
    && (forall i :: 0 <= i < |rest| ==> FrameShape(rest[i]))
    && c.entries == f.node.entries && |c.children| == |f.node.children|
    && (if f.h > 0 then |f.node.children| == |f.node.entries| + 1 else f.node.children == [])
  }

  lemma EnterWork<K(!new), V>(lt: (K, K) -> bool, c: Cell<K, V>, r: Reader<K, V>, f: Frame<K, V>,
                              rest: seq<Frame<K, V>>)
    requires Top(c, r, f, rest) && f.place.Enter? && c.children != []
    ensures var r' := Walked(lt, c, r); Shaped(r') && StackWork(r'.stack) < FrameWork(f) + StackWork(rest)
  {
    hide Rank, StackWork;
    var i := if r.start == r.end then 0 else Rank(lt, c.entries, r.start);
    LaterLoop(f.node, i);
    Push(f.(place := Loop(i)), rest);
  }

  lemma LoopWorkStep<K(!new), V>(lt: (K, K) -> bool, c: Cell<K, V>, r: Reader<K, V>, f: Frame<K, V>,
                                 rest: seq<Frame<K, V>>)
    requires Top(c, r, f, rest) && f.place.Loop?
    ensures var r' := Walked(lt, c, r); Shaped(r') && StackWork(r'.stack) < FrameWork(f) + StackWork(rest)
  {
    hide StackWork;
    var i := f.place.i;
    var (h, n) := ChildTree(f.h, f.node, i);
    var child, back := Frame(c.children[i], Enter, h, n), f.(place := Return(i));
    Push(back, rest);
    Push(child, [back] + rest);
    assert [child] + ([back] + rest) == [child, back] + rest;
  }

  lemma Push<K, V>(f: Frame<K, V>, rest: seq<Frame<K, V>>)
    requires FrameShape(f) && forall i :: 0 <= i < |rest| ==> FrameShape(rest[i])
    ensures forall i :: 0 <= i < |[f] + rest| ==> FrameShape(([f] + rest)[i])
    ensures StackWork([f] + rest) == FrameWork(f) + StackWork(rest)
  {
    assert ([f] + rest)[1..] == rest;
  }

  /** A reader's own step lowers its work, a request sets it, other steps leave the reader alone. */
  lemma StepWork<K(!new), V>(lt: (K, K) -> bool, t: nat, s: State<K, V>, a: Action<K, V>, s': State<K, V>, id: nat)
    requires Inv(lt, t, s) && Step(lt, t, s, a, s') && id in s.readers
    ensures id in s'.readers && Shaped(s.readers[id]) && Shaped(s'.readers[id])
    ensures var r, r' := s.readers[id], s'.readers[id];
      if Own(a, id) then ReaderWork(r') < ReaderWork(r)
      else if Begins(a, id) then ReaderWork(r') <= RequestWork(s.index, Serving(r'))
      else if a == Reset(id) then r'.Idle?
      else r' == r
  {
    hide Good, Denotes, AppliedTo, Advance, Walked, StackWork, NodeWork;
    var r := s.readers[id];
    OkShaped(lt, t, s.heap, s.frozen, r);
    if a == FindStep(id) {
      AdvanceWork(lt, t, s.heap, s.frozen, r);
    } else if a == ScanStep(id) {
      if r.stack != [] { WalkedWork(lt, t, s.heap, s.frozen, r); }
    } else if a.StartScan? && a.id == id {
      StartWork(lt, s, a, s');
    }
  }

  lemma OkShaped<K(!new), V>(lt: (K, K) -> bool, t: nat, heap: map<Ref, Cell<K, V>>, frozen: set<Ref>, r: Reader<K, V>)
    requires ReaderOk(lt, t, heap, frozen, r)
    ensures Shaped(r)
  {
    if r.Scanning? {
      assert forall i :: 0 <= i < |r.stack| ==> FrameOk(lt, t, heap, frozen, r.stack[i]);
    }
  }

  lemma StartWork<K(!new), V>(lt: (K, K) -> bool, s: State<K, V>, a: Action<K, V>, s': State<K, V>)
    requires a.StartScan? && ReaderStep(lt, s, a, s') && RootDenotes(s.heap, s.frozen, s.root, s.index)
    ensures a.id in s'.readers && Shaped(s'.readers[a.id])
    ensures ReaderWork(s'.readers[a.id]) <= RequestWork(s.index, Serving(s'.readers[a.id]))
  {
    hide NodeWork, Denotes;
    if s.root.Some? {
      var f := Frame(s.root.value, Enter, RootTree(s.index).0, RootTree(s.index).1);
      Push(f, []);
      assert [f] + [] == [f];
    }
  }

  // ---------- whole runs ----------

  /** How many of the actions from `from` up to `until` are steps of the reader. */
  ghost function OwnSteps<K, V>(acts: seq<Action<K, V>>, id: nat, from: nat, until: nat): nat
    requires until <= |acts|
    decreases until
  {
    if until <= from then 0 else OwnSteps(acts, id, from, until - 1) + if Own(acts[until - 1], id) then 1 else 0
  }

  /** The steps a reader has made for its request, and those it may still need, are bounded at the root load. */
  lemma {:induction false} OwnStepsBounded<K(!new), V>(lt: (K, K) -> bool, t: nat, run: seq<State<K, V>>,
                                                       acts: seq<Action<K, V>>, j: nat, id: nat)
    requires IsRun(lt, t, run, acts) && j < |run| && id in run[j].readers && !run[j].readers[id].Idle?
    ensures var r := run[j].readers[id];
      && Shaped(r) && r.loadedAt < j
      && OwnSteps(acts, id, r.loadedAt + 1, j) + ReaderWork(r) <= RequestWork(run[r.loadedAt].index, Serving(r))
    decreases j
  {
    hide Good, Denotes, RootDenotes, ReaderOk, AppliedTo;
    hide Advance, Walked, ReaderWork, RequestWork, WriterStep, ReaderStep;
    RunInv(lt, t, run, acts, j);
    var r := run[j].readers[id];
    if j > 0 {
      RunInv(lt, t, run, acts, j - 1);
      HistoryStep(lt, t, run[j - 1], acts[j - 1], run[j], id);
      StepWork(lt, t, run[j - 1], acts[j - 1], run[j], id);
      if Begins(acts[j - 1], id) {
        assert r.loadedAt == j - 1;
      } else {
        OwnStepsBounded(lt, t, run, acts, j - 1, id);
      }
    }
  }

  /** A lookup makes at most h + 1 steps, and a tree of that height holds at least 2 t^h - 1 keys. */
  lemma LookupSteps<K(!new), V>(lt: (K, K) -> bool, t: nat, run: seq<State<K, V>>, acts: seq<Action<K, V>>, j: nat,
                                id: nat)
    requires IsRun(lt, t, run, acts) && j < |run| && id in run[j].readers
    requires run[j].readers[id].Finding? || run[j].readers[id].Found?
    ensures var r := run[j].readers[id];
      && r.loadedAt < j
      && var x, n := run[r.loadedAt].index, OwnSteps(acts, id, r.loadedAt + 1, j);
         if x.Empty? then n == 0
         else n <= x.h + 1 && 2 * Pow(t, x.h) <= |Contents(Listing(x))| + 1
  {
    var r := run[j].readers[id];
    OwnStepsBounded(lt, t, run, acts, j, id);
    RunInv(lt, t, run, acts, r.loadedAt);
    var x := run[r.loadedAt].index;
    if x.Rooted? { OccupancyBound(lt, t, x); }
  }
}
