/**
 The writer of the step machine is the index: a call of the class takes the
 machine by writes to unpublished nodes and one root store, or by none, from a
 state that mirrors the heap to one that mirrors it again.
 */
module WriterSteps {
  import opened OrderedEntries
  import opened TreeModel
  import opened TreeIndex
  import opened BTreeNodes
  import opened BTreeIndex
  import opened SnapshotReads

  // ---------- what the machine's heap says about nodes ----------

  /** Names of the nodes published so far. */
  type Names<!K(!new), V> = map<Node<K, V>, Ref>

  ghost function NameOf<K(!new), V>(names: Names<K, V>, n: Node<K, V>): Ref {
    if n in names then names[n] else 0
  }

  /** The fields of a node as the machine stores them. */
  ghost function CellOf<K(!new), V>(names: Names<K, V>, n: Node<K, V>): Cell<K, V>
    requires |n.keys| == |n.vals|
    reads n
  {
    var ks, vs, cs := n.keys, n.vals, n.children;
    Cell(seq(|ks|, i requires 0 <= i < |ks| => (ks[i], vs[i])),
         seq(|cs|, i requires 0 <= i < |cs| => NameOf(names, cs[i])))
  }

  /** With a node its children are in the set. */
  ghost predicate Closed<K(!new), V>(nodes: set<Node<K, V>>)
    reads nodes
  {
    forall n :: n in nodes ==> |n.keys| == |n.vals| && forall i :: 0 <= i < |n.children| ==> n.children[i] in nodes
  }

  ghost predicate Distinct<K(!new), V>(names: Names<K, V>) {
    forall m, n :: m in names && n in names && names[m] == names[n] ==> m == n
  }

  /** The machine's heap has the fields of every named node. */
  ghost predicate Holds<K(!new), V>(heap: map<Ref, Cell<K, V>>, names: Names<K, V>)
    requires Closed(names.Keys)
    reads names.Keys
  {
    forall n :: n in names ==> names[n] in heap && heap[names[n]] == CellOf(names, n)
  }

  /** A valid node that is named denotes its tree. */
  lemma {:induction false} NodeDenotes<K(!new), V>(heap: map<Ref, Cell<K, V>>, frozen: set<Ref>, names: Names<K, V>,
                                                   n: Node<K, V>)
    requires n.Valid() && n in names && Closed(names.Keys) && names.Values <= frozen && Holds(heap, names)
    ensures Denotes(heap, frozen, names[n], n.tree)
    decreases n.repr
  {
    assert names[n] in names.Values;
    var c := CellOf(names, n);
    assert c.entries == n.tree.entries;
    forall i | 0 <= i < |n.tree.children|
      ensures Denotes(heap, frozen, c.children[i], n.tree.children[i])
    {
      NodeDenotes(heap, frozen, names, n.children[i]);
    }
  }

  ghost function RootName<K(!new), V>(b: BTree<K, V>, names: Names<K, V>): Option<Ref>
    reads b
  {
    if b.root == null then None else Some(NameOf(names, b.root))
  }

  /** The named root of a valid index denotes its value. */
  lemma RootDenotesValue<K(!new), V>(heap: map<Ref, Cell<K, V>>, frozen: set<Ref>, names: Names<K, V>, b: BTree<K, V>)
    requires b.Valid() && Closed(names.Keys) && Holds(heap, names) && names.Values <= frozen
    requires b.root != null ==> b.root in names
    ensures RootDenotes(heap, frozen, RootName(b, names), b.Value())
  {
    if b.root != null { NodeDenotes(heap, frozen, names, b.root); }
  }

  /** The frozen nodes are the named ones, and have their fields. */
  ghost predicate Published<K(!new), V>(s: State<K, V>, names: Names<K, V>)
    reads names.Keys
  {
    s.frozen == names.Values && Distinct(names) && Closed(names.Keys) && Holds(s.heap, names)
  }

  /** The state stands for the index: the same root, and the same fields in every published node. */
  ghost predicate Mirrors<K(!new), V>(b: BTree<K, V>, s: State<K, V>, names: Names<K, V>)
    reads b, b.root, names.Keys
  {
    && s.index == b.Value() && s.root == RootName(b, names)
    && Published(s, names) && (b.root != null ==> b.root in names)
  }

  /** An empty index is mirrored by the initial state. */
  lemma InitMirrors<K(!new), V>(b: BTree<K, V>, s: State<K, V>)
    requires Init(s) && b.Value() == Empty
    ensures Mirrors(b, s, map[])
  {
  }

  /** Readers change nothing that the index can see. */
  lemma ReadersKeepMirror<K(!new), V>(b: BTree<K, V>, s: State<K, V>, a: Action<K, V>, s': State<K, V>,
                                      names: Names<K, V>)
    requires Mirrors(b, s, names) && ReaderStep(b.lt, s, a, s')
    ensures Mirrors(b, s', names)
  {
  }

  /** The nodes below a valid node, itself included. */
  ghost function Reach<K(!new), V>(n: Node<K, V>): set<Node<K, V>>
    requires n.Valid()
    reads n, n.repr
    decreases n.repr
  {
    {n} + set i, m | 0 <= i < |n.children| && m in Reach(n.children[i]) :: m
  }

  lemma {:induction false} ReachClosed<K(!new), V>(n: Node<K, V>)
    requires n.Valid()
    ensures n in Reach(n) && Closed(Reach(n))
    decreases n.repr
  {
    forall i | 0 <= i < |n.children|
      ensures n.children[i] in Reach(n.children[i]) && Closed(Reach(n.children[i])) && Reach(n.children[i]) <= Reach(n)
    {
      ReachClosed(n.children[i]);
    }
  }

  // ---------- runs of writes ----------

  ghost predicate Writes<K(!new), V>(lt: (K, K) -> bool, t: nat, run: seq<State<K, V>>, acts: seq<Action<K, V>>) {
    && |run| == |acts| + 1
    && forall j :: 0 <= j < |acts| ==> acts[j].Write? && WriterStep(lt, t, run[j], acts[j], run[j + 1])
  }

  /** Cells outside the frozen nodes can be written one after the other. */
  lemma {:induction false} WriteCells<K(!new), V>(lt: (K, K) -> bool, t: nat, s: State<K, V>,
                                                  cells: map<Ref, Cell<K, V>>)
    returns (run: seq<State<K, V>>, acts: seq<Action<K, V>>)
    requires s.writer.Some? && cells.Keys !! s.frozen
    ensures Writes(lt, t, run, acts) && |run| == |acts| + 1 && run[0] == s
    ensures run[|acts|] == s.(heap := s.heap + cells, clock := s.clock + |cells|)
    decreases |cells|
  {
    hide WriterStep, Writes;
    if cells == map[] {
      assert s.heap + cells == s.heap;
      run, acts := NoWrites(lt, t, s);
      return;
    }
    var r :| r in cells;
    var rest := cells - {r};
    FewerCells(cells, r);
    run, acts := WriteCells(lt, t, s, rest);
    AddCell(s.heap, cells, r);
    run, acts := OneMore(lt, t, run, acts, r, cells[r]);
  }

  lemma NoWrites<K(!new), V>(lt: (K, K) -> bool, t: nat, s: State<K, V>)
    returns (run: seq<State<K, V>>, acts: seq<Action<K, V>>)
    ensures Writes(lt, t, run, acts) && run == [s] && acts == []
  {
    run, acts := [s], [];
  }

  lemma FewerCells<C>(cells: map<Ref, C>, r: Ref)
    requires r in cells
    ensures |cells| == |cells - {r}| + 1
  {
    var rest := cells - {r};
    assert cells.Keys == rest.Keys + {r};
    assert |cells.Keys| == |cells| && |rest.Keys| == |rest|;
  }

  lemma AddCell<C>(heap: map<Ref, C>, cells: map<Ref, C>, r: Ref)
    requires r in cells
    ensures (heap + (cells - {r}))[r := cells[r]] == heap + cells
  {
  }

  lemma OneMore<K(!new), V>(lt: (K, K) -> bool, t: nat, run: seq<State<K, V>>, acts: seq<Action<K, V>>, r: Ref,
                            cell: Cell<K, V>)
    returns (run': seq<State<K, V>>, acts': seq<Action<K, V>>)
    requires Writes(lt, t, run, acts) && run[|acts|].writer.Some? && r !in run[|acts|].frozen
    ensures Writes(lt, t, run', acts') && |run'| == |acts'| + 1 && run'[0] == run[0]
    ensures var last := run[|acts|];
      run'[|acts'|] == last.(heap := last.heap[r := cell], clock := last.clock + 1)
  {
    var last := run[|acts|];
    var next := last.(heap := last.heap[r := cell], clock := last.clock + 1);
    assert WriterStep(lt, t, last, Write(r, cell), next);
    hide WriterStep;
    run', acts' := run + [next], acts + [Write(r, cell)];
    forall j | 0 <= j < |acts'|
      ensures acts'[j].Write? && WriterStep(lt, t, run'[j], acts'[j], run'[j + 1])
    {
      if j < |acts| { assert run'[j] == run[j] && run'[j + 1] == run[j + 1] && acts'[j] == acts[j]; }
    }
  }

  // ---------- the guard of a root store can always be met ----------

  lemma {:induction false} Above(refs: set<Ref>) returns (b: nat)
    ensures forall r :: r in refs ==> r < b
    decreases |refs|
  {
    b := 0;
    if refs != {} {
      var r :| r in refs;
      var c := Above(refs - {r});
      assert forall x :: x in refs ==> x == r || x in refs - {r};
      b := if r < c then c else r + 1;
    }
  }

  /** Cells for a whole tree, all of them at or past `b`. */
  lemma {:induction false} Lay<K, V>(n: Tree<K, V>, b: nat) returns (cells: map<Ref, Cell<K, V>>, r: Ref, top: nat)
    ensures Denotes(cells, cells.Keys, r, n) && b <= top
    ensures forall x :: x in cells ==> b <= x < top
    decreases n, 1, 0
  {
    var refs;
    cells, refs, top := LayChildren(n, |n.children|, b);
    r := top;
    ghost var was := cells;
    cells, top := cells[r := Cell(n.entries, refs)], top + 1;
    forall i | 0 <= i < |n.children|
      ensures Denotes(cells, cells.Keys, refs[i], n.children[i])
    {
      DenotesKept(was, was.Keys, cells, cells.Keys, refs[i], n.children[i]);
    }
  }

  lemma {:induction false} LayChildren<K, V>(n: Tree<K, V>, j: nat, b: nat)
    returns (cells: map<Ref, Cell<K, V>>, refs: seq<Ref>, top: nat)
    requires j <= |n.children|
    ensures |refs| == j && b <= top
    ensures forall i :: 0 <= i < j ==> Denotes(cells, cells.Keys, refs[i], n.children[i])
    ensures forall x :: x in cells ==> b <= x < top
    decreases n, 0, j
  {
    if j == 0 {
      return map[], [], b;
    }
    var first, firstRefs, mid := LayChildren(n, j - 1, b);
    var cs, r;
    cs, r, top := Lay(n.children[j - 1], mid);
    cells, refs := first + cs, firstRefs + [r];
    DenotesKept(cs, cs.Keys, cells, cells.Keys, r, n.children[j - 1]);
    forall i | 0 <= i < j - 1
      ensures Denotes(cells, cells.Keys, refs[i], n.children[i])
    {
      DenotesKept(first, first.Keys, cells, cells.Keys, refs[i], n.children[i]);
    }
  }

  /** Whatever operation holds the lock, some writes lead to a state in which its root can be stored. */
  lemma StoreReachable<K(!new), V>(lt: (K, K) -> bool, t: nat, s: State<K, V>)
    returns (run: seq<State<K, V>>, acts: seq<Action<K, V>>, a: Action<K, V>, s': State<K, V>)
    requires Inv(lt, t, s) && s.writer.Some?
    ensures Writes(lt, t, run, acts) && run[0] == s
    ensures a.Store? && WriterStep(lt, t, run[|acts|], a, s')
  {
    hide Good, AppliedTo, Denotes, WriterStep, ReaderOk;
    var b := Above(s.frozen);
    var y := AppliedTo(lt, t, s.index, s.writer.value);
    var cells, newRoot := map[], None;
    if y.Rooted? {
      var laid, r, _ := Lay(y.node, b);
      cells, newRoot := laid, Some(r);
      DenotesKept(laid, laid.Keys, s.heap + laid, s.frozen + laid.Keys, r, y.node);
    }
    run, acts := WriteCells(lt, t, s, cells);
    a, s' := StoreStep(lt, t, s, run[|acts|], newRoot, cells.Keys);
  }

  /** After writes only, a root that denotes the operation's result can be stored. */
  lemma StoreStep<K(!new), V>(lt: (K, K) -> bool, t: nat, s: State<K, V>, last: State<K, V>, newRoot: Option<Ref>,
                              more: set<Ref>)
    returns (a: Action<K, V>, s': State<K, V>)
    requires s.writer.Some? && Good(lt, t, s.index) && last == s.(heap := last.heap, clock := last.clock)
    requires RootDenotes(last.heap, s.frozen + more, newRoot, AppliedTo(lt, t, s.index, s.writer.value))
    ensures a == Action.Store(newRoot, more) && WriterStep(lt, t, last, a, s')
    ensures s'.heap == last.heap && s'.frozen == s.frozen + more && s'.root == newRoot
    ensures s'.index == AppliedTo(lt, t, s.index, s.writer.value)
  {
    hide Good, AppliedTo, RootDenotes;
    a := Action.Store(newRoot, more);
    s' := last.(root := newRoot, index := AppliedTo(lt, t, s.index, s.writer.value), frozen := s.frozen + more,
                writer := None, clock := last.clock + 1);
  }

  // ---------- calls of the index ----------

  /** Names for `more` nodes as well, none of them a name already in use. */
  lemma {:induction false} Named<K(!new), V>(names: Names<K, V>, more: set<Node<K, V>>) returns (names': Names<K, V>)
    requires Distinct(names)
    ensures names'.Keys == names.Keys + more && Distinct(names')
    ensures forall n :: n in names ==> names'[n] == names[n]
    decreases more
  {
    hide Distinct;
    if more == {} {
      return names;
    }
    var n :| n in more;
    names' := Named(names, more - {n});
    if n !in names' {
      var b := Above(names'.Values);
      OneMoreName(names', n, b);
      names' := names'[n := b];
    }
  }

  lemma OneMoreName<K(!new), V>(names: Names<K, V>, n: Node<K, V>, b: Ref)
    requires Distinct(names) && forall r :: r in names.Values ==> r < b
    ensures Distinct(names[n := b])
  {
    forall x | x in names
      ensures names[x] < b
    {
      assert names[x] in names.Values;
    }
  }

  /** The cells of the nodes named last. */
  ghost function NewCells<K(!new), V>(names: Names<K, V>, names': Names<K, V>): map<Ref, Cell<K, V>>
    requires Distinct(names') && Closed(names'.Keys)
    reads names'.Keys
  {
    map n | n in names' && n !in names :: names'[n] := CellOf(names', n)
  }

  /** Old cells keep their contents under the longer naming, new ones are written. */
  lemma CellsHold<K(!new), V>(heap: map<Ref, Cell<K, V>>, names: Names<K, V>, names': Names<K, V>)
    requires Closed(names.Keys) && Holds(heap, names) && Closed(names'.Keys) && Distinct(names')
    requires forall n :: n in names ==> n in names' && names'[n] == names[n]
    ensures NewCells(names, names').Keys !! names.Values
    ensures Holds(heap + NewCells(names, names'), names')
  {
    var cells := NewCells(names, names');
    forall n | n in names'
      ensures var all := heap + cells; names'[n] in all && all[names'[n]] == CellOf(names', n)
    {
      if n in names {
        assert names'[n] !in cells;
        assert CellOf(names, n) == CellOf(names', n);
      } else {
        assert names'[n] in cells;
      }
    }
  }

  /** Names for all nodes of the index, whatever it is now. */
  lemma NamedWithRoot<K(!new), V>(b: BTree<K, V>, names: Names<K, V>) returns (names': Names<K, V>)
    requires b.Valid() && Distinct(names) && Closed(names.Keys)
    ensures Distinct(names') && Closed(names'.Keys) && names.Values <= names'.Values
    ensures forall n :: n in names ==> n in names' && names'[n] == names[n]
    ensures b.root != null ==> b.root in names'
  {
    hide Reach, Distinct;
    if b.root == null {
      return names;
    }
    ReachClosed(b.root);
    names' := Named(names, Reach(b.root));
    forall r | r in names.Values
      ensures r in names'.Values
    {
      var n :| n in names && names[n] == r;
      assert names'[n] == r;
    }
  }

  /**
   A call that left all published nodes alone and gave the index the value of the
   operation is some writes to unpublished nodes and one root store.
   */
  lemma CallIsRun<K(!new), V>(b: BTree<K, V>, op: Op<K, V>, s: State<K, V>, names: Names<K, V>)
    returns (run: seq<State<K, V>>, acts: seq<Action<K, V>>, a: Action<K, V>, s': State<K, V>, names': Names<K, V>)
    requires b.Valid() && Published(s, names) && s.writer == Some(op)
    requires Good(b.lt, b.t, s.index) && b.Value() == AppliedTo(b.lt, b.t, s.index, op)
    ensures Writes(b.lt, b.t, run, acts) && |run| == |acts| + 1 && run[0] == s
    ensures a.Store? && WriterStep(b.lt, b.t, run[|acts|], a, s')
    ensures Mirrors(b, s', names')
  {
    hide Good, AppliedTo, WriterStep, RootDenotes, Writes, Holds, Distinct, Closed, NewCells;
    names' := NamedWithRoot(b, names);
    CellsHold(s.heap, names, names');
    var cells := NewCells(names, names');
    run, acts := WriteCells(b.lt, b.t, s, cells);
    RootDenotesValue(s.heap + cells, names'.Values, names', b);
    assert s.frozen + names'.Values == names'.Values;
    a, s' := StoreStep(b.lt, b.t, s, run[|acts|], RootName(b, names'), names'.Values);
  }

  /** An upsert that its check allows: the writes and the store that the machine makes for it. */
  method InsertIsRun<K(==, !new), V>(b: BTree<K, V>, key: K, val: V, ghost s: State<K, V>, ghost names: Names<K, V>)
    returns (ghost run: seq<State<K, V>>, ghost acts: seq<Action<K, V>>, ghost a: Action<K, V>, ghost s': State<K, V>,
             ghost names': Names<K, V>)
    requires b.Valid() && Mirrors(b, s, names) && s.writer == Some(OpUpsert(key, val))
    modifies b
    ensures b.Valid() && Mirrors(b, s', names') && b.Map() == old(b.Map())[key := val]
    ensures Writes(b.lt, b.t, run, acts) && |run| == |acts| + 1 && run[0] == s
    ensures a.Store? && WriterStep(b.lt, b.t, run[|acts|], a, s')
  {
    hide Good, WriterStep, Writes, Holds, Distinct, Closed, Upserted;
    b.InsertLocked(key, val);
    run, acts, a, s', names' := CallIsRun(b, OpUpsert(key, val), s, names);
  }

  /** A removal: writes and a store, or just the unlocking when the key is absent. */
  method RemoveIsRun<K(==, !new), V>(b: BTree<K, V>, key: K, ghost s: State<K, V>, ghost names: Names<K, V>)
    returns (was: Option<V>, ghost run: seq<State<K, V>>, ghost acts: seq<Action<K, V>>, ghost a: Action<K, V>,
             ghost s': State<K, V>, ghost names': Names<K, V>)
    requires b.Valid() && Mirrors(b, s, names) && s.writer == Some(OpRemove(key))
    modifies b
    ensures b.Valid() && Mirrors(b, s', names') && b.Map() == old(b.Map()) - {key} && was == Get(old(b.Map()), key)
    ensures Writes(b.lt, b.t, run, acts) && |run| == |acts| + 1 && run[0] == s
    ensures WriterStep(b.lt, b.t, run[|acts|], a, s') && (if was == None then acts == [] && a == Unlock else a.Store?)
  {
    hide Good, Writes, Holds, Distinct, Closed, Removed;
    was := b.Remove(key);
    if was == None {
      run, acts := NoWrites(b.lt, b.t, s);
      a, s', names' := Unlock, s.(writer := None, clock := s.clock + 1), names;
    } else {
      run, acts, a, s', names' := CallIsRun(b, OpRemove(key), s, names);
    }
  }
}
