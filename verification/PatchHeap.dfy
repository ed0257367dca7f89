/**
 The patch applier on the heap. A decoded document is made of maps and of slices
 over backing arrays; edits change them in place, an append may write into spare
 capacity or move to a bigger array, and a changed slice header is written back
 through the parents. A document is `Sound` when no container is reachable by two
 paths; every edit keeps that and computes the value-level edit of `JsonPatch`.
 */
module PatchHeap {
  import opened OrderedEntries
  import opened Slices
  import opened JsonPatch

  /** An `any` holding a scalar (JSON null is one), a map or a slice header; `Nil` only fills spare cells. */
  datatype Val<S(!new)> =
    | Nil
    | Plain(s: S)
    | MapRef(c: Container<S>)
    | SliceRef(c: Container<S>, len: nat)

  /** A map object, or a backing array whose length is the capacity. */
  datatype Body<S(!new)> =
    | Members(m: map<string, Val<S>>)
    | Cells(cells: seq<Val<S>>)

  ghost function Foot<S(!new)>(v: Val<S>): set<Container<S>>
    reads if v.MapRef? || v.SliceRef? then {v.c} else {}
  {
    match v
    case MapRef(c) => c.repr
    case SliceRef(c, _) => c.repr
    case _ => {}
  }

  ghost function JsonOf<S(!new)>(v: Val<S>): Json<S>
    requires !v.Nil?
    reads if v.MapRef? || v.SliceRef? then {v.c} else {}
  {
    match v
    case Plain(s) => Scalar(s)
    case MapRef(c) => c.json
    case SliceRef(c, _) => c.json
  }

  /** The value is a tree of containers; a slice header is the current one of its backing array. */
  ghost predicate Sound<S(!new)>(v: Val<S>)
    reads if v.MapRef? || v.SliceRef? then {v.c} + v.c.repr else {}
    decreases Foot(v), 3
  {
    match v
    case Nil => false
    case Plain(_) => true
    case MapRef(c) => c.body.Members? && c.Valid()
    case SliceRef(c, n) => c.body.Cells? && c.len == n && c.Valid()
  }

  function Slot<S(!new)>(b: Body<S>, s: Step): Val<S> {
    match b
    case Members(m) => if s.Key? && s.name in m then m[s.name] else Nil
    case Cells(cs) => if s.At? && s.i < |cs| then cs[s.i] else Nil
  }

  function WithSlot<S(!new)>(b: Body<S>, s: Step, v: Val<S>): Body<S> {
    match b
    case Members(m) => if s.Key? then Members(m[s.name := v]) else b
    case Cells(cs) => if s.At? && s.i < |cs| then Cells(cs[s.i := v]) else b
  }

  /** The body has exactly the members or elements of `j`; cells from `len` on are spare. */
  ghost predicate Shaped<S(!new)>(b: Body<S>, len: nat, j: Json<S>) {
    match b
    case Members(m) => j.Object? && m.Keys == j.members.Keys
    case Cells(cs) => j.Array? && |j.items| == len <= |cs|
  }

  class Container<S(!new)> {
    var body: Body<S>
    ghost var len: nat
    ghost var json: Json<S>
    ghost var repr: set<Container<S>>

    /** A sound tree: the slots hold what `json` says and share no containers. */
    ghost predicate Valid()
      reads this, repr
      decreases repr, 2
    {
      && this in repr
      && Shaped(body, len, json)
      && (forall s :: Has(json, s) ==>
            var v := Slot(body, s);
            && (v.MapRef? || v.SliceRef? ==> v.c in repr && v.c != this)
            && this !in Foot(v) && Foot(v) <= repr
            && Sound(v) && JsonOf(v) == Child(json, s))
      && (forall s, s' :: Has(json, s) && Has(json, s') && s != s' ==> Foot(Slot(body, s)) !! Foot(Slot(body, s')))
    }

    ghost predicate SlotOk(v: Val<S>, j: Json<S>, r: set<Container<S>>)
      reads r
    {
      && (v.MapRef? || v.SliceRef? ==> v.c in r && v.c != this)
      && this !in Foot(v) && Foot(v) <= r
      && Sound(v) && JsonOf(v) == j
    }

    /** With these contents this container would be valid. */
    ghost predicate Fits(b: Body<S>, l: nat, j: Json<S>, r: set<Container<S>>)
      reads r
    {
      && this in r
      && Shaped(b, l, j)
      && (forall s :: Has(j, s) ==> SlotOk(Slot(b, s), Child(j, s), r))
      && (forall s, s' :: Has(j, s) && Has(j, s') && s != s' ==> Foot(Slot(b, s)) !! Foot(Slot(b, s')))
    }

    /** A new container that takes over the slots `was` could have. */
    constructor (b: Body<S>, ghost l: nat, ghost j: Json<S>, ghost was: Container<S>, ghost r: set<Container<S>>)
      requires was.Fits(b, l, j, r)
      ensures Valid() && body == b && len == l && json == j && repr == {this} + r && fresh(this)
    {
      body, len, json, repr := b, l, j, {this} + r;
    }

    /** A map without members, or a backing array whose cells are all spare. */
    constructor Empty(b: Body<S>)
      requires b.Members? ==> b.m == map[]
      ensures Valid() && body == b && len == 0 && repr == {this} && fresh(this)
      ensures json == if b.Members? then Object(map[]) else Array([])
    {
      body, len, repr := b, 0, {this};
      json := if b.Members? then Object(map[]) else Array([]);
    }

    method Assign(b: Body<S>, ghost l: nat, ghost j: Json<S>, ghost r: set<Container<S>>)
      requires Fits(b, l, j, r)
      modifies this
      ensures Valid() && body == b && len == l && json == j && repr == r
    {
      body, len, json, repr := b, l, j, r;
    }
  }

  lemma SoundInFoot<S(!new)>(v: Val<S>)
    requires Sound(v) && (v.MapRef? || v.SliceRef?)
    ensures v.c in Foot(v)
  {
  }

  /** What validity says about one slot, and about two. */
  lemma SlotFacts<S(!new)>(c: Container<S>, s: Step)
    requires c.Valid() && Has(c.json, s)
    ensures c.SlotOk(Slot(c.body, s), Child(c.json, s), c.repr)
    ensures var v := Slot(c.body, s); v.MapRef? || v.SliceRef? ==> v.c in Foot(v)
    ensures forall s' :: Has(c.json, s') && s' != s ==> Foot(Slot(c.body, s)) !! Foot(Slot(c.body, s'))
  {
    var v := Slot(c.body, s);
    if v.MapRef? || v.SliceRef? { SoundInFoot(v); }
  }

  /** New contents keep old slots, moved along `from`, and perhaps put `v` into one slot. */
  ghost predicate Rearranged<S(!new)>(c: Container<S>, b: Body<S>, j: Json<S>, put: Option<Step>, v: Val<S>,
                                      from: Step -> Step)
    reads c, if v.MapRef? || v.SliceRef? then {v.c} + v.c.repr else {}
  {
    && (put.Some? ==> Sound(v) && Foot(v) !! c.repr)
    && (forall s :: Has(j, s) ==>
          if Some(s) == put then Slot(b, s) == v && Child(j, s) == JsonOf(v)
          else Has(c.json, from(s)) && Slot(b, s) == Slot(c.body, from(s)) && Child(j, s) == Child(c.json, from(s)))
    && (forall s, s' :: Has(j, s) && Has(j, s') && Some(s) != put && Some(s') != put && s != s' ==> from(s) != from(s'))
  }

  lemma RearrangedSlot<S(!new)>(c: Container<S>, b: Body<S>, j: Json<S>, put: Option<Step>, v: Val<S>,
                                from: Step -> Step, s: Step)
    requires c.Valid() && Rearranged(c, b, j, put, v, from) && Has(j, s)
    ensures c.SlotOk(Slot(b, s), Child(j, s), c.repr + if put.Some? then Foot(v) else {})
    ensures Foot(Slot(b, s)) <= if Some(s) == put then Foot(v) else c.repr
  {
    if Some(s) == put {
      if v.MapRef? || v.SliceRef? { SoundInFoot(v); }
    } else {
      SlotFacts(c, from(s));
    }
  }

  lemma RearrangedFits<S(!new)>(c: Container<S>, b: Body<S>, l: nat, j: Json<S>, put: Option<Step>, v: Val<S>,
                                from: Step -> Step)
    requires c.Valid() && Shaped(b, l, j) && Rearranged(c, b, j, put, v, from)
    ensures c.Fits(b, l, j, c.repr + if put.Some? then Foot(v) else {})
  {
    var r := c.repr + if put.Some? then Foot(v) else {};
    forall s | Has(j, s)
      ensures c.SlotOk(Slot(b, s), Child(j, s), r)
    {
      RearrangedSlot(c, b, j, put, v, from, s);
    }
    forall s, s' | Has(j, s) && Has(j, s') && s != s'
      ensures Foot(Slot(b, s)) !! Foot(Slot(b, s'))
    {
      RearrangedSlot(c, b, j, put, v, from, s);
      RearrangedSlot(c, b, j, put, v, from, s');
      if Some(s) != put && Some(s') != put { SlotFacts(c, from(s)); }
    }
  }

  /** A slot's containers can be given up when the slot goes. */
  lemma ReleaseFits<S(!new)>(c: Container<S>, b: Body<S>, l: nat, j: Json<S>, gone: Step, from: Step -> Step)
    requires c.Valid() && Shaped(b, l, j) && Rearranged(c, b, j, None, Nil, from) && Has(c.json, gone)
    requires forall s :: Has(j, s) ==> from(s) != gone
    ensures c.Fits(b, l, j, c.repr - Foot(Slot(c.body, gone)))
  {
    RearrangedFits(c, b, l, j, None, Nil, from);
    SlotFacts(c, gone);
    forall s | Has(j, s)
      ensures c.SlotOk(Slot(b, s), Child(j, s), c.repr - Foot(Slot(c.body, gone)))
    {
      SlotFacts(c, from(s));
    }
  }

  // ---------- edits of one container ----------

  method SetMember<S(!new)>(c: Container<S>, k: string, v: Val<S>)
    requires c.Valid() && c.body.Members? && c.json.Object? && Sound(v) && Foot(v) !! c.repr
    modifies c
    ensures c.Valid() && c.body.Members?
    ensures c.json == Object(old(c.json.members)[k := old(JsonOf(v))])
    ensures c.repr == old(c.repr) + old(Foot(v))
  {
    ghost var j := Object(c.json.members[k := JsonOf(v)]);
    var b := Members(c.body.m[k := v]);
    RearrangedFits(c, b, c.len, j, Some(Key(k)), v, s => s);
    c.Assign(b, c.len, j, c.repr + Foot(v));
  }

  method DropMember<S(!new)>(c: Container<S>, k: string) returns (v: Val<S>)
    requires c.Valid() && c.body.Members? && c.json.Object? && k in c.json.members
    modifies c
    ensures c.Valid() && c.body.Members? && Sound(v)
    ensures c.json == Object(old(c.json.members) - {k}) && JsonOf(v) == old(c.json.members[k])
    ensures Foot(v) !! c.repr && c.repr + Foot(v) == old(c.repr)
  {
    v := c.body.m[k];
    ghost var j := Object(c.json.members - {k});
    var b := Members(c.body.m - {k});
    SlotFacts(c, Key(k));
    ReleaseFits(c, b, c.len, j, Key(k), s => s);
    c.Assign(b, c.len, j, c.repr - Foot(v));
  }

  /** n[idx] = v on a slice: the array cell is overwritten, whatever the old element held is dropped. */
  method SetCell<S(!new)>(c: Container<S>, idx: nat, v: Val<S>)
    requires c.Valid() && c.body.Cells? && c.json.Array? && idx < |c.json.items| && Sound(v) && Foot(v) !! c.repr
    modifies c
    ensures c.Valid() && c.body.Cells? && c.len == old(c.len)
    ensures c.json == Array(old(c.json.items)[idx := old(JsonOf(v))])
    ensures c.repr == old(c.repr) + old(Foot(v))
  {
    ghost var j := Array(c.json.items[idx := JsonOf(v)]);
    var b := Cells(c.body.cells[idx := v]);
    RearrangedFits(c, b, c.len, j, Some(At(idx)), v, s => s);
    c.Assign(b, c.len, j, c.repr + Foot(v));
  }

  lemma DropRearranges<S(!new)>(c: Container<S>, n: nat, idx: nat)
    requires c.Valid() && c.body.Cells? && c.json.Array? && n == c.len && idx < |c.json.items|
    ensures n == |c.json.items| <= |c.body.cells|
    ensures var cs := c.body.cells;
      var b, j := Cells(cs[..idx] + cs[idx + 1..n] + cs[n - 1..]), Array(RemoveAt(c.json.items, idx));
      Shaped(b, n - 1, j) && Rearranged(c, b, j, None, Nil, s => PlaceBefore(s, idx))
  {
    assert n == |c.json.items| <= |c.body.cells|;
    hide Container.Valid, Sound;
    var cs := c.body.cells;
    var made := cs[..idx] + cs[idx + 1..n] + cs[n - 1..];
    var b, j := Cells(made), Array(RemoveAt(c.json.items, idx));
    forall s | Has(j, s)
      ensures
        && Has(c.json, PlaceBefore(s, idx))
        && Slot(b, s) == Slot(c.body, PlaceBefore(s, idx))
        && Child(j, s) == Child(c.json, PlaceBefore(s, idx))
    {
      assert made[s.i] == if s.i < idx then cs[s.i] else cs[s.i + 1];
    }
  }

  /** append(n[:idx], n[idx+1:]...): shifts in place; the cell past the new end keeps a stale value. */
  method DropCell<S(!new)>(c: Container<S>, n: nat, idx: nat) returns (v: Val<S>)
    requires c.Valid() && c.body.Cells? && c.json.Array? && n == c.len && idx < |c.json.items|
    modifies c
    ensures c.Valid() && c.body.Cells? && c.len == n - 1 && Sound(v)
    ensures c.json == Array(RemoveAt(old(c.json.items), idx)) && JsonOf(v) == old(c.json.items[idx])
    ensures Foot(v) !! c.repr && c.repr + Foot(v) == old(c.repr)
  {
    var cs := c.body.cells;
    v := cs[idx];
    ghost var j := Array(RemoveAt(c.json.items, idx));
    var b := Cells(cs[..idx] + cs[idx + 1..n] + cs[n - 1..]);
    SlotFacts(c, At(idx));
    DropRearranges(c, n, idx);
    ReleaseFits(c, b, n - 1, j, At(idx), s => PlaceBefore(s, idx));
    c.Assign(b, n - 1, j, c.repr - Foot(v));
  }

  /** Where an element was before position `idx` was removed. */
  function PlaceBefore(s: Step, idx: nat): Step {
    match s
    case At(i) => if i < idx then s else At(i + 1)
    case Key(_) => s
  }

  /** Where an element was before a new one was put at position `idx`. */
  function PlaceWithout(s: Step, idx: nat): Step {
    match s
    case At(i) => if i <= idx then s else At(i - 1)
    case Key(_) => s
  }

  lemma InsertRearranges<S(!new)>(c: Container<S>, n: nat, idx: nat, v: Val<S>, spare: seq<Val<S>>)
    requires c.Valid() && c.body.Cells? && c.json.Array? && n == c.len && idx <= |c.json.items|
    requires Sound(v) && Foot(v) !! c.repr
    ensures n == |c.json.items| <= |c.body.cells|
    ensures var cs := c.body.cells;
      var b, j := Cells(cs[..idx] + [v] + cs[idx..n] + spare), Array(InsertAt(c.json.items, idx, JsonOf(v)));
      Shaped(b, n + 1, j) && Rearranged(c, b, j, Some(At(idx)), v, s => PlaceWithout(s, idx))
  {
    assert n == |c.json.items| <= |c.body.cells|;
    hide Container.Valid, Sound;
    var cs := c.body.cells;
    var made := cs[..idx] + [v] + cs[idx..n] + spare;
    var b, j := Cells(made), Array(InsertAt(c.json.items, idx, JsonOf(v)));
    forall s | Has(j, s)
      ensures s == At(idx) ==> Slot(b, s) == v && Child(j, s) == JsonOf(v)
      ensures s != At(idx) ==>
        && Has(c.json, PlaceWithout(s, idx))
        && Slot(b, s) == Slot(c.body, PlaceWithout(s, idx))
        && Child(j, s) == Child(c.json, PlaceWithout(s, idx))
    {
      assert made[s.i] == if s.i < idx then cs[s.i] else if s.i == idx then v else cs[s.i - 1];
    }
  }

  /**
   n = append(n, nil); copy(n[idx+1:], n[idx:]); n[idx] = v. With spare capacity
   the backing array is edited in place, else a bigger one takes its place.
   */
  method InsertCell<S(!new)>(c: Container<S>, n: nat, idx: nat, v: Val<S>, grow: nat -> nat) returns (r: Val<S>)
    requires c.Valid() && c.body.Cells? && c.json.Array? && n == c.len && idx <= |c.json.items|
    requires Sound(v) && Foot(v) !! c.repr
    modifies c
    ensures r.SliceRef? && r.len == n + 1 && Sound(r)
    ensures JsonOf(r) == Array(InsertAt(old(c.json.items), idx, old(JsonOf(v))))
    ensures n < |old(c.body.cells)| ==> r.c == c && |c.body.cells| == |old(c.body.cells)|
    ensures forall o :: o in Foot(r) ==> o in old(c.repr) || o in old(Foot(v)) || fresh(o)
  {
    var cs := c.body.cells;
    ghost var j := Array(InsertAt(c.json.items, idx, JsonOf(v)));
    var spare := if n < |cs| then cs[n + 1..] else seq(grow(n), i => Nil);
    var b := Cells(cs[..idx] + [v] + cs[idx..n] + spare);
    InsertRearranges(c, n, idx, v, spare);
    RearrangedFits(c, b, n + 1, j, Some(At(idx)), v, s => PlaceWithout(s, idx));
    if n < |cs| {
      c.Assign(b, n + 1, j, c.repr + Foot(v));
      r := SliceRef(c, n + 1);
    } else {
      var d := new Container(b, n + 1, j, c, c.repr + Foot(v));
      r := SliceRef(d, n + 1);
    }
  }

  // ---------- edits along a path ----------

  ghost predicate EditSound<S(!new)>(e: Edit<Val<S>>, away: set<Container<S>>)
    reads if !e.Remove? && (e.value.MapRef? || e.value.SliceRef?) then {e.value.c} + e.value.c.repr else {}
  {
    e.Remove? || (Sound(e.value) && Foot(e.value) !! away)
  }

  /** The value-level edit a heap edit stands for. */
  ghost function EditOf<S(!new)>(e: Edit<Val<S>>): Edit<Json<S>>
    requires !e.Remove? ==> !e.value.Nil?
    reads if !e.Remove? && (e.value.MapRef? || e.value.SliceRef?) then {e.value.c} else {}
  {
    match e
    case Add(v) => Add(JsonOf(v))
    case Replace(v) => Replace(JsonOf(v))
    case Remove => Remove
  }

  ghost function EditFoot<S(!new)>(e: Edit<Val<S>>): set<Container<S>>
    reads if !e.Remove? && (e.value.MapRef? || e.value.SliceRef?) then {e.value.c} else {}
  {
    if e.Remove? then {} else Foot(e.value)
  }

  datatype Outcome<S(!new)> = Failed | Done(node: Val<S>, removed: Option<Val<S>>)

  /** The outcome is sound and stands for the value-level result `p`. */
  ghost predicate OutcomeIs<S(!new)>(r: Outcome<S>, p: Option<Edited<S>>)
    reads if r.Done? && (r.node.MapRef? || r.node.SliceRef?) then {r.node.c} + r.node.c.repr else {}
    reads if r.Done? && r.removed.Some? && (r.removed.value.MapRef? || r.removed.value.SliceRef?)
      then {r.removed.value.c} + r.removed.value.c.repr else {}
  {
    match r
    case Failed => p == None
    case Done(node, removed) =>
      && p.Some?
      && Sound(node) && JsonOf(node) == p.value.doc
      && (match removed
          case None => p.value.removed == None
          case Some(v) => Sound(v) && p.value.removed == Some(JsonOf(v)) && Foot(v) !! Foot(node))
  }

  ghost function OutcomeFoot<S(!new)>(r: Outcome<S>): set<Container<S>>
    reads if r.Done? && (r.node.MapRef? || r.node.SliceRef?) then {r.node.c} else {}
    reads if r.Done? && r.removed.Some? && (r.removed.value.MapRef? || r.removed.value.SliceRef?)
      then {r.removed.value.c} else {}
  {
    if r.Failed? then {} else Foot(r.node) + if r.removed.Some? then Foot(r.removed.value) else {}
  }

  method EditMapHere<S(!new)>(e: Edit<Val<S>>, c: Container<S>, tok: string) returns (r: Outcome<S>)
    requires c.Valid() && c.body.Members? && EditSound(e, c.repr)
    modifies c
    ensures OutcomeIs(r, EditHere(old(EditOf(e)), old(c.json), tok))
    ensures forall o :: o in OutcomeFoot(r) ==> o in old(c.repr) || o in old(EditFoot(e))
  {
    match e {
      case Add(v) =>
        SetMember(c, tok, v);
        r := Done(MapRef(c), None);
      case Replace(v) =>
        if tok !in c.body.m {
          return Failed;
        }
        SetMember(c, tok, v);
        r := Done(MapRef(c), None);
      case Remove =>
        if tok !in c.body.m {
          return Failed;
        }
        var v := DropMember(c, tok);
        r := Done(MapRef(c), Some(v));
    }
  }

  method EditSliceHere<S(!new)>(e: Edit<Val<S>>, c: Container<S>, n: nat, tok: string, grow: nat -> nat)
    returns (r: Outcome<S>)
    requires c.Valid() && c.body.Cells? && n == c.len && EditSound(e, c.repr)
    modifies c
    ensures OutcomeIs(r, EditHere(old(EditOf(e)), old(c.json), tok))
    ensures forall o :: o in OutcomeFoot(r) ==> o in old(c.repr) || o in old(EditFoot(e)) || fresh(o)
  {
    match ArrayIndex(tok, n, e.Add?) {
      case None =>
        r := Failed;
      case Some(idx) =>
        match e {
          case Add(v) =>
            var s := InsertCell(c, n, idx, v, grow);
            r := Done(s, None);
          case Replace(v) =>
            SetCell(c, idx, v);
            r := Done(SliceRef(c, n), None);
          case Remove =>
            var v := DropCell(c, n, idx);
            r := Done(SliceRef(c, n - 1), Some(v));
        }
    }
  }

  /** Writes a rewritten child back into its slot; the old child's containers are given up. */
  method WriteBack<S(!new)>(c: Container<S>, s: Step, nv: Val<S>, ghost wasFoot: set<Container<S>>)
    requires c in c.repr && Shaped(c.body, c.len, c.json) && Has(c.json, s)
    requires forall x :: Has(c.json, x) && x != s ==>
      c.SlotOk(Slot(c.body, x), Child(c.json, x), c.repr - wasFoot) && Foot(Slot(c.body, x)) !! Foot(nv)
    requires forall x, y :: Has(c.json, x) && Has(c.json, y) && x != y && x != s && y != s ==>
      Foot(Slot(c.body, x)) !! Foot(Slot(c.body, y))
    requires Sound(nv) && c !in Foot(nv) && c !in wasFoot
    modifies c
    ensures c.Valid() && c.json == WithChild(old(c.json), s, old(JsonOf(nv))) && c.len == old(c.len)
    ensures c.body.Members? == old(c.body.Members?)
    ensures c.repr == old(c.repr) - wasFoot + old(Foot(nv))
  {
    ghost var j := WithChild(c.json, s, JsonOf(nv));
    ghost var r := c.repr - wasFoot + Foot(nv);
    var b := WithSlot(c.body, s, nv);
    if nv.MapRef? || nv.SliceRef? { SoundInFoot(nv); }
    assert forall x :: Has(j, x) <==> Has(c.json, x);
    forall x | Has(j, x)
      ensures c.SlotOk(Slot(b, x), Child(j, x), r)
    {
      if x != s { assert Slot(b, x) == Slot(c.body, x) && Child(j, x) == Child(c.json, x); }
    }
    c.Assign(b, c.len, j, r);
  }

  /** `recurse` and its callers: descends to the place, edits it, and writes every level back. */
  method EditPath<S(!new)>(e: Edit<Val<S>>, node: Val<S>, toks: seq<string>, grow: nat -> nat) returns (r: Outcome<S>)
    requires Sound(node) && EditSound(e, Foot(node))
    modifies Foot(node)
    ensures OutcomeIs(r, EditAt(old(EditOf(e)), old(JsonOf(node)), toks))
    ensures forall o :: o in OutcomeFoot(r) ==> o in old(Foot(node)) || o in old(EditFoot(e)) || fresh(o)
    decreases |toks|, 1
  {
    if |toks| == 0 {
      match e {
        case Add(v) => return Done(v, None);
        case Replace(v) => return Done(v, None);
        case Remove => return Failed;
      }
    }
    if |toks| == 1 {
      match node {
        case MapRef(c) => r := EditMapHere(e, c, toks[0]);
        case SliceRef(c, n) => r := EditSliceHere(e, c, n, toks[0], grow);
        case Plain(_) => r := Failed;
      }
      return;
    }
    match node {
      case MapRef(c) =>
        if toks[0] !in c.body.m {
          return Failed;
        }
        r := EditBelow(e, node, c, Key(toks[0]), toks, grow);
      case SliceRef(c, n) =>
        match ArrayIndex(toks[0], n, false) {
          case None => return Failed;
          case Some(idx) => r := EditBelow(e, node, c, At(idx), toks, grow);
        }
      case Plain(_) => r := Failed;
    }
  }

  /** The other slots do without the containers of slot `s`. */
  lemma OtherSlots<S(!new)>(c: Container<S>, s: Step)
    requires c.Valid() && Has(c.json, s)
    ensures c in c.repr && Shaped(c.body, c.len, c.json) && c !in Foot(Slot(c.body, s))
    ensures forall x :: Has(c.json, x) && x != s ==>
      c.SlotOk(Slot(c.body, x), Child(c.json, x), c.repr - Foot(Slot(c.body, s)))
    ensures forall x, y :: Has(c.json, x) && Has(c.json, y) && x != y ==> Foot(Slot(c.body, x)) !! Foot(Slot(c.body, y))
  {
    SlotFacts(c, s);
    forall x | Has(c.json, x) && x != s
      ensures c.SlotOk(Slot(c.body, x), Child(c.json, x), c.repr - Foot(Slot(c.body, s)))
    {
      SlotFacts(c, x);
    }
  }

  method EditBelow<S(!new)>(e: Edit<Val<S>>, node: Val<S>, c: Container<S>, s: Step, toks: seq<string>,
                            grow: nat -> nat)
    returns (r: Outcome<S>)
    requires (node.MapRef? || node.SliceRef?) && node.c == c
    requires Sound(node) && EditSound(e, Foot(node))
    requires |toks| > 1 && StepOf(c.json, toks[0]) == Some(s)
    modifies Foot(node)
    ensures OutcomeIs(r, EditAt(old(EditOf(e)), old(JsonOf(node)), toks))
    ensures forall o :: o in OutcomeFoot(r) ==> o in old(Foot(node)) || o in old(EditFoot(e)) || fresh(o)
    decreases |toks|, 0
  {
    var child := Slot(c.body, s);
    ghost var f := Foot(child);
    SlotFacts(c, s);
    OtherSlots(c, s);
    var below := EditPath(e, child, toks[1..], grow);
    r := LiftOutcome(c, s, node, below, EditAt(old(EditOf(e)), old(JsonOf(child)), toks[1..]), f);
  }

  /** Writes the outcome for the child in slot `s` back into `c`. */
  method LiftOutcome<S(!new)>(c: Container<S>, s: Step, node: Val<S>, below: Outcome<S>, ghost p: Option<Edited<S>>,
                              ghost wasFoot: set<Container<S>>)
    returns (r: Outcome<S>)
    requires (node == MapRef(c) && c.body.Members?) || (node == SliceRef(c, c.len) && c.body.Cells?)
    requires OutcomeIs(below, p) && c !in OutcomeFoot(below) && c !in wasFoot
    requires c in c.repr && Shaped(c.body, c.len, c.json) && Has(c.json, s)
    requires forall x :: Has(c.json, x) && x != s ==>
      c.SlotOk(Slot(c.body, x), Child(c.json, x), c.repr - wasFoot) && Foot(Slot(c.body, x)) !! OutcomeFoot(below)
    requires forall x, y :: Has(c.json, x) && Has(c.json, y) && x != y && x != s && y != s ==>
      Foot(Slot(c.body, x)) !! Foot(Slot(c.body, y))
    requires below.Done? && below.removed.Some? ==> Foot(below.removed.value) !! c.repr - wasFoot
    modifies c
    ensures OutcomeIs(r, Lifted(old(c.json), s, p))
    ensures OutcomeFoot(r) <= old(c.repr) + old(OutcomeFoot(below))
  {
    match below {
      case Failed => r := Failed;
      case Done(nc, removed) =>
        WriteBack(c, s, nc, wasFoot);
        r := Done(node, removed);
    }
  }
}
