/**
 The background snapshot writer as a step machine: request threads change stores
 and then signal a one-slot channel, the writer debounces the signals and saves
 store by store, and `Close` stops the writer and saves once more. Saves succeed
 and a snapshot path is configured.
 */
module SnapshotWriter {
  import opened OrderedEntries

  // ---------- memory and its history ----------

  /** The index of stores, and the documents of every store object ever created. */
  datatype Memory<N, C> = Memory(dir: map<N, nat>, docs: map<nat, C>)

  /** One request's change; a store object keeps its identity when its name is reused. */
  datatype Change<N, C> = PutStore(n: N, r: nat, empty: C) | DropStore(n: N) | Write(r: nat, c: C)

  predicate CanChange<N, C>(m: Memory<N, C>, ch: Change<N, C>) {
    match ch
    case PutStore(_, r, _) => r !in m.docs
    case DropStore(_) => true
    case Write(r, _) => r in m.docs
  }

  function Changed<N, C>(m: Memory<N, C>, ch: Change<N, C>): Memory<N, C> {
    match ch
    case PutStore(n, r, e) => Memory(m.dir[n := r], m.docs[r := e])
    case DropStore(n) => m.(dir := m.dir - {n})
    case Write(r, c) => m.(docs := m.docs[r := c])
  }

  ghost predicate Linked<N, C>(m: Memory<N, C>) {
    forall n :: n in m.dir ==> m.dir[n] in m.docs
  }

  /** What a reader of the program sees: the documents of every listed store. */
  ghost function View<N, C>(m: Memory<N, C>): map<N, C>
    requires Linked(m)
  {
    map n | n in m.dir :: m.docs[m.dir[n]]
  }

  /** What each change means for a reader: a write shows under every name of the store, a new store is empty. */
  lemma ChangeShows<N, C>(m: Memory<N, C>, ch: Change<N, C>)
    requires Linked(m) && CanChange(m, ch)
    ensures Linked(Changed(m, ch))
    ensures View(Changed(m, ch)) ==
      match ch
      case PutStore(n, _, empty) => View(m)[n := empty]
      case DropStore(n) => View(m) - {n}
      case Write(r, c) => map n | n in m.dir :: if m.dir[n] == r then c else View(m)[n]
  {
    ChangedLinked(m, ch);
    var v := View(Changed(m, ch));
    match ch
    case PutStore(n, _, empty) => assert v.Keys == View(m)[n := empty].Keys;
    case DropStore(n) => assert v.Keys == (View(m) - {n}).Keys;
    case Write(_, _) => assert v.Keys == m.dir.Keys;
  }

  // ---------- a save ----------

  /** What one store's export read, and after how many changes. */
  datatype Export<C> = Export(at: nat, docs: C)

  /** A save so far: the list of stores read first, then one export per listed store. */
  datatype Image<N, C> = Image(at: nat, listing: map<N, nat>, got: map<nat, Export<C>>)

  function Todo<N, C>(i: Image<N, C>): set<nat> {
    i.listing.Values - i.got.Keys
  }

  predicate Complete<N, C>(i: Image<N, C>) {
    i.listing.Values <= i.got.Keys
  }

  ghost function Written<N, C>(i: Image<N, C>): map<N, C>
    requires Complete(i)
  {
    map n | n in i.listing :: (assert i.listing[n] in i.listing.Values; i.got[i.listing[n]].docs)
  }

  datatype Writer<N, C> = Idle | Settling(fired: bool) | Saving(img: Option<Image<N, C>>) | Stopped

  datatype Closer<N, C> = Open | Waiting | Final(img: Option<Image<N, C>>) | Closed

  /**
   `log[k]` is the memory after the first `k` changes. `marked` are the changes
   whose handlers have called markDirty. `token` is the slot of the dirty channel.
   `late` is history, read by no step: the changes that were too late for Close's
   own save when they were made.
   */
  datatype State<N, C> = State(
    log: seq<Memory<N, C>>,
    changes: seq<Change<N, C>>,
    marked: set<nat>,
    token: bool,
    writer: Writer<N, C>,
    closer: Closer<N, C>,
    closedAt: nat,
    file: Image<N, C>,
    late: set<nat>)

  ghost predicate Shape<N, C>(s: State<N, C>) {
    |s.log| == |s.changes| + 1
  }

  function Now<N, C>(s: State<N, C>): Memory<N, C>
    requires Shape(s)
  {
    s.log[|s.changes|]
  }

  // ---------- steps ----------

  datatype Action<N, C> =
    | Change(ch: Change<N, C>)      // a request changes a store or the list of stores
    | Mark(k: nat)                  // the same request signals, or finds the slot full
    | TakeToken                     // the idle writer receives a signal
    | Restart                       // the settling writer receives another and resets its timer
    | Fire                          // the timer
    | Settle                        // the writer sees the timer and starts to save
    | Stop                          // the writer sees done
    | ReadList                      // a save reads the list of stores
    | ReadStore(r: nat)             // a save exports one store
    | WriteFile                     // a save renames the finished file into place
    | Close                         // close(done)
    | Joined                        // Close sees the writer gone and starts its own save

  /** The save in progress, whoever does it. */
  function Save<N, C>(s: State<N, C>): Option<Option<Image<N, C>>> {
    if s.writer.Saving? then Some(s.writer.img)
    else if s.closer.Final? then Some(s.closer.img)
    else None
  }

  function WithSave<N, C>(s: State<N, C>, i: Image<N, C>): State<N, C> {
    if s.writer.Saving? then s.(writer := Saving(Some(i))) else s.(closer := Final(Some(i)))
  }

  ghost predicate Enabled<N, C>(s: State<N, C>, a: Action<N, C>)
    requires Shape(s)
  {
    match a
    case Change(ch) => CanChange(Now(s), ch)
    case Mark(k) => k < |s.changes| && k !in s.marked
    case TakeToken => s.writer.Idle? && s.token
    case Restart => s.writer.Settling? && s.token
    case Fire => s.writer == Settling(false)
    case Settle => s.writer == Settling(true)
    case Stop => !s.closer.Open? && (s.writer.Idle? || s.writer.Settling?)
    case ReadList => Save(s) == Some(None)
    case ReadStore(r) => Save(s).Some? && Save(s).value.Some? && r in Todo(Save(s).value.value) && r in Now(s).docs
    case WriteFile => Save(s).Some? && Save(s).value.Some? && Complete(Save(s).value.value)
    case Close => s.closer.Open?
    case Joined => s.closer.Waiting? && s.writer.Stopped?
  }

  /** Close's own save has already read the place that the change is about to change, or the file is written. */
  ghost predicate TooLate<N, C>(s: State<N, C>, ch: Change<N, C>) {
    || s.closer.Closed?
    || (s.closer.Final? && s.closer.img.Some?
        && var i := s.closer.img.value; ch.Write? ==> ch.r in i.got || ch.r !in i.listing.Values)
  }

  ghost function Next<N, C>(s: State<N, C>, a: Action<N, C>): State<N, C>
    requires Shape(s) && Enabled(s, a)
  {
    match a
    case Change(ch) =>
      s.(log := s.log + [Changed(Now(s), ch)], changes := s.changes + [ch],
         late := s.late + if TooLate(s, ch) then {|s.changes|} else {})
    case Mark(k) => s.(marked := s.marked + {k}, token := true)
    case TakeToken => s.(token := false, writer := Settling(false))
    case Restart => s.(token := false, writer := Settling(false))
    case Fire => s.(writer := Settling(true))
    case Settle => s.(writer := Saving(None))
    case Stop => s.(writer := Stopped)
    case ReadList => WithSave(s, Image(|s.changes|, Now(s).dir, map[]))
    case ReadStore(r) =>
      var i := Save(s).value.value;
      WithSave(s, i.(got := i.got[r := Export(|s.changes|, Now(s).docs[r])]))
    case WriteFile =>
      var t := s.(file := Save(s).value.value);
      if s.writer.Saving? then t.(writer := Idle) else t.(closer := Closer.Closed)
    case Close => s.(closer := Waiting, closedAt := |s.changes|)
    case Joined => s.(closer := Final(None))
  }

  /** The state after a run; every action is enabled when its turn comes. */
  ghost predicate Runs<N, C>(s: State<N, C>, acts: seq<Action<N, C>>)
    requires Shape(s)
    decreases |acts|
  {
    acts == [] || (Enabled(s, acts[0]) && Runs(Next(s, acts[0]), acts[1..]))
  }

  ghost function After<N, C>(s: State<N, C>, acts: seq<Action<N, C>>): (t: State<N, C>)
    requires Shape(s) && Runs(s, acts)
    ensures Shape(t)
    decreases |acts|
  {
    if acts == [] then s else After(Next(s, acts[0]), acts[1..])
  }

  /** Serving starts with what LoadSnapshot read; a missing file counts as an empty one. */
  ghost predicate Init<N, C>(s: State<N, C>) {
    && |s.log| == 1 && s.changes == [] && s.marked == {} && s.late == {} && !s.token
    && s.writer.Idle? && s.closer.Open? && s.closedAt == 0 && Linked(s.log[0])
    && s.file.at == 0 && s.file.listing == s.log[0].dir && Complete(s.file)
    && (forall r :: r in s.file.got ==> r in s.log[0].docs && s.file.got[r] == Export(0, s.log[0].docs[r]))
  }

  // ---------- invariant ----------

  ghost predicate LogOk<N, C>(s: State<N, C>) {
    && Shape(s)
    && (forall k :: 0 <= k < |s.log| ==> Linked(s.log[k]))
    && (forall k :: 0 <= k < |s.changes| ==>
          CanChange(s.log[k], s.changes[k]) && s.log[k + 1] == Changed(s.log[k], s.changes[k]))
  }

  /** Every part of the image is what memory held when it was read. */
  ghost predicate ImageOk<N, C>(s: State<N, C>, i: Image<N, C>)
    requires Shape(s)
  {
    && i.at <= |s.changes| && i.listing == s.log[i.at].dir
    && (forall r :: r in i.got ==>
          var e := i.got[r];
          i.at <= e.at <= |s.changes| && r in s.log[e.at].docs && e.docs == s.log[e.at].docs[r])
  }

  /** The change is, or will be, in what this save writes: its place is read later, or was read after it. */
  ghost predicate Catches<N, C>(img: Option<Image<N, C>>, ch: Change<N, C>, k: nat) {
    match img
    case None => true
    case Some(i) =>
      if ch.Write? && ch.r in i.got then k < i.got[ch.r].at
      else if ch.Write? && ch.r in i.listing.Values then true
      else k < i.at
  }

  /** The change is in the file, or something that is still to happen will put it there. */
  ghost predicate Covered<N, C>(s: State<N, C>, k: nat)
    requires k < |s.changes|
  {
    || Catches(Some(s.file), s.changes[k], k)
    || (!s.writer.Stopped? && s.token)
    || s.writer.Settling?
    || (s.writer.Saving? && Catches(s.writer.img, s.changes[k], k))
    || s.closer.Waiting?
    || (s.closer.Final? && Catches(s.closer.img, s.changes[k], k))
  }

  /** A new image is read after everything in the file was. */
  ghost predicate Later<N, C>(i: Image<N, C>, file: Image<N, C>) {
    file.at <= i.at && forall r :: r in file.got ==> file.got[r].at <= i.at
  }

  /** The writer or Close must know of the change: it is signalled, or Close has been called. */
  ghost predicate Due<N, C>(s: State<N, C>, k: nat) {
    k in s.marked || !s.closer.Open?
  }

  /** What the saves have read, and when, and that only one save is in progress. */
  ghost predicate SavesOk<N, C>(s: State<N, C>) {
    && Shape(s) && LogOk(s)
    && (forall k :: k in s.marked ==> k < |s.changes|)
    && Complete(s.file) && ImageOk(s, s.file)
    && s.closedAt <= |s.changes|
    && (s.closer.Open? ==> !s.writer.Stopped?)
    && (s.closer.Final? || s.closer.Closed? ==> s.writer.Stopped?)
    && (Save(s).Some? && Save(s).value.Some? ==>
          ImageOk(s, Save(s).value.value) && Later(Save(s).value.value, s.file))
    && (s.closer.Final? && s.closer.img.Some? ==> s.closedAt <= s.closer.img.value.at)
    && (s.closer.Closed? ==> s.closedAt <= s.file.at)
    && (forall k :: k in s.late ==> s.closedAt <= k < |s.changes|)
    && (s.late != {} ==> s.closer.Closed? || (s.closer.Final? && s.closer.img.Some?))
  }

  ghost predicate Inv<N, C>(s: State<N, C>) {
    && Shape(s) && SavesOk(s)
    && (forall k: nat :: k < |s.changes| && Due(s, k) ==> (Covered(s, k) <==> k !in s.late))
  }

  lemma InitInv<N, C>(s: State<N, C>)
    requires Init(s)
    ensures Inv(s)
  {
  }

  lemma ChangedLinked<N, C>(m: Memory<N, C>, ch: Change<N, C>)
    requires Linked(m) && CanChange(m, ch)
    ensures Linked(Changed(m, ch)) && m.docs.Keys <= Changed(m, ch).docs.Keys
  {
  }

  lemma NextLog<N, C>(s: State<N, C>, a: Action<N, C>)
    requires LogOk(s) && Enabled(s, a)
    ensures var t := Next(s, a); LogOk(t) && s.log <= t.log && s.changes <= t.changes
  {
    hide Linked, Changed, CanChange;
    var t := Next(s, a);
    if a.Change? {
      ChangedLinked(Now(s), a.ch);
      assert forall k :: 0 <= k < |s.log| ==> t.log[k] == s.log[k];
      assert forall k :: 0 <= k < |s.changes| ==> t.changes[k] == s.changes[k];
    } else {
      assert t.log == s.log && t.changes == s.changes;
    }
  }

  lemma ImageKept<N, C>(s: State<N, C>, t: State<N, C>, i: Image<N, C>)
    requires Shape(s) && Shape(t) && s.log <= t.log && ImageOk(s, i)
    ensures ImageOk(t, i)
  {
    assert forall k :: 0 <= k < |s.log| ==> t.log[k] == s.log[k];
  }

  /** What the old file caught, a complete later image catches. */
  lemma LaterCatches<N, C>(i: Image<N, C>, file: Image<N, C>, ch: Change<N, C>, k: nat)
    requires Complete(i) && Later(i, file) && Complete(file)
    requires forall r :: r in i.got ==> i.at <= i.got[r].at
    requires Catches(Some(file), ch, k)
    ensures Catches(Some(i), ch, k)
  {
  }

  /** Nothing in an image was read after a change that is made now. */
  lemma NotYetCaught<N, C>(s: State<N, C>, i: Image<N, C>, ch: Change<N, C>)
    requires Shape(s) && ImageOk(s, i)
    ensures Catches(Some(i), ch, |s.changes|) <==> ch.Write? && ch.r !in i.got && ch.r in i.listing.Values
  {
  }

  /** A step of a save reads after every change so far, and finishing the save replaces the file by a later one. */
  lemma SaveCatches<N, C>(s: State<N, C>, a: Action<N, C>, k: nat)
    requires Inv(s) && Enabled(s, a) && k < |s.changes| && (a.ReadList? || a.ReadStore? || a.WriteFile?)
    ensures Next(s, a).changes == s.changes
    ensures Covered(Next(s, a), k) <==> Covered(s, k)
  {
    hide LogOk;
    if a.WriteFile? {
      if Catches(Some(s.file), s.changes[k], k) { LaterCatches(Save(s).value.value, s.file, s.changes[k], k); }
    } else if a.ReadList? {
      assert forall i: Image<N, C> :: i.at == |s.changes| && i.got == map[] ==> Catches(Some(i), s.changes[k], k);
    }
  }

  lemma StepCovered<N, C>(s: State<N, C>, a: Action<N, C>, k: nat)
    requires Inv(s) && Enabled(s, a)
    requires var t := Next(s, a); k < |t.changes| && Due(t, k)
    ensures Covered(Next(s, a), k) <==> k !in Next(s, a).late
  {
    hide LogOk;
    var t := Next(s, a);
    if a.ReadList? || a.ReadStore? || a.WriteFile? {
      SaveCatches(s, a, k);
    } else if a.Change? && k == |s.changes| {
      NotYetCaught(s, s.file, a.ch);
      if s.closer.Final? && s.closer.img.Some? { NotYetCaught(s, s.closer.img.value, a.ch); }
    }
  }

  /** What a step of a save has just read is right, and later than the file. */
  lemma ReadOk<N, C>(s: State<N, C>, a: Action<N, C>)
    requires SavesOk(s) && Enabled(s, a) && (a.ReadList? || a.ReadStore?)
    ensures var i := Save(Next(s, a)).value.value; ImageOk(Next(s, a), i) && Later(i, s.file)
  {
    hide LogOk;
  }

  lemma StepSavesOk<N, C>(s: State<N, C>, a: Action<N, C>)
    requires SavesOk(s) && Enabled(s, a)
    ensures SavesOk(Next(s, a))
  {
    hide LogOk, ImageOk, Later;
    var t := Next(s, a);
    NextLog(s, a);
    if a.ReadList? || a.ReadStore? { ReadOk(s, a); }
    ImageKept(s, t, s.file);
    if Save(s).Some? && Save(s).value.Some? { ImageKept(s, t, Save(s).value.value); }
  }

  /** Every step keeps the invariant: a change is lost only if it was too late when it was made. */
  lemma StepInv<N, C>(s: State<N, C>, a: Action<N, C>)
    requires Inv(s) && Enabled(s, a)
    ensures Inv(Next(s, a))
  {
    hide SavesOk, LogOk, Catches, Covered;
    var t := Next(s, a);
    StepSavesOk(s, a);
    forall k: nat | k < |t.changes| && Due(t, k)
      ensures Covered(t, k) <==> k !in t.late
    {
      StepCovered(s, a, k);
    }
  }

  lemma {:induction false} RunInv<N, C>(s: State<N, C>, acts: seq<Action<N, C>>)
    requires Inv(s) && Runs(s, acts)
    ensures Inv(After(s, acts))
    decreases |acts|
  {
    if acts != [] {
      StepInv(s, acts[0]);
      RunInv(Next(s, acts[0]), acts[1..]);
    }
  }

  // ---------- no lost change ----------

  /**
   In every reachable state each signalled change, and each change at all once Close has been called,
   is covered exactly if it was not too late for Close's own save when it was made.
   */
  lemma NoLostChange<N, C>(s: State<N, C>, acts: seq<Action<N, C>>, k: nat)
    requires Init(s) && Runs(s, acts)
    ensures var t := After(s, acts);
      && (k in t.marked ==> k < |t.changes|)
      && (k < |t.changes| && Due(t, k) ==> (Covered(t, k) <==> k !in t.late))
      && (k < t.closedAt ==> k !in t.late)
  {
    InitInv(s);
    RunInv(s, acts);
  }

  lemma {:induction false} LateKept<N, C>(s: State<N, C>, acts: seq<Action<N, C>>, k: nat)
    requires Inv(s) && Runs(s, acts) && k < |s.changes|
    ensures var t := After(s, acts);
      k < |t.changes| && t.changes[k] == s.changes[k] && (k in t.late <==> k in s.late)
    decreases |acts|
  {
    if acts != [] {
      NextLog(s, acts[0]);
      StepInv(s, acts[0]);
      LateKept(Next(s, acts[0]), acts[1..], k);
    }
  }

  /** Whether a change gets into the file is decided when it is made, in every continuation. */
  lemma LostIffTooLate<N, C>(u: State<N, C>, ch: Change<N, C>, acts: seq<Action<N, C>>)
    requires Inv(u) && Enabled(u, Action.Change(ch)) && Runs(Next(u, Action.Change(ch)), acts)
    ensures var t, k := After(Next(u, Action.Change(ch)), acts), |u.changes|;
      && k < |t.changes| && t.changes[k] == ch
      && (Due(t, k) ==> (Covered(t, k) <==> !TooLate(u, ch)))
      && (t.closer.Closed? ==> (Catches(Some(t.file), ch, k) <==> !TooLate(u, ch)))
  {
    StepInv(u, Action.Change(ch));
    RunInv(Next(u, Action.Change(ch)), acts);
    LateKept(Next(u, Action.Change(ch)), acts, |u.changes|);
  }

  /** A run from empty memory whose only change is signalled during Close's own save and is not in the file. */
  lemma LateChangeIsLost<N, C>(n: N, c: C) returns (s: State<N, C>, acts: seq<Action<N, C>>)
    ensures Init(s) && Runs(s, acts)
    ensures var t := After(s, acts);
      && t.closer.Closed? && 0 in t.marked && 0 < |t.changes| && !Covered(t, 0)
      && Linked(Now(t)) && View(Now(t)) == map[n := c]
      && Complete(t.file) && Written(t.file) == map[]
  {
    var empty, img := Memory(map[], map[]), Image(0, map[], map[]);
    s := State([empty], [], {}, false, Idle, Closer.Open, 0, img, {});
    var s4 := s.(writer := Stopped, closer := Final(Some(img)));
    var head := CloseReads(s, s4);
    var tail := LateTail(s4, n, c);
    acts := head + tail;
    RunsConcat(s, head, tail);
  }

  lemma CloseReads<N, C>(s: State<N, C>, t: State<N, C>) returns (acts: seq<Action<N, C>>)
    requires Shape(s) && s.closer.Open? && s.writer.Idle? && s.changes == [] && s.closedAt == 0
    requires t == s.(writer := Stopped, closer := Final(Some(Image(0, Now(s).dir, map[]))))
    ensures Runs(s, acts) && After(s, acts) == t
  {
    var s1 := Next(s, Close);
    var s2 := Next(s1, Stop);
    var s3 := Next(s2, Joined);
    assert Next(s3, ReadList) == t;
    acts := Prefixed(s3, ReadList, []);
    acts := Prefixed(s2, Joined, acts);
    acts := Prefixed(s1, Stop, acts);
    acts := Prefixed(s, Close, acts);
  }

  lemma LateTail<N, C>(s: State<N, C>, n: N, c: C) returns (acts: seq<Action<N, C>>)
    requires s.log == [Memory(map[], map[])] && s.changes == [] && s.marked == {} && s.writer.Stopped?
    requires s.closer == Final(Some(Image(0, map[], map[])))
    ensures Runs(s, acts)
    ensures var t := After(s, acts);
      && t.closer.Closed? && 0 in t.marked && t.changes == [PutStore(n, 0, c)]
      && t.writer.Stopped? && t.file == Image(0, map[], map[])
      && Now(t) == Memory(map[n := 0], map[0 := c])
  {
    var s1 := Next(s, Action.Change(PutStore(n, 0, c)));
    var s2 := Next(s1, Mark(0));
    acts := Prefixed(s2, WriteFile, []);
    acts := Prefixed(s1, Mark(0), acts);
    acts := Prefixed(s, Action.Change(PutStore(n, 0, c)), acts);
  }

  lemma {:induction false} RunsConcat<N, C>(s: State<N, C>, a: seq<Action<N, C>>, b: seq<Action<N, C>>)
    requires Shape(s) && Runs(s, a) && Runs(After(s, a), b)
    ensures Runs(s, a + b) && After(s, a + b) == After(After(s, a), b)
    decreases |a|
  {
    if a == [] {
      assert a + b == b;
    } else {
      assert (a + b)[1..] == a[1..] + b;
      RunsConcat(Next(s, a[0]), a[1..], b);
    }
  }

  lemma Prefixed<N, C>(s: State<N, C>, a: Action<N, C>, rest: seq<Action<N, C>>) returns (acts: seq<Action<N, C>>)
    requires Shape(s) && Enabled(s, a) && Runs(Next(s, a), rest)
    ensures acts == [a] + rest && Runs(s, acts) && After(s, acts) == After(Next(s, a), rest)
  {
    acts := [a] + rest;
    assert acts[1..] == rest;
  }

  // ---------- what the file holds ----------

  lemma {:induction false} DirKept<N, C>(s: State<N, C>, a: nat, b: nat)
    requires LogOk(s) && a <= b <= |s.changes|
    requires forall k :: a <= k < b ==> s.changes[k].Write?
    ensures s.log[b].dir == s.log[a].dir
    decreases b - a
  {
    if a < b {
      DirKept(s, a + 1, b);
    }
  }

  lemma {:induction false} DocsKept<N, C>(s: State<N, C>, r: nat, a: nat, b: nat)
    requires LogOk(s) && a <= b <= |s.changes| && r in s.log[a].docs
    ensures r in s.log[b].docs
    ensures (forall k :: a <= k < b && s.changes[k].Write? ==> s.changes[k].r != r) ==>
      s.log[b].docs[r] == s.log[a].docs[r]
    decreases b - a
  {
    if a < b {
      assert CanChange(s.log[a], s.changes[a]) && s.log[a + 1] == Changed(s.log[a], s.changes[a]);
      DocsKept(s, r, a + 1, b);
    }
  }

  /** An export read after every write to its store has the current documents. */
  lemma ExportCurrent<N, C>(s: State<N, C>, r: nat)
    requires Inv(s) && r in s.file.got
    requires forall k :: 0 <= k < |s.changes| ==> Catches(Some(s.file), s.changes[k], k)
    ensures r in Now(s).docs && s.file.got[r].docs == Now(s).docs[r]
  {
    hide LogOk, Covered;
    DocsKept(s, r, s.file.got[r].at, |s.changes|);
  }

  /** A file that caught every change is the current memory. */
  lemma AllCaught<N, C>(s: State<N, C>)
    requires Inv(s)
    requires forall k :: 0 <= k < |s.changes| ==> Catches(Some(s.file), s.changes[k], k)
    ensures Linked(Now(s)) && Written(s.file) == View(Now(s))
  {
    hide Covered, Changed, CanChange;
    var f := s.file;
    DirKept(s, f.at, |s.changes|);
    forall name | name in f.listing
      ensures f.listing[name] in f.got && f.got[f.listing[name]].docs == Now(s).docs[f.listing[name]]
    {
      assert f.listing[name] in f.listing.Values;
      ExportCurrent(s, f.listing[name]);
    }
  }

  /** The writer has nothing left to do. */
  ghost predicate Quiet<N, C>(s: State<N, C>) {
    s.closer.Open? && s.writer.Idle? && !s.token && (forall k: nat :: k < |s.changes| ==> k in s.marked)
  }

  /** An idle writer without a signal means that the file is the memory. */
  lemma QuietMeansSaved<N, C>(s: State<N, C>)
    requires Inv(s) && Quiet(s)
    ensures Linked(Now(s)) && Written(s.file) == View(Now(s))
  {
    forall k | 0 <= k < |s.changes|
      ensures Catches(Some(s.file), s.changes[k], k)
    {
      assert k in s.marked && Covered(s, k);
    }
    AllCaught(s);
  }

  /** After Close, with no change since it was called, the file is the memory. */
  lemma ClosedMeansSaved<N, C>(s: State<N, C>)
    requires Inv(s) && s.closer.Closed? && |s.changes| == s.closedAt
    ensures Linked(Now(s)) && Written(s.file) == View(Now(s))
  {
    forall k | 0 <= k < |s.changes|
      ensures Catches(Some(s.file), s.changes[k], k)
    {
      assert Due(s, k) && Covered(s, k);
    }
    AllCaught(s);
  }

  /**
   After Close each part of the file is what memory held at some moment since Close was called,
   signalled or not; with no change since, the file is the memory.
   */
  lemma CloseSavesAll<N, C>(s: State<N, C>, acts: seq<Action<N, C>>)
    requires Init(s) && Runs(s, acts) && After(s, acts).closer.Closed?
    ensures var t := After(s, acts);
      && Complete(t.file)
      && t.closedAt <= t.file.at <= |t.changes| && t.file.listing == t.log[t.file.at].dir
      && (forall r :: r in t.file.got ==>
            var e := t.file.got[r];
            t.closedAt <= e.at <= |t.changes| && r in t.log[e.at].docs && e.docs == t.log[e.at].docs[r])
      && (|t.changes| == t.closedAt ==> Linked(Now(t)) && Written(t.file) == View(Now(t)))
  {
    var t := After(s, acts);
    InitInv(s);
    RunInv(s, acts);
    if |t.changes| == t.closedAt { ClosedMeansSaved(t); }
  }

  /** Nothing is saved after Close's own save: a change that comes later stays out of the file. */
  lemma {:induction false} ClosedFileIsFinal<N, C>(s: State<N, C>, acts: seq<Action<N, C>>)
    requires Inv(s) && s.closer.Closed? && Runs(s, acts)
    ensures After(s, acts).file == s.file && After(s, acts).closer.Closed?
    decreases |acts|
  {
    if acts != [] {
      StepInv(s, acts[0]);
      ClosedFileIsFinal(Next(s, acts[0]), acts[1..]);
    }
  }

  // ---------- progress once changes stop ----------

  /** Steps left of a save, with `d` stores to list. */
  ghost function SaveWork<N, C>(img: Option<Image<N, C>>, d: nat): nat {
    match img
    case None => d + 2
    case Some(i) => |Todo(i)| + 1
  }

  /** Steps left for the background writer until it is idle, and one to stop. */
  ghost function WriterWork<N, C>(w: Writer<N, C>, d: nat): nat {
    match w
    case Idle => 1
    case Settling(fired) => if fired then d + 4 else d + 5
    case Saving(img) => SaveWork(img, d) + 1
    case Stopped => 0
  }

  /** Steps left for Close. */
  ghost function CloserWork<N, C>(c: Closer<N, C>, d: nat): nat {
    match c
    case Open => d + 4
    case Waiting => d + 3
    case Final(img) => SaveWork(img, d)
    case Closed => 0
  }

  /** The work, `w` each, that the unsignalled ones of the first `n` changes will cause. */
  ghost function Unmarked(marked: set<nat>, n: nat, w: nat): nat {
    if n == 0 then 0 else Unmarked(marked, n - 1, w) + if n - 1 in marked then 0 else w
  }

  /** A bound on the steps that are possible when no request changes anything. */
  ghost function Measure<N, C>(s: State<N, C>): nat
    requires Shape(s)
  {
    var d := |Now(s).dir.Values|;
    Unmarked(s.marked, |s.changes|, d + 6) + (if s.token then d + 5 else 0)
    + WriterWork(s.writer, d) + CloserWork(s.closer, d)
  }

  /** Listing the stores is progress, */
  lemma ListedWork<N, C>(at: nat, listing: map<N, nat>)
    ensures SaveWork(Some(Image<N, C>.Image(at, listing, map[])), |listing.Values|) == |listing.Values| + 1
  {
    assert Todo(Image<N, C>.Image(at, listing, map[])) == listing.Values;
  }

  /** ... and so is every export. */
  lemma ExportedWork<N, C>(i: Image<N, C>, r: nat, e: Export<C>, d: nat)
    requires r in Todo(i)
    ensures SaveWork(Some(i.(got := i.got[r := e])), d) < SaveWork(Some(i), d)
  {
    assert Todo(i.(got := i.got[r := e])) == Todo(i) - {r};
  }

  lemma {:induction false} FewerUnmarked(marked: set<nat>, k: nat, n: nat, w: nat)
    requires k !in marked
    ensures Unmarked(marked + {k}, n, w) == Unmarked(marked, n, w) - if k < n then w else 0
  {
    if n > 0 {
      FewerUnmarked(marked, k, n - 1, w);
    }
  }

  /** A step of a save is progress for whoever saves. */
  lemma SaveDecreases<N, C>(s: State<N, C>, a: Action<N, C>)
    requires Shape(s) && Enabled(s, a) && (a.ReadList? || a.ReadStore? || a.WriteFile?)
    ensures var t, d := Next(s, a), |Now(s).dir.Values|;
      && t.changes == s.changes && t.log == s.log && t.marked == s.marked && t.token == s.token
      && WriterWork(t.writer, d) + CloserWork(t.closer, d) < WriterWork(s.writer, d) + CloserWork(s.closer, d)
  {
    hide Todo, Complete, Changed, CanChange;
    if a.ReadList? {
      ListedWork<N, C>(|s.changes|, Now(s).dir);
    } else if a.ReadStore? {
      ExportedWork(Save(s).value.value, a.r, Export(|s.changes|, Now(s).docs[a.r]), |Now(s).dir.Values|);
    }
  }

  /** Without changes, every step is progress. */
  lemma StepDecreases<N, C>(s: State<N, C>, a: Action<N, C>)
    requires Shape(s) && Enabled(s, a) && !a.Change?
    ensures Measure(Next(s, a)) < Measure(s) && Next(s, a).changes == s.changes && Next(s, a).log == s.log
    ensures !a.Close? && s.closer.Open? ==> Next(s, a).closer.Open?
    ensures !s.closer.Open? ==> !Next(s, a).closer.Open? && Next(s, a).closedAt == s.closedAt
  {
    hide Unmarked;
    if a.ReadList? || a.ReadStore? || a.WriteFile? {
      SaveDecreases(s, a);
    } else if a.Mark? {
      FewerUnmarked(s.marked, a.k, |s.changes|, |Now(s).dir.Values| + 6);
    }
  }

  /** A save in progress can always go on. */
  lemma SomeSaveStep<N, C>(s: State<N, C>) returns (a: Action<N, C>)
    requires Inv(s) && Save(s).Some?
    ensures Enabled(s, a) && (a.ReadList? || a.ReadStore? || a.WriteFile?)
  {
    match Save(s).value
    case None => a := ReadList;
    case Some(i) =>
      if Complete(i) { return WriteFile; }
      var r :| r in i.listing.Values && r !in i.got.Keys;
      assert exists n :: n in i.listing && i.listing[n] == r;
      DocsKept(s, r, i.at, |s.changes|);
      a := ReadStore(r);
  }

  /** While there is something left to do, a step that does it is enabled. */
  lemma SomeStep<N, C>(s: State<N, C>) returns (a: Action<N, C>)
    requires Inv(s) && s.closer.Open? && !Quiet(s)
    ensures Enabled(s, a) && !a.Change? && !a.Close?
  {
    if k: nat :| k < |s.changes| && k !in s.marked {
      return Mark(k);
    }
    match s.writer
    case Idle => a := TakeToken;
    case Settling(fired) => a := if fired then Settle else Fire;
    case Saving(_) => a := SomeSaveStep(s);
    case Stopped =>
  }

  /** No run of the writer alone is longer than the measure, and one that cannot go on has saved everything. */
  lemma {:induction false} WriterFinishes<N, C>(s: State<N, C>, acts: seq<Action<N, C>>)
    requires Inv(s) && s.closer.Open? && Runs(s, acts)
    requires forall a :: a in acts ==> !a.Change? && !a.Close?
    ensures |acts| <= Measure(s)
    ensures var t := After(s, acts);
      (forall a :: Enabled(t, a) ==> a.Change? || a.Close?) ==>
        Quiet(t) && Now(t) == Now(s) && Linked(Now(s)) && Complete(t.file) && Written(t.file) == View(Now(s))
    decreases |acts|
  {
    if acts != [] {
      assert acts[0] in acts;
      StepDecreases(s, acts[0]);
      StepInv(s, acts[0]);
      WriterFinishes(Next(s, acts[0]), acts[1..]);
    } else if !Quiet(s) {
      var a := SomeStep(s);
    } else {
      QuietMeansSaved(s);
    }
  }

  // ---------- Close finishes ----------

  /** Close is done, and every handler has signalled. */
  ghost predicate Done<N, C>(s: State<N, C>) {
    s.closer.Closed? && forall k: nat :: k < |s.changes| ==> k in s.marked
  }

  /** From the call of Close until it is done, some step of Close, the writer or a handler is enabled. */
  lemma SomeCloseStep<N, C>(s: State<N, C>) returns (a: Action<N, C>)
    requires Inv(s) && !s.closer.Open? && !Done(s)
    ensures Enabled(s, a) && !a.Change?
    ensures !s.closer.Closed? ==> !a.Mark?
  {
    if s.closer.Closed? {
      var k: nat :| k < |s.changes| && k !in s.marked;
      a := Mark(k);
    } else if Save(s).Some? {
      a := SomeSaveStep(s);
    } else {
      a := if s.writer.Stopped? then Joined else Stop;
    }
  }

  /**
   After Close is called, no run without changes is longer than the measure; one that cannot go on has closed,
   with the memory in the file if nothing changed since Close was called.
   */
  lemma {:induction false} CloseFinishes<N, C>(s: State<N, C>, acts: seq<Action<N, C>>)
    requires Inv(s) && !s.closer.Open? && Runs(s, acts)
    requires forall a :: a in acts ==> !a.Change?
    ensures |acts| <= Measure(s)
    ensures var t := After(s, acts);
      (forall a :: Enabled(t, a) ==> a.Change?) ==>
        && Done(t) && t.closedAt == s.closedAt && Now(t) == Now(s) && Complete(t.file)
        && (|s.changes| == s.closedAt ==> Linked(Now(s)) && Written(t.file) == View(Now(s)))
    decreases |acts|
  {
    if acts != [] {
      assert acts[0] in acts;
      StepDecreases(s, acts[0]);
      StepInv(s, acts[0]);
      CloseFinishes(Next(s, acts[0]), acts[1..]);
    } else if !Done(s) {
      var a := SomeCloseStep(s);
    } else if |s.changes| == s.closedAt {
      ClosedMeansSaved(s);
    }
  }

  /** ... and such a run exists, without waiting for handlers. */
  lemma CloseReached<N, C>(s: State<N, C>) returns (acts: seq<Action<N, C>>)
    requires Inv(s) && !s.closer.Open?
    ensures Runs(s, acts) && After(s, acts).closer.Closed?
    ensures forall a :: a in acts ==> !a.Change? && !a.Mark?
    decreases Measure(s)
  {
    acts := [];
    if !s.closer.Closed? {
      var a := SomeCloseStep(s);
      StepInv(s, a);
      StepDecreases(s, a);
      var rest := CloseReached(Next(s, a));
      acts := Prefixed(s, a, rest);
    }
  }

  /** `closedAt` is the number of changes made before Close was called. */
  lemma CloseInstant<N, C>(s: State<N, C>, acts: seq<Action<N, C>>)
    requires Inv(s) && Enabled(s, Close) && Runs(Next(s, Close), acts)
    ensures var t := After(Next(s, Close), acts); t.closedAt == |s.changes| && !t.closer.Open? && s.log <= t.log
  {
    StepInv(s, Close);
    ClosedAtKept(Next(s, Close), acts);
  }

  lemma {:induction false} ClosedAtKept<N, C>(s: State<N, C>, acts: seq<Action<N, C>>)
    requires Inv(s) && !s.closer.Open? && Runs(s, acts)
    ensures var t := After(s, acts); t.closedAt == s.closedAt && !t.closer.Open? && s.log <= t.log
    decreases |acts|
  {
    if acts != [] {
      NextLog(s, acts[0]);
      StepInv(s, acts[0]);
      ClosedAtKept(Next(s, acts[0]), acts[1..]);
    }
  }

  // ---------- the debounce ----------

  /** The writer receives a signal. */
  predicate Receives<N, C>(a: Action<N, C>) {
    a.TakeToken? || a.Restart?
  }

  /** No background save starts before the timer has run out with no signal received since it was last set. */
  lemma SaveAfterQuiet<N, C>(s: State<N, C>, acts: seq<Action<N, C>>, j: nat) returns (i: nat)
    requires Init(s) && Runs(s, acts) && j < |acts| && acts[j].Settle?
    ensures i < j && acts[i].Fire? && forall k :: i < k < j ==> !Receives(acts[k])
  {
    var found, fire := LastFire(s, acts, j);
    i := fire;
  }

  lemma {:induction false} LastFire<N, C>(s: State<N, C>, acts: seq<Action<N, C>>, j: nat) returns (found: bool, i: nat)
    requires Shape(s) && Runs(s, acts) && j < |acts| && acts[j].Settle?
    ensures found ==> i < j && acts[i].Fire? && forall k :: i < k < j ==> !Receives(acts[k])
    ensures !found ==> s.writer == Settling(true) && forall k :: 0 <= k < j ==> !Receives(acts[k])
    decreases j
  {
    if j == 0 {
      return false, 0;
    }
    found, i := LastFire(Next(s, acts[0]), acts[1..], j - 1);
    assert forall k :: 0 < k < j ==> acts[k] == acts[1..][k - 1];
    if found {
      i := i + 1;
    } else if acts[0].Fire? {
      found := true;
      i := 0;
    }
  }

  /** A waiting writer can always receive a signal; that empties the slot and sets the timer anew. */
  lemma SignalReceived<N, C>(s: State<N, C>) returns (a: Action<N, C>)
    requires Shape(s) && s.token && (s.writer.Idle? || s.writer.Settling?)
    ensures Receives(a) && Enabled(s, a) && !Next(s, a).token && Next(s, a).writer == Settling(false)
  {
    a := if s.writer.Idle? then TakeToken else Restart;
  }

  /** A save starts only when the settled writer or Close starts one, and only its finished image ends it. */
  lemma SaveStartsAndEnds<N, C>(s: State<N, C>, a: Action<N, C>)
    requires Shape(s) && Enabled(s, a)
    ensures Save(s).None? && Save(Next(s, a)).Some? ==> a.Settle? || a.Joined?
    ensures Save(s).Some? && Save(Next(s, a)).None? ==>
      a.WriteFile? && Some(Some(Next(s, a).file)) == Save(s)
    ensures Next(s, a).file != s.file ==> a.WriteFile?
    ensures Save(s).Some? && s.writer.Saving? && !a.WriteFile? ==> Next(s, a).writer.Saving?
  {
  }
}
