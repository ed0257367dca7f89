/**
 `Apply` on decoded documents: the loop over the operations, each one applied in
 place, gives exactly the value-level `ApplyAll`.
 */
module PatchApply {
  import opened OrderedEntries
  import opened Slices
  import opened JsonPointer
  import opened JsonPatch
  import opened JsonPatchOps
  import opened PatchHeap

  /** The members of `m` with keys in `ks`. */
  ghost function Part<V>(m: map<string, V>, ks: set<string>): map<string, V> {
    map k | k in m && k in ks :: m[k]
  }

  lemma PartGrows<V>(m: map<string, V>, left: set<string>, k: string)
    requires k in left && left <= m.Keys
    ensures Part(m, m.Keys - (left - {k})) == Part(m, m.Keys - left)[k := m[k]]
  {
  }

  /** json.Unmarshal into an `any`: a new tree of containers, sharing nothing; slices grow by appending. */
  method Unmarshal<S(!new)>(j: Json<S>, grow: nat -> nat) returns (v: Val<S>)
    ensures Sound(v) && JsonOf(v) == j
    ensures forall o :: o in Foot(v) ==> fresh(o)
    decreases j, 1
  {
    if j.Scalar? {
      v := Plain(j.s);
    } else if j.Object? {
      v := DecodeMap(j, grow);
    } else {
      v := DecodeSlice(j, grow);
    }
  }

  method DecodeMap<S(!new)>(j: Json<S>, grow: nat -> nat) returns (v: Val<S>)
    requires j.Object?
    ensures Sound(v) && JsonOf(v) == j
    ensures forall o :: o in Foot(v) ==> fresh(o)
    decreases j, 0
  {
    var c := new Container<S>.Empty(Members(map[]));
    var left := j.members.Keys;
    assert Part(j.members, j.members.Keys - left) == map[];
    while left != {}
      invariant left <= j.members.Keys
      invariant c.Valid() && c.body.Members? && c.json == Object(Part(j.members, j.members.Keys - left))
      invariant forall o :: o in c.repr ==> fresh(o)
    {
      var k :| k in left;
      var x := Unmarshal(j.members[k], grow);
      PartGrows(j.members, left, k);
      SetMember(c, k, x);
      left := left - {k};
    }
    assert Part(j.members, j.members.Keys) == j.members;
    v := MapRef(c);
  }

  method DecodeSlice<S(!new)>(j: Json<S>, grow: nat -> nat) returns (v: Val<S>)
    requires j.Array?
    ensures Sound(v) && JsonOf(v) == j
    ensures forall o :: o in Foot(v) ==> fresh(o)
    decreases j, 0
  {
    var c := new Container<S>.Empty(Cells([]));
    v := SliceRef(c, 0);
    for i := 0 to |j.items|
      invariant v.SliceRef? && v.len == i && Sound(v) && JsonOf(v) == Array(j.items[..i])
      invariant forall o :: o in Foot(v) ==> fresh(o)
    {
      var x := Unmarshal(j.items[i], grow);
      assert InsertAt(j.items[..i], i, j.items[i]) == j.items[..i + 1];
      SoundInFoot(v);
      v := InsertCell(v.c, i, i, x, grow);
    }
    assert j.items[..|j.items|] == j.items;
  }

  /** json.Marshal, as the value it writes out. */
  method Marshal<S(!new)>(v: Val<S>) returns (j: Json<S>)
    requires Sound(v)
    ensures j == JsonOf(v)
    decreases Foot(v)
  {
    if v.Plain? {
      return Scalar(v.s);
    }
    var c := v.c;
    if v.MapRef? {
      var m: map<string, Json<S>> := map[];
      var left := c.body.m.Keys;
      while left != {}
        invariant left <= c.json.members.Keys
        invariant m == Part(c.json.members, c.json.members.Keys - left)
      {
        var k :| k in left;
        SlotFacts(c, Key(k));
        var x := Marshal(c.body.m[k]);
        PartGrows(c.json.members, left, k);
        m := m[k := x];
        left := left - {k};
      }
      assert Part(c.json.members, c.json.members.Keys) == c.json.members;
      return Object(m);
    }
    var items: seq<Json<S>> := [];
    for i := 0 to v.len
      invariant items == c.json.items[..i]
    {
      SlotFacts(c, At(i));
      var x := Marshal(c.body.cells[i]);
      items := items + [x];
    }
    assert items == c.json.items;
    j := Array(items);
  }

  /** An equal value that shares no container with anything allocated before. */
  method DeepCopy<S(!new)>(v: Val<S>) returns (r: Val<S>)
    requires Sound(v)
    ensures Sound(r) && JsonOf(r) == JsonOf(v)
    ensures forall o :: o in Foot(r) ==> fresh(o)
    decreases Foot(v), 1
  {
    if v.Plain? {
      return v;
    }
    if v.MapRef? {
      r := CopyMap(v.c);
    } else {
      r := CopySlice(v.c, v.len);
    }
  }

  method CopyMap<S(!new)>(d: Container<S>) returns (r: Val<S>)
    requires d.Valid() && d.body.Members?
    ensures Sound(r) && JsonOf(r) == d.json
    ensures forall o :: o in Foot(r) ==> fresh(o)
    decreases d.repr, 0
  {
    var c := new Container<S>.Empty(Members(map[]));
    var left := d.body.m.Keys;
    while left != {}
      invariant left <= d.json.members.Keys
      invariant c.Valid() && c.body.Members? && c.json == Object(Part(d.json.members, d.json.members.Keys - left))
      invariant forall o :: o in c.repr ==> fresh(o)
    {
      var k :| k in left;
      SlotFacts(d, Key(k));
      var x := DeepCopy(d.body.m[k]);
      PartGrows(d.json.members, left, k);
      SetMember(c, k, x);
      left := left - {k};
    }
    assert Part(d.json.members, d.json.members.Keys) == d.json.members;
    r := MapRef(c);
  }

  method CopySlice<S(!new)>(d: Container<S>, n: nat) returns (r: Val<S>)
    requires d.Valid() && d.body.Cells? && d.len == n
    ensures Sound(r) && JsonOf(r) == d.json
    ensures forall o :: o in Foot(r) ==> fresh(o)
    decreases d.repr, 0
  {
    var c := new Container<S>.Empty(Cells(seq(n, i => Nil)));
    for i := 0 to n
      invariant c.Valid() && c.body.Cells? && c.len == i && |c.body.cells| == n && c.json == Array(d.json.items[..i])
      invariant forall o :: o in c.repr ==> fresh(o)
    {
      SlotFacts(d, At(i));
      var x := DeepCopy(d.body.cells[i]);
      assert InsertAt(d.json.items[..i], i, d.json.items[i]) == d.json.items[..i + 1];
      var s := InsertCell(c, i, i, x, k => k);
      assert Foot(s) == c.repr;
    }
    r := SliceRef(c, n);
  }

  /** The loop of `getAt`; the value found is still part of the document. */
  method GetVal<S(!new)>(node: Val<S>, toks: seq<string>) returns (r: Option<Val<S>>)
    requires Sound(node)
    ensures r.None? ==> GetAt(JsonOf(node), toks) == None
    ensures r.Some? ==> Sound(r.value) && Foot(r.value) <= Foot(node)
    ensures r.Some? ==> GetAt(JsonOf(node), toks) == Some(JsonOf(r.value))
  {
    var cur := node;
    for i := 0 to |toks|
      invariant Sound(cur) && Foot(cur) <= Foot(node)
      invariant GetAt(JsonOf(cur), toks[i..]) == GetAt(JsonOf(node), toks)
    {
      var tok := toks[i];
      assert toks[i..][1..] == toks[i + 1..];
      match cur {
        case MapRef(c) =>
          if tok !in c.body.m {
            return None;
          }
          SlotFacts(c, Key(tok));
          cur := c.body.m[tok];
        case SliceRef(c, n) =>
          match ArrayIndex(tok, n, false) {
            case None => return None;
            case Some(idx) =>
              SlotFacts(c, At(idx));
              cur := c.body.cells[idx];
          }
        case Plain(_) => return None;
      }
    }
    r := Some(cur);
  }

  /** A sound document for a value-level result, or a failure on both levels. */
  ghost predicate Agrees<S(!new)>(r: Option<Val<S>>, p: Option<Json<S>>)
    reads if r.Some? && (r.value.MapRef? || r.value.SliceRef?) then {r.value.c} + r.value.c.repr else {}
  {
    match r
    case None => p == None
    case Some(v) => Sound(v) && p == Some(JsonOf(v))
  }

  method EditDoc<S(!new)>(e: Edit<Val<S>>, doc: Val<S>, toks: seq<string>, grow: nat -> nat) returns (r: Option<Val<S>>)
    requires Sound(doc) && EditSound(e, Foot(doc))
    modifies Foot(doc)
    ensures Agrees(r, DocOf(EditAt(old(EditOf(e)), old(JsonOf(doc)), toks)))
    ensures r.Some? ==> forall o :: o in Foot(r.value) ==> o in old(Foot(doc)) || o in old(EditFoot(e)) || fresh(o)
  {
    var out := EditPath(e, doc, toks, grow);
    match out {
      case Failed => r := None;
      case Done(node, _) => r := Some(node);
    }
  }

  method Move<S(==,!new)>(doc: Val<S>, o: Operation<S>, grow: nat -> nat) returns (r: Option<Val<S>>)
    requires Sound(doc)
    modifies Foot(doc)
    ensures Agrees(r, Moved(old(JsonOf(doc)), o))
    ensures r.Some? ==> forall x :: x in Foot(r.value) ==> x in old(Foot(doc)) || fresh(x)
  {
    var fromToks := Tokens(o.from);
    if fromToks.None? {
      return None;
    }
    var out := EditPath(Remove, doc, fromToks.value, grow);
    match out {
      case Failed => r := None;
      case Done(next, moved) =>
        RemoveReturnsValue(old(JsonOf(doc)), fromToks.value);
        r := EditDoc(Add(moved.value), next, MustTokens(o.path), grow);
    }
  }

  method CopyOp<S(==,!new)>(doc: Val<S>, o: Operation<S>, grow: nat -> nat) returns (r: Option<Val<S>>)
    requires Sound(doc)
    modifies Foot(doc)
    ensures Agrees(r, Copied(old(JsonOf(doc)), o))
    ensures r.Some? ==> forall x :: x in Foot(r.value) ==> x in old(Foot(doc)) || fresh(x)
  {
    var fromToks := Tokens(o.from);
    if fromToks.None? {
      return None;
    }
    var v := GetVal(doc, fromToks.value);
    if v.None? {
      return None;
    }
    var copy := DeepCopy(v.value);
    r := EditDoc(Add(copy), doc, MustTokens(o.path), grow);
  }

  /** reflect.DeepEqual: walks both trees, down to the first difference. */
  method DeepEqual<S(==, !new)>(a: Val<S>, b: Val<S>) returns (same: bool)
    requires Sound(a) && Sound(b)
    ensures same == (JsonOf(a) == JsonOf(b))
    decreases Foot(a), 1
  {
    match a {
      case Plain(x) => same := b.Plain? && x == b.s;
      case MapRef(c) =>
        same := false;
        if b.MapRef? { same := EqualMaps(c, b.c); }
      case SliceRef(c, n) =>
        same := false;
        if b.SliceRef? { same := EqualSlices(c, n, b.c, b.len); }
    }
  }

  method EqualMaps<S(==, !new)>(c: Container<S>, d: Container<S>) returns (same: bool)
    requires c.Valid() && d.Valid() && c.body.Members? && d.body.Members?
    ensures same == (c.json == d.json)
    decreases c.repr, 0
  {
    if |c.body.m| != |d.body.m| {
      return false;
    }
    var left := c.body.m.Keys;
    while left != {}
      invariant left <= c.json.members.Keys
      invariant forall k :: k in c.json.members && k !in left ==>
        k in d.json.members && c.json.members[k] == d.json.members[k]
    {
      var k :| k in left;
      if k !in d.body.m {
        return false;
      }
      SlotFacts(c, Key(k));
      SlotFacts(d, Key(k));
      var eq := DeepEqual(c.body.m[k], d.body.m[k]);
      if !eq {
        return false;
      }
      left := left - {k};
    }
    SameSizeSameMap(c.json.members, d.json.members);
    same := true;
  }

  /** A map inside another of the same size is that map. */
  lemma SameSizeSameMap<V>(m: map<string, V>, n: map<string, V>)
    requires |m| == |n| && forall k :: k in m ==> k in n && m[k] == n[k]
    ensures m == n
  {
    assert m.Keys <= n.Keys && |m.Keys| == |m| && |n.Keys| == |n|;
    forall k | k in n
      ensures k in m
    {
      if k !in m { SubsetSize(m.Keys, n.Keys - {k}); }
    }
  }

  lemma {:induction false} SubsetSize(a: set<string>, b: set<string>)
    requires a <= b
    ensures |a| <= |b|
    decreases a
  {
    if a != {} {
      var x :| x in a;
      SubsetSize(a - {x}, b - {x});
    }
  }

  method EqualSlices<S(==, !new)>(c: Container<S>, n: nat, d: Container<S>, m: nat) returns (same: bool)
    requires c.Valid() && d.Valid() && c.body.Cells? && d.body.Cells? && n == c.len && m == d.len
    ensures same == (c.json == d.json)
    decreases c.repr, 0
  {
    if n != m {
      return false;
    }
    for i := 0 to n
      invariant c.json.items[..i] == d.json.items[..i]
    {
      SlotFacts(c, At(i));
      SlotFacts(d, At(i));
      var eq := DeepEqual(c.body.cells[i], d.body.cells[i]);
      if !eq {
        return false;
      }
    }
    same := true;
  }

  /** Compares with a decoded value. */
  method Matches<S(==, !new)>(got: Val<S>, value: Json<S>, grow: nat -> nat) returns (same: bool)
    requires Sound(got)
    ensures same == (JsonOf(got) == value)
  {
    var want := Unmarshal(value, grow);
    same := DeepEqual(got, want);
  }

  method Test<S(==,!new)>(doc: Val<S>, o: Operation<S>, grow: nat -> nat) returns (r: Option<Val<S>>)
    requires Sound(doc)
    ensures Agrees(r, Tested(JsonOf(doc), o))
    ensures r.Some? ==> r.value == doc
  {
    var toks := Tokens(o.path);
    if toks.None? {
      return None;
    }
    var got := GetVal(doc, toks.value);
    if got.None? || o.value.None? {
      return None;
    }
    var same := Matches(got.value, o.value.value, grow);
    r := if same then Some(doc) else None;
  }

  /** One operation, in place; the document stays a tree. */
  method ApplyOne<S(==,!new)>(doc: Val<S>, o: Operation<S>, grow: nat -> nat) returns (r: Option<Val<S>>)
    requires Sound(doc)
    modifies Foot(doc)
    ensures Agrees(r, ApplyOp(old(JsonOf(doc)), o))
    ensures r.Some? ==> forall x :: x in Foot(r.value) ==> x in old(Foot(doc)) || fresh(x)
  {
    if o.op == "add" || o.op == "replace" {
      if o.value.None? {
        return None;
      }
      var v := Unmarshal(o.value.value, grow);
      r := EditDoc(if o.op == "add" then Add(v) else Replace(v), doc, MustTokens(o.path), grow);
    } else if o.op == "remove" {
      var toks := Tokens(o.path);
      if toks.None? {
        return None;
      }
      r := EditDoc(Remove, doc, toks.value, grow);
    } else if o.op == "move" {
      r := Move(doc, o, grow);
    } else if o.op == "copy" {
      r := CopyOp(doc, o, grow);
    } else if o.op == "test" {
      r := Test(doc, o, grow);
    } else {
      r := None;
    }
  }

  /**
   Editing in place, operation by operation, computes the value-level semantics and touches
   nothing of the caller's.
   */
  method Apply<S(==,!new)>(document: Json<S>, ops: seq<Operation<S>>, grow: nat -> nat) returns (out: Option<Json<S>>)
    ensures out == ApplyAll(document, ops)
    ensures match out
      case Some(r) => exists docs :: Chain(document, ops, docs) && docs[|ops|] == r
      case None => exists k: nat, docs :: FailsAt(document, ops, k, docs)
  {
    var doc := Unmarshal(document, grow);
    for i := 0 to |ops|
      invariant Sound(doc) && forall o :: o in Foot(doc) ==> fresh(o)
      invariant ApplyAll(JsonOf(doc), ops[i..]) == ApplyAll(document, ops)
    {
      assert ops[i..][0] == ops[i] && ops[i..][1..] == ops[i + 1..];
      var next := ApplyOne(doc, ops[i], grow);
      if next.None? {
        PatchIsItsSteps(document, ops, document);
        return None;
      }
      doc := next.value;
    }
    var j := Marshal(doc);
    PatchIsItsSteps(document, ops, j);
    out := Some(j);
  }
}
