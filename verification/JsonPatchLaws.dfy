/**
 What an edit does to every path of the document: the edited place reads the
 new value, array siblings at or past it shift by one, everything else stays.
 Paths are resolved steps, because one array token means different elements
 before and after an edit.
 */
module JsonPatchLaws {
  import opened OrderedEntries
  import opened Slices
  import opened JsonPointer
  import opened JsonPatch

  /** The step the last token resolves to; an added member or element need not exist yet. */
  function LastStep<S>(d: Json<S>, tok: string, adding: bool): Option<Step> {
    match d
    case Object(m) => if adding || tok in m then Some(Key(tok)) else None
    case Array(items) =>
      (match ArrayIndex(tok, |items|, adding)
       case Some(i) => Some(At(i))
       case None => None)
    case Scalar(_) => None
  }

  function Resolve<S>(d: Json<S>, toks: seq<string>, adding: bool): Option<seq<Step>>
    decreases |toks|
  {
    if toks == [] then Some([])
    else if |toks| == 1 then
      match LastStep(d, toks[0], adding)
      case Some(s) => Some([s])
      case None => None
    else
      match StepOf(d, toks[0])
      case None => None
      case Some(s) =>
        match Resolve(Child(d, s), toks[1..], adding)
        case Some(p) => Some([s] + p)
        case None => None
  }

  /** Reading by tokens is reading along the resolved path. */
  lemma {:induction false} GetAtResolves<S>(d: Json<S>, toks: seq<string>)
    ensures GetAt(d, toks) ==
      match Resolve(d, toks, false)
      case Some(p) => GetPath(d, p)
      case None => None
    ensures Resolve(d, toks, false).Some? ==> GetAt(d, toks).Some?
    decreases |toks|
  {
    if |toks| == 1 {
      assert toks[1..] == [];
      if LastStep(d, toks[0], false).Some? {
        var s := LastStep(d, toks[0], false).value;
        assert [s][1..] == [];
      }
    } else if |toks| > 1 && StepOf(d, toks[0]).Some? {
      var s := StepOf(d, toks[0]).value;
      GetAtResolves(Child(d, s), toks[1..]);
      if Resolve(Child(d, s), toks[1..], false).Some? {
        PathStep(d, s, Resolve(Child(d, s), toks[1..], false).value);
      }
    }
  }

  lemma PathStep<S>(d: Json<S>, s: Step, p: seq<Step>)
    requires Has(d, s)
    ensures GetPath(d, [s] + p) == GetPath(Child(d, s), p)
  {
    assert ([s] + p)[1..] == p;
  }

  /** An edit that succeeds has a resolved path, one step per token. */
  lemma {:induction false} EditResolves<S>(e: Edit<Json<S>>, d: Json<S>, toks: seq<string>)
    requires EditAt(e, d, toks).Some?
    ensures Resolve(d, toks, e.Add?).Some? && |Resolve(d, toks, e.Add?).value| == |toks|
    decreases |toks|
  {
    if |toks| > 1 {
      EditResolves(e, Child(d, StepOf(d, toks[0]).value), toks[1..]);
    }
  }

  /** After a successful add or replace the place reads the new value. */
  lemma {:induction false} GetAfterPut<S>(e: Edit<Json<S>>, d: Json<S>, toks: seq<string>)
    requires !e.Remove? && EditAt(e, d, toks).Some?
    ensures Resolve(d, toks, e.Add?).Some?
    ensures GetPath(EditAt(e, d, toks).value.doc, Resolve(d, toks, e.Add?).value) == Some(e.value)
    decreases |toks|
  {
    if |toks| == 1 {
      var r, s := EditAt(e, d, toks).value.doc, LastStep(d, toks[0], e.Add?).value;
      assert Has(r, s) && Child(r, s) == e.value;
      PathStep(r, s, []);
      assert [s] + [] == [s];
    } else if |toks| > 1 {
      var s := StepOf(d, toks[0]).value;
      var c := EditAt(e, Child(d, s), toks[1..]).value.doc;
      GetAfterPut(e, Child(d, s), toks[1..]);
      StepOfKept(d, toks[0], c);
      PathStep(WithChild(d, s, c), s, Resolve(Child(d, s), toks[1..], e.Add?).value);
    }
  }

  /**
   Path `q` leaves path `p` at another member, at a smaller array position, or at any other
   position above the edited one.
   */
  predicate Diverges<J>(e: Edit<J>, p: seq<Step>, q: seq<Step>) {
    p != [] && q != [] &&
    if p[0] == q[0] then Diverges(e, p[1..], q[1..])
    else |p| > 1 || e.Replace? || p[0].Key? || q[0].Key? || q[0].i < p[0].i
  }

  /** Every diverging path reads as before. */
  lemma {:induction false} EditFrame<S>(e: Edit<Json<S>>, d: Json<S>, toks: seq<string>, q: seq<Step>)
    requires EditAt(e, d, toks).Some?
    requires Resolve(d, toks, e.Add?).Some? && Diverges(e, Resolve(d, toks, e.Add?).value, q)
    ensures GetPath(EditAt(e, d, toks).value.doc, q) == GetPath(d, q)
    decreases |toks|
  {
    var r, p := EditAt(e, d, toks).value.doc, Resolve(d, toks, e.Add?).value;
    if |toks| == 1 {
      HereFrame(e, d, toks[0], q[0]);
    } else {
      var s := StepOf(d, toks[0]).value;
      var c := EditAt(e, Child(d, s), toks[1..]).value.doc;
      assert p[0] == s && p[1..] == Resolve(Child(d, s), toks[1..], e.Add?).value;
      if q[0] == s {
        EditFrame(e, Child(d, s), toks[1..], q[1..]);
      }
    }
  }

  lemma HereFrame<S>(e: Edit<Json<S>>, d: Json<S>, tok: string, s: Step)
    requires EditHere(e, d, tok).Some? && LastStep(d, tok, e.Add?).Some?
    requires var l := LastStep(d, tok, e.Add?).value; s != l && (e.Replace? || l.Key? || s.Key? || s.i < l.i)
    ensures var r := EditHere(e, d, tok).value.doc;
      Has(r, s) == Has(d, s) && (Has(d, s) ==> Child(r, s) == Child(d, s))
  {
  }

  /**
   Array siblings at or past an inserted element move up by one, past a removed one down by one;
   paths below move along.
   */
  lemma {:induction false} SiblingsShift<S>(e: Edit<Json<S>>, d: Json<S>, toks: seq<string>, j: nat, rest: seq<Step>)
    requires !e.Replace? && EditAt(e, d, toks).Some? && toks != []
    requires Resolve(d, toks, e.Add?).Some?
    requires var p := Resolve(d, toks, e.Add?).value; p != [] && p[|p| - 1].At? && p[|p| - 1].i <= j
    ensures var p := Resolve(d, toks, e.Add?).value;
      var pre := p[..|p| - 1];
      var (from, to) := if e.Add? then (j, j + 1) else (j + 1, j);
      GetPath(EditAt(e, d, toks).value.doc, pre + [At(to)] + rest) == GetPath(d, pre + [At(from)] + rest)
    decreases |toks|
  {
    hide GetPath, EditHere, ArrayIndex;
    var r, p := EditAt(e, d, toks).value.doc, Resolve(d, toks, e.Add?).value;
    var pre := p[..|p| - 1];
    var (from, to) := if e.Add? then (j, j + 1) else (j + 1, j);
    if |toks| == 1 {
      assert pre + [At(to)] + rest == [At(to)] + rest && pre + [At(from)] + rest == [At(from)] + rest;
      ShiftHere(e, d, toks[0], from, to, rest);
    } else {
      var s := StepOf(d, toks[0]).value;
      var c := EditAt(e, Child(d, s), toks[1..]).value.doc;
      var p' := Resolve(Child(d, s), toks[1..], e.Add?).value;
      EditResolves(e, Child(d, s), toks[1..]);
      SiblingsShift(e, Child(d, s), toks[1..], j, rest);
      var pre' := p'[..|p'| - 1];
      assert p == [s] + p' && pre == [s] + pre';
      PathBelow(r, s, pre', At(to), rest);
      PathBelow(d, s, pre', At(from), rest);
    }
  }

  lemma PathBelow<S>(d: Json<S>, s: Step, p: seq<Step>, x: Step, rest: seq<Step>)
    requires Has(d, s)
    ensures GetPath(d, ([s] + p) + [x] + rest) == GetPath(Child(d, s), p + [x] + rest)
  {
    assert ([s] + p) + [x] + rest == [s] + (p + [x] + rest);
    PathStep(d, s, p + [x] + rest);
  }

  lemma ShiftHere<S>(e: Edit<Json<S>>, d: Json<S>, tok: string, from: nat, to: nat, rest: seq<Step>)
    requires !e.Replace? && EditHere(e, d, tok).Some? && LastStep(d, tok, e.Add?).Some?
    requires var l := LastStep(d, tok, e.Add?).value;
      l.At? && (if e.Add? then l.i <= from && to == from + 1 else l.i <= to && from == to + 1)
    ensures GetPath(EditHere(e, d, tok).value.doc, [At(to)] + rest) == GetPath(d, [At(from)] + rest)
  {
    HereShift(e, d, tok, from, to);
    if Has(d, At(from)) {
      PathStep(d, At(from), rest);
      PathStep(EditHere(e, d, tok).value.doc, At(to), rest);
    }
  }

  lemma HereShift<S>(e: Edit<Json<S>>, d: Json<S>, tok: string, from: nat, to: nat)
    requires !e.Replace? && EditHere(e, d, tok).Some? && LastStep(d, tok, e.Add?).Some?
    requires var l := LastStep(d, tok, e.Add?).value;
      l.At? && (if e.Add? then l.i <= from && to == from + 1 else l.i <= to && from == to + 1)
    ensures var r := EditHere(e, d, tok).value.doc;
      Has(r, At(to)) == Has(d, At(from)) && (Has(d, At(from)) ==> Child(r, At(to)) == Child(d, At(from)))
  {
  }

  // ---------- move and copy ----------

  /** A successful move: the place `path` resolves to once the value is gone reads what `from` read before. */
  lemma MoveCarries<S>(d: Json<S>, o: Operation<S>)
    requires Moved(d, o).Some?
    ensures ParseTokens(o.from).Some? && EditAt<S>(Remove, d, ParseTokens(o.from).value).Some?
    ensures var rest := EditAt<S>(Remove, d, ParseTokens(o.from).value).value.doc;
      && GetAt(d, ParseTokens(o.from).value).Some?
      && Resolve(rest, MustTokens(o.path), true).Some?
      && GetPath(Moved(d, o).value, Resolve(rest, MustTokens(o.path), true).value)
         == GetAt(d, ParseTokens(o.from).value)
  {
    var r := EditAt<S>(Remove, d, ParseTokens(o.from).value).value;
    RemoveReturnsValue(d, ParseTokens(o.from).value);
    GetAfterPut(Add(r.removed.value), r.doc, MustTokens(o.path));
  }

  /** Moving to a vacant place and back gives the old document. */
  lemma MoveAndBack<S>(d: Json<S>, o: Operation<S>)
    requires Moved(d, o).Some? && ParseTokens(o.from).Some? && ParseTokens(o.path).Some?
    requires EditAt<S>(Remove, d, ParseTokens(o.from).value).Some?
    requires Vacant(EditAt<S>(Remove, d, ParseTokens(o.from).value).value.doc, ParseTokens(o.path).value)
    ensures Moved(Moved(d, o).value, o.(from := o.path, path := o.from)) == Some(d)
  {
    var r := EditAt<S>(Remove, d, ParseTokens(o.from).value).value;
    RemoveThenAdd(d, ParseTokens(o.from).value);
    AddThenRemove(r.doc, ParseTokens(o.path).value, r.removed.value);
  }

  /** A successful copy: the place `path` resolves to reads what `from` reads. */
  lemma CopyCarries<S>(d: Json<S>, o: Operation<S>)
    requires Copied(d, o).Some?
    ensures ParseTokens(o.from).Some? && GetAt(d, ParseTokens(o.from).value).Some?
    ensures Resolve(d, MustTokens(o.path), true).Some?
    ensures GetPath(Copied(d, o).value, Resolve(d, MustTokens(o.path), true).value)
         == GetAt(d, ParseTokens(o.from).value)
  {
    GetAfterPut(Add(GetAt(d, ParseTokens(o.from).value).value), d, MustTokens(o.path));
  }

  // ---------- three places where the code departs from the RFCs ----------

  /** The array element right after the one `toks` names, if there is one. */
  function NextSibling<S>(d: Json<S>, toks: seq<string>): Option<Json<S>>
    decreases |toks|
  {
    if toks == [] then None
    else if |toks| == 1 then
      match d
      case Array(items) =>
        (match ArrayIndex(toks[0], |items|, false)
         case Some(i) => if i + 1 < |items| then Some(items[i + 1]) else None
         case None => None)
      case _ => None
    else
      match StepOf(d, toks[0])
      case Some(s) => NextSibling(Child(d, s), toks[1..])
      case None => None
  }

  /** Two token lists name the same steps of `d`, as far as the first one goes. */
  ghost predicate GoesThrough<S>(d: Json<S>, toks: seq<string>, path: seq<string>)
    decreases |toks|
  {
    toks == [] ||
    (path != [] && StepOf(d, toks[0]).Some? && StepOf(d, path[0]) == StepOf(d, toks[0])
     && GoesThrough(Child(d, StepOf(d, toks[0]).value), toks[1..], path[1..]))
  }

  /** ... which is to resolve to the same steps. */
  lemma {:induction false} GoesThroughResolves<S>(d: Json<S>, toks: seq<string>, path: seq<string>)
    requires |toks| <= |path|
    ensures GoesThrough(d, toks, path) <==>
      Resolve(d, toks, false).Some? && Resolve(d, path[..|toks|], false) == Resolve(d, toks, false)
    decreases |toks|
  {
    if toks != [] {
      var pre := path[..|toks|];
      assert pre[0] == path[0] && pre[1..] == path[1..][..|toks| - 1];
      LastIsStep(d, toks[0]);
      LastIsStep(d, path[0]);
      if StepOf(d, toks[0]).Some? && StepOf(d, path[0]) == StepOf(d, toks[0]) {
        GoesThroughResolves(Child(d, StepOf(d, toks[0]).value), toks[1..], path[1..]);
      }
      ResolveHead(d, toks);
      ResolveHead(d, pre);
      if Resolve(d, toks, false).Some? && Resolve(d, pre, false) == Resolve(d, toks, false) {
        var s, s' := StepOf(d, toks[0]).value, StepOf(d, pre[0]).value;
        SameHead(s, Resolve(Child(d, s), toks[1..], false).value, s', Resolve(Child(d, s'), pre[1..], false).value);
      }
    }
  }

  lemma SameHead<E>(x: E, p: seq<E>, y: E, q: seq<E>)
    requires [x] + p == [y] + q
    ensures x == y && p == q
  {
    assert ([x] + p)[0] == x && ([y] + q)[0] == y;
    assert ([x] + p)[1..] == p && ([y] + q)[1..] == q;
  }

  lemma LastIsStep<S>(d: Json<S>, tok: string)
    ensures LastStep(d, tok, false) == StepOf(d, tok)
  {
  }

  /** Without an end position, resolving is the same at every token. */
  lemma ResolveHead<S>(d: Json<S>, toks: seq<string>)
    requires toks != []
    ensures Resolve(d, toks, false) ==
      match StepOf(d, toks[0])
      case None => None
      case Some(s) =>
        match Resolve(Child(d, s), toks[1..], false)
        case Some(p) => Some([s] + p)
        case None => None
  {
    LastIsStep(d, toks[0]);
    if |toks| == 1 && StepOf(d, toks[0]).Some? {
      assert toks[1..] == [];
      assert [StepOf(d, toks[0]).value] + [] == [StepOf(d, toks[0]).value];
    }
  }

  /**
   Section 4.4 of RFC 6902 forbids moving a value below itself. Here a move is
   remove then add, so it fails exactly when there is no next array element in
   which the rest of the path can be added. `path` need not spell the place as
   `toks` does: "/-0" names the element of "/0".
   */
  lemma {:induction false} MoveBelowItself<S>(d: Json<S>, toks: seq<string>, path: seq<string>, v: Json<S>)
    requires |toks| < |path| && EditAt<S>(Remove, d, toks).Some? && GoesThrough(d, toks, path)
    ensures EditAt(Add(v), EditAt<S>(Remove, d, toks).value.doc, path).Some? <==>
      NextSibling(d, toks).Some? && EditAt(Add(v), NextSibling(d, toks).value, path[|toks|..]).Some?
    decreases |toks|
  {
    var s := StepOf(d, toks[0]).value;
    assert path[1..][|toks| - 1..] == path[|toks|..];
    if |toks| == 1 {
      MoveHere(d, toks[0], path[0]);
    } else {
      var c := EditAt<S>(Remove, Child(d, s), toks[1..]).value.doc;
      StepOfKept(d, path[0], c);
      MoveBelowItself(Child(d, s), toks[1..], path[1..], v);
    }
  }

  lemma MoveHere<S>(d: Json<S>, tok: string, tok': string)
    requires EditHere<S>(Remove, d, tok).Some? && StepOf(d, tok') == StepOf(d, tok)
    ensures var d' := EditHere<S>(Remove, d, tok).value.doc;
      match StepOf(d', tok')
      case Some(s) => NextSibling(d, [tok]) == Some(Child(d', s))
      case None => NextSibling(d, [tok]) == None
  {
  }

  /** A second spelling: the path "/-0/x" goes through the place of "/0". */
  lemma OtherSpelling<S>(items: seq<Json<S>>)
    requires items != []
    ensures GoesThrough(Array(items), ["0"], ["-0", "x"])
  {
    assert "0"[..0] == "" && Decimal("0") == 0;
    assert "-0"[1..] == "0";
    assert ArrayIndex("0", |items|, false) == Some(0) == ArrayIndex("-0", |items|, false);
    assert ["0"][1..] == [];
  }

  /** The same for the operation: `path` goes through the place that `from` names, and on. */
  lemma MoveOpBelowItself<S>(d: Json<S>, o: Operation<S>)
    requires o.op == "move" && ParseTokens(o.from).Some? && ParseTokens(o.path).Some?
    requires |ParseTokens(o.from).value| < |ParseTokens(o.path).value|
    requires GoesThrough(d, ParseTokens(o.from).value, ParseTokens(o.path).value)
    ensures var toks, path := ParseTokens(o.from).value, ParseTokens(o.path).value;
      ApplyOp(d, o).Some? <==>
        NextSibling(d, toks).Some? && GetAt(d, toks).Some?
        && EditAt(Add(GetAt(d, toks).value), NextSibling(d, toks).value, path[|toks|..]).Some?
  {
    var toks, path := ParseTokens(o.from).value, ParseTokens(o.path).value;
    RemoveIfPresent(d, toks);
    assert ApplyOp(d, o) == Moved(d, o);
    if EditAt<S>(Remove, d, toks).Some? {
      RemoveReturnsValue(d, toks);
      MoveBelowItself(d, toks, path, GetAt(d, toks).value);
    }
  }

  /** A removal succeeds exactly at the places below the root that can be read. */
  lemma {:induction false} RemoveIfPresent<S>(d: Json<S>, toks: seq<string>)
    ensures EditAt<S>(Remove, d, toks).Some? <==> toks != [] && GetAt(d, toks).Some?
    decreases |toks|
  {
    if |toks| == 1 {
      assert toks[1..] == [];
    } else if |toks| > 1 && StepOf(d, toks[0]).Some? {
      RemoveIfPresent(Child(d, StepOf(d, toks[0]).value), toks[1..]);
    }
  }

  /** A concrete move below itself that succeeds: [ {}, {} ] with from "/0" and path "/0/x". */
  lemma MoveBelowItselfCanSucceed<S>()
    ensures var d := Json<S>.Array([Object(map[]), Object(map[])]);
      ApplyOp(d, Operation("move", "/0/x", "/0", None))
      == Some(Array([Object(map["x" := Object(map[])])]))
  {
    var e := Json<S>.Object(map[]);
    var d := Json<S>.Array([e, e]);
    var o := Operation<S>.Operation("move", "/0/x", "/0", None);
    hide ParseTokens, EditAt;
    TwoPointers();
    MoveInto(d, e);
    assert ApplyOp(d, o) == Moved(d, o);
  }

  lemma TwoPointers()
    ensures ParseTokens("/0") == Some(["0"]) && ParseTokens("/0/x") == Some(["0", "x"])
  {
    ParseFormat(["0"]);
    ParseFormat(["0", "x"]);
    assert Escape("0") == "0" && Escape("x") == "x";
    assert Format(["0"]) == "/0";
    assert ["0", "x"][1..] == ["x"] && Format(["x"]) == "/x";
  }

  lemma MoveInto<S>(d: Json<S>, e: Json<S>)
    requires e == Object(map[]) && d == Array([e, e])
    ensures EditAt<S>(Remove, d, ["0"]) == Some(Edited(Array([e]), Some(e)))
    ensures EditAt(Add(e), Array([e]), ["0", "x"]) == Some(Edited(Array([Object(map["x" := e])]), None))
  {
    assert Decimal("0") == 0;
    assert ArrayIndex("0", 2, false) == Some(0) && ArrayIndex("0", 1, false) == Some(0);
    assert RemoveAt(d.items, 0) == [e];
    var toks := ["0", "x"];
    assert toks[1..] == ["x"];
    assert EditAt(Add(e), e, ["x"]) == Some(Edited(Object(map["x" := e]), None));
    assert [e][0 := Object(map["x" := e])] == [Object(map["x" := e])];
  }

  /** The value that an operation with a malformed path would put at the root, if it has one. */
  ghost function RootValue<S>(d: Json<S>, o: Operation<S>): Option<Json<S>> {
    if o.op == "add" || o.op == "replace" then o.value
    else if o.op == "copy" && ParseTokens(o.from).Some? then GetAt(d, ParseTokens(o.from).value)
    else if o.op == "move" && ParseTokens(o.from).Some? && ParseTokens(o.from) != Some([]) then
      GetAt(d, ParseTokens(o.from).value)
    else None
  }

  /**
   A path that is not a pointer is taken for the root by the four operations that
   write: the value they add, copy or move becomes the whole document. Remove and
   test fail.
   */
  lemma MalformedPathIsRoot<S>(d: Json<S>, o: Operation<S>)
    requires ParseTokens(o.path) == None
    ensures ApplyOp(d, o) == RootValue(d, o)
  {
    if o.op == "move" {
      MalformedMove(d, o);
    }
  }

  lemma MalformedMove<S>(d: Json<S>, o: Operation<S>)
    requires ParseTokens(o.path) == None
    ensures Moved(d, o) ==
      if ParseTokens(o.from).Some? && ParseTokens(o.from) != Some([]) then GetAt(d, ParseTokens(o.from).value) else None
  {
    if ParseTokens(o.from).Some? {
      var toks := ParseTokens(o.from).value;
      RemoveIfPresent(d, toks);
      if EditAt<S>(Remove, d, toks).Some? { RemoveReturnsValue(d, toks); }
    }
  }

  /** Which paths are malformed, and when such an operation still yields a document. */
  lemma MalformedPathSucceeds<S>(d: Json<S>, o: Operation<S>)
    ensures ParseTokens(o.path) == None <==> o.path != "" && o.path[0] != '/'
    ensures ParseTokens(o.path) == None ==>
      (ApplyOp(d, o).Some? <==>
        || ((o.op == "add" || o.op == "replace") && o.value.Some?)
        || (o.op == "copy" && ParseTokens(o.from).Some? && GetAt(d, ParseTokens(o.from).value).Some?)
        || (o.op == "move" && ParseTokens(o.from).Some? && o.from != ""
            && GetAt(d, ParseTokens(o.from).value).Some?))
  {
    if ParseTokens(o.path) == None {
      MalformedPathIsRoot(d, o);
      assert o.from == "" <==> ParseTokens(o.from) == Some([]);
    }
  }

  /** The array index grammar of section 4 of RFC 6901: "0", or digits without a leading zero. */
  predicate PlainIndex(tok: string) {
    tok == "0" || (tok != "" && '1' <= tok[0] <= '9' && AllDigits(tok))
  }

  /** The tokens that stand for a number: the plain ones that fit 64 bits, and two signed forms the grammar excludes. */
  lemma IndexGrammar(tok: string)
    ensures Number(tok).Some? <==>
      || (PlainIndex(tok) && AllDigits(tok) && Decimal(tok) <= MAX_INT)
      || (|tok| > 1 && tok[0] == '+' && AllDigits(tok[1..]) && Decimal(tok[1..]) <= MAX_INT)
      || (|tok| > 1 && tok[0] == '-' && AllDigits(tok[1..]) && Decimal(tok[1..]) == 0)
    ensures PlainIndex(tok) && Number(tok).Some? ==> Number(tok).value == Decimal(tok)
  {
    hide Decimal;
    if |tok| == 1 {
      assert tok == [tok[0]];
    } else if |tok| > 1 && AllDigits(tok) {
      assert '0' <= tok[0] <= '9';
    }
  }

  /** The token spells the number `i`: plainly, with a plus sign, or as a negative zero. */
  predicate Spells(tok: string, i: nat) {
    || (PlainIndex(tok) && AllDigits(tok) && Decimal(tok) == i)
    || (|tok| > 1 && tok[0] == '+' && AllDigits(tok[1..]) && Decimal(tok[1..]) == i)
    || (|tok| > 1 && tok[0] == '-' && AllDigits(tok[1..]) && Decimal(tok[1..]) == i == 0)
  }

  /** Which tokens resolve to position `i` of an array, the end position included or not. */
  lemma IndexResolves(tok: string, length: nat, allowEnd: bool, i: nat)
    ensures ArrayIndex(tok, length, allowEnd) == Some(i) <==>
      if tok == "-" then allowEnd && i == length
      else Spells(tok, i) && i <= MAX_INT && i < length + if allowEnd then 1 else 0
  {
    hide Decimal;
    NumberSpells(tok, i);
  }

  lemma NumberSpells(tok: string, i: nat)
    ensures Number(tok) == Some(i) <==> Spells(tok, i) && i <= MAX_INT
  {
    hide Decimal;
    if |tok| == 1 {
      assert tok == [tok[0]];
    } else if |tok| > 1 && AllDigits(tok) {
      assert '0' <= tok[0] <= '9';
    }
  }
}
