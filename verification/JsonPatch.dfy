/**
 JSON Patch (RFC 6902) on JSON values: what each operation computes, and the
 laws that relate them. Scalars are opaque values compared by equality.
 Errors are `None`; their texts are not modelled.
 */
module JsonPatch {
  import opened OrderedEntries
  import opened Slices
  import opened JsonPointer

  datatype Json<S> =
    | Scalar(s: S)
    | Object(members: map<string, Json<S>>)
    | Array(items: seq<Json<S>>)

  // ---------- array indices ----------

  const MAX_INT := 0x7FFF_FFFF_FFFF_FFFF

  predicate AllDigits(s: string) {
    forall i :: 0 <= i < |s| ==> '0' <= s[i] <= '9'
  }

  function Digit(c: char): (n: nat)
    requires '0' <= c <= '9'
  {
    c as int - '0' as int
  }

  function Decimal(s: string): (n: nat)
    requires AllDigits(s)
  {
    if s == [] then 0
    else
      10 * Decimal(s[..|s| - 1]) + Digit(s[|s| - 1])
  }

  /** strconv.Atoi: an optional sign, then at least one digit, within 64 bits. */
  function Atoi(s: string): Option<int> {
    var negative := s != "" && s[0] == '-';
    var body := if s != "" && (s[0] == '-' || s[0] == '+') then s[1..] else s;
    if body == "" || !AllDigits(body) then None
    else
      var n: int := Decimal(body);
      if negative then (if n > MAX_INT + 1 then None else Some(-n))
      else if n > MAX_INT then None
      else Some(n)
  }

  /** The number an array token stands for. "+1" and "-0" are numbers here, "01" is not. */
  function Number(tok: string): Option<nat> {
    if |tok| > 1 && tok[0] == '0' then None
    else
      match Atoi(tok)
      case Some(n) => if n < 0 then None else Some(n)
      case None => None
  }

  /** The position an array token resolves to; `allowEnd` also admits the position after the last element. */
  function ArrayIndex(tok: string, length: nat, allowEnd: bool): (r: Option<nat>)
    ensures r.Some? ==> if allowEnd then r.value <= length else r.value < length
  {
    if tok == "-" then (if allowEnd then Some(length) else None)
    else
      match Number(tok)
      case Some(n) => if n > (if allowEnd then length else length - 1) then None else Some(n)
      case None => None
  }

  // ---------- navigation ----------

  /** One resolved step: an object member or an array position. */
  datatype Step = Key(name: string) | At(i: nat)

  predicate Has<S>(d: Json<S>, s: Step) {
    match d
    case Object(m) => s.Key? && s.name in m
    case Array(items) => s.At? && s.i < |items|
    case Scalar(_) => false
  }

  function Child<S>(d: Json<S>, s: Step): (c: Json<S>)
    requires Has(d, s)
    ensures c < d
  {
    match d
    case Object(m) => m[s.name]
    case Array(items) => items[s.i]
  }

  function WithChild<S>(d: Json<S>, s: Step, c: Json<S>): Json<S>
    requires Has(d, s)
  {
    match d
    case Object(m) => Object(m[s.name := c])
    case Array(items) => Array(items[s.i := c])
  }

  function StepOf<S>(d: Json<S>, tok: string): (r: Option<Step>)
    ensures r.Some? ==> Has(d, r.value)
  {
    match d
    case Object(m) => if tok in m then Some(Key(tok)) else None
    case Array(items) =>
      (match ArrayIndex(tok, |items|, false)
       case Some(i) => Some(At(i))
       case None => None)
    case Scalar(_) => None
  }

  function GetAt<S>(d: Json<S>, toks: seq<string>): Option<Json<S>> {
    if toks == [] then Some(d)
    else
      match StepOf(d, toks[0])
      case Some(s) => GetAt(Child(d, s), toks[1..])
      case None => None
  }

  function GetPath<S>(d: Json<S>, p: seq<Step>): Option<Json<S>> {
    if p == [] then Some(d)
    else if Has(d, p[0]) then GetPath(Child(d, p[0]), p[1..])
    else None
  }

  // ---------- edits ----------

  datatype Edit<+J> = Add(value: J) | Replace(value: J) | Remove

  datatype Edited<S> = Edited(doc: Json<S>, removed: Option<Json<S>>)

  /** The edit at a member or position of `d` itself. */
  function EditHere<S>(e: Edit<Json<S>>, d: Json<S>, tok: string): Option<Edited<S>> {
    match d
    case Object(m) =>
      (match e
       case Add(v) => Some(Edited(Object(m[tok := v]), None))
       case Replace(v) => if tok in m then Some(Edited(Object(m[tok := v]), None)) else None
       case Remove => if tok in m then Some(Edited(Object(m - {tok}), Some(m[tok]))) else None)
    case Array(items) =>
      (match e
       case Add(v) =>
         (match ArrayIndex(tok, |items|, true)
          case Some(i) => Some(Edited(Array(InsertAt(items, i, v)), None))
          case None => None)
       case Replace(v) =>
         (match ArrayIndex(tok, |items|, false)
          case Some(i) => Some(Edited(Array(items[i := v]), None))
          case None => None)
       case Remove =>
         (match ArrayIndex(tok, |items|, false)
          case Some(i) => Some(Edited(Array(RemoveAt(items, i)), Some(items[i])))
          case None => None))
    case Scalar(_) => None
  }

  function EditAt<S>(e: Edit<Json<S>>, d: Json<S>, toks: seq<string>): Option<Edited<S>>
    decreases |toks|
  {
    if toks == [] then
      match e
      case Remove => None
      case _ => Some(Edited(e.value, None))
    else if |toks| == 1 then EditHere(e, d, toks[0])
    else
      match StepOf(d, toks[0])
      case None => None
      case Some(s) => Lifted(d, s, EditAt(e, Child(d, s), toks[1..]))
  }

  /** The rewritten child is written back. */
  function Lifted<S>(d: Json<S>, s: Step, r: Option<Edited<S>>): Option<Edited<S>>
    requires Has(d, s)
  {
    match r
    case None => None
    case Some(x) => Some(x.(doc := WithChild(d, s, x.doc)))
  }

  // ---------- operations ----------

  datatype Operation<S> = Operation(op: string, path: string, from: string, value: Option<Json<S>>)

  function DocOf<S>(r: Option<Edited<S>>): Option<Json<S>> {
    match r
    case Some(x) => Some(x.doc)
    case None => None
  }

  function ApplyOp<S(==)>(d: Json<S>, o: Operation<S>): Option<Json<S>> {
    if o.op == "add" then
      if o.value == None then None else DocOf(EditAt(Add(o.value.value), d, MustTokens(o.path)))
    else if o.op == "replace" then
      if o.value == None then None else DocOf(EditAt(Replace(o.value.value), d, MustTokens(o.path)))
    else if o.op == "remove" then
      match ParseTokens(o.path)
      case Some(toks) => DocOf(EditAt(Remove, d, toks))
      case None => None
    else if o.op == "move" then Moved(d, o)
    else if o.op == "copy" then Copied(d, o)
    else if o.op == "test" then Tested(d, o)
    else None
  }

  /** Remove, then add at a path that is resolved in what is left. */
  function Moved<S>(d: Json<S>, o: Operation<S>): Option<Json<S>> {
    match ParseTokens(o.from)
    case None => None
    case Some(toks) =>
      match EditAt(Remove, d, toks)
      case None => None
      case Some(r) => if r.removed == None then None else DocOf(EditAt(Add(r.removed.value), r.doc, MustTokens(o.path)))
  }

  function Copied<S>(d: Json<S>, o: Operation<S>): Option<Json<S>> {
    match ParseTokens(o.from)
    case None => None
    case Some(toks) =>
      match GetAt(d, toks)
      case None => None
      case Some(v) => DocOf(EditAt(Add(v), d, MustTokens(o.path)))
  }

  function Tested<S(==)>(d: Json<S>, o: Operation<S>): Option<Json<S>> {
    match ParseTokens(o.path)
    case None => None
    case Some(toks) => if GetAt(d, toks).Some? && o.value == GetAt(d, toks) then Some(d) else None
  }

  /** A failing operation leaves no document. */
  function ApplyAll<S(==)>(d: Json<S>, ops: seq<Operation<S>>): Option<Json<S>>
    decreases |ops|
  {
    if ops == [] then Some(d)
    else
      match ApplyOp(d, ops[0])
      case Some(next) => ApplyAll(next, ops[1..])
      case None => None
  }

  lemma {:induction false} RemoveReturnsValue<S>(d: Json<S>, toks: seq<string>)
    requires EditAt<S>(Remove, d, toks).Some?
    ensures EditAt<S>(Remove, d, toks).value.removed == GetAt(d, toks) && GetAt(d, toks).Some?
    decreases |toks|
  {
    if |toks| == 1 {
      assert toks[1..] == [];
    } else if |toks| > 1 {
      RemoveReturnsValue(Child(d, StepOf(d, toks[0]).value), toks[1..]);
    }
  }

  // ---------- undoing ----------

  /** `toks` names an absent member, or a concrete position, of an existing container. */
  ghost predicate Vacant<S>(d: Json<S>, toks: seq<string>)
    decreases |toks|
  {
    if toks == [] then false
    else if |toks| == 1 then
      match d
      case Object(m) => toks[0] !in m
      case Array(_) => toks[0] != "-"
      case Scalar(_) => false
    else StepOf(d, toks[0]).Some? && Vacant(Child(d, StepOf(d, toks[0]).value), toks[1..])
  }

  lemma StepOfKept<S>(d: Json<S>, tok: string, c: Json<S>)
    requires StepOf(d, tok).Some?
    ensures var s := StepOf(d, tok).value;
      StepOf(WithChild(d, s, c), tok) == Some(s) && Child(WithChild(d, s, c), s) == c
  {
  }

  lemma WithChildTwice<S>(d: Json<S>, s: Step, c: Json<S>, c': Json<S>)
    requires Has(d, s)
    ensures Has(WithChild(d, s, c), s) && WithChild(WithChild(d, s, c), s, c') == WithChild(d, s, c')
    ensures WithChild(d, s, Child(d, s)) == d
  {
    match d
    case Object(m) => assert m[s.name := m[s.name]] == m && m[s.name := c][s.name := c'] == m[s.name := c'];
    case Array(items) => assert items[s.i := items[s.i]] == items && items[s.i := c][s.i := c'] == items[s.i := c'];
    case Scalar(_) =>
  }

  lemma AddRemoveHere<S>(d: Json<S>, tok: string, v: Json<S>)
    requires EditHere(Add(v), d, tok).Some? && Vacant(d, [tok])
    ensures EditHere(Remove, EditHere(Add(v), d, tok).value.doc, tok) == Some(Edited(d, Some(v)))
  {
    match d
    case Object(m) => assert m[tok := v] - {tok} == m;
    case Array(items) =>
      var i := ArrayIndex(tok, |items|, true).value;
      var ins := InsertAt(items, i, v);
      assert ArrayIndex(tok, |ins|, false) == Some(i);
      assert RemoveAt(ins, i) == items && ins[i] == v;
    case Scalar(_) =>
  }

  /** Removing what was just added at a vacant place gives the old document back. */
  lemma {:induction false} AddThenRemove<S>(d: Json<S>, toks: seq<string>, v: Json<S>)
    requires EditAt(Add(v), d, toks).Some? && Vacant(d, toks)
    ensures EditAt(Remove, EditAt(Add(v), d, toks).value.doc, toks) == Some(Edited(d, Some(v)))
    decreases |toks|
  {
    if |toks| == 1 {
      assert toks == [toks[0]];
      AddRemoveHere(d, toks[0], v);
    } else {
      var s := StepOf(d, toks[0]).value;
      var c := EditAt(Add(v), Child(d, s), toks[1..]).value.doc;
      AddThenRemove(Child(d, s), toks[1..], v);
      StepOfKept(d, toks[0], c);
      WithChildTwice(d, s, c, Child(d, s));
    }
  }

  lemma RemoveAddHere<S>(d: Json<S>, tok: string)
    requires EditHere<S>(Remove, d, tok).Some?
    ensures var r := EditHere<S>(Remove, d, tok).value;
      r.removed.Some? && DocOf(EditHere(Add(r.removed.value), r.doc, tok)) == Some(d)
  {
    match d
    case Object(m) => assert (m - {tok})[tok := m[tok]] == m;
    case Array(items) =>
      var i := ArrayIndex(tok, |items|, false).value;
      assert ArrayIndex(tok, |items| - 1, true) == Some(i);
      assert InsertAt(RemoveAt(items, i), i, items[i]) == items;
    case Scalar(_) =>
  }

  /** Putting a removed value back at the same path gives the old document back. */
  lemma {:induction false} RemoveThenAdd<S>(d: Json<S>, toks: seq<string>)
    requires EditAt<S>(Remove, d, toks).Some?
    ensures var r := EditAt<S>(Remove, d, toks).value;
      r.removed.Some? && DocOf(EditAt(Add(r.removed.value), r.doc, toks)) == Some(d)
    decreases |toks|
  {
    if |toks| == 1 {
      RemoveAddHere(d, toks[0]);
    } else {
      var s := StepOf(d, toks[0]).value;
      var r := EditAt<S>(Remove, Child(d, s), toks[1..]).value;
      RemoveThenAdd(Child(d, s), toks[1..]);
      StepOfKept(d, toks[0], r.doc);
      WithChildTwice(d, s, r.doc, Child(d, s));
    }
  }

  lemma ReplaceHere<S>(d: Json<S>, tok: string, v: Json<S>)
    ensures DocOf(EditHere(Replace(v), d, tok)) ==
      match EditHere(Remove, d, tok)
      case Some(r) => DocOf(EditHere(Add(v), r.doc, tok))
      case None => None
  {
    match d
    case Object(m) =>
      if tok in m { assert (m - {tok})[tok := v] == m[tok := v]; }
    case Array(items) =>
      if ArrayIndex(tok, |items|, false).Some? {
        var i := ArrayIndex(tok, |items|, false).value;
        assert ArrayIndex(tok, |items| - 1, true) == Some(i);
        assert InsertAt(RemoveAt(items, i), i, v) == items[i := v];
      }
    case Scalar(_) =>
  }

  /** Section 4.3 of RFC 6902: replace is remove followed by add, failures included, below the root. */
  lemma {:induction false} ReplaceIsRemoveThenAdd<S>(d: Json<S>, toks: seq<string>, v: Json<S>)
    requires toks != []
    ensures DocOf(EditAt(Replace(v), d, toks)) ==
      match EditAt(Remove, d, toks)
      case Some(r) => DocOf(EditAt(Add(v), r.doc, toks))
      case None => None
    decreases |toks|
  {
    if |toks| == 1 {
      ReplaceHere(d, toks[0], v);
    } else if StepOf(d, toks[0]).Some? {
      var s := StepOf(d, toks[0]).value;
      ReplaceIsRemoveThenAdd(Child(d, s), toks[1..], v);
      if EditAt(Remove, Child(d, s), toks[1..]).Some? {
        var c := EditAt(Remove, Child(d, s), toks[1..]).value.doc;
        StepOfKept(d, toks[0], c);
        if EditAt(Add(v), c, toks[1..]).Some? {
          WithChildTwice(d, s, c, EditAt(Add(v), c, toks[1..]).value.doc);
        }
      }
    }
  }
}
