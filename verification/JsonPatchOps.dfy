/**
 Whole operations and whole patches: when each operation succeeds, what it leaves,
 and that a patch is its operations one after the other, all of them or none.
 */
module JsonPatchOps {
  import opened JsonPatch
  import opened JsonPatchLaws
  import opened JsonPointer
  import opened OrderedEntries

  // ---------- patches ----------

  /** One document per operation and one before: each is the result of its operation on the one before. */
  ghost predicate Chain<S>(d: Json<S>, ops: seq<Operation<S>>, docs: seq<Json<S>>) {
    && |docs| == |ops| + 1 && docs[0] == d
    && forall i :: 0 <= i < |ops| ==> ApplyOp(docs[i], ops[i]) == Some(docs[i + 1])
  }

  /** The operations before `k` succeed one after the other, operation `k` fails on what they left. */
  ghost predicate FailsAt<S>(d: Json<S>, ops: seq<Operation<S>>, k: nat, docs: seq<Json<S>>) {
    k < |ops| && Chain(d, ops[..k], docs) && ApplyOp(docs[k], ops[k]) == None
  }

  /** The documents that a patch goes through, up to the first failure. */
  lemma {:induction false} Steps<S>(d: Json<S>, ops: seq<Operation<S>>) returns (k: nat, docs: seq<Json<S>>)
    ensures match ApplyAll(d, ops)
      case Some(r) => k == |ops| && Chain(d, ops, docs) && docs[k] == r
      case None => FailsAt(d, ops, k, docs)
    decreases |ops|
  {
    if ops == [] || ApplyOp(d, ops[0]) == None {
      k, docs := 0, [d];
    } else {
      var next := ApplyOp(d, ops[0]).value;
      k, docs := Steps(next, ops[1..]);
      var front := if ApplyAll(d, ops).Some? then ops else ops[..k + 1];
      LongerChain(d, front, docs);
      assert ops[..k + 1][1..] == ops[1..][..k];
      k, docs := k + 1, [d] + docs;
    }
  }

  lemma LongerChain<S>(d: Json<S>, ops: seq<Operation<S>>, docs: seq<Json<S>>)
    ensures ops != [] && ApplyOp(d, ops[0]).Some? && Chain(ApplyOp(d, ops[0]).value, ops[1..], docs)
      ==> Chain(d, ops, [d] + docs)
  {
    hide ApplyOp;
    if ops != [] && ApplyOp(d, ops[0]).Some? && Chain(ApplyOp(d, ops[0]).value, ops[1..], docs) {
      var all := [d] + docs;
      forall i | 0 <= i < |ops|
        ensures ApplyOp(all[i], ops[i]) == Some(all[i + 1])
      {
        if i > 0 { assert ops[1..][i - 1] == ops[i] && all[i] == docs[i - 1] && all[i + 1] == docs[i]; }
      }
    }
  }

  /** There is at most one way through a patch. */
  lemma {:induction false} ChainIsApplyAll<S>(d: Json<S>, ops: seq<Operation<S>>, docs: seq<Json<S>>)
    requires Chain(d, ops, docs)
    ensures ApplyAll(d, ops) == Some(docs[|ops|])
    decreases |ops|
  {
    hide ApplyOp;
    if ops != [] {
      var rest := docs[1..];
      assert ApplyOp(docs[0], ops[0]) == Some(docs[1]);
      forall i | 0 <= i < |ops[1..]|
        ensures ApplyOp(rest[i], ops[1..][i]) == Some(rest[i + 1])
      {
        assert rest[i] == docs[i + 1] && rest[i + 1] == docs[i + 2] && ops[1..][i] == ops[i + 1];
      }
      ChainIsApplyAll(docs[1], ops[1..], rest);
    }
  }

  /** A patch `a + b` is `b` on what `a` leaves, and fails if either does. */
  lemma {:induction false} PatchConcat<S>(d: Json<S>, a: seq<Operation<S>>, b: seq<Operation<S>>)
    ensures ApplyAll(d, a + b) ==
      match ApplyAll(d, a)
      case Some(m) => ApplyAll(m, b)
      case None => None
    decreases |a|
  {
    hide ApplyOp;
    if a == [] {
      assert a + b == b;
    } else {
      assert (a + b)[0] == a[0] && (a + b)[1..] == a[1..] + b;
      if ApplyOp(d, a[0]).Some? { PatchConcat(ApplyOp(d, a[0]).value, a[1..], b); }
    }
  }

  /**
   A patch yields `r` exactly if its operations lead from `d` to `r`, and none exactly if one of
   them fails on the way.
   */
  lemma PatchIsItsSteps<S>(d: Json<S>, ops: seq<Operation<S>>, r: Json<S>)
    ensures ApplyAll(d, ops) == Some(r) <==> exists docs :: Chain(d, ops, docs) && docs[|ops|] == r
    ensures ApplyAll(d, ops) == None <==> exists k: nat, docs :: FailsAt(d, ops, k, docs)
  {
    hide ApplyOp;
    var k, docs := Steps(d, ops);
    forall docs' | Chain(d, ops, docs')
      ensures ApplyAll(d, ops) == Some(docs'[|ops|])
    {
      ChainIsApplyAll(d, ops, docs');
    }
    forall k': nat, docs' | FailsAt(d, ops, k', docs')
      ensures ApplyAll(d, ops) == None
    {
      ChainIsApplyAll(d, ops[..k'], docs');
      assert ops == ops[..k'] + ops[k'..];
      PatchConcat(d, ops[..k'], ops[k'..]);
    }
  }

  // ---------- when an edit succeeds ----------

  /** There is room: the root, a member of an object that exists or not, or a position or the end of an array. */
  ghost predicate CanAdd<S>(d: Json<S>, toks: seq<string>) {
    toks == [] ||
    (var last := |toks| - 1;
     match GetAt(d, toks[..last])
     case Some(Object(_)) => true
     case Some(Array(items)) =>
       toks[last] == "-" || exists i: nat :: Spells(toks[last], i) && i <= MAX_INT && i <= |items|
     case _ => false)
  }

  lemma {:induction false} AddIfRoom<S>(d: Json<S>, toks: seq<string>, v: Json<S>)
    ensures EditAt(Add(v), d, toks).Some? <==> CanAdd(d, toks)
    decreases |toks|
  {
    if |toks| == 1 {
      AddHereIfRoom(d, toks[0], v);
      assert toks[..0] == [];
    } else if |toks| > 1 {
      var last := |toks| - 1;
      assert toks[..last][0] == toks[0] && toks[..last][1..] == toks[1..][..last - 1];
      assert toks[1..][last - 1] == toks[last];
      if StepOf(d, toks[0]).Some? {
        AddIfRoom(Child(d, StepOf(d, toks[0]).value), toks[1..], v);
      }
    }
  }

  lemma AddHereIfRoom<S>(d: Json<S>, tok: string, v: Json<S>)
    ensures EditHere(Add(v), d, tok).Some? <==>
      match d
      case Object(_) => true
      case Array(items) => tok == "-" || exists i: nat :: Spells(tok, i) && i <= MAX_INT && i <= |items|
      case Scalar(_) => false
  {
    hide Spells, ArrayIndex;
    if d.Array? {
      forall i: nat
        ensures ArrayIndex(tok, |d.items|, true) == Some(i) <==>
          if tok == "-" then i == |d.items| else Spells(tok, i) && i <= MAX_INT && i <= |d.items|
      {
        IndexResolves(tok, |d.items|, true, i);
      }
      if tok == "-" {
        assert ArrayIndex(tok, |d.items|, true) == Some(|d.items|);
      } else if ArrayIndex(tok, |d.items|, true).Some? {
        assert Spells(tok, ArrayIndex(tok, |d.items|, true).value);
      }
    }
  }

  /** A replacement succeeds exactly at the root and at the places that can be read. */
  lemma {:induction false} ReplaceIfPresent<S>(d: Json<S>, toks: seq<string>, v: Json<S>)
    ensures EditAt(Replace(v), d, toks).Some? <==> GetAt(d, toks).Some?
    decreases |toks|
  {
    if |toks| == 1 {
      assert toks[1..] == [];
    } else if |toks| > 1 && StepOf(d, toks[0]).Some? {
      ReplaceIfPresent(Child(d, StepOf(d, toks[0]).value), toks[1..], v);
    }
  }

  // ---------- operations ----------

  /** Add: succeeds exactly if it has a value and there is room, and puts the value at the place. */
  lemma AddOp<S>(d: Json<S>, o: Operation<S>)
    requires o.op == "add"
    ensures ApplyOp(d, o).Some? <==> o.value.Some? && CanAdd(d, MustTokens(o.path))
    ensures ApplyOp(d, o).Some? ==>
      && ApplyOp(d, o) == DocOf(EditAt(Add(o.value.value), d, MustTokens(o.path)))
      && Resolve(d, MustTokens(o.path), true).Some?
      && GetPath(ApplyOp(d, o).value, Resolve(d, MustTokens(o.path), true).value) == o.value
  {
    if o.value.Some? {
      AddIfRoom(d, MustTokens(o.path), o.value.value);
      if CanAdd(d, MustTokens(o.path)) { GetAfterPut(Add(o.value.value), d, MustTokens(o.path)); }
    }
  }

  /**
   Replace: succeeds exactly if it has a value and the place can be read, and the place reads
   the value afterwards.
   */
  lemma ReplaceOp<S>(d: Json<S>, o: Operation<S>)
    requires o.op == "replace"
    ensures ApplyOp(d, o).Some? <==> o.value.Some? && GetAt(d, MustTokens(o.path)).Some?
    ensures ApplyOp(d, o).Some? ==>
      && ApplyOp(d, o) == DocOf(EditAt(Replace(o.value.value), d, MustTokens(o.path)))
      && Resolve(d, MustTokens(o.path), false).Some?
      && GetPath(ApplyOp(d, o).value, Resolve(d, MustTokens(o.path), false).value) == o.value
  {
    if o.value.Some? {
      ReplaceIfPresent(d, MustTokens(o.path), o.value.value);
      if GetAt(d, MustTokens(o.path)).Some? { GetAfterPut(Replace(o.value.value), d, MustTokens(o.path)); }
    }
  }

  /** Remove: succeeds exactly at a place below the root that can be read, and putting the value back undoes it. */
  lemma RemoveOp<S>(d: Json<S>, o: Operation<S>)
    requires o.op == "remove"
    ensures ApplyOp(d, o).Some? <==>
      ParseTokens(o.path).Some? && o.path != "" && GetAt(d, ParseTokens(o.path).value).Some?
    ensures ApplyOp(d, o).Some? ==>
      var toks := ParseTokens(o.path).value;
      DocOf(EditAt(Add(GetAt(d, toks).value), ApplyOp(d, o).value, toks)) == Some(d)
  {
    if ParseTokens(o.path).Some? {
      var toks := ParseTokens(o.path).value;
      RemoveIfPresent(d, toks);
      if EditAt<S>(Remove, d, toks).Some? {
        RemoveReturnsValue(d, toks);
        RemoveThenAdd(d, toks);
      }
    }
  }

  /** Test: succeeds exactly if it has a value and the place reads it, and leaves the document as it is. */
  lemma TestOp<S>(d: Json<S>, o: Operation<S>)
    requires o.op == "test"
    ensures ApplyOp(d, o) ==
      if ParseTokens(o.path).Some? && o.value.Some? && GetAt(d, ParseTokens(o.path).value) == o.value then Some(d)
      else None
  {
  }

  /** Copy: succeeds exactly if `from` can be read and there is room at `path`. */
  lemma CopySucceeds<S>(d: Json<S>, o: Operation<S>)
    requires o.op == "copy"
    ensures ApplyOp(d, o).Some? <==>
      ParseTokens(o.from).Some? && GetAt(d, ParseTokens(o.from).value).Some? && CanAdd(d, MustTokens(o.path))
    ensures ApplyOp(d, o) == Copied(d, o)
  {
    if ParseTokens(o.from).Some? && GetAt(d, ParseTokens(o.from).value).Some? {
      AddIfRoom(d, MustTokens(o.path), GetAt(d, ParseTokens(o.from).value).value);
    }
  }

  /** Move: succeeds exactly if `from` can be read below the root and there is room at `path` in what is left. */
  lemma MoveSucceeds<S>(d: Json<S>, o: Operation<S>)
    requires o.op == "move"
    ensures ApplyOp(d, o).Some? <==>
      && ParseTokens(o.from).Some? && o.from != "" && GetAt(d, ParseTokens(o.from).value).Some?
      && (var left := EditAt<S>(Remove, d, ParseTokens(o.from).value);
          left.Some? && CanAdd(left.value.doc, MustTokens(o.path)))
    ensures ApplyOp(d, o) == Moved(d, o)
  {
    if ParseTokens(o.from).Some? {
      var toks := ParseTokens(o.from).value;
      RemoveIfPresent(d, toks);
      if EditAt<S>(Remove, d, toks).Some? {
        RemoveReturnsValue(d, toks);
        AddIfRoom(EditAt<S>(Remove, d, toks).value.doc, MustTokens(o.path), GetAt(d, toks).value);
      }
    }
  }

  /** Any other name fails. */
  lemma UnknownOp<S>(d: Json<S>, o: Operation<S>)
    requires o.op !in {"add", "replace", "remove", "move", "copy", "test"}
    ensures ApplyOp(d, o) == None
  {
  }

  // ---------- the numbers that tokens spell ----------

  /** The decimal digits of a number, most significant first. */
  function Show(n: nat): (s: string)
    ensures s != "" && AllDigits(s)
  {
    var last := [('0' as int + n % 10) as char];
    if n < 10 then last else Show(n / 10) + last
  }

  /** The plain token of a position is its decimal form, and no other plain token spells it. */
  lemma {:induction false} ShowSpells(n: nat)
    ensures PlainIndex(Show(n)) && Decimal(Show(n)) == n
  {
    var s := Show(n);
    if n < 10 {
      assert s[..0] == "" && Decimal("") == 0;
      assert n == 0 ==> s == "0";
    } else {
      ShowSpells(n / 10);
      var front := Show(n / 10);
      assert s[..|s| - 1] == front && s[|s| - 1] == ('0' as int + n % 10) as char;
      assert s[0] == front[0];
      assert front != "0";
    }
  }

  lemma {:induction false} SpelledByShow(tok: string)
    requires PlainIndex(tok)
    ensures AllDigits(tok) && Show(Decimal(tok)) == tok
  {
    var last := |tok| - 1;
    assert tok == tok[..last] + [tok[last]];
    if last == 0 {
      assert tok[..0] == "" && Decimal("") == 0;
    } else {
      assert PlainIndex(tok[..last]);
      SpelledByShow(tok[..last]);
      Positive(tok[..last]);
    }
  }

  /** Without a leading zero the number is not zero. */
  lemma {:induction false} Positive(tok: string)
    requires tok != "" && '1' <= tok[0] <= '9' && AllDigits(tok)
    ensures Decimal(tok) > 0
  {
    if |tok| > 1 { Positive(tok[..|tok| - 1]); }
  }
}
