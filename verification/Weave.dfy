/**
 In-order listings. A node with separators `es` and the listings `fs` of its
 children is listed as fs[0], es[0], fs[1], es[1], ... . The lemmas say how that
 listing reacts when one child, or two neighbours and their separator, change.
 */
module Weaving {

  /** Everything listed before child `i`. */
  function Before<E>(fs: seq<seq<E>>, es: seq<E>, i: nat): seq<E>
    requires i <= |fs| && i <= |es|
  {
    if i == 0 then [] else Before(fs, es, i - 1) + fs[i - 1] + [es[i - 1]]
  }

  /** Everything listed after child `i`. */
  function After<E>(fs: seq<seq<E>>, es: seq<E>, i: nat): seq<E>
    requires |fs| == |es| + 1 && i <= |es|
    decreases |es| - i
  {
    if i == |es| then [] else [es[i]] + fs[i + 1] + After(fs, es, i + 1)
  }

  function Weave<E>(fs: seq<seq<E>>, es: seq<E>): seq<E>
    requires |fs| == |es| + 1
  {
    fs[0] + After(fs, es, 0)
  }

  lemma {:induction false} Focus<E>(fs: seq<seq<E>>, es: seq<E>, i: nat)
    requires |fs| == |es| + 1 && i <= |es|
    ensures Weave(fs, es) == Before(fs, es, i) + fs[i] + After(fs, es, i)
  {
    if i > 0 {
      Focus(fs, es, i - 1);
      var b, f, e, g, a := Before(fs, es, i - 1), fs[i - 1], [es[i - 1]], fs[i], After(fs, es, i);
      assert b + f + (e + g + a) == b + f + e + g + a;
    }
  }

  lemma {:induction false} BeforeAgree<E>(fs: seq<seq<E>>, es: seq<E>, gs: seq<seq<E>>, ds: seq<E>, i: nat)
    requires i <= |fs| && i <= |es| && i <= |gs| && i <= |ds|
    requires forall j :: 0 <= j < i ==> fs[j] == gs[j]
    requires forall j :: 0 <= j < i ==> es[j] == ds[j]
    ensures Before(fs, es, i) == Before(gs, ds, i)
  {
    if i > 0 {
      BeforeAgree(fs, es, gs, ds, i - 1);
    }
  }

  lemma {:induction false} AfterAgree<E>(fs: seq<seq<E>>, es: seq<E>, i: nat, gs: seq<seq<E>>, ds: seq<E>, k: nat)
    requires |fs| == |es| + 1 && i <= |es| && |gs| == |ds| + 1 && k <= |ds|
    requires es[i..] == ds[k..] && fs[i + 1..] == gs[k + 1..]
    ensures After(fs, es, i) == After(gs, ds, k)
    decreases |es| - i
  {
    assert |es| - i == |es[i..]| == |ds[k..]| == |ds| - k;
    if i < |es| {
      assert es[i] == es[i..][0] == ds[k..][0] == ds[k];
      assert fs[i + 1] == fs[i + 1..][0] == gs[k + 1..][0] == gs[k + 1];
      assert es[i + 1..] == es[i..][1..] == ds[k..][1..] == ds[k + 1..];
      assert fs[i + 2..] == fs[i + 1..][1..] == gs[k + 1..][1..] == gs[k + 2..];
      AfterAgree(fs, es, i + 1, gs, ds, k + 1);
    }
  }

  lemma Regroup<E>(a: seq<E>, b: seq<E>, c: seq<E>, d: seq<E>, e: seq<E>)
    ensures a + b + (c + d + e) == (a + b + c) + d + e
  {
  }

  lemma RegroupPair<E>(a: seq<E>, b: seq<E>, c: seq<E>, d: seq<E>, e: seq<E>)
    ensures (a + b) + c + (d + e) == a + (b + c + d) + e
  {
  }

  lemma RegroupPlain<E>(a: seq<E>, b: seq<E>, c: seq<E>, d: seq<E>)
    ensures (a + b) + (c + d) == a + (b + c) + d
  {
  }

  lemma Uncons<E>(p: seq<E>, s: seq<E>)
    requires s != []
    ensures p + [s[0]] + s[1..] == p + s
  {
  }

  lemma Unsnoc<E>(s: seq<E>)
    requires s != []
    ensures s[..|s| - 1] + [s[|s| - 1]] == s
  {
  }

  /** Two listings joined by a separator. */
  lemma WeaveConcat<E>(fs: seq<seq<E>>, es: seq<E>, e: E, gs: seq<seq<E>>, ds: seq<E>)
    requires |fs| == |es| + 1 && |gs| == |ds| + 1
    ensures |fs + gs| == |es + [e] + ds| + 1
    ensures Weave(fs + gs, es + [e] + ds) == Weave(fs, es) + [e] + Weave(gs, ds)
  {
    var hs, xs, i := fs + gs, es + [e] + ds, |es|;
    Focus(hs, xs, i);
    Focus(fs, es, i);
    BeforeAgree(hs, xs, fs, es, i);
    assert xs[i + 1..] == ds[0..] && hs[i + 2..] == gs[1..];
    AfterAgree(hs, xs, i + 1, gs, ds, 0);
    var b, f, g, a := Before(fs, es, i), fs[i], gs[0], After(gs, ds, 0);
    assert After(hs, xs, i) == [e] + g + a;
    assert b + f + ([e] + g + a) == b + f + [e] + (g + a);
  }

  lemma WeaveReplace<E>(fs: seq<seq<E>>, es: seq<E>, i: nat, f: seq<E>)
    requires |fs| == |es| + 1 && i <= |es|
    ensures Weave(fs[i := f], es) == Before(fs, es, i) + f + After(fs, es, i)
  {
    var gs := fs[i := f];
    Focus(gs, es, i);
    BeforeAgree(fs, es, gs, es, i);
    AfterAgree(fs, es, i, gs, es, i);
  }

  /** Child `i` is replaced by two children and a new separator. */
  lemma WeaveSplit<E>(fs: seq<seq<E>>, es: seq<E>, i: nat, f: seq<E>, e: E, g: seq<E>)
    requires |fs| == |es| + 1 && i <= |es|
    ensures Weave(fs[..i] + [f, g] + fs[i + 1..], es[..i] + [e] + es[i..])
         == Before(fs, es, i) + (f + [e] + g) + After(fs, es, i)
  {
    var gs, ds := fs[..i] + [f, g] + fs[i + 1..], es[..i] + [e] + es[i..];
    Focus(gs, ds, i);
    BeforeAgree(fs, es, gs, ds, i);
    AfterAgree(fs, es, i, gs, ds, i + 1);
    var b, a := Before(fs, es, i), After(fs, es, i);
    assert After(gs, ds, i) == [e] + g + a;
    assert b + f + ([e] + g + a) == b + (f + [e] + g) + a;
  }

  /** Children `i` and `i + 1` and their separator are replaced by one child. */
  lemma WeaveMerge<E>(fs: seq<seq<E>>, es: seq<E>, i: nat, f: seq<E>)
    requires |fs| == |es| + 1 && i < |es|
    ensures var gs, ds := fs[..i] + [f] + fs[i + 2..], es[..i] + es[i + 1..];
            && Weave(gs, ds) == Before(fs, es, i) + f + After(fs, es, i + 1)
            && Before(gs, ds, i) == Before(fs, es, i)
            && After(gs, ds, i) == After(fs, es, i + 1)
  {
    var gs, ds := fs[..i] + [f] + fs[i + 2..], es[..i] + es[i + 1..];
    Focus(gs, ds, i);
    BeforeAgree(fs, es, gs, ds, i);
    AfterAgree(fs, es, i + 1, gs, ds, i);
  }

  /** Children `i` and `i + 1` and their separator are replaced by others. */
  lemma WeavePair<E>(fs: seq<seq<E>>, es: seq<E>, i: nat, f: seq<E>, e: E, g: seq<E>)
    requires |fs| == |es| + 1 && i < |es|
    ensures var gs, ds := fs[i := f][i + 1 := g], es[i := e];
            && Weave(gs, ds) == Before(fs, es, i) + (f + [e] + g) + After(fs, es, i + 1)
            && Before(gs, ds, i) == Before(fs, es, i)
            && After(gs, ds, i + 1) == After(fs, es, i + 1)
  {
    var gs, ds := fs[i := f][i + 1 := g], es[i := e];
    Focus(gs, ds, i);
    BeforeAgree(fs, es, gs, ds, i);
    AfterAgree(fs, es, i + 1, gs, ds, i + 1);
    var b, a := Before(fs, es, i), After(fs, es, i + 1);
    assert After(gs, ds, i) == [e] + g + a;
    assert b + f + ([e] + g + a) == b + (f + [e] + g) + a;
  }
}
