/**
 Document and store ids: strings in code-point order, the order of Go's `<` on
 valid UTF-8, and the sentinel that stands for "past every id".
 */
module Ids {
  import opened OrderedEntries

  predicate Before(a: string, b: string) {
    if b == "" then false
    else if a == "" then true
    else if a[0] == b[0] then Before(a[1..], b[1..])
    else a[0] < b[0]
  }

  lemma {:induction false} Irreflexive(a: string)
    ensures !Before(a, a)
  {
    if a != "" { Irreflexive(a[1..]); }
  }

  lemma {:induction false} Total(a: string, b: string)
    ensures a == b || Before(a, b) || Before(b, a)
  {
    if a != "" && b != "" && a[0] == b[0] {
      Total(a[1..], b[1..]);
      assert a == [a[0]] + a[1..] && b == [b[0]] + b[1..];
    }
  }

  lemma {:induction false} Transitive(a: string, b: string, c: string)
    requires Before(a, b) && Before(b, c)
    ensures Before(a, c)
  {
    if a != "" && a[0] == b[0] && b[0] == c[0] {
      Transitive(a[1..], b[1..], c[1..]);
    }
  }

  lemma BeforeIsTotalOrder()
    ensures TotalOrder(Before)
  {
    forall a: string ensures !Before(a, a) { Irreflexive(a); }
    forall a: string, b: string ensures a == b || Before(a, b) || Before(b, a) { Total(a, b); }
    forall a: string, b: string, c: string | Before(a, b) && Before(b, c) ensures Before(a, c) { Transitive(a, b, c); }
  }

  const TOP: char := '\U{10FFFF}'

  /** The sentinel bound of open-ended queries. */
  function MaxKey(): string {
    seq(2000, i => TOP)
  }

  /** The ids that a query up to the sentinel can list. */
  predicate Listed(id: string) {
    !Before(MaxKey(), id)
  }

  /** An id lies past the sentinel only by extending it. */
  lemma PastSentinel(id: string)
    ensures Listed(id) <==> !(MaxKey() < id)
  {
    PastTops(MaxKey(), id);
  }

  lemma {:induction false} PastTops(tops: string, id: string)
    requires forall i :: 0 <= i < |tops| ==> tops[i] == TOP
    ensures Before(tops, id) <==> tops < id
  {
    if tops != "" && id != "" {
      if id[0] == TOP {
        PastTops(tops[1..], id[1..]);
        assert tops == [TOP] + tops[1..] && id == [TOP] + id[1..];
      } else {
        assert tops[0] == TOP;
      }
    }
  }
}
