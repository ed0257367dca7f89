/**
 Slices over backing arrays: what the helpers of the B-tree do to the cells. An
 edit writes only to the slice's own backing array or to a new one, and a copy
 starts with a backing array of its own, so editing a clone leaves the node it
 was cloned from alone.
 */
module SliceCells {
  import opened Slices

  /** A slice header; the cells past `len` are spare. */
  datatype Slice<T> = Slice(arr: array<T>, off: nat, len: nat) {
    ghost predicate Valid() {
      off + len <= arr.Length
    }

    ghost function Elems(): (s: seq<T>)
      requires Valid()
      reads arr
      ensures |s| == len
    {
      arr[off..off + len]
    }
  }

  /** append([]T(nil), s...): the same elements in a backing array that nothing else uses. */
  method Copied<T(0)>(s: Slice<T>, spare: nat) returns (r: Slice<T>)
    requires s.Valid()
    ensures r.Valid() && fresh(r.arr) && r.Elems() == s.Elems()
    ensures r.off == 0 && r.arr.Length == s.len + spare
  {
    var a := new T[s.len + spare];
    forall j | 0 <= j < s.len {
      a[j] := s.arr[s.off + j];
    }
    r := Slice(a, 0, s.len);
  }

  /** append(s, v): in place while there is a spare cell. */
  method Append<T(0)>(s: Slice<T>, v: T, grow: nat -> nat) returns (r: Slice<T>)
    requires s.Valid()
    modifies s.arr
    ensures r.Valid() && (r.arr == s.arr || fresh(r.arr)) && r.Elems() == old(s.Elems()) + [v]
    ensures forall j :: 0 <= j < s.arr.Length && j != s.off + s.len ==> s.arr[j] == old(s.arr[j])
  {
    if s.off + s.len < s.arr.Length {
      r := s.(len := s.len + 1);
    } else {
      var c := Copied(s, 1 + grow(s.len));
      r := c.(len := s.len + 1);
    }
    r.arr[r.off + s.len] := v;
  }

  /** insertAt: append a cell, move the tail up, write the element. */
  method Insert<T(0)>(s: Slice<T>, i: nat, v: T, zero: T, grow: nat -> nat) returns (r: Slice<T>)
    requires s.Valid() && i <= s.len
    modifies s.arr
    ensures r.Valid() && (r.arr == s.arr || fresh(r.arr)) && r.Elems() == InsertAt(old(s.Elems()), i, v)
  {
    r := Append(s, zero, grow);
    assert r.arr[r.off..r.off + s.len] == r.Elems()[..s.len] == old(s.Elems());
    MoveUp(r.arr, r.off, s.len, i, v);
  }

  /** copy(s[i+1:], s[i:]), then s[i] = v. */
  method MoveUp<T>(a: array<T>, off: nat, n: nat, i: nat, v: T)
    requires i <= n && off + n < a.Length
    modifies a
    ensures a[off..off + n + 1] == InsertAt(old(a[off..off + n]), i, v)
  {
    var k := off + n;
    while k > off + i
      invariant off + i <= k <= off + n
      invariant forall x :: off <= x <= k && x < off + n ==> a[x] == old(a[x])
      invariant forall x :: k < x <= off + n ==> a[x] == old(a[x - 1])
    {
      a[k] := a[k - 1];
      k := k - 1;
    }
    a[off + i] := v;
    MovedUp(old(a[..]), a[..], off, n, i, v);
    assert old(a[..])[off..off + n] == old(a[off..off + n]) && a[..][off..off + n + 1] == a[off..off + n + 1];
  }

  lemma MovedUp<T>(was: seq<T>, now: seq<T>, off: nat, n: nat, i: nat, v: T)
    requires i <= n && off + n < |was| == |now| && now[off + i] == v
    requires forall x :: off <= x < off + i ==> now[x] == was[x]
    requires forall x :: off + i < x <= off + n ==> now[x] == was[x - 1]
    ensures now[off..off + n + 1] == InsertAt(was[off..off + n], i, v)
  {
    assert was[off..off + n][..i] == was[off..off + i] == now[off..off + i];
    assert was[off..off + n][i..] == was[off + i..off + n] == now[off + i + 1..off + n + 1];
    assert now[off..off + n + 1] == now[off..off + i] + [v] + now[off + i + 1..off + n + 1];
  }

  /** removeAt: move the tail down, drop the last cell from the slice. */
  method Remove<T>(s: Slice<T>, i: nat) returns (r: Slice<T>)
    requires s.Valid() && i < s.len
    modifies s.arr
    ensures r.Valid() && r.arr == s.arr && r.Elems() == RemoveAt(old(s.Elems()), i)
  {
    var a, off, n := s.arr, s.off, s.len;
    var k := off + i;
    while k < off + n - 1
      invariant off + i <= k < off + n
      invariant forall x :: off <= x < off + i ==> a[x] == old(a[x])
      invariant forall x :: off + i <= x < k ==> a[x] == old(a[x + 1])
      invariant forall x :: k <= x < off + n ==> a[x] == old(a[x])
    {
      a[k] := a[k + 1];
      k := k + 1;
    }
    r := s.(len := n - 1);
    MovedDown(old(a[..]), a[..], off, n, i);
    assert old(a[..])[off..off + n] == old(a[off..off + n]) && a[..][off..off + n - 1] == a[off..off + n - 1];
  }

  lemma MovedDown<T>(was: seq<T>, now: seq<T>, off: nat, n: nat, i: nat)
    requires i < n && off + n <= |was| == |now|
    requires forall x :: off <= x < off + i ==> now[x] == was[x]
    requires forall x :: off + i <= x < off + n - 1 ==> now[x] == was[x + 1]
    ensures now[off..off + n - 1] == RemoveAt(was[off..off + n], i)
  {
    assert was[off..off + n][..i] == was[off..off + i] == now[off..off + i];
    assert was[off..off + n][i + 1..] == was[off + i + 1..off + n] == now[off + i..off + n - 1];
    assert now[off..off + n - 1] == now[off..off + i] + now[off + i..off + n - 1];
  }

  /** Editing a copy leaves the original as it was. */
  method EditedCopy<T(0)>(s: Slice<T>, i: nat, v: T, zero: T, grow: nat -> nat) returns (r: Slice<T>)
    requires s.Valid() && i <= s.len
    ensures r.Valid() && fresh(r.arr) && r.Elems() == InsertAt(s.Elems(), i, v)
    ensures s.Elems() == old(s.Elems())
  {
    var c := Copied(s, 0);
    r := Insert(c, i, v, zero, grow);
  }
}
