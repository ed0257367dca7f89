/**
 JSON Pointers (RFC 6901): parsing a path into reference tokens, and the
 escaping that parsing undoes.
 */
module JsonPointer {
  import opened OrderedEntries

  /** strings.ReplaceAll for a two-character pattern: left to right, without overlap. */
  function ReplaceAll(s: string, a: char, b: char, to: char): string {
    if |s| < 2 then s
    else if s[0] == a && s[1] == b then [to] + ReplaceAll(s[2..], a, b, to)
    else [s[0]] + ReplaceAll(s[1..], a, b, to)
  }

  /** strings.Split on one character. */
  function Split(s: string, sep: char): (parts: seq<string>)
    ensures parts != []
  {
    if s == [] then [[]]
    else
      var rest := Split(s[1..], sep);
      if s[0] == sep then [[]] + rest else [[s[0]] + rest[0]] + rest[1..]
  }

  function Join(parts: seq<string>, sep: char): string
    requires parts != []
  {
    if |parts| == 1 then parts[0] else parts[0] + [sep] + Join(parts[1..], sep)
  }

  /** The parts are the only separator-free pieces that make up the string. */
  lemma {:induction false} SplitJoin(s: string, sep: char)
    ensures Join(Split(s, sep), sep) == s && forall p :: p in Split(s, sep) ==> sep !in p
    ensures forall ps :: ps != [] && Join(ps, sep) == s && (forall p :: p in ps ==> sep !in p) ==> ps == Split(s, sep)
    decreases |s|
  {
    if s != [] {
      SplitJoin(s[1..], sep);
    }
    forall ps | ps != [] && Join(ps, sep) == s && (forall p :: p in ps ==> sep !in p)
      ensures ps == Split(s, sep)
    {
      SplitUnique(s, sep, ps);
    }
  }

  lemma {:induction false} SplitUnique(s: string, sep: char, ps: seq<string>)
    requires ps != [] && Join(ps, sep) == s && forall p :: p in ps ==> sep !in p
    ensures ps == Split(s, sep)
    decreases |s|
  {
    assert ps[0] in ps;
    if s == [] {
      assert ps == [[]];
    } else if ps[0] == [] {
      assert s == [sep] + Join(ps[1..], sep);
      SplitUnique(s[1..], sep, ps[1..]);
      assert ps == [[]] + ps[1..];
    } else {
      assert s[0] == ps[0][0];
      var qs := [ps[0][1..]] + ps[1..];
      assert qs[1..] == ps[1..];
      assert s[1..] == Join(qs, sep);
      assert forall p :: p in qs && sep in p ==> p == qs[0] && sep in ps[0];
      SplitUnique(s[1..], sep, qs);
      assert s[0] != sep;
      assert ps[0] == [s[0]] + qs[0] && ps == [ps[0]] + ps[1..];
    }
  }

  function Unescape(p: string): string {
    ReplaceAll(ReplaceAll(p, '~', '1', '/'), '~', '0', '~')
  }

  function UnescapeAll(ps: seq<string>): (r: seq<string>)
    ensures |r| == |ps|
  {
    seq(|ps|, i requires 0 <= i < |ps| => Unescape(ps[i]))
  }

  function ParseTokens(path: string): Option<seq<string>> {
    if path == "" then Some([])
    else if path[0] != '/' then None
    else Some(UnescapeAll(Split(path[1..], '/')))
  }

  /** The loop that decodes the parts in place. */
  method Tokens(path: string) returns (r: Option<seq<string>>)
    ensures r == ParseTokens(path)
  {
    if path == "" {
      return Some([]);
    }
    if path[0] != '/' {
      return None;
    }
    var split := Split(path[1..], '/');
    var parts := split;
    for i := 0 to |split|
      invariant |parts| == |split|
      invariant forall j :: 0 <= j < i ==> parts[j] == Unescape(split[j])
      invariant forall j :: i <= j < |split| ==> parts[j] == split[j]
    {
      var p := parts[i];
      p := ReplaceAll(p, '~', '1', '/');
      p := ReplaceAll(p, '~', '0', '~');
      parts := parts[i := p];
    }
    assert parts == UnescapeAll(split);
    r := Some(parts);
  }

  /** A malformed pointer is treated as the document root. */
  function MustTokens(path: string): seq<string> {
    match ParseTokens(path)
    case Some(t) => t
    case None => []
  }

  // ---------- escaping, section 3 of RFC 6901 ----------

  function Escape(t: string): string {
    if t == [] then []
    else (if t[0] == '~' then "~0" else if t[0] == '/' then "~1" else [t[0]]) + Escape(t[1..])
  }

  function Format(toks: seq<string>): string {
    if toks == [] then [] else "/" + Escape(toks[0]) + Format(toks[1..])
  }

  /** One left-to-right decoding pass; a stray "~" is kept. */
  function Decode(p: string): string {
    if |p| < 2 then p
    else if p[0] == '~' && p[1] == '1' then "/" + Decode(p[2..])
    else if p[0] == '~' && p[1] == '0' then "~" + Decode(p[2..])
    else [p[0]] + Decode(p[1..])
  }

  /** The first pass never produces a new "~", so the second pass sees the pairs of the original. */
  lemma {:induction false} TwoPassesAreOne(p: string)
    ensures Unescape(p) == Decode(p)
  {
    if |p| >= 2 {
      if p[0] == '~' && p[1] == '1' {
        TwoPassesAreOne(p[2..]);
        SlashFirst(ReplaceAll(p[2..], '~', '1', '/'));
      } else if p[0] == '~' && p[1] == '0' {
        TwoPassesAreOne(p[2..]);
        ZeroSecond(p);
      } else {
        TwoPassesAreOne(p[1..]);
        PlainFirst(p);
      }
    }
  }

  lemma SlashFirst(q: string)
    ensures ReplaceAll("/" + q, '~', '0', '~') == "/" + ReplaceAll(q, '~', '0', '~')
  {
    var s := "/" + q;
    if |s| >= 2 { assert s[1..] == q; }
  }

  lemma ZeroSecond(p: string)
    requires |p| >= 2 && p[0] == '~' && p[1] == '0'
    ensures Unescape(p) == "~" + Unescape(p[2..])
  {
    var r := ReplaceAll(p[2..], '~', '1', '/');
    var q := ReplaceAll(p[1..], '~', '1', '/');
    assert q == "0" + r by {
      if |p| >= 3 { assert p[1..][1..] == p[2..]; }
    }
    var first := ReplaceAll(p, '~', '1', '/');
    assert first == "~" + q;
    assert first[2..] == r;
  }

  lemma PlainFirst(p: string)
    requires |p| >= 2 && !(p[0] == '~' && (p[1] == '1' || p[1] == '0'))
    ensures Unescape(p) == [p[0]] + Unescape(p[1..])
  {
    var q := ReplaceAll(p[1..], '~', '1', '/');
    var first := ReplaceAll(p, '~', '1', '/');
    assert first == [p[0]] + q;
    FirstChar(p[1..]);
    assert first[1..] == q;
  }

  /** The first pass changes the first character only by turning a "~1" into "/". */
  lemma FirstChar(p: string)
    requires p != []
    ensures var q := ReplaceAll(p, '~', '1', '/');
      q != [] && (q[0] == p[0] || q[0] == '/')
  {
  }

  lemma {:induction false} DecodeEscape(t: string)
    ensures Decode(Escape(t)) == t
  {
    if t != [] {
      DecodeEscape(t[1..]);
      var e, r := Escape(t), Escape(t[1..]);
      if t[0] == '~' || t[0] == '/' {
        assert e[2..] == r;
      } else {
        assert e[0] == t[0] && e[1..] == r;
        if |e| < 2 { assert r == []; }
      }
    }
  }

  lemma {:induction false} EscapeHasNoSlash(t: string)
    ensures '/' !in Escape(t)
  {
    if t != [] {
      EscapeHasNoSlash(t[1..]);
    }
  }

  lemma {:induction false} SplitFirst(a: string, rest: string)
    requires '/' !in a
    ensures Split(a + "/" + rest, '/') == [a] + Split(rest, '/')
  {
    var s := a + "/" + rest;
    if a == [] {
      assert s[1..] == rest;
    } else {
      assert s[1..] == a[1..] + "/" + rest;
      assert s[0] == a[0] && a[0] in a;
      SplitFirst(a[1..], rest);
      assert [a[0]] + a[1..] == a;
    }
  }

  lemma {:induction false} SplitWhole(a: string)
    requires '/' !in a
    ensures Split(a, '/') == [a]
  {
    if a != [] {
      assert a[0] in a;
      SplitWhole(a[1..]);
      assert [a[0]] + a[1..] == a;
    }
  }

  function EscapeAll(ts: seq<string>): (r: seq<string>)
    ensures |r| == |ts|
  {
    if ts == [] then [] else [Escape(ts[0])] + EscapeAll(ts[1..])
  }

  lemma {:induction false} SplitFormat(toks: seq<string>)
    requires toks != []
    ensures Format(toks)[0] == '/' && Split(Format(toks)[1..], '/') == EscapeAll(toks)
  {
    hide Escape, Split;
    var e := Escape(toks[0]);
    EscapeHasNoSlash(toks[0]);
    if |toks| == 1 {
      assert Format(toks[1..]) == [];
      assert Format(toks)[1..] == e;
      SplitWhole(e);
      assert EscapeAll(toks[1..]) == [];
    } else {
      SplitFormat(toks[1..]);
      var rest := Format(toks[1..]);
      assert rest == "/" + rest[1..];
      assert Format(toks)[1..] == e + "/" + rest[1..];
      SplitFirst(e, rest[1..]);
    }
  }

  lemma {:induction false} UnescapeEscapeAll(toks: seq<string>)
    ensures UnescapeAll(EscapeAll(toks)) == toks
  {
    if toks != [] {
      UnescapeEscapeAll(toks[1..]);
      TwoPassesAreOne(Escape(toks[0]));
      DecodeEscape(toks[0]);
      var es := EscapeAll(toks);
      assert es[0] == Escape(toks[0]) && es[1..] == EscapeAll(toks[1..]);
      assert UnescapeAll(es)[1..] == UnescapeAll(es[1..]);
      assert UnescapeAll(es) == [Unescape(es[0])] + UnescapeAll(es)[1..];
    }
  }

  /** Parsing undoes formatting for every token list, empty tokens and "~" and "/" included. */
  lemma ParseFormat(toks: seq<string>)
    ensures ParseTokens(Format(toks)) == Some(toks)
  {
    if toks != [] {
      SplitFormat(toks);
      UnescapeEscapeAll(toks);
    }
  }
}
