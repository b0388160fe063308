/** Brace expansion (sh.glob.c): a word such as a{b,c}d stands for abd and acd. */
module Brace {
  datatype Outcome<T> = Ok(value: T) | Missing(c: char)

  // ---------------------------------------------------------------- the text of a brace

  /** Where the first bracket closes, from p on; the length of s when none does. */
  function BracketEnd(s: string, p: nat): (r: nat)
    requires p <= |s|
    ensures p <= r <= |s| && (r < |s| ==> s[r] == ']') && forall k | p <= k < r :: s[k] != ']'
    decreases |s| - p
  {
    if p == |s| || s[p] == ']' then p else BracketEnd(s, p + 1)
  }

  function First(s: string, c: char): (r: nat)
    ensures r <= |s| && (c in s <==> r < |s|) && (r < |s| ==> s[r] == c) && forall k | 0 <= k < r :: s[k] != c
  {
    if s == [] || s[0] == c then 0 else 1 + First(s[1..], c)
  }

  /** The closing brace for depth d, from p on. Text between brackets is skipped. */
  function Close(s: string, p: nat, d: nat): (r: Outcome<nat>)
    requires p <= |s|
    ensures r.Ok? ==> p <= r.value < |s| && s[r.value] == '}'
    decreases |s| - p
  {
    if p == |s| then Missing('}')
    else if s[p] == '[' then
      var e := BracketEnd(s, p + 1);
      if e == |s| then Missing(']') else Close(s, e + 1, d)
    else if s[p] == '{' then Close(s, p + 1, d + 1)
    else if s[p] == '}' then if d == 0 then Ok(p) else Close(s, p + 1, d - 1)
    else Close(s, p + 1, d)
  }

  predicate Ascending(r: seq<nat>) {
    forall j, k | 0 <= j < k < |r| :: r[j] < r[k]
  }

  predicate Within(r: seq<nat>, p: nat, e: nat) {
    forall k | 0 <= k < |r| :: p <= r[k] < e
  }

  lemma OneMore(p: nat, r: seq<nat>, e: nat)
    requires Ascending(r) && Within(r, p + 1, e) && p < e
    ensures Ascending([p] + r) && Within([p] + r, p, e)
  {
  }

  /** Where the alternatives end: the commas at depth 0, and the closing brace. */
  function Seps(s: string, p: nat, d: nat): (r: seq<nat>)
    requires p <= |s| && Close(s, p, d).Ok?
    ensures r != [] && r[|r| - 1] == Close(s, p, d).value
    ensures Ascending(r) && Within(r, p, |s|)
    decreases |s| - p
  {
    if s[p] == '[' then Seps(s, BracketEnd(s, p + 1) + 1, d)
    else if s[p] == '{' then Seps(s, p + 1, d + 1)
    else if s[p] == '}' then if d == 0 then [p] else Seps(s, p + 1, d - 1)
    else if s[p] == ',' && d == 0 then var r := Seps(s, p + 1, d); OneMore(p, r, |s|); [p] + r
    else Seps(s, p + 1, d)
  }

  /** From p at depth d to e, braces balance and no comma is at depth 0. */
  predicate Flat(s: string, p: nat, d: nat, e: nat)
    requires p <= |s|
    decreases |s| - p
  {
    if p >= e || p == |s| then p == e && d == 0
    else if s[p] == '[' then var b := BracketEnd(s, p + 1); b < |s| && Flat(s, b + 1, d, e)
    else if s[p] == '{' then Flat(s, p + 1, d + 1, e)
    else if s[p] == '}' then d > 0 && Flat(s, p + 1, d - 1, e)
    else (s[p] == ',' ==> d > 0) && Flat(s, p + 1, d, e)
  }

  /** Every piece after a cut is balanced and undivided, and the cuts are at commas. */
  ghost predicate Divided(s: string, r: seq<nat>) {
    forall k | 0 <= k < |r| - 1 :: r[k] < |s| && s[r[k]] == ',' && Flat(s, r[k] + 1, 0, r[k + 1])
  }

  lemma DividedMore(s: string, p: nat, q: seq<nat>)
    requires p < |s| && s[p] == ',' && q != [] && Divided(s, q) && Flat(s, p + 1, 0, q[0])
    ensures Divided(s, [p] + q)
  {
    hide Flat;
    var r := [p] + q;
    forall k | 0 <= k < |r| - 1 ensures r[k] < |s| && s[r[k]] == ',' && Flat(s, r[k] + 1, 0, r[k + 1]) {
      if k > 0 {
        var j := k - 1;
        assert q[j] < |s| && s[q[j]] == ',' && Flat(s, q[j] + 1, 0, q[j + 1]);
        assert r[k] == q[j] && r[k + 1] == q[j + 1];
      }
    }
  }

  /** What the cuts mean: the first piece, too, is balanced and undivided. */
  lemma {:induction false} SepsMeaning(s: string, p: nat, d: nat)
    requires p <= |s| && Close(s, p, d).Ok?
    ensures Flat(s, p, d, Seps(s, p, d)[0]) && Divided(s, Seps(s, p, d))
    decreases |s| - p
  {
    hide Divided;
    if s[p] == '[' {
      SepsMeaning(s, BracketEnd(s, p + 1) + 1, d);
    } else if s[p] == '{' {
      SepsMeaning(s, p + 1, d + 1);
    } else if s[p] == '}' {
      if d > 0 {
        SepsMeaning(s, p + 1, d - 1);
      } else {
        DividedOne(s, p);
      }
    } else {
      SepsMeaning(s, p + 1, d);
      if s[p] == ',' && d == 0 {
        DividedMore(s, p, Seps(s, p + 1, d));
      }
    }
  }

  lemma DividedOne(s: string, p: nat)
    ensures Divided(s, [p])
  {
  }

  /** The word for the piece from a to b. */
  function Word(s: string, pre: nat, a: nat, b: nat, pe: nat): string
    requires pre <= |s| && a <= b <= |s| && pe < |s|
  {
    s[..pre] + s[a..b] + s[pe + 1..]
  }

  /** The words for the pieces that end at seps, the first one starting at pl. */
  function Alternatives(s: string, pre: nat, pl: nat, seps: seq<nat>, pe: nat): (r: seq<string>)
    requires pre <= |s| && pe < |s| && Cuts(s, pl, seps)
    ensures |r| == |seps|
    decreases |seps|
  {
    if seps == [] then []
    else [Word(s, pre, pl, seps[0], pe)] + Alternatives(s, pre, seps[0] + 1, seps[1..], pe)
  }

  predicate Cuts(s: string, pl: nat, seps: seq<nat>) {
    Ascending(seps) && forall k | 0 <= k < |seps| :: pl <= seps[k] < |s|
  }

  /** What one brace stands for: the word once for each alternative of its first brace. */
  function Once(s: string): (r: Outcome<seq<string>>)
    requires '{' in s
    ensures r.Ok? ==> r.value != []
  {
    var p := First(s, '{');
    match Close(s, p + 1, 0)
    case Missing(c) => Missing(c)
    case Ok(pe) =>
      Ok(Alternatives(s, p, p + 1, Seps(s, p + 1, 0), pe))
  }

  // ---------------------------------------------------------------- what a brace stands for

  /** The pieces with commas between them. */
  function Commas(pieces: seq<string>): string {
    if pieces == [] then [] else if |pieces| == 1 then pieces[0] else pieces[0] + "," + Commas(pieces[1..])
  }

  /** A piece between commas: its braces balance, no comma is outside of them, and its brackets are closed. */
  predicate Piece(t: string) {
    Flat(t, 0, 0, |t|)
  }

  predicate AllPieces(pieces: seq<string>) {
    forall k | 0 <= k < |pieces| :: Piece(pieces[k])
  }

  /** The word s is pre, a brace with the pieces in it, and post. */
  predicate Braced(s: string, pre: string, pieces: seq<string>, post: string) {
    && '{' !in pre && pieces != [] && s == pre + "{" + Commas(pieces) + "}" + post
    && AllPieces(pieces)
  }

  /** pre + piece + post for each piece. */
  function Filled(pre: string, pieces: seq<string>, post: string): (r: seq<string>)
    ensures |r| == |pieces| && forall k | 0 <= k < |pieces| :: r[k] == pre + pieces[k] + post
  {
    seq(|pieces|, k requires 0 <= k < |pieces| => pre + pieces[k] + post)
  }

  lemma {:induction false} BracketWithin(s: string, q: nat, a: nat, e: nat)
    requires a <= q <= e <= |s|
    ensures var b := BracketEnd(s, q); BracketEnd(s[a..e], q - a) == (if b < e then b else e) - a
    decreases e - q
  {
    if q < e && s[q] != ']' {
      BracketWithin(s, q + 1, a, e);
    }
  }

  /** Whether a part of a word is flat depends on that part only. */
  lemma {:induction false} FlatWithin(s: string, p: nat, d: nat, e: nat, a: nat)
    requires a <= p <= e <= |s|
    ensures Flat(s, p, d, e) <==> Flat(s[a..e], p - a, d, e - a)
    decreases e - p
  {
    if p < e {
      if s[p] == '[' {
        BracketWithin(s, p + 1, a, e);
        var b := BracketEnd(s, p + 1);
        if b < e {
          FlatWithin(s, b + 1, d, e, a);
        }
      } else if s[p] == '{' {
        FlatWithin(s, p + 1, d + 1, e, a);
      } else if s[p] == '}' {
        if d > 0 {
          FlatWithin(s, p + 1, d - 1, e, a);
        }
      } else {
        FlatWithin(s, p + 1, d, e, a);
      }
    }
  }

  /** The scans pass over what is flat. */
  lemma {:induction false} FlatPassed(s: string, p: nat, d: nat, e: nat)
    requires p <= e <= |s| && Flat(s, p, d, e)
    ensures Close(s, p, d) == Close(s, e, 0)
    ensures Close(s, e, 0).Ok? ==> Seps(s, p, d) == Seps(s, e, 0)
    decreases e - p
  {
    if p < e {
      if s[p] == '[' {
        var b := BracketEnd(s, p + 1);
        if b < e {
          FlatPassed(s, b + 1, d, e);
        }
      } else if s[p] == '{' {
        FlatPassed(s, p + 1, d + 1, e);
      } else if s[p] == '}' {
        FlatPassed(s, p + 1, d - 1, e);
      } else {
        FlatPassed(s, p + 1, d, e);
      }
    }
  }

  /** What the scans find where pieces begin, and the words that are made of them. */
  lemma {:induction false} PiecesFound(s: string, n: nat, p: nat, pieces: seq<string>, post: string)
    requires n <= p <= |s| && pieces != [] && s[p..] == Commas(pieces) + "}" + post
    requires AllPieces(pieces)
    ensures var pe := p + |Commas(pieces)|;
            && Close(s, p, 0) == Ok(pe) && s[pe + 1..] == post
            && Cuts(s, p, Seps(s, p, 0))
            && Alternatives(s, n, p, Seps(s, p, 0), pe) == Filled(s[..n], pieces, post)
    decreases |pieces|
  {
    hide Close, Seps, Alternatives, Word, Flat, Commas, Cuts;
    var t := pieces[0];
    var e, pe := p + |t|, p + |Commas(pieces)|;
    PieceSplit(s, p, pieces, post);
    FlatWithin(s, p, 0, e, p);
    FlatPassed(s, p, 0, e);
    if |pieces| == 1 {
      LastPiece(s, n, p, e);
      assert Filled(s[..n], pieces, post) == [s[..n] + t + post];
    } else {
      var rest := pieces[1..];
      PiecesFound(s, n, e + 1, rest, post);
      OtherPiece(s, n, p, e, pe);
      assert Filled(s[..n], pieces, post) == [s[..n] + t + post] + Filled(s[..n], rest, post);
    }
  }

  /** The text of the first piece, and what is behind it. */
  lemma PieceSplit(s: string, p: nat, pieces: seq<string>, post: string)
    requires p <= |s| && pieces != [] && s[p..] == Commas(pieces) + "}" + post
    ensures var e := p + |pieces[0]|;
            && e < |s| && s[p..e] == pieces[0]
            && if |pieces| == 1 then s[e] == '}' && s[e + 1..] == post && e == p + |Commas(pieces)|
               else s[e] == ',' && s[e + 1..] == Commas(pieces[1..]) + "}" + post
                    && e + 1 + |Commas(pieces[1..])| == p + |Commas(pieces)|
  {
    var t := pieces[0];
    if |pieces| == 1 {
      assert Commas(pieces) == t;
      PartsOf(s, p, t, '}', post);
    } else {
      var more := Commas(pieces[1..]);
      assert Commas(pieces) == t + "," + more;
      assert t + "," + more + "}" + post == t + [','] + (more + "}" + post);
      PartsOf(s, p, t, ',', more + "}" + post);
    }
  }

  lemma PartsOf(s: string, p: nat, t: string, c: char, rest: string)
    requires p <= |s| && s[p..] == t + [c] + rest
    ensures var e := p + |t|; e < |s| && s[p..e] == t && s[e] == c && s[e + 1..] == rest
  {
    var e := p + |t|;
    assert s[p..e] == s[p..][..|t|] && s[e] == s[p..][|t|] && s[e + 1..] == s[p..][|t| + 1..];
  }

  lemma LastPiece(s: string, n: nat, p: nat, e: nat)
    requires n <= p <= e < |s| && s[e] == '}'
    ensures Close(s, e, 0) == Ok(e) && Seps(s, e, 0) == [e] && Cuts(s, p, [e])
    ensures Alternatives(s, n, p, [e], e) == [s[..n] + s[p..e] + s[e + 1..]]
  {
    assert Alternatives(s, n, e + 1, [e][1..], e) == [];
  }

  lemma OtherPiece(s: string, n: nat, p: nat, e: nat, pe: nat)
    requires n <= p <= e < |s| && s[e] == ',' && Close(s, e + 1, 0) == Ok(pe) && Cuts(s, e + 1, Seps(s, e + 1, 0))
    ensures Close(s, e, 0) == Ok(pe) && Seps(s, e, 0) == [e] + Seps(s, e + 1, 0)
    ensures Cuts(s, p, Seps(s, e, 0))
    ensures Alternatives(s, n, p, Seps(s, e, 0), pe)
         == [s[..n] + s[p..e] + s[pe + 1..]] + Alternatives(s, n, e + 1, Seps(s, e + 1, 0), pe)
  {
    var r := Seps(s, e + 1, 0);
    OneMore(e, r, |s|);
    assert ([e] + r)[1..] == r;
  }

  lemma FirstBehind(pre: string, rest: string)
    requires '{' !in pre && rest != [] && rest[0] == '{'
    ensures '{' in pre + rest && First(pre + rest, '{') == |pre|
  {
    var s := pre + rest;
    assert s[|pre|] == '{';
    assert forall k | 0 <= k < |pre| :: s[k] == pre[k] && s[k] in pre;
  }

  /** A word with a brace stands for what is in front of it, each of the pieces, and what is behind it. */
  lemma OnceMeaning(s: string, pre: string, pieces: seq<string>, post: string)
    requires Braced(s, pre, pieces, post)
    ensures '{' in s && Once(s) == Ok(Filled(pre, pieces, post))
  {
    hide Close, Seps, Alternatives, Commas, First, AllPieces;
    var n := |pre|;
    BracedParts(s, pre, Commas(pieces), post);
    PiecesFound(s, n, n + 1, pieces, post);
  }

  lemma BracedParts(s: string, pre: string, inside: string, post: string)
    requires '{' !in pre && s == pre + "{" + inside + "}" + post
    ensures var n := |pre|; '{' in s && First(s, '{') == n && s[..n] == pre && s[n + 1..] == inside + "}" + post
  {
    hide First;
    var rest := "{" + inside + "}" + post;
    assert s == pre + rest;
    FirstBehind(pre, rest);
    assert s[|pre| + 1..] == rest[1..];
  }

  /** The pieces between cuts. */
  function Between(s: string, pl: nat, seps: seq<nat>): (r: seq<string>)
    requires Cuts(s, pl, seps)
    ensures |r| == |seps|
    decreases |seps|
  {
    if seps == [] then []
    else
      var e := seps[0];
      [s[pl..e]] + Between(s, e + 1, seps[1..])
  }

  lemma {:induction false} BetweenPieces(s: string, pl: nat, seps: seq<nat>)
    requires Cuts(s, pl, seps) && seps != [] && Divided(s, seps) && Flat(s, pl, 0, seps[0])
    ensures Commas(Between(s, pl, seps)) == s[pl..seps[|seps| - 1]]
    ensures AllPieces(Between(s, pl, seps))
    decreases |seps|
  {
    hide Flat, Divided, Cuts, Piece, Commas;
    var rest := seps[1..];
    CutsRest(s, pl, seps);
    FlatWithin(s, pl, 0, seps[0], pl);
    FlatIsPiece(s, pl, seps[0]);
    if rest != [] {
      DividedRest(s, seps);
      BetweenPieces(s, seps[0] + 1, rest);
    }
    BetweenStep(s, pl, seps);
  }

  lemma CutsRest(s: string, pl: nat, seps: seq<nat>)
    requires Cuts(s, pl, seps) && seps != []
    ensures pl <= seps[0] <= seps[|seps| - 1] < |s| && Cuts(s, seps[0] + 1, seps[1..])
  {
  }

  lemma DividedRest(s: string, seps: seq<nat>)
    requires Divided(s, seps) && |seps| > 1 && seps[0] < |s|
    ensures s[seps[0]] == ',' && Flat(s, seps[0] + 1, 0, seps[1]) && Divided(s, seps[1..])
  {
    hide Flat;
    var rest := seps[1..];
    forall k | 0 <= k < |rest| - 1
      ensures rest[k] < |s| && s[rest[k]] == ',' && Flat(s, rest[k] + 1, 0, rest[k + 1])
    {
      assert rest[k] == seps[k + 1] && rest[k + 1] == seps[k + 2];
    }
  }

  lemma FlatIsPiece(s: string, a: nat, b: nat)
    requires a <= b <= |s| && Flat(s[a..b], 0, 0, b - a)
    ensures Piece(s[a..b])
  {
  }

  lemma BetweenStep(s: string, pl: nat, seps: seq<nat>)
    requires Cuts(s, pl, seps) && seps != [] && Cuts(s, seps[0] + 1, seps[1..]) && pl <= seps[0] < |s|
    requires var e, rest := seps[0], seps[1..];
             && Piece(s[pl..e])
             && (rest != [] ==>
                   && s[e] == ',' && e < seps[|seps| - 1]
                   && Commas(Between(s, e + 1, rest)) == s[e + 1..seps[|seps| - 1]]
                   && AllPieces(Between(s, e + 1, rest)))
    ensures Commas(Between(s, pl, seps)) == s[pl..seps[|seps| - 1]]
    ensures AllPieces(Between(s, pl, seps))
  {
    hide Piece, Cuts;
    CutsRest(s, pl, seps);
    var e, last := seps[0], seps[|seps| - 1];
    var more := Between(s, e + 1, seps[1..]);
    assert Between(s, pl, seps) == [s[pl..e]] + more;
    if |seps| > 1 {
      assert ([s[pl..e]] + more)[1..] == more;
      assert s[pl..last] == s[pl..e] + "," + s[e + 1..last];
    }
  }

  /** A word has a meaning only if it is of that form. */
  lemma OnceExactly(s: string)
    requires '{' in s
    ensures Once(s).Ok? <==> exists pre, pieces, post :: Braced(s, pre, pieces, post)
  {
    hide Close, Seps, Alternatives, Flat, Divided, First, Braced;
    if Once(s).Ok? {
      var p := First(s, '{');
      var pe, seps := Close(s, p + 1, 0).value, Seps(s, p + 1, 0);
      SepsMeaning(s, p + 1, 0);
      var pieces := Between(s, p + 1, seps);
      BetweenPieces(s, p + 1, seps);
      BracedHere(s, p, pe, pieces);
    }
    forall pre, pieces, post | Braced(s, pre, pieces, post) ensures Once(s).Ok? {
      OnceMeaning(s, pre, pieces, post);
    }
  }

  lemma BracedHere(s: string, p: nat, pe: nat, pieces: seq<string>)
    requires p < pe < |s| && s[p] == '{' && s[pe] == '}' && '{' !in s[..p]
    requires pieces != [] && Commas(pieces) == s[p + 1..pe] && AllPieces(pieces)
    ensures Braced(s, s[..p], pieces, s[pe + 1..])
  {
    hide Commas, Piece;
    InFive(s, p, pe);
  }

  lemma InFive(s: string, p: nat, pe: nat)
    requires p < pe < |s| && s[p] == '{' && s[pe] == '}'
    ensures s == s[..p] + "{" + s[p + 1..pe] + "}" + s[pe + 1..]
  {
    assert s[..pe] == s[..p] + "{" + s[p + 1..pe];
    assert s == s[..pe] + "}" + s[pe + 1..];
  }

  /** A bracket is open at the end of s. */
  predicate OpenBracket(s: string, p: nat) {
    exists q | p <= q < |s| :: s[q] == '[' && forall k | q < k < |s| :: s[k] != ']'
  }

  /** What is said to be missing: a closing bracket exactly if one is. */
  lemma {:induction false} WhatIsMissing(s: string, p: nat, d: nat)
    requires p <= |s|
    ensures match Close(s, p, d) case Ok(_) => true case Missing(c) => c == if OpenBracket(s, p) then ']' else '}'
    decreases |s| - p
  {
    if p == |s| {
    } else if s[p] == '[' {
      var e := BracketEnd(s, p + 1);
      if e < |s| {
        WhatIsMissing(s, e + 1, d);
        OpenBehind(s, p, e);
      }
    } else {
      OpenNext(s, p);
      if s[p] == '{' {
        WhatIsMissing(s, p + 1, d + 1);
      } else if s[p] != '}' {
        WhatIsMissing(s, p + 1, d);
      } else if d > 0 {
        WhatIsMissing(s, p + 1, d - 1);
      }
    }
  }

  lemma OpenBehind(s: string, p: nat, e: nat)
    requires p < e < |s| && s[e] == ']'
    ensures OpenBracket(s, p) <==> OpenBracket(s, e + 1)
  {
  }

  lemma OpenNext(s: string, p: nat)
    requires p < |s| && s[p] != '['
    ensures OpenBracket(s, p) <==> OpenBracket(s, p + 1)
  {
  }

  // ---------------------------------------------------------------- fewer braces

  function Opens(s: string): nat {
    if s == [] then 0 else (if s[0] == '{' then 1 else 0) + Opens(s[1..])
  }

  lemma {:induction false} OpensAppend(a: string, b: string)
    ensures Opens(a + b) == Opens(a) + Opens(b)
  {
    if a == [] {
      assert a + b == b;
    } else {
      OpensAppend(a[1..], b);
      assert (a + b)[1..] == a[1..] + b;
    }
  }

  lemma OpensSplit(s: string, a: nat, b: nat)
    requires a <= b <= |s|
    ensures Opens(s[..b]) == Opens(s[..a]) + Opens(s[a..b])
  {
    OpensAppend(s[..a], s[a..b]);
    assert s[..a] + s[a..b] == s[..b];
  }

  function Most(ws: seq<string>): (r: nat)
    ensures forall k | 0 <= k < |ws| :: Opens(ws[k]) <= r
  {
    if ws == [] then 0 else if Opens(ws[0]) > Most(ws[1..]) then Opens(ws[0]) else Most(ws[1..])
  }

  lemma MostBelow(ws: seq<string>, n: nat)
    requires forall k | 0 <= k < |ws| :: Opens(ws[k]) < n
    requires ws != []
    ensures Most(ws) < n
  {
  }

  /** Every alternative has fewer opening braces than the word. */
  lemma {:induction false} AlternativesFewer(s: string, pre: nat, pl: nat, seps: seq<nat>, pe: nat)
    requires pre < pl && pre < |s| && s[pre] == '{' && pe < |s| && Cuts(s, pl, seps)
    requires forall k | 0 <= k < |seps| :: seps[k] <= pe
    ensures forall k | 0 <= k < |seps| :: Opens(Alternatives(s, pre, pl, seps, pe)[k]) < Opens(s)
    decreases |seps|
  {
    if seps != [] {
      AlternativeFewer(s, pre, pl, seps[0], pe);
      AlternativesFewer(s, pre, seps[0] + 1, seps[1..], pe);
    }
  }

  lemma OpensBrace(s: string)
    requires s != [] && s[0] == '{'
    ensures Opens(s) > 0
  {
  }

  lemma AlternativeFewer(s: string, pre: nat, a: nat, b: nat, pe: nat)
    requires pre < a <= b <= pe < |s| && s[pre] == '{'
    ensures Opens(Word(s, pre, a, b, pe)) < Opens(s)
  {
    hide Opens;
    OpensBrace(s[pre..a]);
    OpensSplit(s, pre, a);
    OpensSplit(s, a, b);
    OpensSplit(s, b, pe + 1);
    OpensSplit(s, pe + 1, |s|);
    assert s[..|s|] == s && s[pe + 1..|s|] == s[pe + 1..];
    OpensAppend(s[..pre] + s[a..b], s[pe + 1..]);
    OpensAppend(s[..pre], s[a..b]);
  }

  lemma OnceFewer(s: string)
    requires '{' in s && Once(s).Ok?
    ensures Most(Once(s).value) < Opens(s)
  {
    hide Most, Opens, Alternatives, Close, First, Seps;
    var p := First(s, '{');
    var pe, seps := Close(s, p + 1, 0).value, Seps(s, p + 1, 0);
    AlternativesFewer(s, p, p + 1, seps, pe);
    MostBelow(Once(s).value, Opens(s));
  }

  // ---------------------------------------------------------------- full expansion

  /** Words that are left alone: "{" and "{}", for find, and those without a brace. */
  predicate Plain(s: string) {
    s == "{" || s == "{}" || '{' !in s
  }

  function Expand(s: string): Outcome<seq<string>>
    decreases Opens(s), 0
  {
    if Plain(s) then Ok([s])
    else
      match Once(s)
      case Missing(c) => Missing(c)
      case Ok(alts) => OnceFewer(s); ExpandAll(alts)
  }

  /** The expansions of the words in order, or the first thing that is missing. */
  function ExpandAll(ws: seq<string>): Outcome<seq<string>>
    decreases Most(ws), |ws| + 1
  {
    if ws == [] then Ok([]) else Then(Expand(ws[0]), ExpandAll(ws[1..]))
  }

  /** The expansion of a word in terms of its text: words without a brace and a pair of braces alone stay, a
      word of the form pre{pieces}post becomes the expansions of pre, a piece and post, and in any other one
      something is missing. */
  lemma ExpandMeaning(s: string, pre: string, pieces: seq<string>, post: string)
    ensures s == "{" || s == "{}" || '{' !in s ==> Expand(s) == Ok([s])
    ensures Braced(s, pre, pieces, post) && s != "{" && s != "{}" ==>
              Expand(s) == ExpandAll(Filled(pre, pieces, post))
    ensures '{' in s && s != "{" && s != "{}" && (forall a, ps, b :: !Braced(s, a, ps, b)) ==>
              Expand(s) == Missing(if OpenBracket(s, First(s, '{') + 1) then ']' else '}')
  {
    hide Braced, Close, Alternatives, Seps, ExpandAll, OpenBracket;
    if Braced(s, pre, pieces, post) {
      OnceMeaning(s, pre, pieces, post);
    } else if '{' in s {
      OnceExactly(s);
      WhatIsMissing(s, First(s, '{') + 1, 0);
    }
  }

  function Then(a: Outcome<seq<string>>, b: Outcome<seq<string>>): Outcome<seq<string>> {
    if a.Missing? then a else if b.Missing? then b else Ok(a.value + b.value)
  }

  lemma {:induction false} ExpandAllAppend(a: seq<string>, b: seq<string>)
    ensures ExpandAll(a + b) == Then(ExpandAll(a), ExpandAll(b))
  {
    hide Expand;
    if a == [] {
      assert a + b == b;
      assert ExpandAll(b).Ok? ==> [] + ExpandAll(b).value == ExpandAll(b).value;
    } else {
      ExpandAllAppend(a[1..], b);
      assert (a + b)[1..] == a[1..] + b && (a + b)[0] == a[0];
      ThenAssociates(Expand(a[0]), ExpandAll(a[1..]), ExpandAll(b));
    }
  }

  lemma ThenAssociates(a: Outcome<seq<string>>, b: Outcome<seq<string>>, c: Outcome<seq<string>>)
    ensures Then(Then(a, b), c) == Then(a, Then(b, c))
  {
    if a.Ok? && b.Ok? && c.Ok? {
      assert (a.value + b.value) + c.value == a.value + (b.value + c.value);
    }
  }

  /** Nothing is left to expand: expanding the result again changes nothing. */
  lemma {:induction false} ExpandedArePlain(s: string)
    ensures Expand(s).Ok? ==> forall k | 0 <= k < |Expand(s).value| :: Plain(Expand(s).value[k])
    decreases Opens(s), 0
  {
    if !Plain(s) && Once(s).Ok? {
      OnceFewer(s);
      AllArePlain(Once(s).value);
    }
  }

  lemma {:induction false} AllArePlain(ws: seq<string>)
    ensures ExpandAll(ws).Ok? ==> forall k | 0 <= k < |ExpandAll(ws).value| :: Plain(ExpandAll(ws).value[k])
    decreases Most(ws), |ws| + 1
  {
    if ws != [] {
      ExpandedArePlain(ws[0]);
      AllArePlain(ws[1..]);
    }
  }

  lemma {:induction false} PlainStay(ws: seq<string>)
    requires forall k | 0 <= k < |ws| :: Plain(ws[k])
    ensures ExpandAll(ws) == Ok(ws)
  {
    if ws != [] {
      PlainStay(ws[1..]);
      assert [ws[0]] + ws[1..] == ws;
    }
  }

  lemma ExpandTwice(ws: seq<string>)
    requires ExpandAll(ws).Ok?
    ensures ExpandAll(ExpandAll(ws).value) == ExpandAll(ws)
  {
    AllArePlain(ws);
    PlainStay(ExpandAll(ws).value);
  }

  // ---------------------------------------------------------------- globbrace

  /** The balance check of globbrace, from the text after the brace. */
  method FindClose(s: string, p: nat) returns (r: Outcome<nat>)
    requires p <= |s|
    ensures r == Close(s, p, 0)
  {
    var i, pe := 0, p;
    while pe < |s|
      invariant p <= pe <= |s| && i >= 0 && Close(s, p, 0) == Close(s, pe, i)
    {
      if s[pe] == '[' {
        // braces and commas in brackets do not count
        pe := SkipBracket(s, pe + 1);
        if pe == |s| {
          return Missing(']');
        }
      } else if s[pe] == '{' {
        i := i + 1;
      } else if s[pe] == '}' {
        if i == 0 {
          break;
        }
        i := i - 1;
      }
      pe := pe + 1;
    }
    if i != 0 || pe == |s| {
      return Missing('}');
    }
    return Ok(pe);
  }

  method SkipBracket(s: string, p: nat) returns (e: nat)
    requires p <= |s|
    ensures e == BracketEnd(s, p)
  {
    e := p;
    while e < |s| && s[e] != ']'
      invariant p <= e <= |s| && BracketEnd(s, p) == BracketEnd(s, e)
    {
      e := e + 1;
    }
  }

  /** globbrace: one word for each alternative of the first brace. */
  method GlobBrace(s: string) returns (r: Outcome<seq<string>>)
    requires '{' in s
    ensures r == Once(s)
  {
    // the words start with what is in front of the brace
    var p := 0;
    while s[p] != '{'
      invariant p <= First(s, '{')
      decreases |s| - p
    {
      p := p + 1;
    }
    FirstIs(s, p);
    var prefixLen := p;
    p := p + 1;
    // where the brace is closed
    var close := FindClose(s, p);
    if close.Missing? {
      return Missing(close.c);
    }
    var pe := close.value;
    var bb := CutAlternatives(s, prefixLen, p, pe);
    return Ok(bb);
  }

  lemma FirstIs(s: string, p: nat)
    requires p <= First(s, '{') < |s| && s[p] == '{'
    ensures p == First(s, '{')
  {
    assert s[p] in s[..p + 1];
  }

  /** One step of the cutting loop, at pm with i braces open. */
  lemma SepsStep(s: string, pm: nat, i: nat, pe: nat)
    requires pm <= |s| && Close(s, pm, i) == Ok(pe)
    ensures pm <= pe < |s|
    ensures if s[pm] == '}' && i == 0 then pm == pe && Seps(s, pm, i) == [pe] + []
            else
              var q := if s[pm] == '[' then BracketEnd(s, pm + 1) + 1 else pm + 1;
              var j := if s[pm] == '{' then i + 1 else if s[pm] == '}' then i - 1 else i;
              && pm < q <= pe && Close(s, q, j) == Ok(pe)
              && Seps(s, pm, i) == if s[pm] == ',' && i == 0 then [pm] + Seps(s, q, j) else Seps(s, q, j)
  {
  }

  /** The cutting loop at pm with i braces open: the words of the pieces before pl are done. */
  ghost predicate Cutting(s: string, pre: nat, pl: nat, pm: nat, i: nat, pe: nat, bb: seq<string>, all: seq<string>) {
    && pre <= |s| && pl <= pm <= |s| && Close(s, pm, i) == Ok(pe) && Cuts(s, pl, Seps(s, pm, i))
    && all == bb + Alternatives(s, pre, pl, Seps(s, pm, i), pe)
  }

  lemma CuttingBegins(s: string, pre: nat, p: nat, pe: nat)
    requires pre <= |s| && p <= |s| && Close(s, p, 0) == Ok(pe)
    ensures Cutting(s, pre, p, p, 0, pe, [], Alternatives(s, pre, p, Seps(s, p, 0), pe)) && p <= pe
  {
    hide Close, Seps, Alternatives;
    var all := Alternatives(s, pre, p, Seps(s, p, 0), pe);
    assert [] + all == all;
  }

  lemma CutStep(s: string, pre: nat, pl: nat, pm: nat, i: nat, pe: nat, bb: seq<string>, all: seq<string>)
    requires Cutting(s, pre, pl, pm, i, pe, bb, all)
    ensures pm <= pe < |s|
    ensures if (s[pm] == '}' || s[pm] == ',') && i == 0 then
              var words := bb + [Word(s, pre, pl, pm, pe)];
              if s[pm] == '}' then pm == pe && all == words else Cutting(s, pre, pm + 1, pm + 1, 0, pe, words, all)
            else
              var q := if s[pm] == '[' then BracketEnd(s, pm + 1) + 1 else pm + 1;
              var j := if s[pm] == '{' then i + 1 else if s[pm] == '}' then i - 1 else i;
              q <= pe && Cutting(s, pre, pl, q, j, pe, bb, all)
  {
    hide Close, Seps, Alternatives, BracketEnd, Word, Cuts;
    SepsStep(s, pm, i, pe);
    if (s[pm] == '}' || s[pm] == ',') && i == 0 {
      CutHere(s, pre, pl, pm, if s[pm] == '}' then [] else Seps(s, pm + 1, i), pe, bb, all);
    }
  }

  lemma CutHere(
    s: string, pre: nat, pl: nat, pm: nat, next: seq<nat>, pe: nat, bb: seq<string>, all: seq<string>)
    requires pre <= |s| && pe < |s| && pl <= pm < |s| && Cuts(s, pl, [pm] + next)
    requires all == bb + Alternatives(s, pre, pl, [pm] + next, pe)
    ensures Cuts(s, pm + 1, next)
    ensures all == bb + [Word(s, pre, pl, pm, pe)] + Alternatives(s, pre, pm + 1, next, pe)
    ensures next == [] ==> all == bb + [Word(s, pre, pl, pm, pe)]
  {
    hide Alternatives, Word, Cuts;
    CutsRest(s, pl, [pm] + next);
    assert ([pm] + next)[1..] == next;
    AlternativesStep(s, pre, pl, pm, next, pe);
    var rest := Alternatives(s, pre, pm + 1, next, pe);
    assert bb + ([Word(s, pre, pl, pm, pe)] + rest) == (bb + [Word(s, pre, pl, pm, pe)]) + rest;
  }

  lemma AlternativesStep(s: string, pre: nat, pl: nat, pm: nat, next: seq<nat>, pe: nat)
    requires pre <= |s| && pe < |s| && pl <= pm < |s| && Cuts(s, pm + 1, next) && Cuts(s, pl, [pm] + next)
    ensures Alternatives(s, pre, pl, [pm] + next, pe)
         == [Word(s, pre, pl, pm, pe)] + Alternatives(s, pre, pm + 1, next, pe)
    ensures next == [] ==> Alternatives(s, pre, pm + 1, next, pe) == []
  {
    hide Word;
    assert ([pm] + next)[1..] == next;
  }

  method CutAlternatives(s: string, pre: nat, p: nat, pe: nat) returns (bb: seq<string>)
    requires pre <= |s| && p <= |s| && Close(s, p, 0) == Ok(pe)
    ensures bb == Alternatives(s, pre, p, Seps(s, p, 0), pe)
  {
    hide Close, Seps, BracketEnd, Alternatives, Word, Cutting;
    bb := [];
    var i, pl, pm := 0, p, p;
    ghost var all := Alternatives(s, pre, p, Seps(s, p, 0), pe);
    CuttingBegins(s, pre, p, pe);
    while pm <= pe
      invariant p <= pl <= pm <= pe + 1 && i >= 0 && pe < |s|
      invariant if pm <= pe then Cutting(s, pre, pl, pm, i, pe, bb, all) else all == bb
      decreases pe + 1 - pm
    {
      CutStep(s, pre, pl, pm, i, pe, bb, all);
      if s[pm] == '[' {
        pm := SkipBracket(s, pm + 1);
      } else if s[pm] == '{' {
        i := i + 1;
      } else if (s[pm] == '}' || s[pm] == ',') && i == 0 {
        bb := bb + [Word(s, pre, pl, pm, pe)];
        pl := pm + 1;
      } else if s[pm] == '}' {
        i := i - 1;
      }
      pm := pm + 1;
    }
  }

  // ---------------------------------------------------------------- expbrace

  /** An entry of an argument vector. */
  datatype Slot = Null | Text(s: string)

  /** The vector's first words are ws, then a null. */
  predicate Holds(nv: array<Slot>, ws: seq<string>)
    reads nv
  {
    |ws| < nv.Length && nv[|ws|] == Null && forall k | 0 <= k < |ws| :: nv[k] == Text(ws[k])
  }

  /** The steps that the expansion of the words takes. */
  function Work(ws: seq<string>): nat
    decreases Most(ws), |ws| + 1
  {
    if ws == [] then 0 else Steps(ws[0]) + Work(ws[1..])
  }

  function Steps(s: string): nat
    decreases Opens(s), 0
  {
    if Plain(s) || Once(s).Missing? then 1 else OnceFewer(s); 1 + Work(Once(s).value)
  }

  lemma {:induction false} WorkAppend(a: seq<string>, b: seq<string>)
    ensures Work(a + b) == Work(a) + Work(b)
  {
    hide Steps;
    if a == [] {
      assert a + b == b;
    } else {
      WorkAppend(a[1..], b);
      assert (a + b)[1..] == a[1..] + b && (a + b)[0] == a[0];
    }
  }

  /** The words before done are expanded; those in todo are to come. */
  ghost predicate Partly(all: Outcome<seq<string>>, done: seq<string>, todo: seq<string>) {
    all == Then(Ok(done), ExpandAll(todo))
  }

  lemma PartlyPlain(all: Outcome<seq<string>>, done: seq<string>, todo: seq<string>)
    requires Partly(all, done, todo) && todo != [] && Plain(todo[0])
    ensures Partly(all, done + [todo[0]], todo[1..]) && Work(todo[1..]) < Work(todo)
  {
    assert ExpandAll(todo) == Then(Ok([todo[0]]), ExpandAll(todo[1..]));
    ThenAssociates(Ok(done), Ok([todo[0]]), ExpandAll(todo[1..]));
  }

  lemma PartlyBrace(all: Outcome<seq<string>>, done: seq<string>, todo: seq<string>)
    requires Partly(all, done, todo) && todo != [] && !Plain(todo[0])
    ensures match Once(todo[0])
            case Missing(c) => all == Missing(c)
            case Ok(alts) => Partly(all, done, alts + todo[1..]) && Work(alts + todo[1..]) < Work(todo)
  {
    hide Most;
    assert Expand(todo[0])
        == if Once(todo[0]).Missing? then Missing(Once(todo[0]).c) else ExpandAll(Once(todo[0]).value);
    match Once(todo[0])
    case Missing(c) =>
    case Ok(alts) =>
      ExpandAllAppend(alts, todo[1..]);
      WorkAppend(alts, todo[1..]);
  }

  lemma PartlyEnds(all: Outcome<seq<string>>, done: seq<string>)
    requires Partly(all, done, [])
    ensures all == Ok(done)
  {
    assert done + [] == done;
  }

  lemma PartlyBegins(todo: seq<string>)
    ensures Partly(ExpandAll(todo), [], todo)
  {
    assert ExpandAll(todo).Ok? ==> [] + ExpandAll(todo).value == ExpandAll(todo).value;
  }

  const GLOBSPACE := 100

  /** xrealloc, when len more entries do not fit. */
  method Room(nv0: array<Slot>, el: nat, len: nat, ghost ws: seq<string>) returns (nv: array<Slot>)
    requires Holds(nv0, ws) && el == |ws|
    ensures Holds(nv, ws) && el + len <= nv.Length && (nv == nv0 || fresh(nv))
  {
    nv := nv0;
    if el + len >= nv.Length {
      var l := el + len - nv.Length;
      var size := nv.Length + if GLOBSPACE > l then GLOBSPACE else l;
      nv := new Slot[size](_ => Null);
      var k := 0;
      while k < nv0.Length
        invariant k <= nv0.Length <= nv.Length
        invariant forall j | 0 <= j < k :: nv[j] == nv0[j]
      {
        nv[k] := nv0[k];
        k := k + 1;
      }
    }
  }

  /** The words bl replace the one at vl: the words after it move up, in place. */
  method Splice(nv: array<Slot>, vl: nat, el: nat, bl: seq<string>, ghost ws: seq<string>)
    requires Holds(nv, ws) && vl < el == |ws| && 1 < |bl| && el + |bl| <= nv.Length
    modifies nv
    ensures Holds(nv, ws[..vl] + bl + ws[vl + 1..])
  {
    var len := |bl| - 1;
    nv[vl] := Text(bl[0]);
    MoveUp(nv, vl, el, len);
    PutWords(nv, vl, bl);
    ghost var out := ws[..vl] + bl + ws[vl + 1..];
    forall k | 0 <= k < |out| ensures nv[k] == Text(out[k]) {
      if vl < k <= vl + len {
        assert nv[vl + (k - vl)] == Text(bl[k - vl]);
      }
    }
  }

  /** The slots behind vl, up to el, move up by len. */
  method MoveUp(nv: array<Slot>, vl: nat, el: nat, len: nat)
    requires vl <= el && el + len < nv.Length
    modifies nv
    ensures forall k | 0 <= k <= vl :: nv[k] == old(nv[k])
    ensures forall k | vl + len < k <= el + len :: nv[k] == old(nv[k - len])
  {
    var bp := el;
    while bp != vl
      invariant vl <= bp <= el
      invariant forall k | 0 <= k <= bp :: nv[k] == old(nv[k])
      invariant forall k | bp + len < k <= el + len :: nv[k] == old(nv[k - len])
    {
      nv[bp + len] := nv[bp];
      bp := bp - 1;
    }
  }

  /** The words of bl but the first, behind vl. */
  method PutWords(nv: array<Slot>, vl: nat, bl: seq<string>)
    requires 0 < |bl| && vl + |bl| <= nv.Length
    modifies nv
    ensures forall k | 0 <= k < nv.Length && !(vl < k < vl + |bl|) :: nv[k] == old(nv[k])
    ensures forall k | 1 <= k < |bl| :: nv[vl + k] == Text(bl[k])
  {
    var vp, b := vl + 1, 1;
    while b < |bl|
      invariant vp == vl + b && 1 <= b <= |bl|
      invariant forall k | 0 <= k < nv.Length && !(vl < k < vp) :: nv[k] == old(nv[k])
      invariant forall k | 1 <= k < b :: nv[vl + k] == Text(bl[k])
    {
      nv[vp] := Text(bl[b]);
      vp, b := vp + 1, b + 1;
    }
  }

  /** The word at vl is replaced by the words bl. */
  method Replace(nv0: array<Slot>, vl: nat, el0: nat, bl: seq<string>, ghost done: seq<string>, ghost todo: seq<string>)
    returns (nv: array<Slot>, el: nat)
    requires Holds(nv0, done + todo) && vl == |done| && el0 == |done| + |todo| && todo != [] && bl != []
    modifies nv0
    ensures nv == nv0 || fresh(nv)
    ensures el == el0 + |bl| - 1 && Holds(nv, done + (bl + todo[1..]))
  {
    Respliced(done, todo, bl);
    nv, el := nv0, el0;
    if |bl| == 1 {
      nv[vl] := Text(bl[0]);
    } else {
      nv := Room(nv, el, |bl|, done + todo);
      Splice(nv, vl, el, bl, done + todo);
      el := el + |bl| - 1;
    }
  }

  /** expbrace: the words of a vector with the braces in them expanded, or what is missing. */
  method ExpBrace(nv0: array<Slot>, el0: nat, ghost words: seq<string>)
    returns (o: Outcome<nat>, nv: array<Slot>)
    requires Holds(nv0, words) && el0 == |words|
    modifies nv0
    ensures nv == nv0 || fresh(nv)
    ensures match ExpandAll(words)
            case Missing(c) => o == Missing(c)
            case Ok(ws) => o == Ok(|ws|) && Holds(nv, ws)
  {
    hide Plain, ExpandAll, Expand, Work, Steps, Once, Partly;
    nv := nv0;
    var vl, el := 0, el0;
    ghost var all, done, todo := ExpandAll(words), [], words;
    PartlyBegins(words);
    assert done + todo == words;
    while nv[vl] != Null
      invariant nv == nv0 || fresh(nv)
      invariant vl == |done| && el == |done| + |todo| && Holds(nv, done + todo)
      invariant Partly(all, done, todo)
      decreases Work(todo)
    {
      assert todo != [] && nv[vl] == Text((done + todo)[vl]) == Text(todo[0]);
      var s := nv[vl].s;
      PlainIs(s);
      // a pair of braces alone stays as it is
      if (|s| >= 1 && s[0] == '{' && (|s| == 1 || (s[1] == '}' && |s| == 2))) || '{' !in s {
        PartlyPlain(all, done, todo);
        assert (done + [todo[0]]) + todo[1..] == done + todo;
        done, todo := done + [todo[0]], todo[1..];
        vl := vl + 1;
        continue;
      }
      PartlyBrace(all, done, todo);
      var bl := GlobBrace(s);
      if bl.Missing? {
        return Missing(bl.c), nv;
      }
      nv, el := Replace(nv, vl, el, bl.value, done, todo);
      todo := bl.value + todo[1..];
    }
    assert vl == |done + todo|;
    assert todo == [];
    PartlyEnds(all, done);
    assert done + todo == done;
    o := Ok(el);
  }

  lemma PlainIs(s: string)
    ensures Plain(s) <==> (|s| >= 1 && s[0] == '{' && (|s| == 1 || (s[1] == '}' && |s| == 2))) || '{' !in s
  {
  }

  lemma Respliced(done: seq<string>, todo: seq<string>, bl: seq<string>)
    requires todo != [] && bl != []
    ensures var ws := done + todo;
            ws[..|done|] + bl + ws[|done| + 1..] == done + (bl + todo[1..])
    ensures |bl| == 1 ==> done + (bl + todo[1..]) == (done + todo)[|done| := bl[0]]
  {
  }
}
