/** Gnmatch (sh.glob.c): matching with braces and a leading complement. */
module ShGlob {
  import opened Brace
  import Sh = ShMatch

  /** The character that is missing, or the answer and where the match ends. */
  datatype Verdict = Failed(c: char) | Answer(res: bool, end: nat)

  /** The word matches all of s, or in the other mode a prefix of it. */
  ghost predicate WordMatches(w: string, s: string, exact: bool) {
    Sh.Read(w).closed &&
    if exact then Sh.Hit(Sh.Read(w).ts, s, 0, |s|) else Sh.HitsPrefix(Sh.Read(w).ts, s, 0)
  }

  /** The word has an unclosed bracket, and what is before it matches a prefix of s. */
  ghost predicate WordFails(w: string, s: string) {
    !Sh.Read(w).closed && Sh.HitsPrefix(Sh.Read(w).ts, s, 0)
  }

  /** The longest prefix of s that the word matches ends here. */
  ghost predicate Ends(w: string, s: string, end: nat) {
    Sh.Read(w).closed && Sh.Longest(Sh.Read(w).ts, s, 0, end)
  }

  /** Of the first n words that match a prefix, the one whose longest match ends first ends here;
      without such a word it is the end of s. */
  ghost predicate FirstEnd(ws: seq<string>, n: nat, s: string, end: nat)
    requires n <= |ws|
  {
    && (forall k, e: nat | 0 <= k < n && Ends(ws[k], s, e) :: end <= e)
    && (end == |s| || exists k | 0 <= k < n :: Ends(ws[k], s, end))
  }

  function Body(pattern: string): string {
    if pattern != [] && pattern[0] == '^' then pattern[1..] else pattern
  }

  /** A circumflex in front of the pattern, and nothing else, asks for the complement. */
  lemma ComplementMark(pattern: string)
    ensures Body("^" + pattern) == pattern && Body("^" + pattern) != "^" + pattern
    ensures (forall rest :: pattern != "^" + rest) ==> Body(pattern) == pattern
  {
    assert ("^" + pattern)[1..] == pattern;
    if pattern != [] && pattern[0] == '^' {
      assert pattern == "^" + pattern[1..];
    }
  }

  ghost predicate AnyMatches(ws: seq<string>, n: nat, s: string, exact: bool)
    requires n <= |ws|
  {
    exists k | 0 <= k < n :: WordMatches(ws[k], s, exact)
  }

  ghost predicate AnyFails(ws: seq<string>, s: string) {
    exists k | 0 <= k < |ws| :: WordFails(ws[k], s)
  }

  /** What Gnmatch promises of its answer, for a pattern that expands to ws. */
  ghost predicate Answers(pattern: string, ws: seq<string>, s: string, exact: bool, v: Verdict) {
    && (v.Failed? <==> AnyFails(ws, s))
    && (v.Failed? ==> v.c == ']')
    && (v.Answer? ==>
          && (v.res <==> AnyMatches(ws, |ws|, s, exact) == (Body(pattern) == pattern))
          && (!exact ==> FirstEnd(ws, |ws|, s, v.end)))
  }

  lemma WordOutcome(w: string, s: string, o: Sh.Outcome)
    requires Sh.Decided(Sh.Read(w), s, 0, o)
    ensures o.Missing? <==> WordFails(w, s)
    ensures o.Found? ==> (o.code == 2 <==> WordMatches(w, s, true)) && (o.code != 0 <==> WordMatches(w, s, false))
    ensures forall e: nat :: o.Found? && Ends(w, s, e) <==> o.Found? && o.code != 0 && e == o.estr
  {
    var q := Sh.Read(w);
    assert Sh.Hit(q.ts, s, 0, |s|) ==> Sh.HitsPrefix(q.ts, s, 0);
  }

  /** What is known after the first n words. */
  ghost predicate Sofar(ws: seq<string>, n: nat, s: string, exact: bool, gres: bool, end: nat) {
    && n <= |ws|
    && (forall k | 0 <= k < n :: !WordFails(ws[k], s))
    && (gres <==> AnyMatches(ws, n, s, exact))
    && (!exact ==> FirstEnd(ws, n, s, end))
  }

  lemma SofarMore(ws: seq<string>, n: nat, s: string, exact: bool, gres: bool, end: nat, hit: bool, e: nat,
                  end1: nat)
    requires Sofar(ws, n, s, exact, gres, end) && n < |ws|
    requires !WordFails(ws[n], s) && (hit <==> WordMatches(ws[n], s, exact))
    requires !exact ==> (forall f: nat :: Ends(ws[n], s, f) <==> hit && f == e)
    requires end1 == if !exact && hit && end > e then e else end
    ensures Sofar(ws, n + 1, s, exact, gres || hit, end1)
  {
    hide WordFails, WordMatches, Ends;
  }

  /** The words of a vector, counted. */
  method BlkLen(av: array<Slot>, ghost ws: seq<string>) returns (i: nat)
    requires Holds(av, ws)
    ensures i == |ws|
  {
    i := 0;
    while av[i] != Null
      invariant i <= |ws|
      decreases |ws| - i
    {
      i := i + 1;
    }
  }

  /** Gnmatch, with endstr NULL when exact: the alternatives of the pattern in turn. */
  method Gnmatch(s: string, pattern: string, exact: bool) returns (v: Verdict)
    requires Sh.NUL !in s && Sh.NUL !in pattern
    ensures match ExpandAll([Body(pattern)])
            case Missing(c) => v == Failed(c)
            case Ok(ws) => Answers(pattern, ws, s, exact, v)
  {
    hide ExpandAll, AnyMatches, AnyFails, Sofar, WordFails, WordMatches, Ends, FirstEnd, Sh.Decided;
    var gpol, gres := true, false;
    var p := pattern;
    if p != [] && p[0] == '^' {
      gpol, p := false, p[1..];
    }
    var fblk := new Slot[GLOBSPACE](_ => Null);
    fblk[0] := Text(p);
    ghost var words := [Body(pattern)];
    assert Holds(fblk, words);
    var el := BlkLen(fblk, words);
    var o;
    o, fblk := ExpBrace(fblk, el, words);
    if o.Missing? {
      return Failed(o.c);
    }
    ghost var ws := ExpandAll(words).value;
    ExpandKeepsNul(words);
    var end;
    o, gres, end := MatchWords(s, fblk, exact, ws);
    v := if o.Missing? then Failed(o.c) else Answer(gres == gpol, end);
  }

  /** The loops of Gnmatch over the words. */
  method MatchWords(s: string, fblk: array<Slot>, exact: bool, ghost ws: seq<string>)
    returns (o: Outcome<nat>, gres: bool, end: nat)
    requires Sh.NUL !in s && Holds(fblk, ws) && NoNul(ws)
    ensures if o.Missing? then o.c == ']' && AnyFails(ws, s)
            else !AnyFails(ws, s) && (gres <==> AnyMatches(ws, |ws|, s, exact))
                 && (!exact ==> FirstEnd(ws, |ws|, s, end))
  {
    hide AnyMatches, AnyFails, Sofar, WordFails, WordMatches, Ends, FirstEnd, Sh.Decided;
    var k: nat := 0;
    gres, end := false, |s|;
    SofarNone(ws, s, exact);
    while fblk[k] != Null
      invariant k <= |ws| && Sofar(ws, k, s, exact, gres, end)
      decreases |ws| - k
    {
      assert fblk[k] == Text(ws[k]);
      var w := fblk[k].s;
      var t := Sh.TPmatch(s, 0, w, 0);
      assert w[0..] == w;
      WordOutcome(w, s, t);
      if t.Missing? {
        Failing(ws, k, s);
        return Missing(']'), gres, end;
      }
      var hit := if exact then t.code == 2 else t.code != 0;
      ghost var was := end;
      if !exact && hit && end > t.estr {
        end := t.estr;
      }
      SofarMore(ws, k, s, exact, gres, was, hit, t.estr, end);
      gres := gres || hit;
      k := k + 1;
    }
    SofarAll(ws, s, exact, gres, end);
    o := Ok(|s|);
  }

  lemma SofarNone(ws: seq<string>, s: string, exact: bool)
    ensures Sofar(ws, 0, s, exact, false, |s|)
  {
  }

  lemma SofarAll(ws: seq<string>, s: string, exact: bool, gres: bool, end: nat)
    requires Sofar(ws, |ws|, s, exact, gres, end)
    ensures !AnyFails(ws, s) && (gres <==> AnyMatches(ws, |ws|, s, exact))
    ensures !exact ==> FirstEnd(ws, |ws|, s, end)
  {
  }

  lemma Failing(ws: seq<string>, k: nat, s: string)
    requires k < |ws| && WordFails(ws[k], s)
    ensures AnyFails(ws, s)
  {
  }

  // ---------------------------------------------------------------- words stay C strings

  predicate NoNul(ws: seq<string>) {
    forall k | 0 <= k < |ws| :: Sh.NUL !in ws[k]
  }

  lemma {:induction false} AlternativesNoNul(s: string, pre: nat, pl: nat, seps: seq<nat>, pe: nat)
    requires pre <= |s| && pe < |s| && Cuts(s, pl, seps) && Sh.NUL !in s
    ensures NoNul(Alternatives(s, pre, pl, seps, pe))
    decreases |seps|
  {
    if seps != [] {
      AlternativesNoNul(s, pre, seps[0] + 1, seps[1..], pe);
    }
  }

  lemma {:induction false} ExpandNoNul(s: string)
    requires Sh.NUL !in s
    ensures Expand(s).Ok? ==> NoNul(Expand(s).value)
    decreases Opens(s), 0
  {
    if !Plain(s) && Once(s).Ok? {
      var p := First(s, '{');
      AlternativesNoNul(s, p, p + 1, Seps(s, p + 1, 0), Close(s, p + 1, 0).value);
      OnceFewer(s);
      ExpandKeepsNul(Once(s).value);
    }
  }

  lemma {:induction false} ExpandKeepsNul(ws: seq<string>)
    requires NoNul(ws)
    ensures ExpandAll(ws).Ok? ==> NoNul(ExpandAll(ws).value)
    decreases Most(ws), |ws| + 1
  {
    if ws != [] {
      ExpandNoNul(ws[0]);
      ExpandKeepsNul(ws[1..]);
    }
  }
}
