/** The two matchers read the same patterns: glob's compiler with GLOB_ALTNOT (glob.c) and
    t_pmatch (sh.glob.c), on patterns without quoting. */
module GlobAgree {
  import opened GlobPattern
  import opened GlobMatch
  import opened GlobCompile
  import opened GlobText
  import opened ShMatch

  function Lits(p: string): (r: seq<Cell>)
    ensures Source(r) && |r| == |p|
  {
    seq(|p|, i requires 0 <= i < |p| => Lit(p[i]))
  }

  lemma {:induction false} Unquoted(p: string)
    ensures Protect(p, false) == Lits(p)
  {
    if p != [] {
      Unquoted(p[1..]);
    }
  }

  lemma LitsFrom(p: string, n: nat)
    requires n <= |p|
    ensures Lits(p)[n..] == Lits(p[n..])
  {
  }

  /** A list with a first item reads the same. */
  lemma {:induction false} ListItems(p: string)
    requires List(p).Some? && p[0] != ']'
    ensures Closable(Lits(p)) && Items(Lits(p)) == (List(p).items, List(p).len - 1)
  {
    hide Items, List, FirstItem;
    var b := Lits(p);
    ListStep(p);
    var n := if IsRange(p) then 3 else 1;
    var rest := p[n..];
    assert rest[0] == p[n];
    LitsFrom(p, n);
    ItemsUnfold(b);
    if p[n] == ']' {
      ListStep(rest);
      assert [FirstItem(b).0] + [] == [FirstItem(b).0];
    } else {
      ListItems(rest);
    }
  }

  /** A list that ends, by its first item; glob reads the same one. */
  lemma ListStep(p: string)
    requires List(p).Some?
    ensures p != [] && (p[0] == ']' ==> List(p) == Some([], 1))
    ensures p[0] != ']' ==>
              var n := if IsRange(p) then 3 else 1;
              && n < |p| && Closable(Lits(p)) && FirstItem(Lits(p)).1 == n
              && List(p[n..]).Some? && List(p) == More(FirstItem(Lits(p)).0, n, List(p[n..]))
  {
    hide Items;
    if p[0] != ']' {
      var b := Lits(p);
      assert b[List(p).len - 1] == Lit(']');
      assert FirstItem(b) == (if IsRange(p) then Span(p[0], p[2]) else Single(p[0]), if IsRange(p) then 3 else 1);
    }
  }

  predicate NoEmptyBracket(ts: seq<Tok>) {
    forall i | 0 <= i < |ts| && ts[i].Bracket? :: ts[i].items != []
  }

  /** The text of the bracket at the start of p, without the bracket and the negation. */
  function ListText(p: string): string
    requires p != []
  {
    p[ListAt(p)..]
  }

  lemma InsideText(p: string)
    requires p != []
    ensures Inside(Lits(p), '^') == Lits(ListText(p)) && (Negated(Lits(p), '^') <==> ListAt(p) == 2)
  {
    LitsFrom(p, ListAt(p));
  }

  /** The first tokens are the same exactly when t_pmatch finds a bracket with something in it,
      or none. */
  lemma FirstTokAgrees(p: string)
    requires p != []
    ensures var (t, n) := FirstTok(Lits(p), '^');
            if p[0] == '[' then
              match List(ListText(p))
              case None => true
              case Some(items, len) =>
                items != [] ==> t == Bracket(ListAt(p) == 2, items) && n == ListAt(p) + len
            else t == Simple(p[0]) && n == 1
    ensures FirstTok(Lits(p), '^').0.Bracket? ==> FirstTok(Lits(p), '^').0.items != []
  {
    var q := ListText(p);
    InsideText(p);
    if p[0] == '[' && List(q).Some? && List(q).items != [] {
      ListItems(q);
    }
    if p[0] == '[' && Closed(Lits(p), '^') {
      ItemsUnfold(Lits(q));
    }
  }

  lemma ParseHead(p: string)
    requires p != []
    ensures var (t, n) := FirstTok(Lits(p), '^');
            1 <= n <= |p| && Parse(Lits(p), '^') == [t] + Parse(Lits(p[n..]), '^')
  {
    hide FirstTok, Parse;
    ParseSplit(Lits(p), '^');
    LitsFrom(p, FirstTok(Lits(p), '^').1);
  }

  lemma NoEmptyStep(t: Tok, q: Pattern)
    ensures NoEmptyBracket(Prefixed(t, q).ts) <==> (t.Bracket? ==> t.items != []) && NoEmptyBracket(q.ts)
  {
    var u := Prefixed(t, q).ts;
    assert u[0] == t && u[1..] == q.ts;
    assert forall i | 0 <= i < |q.ts| :: u[i + 1] == q.ts[i];
  }

  /** Both readings give the same tokens exactly when every bracket is closed for t_pmatch and
      none is empty there, that is, none starts with a closing bracket. */
  lemma {:induction false} SameTokens(p: string)
    ensures Parse(Lits(p), '^') == Read(p).ts <==> Read(p).closed && NoEmptyBracket(Read(p).ts)
    decreases |p|
  {
    hide Items, List, FirstTok, Read, Parse, NoEmptyBracket, Prefixed;
    if p == [] {
      SameNothing();
    } else {
      FirstTokAgrees(p);
      ReadStep(p);
      ParseHead(p);
      var (t, n) := FirstTok(Lits(p), '^');
      if p[0] != '[' {
        SameTokens(p[1..]);
        SameAfter(t, p, 1);
      } else if List(ListText(p)).Some? {
        if List(ListText(p)).items != [] {
          SameTokens(p[n..]);
          SameAfter(t, p, n);
        } else {
          EmptyDiffers(t, p, Parse(Lits(p[n..]), '^'), Read(p[ListAt(p) + List(ListText(p)).len..]));
        }
      }
    }
  }

  /** The same token first, and then the same tokens or not. */
  lemma SameAfter(t: Tok, p: string, n: nat)
    requires n <= |p| && Parse(Lits(p), '^') == [t] + Parse(Lits(p[n..]), '^') && Read(p) == Prefixed(t, Read(p[n..]))
    requires t.Bracket? ==> t.items != []
    requires Parse(Lits(p[n..]), '^') == Read(p[n..]).ts <==> Read(p[n..]).closed && NoEmptyBracket(Read(p[n..]).ts)
    ensures Parse(Lits(p), '^') == Read(p).ts <==> Read(p).closed && NoEmptyBracket(Read(p).ts)
  {
    hide Parse, Read, NoEmptyBracket;
    NoEmptyStep(t, Read(p[n..]));
    SameRest(t, Parse(Lits(p[n..]), '^'), Read(p[n..]).ts);
  }

  lemma EmptyDiffers(t: Tok, p: string, rest: seq<Tok>, q: Pattern)
    requires t.Bracket? ==> t.items != []
    requires p != [] && Parse(Lits(p), '^') == [t] + rest && Read(p) == Prefixed(Bracket(ListAt(p) == 2, []), q)
    ensures Parse(Lits(p), '^') != Read(p).ts && !NoEmptyBracket(Read(p).ts)
  {
    hide Parse, Read;
    assert Read(p).ts[0] == Bracket(ListAt(p) == 2, []);
  }

  lemma SameRest(t: Tok, a: seq<Tok>, b: seq<Tok>)
    ensures [t] + a == [t] + b <==> a == b
  {
    assert ([t] + a)[1..] == a && ([t] + b)[1..] == b;
  }

  lemma SameNothing()
    ensures Parse(Lits([]), '^') == Read([]).ts && Read([]).closed && NoEmptyBracket(Read([]).ts)
  {
  }

  // ---------------------------------------------------------------- the text that t_pmatch reads

  /** The text of a token for t_pmatch, where nothing is quoted and a list cannot contain its closing bracket. */
  predicate Plainly(t: Tok, u: string) {
    Spelt(t, Lits(u), '^') && (t.Bracket? ==> ']' !in u[..|u| - 1])
  }

  lemma {:induction false} ListTextRead(items: seq<Item>, u: string, first: bool, rest: string)
    requires ListSpelt(items, Lits(u), first) && ']' !in u
    ensures List(u + ("]" + rest)) == Some(items, |u| + 1)
    decreases |items|
  {
    hide List;
    var p := u + ("]" + rest);
    if items == [] {
      ListEnds(rest);
      assert p == "]" + rest;
    } else {
      var n := Wide(items[0]);
      LitsFrom(u, n);
      if items[0].Single? && |u| > 1 {
        assert Lits(u[1..])[0] == Lit(u[1]);
        ListBegins(items[1..], Lits(u[1..]), false);
      }
      ListTextRead(items[1..], u[n..], false, rest);
      assert p[n..] == u[n..] + ("]" + rest);
      assert p[0] == u[0] && u[0] in u;
      ListFirst(p);
      assert IsRange(p) <==> n == 3;
      assert items == [items[0]] + items[1..];
    }
  }

  lemma ListEnds(rest: string)
    ensures List("]" + rest) == Some([], 1)
  {
  }

  lemma ListFirst(p: string)
    requires p != [] && p[0] != ']'
    ensures IsRange(p) && |p| > 2 ==> List(p) == More(Span(p[0], p[2]), 3, List(p[3..]))
    ensures !IsRange(p) ==> List(p) == More(Single(p[0]), 1, List(p[1..]))
  {
  }

  lemma ReadOne(t: Tok, u: string, rest: string)
    requires Plainly(t, u)
    ensures Read(u + rest) == Prefixed(t, Read(rest))
  {
    hide List, ListSpelt, Read;
    match t
    case Bracket(neg, items) => ReadBracket(neg, items, u, rest);
    case _ =>
      assert Lits(u)[0] == Lit(u[0]) && (u + rest)[1..] == rest;
      ReadStep(u + rest);
  }

  lemma ReadBracket(neg: bool, items: seq<Item>, u: string, rest: string)
    requires Plainly(Bracket(neg, items), u)
    ensures Read(u + rest) == Prefixed(Bracket(neg, items), Read(rest))
  {
    hide List, ListSpelt, Read;
    var p, k := u + rest, if neg then 2 else 1;
    var v := u[k..|u| - 1];
    BracketText(neg, items, u);
    ListTextRead(items, v, true, rest);
    AroundList(u, k, rest);
    ReadStep(p);
  }

  /** The parts of a bracket's text. */
  lemma BracketText(neg: bool, items: seq<Item>, u: string)
    requires Plainly(Bracket(neg, items), u)
    ensures var k := if neg then 2 else 1;
            && |u| > k && u[0] == '[' && u[|u| - 1] == ']' && (u[1] == '^' <==> neg)
            && ListSpelt(items, Lits(u[k..|u| - 1]), true) && ']' !in u[k..|u| - 1]
  {
    hide ListSpelt;
    var w, k := Lits(u), if neg then 2 else 1;
    assert w[0] == Lit(u[0]) && w[1] == Lit(u[1]) && w[|u| - 1] == Lit(u[|u| - 1]);
    LitsPart(u, k, |u| - 1);
    assert forall i | k <= i < |u| - 1 :: u[i] == u[..|u| - 1][i];
  }

  lemma AroundList(u: string, k: nat, rest: string)
    requires 1 <= k <= 2 && k < |u| && u[0] == '[' && u[|u| - 1] == ']' && (u[1] == '^' <==> k == 2)
    ensures var p, v := u + rest, u[k..|u| - 1];
            && ListAt(p) == k && p[0] == '[' && p[k..] == v + ("]" + rest) && p[k + |v| + 1..] == rest
  {
  }

  lemma LitsPart(u: string, a: nat, b: nat)
    requires a <= b <= |u|
    ensures Lits(u)[a..b] == Lits(u[a..b])
  {
  }

  /** Round trip for t_pmatch: the text of any tokens is read as these tokens, and what comes behind as on its
      own. */
  lemma {:induction false} TextRead(ts: seq<Tok>, us: seq<string>, rest: string)
    requires |us| == |ts| && forall k | 0 <= k < |ts| :: Plainly(ts[k], us[k])
    ensures Read(Joined(us) + rest) == Pattern(ts + Read(rest).ts, Read(rest).closed)
    decreases |ts|
  {
    hide Plainly, Read;
    if ts == [] {
      assert Joined(us) + rest == rest && ts + Read(rest).ts == Read(rest).ts;
    } else {
      TextRead(ts[1..], us[1..], rest);
      ReadOne(ts[0], us[0], Joined(us[1..]) + rest);
      assert Joined(us) + rest == us[0] + (Joined(us[1..]) + rest);
      assert ts + Read(rest).ts == [ts[0]] + (ts[1..] + Read(rest).ts);
    }
  }

  /** A bracket that is not closed ends the pattern. */
  lemma NotClosed(rest: string)
    ensures Read([]) == Pattern([], true)
    ensures rest != [] && rest[0] == '[' && ']' !in rest ==> Read(rest) == Pattern([], false)
  {
    if rest != [] && rest[0] == '[' && ']' !in rest {
      var q := rest[ListAt(rest)..];
      assert ']' !in q;
      assert List(q).None?;
    }
  }

  /** The two matchers agree on every name when the tokens are the same and no range has its ends
      in the wrong order. */
  lemma MatchersAgree(p: string, s: string)
    requires Read(p).closed && NoEmptyBracket(Read(p).ts) && Ordered(Read(p).ts)
    ensures Matches(Collapse(Parse(Protect(p, false), '^')), s, true) <==> Hit(Read(p).ts, s, 0, |s|)
  {
    Unquoted(p);
    SameTokens(p);
    CollapsePreserves(Parse(Lits(p), '^'), s, true);
    OrderedReadings(Read(p).ts, s);
    assert s[0..|s|] == s;
  }

  /** With a range in the wrong order they differ: glob's matcher compares the low end on its own. */
  lemma ReversedRangeDiffers()
    ensures var p := "[z-a]";
            && Read(p) == Pattern([Bracket(false, [Span('z', 'a')])], true)
            && Matches(Collapse(Parse(Protect(p, false), '^')), "z", true)
            && !Hit(Read(p).ts, "z", 0, 1)
  {
    var p := "[z-a]";
    var t := Bracket(false, [Span('z', 'a')]);
    ReadReversed(p);
    Unquoted(p);
    SameTokens(p);
    OneOf(t, 'z');
    CollapsePreserves([t], "z", true);
    HitStep([t], "z", 0, 1);
  }

  lemma ReadReversed(p: string)
    requires p == "[z-a]"
    ensures Read(p) == Pattern([Bracket(false, [Span('z', 'a')])], true)
  {
    assert p[1..] == "z-a]" && "z-a]"[3..] == "]" && "]"[0..] == "]" && p[5..] == "";
    assert List("]") == Some([], 1);
    assert List("z-a]") == Some([Span('z', 'a')], 4);
    ReadNothing();
    ReadStep(p);
  }

  /** The range from z to a has z in it for one reading of ranges, not for the other. */
  lemma OneOf(t: Tok, c: char)
    requires t == Bracket(false, [Span('z', 'a')]) && c == 'z'
    ensures Matches([t], [c], true) && !Accepts(t, c, false)
  {
    assert InItem(t.items[0], c, true);
    assert [t][1..] == [] && [c][1..] == "";
    assert forall i | 0 <= i < |t.items| :: !InItem(t.items[i], c, false);
  }
}
