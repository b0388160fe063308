/** How patterns are written: each token has its text, and reading the text gives the token back. A quoted
    character stands for itself. */
module GlobText {
  import opened GlobPattern
  import opened GlobMatch
  import opened GlobCompile

  // ---------------------------------------------------------------- quoting

  /** The pattern text of characters, with a backslash before those that are protected. */
  function TextOf(raw: seq<Cell>): string
    requires Source(raw)
  {
    if raw == [] then []
    else (if raw[0].Prot? then ['\\', raw[0].p] else [LChar(raw[0])]) + TextOf(raw[1..])
  }

  /** A backslash before every character. */
  function Quoted(p: string): (q: string)
    ensures '\0' !in p ==> '\0' !in q
  {
    if p == [] then [] else ['\\', p[0]] + Quoted(p[1..])
  }

  /** Whatever is quoted is protected, and nothing else is. */
  lemma {:induction false} ProtectReads(raw: seq<Cell>, rest: string)
    requires Source(raw) && Lit('\\') !in raw
    ensures Protect(TextOf(raw) + rest, true) == raw + Protect(rest, true)
  {
    if raw == [] {
      assert TextOf(raw) + rest == rest && raw + Protect(rest, true) == Protect(rest, true);
    } else {
      var tail := TextOf(raw[1..]) + rest;
      ProtectReads(raw[1..], rest);
      ProtectOne(raw[0], tail);
      assert raw[0] in raw;
      assert TextOf(raw) + rest == (if raw[0].Prot? then ['\\', raw[0].p] else [LChar(raw[0])]) + tail;
      assert raw + Protect(rest, true) == [raw[0]] + (raw[1..] + Protect(rest, true));
    }
  }

  lemma ProtectOne(c: Cell, tail: string)
    requires c.Prot? || (c.Lit? && c.c != '\\')
    ensures Protect((if c.Prot? then ['\\', c.p] else [LChar(c)]) + tail, true) == [c] + Protect(tail, true)
  {
    var text := (if c.Prot? then ['\\', c.p] else [LChar(c)]) + tail;
    if c.Prot? {
      assert text[2..] == tail;
    } else {
      assert text[1..] == tail;
    }
  }

  function Prots(p: string): (r: seq<Cell>)
    ensures |r| == |p| && forall k | 0 <= k < |p| :: r[k] == Prot(p[k])
  {
    seq(|p|, k requires 0 <= k < |p| => Prot(p[k]))
  }

  lemma {:induction false} QuotedText(p: string)
    ensures Source(Prots(p)) && Lit('\\') !in Prots(p) && TextOf(Prots(p)) == Quoted(p)
  {
    if p != [] {
      QuotedText(p[1..]);
      assert Prots(p)[1..] == Prots(p[1..]);
    }
  }

  // ---------------------------------------------------------------- the text of a token

  /** The character c, quoted or as it is. */
  predicate Stands(x: Cell, c: char) {
    x == Prot(c) || x == Lit(c)
  }

  /** The list of a bracket. A closing bracket comes first or is quoted; a hyphen comes first or last or is
      quoted. */
  predicate ListSpelt(items: seq<Item>, w: seq<Cell>, first: bool)
    decreases |items|
  {
    if items == [] then w == []
    else
      && w != [] && (w[0] == Lit(']') ==> first) && (w[0] == Lit('-') ==> first || |w| == 1)
      && match items[0]
         case Single(c) => Stands(w[0], c) && ListSpelt(items[1..], w[1..], false)
         case Span(lo, hi) =>
           && |w| >= 3 && Stands(w[0], lo) && w[1] == Lit('-') && Stands(w[2], hi) && w[2] != Lit(']')
           && ListSpelt(items[1..], w[3..], false)
  }

  /** The text of a token, with not as the character that negates a bracket. */
  predicate Spelt(t: Tok, w: seq<Cell>, not: char) {
    match t
    case Star => w == [Lit('*')]
    case Any => w == [Lit('?')]
    case Char(c) => w == [Prot(c)] || (w == [Lit(c)] && c !in "*?[")
    case Bracket(neg, items) =>
      && items != [] && |w| > 2 && w[0] == Lit('[') && w[|w| - 1] == Lit(']')
      && if neg then w[1] == Lit(not) && ListSpelt(items, w[2..|w| - 1], true)
         else w[1] != Lit(not) && ListSpelt(items, w[1..|w| - 1], true)
  }

  lemma ListSource(items: seq<Item>, w: seq<Cell>, first: bool)
    requires ListSpelt(items, w, first)
    ensures Source(w)
    decreases |items|
  {
    if items != [] {
      var n := Wide(items[0]);
      ListSource(items[1..], w[n..], false);
      forall k | 0 <= k < |w| ensures w[k].Lit? || w[k].Prot? {
        assert k >= n ==> w[k] == w[n..][k - n];
      }
    }
  }

  function Wide(it: Item): nat { if it.Single? then 1 else 3 }

  /** A list is read up to the bracket that closes it. */
  lemma {:induction false} ListRead(items: seq<Item>, w: seq<Cell>, first: bool, rest: seq<Cell>)
    requires items != [] && ListSpelt(items, w, first) && Source(rest)
    ensures var b := w + ([Lit(']')] + rest);
            Source(b) && Closable(b) && Items(b) == (items, |w|)
    decreases |items|
  {
    hide Items, FirstItem, Source, ListSpelt, Closable;
    var tail := [Lit(']')] + rest;
    var b, n := w + tail, Wide(items[0]);
    ListSource(items, w, first);
    ListBegins(items, w, first);
    SourceClosed(w, rest);
    ItemRead(items, w, first, b);
    ItemsUnfold(b);
    ListBegins(items[1..], w[n..], false);
    if |items| == 1 {
      assert |w| == n && items == [items[0]];
    } else {
      ListRead(items[1..], w[n..], false, rest);
      Behind(w, n, tail);
      assert items == [items[0]] + items[1..];
    }
  }

  lemma Behind(w: seq<Cell>, n: nat, tail: seq<Cell>)
    requires n < |w|
    ensures (w + tail)[n..] == w[n..] + tail && (w + tail)[n] == w[n..][0]
  {
  }

  lemma SourceClosed(w: seq<Cell>, rest: seq<Cell>)
    requires Source(w) && Source(rest) && w != []
    ensures var b := w + ([Lit(']')] + rest); Source(b) && Closable(b) && b[..|w|] == w && b[|w|] == Lit(']')
  {
    assert (w + ([Lit(']')] + rest))[|w|] == Lit(']');
  }

  lemma ListBegins(items: seq<Item>, w: seq<Cell>, first: bool)
    requires ListSpelt(items, w, first)
    ensures if items == [] then w == [] else w != [] && (w[0] == Lit(']') ==> first)
  {
  }

  lemma ItemRead(items: seq<Item>, w: seq<Cell>, first: bool, b: seq<Cell>)
    requires items != [] && ListSpelt(items, w, first) && Source(b) && Closable(b)
    requires |w| < |b| && b[..|w|] == w && b[|w|] == Lit(']')
    ensures FirstItem(b) == (items[0], Wide(items[0])) && |w| >= Wide(items[0])
    ensures ListSpelt(items[1..], w[Wide(items[0])..], false)
  {
    var n := Wide(items[0]);
    assert w[0] == b[0] && (|w| > 1 ==> b[1] == w[1]) && (|w| > 2 ==> b[2] == w[2]);
    if items[0].Single? && |w| > 1 && items[1..] != [] {
      assert w[1..][0] == w[1];
    }
  }

  /** Every token is read from its text, whatever comes behind it. */
  lemma FirstTokRead(t: Tok, w: seq<Cell>, rest: seq<Cell>, not: char)
    requires Spelt(t, w, not) && Source(rest)
    ensures w != [] && Source(w) && FirstTok(w + rest, not) == (t, |w|)
  {
    hide ListSpelt, Items, Closable;
    match t
    case Bracket(neg, items) => BracketRead(neg, items, w, rest, not);
    case _ => assert (w + rest)[0] == w[0];
  }

  lemma BracketRead(neg: bool, items: seq<Item>, w: seq<Cell>, rest: seq<Cell>, not: char)
    requires Spelt(Bracket(neg, items), w, not) && Source(rest)
    ensures Source(w) && FirstTok(w + rest, not) == (Bracket(neg, items), |w|)
  {
    hide ListSpelt, Items, Closable, Source;
    var raw, k := w + rest, if neg then 2 else 1;
    var inner := w[k..|w| - 1];
    assert raw[0] == w[0] && raw[1] == w[1];
    ListSource(items, inner, true);
    SourceAround(w, k, inner, rest);
    InsideOf(w, k, inner, rest);
    ListRead(items, inner, true, rest);
    assert Negated(raw, not) <==> neg;
    assert Inside(raw, not) == raw[k..];
    assert |w| == |inner| + k + 1;
  }

  lemma InsideOf(w: seq<Cell>, k: nat, inner: seq<Cell>, rest: seq<Cell>)
    requires k < |w| && inner == w[k..|w| - 1] && w[|w| - 1] == Lit(']')
    ensures (w + rest)[k..] == inner + ([Lit(']')] + rest)
  {
    assert w[k..] == inner + [Lit(']')];
  }

  lemma SourceAround(w: seq<Cell>, k: nat, inner: seq<Cell>, rest: seq<Cell>)
    requires k < |w| && inner == w[k..|w| - 1] && w[|w| - 1] == Lit(']') && Source(inner) && Source(rest)
    requires forall i | 0 <= i < k :: w[i].Lit?
    ensures Source(w) && Source(w + rest)
  {
    assert forall i | k <= i < |w| - 1 :: w[i] == inner[i - k];
  }

  // ---------------------------------------------------------------- the text of a pattern

  /** The first token of a pattern, and the rest. */
  lemma ParseSplit(raw: seq<Cell>, not: char)
    requires raw != [] && Source(raw)
    ensures var (t, n) := FirstTok(raw, not);
            1 <= n <= |raw| && Source(raw[n..]) && Parse(raw, not) == [t] + Parse(raw[n..], not)
  {
    hide FirstTok, ParseFrom;
    var n := FirstTok(raw, not).1;
    assert raw[0..] == raw && TokAt(raw, 0, not) == FirstTok(raw, not);
    ParseFirst(raw, not);
    ParseSuffix(raw, n, 0, not);
  }

  lemma ParseFirst(raw: seq<Cell>, not: char)
    requires raw != [] && Source(raw)
    ensures 1 <= TokAt(raw, 0, not).1 <= |raw|
    ensures ParseFrom(raw, 0, not) == [TokAt(raw, 0, not).0] + ParseFrom(raw, TokAt(raw, 0, not).1, not)
  {
    hide FirstTok;
  }

  /** Reading from q on is reading what is left. */
  lemma {:induction false} ParseSuffix(raw: seq<Cell>, a: nat, q: nat, not: char)
    requires Source(raw) && a + q <= |raw|
    ensures Source(raw[a..]) && ParseFrom(raw, a + q, not) == ParseFrom(raw[a..], q, not)
    decreases |raw| - a - q
  {
    hide FirstTok;
    if a + q < |raw| {
      assert raw[a + q..] == raw[a..][q..];
      ParseSuffix(raw, a, q + TokAt(raw[a..], q, not).1, not);
    }
  }

  predicate AllSpelt(ts: seq<Tok>, ws: seq<seq<Cell>>, not: char) {
    |ws| == |ts| && forall i | 0 <= i < |ts| :: Spelt(ts[i], ws[i], not)
  }

  function Strung(ws: seq<seq<Cell>>): seq<Cell> {
    if ws == [] then [] else ws[0] + Strung(ws[1..])
  }

  lemma {:induction false} ParseReads(ts: seq<Tok>, ws: seq<seq<Cell>>, rest: seq<Cell>, not: char)
    requires AllSpelt(ts, ws, not) && Source(rest)
    ensures Source(Strung(ws)) && Parse(Strung(ws) + rest, not) == ts + Parse(rest, not)
    decreases |ts|
  {
    hide Parse, Spelt, FirstTok;
    if ts == [] {
      assert Strung(ws) + rest == rest;
    } else {
      var tail := Strung(ws[1..]) + rest;
      ParseReads(ts[1..], ws[1..], rest, not);
      FirstTokRead(ts[0], ws[0], tail, not);
      assert Strung(ws) + rest == ws[0] + tail;
      ParseSplit(ws[0] + tail, not);
      assert (ws[0] + tail)[|ws[0]|..] == tail;
      assert ts + Parse(rest, not) == [ts[0]] + (ts[1..] + Parse(rest, not));
    }
  }

  /** Round trip: the text of any tokens is read as these tokens, and what comes behind as on its own. */
  lemma PatternText(ts: seq<Tok>, ws: seq<seq<Cell>>, rest: string, not: char)
    requires AllSpelt(ts, ws, not) && Lit('\\') !in Strung(ws)
    ensures Source(Strung(ws))
         && Parse(Protect(TextOf(Strung(ws)) + rest, true), not) == ts + Parse(Protect(rest, true), not)
  {
    hide Parse, AllSpelt, Strung;
    ParseReads(ts, ws, Protect(rest, true), not);
    ProtectReads(Strung(ws), rest);
  }

  /** A quoted character stands for itself, behind any text of tokens and before any other text. */
  lemma QuotedInside(ts: seq<Tok>, ws: seq<seq<Cell>>, c: char, rest: string, not: char)
    requires AllSpelt(ts, ws, not) && Lit('\\') !in Strung(ws)
    ensures Source(Strung(ws))
         && Parse(Protect(TextOf(Strung(ws)) + (['\\', c] + rest), true), not)
            == ts + ([Char(c)] + Parse(Protect(rest, true), not))
  {
    hide Parse;
    PatternText(ts, ws, ['\\', c] + rest, not);
    PatternText([Char(c)], [[Prot(c)]], rest, not);
    assert Strung([[Prot(c)]]) == [Prot(c)];
    assert TextOf([Prot(c)]) == ['\\', c];
  }

  function CharsOf(p: string): (r: seq<Tok>)
    ensures |r| == |p| && forall k | 0 <= k < |p| :: r[k] == Char(p[k])
  {
    seq(|p|, k requires 0 <= k < |p| => Char(p[k]))
  }

  lemma {:induction false} QuotedTokens(p: string, not: char)
    ensures Parse(Protect(Quoted(p), true), not) == CharsOf(p)
  {
    hide Parse;
    if p == [] {
      ParseNothing(not);
    } else {
      QuotedTokens(p[1..], not);
      QuotedInside([], [], p[0], Quoted(p[1..]), not);
      assert TextOf(Strung([])) + (['\\', p[0]] + Quoted(p[1..])) == Quoted(p);
      assert CharsOf(p) == [] + ([Char(p[0])] + CharsOf(p[1..]));
    }
  }

  lemma ParseNothing(not: char)
    ensures Parse(Protect([], true), not) == []
  {
  }

  lemma {:induction false} CharsMatch(p: string, s: string, rev: bool)
    ensures Matches(CharsOf(p), s, rev) <==> s == p
  {
    if p != [] && s != [] {
      CharsMatch(p[1..], s[1..], rev);
      assert CharsOf(p)[1..] == CharsOf(p[1..]);
      assert s == [s[0]] + s[1..] && p == [p[0]] + p[1..];
    }
  }

  /** A pattern that is quoted throughout matches nothing but the text itself. */
  lemma QuotedMatches(p: string, not: char, s: string)
    ensures Matches(Parse(Protect(Quoted(p), true), not), s, true) <==> s == p
  {
    QuotedTokens(p, not);
    CharsMatch(p, s, true);
  }
}
