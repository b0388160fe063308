/** match (glob.c): the matcher for compiled patterns that goes back only to the last star. */
module GlobMatch {
  import opened GlobPattern

  /** Cells of a compiled pattern; Prot is a quoted character before compilation. */
  datatype Cell = All | One | Set | Not | Rng | End | Lit(c: char) | Prot(p: char)

  function ItemCells(it: Item): seq<Cell> {
    match it
    case Single(c) => [Lit(c)]
    case Span(lo, hi) => [Lit(lo), Rng, Lit(hi)]
  }

  function ItemsCells(items: seq<Item>): (r: seq<Cell>)
    ensures End !in r && Not !in r
  {
    if items == [] then [] else ItemCells(items[0]) + ItemsCells(items[1..])
  }

  function TokCells(t: Tok): (r: seq<Cell>)
    ensures |r| > 0
  {
    match t
    case Star => [All]
    case Any => [One]
    case Bracket(neg, items) => [Set] + (if neg then [Not] else []) + ItemsCells(items) + [End]
    case Char(c) => [Lit(c)]
  }

  /** The cells of a compiled pattern. */
  function Cells(ts: seq<Tok>): seq<Cell> {
    if ts == [] then [] else TokCells(ts[0]) + Cells(ts[1..])
  }

  lemma {:induction false} CellsSplit(ts: seq<Tok>, i: nat)
    requires i <= |ts|
    ensures Cells(ts) == Cells(ts[..i]) + Cells(ts[i..])
    decreases i
  {
    if i == 0 {
      assert ts[..0] == [] && ts[0..] == ts;
    } else {
      CellsSplit(ts[1..], i - 1);
      assert ts[..i][1..] == ts[1..][..i - 1] && ts[1..][i - 1..] == ts[i..];
      assert Cells(ts[..i]) == TokCells(ts[0]) + Cells(ts[..i][1..]);
      Assoc(TokCells(ts[0]), Cells(ts[1..][..i - 1]), Cells(ts[i..]));
    }
  }

  lemma Assoc(a: seq<Cell>, b: seq<Cell>, c: seq<Cell>)
    ensures a + (b + c) == (a + b) + c
  {
  }

  /** Where the cells of token i are. */
  lemma CellsAt(ts: seq<Tok>, i: nat)
    requires i < |ts|
    ensures var a, n := |Cells(ts[..i])|, |TokCells(ts[i])|;
            && a + n <= |Cells(ts)|
            && Cells(ts)[a..a + n] == TokCells(ts[i])
            && |Cells(ts[..i + 1])| == a + n
  {
    hide Cells, TokCells;
    var a, n := |Cells(ts[..i])|, |TokCells(ts[i])|;
    CellsSplit(ts, i);
    CellsSplit(ts[..i + 1], i);
    assert ts[..i + 1][..i] == ts[..i] && ts[..i + 1][i..] == [ts[i]];
    CellsHead(ts[i..]);
    CellsHead([ts[i]]);
    Middle(Cells(ts[..i]), TokCells(ts[i]), Cells(ts[i..][1..]));
    assert ts[i..][0] == ts[i];
  }

  lemma CellsHead(ts: seq<Tok>)
    requires ts != []
    ensures Cells(ts) == TokCells(ts[0]) + Cells(ts[1..])
    ensures |ts| == 1 ==> Cells(ts) == TokCells(ts[0])
  {
    assert |ts| == 1 ==> ts[1..] == [];
  }

  lemma Middle(a: seq<Cell>, b: seq<Cell>, c: seq<Cell>)
    ensures (a + (b + c))[|a|..|a| + |b|] == b
  {
  }

  /** What is left of a set; half: the low end of a range has been compared, the range not. */
  function Remaining(rest: seq<Item>, half: bool): seq<Cell>
    requires half ==> rest != [] && rest[0].Span?
  {
    if half then [Rng, Lit(rest[0].hi)] + ItemsCells(rest[1..]) else ItemsCells(rest)
  }

  predicate StillIn(rest: seq<Item>, half: bool, c: char)
    requires half ==> rest != [] && rest[0].Span?
  {
    if half then rest[0].lo <= c <= rest[0].hi || InItems(rest[1..], c, true) else InItems(rest, c, true)
  }

  lemma NextInSet(rest: seq<Item>, half: bool, c: char)
    requires half ==> rest != [] && rest[0].Span?
    ensures var r := Remaining(rest, half);
            if half then |r| > 1 && r[0] == Rng && r[1] == Lit(rest[0].hi) && r[2..] == Remaining(rest[1..], false)
                         && (StillIn(rest, half, c) <==>
                             rest[0].lo <= c <= rest[0].hi || StillIn(rest[1..], false, c))
            else if rest == [] then r == [] && !StillIn(rest, half, c)
            else if rest[0].Single? then r != [] && r[0] == Lit(rest[0].c) && r[1..] == Remaining(rest[1..], false)
                         && (StillIn(rest, half, c) <==> c == rest[0].c || StillIn(rest[1..], false, c))
            else r != [] && r[0] == Lit(rest[0].lo) && r[1..] == Remaining(rest, true)
                         && (StillIn(rest, half, c) <==> c == rest[0].lo || StillIn(rest, true, c))
  {
    hide InItems;
    if rest != [] {
      ItemsStep(rest, c);
    } else {
      NothingIn(c);
    }
  }

  lemma NothingIn(c: char)
    ensures !InItems([], c, true)
  {
  }

  /** The part of match that compares a character with a set. p is past Set and Not. */
  method MatchSet(pat: seq<Cell>, p: nat, wk: char, ghost items: seq<Item>) returns (ok: bool, q: nat)
    requires p + |ItemsCells(items)| < |pat|
    requires pat[p..p + |ItemsCells(items)|] == ItemsCells(items)
    requires pat[p + |ItemsCells(items)|] == End
    ensures ok <==> InItems(items, wk, true)
    ensures q == p + |ItemsCells(items)| + 1
  {
    hide Remaining, StillIn, ItemsCells, InItems;
    ok := false;
    q := p;
    ghost var rest, half := items, false;
    ghost var end := p + |ItemsCells(items)|;
    SetBegins(items, wk);
    ghost var goal := InItems(items, wk, true);
    var wc1: char := '\0';
    while pat[q] != End
      invariant p <= q <= end && (half ==> rest != [] && rest[0].Span? && rest[0].lo == wc1)
      invariant pat[q..end] == Remaining(rest, half)
      invariant (ok || StillIn(rest, half, wk)) <==> goal
      decreases end - q
    {
      NextInSet(rest, half, wk);
      HeadCells(pat, q, end);
      if pat[q] == Rng {
        q := q + 1;
        if wc1 <= wk <= pat[q].c {
          ok := true;
        }
        q := q + 1;
        rest, half := rest[1..], false;
      } else {
        if pat[q].c == wk {
          ok := true;
        }
        wc1 := pat[q].c;
        q := q + 1;
        rest, half := if rest[0].Span? then rest else rest[1..], rest[0].Span?;
      }
    }
    NextInSet(rest, half, wk);
    q := q + 1;
  }

  lemma SetBegins(items: seq<Item>, c: char)
    ensures Remaining(items, false) == ItemsCells(items) && (StillIn(items, false, c) <==> InItems(items, c, true))
  {
  }

  /** The first cells of what is left. */
  lemma HeadCells(pat: seq<Cell>, q: nat, end: nat)
    requires q <= end < |pat|
    ensures q < end ==> pat[q..end][0] == pat[q] && pat[q..end][1..] == pat[q + 1..end]
    ensures q + 1 < end ==> pat[q..end][1] == pat[q + 1] && pat[q..end][2..] == pat[q + 2..end]
  {
  }

  lemma ItemsStep(items: seq<Item>, c: char)
    requires items != []
    ensures InItems(items, c, true) <==> InItem(items[0], c, true) || InItems(items[1..], c, true)
  {
    if i :| 0 <= i < |items| && InItem(items[i], c, true) {
      if i > 0 {
        assert items[1..][i - 1] == items[i];
      }
    }
    if i :| 0 <= i < |items| - 1 && InItem(items[1..][i], c, true) {
      assert items[i + 1] == items[1..][i];
    }
  }

  /** Between the retry point (star j, character r) and now (token i, character n): either
      the retry has just begun, or the tokens after the star took one character each. */
  ghost predicate Since(ts: seq<Tok>, j: nat, i: nat, r: nat, n: nat) {
    (i == j && n == r) ||
    (j < i <= |ts| && i - j == n + 2 - r && forall t | j < t < i :: ts[t] != Star)
  }

  /** At the next star, going back to the last one is no longer of use. */
  lemma RetryCovered(ts: seq<Tok>, s: string, j: nat, i: nat, r: nat, n: nat)
    requires j <= i < |ts| && ts[j] == Star == ts[i] && Since(ts, j, i, r, n) && n <= |s|
    requires r <= |s| && Matches(ts[j..], s[r..], true)
    ensures Matches(ts[i..], s[n..], true)
  {
    hide Matches;
    if i > j {
      StarTakes(ts[j..], s[r..]);
      var k :| 0 <= k <= |s| - r && Matches(ts[j..][1..], s[r..][k..], true);
      var m := i - j - 1;
      DropTwice(ts, j, 1);
      DropTwiceIn(s, r, k);
      NoStarBetween(ts, j, i);
      FixedPrefix(ts[j + 1..], m, s[r + k..], true);
      DropTwice(ts, j + 1, m);
      DropTwiceIn(s, r + k, m);
      DropTwiceIn(s, n, k + 1);
      StarEarlier(ts[i..], s[n..], k + 1, true);
    }
  }

  lemma StarTakes(ts: seq<Tok>, s: string)
    requires ts != [] && ts[0] == Star && Matches(ts, s, true)
    ensures exists k | 0 <= k <= |s| :: Matches(ts[1..], s[k..], true)
  {
  }

  lemma DropTwice(ts: seq<Tok>, a: nat, b: nat)
    requires a + b <= |ts|
    ensures ts[a..][b..] == ts[a + b..]
  {
  }

  lemma DropTwiceIn(s: string, a: nat, b: nat)
    requires a + b <= |s|
    ensures s[a..][b..] == s[a + b..]
  {
  }

  lemma NoStarBetween(ts: seq<Tok>, j: nat, i: nat)
    requires j < i <= |ts| && forall t | j < t < i :: ts[t] != Star
    ensures Star !in ts[j + 1..][..i - j - 1]
  {
  }

  /** What is left to decide: the attempt under way, or else the retry. */
  ghost predicate Undecided(ts: seq<Tok>, s: string, i: nat, n: nat, j: nat, r: nat)
    requires i <= |ts| && n <= |s| && (0 < r ==> j <= |ts|)
  {
    Matches(ts[i..], s[n..], true) || (0 < r <= |s| && Matches(ts[j..], s[r..], true))
  }

  lemma AtStar(ts: seq<Tok>, s: string, i: nat, n: nat, j: nat, r: nat)
    requires i < |ts| && n <= |s| && ts[i] == Star
    requires 0 < r ==> j <= i && ts[j] == Star && Since(ts, j, i, r, n)
    ensures Undecided(ts, s, i, n, j, r) <==> Matches(ts[i..], s[n..], true)
    ensures Matches(ts[i..], s[n..], true) <==> Undecided(ts, s, i + 1, n, i, n + 1)
  {
    if 0 < r <= |s| && Matches(ts[j..], s[r..], true) {
      RetryCovered(ts, s, j, i, r, n);
    }
    StarStep(ts[i..], s[n..], true);
    assert ts[i..][1..] == ts[i + 1..];
    assert n < |s| ==> s[n..][1..] == s[n + 1..];
  }

  /** Of two stars in a row the first can be skipped. */
  lemma TwoStars(ts: seq<Tok>, s: string, i: nat, n: nat)
    requires i + 1 < |ts| && n <= |s| && ts[i] == Star == ts[i + 1]
    ensures Matches(ts[i..], s[n..], true) <==> Matches(ts[i + 1..], s[n..], true)
  {
    CollapsePreserves(ts[i..], s[n..], true);
    CollapsePreserves(ts[i + 1..], s[n..], true);
    assert ts[i..][1..] == ts[i + 1..];
  }

  lemma AtFixed(ts: seq<Tok>, s: string, i: nat, n: nat)
    requires i < |ts| && n <= |s| && ts[i] != Star
    ensures Matches(ts[i..], s[n..], true) <==>
            (n < |s| && Accepts(ts[i], s[n], true) && Matches(ts[i + 1..], s[n + 1..], true))
  {
    assert ts[i..][1..] == ts[i + 1..];
    assert n < |s| ==> s[n..][1..] == s[n + 1..] && s[n..][0] == s[n];
  }

  /** The cell at token i, or at the end of the segment. */
  lemma CellAt(pat: seq<Cell>, lo: nat, patend: nat, ts: seq<Tok>, i: nat)
    requires lo <= patend < |pat| && pat[lo..patend] == Cells(ts) && i <= |ts|
    ensures var p := lo + |Cells(ts[..i])|;
            if i == |ts| then p == patend
            else p + |TokCells(ts[i])| == lo + |Cells(ts[..i + 1])| <= patend
                 && pat[p..p + |TokCells(ts[i])|] == TokCells(ts[i]) && pat[p] == TokCells(ts[i])[0]
  {
    hide Cells, TokCells;
    if i == |ts| {
      assert ts[..i] == ts;
    } else {
      CellsAt(ts, i);
      var a, n := |Cells(ts[..i])|, |TokCells(ts[i])|;
      SubSlice(pat, lo, Cells(ts), a, n);
      assert pat[lo + a] == pat[lo + a..lo + a + n][0];
    }
  }

  /** The M_SET case of match: skip the set, and say whether the character is in it. */
  method MatchBracket(pat: seq<Cell>, p: nat, wk: char, ghost t: Tok) returns (hit: bool, q: nat)
    requires t.Bracket? && p + |TokCells(t)| <= |pat| && pat[p..p + |TokCells(t)|] == TokCells(t)
    ensures q == p + |TokCells(t)| && (hit <==> Accepts(t, wk, true))
  {
    BracketCells(t);
    hide TokCells, ItemsCells, InItems;
    ghost var cells, m := TokCells(t), |ItemsCells(t.items)|;
    SubSlice(pat, p, cells, 1, 1);
    q := p + 1;
    assert pat[q] == pat[p + 1..p + 2][0] == cells[1];
    var negateRange := pat[q] == Not;
    if negateRange {
      q := q + 1;
    }
    SubSlice(pat, p, cells, q - p, m);
    SubSlice(pat, p, cells, q - p + m, 1);
    assert pat[q + m] == pat[q + m..q + m + 1][0] == End;
    var ok;
    ok, q := MatchSet(pat, q, wk, t.items);
    hit := ok != negateRange;
  }

  lemma SubSlice(s: seq<Cell>, p: nat, t: seq<Cell>, k: nat, m: nat)
    requires p + |t| <= |s| && s[p..p + |t|] == t && k + m <= |t|
    ensures s[p + k..p + k + m] == t[k..k + m]
  {
    forall i | p <= i < p + |t| ensures s[i] == t[i - p] {
      assert s[p..p + |t|][i - p] == t[i - p];
    }
    var left := s[p + k..p + k + m];
    assert forall x | 0 <= x < m :: left[x] == s[p + k + x];
    assert left == t[k..k + m];
  }

  lemma BracketCells(t: Tok)
    requires t.Bracket?
    ensures var cells, m, k := TokCells(t), |ItemsCells(t.items)|, if t.neg then 2 else 1;
            && |cells| == k + m + 1 && (cells[1] == Not <==> t.neg)
            && cells[k..k + m] == ItemsCells(t.items) && cells[k + m] == End
  {
    assert !t.neg ==> TokCells(t)[1] == (ItemsCells(t.items) + [End])[0];
  }

  lemma FirstCell(t: Tok)
    ensures TokCells(t)[0] == All <==> t == Star
    ensures TokCells(t)[0] == One <==> t == Any
    ensures TokCells(t)[0] == Set <==> t.Bracket?
    ensures forall c :: TokCells(t)[0] == Lit(c) <==> t == Char(c)
    ensures !t.Bracket? ==> |TokCells(t)| == 1
  {
  }

  /** The M_ALL case of match: go to the last of a run of stars. */
  method LastStar(name: string, n: nat, pat: seq<Cell>, lo: nat, patend: nat, p0: nat,
                  ghost ts: seq<Tok>, ghost i0: nat)
    returns (p: nat, ghost i: nat)
    requires lo <= patend < |pat| && pat[lo..patend] == Cells(ts) && pat[patend].Lit?
    requires i0 < |ts| && ts[i0] == Star && p0 == lo + |Cells(ts[..i0])| && n <= |name|
    ensures i0 <= i < |ts| && ts[i] == Star && p0 <= p == lo + |Cells(ts[..i])| < patend && pat[p] == All
    ensures forall t | i0 <= t <= i :: ts[t] == Star
    ensures Matches(ts[i..], name[n..], true) <==> Matches(ts[i0..], name[n..], true)
  {
    hide Matches, Cells, TokCells;
    p, i := p0, i0;
    FirstCell(ts[i]);
    CellAt(pat, lo, patend, ts, i);
    while pat[p + 1] == All
      invariant i0 <= i < |ts| && p0 <= p == lo + |Cells(ts[..i])| && p + 1 == lo + |Cells(ts[..i + 1])| <= patend
                && pat[p] == All
      invariant forall t | i0 <= t <= i :: ts[t] == Star
      invariant Matches(ts[i..], name[n..], true) <==> Matches(ts[i0..], name[n..], true)
      decreases |ts| - i
    {
      CellAt(pat, lo, patend, ts, i + 1);
      FirstCell(ts[i + 1]);
      TwoStars(ts, name, i, n);
      p, i := p + 1, i + 1;
    }
  }

  /** The other cases of match: one character against a cell or a set, or against the cell
      after the segment when no token is left. */
  method FixedStep(name: string, n: nat, pat: seq<Cell>, p: nat, ghost t: Tok, ghost left: bool)
    returns (hit: bool, q: nat)
    requires p < |pat| && n <= |name| && pat[p] != All
    requires if left then p + |TokCells(t)| <= |pat| && pat[p..p + |TokCells(t)|] == TokCells(t)
                          && pat[p] == TokCells(t)[0]
             else pat[p].Lit? && pat[p].c !in name
    ensures hit <==> left && n < |name| && Accepts(t, name[n], true)
    ensures hit ==> q == p + |TokCells(t)|
    ensures left ==> t != Star
  {
    FirstCell(t);
    assert t == Any && n < |name| ==> Accepts(t, name[n], true);
    assert t.Char? && n < |name| ==> (Accepts(t, name[n], true) <==> t.c == name[n]);
    hide TokCells, Accepts;
    hit, q := false, p;
    if n == |name| {
      return;
    }
    if pat[p] == One {
      hit, q := true, p + 1;
    } else if pat[p] == Set {
      hit, q := MatchBracket(pat, p, name[n], t);
    } else if pat[p] == Lit(name[n]) {
      hit, q := true, p + 1;
    }
  }

  lemma FixedDecides(ts: seq<Tok>, s: string, i: nat, n: nat)
    requires i <= |ts| && n <= |s| && (i < |ts| || n < |s|) && (i < |ts| ==> ts[i] != Star)
    ensures Matches(ts[i..], s[n..], true) <==>
            i < |ts| && n < |s| && Accepts(ts[i], s[n], true) && Matches(ts[i + 1..], s[n + 1..], true)
  {
    if i < |ts| {
      AtFixed(ts, s, i, n);
    } else {
      assert ts[i..] == [];
    }
  }

  lemma AfterHit(ts: seq<Tok>, s: string, i: nat, n: nat, j: nat, r: nat)
    requires i < |ts| && n < |s| && ts[i] != Star && (0 < r ==> j <= i && ts[j] == Star && Since(ts, j, i, r, n))
    requires Matches(ts[i..], s[n..], true) <==> Matches(ts[i + 1..], s[n + 1..], true)
    ensures 0 < r ==> j < i + 1 && Since(ts, j, i + 1, r, n + 1)
    ensures Undecided(ts, s, i, n, j, r) <==> Undecided(ts, s, i + 1, n + 1, j, r)
  {
  }

  lemma AfterMiss(ts: seq<Tok>, s: string, i: nat, n: nat, j: nat, r: nat)
    requires i <= |ts| && n <= |s| && (0 < r ==> j < |ts|) && !Matches(ts[i..], s[n..], true)
    ensures if 0 < r <= |s| then
              Since(ts, j, j, r, r) && (Undecided(ts, s, i, n, j, r) <==> Undecided(ts, s, j, r, j, r))
            else !Undecided(ts, s, i, n, j, r)
  {
  }

  lemma EndDecides(ts: seq<Tok>, s: string, j: nat, r: nat)
    requires 0 < r ==> j <= |ts|
    ensures Undecided(ts, s, |ts|, |s|, j, r)
  {
    assert ts[|ts|..] == [] && s[|s|..] == [];
  }

  lemma AfterStar(ts: seq<Tok>, i: nat, n: nat)
    requires i < |ts| && ts[i] == Star
    ensures Since(ts, i, i + 1, n + 1, n)
  {
  }

  /** The loop invariant of match. Ghosts: i is the token at p, j the star at patNext. */
  ghost predicate Inv(ts: seq<Tok>, name: string, pat: seq<Cell>, lo: nat, patend: nat,
                      p: int, n: int, patNext: int, r: int, i: nat, j: nat)
  {
    && 0 <= n <= |name| && 0 <= i <= |ts| && 0 <= lo <= p == lo + |Cells(ts[..i])| <= patend < |pat|
    && (if r == 0 then patNext == lo
        else
          && 0 < r <= |name| + 1 && 0 <= j <= i && j < |ts| && ts[j] == Star && Since(ts, j, i, r, n)
          && lo <= patNext == lo + |Cells(ts[..j])| < patend && pat[patNext] == All
          && (if i == j then p == patNext && n == r else p > patNext))
    && (Undecided(ts, name, i, n, j, r) <==> Matches(ts, name, true))
  }

  /** The termination measure's last part: zero when a retry is about to begin. */
  function Ahead(p: int, patNext: int, r: int, patend: int): int {
    if r > 0 && p == patNext then 0 else 1 + patend - p
  }

  lemma InvHit(ts: seq<Tok>, name: string, pat: seq<Cell>, lo: nat, patend: nat,
               p: int, n: int, patNext: int, r: int, i: nat, j: nat, q: int)
    requires Inv(ts, name, pat, lo, patend, p, n, patNext, r, i, j) && pat[p] != All
    requires i < |ts| && n < |name| && ts[i] != Star && p < q == lo + |Cells(ts[..i + 1])| <= patend
    requires Matches(ts[i..], name[n..], true) <==> Matches(ts[i + 1..], name[n + 1..], true)
    ensures Inv(ts, name, pat, lo, patend, q, n + 1, patNext, r, i + 1, j)
    ensures 0 <= Ahead(q, patNext, r, patend) < Ahead(p, patNext, r, patend)
  {
    hide Cells, Matches;
    AfterHit(ts, name, i, n, j, r);
  }

  lemma InvMiss(ts: seq<Tok>, name: string, pat: seq<Cell>, lo: nat, patend: nat,
                p: int, n: int, patNext: int, r: int, i: nat, j: nat)
    requires Inv(ts, name, pat, lo, patend, p, n, patNext, r, i, j) && pat[p] != All
    requires !Matches(ts[i..], name[n..], true)
    ensures if 0 < r <= |name| then
              Inv(ts, name, pat, lo, patend, patNext, r, patNext, r, j, j)
              && 0 == Ahead(patNext, patNext, r, patend) < Ahead(p, patNext, r, patend)
            else !Matches(ts, name, true)
  {
    hide Cells, Matches;
    AfterMiss(ts, name, i, n, j, r);
  }

  lemma InvStar(ts: seq<Tok>, name: string, pat: seq<Cell>, lo: nat, patend: nat,
                p: int, n: int, patNext: int, r: int, i: nat, j: nat, q: int, k: nat)
    requires Inv(ts, name, pat, lo, patend, p, n, patNext, r, i, j) && i < |ts| && ts[i] == Star
    requires i <= k < |ts| && ts[k] == Star && p <= q == lo + |Cells(ts[..k])| < patend && pat[q] == All
    requires q + 1 == lo + |Cells(ts[..k + 1])|
    requires Matches(ts[k..], name[n..], true) <==> Matches(ts[i..], name[n..], true)
    ensures Inv(ts, name, pat, lo, patend, q + 1, n, q, n + 1, k + 1, k)
    ensures q > patNext || (q == patNext && n + 1 > r)
  {
    hide Cells, Matches;
    AtStar(ts, name, i, n, j, r);
    AtStar(ts, name, k, n, 0, 0);
    AfterStar(ts, k, n);
  }

  lemma InvEnds(ts: seq<Tok>, name: string, pat: seq<Cell>, lo: nat, patend: nat,
                p: int, n: int, patNext: int, r: int, i: nat, j: nat)
    requires Inv(ts, name, pat, lo, patend, p, n, patNext, r, i, j)
    requires pat[lo..patend] == Cells(ts) && p == patend && n == |name|
    ensures Matches(ts, name, true)
  {
    CellAt(pat, lo, patend, ts, i);
    EndDecides(ts, name, j, r);
  }

  lemma InvBegins(ts: seq<Tok>, name: string, pat: seq<Cell>, lo: nat, patend: nat)
    requires lo <= patend < |pat| && pat[lo..patend] == Cells(ts)
    ensures Inv(ts, name, pat, lo, patend, lo, 0, lo, 0, 0, 0)
  {
    assert ts[..0] == [] && ts[0..] == ts && name[0..] == name;
  }

  lemma InvFacts(ts: seq<Tok>, name: string, pat: seq<Cell>, lo: nat, patend: nat,
                 p: int, n: int, patNext: int, r: int, i: nat, j: nat)
    requires Inv(ts, name, pat, lo, patend, p, n, patNext, r, i, j)
    ensures 0 <= n <= |name| && 0 <= i <= |ts| && 0 <= lo <= p == lo + |Cells(ts[..i])| <= patend
    ensures lo <= patNext <= patend && 0 <= r <= |name| + 1
  {
  }

  /** match: whether name is in the language of the pattern segment. The cell after the segment
      never occurs in a name. */
  method Match(name: string, pat: seq<Cell>, lo: nat, patend: nat, ghost ts: seq<Tok>) returns (r: bool)
    requires lo <= patend < |pat| && pat[lo..patend] == Cells(ts)
    requires pat[patend].Lit? && pat[patend].c !in name
    ensures r <==> Matches(ts, name, true)
  {
    hide Inv, Cells, Matches, TokCells;
    var p, n := lo, 0;
    var patNext, nameNext := lo, 0;
    var nameEnd := -1;
    ghost var i, j := 0, 0;
    InvBegins(ts, name, pat, lo, patend);
    while p < patend || n < |name|
      invariant Inv(ts, name, pat, lo, patend, p, n, patNext, nameNext, i, j)
      invariant nameEnd == -1 || nameEnd == |name|
      invariant nameNext > |name| ==> nameEnd != -1
      decreases patend - patNext, |name| + 2 - nameNext, Ahead(p, patNext, nameNext, patend)
    {
      InvFacts(ts, name, pat, lo, patend, p, n, patNext, nameNext, i, j);
      CellAt(pat, lo, patend, ts, i);
      if n == |name| {
        nameEnd := n;
      }
      if pat[p] == All {
        FirstCell(ts[i]);
        var q, k := LastStar(name, n, pat, lo, patend, p, ts, i);
        CellAt(pat, lo, patend, ts, k);
        FirstCell(ts[k]);
        InvStar(ts, name, pat, lo, patend, p, n, patNext, nameNext, i, j, q, k);
        p, patNext, nameNext := q + 1, q, n + 1;
        i, j := k + 1, k;
        continue;
      }
      var hit, q := FixedStep(name, n, pat, p, if i < |ts| then ts[i] else Any, i < |ts|);
      FixedDecides(ts, name, i, n);
      if hit {
        InvHit(ts, name, pat, lo, patend, p, n, patNext, nameNext, i, j, q);
        p, n, i := q, n + 1, i + 1;
      } else {
        InvMiss(ts, name, pat, lo, patend, p, n, patNext, nameNext, i, j);
        if nameNext != 0 && (nameEnd == -1 || nameNext <= nameEnd) {
          p, n, i := patNext, nameNext, j;
        } else {
          return false;
        }
      }
    }
    InvFacts(ts, name, pat, lo, patend, p, n, patNext, nameNext, i, j);
    InvEnds(ts, name, pat, lo, patend, p, n, patNext, nameNext, i, j);
    return true;
  }
}
