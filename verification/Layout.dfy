/** Where text lands on rows of w columns: the cells Draw and Vdraw produce and the cursor
    arithmetic of CalcPosition (ed.refresh.c), one cell a character. */
module Layout {
  import opened Basics
  import opened Rows

  datatype Class = Newline | Tab | Control | Illegal | Printing

  /** NLSClassify for single-byte characters. */
  function Classify(c: char): Class {
    if c as int >= 0x80 then Illegal
    else if c == '\n' then Newline
    else if c == '\t' then Tab
    else if c as int < 0x20 || c as int == 0x7f then Control
    else Printing
  }

  function Octal(n: nat): char { (n % 8 + '0' as int) as char }

  /** The cells of a character that is not a newline or a tab. */
  function Glyphs(c: char): (s: string)
    ensures NUL !in s && |s| > 0
  {
    match Classify(c)
    case Control => if c as int == 0x7f then "^?" else ['^', (c as int + 0x40) as char]
    case Illegal => ['\\', Octal(c as int / 64), Octal(c as int / 8), Octal(c as int)]
    case _ => [c]
  }

  /** Finished rows and the one being filled. */
  datatype Page = Page(full: seq<string>, line: string) {
    function Row(v: nat): string
      requires v <= |full|
    {
      if v < |full| then full[v] else line
    }

    /** q is this page or a later one. */
    predicate Before(q: Page) {
      |full| < |q.full| || (|full| == |q.full| && |line| <= |q.line|)
    }

    ghost predicate Ok(w: nat) {
      && |line| < w && NUL !in line
      && forall r | 0 <= r < |full| :: |full[r]| <= w && NUL !in full[r]
    }
  }

  const EMPTY := Page([], [])

  function Position(p: Page): (nat, nat) { (|p.line|, |p.full|) }

  function PutCell(p: Page, c: char, w: nat): (q: Page)
    requires c != NUL && p.Ok(w)
    ensures q.Ok(w) && p.Before(q)
  {
    if |p.line| + 1 >= w then Page(p.full + [p.line + [c]], []) else Page(p.full, p.line + [c])
  }

  function PutCells(p: Page, s: string, w: nat): (q: Page)
    requires NUL !in s && p.Ok(w)
    ensures q.Ok(w) && p.Before(q)
    decreases |s|
  {
    if s == [] then p else PutCells(PutCell(p, s[0], w), s[1..], w)
  }

  lemma PutOne(p: Page, c: char, w: nat)
    requires c != NUL && p.Ok(w)
    ensures PutCells(p, [c], w) == PutCell(p, c, w)
  {
    PutFirst(p, c, [], w);
  }

  lemma PutTwo(p: Page, c: char, d: char, w: nat)
    requires c != NUL && d != NUL && p.Ok(w)
    ensures PutCells(p, [c, d], w) == PutCell(PutCell(p, c, w), d, w)
  {
    PutFirst(p, c, [d], w);
    PutOne(PutCell(p, c, w), d, w);
  }

  lemma PutFour(p: Page, c: char, d1: char, d2: char, d3: char, w: nat)
    requires c != NUL && d1 != NUL && d2 != NUL && d3 != NUL && p.Ok(w)
    ensures PutCells(p, [c, d1, d2, d3], w) == PutCell(PutCell(PutCell(PutCell(p, c, w), d1, w), d2, w), d3, w)
  {
    PutFirst(p, c, [d1, d2, d3], w);
    PutFirst(PutCell(p, c, w), d1, [d2, d3], w);
    PutTwo(PutCell(PutCell(p, c, w), d1, w), d2, d3, w);
  }

  lemma PutFirst(p: Page, c: char, s: string, w: nat)
    requires c != NUL && NUL !in s && p.Ok(w)
    ensures PutCells(p, [c] + s, w) == PutCells(PutCell(p, c, w), s, w)
  {
    assert ([c] + s)[1..] == s;
  }

  function EndRow(p: Page, w: nat): (q: Page)
    requires p.Ok(w)
    ensures q.Ok(w) && p.Before(q)
  {
    Page(p.full + [p.line], [])
  }

  /** Blanks up to a multiple of eight, or to the right edge. */
  function PutTab(p: Page, w: nat): (q: Page)
    requires p.Ok(w)
    ensures q.Ok(w) && p.Before(q)
    decreases w - |p.line|
  {
    var q := PutCell(p, ' ', w);
    if |q.line| % 8 == 0 then q else PutTab(q, w)
  }

  lemma {:induction false} TabUnfold(p: Page, w: nat)
    requires p.Ok(w)
    ensures var q := PutCell(p, ' ', w);
            && PutTab(p, w) == (if |q.line| % 8 == 0 then q else PutTab(q, w))
            && |q.full| <= |PutTab(p, w).full|
            && (|q.line| % 8 != 0 ==> |q.line| == |p.line| + 1)
  {
  }

  function PutChar(p: Page, c: char, w: nat): (q: Page)
    requires p.Ok(w)
    ensures q.Ok(w) && p.Before(q)
  {
    match Classify(c)
    case Newline => EndRow(p, w)
    case Tab => PutTab(p, w)
    case _ => PutCells(p, Glyphs(c), w)
  }

  /** The page of a text. */
  function PageOf(s: string, w: nat): (q: Page)
    requires 0 < w
    ensures q.Ok(w)
  {
    if s == [] then EMPTY else PutChar(PageOf(s[..|s| - 1], w), s[|s| - 1], w)
  }

  lemma PagesGrow(s: string, k: nat, w: nat)
    requires 0 < w && k <= |s|
    ensures PageOf(s[..k], w).Before(PageOf(s, w))
    decreases |s|
  {
    if k < |s| {
      PagesGrow(s[..|s| - 1], k, w);
      assert s[..|s| - 1][..k] == s[..k];
    } else {
      assert s[..k] == s;
    }
  }

  // ---------------------------------------------------------------- what is seen

  predicate OctalDigit(c: char) { '0' <= c <= '7' }

  /** How a character that is not a newline or a tab is to be seen: a printing character as itself, a
      control character with a caret, any other one as a backslash and the three octal digits of its code. */
  predicate LooksLike(c: char, g: string) {
    if 0x20 <= c as int < 0x7f then g == [c]
    else if c as int < 0x20 then |g| == 2 && g[0] == '^' && g[1] as int == c as int + 64
    else if c as int == 0x7f then g == "^?"
    else
      && |g| == 4 && g[0] == '\\' && OctalDigit(g[1]) && OctalDigit(g[2]) && OctalDigit(g[3])
      && 64 * (g[1] - '0') as int + 8 * (g[2] - '0') as int + (g[3] - '0') as int == c as int % 512
  }

  lemma GlyphsLook(c: char)
    requires c != '\n' && c != '\t'
    ensures LooksLike(c, Glyphs(c))
  {
    if c as int >= 0x80 {
      OctalDigits(c as int);
      OctalBack(c as int / 64 % 8);
      OctalBack(c as int / 8 % 8);
      OctalBack(c as int % 8);
    }
  }

  lemma OctalDigits(n: nat)
    ensures 64 * (n / 64 % 8) + 8 * (n / 8 % 8) + n % 8 == n % 512
  {
    assert n / 64 == n / 8 / 8 && n / 512 == n / 64 / 8;
  }

  lemma OctalBack(d: nat)
    requires d < 8
    ensures var c := (d + '0' as int) as char; OctalDigit(c) && (c - '0') as int == d
  {
  }

  function Joined(rows: seq<string>): string {
    if rows == [] then [] else rows[0] + Joined(rows[1..])
  }

  /** No newlines and no tabs. */
  predicate Unbroken(s: string) {
    forall i | 0 <= i < |s| :: s[i] != '\n' && s[i] != '\t'
  }

  predicate Printable(s: string) {
    forall i | 0 <= i < |s| :: 0x20 <= s[i] as int < 0x7f
  }

  /** The cells are the characters of s, one after the other. */
  ghost predicate Spells(s: string, cells: string) {
    exists gs: seq<string> :: |gs| == |s| && (forall i | 0 <= i < |s| :: LooksLike(s[i], gs[i])) && cells == Joined(gs)
  }

  lemma {:induction false} JoinedAppend(a: seq<string>, b: seq<string>)
    ensures Joined(a + b) == Joined(a) + Joined(b)
  {
    if a == [] {
      assert a + b == b;
    } else {
      JoinedAppend(a[1..], b);
      assert (a + b)[1..] == a[1..] + b;
    }
  }

  lemma JoinedOne(r: string)
    ensures Joined([r]) == r
  {
    assert [r][1..] == [];
  }

  /** The cells s in the rows from row k of q on: all but the last one are full. */
  predicate Flows(q: Page, k: nat, s: string, w: nat) {
    && k <= |q.full| && (forall r | k <= r < |q.full| :: |q.full[r]| == w) && |q.line| < w
    && Joined(q.full[k..]) + q.line == s
  }

  /** Cells that are put on a page follow what its last row has, and everything above is left alone. */
  lemma {:induction false} PutCellsFlow(p: Page, s: string, w: nat)
    requires NUL !in s && p.Ok(w)
    ensures var q := PutCells(p, s, w); |p.full| <= |q.full| && q.full[..|p.full|] == p.full
    ensures Flows(PutCells(p, s, w), |p.full|, p.line + s, w)
    decreases |s|
  {
    hide PutCell, Joined;
    var k := |p.full|;
    if s == [] {
      assert p.full[k..] == [] && p.line + s == p.line;
      JoinedNone();
    } else {
      var p1, q := PutCell(p, s[0], w), PutCells(p, s, w);
      PutCellFlow(p, s[0], w);
      PutCellsFlow(p1, s[1..], w);
      assert q.full[..k] == q.full[..|p1.full|][..k];
      FlowsBack(p, p1, q, s, w);
    }
  }

  lemma JoinedNone()
    ensures Joined([]) == []
  {
  }

  lemma PutCellFlow(p: Page, c: char, w: nat)
    requires c != NUL && p.Ok(w)
    ensures var q := PutCell(p, c, w);
            if |p.line| + 1 == w then q.full == p.full + [p.line + [c]] && q.line == []
            else q.full == p.full && q.line == p.line + [c]
  {
  }

  lemma FlowsBack(p: Page, p1: Page, q: Page, s: string, w: nat)
    requires s != [] && |p.line| < w
    requires if |p.line| + 1 == w then p1.full == p.full + [p.line + [s[0]]] && p1.line == []
             else p1.full == p.full && p1.line == p.line + [s[0]]
    requires |p1.full| <= |q.full| && q.full[..|p1.full|] == p1.full && Flows(q, |p1.full|, p1.line + s[1..], w)
    ensures Flows(q, |p.full|, p.line + s, w)
  {
    hide Joined;
    var k := |p.full|;
    assert p.line + s == (p.line + [s[0]]) + s[1..];
    if |p1.full| > k {
      var row := p.line + [s[0]];
      assert q.full[k] == q.full[..k + 1][k] == row;
      assert q.full[k..] == [row] + q.full[k + 1..];
      JoinedAppend([row], q.full[k + 1..]);
      JoinedOne(row);
      assert (row + Joined(q.full[k + 1..])) + q.line == row + (Joined(q.full[k + 1..]) + q.line);
      assert p1.line + s[1..] == s[1..];
    }
  }

  /** Text without newlines and tabs goes on in the row where the page ends: its characters follow each
      other from row to row. */
  lemma {:induction false} TextFlows(a: string, s: string, w: nat)
    requires 0 < w && Unbroken(s)
    ensures var p, q := PageOf(a, w), PageOf(a + s, w);
            && |p.full| <= |q.full| && q.full[..|p.full|] == p.full
            && exists cells :: Spells(s, cells) && Flows(q, |p.full|, p.line + cells, w)
    decreases |s|
  {
    hide PageOf, LooksLike, Glyphs, Flows, PutCells;
    var p, q, k := PageOf(a, w), PageOf(a + s, w), |PageOf(a, w).full|;
    if s == [] {
      assert a + s == a && p.line + [] == p.line;
      NothingFlows(p, w);
    } else {
      var t, c := s[..|s| - 1], s[|s| - 1];
      TextFlows(a, t, w);
      var m := PageOf(a + t, w);
      var cells :| Spells(t, cells) && Flows(m, k, p.line + cells, w);
      PutNext(a + t, c, w);
      assert (a + t) + [c] == a + s && t + [c] == s;
      PutCellsFlow(m, Glyphs(c), w);
      assert q.full[..k] == q.full[..|m.full|][..k];
      SpellsMore(t, cells, c, Glyphs(c));
      FlowsOn(m, q, k, p.line + cells, Glyphs(c), w);
      assert (p.line + cells) + Glyphs(c) == p.line + (cells + Glyphs(c));
      assert Spells(s, cells + Glyphs(c)) && Flows(q, k, p.line + (cells + Glyphs(c)), w);
    }
  }

  lemma NothingFlows(p: Page, w: nat)
    requires |p.line| < w
    ensures Spells([], []) && Flows(p, |p.full|, p.line + [], w) && p.full[..|p.full|] == p.full
  {
    var gs: seq<string> := [];
    assert Joined(gs) == [] && |gs| == 0;
    assert p.full[|p.full|..] == [] && p.line + [] == p.line;
  }

  lemma PutNext(t: string, c: char, w: nat)
    requires 0 < w
    ensures PageOf(t + [c], w) == PutChar(PageOf(t, w), c, w)
    ensures c != '\n' && c != '\t' ==>
              PageOf(t + [c], w) == PutCells(PageOf(t, w), Glyphs(c), w) && LooksLike(c, Glyphs(c))
  {
    assert (t + [c])[..|t|] == t;
    if c != '\n' && c != '\t' {
      GlyphsLook(c);
    }
  }

  lemma SpellsMore(t: string, cells: string, c: char, g: string)
    requires Spells(t, cells) && LooksLike(c, g)
    ensures Spells(t + [c], cells + g)
  {
    hide LooksLike, Joined;
    var gs: seq<string> :| |gs| == |t| && (forall i | 0 <= i < |t| :: LooksLike(t[i], gs[i])) && cells == Joined(gs);
    var all := gs + [g];
    JoinedAppend(gs, [g]);
    JoinedOne(g);
    forall i | 0 <= i < |t + [c]| ensures LooksLike((t + [c])[i], all[i]) {
      if i < |t| {
        assert LooksLike(t[i], gs[i]);
      }
    }
  }

  lemma FlowsOn(m: Page, q: Page, k: nat, s: string, g: string, w: nat)
    requires Flows(m, k, s, w) && |m.full| <= |q.full| && q.full[..|m.full|] == m.full
    requires Flows(q, |m.full|, m.line + g, w)
    ensures Flows(q, k, s + g, w)
  {
    hide Joined;
    var n := |m.full|;
    assert q.full[k..] == m.full[k..] + q.full[n..];
    JoinedAppend(m.full[k..], q.full[n..]);
    assert Joined(q.full[k..]) + q.line == Joined(m.full[k..]) + (Joined(q.full[n..]) + q.line);
    assert s + g == Joined(m.full[k..]) + (m.line + g);
    forall r | k <= r < |q.full| ensures |q.full[r]| == w {
      assert r < n ==> q.full[r] == q.full[..n][r];
    }
  }

  /** Characters that print are seen as they are. */
  lemma {:induction false} PrintableSpells(s: string, cells: string)
    requires Printable(s)
    ensures Spells(s, cells) <==> cells == s
  {
    var ones := seq(|s|, i requires 0 <= i < |s| => [s[i]]);
    JoinedOnes(s, ones);
    assert forall i | 0 <= i < |s| :: LooksLike(s[i], ones[i]);
    if Spells(s, cells) {
      var gs: seq<string> :| |gs| == |s| && (forall i | 0 <= i < |s| :: LooksLike(s[i], gs[i])) && cells == Joined(gs);
      JoinedOnes(s, gs);
    }
  }

  lemma {:induction false} JoinedOnes(s: string, ones: seq<string>)
    requires |ones| == |s| && forall i | 0 <= i < |s| :: ones[i] == [s[i]]
    ensures Joined(ones) == s
  {
    if s != [] {
      JoinedOnes(s[1..], ones[1..]);
    }
  }

  /** The rows of a screen show the page, and nothing below it. */
  predicate ShownOn(p: Page, rows: seq<string>, w: nat) {
    && |p.full| < |rows|
    && (forall r | 0 <= r <= |p.full| :: rows[r] == Fill(p.Row(r), w))
    && (forall r | |p.full| < r < |rows| :: rows[r] == Blanks(w))
  }

  /** The cells of a screen are those of s, and blanks. */
  ghost predicate Seen(s: string, screen: string) {
    exists cells :: Spells(s, cells) && cells <= screen && forall i | |cells| <= i < |screen| :: screen[i] == ' '
  }

  /** Read row by row, a screen that shows the page of a text shows the characters of the text. */
  lemma UnbrokenSeen(s: string, rows: seq<string>, w: nat)
    requires 0 < w && Unbroken(s) && ShownOn(PageOf(s, w), rows, w)
    ensures Seen(s, Joined(rows))
  {
    hide PageOf, Joined, Spells;
    TextFlows([], s, w);
    EmptyPage(w);
    assert [] + s == s;
    var p := PageOf(s, w);
    var cells :| Spells(s, cells) && Flows(p, 0, PageOf([], w).line + cells, w);
    assert [] + cells == cells && p.full[0..] == p.full;
    RowsJoined(p, rows, w);
    BlankRows(rows[|p.full| + 1..], w);
    SeenFirst(s, cells, Blanks(w - |p.line|) + Joined(rows[|p.full| + 1..]), Joined(rows));
  }

  lemma SeenFirst(s: string, cells: string, rest: string, screen: string)
    requires Spells(s, cells) && screen == cells + rest && forall i | 0 <= i < |rest| :: rest[i] == ' '
    ensures Seen(s, screen)
  {
    hide Spells;
    assert cells <= screen;
    forall i | |cells| <= i < |screen| ensures screen[i] == ' ' {
      assert screen[i] == rest[i - |cells|];
    }
  }

  lemma RowsJoined(p: Page, rows: seq<string>, w: nat)
    requires ShownOn(p, rows, w) && p.Ok(w) && Flows(p, 0, Joined(p.full) + p.line, w)
    ensures Joined(rows) == (Joined(p.full) + p.line) + (Blanks(w - |p.line|) + Joined(rows[|p.full| + 1..]))
  {
    hide Joined;
    var k := |p.full|;
    var below := rows[k + 1..];
    assert rows == p.full + ([rows[k]] + below) by {
      assert forall r | 0 <= r < k :: rows[r] == Fill(p.Row(r), w) == p.full[r];
    }
    JoinedAppend(p.full, [rows[k]] + below);
    JoinedAppend([rows[k]], below);
    JoinedOne(rows[k]);
    assert rows[k] == p.line + Blanks(w - |p.line|);
    Regroup(Joined(p.full), p.line, Blanks(w - |p.line|), Joined(below));
  }

  lemma Regroup(a: string, b: string, c: string, d: string)
    ensures a + ((b + c) + d) == (a + b) + (c + d)
  {
  }

  lemma {:induction false} BlankRows(rows: seq<string>, w: nat)
    requires forall r | 0 <= r < |rows| :: rows[r] == Blanks(w)
    ensures forall i | 0 <= i < |Joined(rows)| :: Joined(rows)[i] == ' '
  {
    if rows != [] {
      BlankRows(rows[1..], w);
    }
  }

  /** Where such a text ends. */
  lemma UnbrokenEnds(s: string, w: nat)
    requires 0 < w && Unbroken(s)
    ensures exists cells :: Spells(s, cells) && Position(PageOf(s, w)) == (|cells| % w, |cells| / w)
  {
    hide PageOf, Joined, Spells;
    TextFlows([], s, w);
    EmptyPage(w);
    assert [] + s == s;
    var p := PageOf(s, w);
    var cells :| Spells(s, cells) && Flows(p, 0, PageOf([], w).line + cells, w);
    assert [] + cells == cells && p.full[0..] == p.full;
    JoinedLength(p.full, w);
    QuotientIs(|cells|, |p.full|, |p.line|, w);
  }

  lemma PrintableUnbroken(s: string)
    requires Printable(s)
    ensures Unbroken(s)
  {
  }

  lemma PrintablePart(a: string, b: string, k: nat)
    requires Printable(a + b) && k <= |b|
    ensures Printable(a + b[..k])
  {
    assert forall i | 0 <= i < |a| + k :: (a + b[..k])[i] == (a + b)[i];
  }

  lemma PrintableSeen(s: string, screen: string)
    requires Printable(s)
    ensures Seen(s, screen) ==> s <= screen
  {
    hide Spells;
    if Seen(s, screen) {
      var cells :| Spells(s, cells) && cells <= screen;
      PrintableSpells(s, cells);
    }
  }

  lemma PrintableEnds(s: string, w: nat)
    requires 0 < w && Printable(s)
    ensures Position(PageOf(s, w)) == (|s| % w, |s| / w)
  {
    hide PageOf, Spells, Position;
    PrintableUnbroken(s);
    UnbrokenEnds(s, w);
    var cells :| Spells(s, cells) && Position(PageOf(s, w)) == (|cells| % w, |cells| / w);
    PrintableSpells(s, cells);
  }

  lemma {:induction false} JoinedLength(rows: seq<string>, w: nat)
    requires forall r | 0 <= r < |rows| :: |rows[r]| == w
    ensures |Joined(rows)| == |rows| * w
  {
    if rows != [] {
      JoinedLength(rows[1..], w);
    }
  }

  /** After a newline a page of its own begins. */
  lemma {:induction false} NewlineEndsRow(a: string, b: string, w: nat)
    requires 0 < w
    ensures var p, q := PageOf(a, w), PageOf(b, w);
            PageOf(a + "\n" + b, w) == Page(p.full + [p.line] + q.full, q.line)
    decreases |b|
  {
    hide PageOf, PutChar;
    var p := PageOf(a, w);
    if b == [] {
      PutNext(a, '\n', w);
      NewlinePut(p, w);
      EmptyPage(w);
      assert a + "\n" + b == a + "\n" && p.full + [p.line] + [] == p.full + [p.line];
    } else {
      var t, c := b[..|b| - 1], b[|b| - 1];
      NewlineEndsRow(a, t, w);
      PutNext(a + "\n" + t, c, w);
      PutNext(t, c, w);
      assert (a + "\n" + t) + [c] == a + "\n" + b && t + [c] == b;
      PutCharBelow(p.full + [p.line], PageOf(t, w), c, w);
    }
  }

  lemma EmptyPage(w: nat)
    requires 0 < w
    ensures PageOf([], w) == Page([], [])
  {
  }

  lemma NewlinePut(p: Page, w: nat)
    requires p.Ok(w)
    ensures PutChar(p, '\n', w) == Page(p.full + [p.line], [])
  {
  }

  /** Rows above do not matter for what is put on a page. */
  lemma PutCharBelow(rows: seq<string>, q: Page, c: char, w: nat)
    requires q.Ok(w) && Page(rows + q.full, q.line).Ok(w)
    ensures PutChar(Page(rows + q.full, q.line), c, w)
         == Page(rows + PutChar(q, c, w).full, PutChar(q, c, w).line)
  {
    hide PutCells, PutTab, Glyphs;
    match Classify(c)
    case Newline => assert (rows + q.full) + [q.line] == rows + (q.full + [q.line]);
    case Tab => PutTabBelow(rows, q, w);
    case _ => PutCellsBelow(rows, q, Glyphs(c), w);
  }

  lemma PutCellBelow(rows: seq<string>, q: Page, c: char, w: nat)
    requires c != NUL && q.Ok(w) && Page(rows + q.full, q.line).Ok(w)
    ensures PutCell(Page(rows + q.full, q.line), c, w)
         == Page(rows + PutCell(q, c, w).full, PutCell(q, c, w).line)
  {
    assert (rows + q.full) + [q.line + [c]] == rows + (q.full + [q.line + [c]]);
  }

  lemma {:induction false} PutCellsBelow(rows: seq<string>, q: Page, s: string, w: nat)
    requires NUL !in s && q.Ok(w) && Page(rows + q.full, q.line).Ok(w)
    ensures PutCells(Page(rows + q.full, q.line), s, w)
         == Page(rows + PutCells(q, s, w).full, PutCells(q, s, w).line)
    decreases |s|
  {
    hide PutCell;
    if s != [] {
      PutCellBelow(rows, q, s[0], w);
      PutCellsBelow(rows, PutCell(q, s[0], w), s[1..], w);
    }
  }

  lemma {:induction false} PutTabBelow(rows: seq<string>, q: Page, w: nat)
    requires q.Ok(w) && Page(rows + q.full, q.line).Ok(w)
    ensures PutTab(Page(rows + q.full, q.line), w)
         == Page(rows + PutTab(q, w).full, PutTab(q, w).line)
    decreases w - |q.line|
  {
    hide PutCell, PutTab;
    PutCellBelow(rows, q, ' ', w);
    TabUnfold(Page(rows + q.full, q.line), w);
    TabUnfold(q, w);
    if |PutCell(q, ' ', w).line| % 8 != 0 {
      PutTabBelow(rows, PutCell(q, ' ', w), w);
    }
  }

  /** A tab is blanks up to the next multiple of eight, or to the right edge, and then a row is full. */
  lemma TabIsBlanks(a: string, w: nat)
    requires 0 < w
    ensures var p, q := PageOf(a, w), PageOf(a + "\t", w); var stop := (|p.line| / 8 + 1) * 8;
            if stop < w then q == Page(p.full, p.line + Blanks(stop - |p.line|))
            else q == Page(p.full + [p.line + Blanks(w - |p.line|)], [])
  {
    hide PageOf, PutTab;
    PutNext(a, '\t', w);
    TabCells(PageOf(a, w), w);
  }

  lemma {:induction false} TabCells(p: Page, w: nat)
    requires p.Ok(w)
    ensures var q, stop := PutTab(p, w), (|p.line| / 8 + 1) * 8;
            if stop < w then q == Page(p.full, p.line + Blanks(stop - |p.line|))
            else q == Page(p.full + [p.line + Blanks(w - |p.line|)], [])
    decreases w - |p.line|
  {
    hide PutTab;
    var h := |p.line|;
    NextStop(h);
    TabUnfold(p, w);
    assert Blanks(1) == " ";
    if h + 1 < w && (h + 1) % 8 != 0 {
      TabCells(PutCell(p, ' ', w), w);
      var stop := (h / 8 + 1) * 8;
      var n := (if stop < w then stop else w) - h;
      assert p.line + Blanks(n) == (p.line + " ") + Blanks(n - 1);
    }
  }

  // ---------------------------------------------------------------- cursor arithmetic

  /** CalcPosition: the position after a character of this class, on a terminal th wide. */
  function CalcPosition(cl: Class, th: nat, h: nat, v: nat): (nat, nat)
    requires 0 < th
  {
    var (h1, v1) :=
      match cl
      case Newline => (0, v + 1)
      case Tab => ((h / 8 + 1) * 8, v)
      case Control => (h + 2, v)
      case Illegal => (h + 4, v)
      case Printing => (h + 1, v);
    if h1 >= th then (h1 - th, v1 + 1) else (h1, v1)
  }

  /** The cursor walk of RefCursor. */
  function CalcText(s: string, th: nat): (nat, nat)
    requires 0 < th
  {
    if s == [] then (0, 0)
    else
      var (h, v) := CalcText(s[..|s| - 1], th);
      CalcPosition(Classify(s[|s| - 1]), th, h, v)
  }

  lemma CalcTextStep(s: string, i: nat, th: nat)
    requires 0 < th && i < |s|
    ensures var (h, v) := CalcText(s[..i], th); CalcText(s[..i + 1], th) == CalcPosition(Classify(s[i]), th, h, v)
  {
    assert s[..i + 1][..i] == s[..i];
  }

  lemma NoText(s: string, th: nat)
    requires 0 < th
    ensures CalcText(s[..0], th) == (0, 0)
  {
  }

  lemma PutCellsPosition(p: Page, s: string, w: nat)
    requires p.Ok(w) && NUL !in s && |s| <= w
    ensures Position(PutCells(p, s, w)) ==
              if |p.line| + |s| >= w then (|p.line| + |s| - w, |p.full| + 1) else (|p.line| + |s|, |p.full|)
    decreases |s|
  {
    if s != [] {
      PutCellsPosition(PutCell(p, s[0], w), s[1..], w);
    }
  }

  /** A tab drawn with room for its stop ends there; one without ends at the next row. */
  lemma {:induction false} PutTabPosition(p: Page, w: nat)
    requires p.Ok(w)
    ensures var stop := (|p.line| / 8 + 1) * 8;
            Position(PutTab(p, w)) == if stop >= w then (0, |p.full| + 1) else (stop, |p.full|)
    decreases w - |p.line|
  {
    var q, h := PutCell(p, ' ', w), |p.line|;
    NextStop(h);
    if h + 1 < w && (h + 1) % 8 != 0 {
      assert PutTab(p, w) == PutTab(q, w);
      PutTabPosition(q, w);
    } else {
      assert PutTab(p, w) == q;
    }
  }

  lemma NextStop(h: nat)
    ensures h < (h / 8 + 1) * 8
    ensures if (h + 1) % 8 == 0 then h + 1 == (h / 8 + 1) * 8 else (h + 1) / 8 == h / 8
  {
  }

  /** CalcPosition agrees with Draw on every character but a tab whose stop lies past the
      right edge. */
  lemma CalcStepExact(p: Page, c: char, w: nat)
    requires p.Ok(w) && 4 <= w
    ensures CalcPosition(Classify(c), w, |p.line|, |p.full|) == Position(PutChar(p, c, w)) <==>
            (Classify(c) == Tab ==> (|p.line| / 8 + 1) * 8 <= w)
  {
    match Classify(c)
    case Newline =>
    case Tab => PutTabPosition(p, w);
    case _ => PutCellsPosition(p, Glyphs(c), w);
  }

  /** Every tab in the text has its stop on the row it is drawn on. */
  ghost predicate TabsFit(s: string, w: nat)
    requires 0 < w
  {
    forall i | 0 <= i < |s| :: s[i] == '\t' ==> StopOf(s[..i], w) <= w
  }

  /** The tab stop behind the text. */
  function StopOf(s: string, w: nat): nat
    requires 0 < w
  {
    (|PageOf(s, w).line| / 8 + 1) * 8
  }

  /** RefCursor's walk finds the drawn cursor when every tab fits. */
  lemma {:induction false} CalcTextIsPosition(s: string, w: nat)
    requires 4 <= w && TabsFit(s, w)
    ensures CalcText(s, w) == Position(PageOf(s, w))
    decreases |s|
  {
    if s != [] {
      var t := s[..|s| - 1];
      forall i | 0 <= i < |t| ensures t[i] == '\t' ==> StopOf(t[..i], w) <= w {
        assert t[..i] == s[..i] && t[i] == s[i];
      }
      CalcTextIsPosition(t, w);
      CalcStepExact(PageOf(t, w), s[|s| - 1], w);
    }
  }

  /** On rows whose width is a multiple of the tab distance every tab fits. */
  lemma TabsFitEvenly(s: string, w: nat)
    requires 0 < w && w % 8 == 0
    ensures TabsFit(s, w)
  {
    forall i | 0 <= i < |s| && s[i] == '\t' ensures StopOf(s[..i], w) <= w {
      StopFits(|PageOf(s[..i], w).line|, w);
    }
  }

  lemma StopFits(h: nat, w: nat)
    requires h < w && w % 8 == 0
    ensures (h / 8 + 1) * 8 <= w
  {
    assert h / 8 < w / 8;
  }

  /** On 12 columns a tab after nine characters goes wrong. */
  lemma TabPastEdgeDiffers()
    ensures var s := "123456789" + "\t";
            CalcText(s, 12) == (4, 1) && Position(PageOf(s, 12)) == (0, 1)
  {
    hide PutTab, PageOf, CalcText, CalcPosition;
    var t := "123456789";
    TabStep(t, 12);
    assert t + "\t" == "123456789" + "\t";
    CalcTextIsPosition(t, 12);
    PlainWalk(t, 12);
    NineThenTab();
    PutTabPosition(PageOf(t, 12), 12);
  }

  /** The last step of a text that ends with a tab. */
  lemma TabStep(t: string, w: nat)
    requires 2 <= w
    ensures CalcText(t + "\t", w) == CalcPosition(Tab, w, CalcText(t, w).0, CalcText(t, w).1)
    ensures PageOf(t + "\t", w) == PutTab(PageOf(t, w), w)
  {
    hide PutTab;
    var s := t + "\t";
    assert s[..|s| - 1] == t && s[|s| - 1] == '\t';
  }

  lemma NineThenTab()
    ensures CalcPosition(Tab, 12, 9, 0) == (4, 1)
  {
  }

  lemma PlainWalk(s: string, w: nat)
    requires |s| < w && forall c <- s :: Classify(c) == Printing
    ensures CalcText(s, w) == (|s|, 0)
  {
  }
}
