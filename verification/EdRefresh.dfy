/** Refresh and its fast forms RefCursor and RefPlusOne (ed.refresh.c), for a prompt and an
    input line without a right prompt, literals or wide characters. */
module EdRefresh {
  import opened Rows
  import opened Tty
  import opened EdScreen
  import opened RowUpdate
  import opened Layout

  class Editor {
    const scr: Screen
    const vdisplay: seq<array<char>>  // Vdisplay: the rows as they should be
    var vcursorH: nat
    var vcursorV: nat
    var oldV: nat     // OldvcV: last row in use
    var prompt: string
    var input: string // InputBuf up to LastChar
    var cursor: nat   // Cursor, as an index into input

    constructor (scr: Screen, vdisplay: seq<array<char>>)
      ensures this.scr == scr && this.vdisplay == vdisplay
      ensures oldV == 0 && prompt == [] && input == [] && cursor == 0
    {
      this.scr, this.vdisplay := scr, vdisplay;
      vcursorH, vcursorV, oldV := 0, 0, 0;
      prompt, input, cursor := [], [], 0;
    }

    // -------------------------------------------------------------- drawing into Vdisplay

    ghost predicate VShape()
      reads this
    {
      && |vdisplay| == scr.height && 2 <= scr.width
      && (forall r <- vdisplay :: r.Length == scr.width + 1)
      && (forall i, j | 0 <= i < j < |vdisplay| :: vdisplay[i] != vdisplay[j])
      && (forall i, j | 0 <= i < |vdisplay| && 0 <= j < |scr.display| :: vdisplay[i] != scr.display[j])
    }

    static ghost predicate Holds(b: array<char>, s: string)
      reads b
    {
      |s| < b.Length && b[..|s|] == s && b[|s|] == NUL && NUL !in s
    }

    /** Vdisplay holds the finished rows of p and the row being filled. */
    ghost predicate VShows(p: Page)
      reads this, vdisplay
    {
      && VShape() && p.Ok(scr.width)
      && vcursorV == |p.full| < scr.height && vcursorH == |p.line|
      && (forall r | 0 <= r < vcursorV :: Holds(vdisplay[r], p.full[r]))
      && vdisplay[vcursorV][..vcursorH] == p.line
    }

    /** Vdraw for a character one column wide. */
    method Vdraw(c: char, ghost p: Page)
      requires VShows(p) && c != NUL && |PutCell(p, c, scr.width).full| < scr.height
      modifies `vcursorH, `vcursorV, vdisplay
      ensures VShows(PutCell(p, c, scr.width))
    {
      var row := vdisplay[vcursorV];
      row[vcursorH] := c;
      vcursorH := vcursorH + 1;
      assert row[..vcursorH] == p.line + [c];
      if vcursorH >= scr.width {
        row[scr.width] := NUL;
        assert Holds(row, p.line + [c]);
        vcursorH := 0;
        vcursorV := vcursorV + 1;
      }
    }

    /** The newline case of Draw: Vdraw('\0', 0) ends the row. */
    method EndLine(ghost p: Page)
      requires VShows(p) && |p.full| + 1 < scr.height
      modifies `vcursorH, `vcursorV, vdisplay
      ensures VShows(EndRow(p, scr.width))
    {
      vdisplay[vcursorV][vcursorH] := NUL;
      assert Holds(vdisplay[vcursorV], p.line);
      vcursorH := 0;
      vcursorV := vcursorV + 1;
    }

    /** The tab case of Draw. */
    method DrawTab(ghost p: Page)
      requires VShows(p) && |PutTab(p, scr.width).full| < scr.height
      modifies `vcursorH, `vcursorV, vdisplay
      ensures VShows(PutTab(p, scr.width))
    {
      hide PutTab;
      ghost var q, goal := PutCell(p, ' ', scr.width), PutTab(p, scr.width);
      TabUnfold(p, scr.width);
      Vdraw(' ', p);
      while vcursorH % 8 != 0
        invariant VShows(q) && goal == if vcursorH % 8 == 0 then q else PutTab(q, scr.width)
        decreases if vcursorH % 8 == 0 then 0 else scr.width - vcursorH
      {
        TabUnfold(q, scr.width);
        Vdraw(' ', q);
        q := PutCell(q, ' ', scr.width);
      }
    }

    method Draw(c: char, ghost p: Page)
      requires VShows(p) && |PutChar(p, c, scr.width).full| < scr.height
      modifies `vcursorH, `vcursorV, vdisplay
      ensures VShows(PutChar(p, c, scr.width))
    {
      hide PutCell;
      ghost var w := scr.width;
      match Classify(c)
      case Newline => EndLine(p);
      case Tab => DrawTab(p);
      case Control =>
        ghost var second := if c as int == 0x7f then '?' else (c as int + 0x40) as char;
        PutTwo(p, '^', second, w);
        Vdraw('^', p);
        if c as int == 0x7f {
          Vdraw('?', PutCell(p, '^', w));
        } else {
          Vdraw((c as int + 0x40) as char, PutCell(p, '^', w));
        }
      case Illegal =>
        var d1 := (c as int / 64 % 8 + '0' as int) as char;
        var d2 := (c as int / 8 % 8 + '0' as int) as char;
        var d3 := (c as int % 8 + '0' as int) as char;
        ghost var p1 := PutCell(p, '\\', w);
        ghost var p2 := PutCell(p1, d1, w);
        PutFour(p, '\\', d1, d2, d3, w);
        Vdraw('\\', p);
        Vdraw(d1, p1);
        Vdraw(d2, p2);
        Vdraw(d3, PutCell(p2, d2, w));
      case Printing =>
        PutOne(p, c, w);
        Vdraw(c, p);
    }

    // -------------------------------------------------------------- rows of the screen

    /** The row shows its Display string. */
    ghost predicate Known(r: nat)
      requires r < |scr.display|
      reads scr, scr.display[r]
    {
      && IsCStr(scr.display[r]) && StrLen(scr.display[r][..]) <= scr.width
      && Shows(scr, r, CStr(scr.display[r][..]))
    }

    /** Display has every cell of the row. */
    ghost predicate Padded(r: nat)
      requires r < |scr.display|
      reads scr, scr.display[r]
    {
      && r < |scr.tty.rows| && scr.display[r].Length == scr.width + 1
      && scr.display[r][..scr.width] == scr.tty.rows[r] && scr.display[r][scr.width] == NUL
    }

    /** The row is not in use. */
    ghost predicate Unused(r: nat)
      requires r < |scr.display|
      reads scr, scr.display[r]
    {
      && r < |scr.tty.rows| && 0 < scr.display[r].Length
      && scr.display[r][0] == NUL && scr.tty.rows[r] == Blanks(scr.width)
    }

    /** With the cuts that bring row r to text the cursor is not lost, and what is to be inserted is. */
    ghost predicate RowFits(r: nat, text: string)
      requires r < |scr.display|
      reads scr.display[r]
    {
      var c := RowCuts(scr.caps, CStr(scr.display[r][..]), text);
      CursorKept(c, scr.caps, scr.width) && (Inserts(c) ==> scr.caps.InsertWorks())
    }

    ghost predicate Base()
      reads this, scr
    {
      && VShape() && scr.InSync()
      && (forall i, j | 0 <= i < j < scr.height :: scr.display[i] != scr.display[j])
      && scr.TabsUpTo(scr.width) && scr.caps.CanUp()
    }

    lemma UnusedKnown(r: nat)
      requires Base() && r < scr.height && Unused(r)
      ensures Known(r) && scr.Crossable(r) && scr.FirstCellShown(r)
    {
      StrLenIs(scr.display[r][..], 0);
    }

    lemma PaddedKnown(r: nat)
      requires Base() && r < scr.height && Padded(r)
      ensures Known(r) && scr.Crossable(r) && scr.FirstCellShown(r)
    {
      var b := scr.display[r][..];
      assert forall i | 0 <= i < scr.width :: b[i] == scr.display[r][..scr.width][i];
      StrLenIs(b, scr.width);
      assert CStr(b) == scr.tty.rows[r];
    }

    lemma KnownFirstCell(r: nat)
      requires Base() && r < scr.height && Known(r)
      ensures scr.FirstCellShown(r)
    {
      var b := scr.display[r][..];
      assert StrLen(b) > 0 ==> CStr(b)[0] == b[0];
    }

    /** Copy the string of src to dst and fill dst up to width with blanks. */
    static method CpyPadSpaces(dst: array<char>, src: array<char>, width: nat)
      requires dst != src && dst.Length == width + 1 == src.Length && IsCStr(src)
      modifies dst
      ensures dst[..width] == Fill(CStr(src[..]), width) && dst[width] == NUL
    {
      ghost var s := CStr(src[..]);
      var i := 0;
      while i < width
        invariant i <= width && i <= |s| && forall k | 0 <= k < i :: dst[k] == s[k]
      {
        if src[i] == NUL {
          break;
        }
        dst[i] := src[i];
        i := i + 1;
      }
      assert i == width || i == |s|;
      while i < width
        invariant i <= width && forall k | 0 <= k < i :: dst[k] == Fill(s, width)[k]
      {
        dst[i] := ' ';
        i := i + 1;
      }
      dst[i] := NUL;
    }

    /** One step of Refresh: bring row cur up to date and pad its Display copy. */
    method RefreshRow(cur: nat, ghost text: string)
      requires Base() && cur < scr.height
      requires Holds(vdisplay[cur], text) && |text| <= scr.width && RowFits(cur, text)
      requires |text| == scr.width ==> cur + 1 < scr.height
      requires forall r | 0 <= r < cur :: Padded(r)
      requires forall r | cur <= r < scr.height :: Known(r)
      modifies scr`tty, scr`cursorH, scr`cursorV, scr.display[cur], vdisplay[cur]
      ensures Base() && Padded(cur)
      ensures scr.tty.rows == old(scr.tty.rows)[cur := Fill(text, scr.width)]
    {
      hide RowCuts, CursorKept, Inserts, CanUpdate, Manageable;
      HoldsCStr(vdisplay[cur], text);
      Updatable(cur, vdisplay[cur]);
      UpdateLine(scr, cur, vdisplay[cur]);
      CpyPadSpaces(scr.display[cur], vdisplay[cur], scr.width);
    }

    lemma HoldsCStr(b: array<char>, text: string)
      requires Holds(b, text)
      ensures IsCStr(b) && CStr(b[..]) == text
    {
      assert forall i | 0 <= i < |text| :: b[..][i] == b[..|text|][i];
      StrLenIs(b[..], |text|);
    }

    /** Rows above are padded or unused, rows from cur on show their Display strings. */
    lemma Updatable(cur: nat, want: array<char>)
      requires Base() && cur < scr.height
      requires forall r | 0 <= r < cur :: Padded(r) || Unused(r)
      requires forall r | cur <= r < scr.height :: Known(r)
      requires IsCStr(want) && StrLen(want[..]) <= scr.width
      requires StrLen(want[..]) == scr.width ==> cur + 1 < scr.height
      requires forall r | 0 <= r < scr.height :: scr.display[r] != want
      ensures CanUpdate(scr, cur, want)
      ensures RowFits(cur, CStr(want[..])) ==>
                Manageable(scr, cur, RowCuts(scr.caps, CStr(scr.display[cur][..]), CStr(want[..])))
    {
      hide RowCuts, CursorKept, Inserts;
      CrossableAbove(cur);
      RowCutsEnds(scr.caps, CStr(scr.display[cur][..]), CStr(want[..]));
    }

    lemma CrossableAbove(cur: nat)
      requires Base() && cur < scr.height
      requires forall r | 0 <= r < cur :: Padded(r) || Unused(r)
      requires forall r | cur <= r < scr.height :: Known(r)
      ensures Known(cur)
      ensures forall r | scr.cursorV <= r < cur :: scr.Crossable(r) && scr.FirstCellShown(r + 1)
      ensures cur + 1 < scr.height ==> scr.FirstCellShown(cur + 1)
    {
      forall r | 0 <= r < scr.height ensures scr.FirstCellShown(r) && (r < cur ==> scr.Crossable(r)) {
        if r >= cur {
          KnownFirstCell(r);
        } else if Padded(r) {
          PaddedKnown(r);
        } else {
          UnusedKnown(r);
        }
      }
    }

    /** Refresh for a row that is no longer used. */
    method ClearRow(cur: nat)
      requires Base() && cur < scr.height && RowFits(cur, [])
      requires forall r | 0 <= r < cur :: Padded(r) || Unused(r)
      requires forall r | cur <= r < scr.height :: Known(r)
      modifies scr`tty, scr`cursorH, scr`cursorV, scr.display[cur]
      ensures Base() && Unused(cur)
      ensures scr.tty.rows == old(scr.tty.rows)[cur := Blanks(scr.width)]
      ensures scr.display[cur][..] == Erased(old(scr.display[cur][..]))
    {
      hide RowCuts, CursorKept, Inserts, CanUpdate, Manageable, Shows, Fill, Trimmed;
      var strnull := new char[1](_ => NUL);
      StrLenIs(strnull[..], 0);
      assert CStr(strnull[..]) == [] && Known(cur);
      Updatable(cur, strnull);
      UpdateLine(scr, cur, strnull);
      NothingFills(scr.width);
      scr.display[cur][0] := NUL;
    }

    /** Rows [0, n) show p and are padded. */
    ghost predicate Upper(p: Page, n: nat)
      requires n <= |scr.display| && n <= |p.full| + 1
      reads scr, scr.display
    {
      forall r | 0 <= r < n :: Padded(r) && scr.tty.rows[r] == Fill(p.Row(r), scr.width)
    }

    /** What p wants in row r. */
    static ghost function Wanted(p: Page, r: nat): string {
      if r <= |p.full| then p.Row(r) else []
    }

    /** No row that Refresh updates for p needs more than the terminal can do. */
    ghost predicate RowsFit(p: Page, first: nat)
      requires scr.height == |scr.display|
      reads scr.display
    {
      forall r | first <= r < scr.height :: RowFits(r, Wanted(p, r))
    }

    /** On a terminal that can clear to the end of a line, and that inserts if it is taken to, every row
        fits, whatever it shows and is to show. */
    lemma AnyRowFits(r: nat, text: string)
      requires r < |scr.display| && scr.caps.ce && (scr.caps.CanIns() ==> scr.caps.InsertWorks())
      ensures RowFits(r, text)
    {
      RowCutsFeasible(scr.caps, CStr(scr.display[r][..]), text);
    }

    /** First loop of Refresh. */
    method RefreshRows(ghost p: Page, newV: nat) returns (cur: nat)
      requires Base() && newV == |p.full| < scr.height && p.Ok(scr.width)
      requires forall r | 0 <= r <= newV :: Holds(vdisplay[r], p.Row(r))
      requires forall r | 0 <= r < scr.height :: Known(r)
      requires RowsFit(p, 0) && forall r | oldV < r < scr.height :: Unused(r)
      modifies scr`tty, scr`cursorH, scr`cursorV, scr.display, vdisplay
      ensures Base() && cur == newV + 1 && Upper(p, cur) && RowsFit(p, cur)
      ensures forall r | cur <= r < scr.height :: Known(r)
      ensures forall r | oldV < r < scr.height && cur <= r :: Unused(r)
    {
      hide RowFits, Holds, Fill;
      cur := 0;
      while cur <= newV
        invariant Base() && cur <= newV + 1 && Upper(p, cur) && RowsFit(p, cur)
        invariant forall r | cur <= r <= newV :: Holds(vdisplay[r], p.Row(r))
        invariant forall r | cur <= r < scr.height :: Known(r)
        invariant forall r | oldV < r < scr.height && cur <= r :: Unused(r)
      {
        label before:
        assert RowFits(cur, Wanted(p, cur));
        RefreshRow(cur, p.Row(cur));
        forall r | 0 <= r < scr.height && r != cur
          ensures r < cur ==> Padded(r) && scr.tty.rows[r] == Fill(p.Row(r), scr.width)
          ensures r > cur ==> Known(r) && (oldV < r ==> Unused(r)) && RowFits(r, Wanted(p, r))
          ensures cur < r <= newV ==> Holds(vdisplay[r], p.Row(r))
        {
          assert scr.tty.rows[r] == old@before(scr.tty.rows[r]);
          assert r < cur ==> old@before(Padded(r));
          assert r > cur ==> old@before(Known(r)) && (oldV < r ==> old@before(Unused(r)))
                             && old@before(RowFits(r, Wanted(p, r)));
          assert cur < r <= newV ==> old@before(Holds(vdisplay[r], p.Row(r)));
        }
        cur := cur + 1;
      }
    }

    /** Second loop of Refresh. */
    method ClearRows(ghost p: Page, first: nat)
      requires Base() && first == |p.full| + 1 <= scr.height && oldV < scr.height && Upper(p, first)
      requires RowsFit(p, first)
      requires forall r | first <= r < scr.height :: Known(r) && (oldV < r ==> Unused(r))
      modifies scr`tty, scr`cursorH, scr`cursorV, scr.display
      ensures Base() && Upper(p, first)
      ensures forall r | first <= r < scr.height :: Unused(r)
    {
      hide RowFits;
      var cur := first;
      while cur <= oldV
        invariant Base() && first <= cur && (cur <= oldV + 1 || cur == first) && Upper(p, first)
        invariant RowsFit(p, cur)
        invariant forall r | first <= r < cur :: Unused(r)
        invariant forall r | cur <= r < scr.height :: Known(r) && (oldV < r ==> Unused(r))
      {
        label before:
        assert RowFits(cur, Wanted(p, cur));
        ClearRow(cur);
        forall r | 0 <= r < scr.height && r != cur
          ensures r < first ==> Padded(r) && scr.tty.rows[r] == Fill(p.Row(r), scr.width)
          ensures first <= r < cur ==> Unused(r)
          ensures r > cur ==> Known(r) && (oldV < r ==> Unused(r)) && RowFits(r, Wanted(p, r))
        {
          assert scr.tty.rows[r] == old@before(scr.tty.rows[r]);
          assert r < first ==> old@before(Padded(r));
          assert first <= r < cur ==> old@before(Unused(r));
          assert r > cur ==> old@before(Known(r)) && (oldV < r ==> old@before(Unused(r)))
                             && old@before(RowFits(r, Wanted(p, r)));
        }
        cur := cur + 1;
      }
    }

    // -------------------------------------------------------------- Refresh

    ghost function Text(): string
      reads this
    {
      prompt + input
    }

    /** The text fits the rows there are, and the cursor is in it. */
    ghost predicate Fits()
      reads this
    {
      cursor <= |input| && 2 <= scr.width && |PageOf(Text(), scr.width).full| < scr.height
    }

    /** The page up to the cursor. */
    ghost function CursorPage(): Page
      requires Fits()
      reads this
    {
      PageOf(prompt + input[..cursor], scr.width)
    }

    method DrawNext(c: char, ghost s: string)
      requires 2 <= scr.width
      requires VShows(PageOf(s, scr.width)) && |PageOf(s + [c], scr.width).full| < scr.height
      modifies `vcursorH, `vcursorV, vdisplay
      ensures VShows(PageOf(s + [c], scr.width))
    {
      assert (s + [c])[..|s|] == s;
      Draw(c, PageOf(s, scr.width));
    }

    method DrawPrompt()
      requires VShape() && Fits()
      modifies `vcursorH, `vcursorV, vdisplay
      ensures VShows(PageOf(prompt, scr.width))
    {
      assert PageOf([], scr.width) == EMPTY;
      hide PageOf;
      vcursorH, vcursorV := 0, 0;
      assert VShows(EMPTY);
      var i := 0;
      ghost var done: string := [];
      while i < |prompt|
        invariant i <= |prompt| && done == prompt[..i] && VShows(PageOf(done, scr.width))
      {
        PromptStep(i);
        DrawNext(prompt[i], done);
        done := done + [prompt[i]];
        i := i + 1;
      }
      assert done == prompt;
    }

    lemma PromptStep(i: nat)
      requires Fits() && i < |prompt|
      ensures prompt[..i + 1] == prompt[..i] + [prompt[i]]
      ensures |PageOf(prompt[..i] + [prompt[i]], scr.width).full| < scr.height
    {
      assert prompt[..i] + [prompt[i]] == Text()[..i + 1];
      PagesGrow(Text(), i + 1, scr.width);
    }

    lemma InputStep(i: nat)
      requires Fits() && i < |input|
      ensures prompt + input[..i + 1] == (prompt + input[..i]) + [input[i]]
      ensures |PageOf((prompt + input[..i]) + [input[i]], scr.width).full| < scr.height
    {
      assert (prompt + input[..i]) + [input[i]] == Text()[..|prompt| + i + 1];
      PagesGrow(Text(), |prompt| + i + 1, scr.width);
    }

    /** The drawing cursor is where the page ends. */
    lemma AtPosition(p: Page)
      requires VShows(p)
      ensures (vcursorH, vcursorV) == Position(p)
    {
    }

    /** The page for the text before the cursor. */
    lemma CursorPageIs()
      requires Fits()
      ensures CursorPage() == PageOf(prompt + input[..cursor], scr.width) && cursor <= |input|
    {
    }

    /** Draw prompt and input into Vdisplay and note where the cursor comes to be. */
    method DrawAll() returns (curH: nat, curV: nat)
      requires VShape() && Fits()
      modifies `vcursorH, `vcursorV, vdisplay
      ensures VShows(PageOf(Text(), scr.width)) && (curH, curV) == Position(CursorPage())
    {
      hide PageOf, Position, VShows, CursorPage;
      CursorPageIs();
      ghost var page := PageOf(prompt + input[..cursor], scr.width);
      DrawPrompt();
      assert prompt == prompt + input[..0];
      curH, curV := 0, 0;
      var found := false;
      var i := 0;
      while i < |input|
        invariant i <= |input| && VShows(PageOf(prompt + input[..i], scr.width))
        invariant found <==> cursor < i
        invariant found ==> (curH, curV) == Position(page)
      {
        AtPosition(PageOf(prompt + input[..i], scr.width));
        if i >= cursor && !found {
          curH, curV, found := vcursorH, vcursorV, true;
        }
        InputStep(i);
        DrawNext(input[i], prompt + input[..i]);
        i := i + 1;
      }
      assert input[..i] == input;
      CursorPageIs();
      AtPosition(PageOf(prompt + input[..i], scr.width));
      if !found {
        curH, curV := vcursorH, vcursorV;
      }
    }

    /** Vdraw('\0', 1) at the end of the text. */
    method EndText(ghost p: Page)
      requires VShows(p)
      modifies `vcursorH, `vcursorV, vdisplay
      ensures VShape() && forall r | 0 <= r <= |p.full| :: Holds(vdisplay[r], p.Row(r))
    {
      vdisplay[vcursorV][vcursorH] := NUL;
      assert Holds(vdisplay[vcursorV], p.line);
      vcursorH := vcursorH + 1;
      if vcursorH >= scr.width {
        vdisplay[vcursorV][scr.width] := NUL;
        vcursorH := 0;
        vcursorV := vcursorV + 1;
      }
    }

    /** The screen shows p: its rows, blank rows below, and oldV is its last row. */
    ghost predicate Displayed(p: Page)
      reads this, scr
    {
      && oldV == |p.full| < scr.height == |scr.tty.rows|
      && forall r | 0 <= r < scr.height :: scr.tty.rows[r] ==
           if r <= |p.full| then Fill(p.Row(r), scr.width) else Blanks(scr.width)
    }

    /** Nothing but blanks and NULs is stored in Display row r from column h on. */
    ghost predicate CleanTail(r: nat, h: nat)
      requires r < |scr.display|
      reads scr, scr.display[r]
    {
      && scr.display[r].Length == scr.width + 1 && scr.display[r][scr.width] == NUL
      && forall i | h <= i < scr.width :: scr.display[r][i] == NUL || scr.display[r][i] == ' '
    }

    /** What holds between commands: rows above the last are padded, the last shows its
        Display string, those below are unused. */
    ghost predicate Settled()
      reads this, scr, scr.display, vdisplay
    {
      && Base() && oldV < scr.height && Known(oldV)
      && (forall r | 0 <= r < oldV :: Padded(r))
      && (forall r | oldV < r < scr.height :: Unused(r))
    }

    /** ClearDisp: nothing is known of the screen any more; on a blank one that is all there is. */
    method ClearDisp()
      requires VShape() && scr.Shape() && forall i, j | 0 <= i < j < scr.height :: scr.display[i] != scr.display[j]
      modifies this`oldV, scr`cursorH, scr`cursorV, scr.display
      ensures oldV == 0 && scr.cursorH == 0 && scr.cursorV == 0
      ensures forall r, k | 0 <= r < scr.height && 0 <= k <= scr.width :: scr.display[r][k] == NUL
    {
      scr.cursorV, scr.cursorH := 0, 0;
      var i := 0;
      while i < scr.height
        invariant i <= scr.height && scr.cursorH == 0 && scr.cursorV == 0
        invariant forall r, k | 0 <= r < i && 0 <= k <= scr.width :: scr.display[r][k] == NUL
      {
        var row := scr.display[i];
        forall k | 0 <= k < row.Length {
          row[k] := NUL;
        }
        i := i + 1;
      }
      oldV := 0;
    }

    /** The screen shows p, and Display knows all that later commands rely on. */
    ghost predicate Current(p: Page)
      reads this, scr, scr.display, vdisplay
    {
      && Settled() && Displayed(p) && CleanTail(oldV, |p.line|) && p.Ok(scr.width)
      && (forall i | 0 <= i < |p.line| :: scr.display[oldV][i] == p.line[i])
    }

    method Refresh()
      requires Settled() && Fits() && RowsFit(PageOf(Text(), scr.width), 0)
      modifies this`vcursorH, this`vcursorV, this`oldV, vdisplay
      modifies scr`tty, scr`cursorH, scr`cursorV, scr.display
      ensures Current(PageOf(Text(), scr.width))
      ensures (scr.cursorH, scr.cursorV) == Position(CursorPage())
      ensures Unbroken(Text()) ==> Seen(Text(), Joined(scr.tty.rows))
      ensures Printable(Text()) ==>
                var at := |prompt| + cursor;
                Text() <= Joined(scr.tty.rows) && (scr.cursorH, scr.cursorV) == (at % scr.width, at / scr.width)
    {
      hide PageOf, Displayed, Settled, Current, Unbroken, Printable, Seen, Joined, Fill;
      ghost var p := PageOf(Text(), scr.width);
      var curH, curV, newV := Paint(p);
      oldV := newV;
      CursorInPage();
      label painted:
      PaddedKnown(curV);
      assert forall i | 0 <= i < curH :: scr.display[curV][i] == scr.display[curV][..scr.width][i];
      GoTo(curH, curV);
      forall r | 0 <= r <= newV ensures Padded(r) && scr.tty.rows[r] == Fill(p.Row(r), scr.width) {
        assert old@painted(Padded(r));
      }
      RowsDisplayed(p);
      TextSeen(p);
    }

    /** Text without newlines and tabs can be read off the screen; text that prints is there as it is, with the
        cursor behind as many cells as there are characters before it. */
    lemma TextSeen(p: Page)
      requires Fits() && p == PageOf(Text(), scr.width) && Current(p)
      ensures Unbroken(Text()) ==> Seen(Text(), Joined(scr.tty.rows))
      ensures Printable(Text()) ==>
                && Text() <= Joined(scr.tty.rows)
                && Position(CursorPage()) == ((|prompt| + cursor) % scr.width, (|prompt| + cursor) / scr.width)
    {
      hide PageOf, Unbroken, Printable, Seen, Joined, Position;
      var w := scr.width;
      if Printable(Text()) {
        PrintableUnbroken(Text());
      }
      if Unbroken(Text()) {
        UnbrokenSeen(Text(), scr.tty.rows, w);
      }
      if Printable(Text()) {
        PrintableSeen(Text(), Joined(scr.tty.rows));
        PrintablePart(prompt, input, cursor);
        PrintableEnds(prompt + input[..cursor], w);
      }
    }

    lemma RowsDisplayed(p: Page)
      requires Base() && oldV == |p.full| < scr.height && Upper(p, oldV + 1)
      requires forall r | oldV < r < scr.height :: Unused(r)
      requires p.Ok(scr.width)
      ensures Current(p)
    {
      PaddedKnown(oldV);
      assert Padded(oldV);
      forall i | 0 <= i < scr.width ensures scr.display[oldV][i] == Fill(p.line, scr.width)[i] {
        assert scr.display[oldV][i] == scr.display[oldV][..scr.width][i];
      }
      forall r | 0 <= r < scr.height
        ensures scr.tty.rows[r] ==
                if r <= |p.full| then Fill(p.Row(r), scr.width) else Blanks(scr.width)
      {
        assert if r <= oldV then Padded(r) else Unused(r);
      }
    }

    /** Draw the text and update every row that is or was in use. */
    method Paint(ghost p: Page) returns (curH: nat, curV: nat, newV: nat)
      requires Settled() && Fits() && p == PageOf(Text(), scr.width) && RowsFit(p, 0)
      modifies `vcursorH, `vcursorV, vdisplay
      modifies scr`tty, scr`cursorH, scr`cursorV, scr.display
      ensures Base() && newV == |p.full| && Upper(p, newV + 1)
      ensures forall r | newV < r < scr.height :: Unused(r)
      ensures (curH, curV) == Position(CursorPage())
    {
      hide PageOf, RowFits, Wanted, Shows, CursorPage, Position;
      CursorPageIs();
      curH, curV, newV := DrawText(p);
      var cur := RefreshRows(p, newV);
      ClearRows(p, cur);
      CursorPageIs();
    }

    /** The drawing part of Refresh; nothing is sent to the terminal. */
    method DrawText(ghost p: Page) returns (curH: nat, curV: nat, newV: nat)
      requires Settled() && Fits() && p == PageOf(Text(), scr.width) && RowsFit(p, 0)
      modifies `vcursorH, `vcursorV, vdisplay
      ensures Base() && newV == |p.full| < scr.height && RowsFit(p, 0) && p.Ok(scr.width)
      ensures forall r | 0 <= r <= newV :: Holds(vdisplay[r], p.Row(r))
      ensures forall r | 0 <= r < scr.height :: Known(r) && (oldV < r ==> Unused(r))
      ensures (curH, curV) == Position(CursorPage())
    {
      hide PageOf, RowFits, Wanted, Shows, CursorPage, Position;
      AllKnown();
      curH, curV := DrawAll();
      CursorPageIs();
      newV := vcursorV;
      label drawn:
      EndText(p);
      forall r | 0 <= r < scr.height
        ensures Known(r) && (oldV < r ==> Unused(r)) && RowFits(r, Wanted(p, r))
      {
        assert old@drawn(Known(r) && RowFits(r, Wanted(p, r)));
        assert oldV < r ==> old@drawn(Unused(r));
      }
      CursorPageIs();
    }

    /** Move to row v, over rows that are padded, and to a column Display knows the way to. */
    method GoTo(h: nat, v: nat)
      requires Base() && v < scr.height && h < scr.width && Known(v)
      requires forall r | 0 <= r < v :: Padded(r)
      requires forall i | 0 <= i < h :: scr.display[v][i] == scr.tty.rows[v][i]
      modifies scr`tty, scr`cursorH, scr`cursorV
      ensures Base() && scr.cursorH == h && scr.cursorV == v && scr.tty.rows == old(scr.tty.rows)
      ensures forall r | 0 <= r < scr.height :: old(Unused(r)) ==> Unused(r)
      ensures forall r | 0 <= r < scr.height :: old(Padded(r)) ==> Padded(r)
      ensures forall r | 0 <= r < scr.height :: old(Known(r)) ==> Known(r)
    {
      forall r | scr.cursorV <= r < v ensures scr.Crossable(r) && scr.FirstCellShown(r + 1) {
        PaddedKnown(r);
        if r + 1 < v {
          PaddedKnown(r + 1);
        } else {
          KnownFirstCell(v);
        }
      }
      scr.MoveToLine(v);
      scr.MoveToChar(h);
    }

    lemma AllKnown()
      requires Settled()
      ensures forall r | 0 <= r < scr.height :: Known(r)
    {
      forall r | 0 <= r < scr.height ensures Known(r) {
        if r < oldV {
          PaddedKnown(r);
        } else if r > oldV {
          UnusedKnown(r);
        }
      }
    }

    lemma CursorInPage()
      requires Fits()
      ensures |CursorPage().line| < scr.width && CursorPage().Before(PageOf(Text(), scr.width))
    {
      hide PageOf;
      assert prompt + input[..cursor] == Text()[..|prompt| + cursor];
      PagesGrow(Text(), |prompt| + cursor, scr.width);
    }

    // -------------------------------------------------------------- fast forms

    /** RefCursor's walk over prompt and input, without drawing. */
    method CalcCursor() returns (h: nat, v: nat)
      requires Fits() && 4 <= scr.width && TabsFit(prompt + input[..cursor], scr.width)
      ensures (h, v) == Position(CursorPage())
    {
      hide PageOf, CalcPosition, CalcText, TabsFit;
      h, v := 0, 0;
      var i := 0;
      ghost var text := prompt + input[..cursor];
      NoText(text, scr.width);
      while i < |prompt|
        invariant i <= |prompt| && (h, v) == CalcText(text[..i], scr.width)
      {
        CalcTextStep(text, i, scr.width);
        var pos := CalcPosition(Classify(prompt[i]), scr.width, h, v);
        h, v := pos.0, pos.1;
        i := i + 1;
      }
      i := 0;
      while i < cursor
        invariant i <= cursor && (h, v) == CalcText(text[..|prompt| + i], scr.width)
      {
        CalcTextStep(text, |prompt| + i, scr.width);
        var pos := CalcPosition(Classify(input[i]), scr.width, h, v);
        h, v := pos.0, pos.1;
        i := i + 1;
      }
      assert text[..|prompt| + i] == text;
      CalcTextIsPosition(text, scr.width);
    }

    /** RefCursor: move to where Refresh would leave the cursor. */
    method RefCursor()
      requires Fits() && Current(PageOf(Text(), scr.width)) && 4 <= scr.width
      requires TabsFit(prompt + input[..cursor], scr.width)
      modifies scr`tty, scr`cursorH, scr`cursorV
      ensures Current(PageOf(Text(), scr.width)) && scr.tty.rows == old(scr.tty.rows)
      ensures (scr.cursorH, scr.cursorV) == Position(CursorPage())
    {
      hide PageOf, Displayed, Current, Settled, Known, Padded, Unused, CleanTail, Shows;
      ghost var p := PageOf(Text(), scr.width);
      var h, v := CalcCursor();
      CursorInPage();
      CurrentSettled(p);
      ghost var rows := scr.tty.rows;
      ReachedCells(p, h, v);
      label ready:
      GoTo(h, v);
      forall r | 0 <= r < scr.height
        ensures (r < oldV ==> Padded(r)) && (r == oldV ==> Known(r)) && (r > oldV ==> Unused(r))
      {
        assert old@ready(if r < oldV then Padded(r) else if r == oldV then Known(r) else Unused(r));
      }
      CurrentMoved(p, rows);
    }

    /** Display knows the way to a position that is not after the end of the page. */
    lemma ReachedCells(p: Page, h: nat, v: nat)
      requires Current(p) && h < scr.width && (v < oldV || (v == oldV && h <= |p.line|))
      ensures Known(v) && forall i | 0 <= i < h :: scr.display[v][i] == scr.tty.rows[v][i]
    {
      hide Displayed, CleanTail;
      CurrentSettled(p);
      if v < oldV {
        PaddedKnown(v);
        assert forall j | 0 <= j < h :: scr.display[v][j] == scr.display[v][..scr.width][j];
      }
    }

    /** Only the cursor has moved. */
    lemma CurrentMoved(p: Page, rows: seq<string>)
      requires Base() && p.Ok(scr.width) && oldV == |p.full| < scr.height == |rows| && scr.tty.rows == rows
      requires forall r | 0 <= r < scr.height :: rows[r] ==
                 if r <= |p.full| then Fill(p.Row(r), scr.width) else Blanks(scr.width)
      requires forall r | 0 <= r < scr.height ::
                 (r < oldV ==> Padded(r)) && (r == oldV ==> Known(r)) && (r > oldV ==> Unused(r))
      requires CleanTail(oldV, |p.line|)
      requires forall i | 0 <= i < |p.line| :: scr.display[oldV][i] == p.line[i]
      ensures Current(p)
    {
    }

    // -------------------------------------------------------------- one more character

    /** A row typed up to |line| with nothing stale behind shows its Display string. */
    lemma TypedKnown(r: nat, line: string)
      requires r < |scr.display| && CleanTail(r, |line|) && |line| <= scr.width && NUL !in line
      requires forall i | 0 <= i < |line| :: scr.display[r][i] == line[i]
      requires Shows(scr, r, line)
      ensures Known(r)
      ensures |line| == scr.width ==> Padded(r)
    {
      var b := scr.display[r][..];
      assert b[scr.width] == NUL && StrLen(b) >= |line|;
      assert CStr(b)[..|line|] == line;
      FillTrimmed(CStr(b), |line|, scr.width);
    }

    /** The terminal has just been sent a character for the last column of row v. */
    ghost predicate AtEdge(v: nat)
      reads scr
    {
      && (if scr.caps.am && !scr.caps.xn then scr.tty.h == 0 && scr.tty.v == v + 1
          else scr.tty.h == scr.width - 1 && scr.tty.v == v)
      && scr.tty.pending == (scr.caps.am && scr.caps.xn)
    }

    /** Put c in the cell under the cursor, on the screen and in Display. */
    method PlaceOne(c: char, ghost p: Page)
      requires scr.InSync() && (scr.cursorH, scr.cursorV) == Position(p) && c != NUL
      requires Shows(scr, scr.cursorV, p.line)
      requires |p.line| + 1 == scr.width ==> scr.cursorV + 1 < scr.height
      modifies scr`tty, scr`cursorH, scr.display[scr.cursorV]
      ensures scr.Shape() && scr.cursorH == |p.line| + 1 <= scr.width
      ensures scr.tty.rows == old(scr.tty.rows)[scr.cursorV := Fill(p.line + [c], scr.width)]
      ensures scr.display[scr.cursorV][..] == old(scr.display[scr.cursorV][..])[|p.line| := c]
      ensures if scr.cursorH < scr.width then scr.InSync() else AtEdge(scr.cursorV)
    {
      var v := scr.cursorV;
      assert Fill(p.line, scr.width)[|p.line| := c] == Fill(p.line + [c], scr.width);
      scr.tty := Put(scr.tty, scr.caps, c, false);
      scr.display[v][scr.cursorH] := c;
      scr.cursorH := scr.cursorH + 1;
    }

    /** The overflow case of PutPlusOne: force the wrap that a magic margin delays, or send a
        newline where margins are not automatic. */
    method Overflow()
      requires scr.Shape() && AtEdge(scr.cursorV) && scr.cursorV + 1 < scr.height
      requires scr.tty.rows[scr.cursorV + 1] == Blanks(scr.width)
      modifies this`oldV, scr`tty, scr`cursorH, scr`cursorV
      ensures scr.InSync() && scr.tty.rows == old(scr.tty.rows)
      ensures scr.cursorH == 0 && scr.cursorV == old(scr.cursorV) + 1 && oldV == old(oldV) + 1
    {
      ghost var rows := scr.tty.rows;
      scr.cursorH := 0;
      scr.cursorV := scr.cursorV + 1;
      oldV := oldV + 1;
      if scr.caps.am {
        if scr.caps.xn {
          assert rows[scr.cursorV][0 := ' '] == rows[scr.cursorV];
          assert rows[scr.cursorV := rows[scr.cursorV]] == rows;
          scr.tty := Backspace(Put(scr.tty, scr.caps, ' ', false));
        }
      } else {
        scr.tty := Tty.Newline(CarriageReturn(scr.tty));
      }
    }

    method PlaceAndWrap(c: char, ghost p: Page)
      requires Base() && p.Ok(scr.width) && (scr.cursorH, scr.cursorV) == Position(p) && c != NUL
      requires oldV == |p.full| && Shows(scr, oldV, p.line)
      requires |p.line| + 1 >= scr.width ==> oldV + 1 < scr.height && Unused(oldV + 1)
      modifies this`oldV, scr`tty, scr`cursorH, scr`cursorV, scr.display[oldV]
      ensures Base() && oldV == |PutCell(p, c, scr.width).full|
      ensures (scr.cursorH, scr.cursorV) == Position(PutCell(p, c, scr.width))
      ensures scr.tty.rows == old(scr.tty.rows)[old(oldV) := Fill(p.line + [c], scr.width)]
      ensures var v := old(oldV); scr.display[v][..] == old(scr.display[v][..])[|p.line| := c]
    {
      PlaceOne(c, p);
      if scr.cursorH >= scr.width {
        Overflow();
      }
    }

    /** PutPlusOne for a character one column wide: put it where the text ends. When that
        fills the row, the next row comes into use. */
    method PutPlusOne(c: char, ghost p: Page)
      requires Current(p) && (scr.cursorH, scr.cursorV) == Position(p) && c != NUL
      requires |PutCell(p, c, scr.width).full| > oldV ==> oldV + 1 < scr.height && CleanTail(oldV + 1, 0)
      modifies this`oldV, scr`tty, scr`cursorH, scr`cursorV, scr.display
      ensures Current(PutCell(p, c, scr.width))
      ensures (scr.cursorH, scr.cursorV) == Position(PutCell(p, c, scr.width))
      ensures forall r | oldV < r < scr.height :: scr.display[r][..] == old(scr.display[r][..])
    {
      hide Current, Known, Fill;
      CurrentSettled(p);
      ghost var v := oldV;
      PlaceAndWrap(c, p);
      forall r | 0 <= r < scr.height && r != v
        ensures r < v ==> Padded(r)
        ensures r > v ==> Unused(r)
        ensures scr.display[r][..] == old(scr.display[r][..])
      {
        assert if r < v then old(Padded(r)) else old(Unused(r));
      }
      CurrentAgain(p, c, v);
    }

    /** Row v, the last one of p, has got one more character. */
    lemma CurrentAgain(p: Page, c: char, v: nat)
      requires Base() && p.Ok(scr.width) && c != NUL && v == |p.full|
      requires oldV == |PutCell(p, c, scr.width).full| < scr.height
      requires forall r | 0 <= r < v :: Padded(r) && scr.tty.rows[r] == Fill(p.full[r], scr.width)
      requires forall r | v < r < scr.height :: Unused(r)
      requires Shows(scr, v, p.line + [c]) && CleanTail(v, |p.line| + 1)
      requires forall i | 0 <= i <= |p.line| :: scr.display[v][i] == (p.line + [c])[i]
      requires oldV > v ==> CleanTail(oldV, 0)
      ensures Current(PutCell(p, c, scr.width))
    {
      hide Current, Displayed, Settled, Known;
      var q, w := PutCell(p, c, scr.width), scr.width;
      TypedKnown(v, p.line + [c]);
      forall r | 0 <= r < scr.height
        ensures scr.tty.rows[r] == if r <= |q.full| then Fill(q.Row(r), w) else Blanks(w)
        ensures (r < oldV ==> Padded(r)) && (r > oldV ==> Unused(r))
      {
        if r > v {
          assert Unused(r) && Fill([], w) == Blanks(w);
        } else if r < v {
          assert Padded(r) && q.Row(r) == p.full[r];
        }
      }
      if oldV > v {
        assert Unused(oldV) && Fill([], w) == Blanks(w);
        TypedKnown(oldV, []);
      }
      CurrentMoved(q, scr.tty.rows);
    }

    /** The last row in use is the last row of the page. */
    lemma CurrentOldV(p: Page)
      requires Current(p)
      ensures oldV == |p.full| && p.Ok(scr.width) && oldV < scr.height == |scr.display|
      ensures forall r | 0 <= r < scr.height :: scr.display[r].Length == scr.width + 1
    {
    }

    method PutAllPlusOne(s: string, ghost p: Page)
      requires Current(p) && (scr.cursorH, scr.cursorV) == Position(p) && NUL !in s
      requires |PutCells(p, s, scr.width).full| <= oldV + 1
      requires |PutCells(p, s, scr.width).full| > oldV ==> oldV + 1 < scr.height && CleanTail(oldV + 1, 0)
      modifies this`oldV, scr`tty, scr`cursorH, scr`cursorV, scr.display
      ensures Current(PutCells(p, s, scr.width))
      ensures (scr.cursorH, scr.cursorV) == Position(PutCells(p, s, scr.width))
      decreases |s|
    {
      hide Current, PutCell, PutCells, Position;
      CurrentOldV(p);
      PutCellsStep(p, s, scr.width);
      if s != [] {
        PutPlusOne(s[0], p);
        CurrentOldV(PutCell(p, s[0], scr.width));
        PutAllPlusOne(s[1..], PutCell(p, s[0], scr.width));
      }
    }

    lemma CurrentSettled(p: Page)
      requires Current(p)
      ensures Settled() && oldV == |p.full| < scr.height == |scr.tty.rows|
      ensures forall r | 0 <= r < scr.height :: scr.tty.rows[r] ==
                if r <= |p.full| then Fill(p.Row(r), scr.width) else Blanks(scr.width)
      ensures Base() && Known(oldV) && p.Ok(scr.width) && CleanTail(oldV, |p.line|)
      ensures forall r | 0 <= r < scr.height :: (r < oldV ==> Padded(r)) && (r > oldV ==> Unused(r))
      ensures Shows(scr, oldV, p.line) && forall i | 0 <= i < |p.line| :: scr.display[oldV][i] == p.line[i]
    {
    }

    /** RefPlusOne, after one character was typed at the end of the input: what the screen, the
        cursor and oldV come to is what a full Refresh would give. The row the text may run on
        into must not hold stale characters. */
    method RefPlusOne()
      requires Fits() && 4 <= scr.width && |input| > 0
      requires Current(PageOf(prompt + input[..|input| - 1], scr.width))
      requires (scr.cursorH, scr.cursorV) == Position(PageOf(prompt + input[..|input| - 1], scr.width))
      requires |PageOf(Text(), scr.width).full| > oldV ==> CleanTail(oldV + 1, 0)
      requires cursor != |input| || Classify(input[|input| - 1]) == Newline || Classify(input[|input| - 1]) == Tab ==>
                 RowsFit(PageOf(Text(), scr.width), 0)
      modifies this`vcursorH, this`vcursorV, this`oldV, vdisplay
      modifies scr`tty, scr`cursorH, scr`cursorV, scr.display
      ensures Current(PageOf(Text(), scr.width))
      ensures (scr.cursorH, scr.cursorV) == Position(CursorPage())
    {
      hide PageOf, PutCells, Current;
      ghost var t := prompt + input[..|input| - 1];
      CurrentSettled(PageOf(t, scr.width));
      if cursor != |input| {
        Refresh();
        return;
      }
      var c := input[|input| - 1];
      if Classify(c) == Newline || Classify(c) == Tab {
        Refresh();
      } else {
        assert Text() == t + [c] && prompt + input[..cursor] == Text();
        PageStep(t, c, scr.width);
        PutAllPlusOne(Glyphs(c), PageOf(t, scr.width));
      }
    }
  }

  lemma PutCellsStep(p: Page, s: string, w: nat)
    requires NUL !in s && p.Ok(w)
    ensures s == [] ==> PutCells(p, s, w) == p
    ensures s != [] ==>
              && s[0] != NUL && NUL !in s[1..] && PutCells(p, s, w) == PutCells(PutCell(p, s[0], w), s[1..], w)
              && |p.full| <= |PutCell(p, s[0], w).full| <= |PutCells(p, s, w).full|
  {
  }

  lemma PageStep(t: string, c: char, w: nat)
    requires 4 <= w && Classify(c) != Newline && Classify(c) != Tab
    ensures PageOf(t + [c], w) == PutCells(PageOf(t, w), Glyphs(c), w)
    ensures |PageOf(t + [c], w).full| <= |PageOf(t, w).full| + 1
  {
    assert (t + [c])[..|t|] == t;
    PutCellsPosition(PageOf(t, w), Glyphs(c), w);
  }

  /** A character typed into an unused row shows as Display says if and only if nothing but
      blanks was left in the string behind its first cell. */
  lemma TypedIntoUnused(b: string, c: char, w: nat)
    requires |b| == w + 1 && b[w] == NUL && 0 < w && c != NUL
    ensures Fill(CStr(b[0 := c]), w) == Fill([c], w) <==> (forall x <- CStr(b[1..]) :: x == ' ')
  {
    var d, rest := b[0 := c], CStr(b[1..]);
    StrLenIs(d, 1 + |rest|);
    assert CStr(d) == [c] + rest;
    if forall x <- rest :: x == ' ' {
      forall i | 0 <= i < w ensures Fill([c] + rest, w)[i] == Fill([c], w)[i] {
        assert 1 <= i <= |rest| ==> rest[i - 1] in rest;
      }
    }
    if Fill(CStr(d), w) == Fill([c], w) {
      forall i | 0 <= i < |rest| ensures rest[i] == ' ' {
        assert Fill(CStr(d), w)[i + 1] == Fill([c], w)[i + 1];
      }
    }
  }

  /** What ClearRow leaves of a Display row: the string ends before its trailing blanks and again
      at its first cell. */
  function Erased(b: string): string
    requires 0 < |b|
  {
    if StrLen(b) < |b| then b[Trimmed(CStr(b)) := NUL][0 := NUL] else b[0 := NUL]
  }

  /** A character typed into a row that was padded and then erased shows as Display says if and only
      if the row had nothing but blanks behind its first cell. */
  lemma TypedIntoErased(shown: string, c: char)
    requires 0 < |shown| && NUL !in shown && c != NUL
    ensures var b := Erased(shown + [NUL]);
            Fill(CStr(b[0 := c]), |shown|) == Fill([c], |shown|) <==> forall i | 0 < i < |shown| :: shown[i] == ' '
  {
    hide Fill;
    var w, b := |shown|, shown + [NUL];
    var d, rest := Erased(b), BehindFirst(shown);
    ErasedRest(shown);
    TypedIntoUnused(d, c, w);
    forall x <- rest ensures exists i | 0 < i < w :: x == shown[i] {
      var k :| 0 <= k < |rest| && rest[k] == x;
      assert x == shown[k + 1];
    }
    assert forall i | 0 < i < 1 + |rest| :: shown[i] == rest[i - 1] && shown[i] in rest;
    BlanksBehind(shown);
  }

  /** What is left in the buffer behind the first cell of an erased row. */
  function BehindFirst(shown: string): string
    requires 0 < |shown|
  {
    if Trimmed(shown) > 0 then shown[1..Trimmed(shown)] else shown[1..]
  }

  lemma BlanksBehind(shown: string)
    requires 0 < |shown|
    ensures forall i | 1 + |BehindFirst(shown)| <= i < |shown| :: shown[i] == ' '
  {
  }

  lemma ErasedRest(shown: string)
    requires 0 < |shown| && NUL !in shown
    ensures var b := Erased(shown + [NUL]);
            |b| == |shown| + 1 && b[|shown|] == NUL && CStr(b[1..]) == BehindFirst(shown)
  {
    hide Fill;
    var w, b := |shown|, shown + [NUL];
    StrLenIs(b, w);
    assert CStr(b) == shown;
    var d, rest := Erased(b), BehindFirst(shown);
    StrLenIs(d[1..], |rest|);
    assert CStr(d[1..]) == rest;
  }

  /** On three columns an erased "abc" makes Display say "xbc" where the screen has only "x". */
  lemma StaleRowDiffers()
    ensures var b := Erased("abc" + [NUL]);
            CStr(b) == "" && CStr(b[0 := 'x']) == "xbc" && Fill(CStr(b[0 := 'x']), 3) != Fill("x", 3)
  {
    var b := "abc" + [NUL];
    StrLenIs(b, 3);
    TypedIntoErased("abc", 'x');
    assert "abc"[1] == 'b' && Trimmed("abc") == 3;
    StrLenIs(Erased(b), 0);
    StrLenIs(Erased(b)[0 := 'x'], 3);
  }

  /** An editor on a blank terminal: the state that Refresh starts from. */
  method Start(width: nat, height: nat, caps: Caps) returns (e: Editor)
    requires 2 <= width && 0 < height && (caps.tabs ==> width <= 257)
    requires caps.CanUp()
    ensures e.Settled() && e.scr.width == width && e.scr.height == height && e.Text() == []
  {
    var display := AllocRows(width, height);
    e := Attach(width, height, caps, display);
    e.ClearDisp();
    BlankKnown(e);
  }

  method Attach(width: nat, height: nat, caps: Caps, display: seq<array<char>>) returns (e: Editor)
    requires 2 <= width && 0 < height == |display|
    requires forall i | 0 <= i < height :: display[i].Length == width + 1
    requires forall i, j | 0 <= i < j < height :: display[i] != display[j]
    ensures fresh(e) && fresh(e.scr) && e.scr.display == display && e.scr.width == width && e.scr.height == height
    ensures e.VShape() && e.scr.Shape() && e.scr.caps == caps && e.Text() == []
    ensures e.scr.tty == Term(seq(height, _ => Blanks(width)), 0, 0, false)
  {
    label First:
    assert forall j | 0 <= j < height :: old@First(allocated(display[j]));
    var vdisplay := AllocRows(width, height);
    assert forall i | 0 <= i < height :: fresh@First(vdisplay[i]);
    assert forall i, j | 0 <= i < height && 0 <= j < height :: vdisplay[i] != display[j];
    BlankRow(width);
    var scr := new Screen(width, height, caps, display);
    e := new Editor(scr, vdisplay);
  }

  lemma NothingFills(width: nat)
    ensures Fill([], width) == Blanks(width)
  {
  }

  lemma BlankRow(width: nat)
    ensures |Blanks(width)| == width && NUL !in Blanks(width)
  {
  }

  lemma BlankKnown(e: Editor)
    requires e.Base() && e.oldV == 0 && e.scr.height > 0
    requires forall r, k | 0 <= r < e.scr.height && 0 <= k <= e.scr.width :: e.scr.display[r][k] == NUL
    requires e.scr.tty.rows == seq(e.scr.height, _ => Blanks(e.scr.width))
    ensures e.Settled()
  {
    assert forall r | 0 <= r < e.scr.height :: e.Unused(r);
    e.UnusedKnown(0);
  }
}
