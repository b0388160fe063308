/** Editor/termcap interface (ed.screen.c): the editor tracks the cursor in CursorH and
    CursorV and moves it partly by rewriting cells of its Display copy of the screen. */
module EdScreen {
  import opened Rows
  import opened Tty

  class Screen {
    const width: nat   // TermH
    const height: nat  // TermV
    const caps: Caps
    const display: seq<array<char>>  // Display: one NUL-terminated buffer a row
    var tty: Term
    var cursorH: nat
    var cursorV: nat

    /** A blank terminal, its cursor in the corner. */
    constructor (width: nat, height: nat, caps: Caps, display: seq<array<char>>)
      ensures this.width == width && this.height == height && this.caps == caps && this.display == display
      ensures tty == Term(seq(height, _ => Blanks(width)), 0, 0, false) && cursorH == 0 && cursorV == 0
    {
      this.width, this.height, this.caps, this.display := width, height, caps, display;
      tty := Term(seq(height, _ => Blanks(width)), 0, 0, false);
      cursorH, cursorV := 0, 0;
    }

    /** The editor's cursor is the terminal's, and no wrap is pending. */
    ghost predicate InSync()
      reads this
    {
      Shape() && tty.h == cursorH && tty.v == cursorV && !tty.pending
    }

    ghost predicate Shape()
      reads this
    {
      && 2 <= width
      && |display| == height && (forall r <- display :: r.Length == width + 1)
      && tty.Ok(width, height)
    }

    /** MoveToChar counts the tabs to this column rightly. */
    predicate TabsTo(where: nat)
      reads this
    {
      caps.tabs && cursorH < where < width ==> cursorH < 256 || where / 8 * 8 == width - 1
    }

    /** The same for every move to a column up to limit. */
    predicate TabsUpTo(limit: nat) {
      caps.tabs ==> width <= 257 || limit <= 256
    }

    /** Cells [0, n) of the row the cursor is on are what Display says. */
    ghost predicate Agrees(n: nat)
      requires InSync()
      reads this, display
    {
      n <= width && forall i | 0 <= i < n :: display[cursorV][i] == tty.rows[cursorV][i]
    }

    /** Row v's first Display cell is on the screen; an empty Display row shows a blank. */
    ghost predicate FirstCellShown(v: nat)
      requires Shape() && v < height
      reads this, display
    {
      tty.rows[v][0] == if display[v][0] == NUL then ' ' else display[v][0]
    }

    /** Writing up to the right edge of the current row may run on into the next. */
    ghost predicate WrapSafe()
      requires InSync()
      reads this, display
    {
      caps.am ==> cursorV + 1 < height && (caps.xn ==> FirstCellShown(cursorV + 1))
    }

    /** Row v can be moved past by writing: either Display says it is empty or all its
        cells are known. */
    ghost predicate Crossable(v: nat)
      requires Shape() && v < height
      reads this, display
    {
      display[v][0] == NUL || display[v][..width] == tty.rows[v]
    }

    /** Send the printing characters of text, in replace or in insert mode. */
    method PutText(text: string)
      requires InSync() && NUL !in text && cursorH + |text| <= width
      requires cursorH + |text| == width && caps.am && !caps.xn ==> cursorV + 1 < height
      modifies `tty
      ensures tty.Ok(width, height)
      ensures tty.rows == old(tty.rows[cursorV := Overwrite(tty.rows[cursorV], cursorH, text)])
      ensures cursorH + |text| < width ==>
                tty.h == cursorH + |text| && tty.v == cursorV && !tty.pending
      ensures cursorH + |text| == width ==>
                if !caps.am then tty.h == width - 1 && tty.v == cursorV && !tty.pending
                else if caps.xn then tty.h == width - 1 && tty.v == cursorV && tty.pending
                else tty.h == 0 && tty.v == cursorV + 1 && !tty.pending
    {
      ghost var rows0 := tty.rows;
      assert Overwrite(rows0[cursorV], cursorH, []) == rows0[cursorV];
      var n := 0;
      while n < |text|
        invariant n <= |text| && tty.Ok(width, height)
        invariant tty.rows == rows0[cursorV := Overwrite(rows0[cursorV], cursorH, text[..n])]
        invariant cursorH + n < width ==> tty.h == cursorH + n && tty.v == cursorV && !tty.pending
        invariant cursorH + n == width ==>
                    if !caps.am then tty.h == width - 1 && tty.v == cursorV && !tty.pending
                    else if caps.xn then tty.h == width - 1 && tty.v == cursorV && tty.pending
                    else tty.h == 0 && tty.v == cursorV + 1 && !tty.pending
      {
        assert Overwrite(rows0[cursorV], cursorH, text[..n])[cursorH + n := text[n]]
            == Overwrite(rows0[cursorV], cursorH, text[..n + 1]);
        tty := Put(tty, caps, text[n], false);
        n := n + 1;
      }
      assert text[..n] == text;
    }

    /** Write cells at the cursor, going on to the next row when the last column is filled. */
    method SoWrite(text: string)
      requires InSync() && NUL !in text && cursorH + |text| <= width
      requires cursorH + |text| == width ==> WrapSafe()
      modifies `tty, `cursorH, `cursorV
      ensures InSync()
      ensures tty.rows == old(tty.rows[cursorV := Overwrite(tty.rows[cursorV], cursorH, text)])
      ensures old(cursorH) + |text| < width ==>
                cursorV == old(cursorV) && cursorH == old(cursorH) + |text|
      ensures old(cursorH) + |text| == width && !caps.am ==>
                cursorV == old(cursorV) && cursorH == width - 1
      ensures old(cursorH) + |text| == width && caps.am ==>
                cursorV == old(cursorV) + 1 && cursorH == if caps.xn then 1 else 0
    {
      PutText(text);
      cursorH := cursorH + |text|;
      if cursorH >= width {
        if caps.am {
          cursorH := 0;
          cursorV := cursorV + 1;
          if caps.xn {
            // with a wrap still due, a character makes it happen
            var c := display[cursorV][cursorH];
            ghost var rows1 := tty.rows;
            tty := Put(tty, caps, if c != NUL then c else ' ', false);
            cursorH := 1;
            assert tty.rows[cursorV] == rows1[cursorV];
            assert tty.rows == rows1;
          }
        } else {
          cursorH := width - 1;
        }
      }
    }

    /** Go to a column of this row. Tabs are counted rightly up to column 255, and for the last
        column as well. */
    method MoveToChar(where: nat)
      requires InSync()
      requires TabsTo(where)
      requires where < width ==> Agrees(where)
      modifies `tty, `cursorH, `cursorV
      ensures InSync() && tty.rows == old(tty.rows) && cursorV == old(cursorV)
      ensures cursorH == if where < width then where else old(cursorH)
    {
      ghost var rows0, v0 := tty.rows, cursorV;
      while true
        invariant InSync() && tty.rows == rows0 && cursorV == v0
        invariant where >= width ==> cursorH == old(cursorH)
        invariant TabsTo(where)
        decreases cursorH
      {
        if where == cursorH || where >= width {
          return;
        }
        if where == 0 {
          tty := CarriageReturn(tty);
          cursorH := 0;
          return;
        }
        var del: int := where - cursorH;
        if (del < -4 || del > 4) && caps.ch {
          tty := ToColumn(tty, where);
        } else if del > 0 {
          if del > 4 && caps.RI {
            tty := ToColumn(tty, tty.h + del);
          } else {
            if caps.tabs {
              TabForward(where);
            }
            // what is left is written again
            RewriteTo(where);
          }
        } else if -del > 4 && caps.LE {
          tty := ToColumn(tty, tty.h + del);
        } else {
          var fromZero := if caps.tabs then where / 8 + where % 8 else where;
          if -del > fromZero {
            tty := CarriageReturn(tty);
            cursorH := 0;
            continue;  // and try again
          }
          var i, h0 := 0, cursorH;
          while i < -del
            invariant 0 <= i <= -del && tty == Term(rows0, h0 - i, v0, false)
            invariant cursorH == h0 && cursorV == v0
          {
            tty := Backspace(tty);
            i := i + 1;
          }
        }
        cursorH := where;
        return;
      }
    }

    /** Tab to the last stop at or before where; the column is masked with 0370. */
    method TabForward(where: nat)
      requires InSync() && caps.tabs && cursorH < where < width && TabsTo(where)
      modifies `tty, `cursorH
      ensures InSync() && tty.rows == old(tty.rows) && cursorH <= where
    {
      hide AfterTabs, Tab;
      var i, stop := cursorH / 8 * 8 % 256, where / 8 * 8;
      if i != stop {
        ghost var t, start, n := tty, i, 0;
        TabMaskExact(t, width, where);
        NoTab(t);
        while i < stop
          invariant i == start + 8 * n <= stop && tty == AfterTabs(t, n)
        {
          OneMoreTab(t, n);
          tty := Tab(tty);
          i, n := i + 8, n + 1;
        }
        TabsKeep(t, n);
        cursorH := stop;
      }
    }

    /** so_write(&Display[CursorV][CursorH], where - CursorH) */
    method RewriteTo(where: nat)
      requires InSync() && cursorH <= where < width && Agrees(where)
      modifies `tty, `cursorH, `cursorV
      ensures InSync() && tty.rows == old(tty.rows) && cursorV == old(cursorV) && cursorH == where
    {
      var text := display[cursorV][cursorH..where];
      ghost var row := tty.rows[cursorV];
      assert text == row[cursorH..where];
      assert Overwrite(row, cursorH, text) == row;
      SoWrite(text);
    }

    /** Go to a row, keeping in a column of the screen. On the way down the last column of this one
        may have to be gone to. */
    method MoveToLine(where: nat)
      requires InSync() && where < height && (cursorV < where && caps.am ==> TabsTo(width - 1))
      requires where < cursorV ==> caps.CanUp()
      requires forall r | cursorV <= r < where :: Crossable(r) && FirstCellShown(r + 1)
      modifies `tty, `cursorH, `cursorV
      ensures InSync() && tty.rows == old(tty.rows) && cursorV == where
    {
      if where == cursorV {
        return;
      }
      if where > cursorV {
        var del: nat := where - cursorV;
        while del > 0
          invariant Shape() && tty.rows == old(tty.rows) && old(cursorV) <= cursorV <= where
          invariant del > 0 ==> InSync() && cursorV + del == where && (caps.am ==> TabsTo(width - 1))
          invariant forall r | cursorV <= r < where && del > 0 :: Crossable(r) && FirstCellShown(r + 1)
          invariant del == 0 ==> tty == Term(old(tty.rows), cursorH, where, false) && cursorH < width
        {
          if caps.am && display[cursorV][0] != NUL {
            assert Crossable(cursorV) && FirstCellShown(cursorV + 1);
            assert Agrees(width) by {
              forall i | 0 <= i < width ensures display[cursorV][i] == tty.rows[cursorV][i] {
                assert display[cursorV][i] == display[cursorV][..width][i];
              }
            }
            label before:
            CrossByWriting();
            del := del - 1;
            forall r | cursorV <= r < where ensures Crossable(r) && FirstCellShown(r + 1) {
              assert old@before(Crossable(r) && FirstCellShown(r + 1));
            }
          } else if del > 1 && caps.DO {
            tty := ToRow(tty, tty.v + del);
            del := 0;
          } else {
            ghost var v0 := tty.v;
            tty := CarriageReturn(tty);
            while del > 0
              invariant tty == Term(old(tty.rows), 0, where - del, false)
              invariant cursorV == v0
            {
              tty := Newline(tty);
              del := del - 1;
            }
            cursorH := 0;
          }
        }
      } else {
        var del := cursorV - where;
        if caps.UP && (del > 1 || !caps.up) {
          tty := ToRow(tty, tty.v - del);
        } else if caps.up {
          var i, v0 := 0, cursorV;
          while i < del
            invariant i <= del && tty == Term(old(tty.rows), cursorH, v0 - i, false)
            invariant cursorV == v0 && cursorH == old(cursorH)
          {
            tty := ToRow(tty, tty.v - 1);
            i := i + 1;
          }
        }
      }
      cursorV := where;
    }

    /** Move to the next row without a newline, by rewriting the last cell of this one. */
    method CrossByWriting()
      requires InSync() && TabsTo(width - 1) && caps.am && Agrees(width) && WrapSafe()
      modifies `tty, `cursorH, `cursorV
      ensures InSync() && tty.rows == old(tty.rows) && cursorV == old(cursorV) + 1 && cursorH <= 1
    {
      MoveToChar(width - 1);
      var text := display[cursorV][cursorH..width];
      ghost var row := tty.rows[cursorV];
      assert text == row[cursorH..width];
      assert Overwrite(row, cursorH, text) == row;
      SoWrite(text);
    }

    method DeleteChars(num: nat)
      requires InSync() && caps.CanDel() && cursorH + num <= width
      modifies `tty
      ensures InSync()
      ensures tty.rows == old(tty.rows[cursorV := Closed(tty.rows[cursorV], cursorH, num)])
    {
      ghost var rows0, row := tty.rows, tty.rows[cursorV];
      if caps.DC && (num > 1 || !caps.dc) {
        ClosedPlain(row, cursorH, num);
        tty := DeleteCells(tty, num);
      } else {
        var n := 0;
        assert Closed(row, cursorH, 0) == row;
        while n < num
          invariant n <= num && InSync()
          invariant tty.rows == rows0[cursorV := Closed(row, cursorH, n)]
        {
          ClosedStep(row, cursorH, n);
          DeleteOne();
          n := n + 1;
        }
      }
    }

    method DeleteOne()
      requires InSync()
      modifies `tty
      ensures InSync()
      ensures tty.rows == old(tty.rows[cursorV := Closed(tty.rows[cursorV], cursorH, 1)])
    {
      ClosedPlain(tty.rows[cursorV], cursorH, 1);
      tty := DeleteCells(tty, 1);
    }

    /** Where the cursor is when h would be its column. */
    function Landed(h: nat, v: nat): (nat, nat)
      requires 0 < width
    {
      if h < width then (h, v) else if !caps.am then (width - 1, v) else (if caps.xn then 1 else 0, v + 1)
    }

    /** Insert mode is what opens the space for text of this length. */
    predicate ByMode(len: nat) {
      caps.im && caps.ei && !(caps.IC && (len > 1 || !caps.ic))
    }

    /** Insert text before the cursor cell: either open the space first, or switch to insert
        mode, or open each cell as it is written. With `im` alone nothing is opened and the
        text replaces what was there. In insert mode the character that is written to make a
        wrap happen is inserted as well. */
    method InsertWrite(text: string)
      requires InSync() && NUL !in text && cursorH + |text| <= width && caps.CanIns()
      requires cursorH + |text| == width ==> WrapSafe()
      modifies `tty, `cursorH, `cursorV
      ensures InSync()
      ensures tty.rows == old(AfterWrap(
                  tty.rows[cursorV := InsertEffect(caps, tty.rows[cursorV], cursorH, text)], cursorV,
                  text != [] && cursorH + |text| == width && ByMode(|text|)))
      ensures (cursorH, cursorV) == Landed(old(cursorH) + |text|, old(cursorV))
    {
      hide Opened, Overwrite;
      InsertNothing(caps, tty.rows[cursorV], cursorH);
      if text == [] {
        return;
      }
      if caps.IC && (|text| > 1 || !caps.ic) {
        OpenedPlain(tty.rows[cursorV], cursorH, |text|);
        tty := OpenCells(tty, |text|);
        SoWrite(text);
      } else if caps.im && caps.ei {
        InsertMode(text);
      } else {
        InsertEach(text);
      }
    }

    /** The rows after a wrap out of row v, which in insert mode has been made to happen by a
        character that was inserted. */
    function AfterWrap(rows: seq<string>, v: nat, inserting: bool): seq<string> {
      if inserting && caps.am && caps.xn && v + 1 < |rows| && rows[v + 1] != []
      then rows[v + 1 := FirstDoubled(rows[v + 1])] else rows
    }

    /** so_write between the strings that enter and leave insert mode. */
    method InsertMode(text: string)
      requires InSync() && NUL !in text && text != [] && cursorH + |text| <= width
      requires cursorH + |text| == width ==> WrapSafe()
      modifies `tty, `cursorH, `cursorV
      ensures InSync()
      ensures tty.rows == old(AfterWrap(tty.rows[cursorV := Placed(true, tty.rows[cursorV], cursorH, text)], cursorV,
                                        cursorH + |text| == width))
      ensures (cursorH, cursorV) == Landed(old(cursorH) + |text|, old(cursorV))
    {
      hide Opened, Placed;
      ghost var rows0, h0, row := tty.rows, cursorH, tty.rows[cursorV];
      PlacedStep(true, row, h0, 0, text);
      var n := 0;
      while n < |text|
        invariant n <= |text| && tty.Ok(width, height) && cursorH == h0 + n && cursorV == old(cursorV)
        invariant tty.rows == rows0[cursorV := Placed(true, row, h0, text[..n])]
        invariant AtColumn()
      {
        PlacedStep(true, row, h0, n, text);
        PutInserting(text[n]);
        n := n + 1;
      }
      assert text[..n] == text;
      if cursorH >= width {
        if caps.am {
          cursorH := 0;
          cursorV := cursorV + 1;
          if caps.xn {
            var c := display[cursorV][cursorH];
            OpenedPlain(tty.rows[cursorV], 0, 1);
            tty := Put(tty, caps, if c != NUL then c else ' ', true);
            cursorH := 1;
          }
        } else {
          cursorH := width - 1;
        }
      }
    }

    /** The terminal's cursor is at the column counted to; at the last column a wrap may still be due. */
    ghost predicate AtColumn()
      reads this
    {
      && Shape() && cursorH <= width
      && if cursorH == width && caps.am && caps.xn then tty.h == width - 1 && tty.v == cursorV && tty.pending
         else !tty.pending && (tty.h, tty.v) == Landed(cursorH, cursorV)
    }

    method PutInserting(c: char)
      requires AtColumn() && c != NUL && cursorH < width
      requires cursorH + 1 == width && caps.am ==> cursorV + 1 < height
      modifies `tty, `cursorH
      ensures AtColumn() && cursorH == old(cursorH) + 1
      ensures tty.rows == old(tty.rows[cursorV := Opened(tty.rows[cursorV], cursorH, 1)[cursorH := c]])
    {
      OpenedPlain(tty.rows[cursorV], cursorH, 1);
      tty := Put(tty, caps, c, true);
      cursorH := cursorH + 1;
    }

    /** Each character on its own; its cell is opened first if there is a string for that. */
    method InsertEach(text: string)
      requires InSync() && NUL !in text && text != [] && cursorH + |text| <= width
      requires cursorH + |text| == width ==> WrapSafe()
      modifies `tty, `cursorH, `cursorV
      ensures InSync()
      ensures tty.rows == old(tty.rows[cursorV := Placed(caps.ic, tty.rows[cursorV], cursorH, text)])
      ensures (cursorH, cursorV) == Landed(old(cursorH) + |text|, old(cursorV))
    {
      hide Opened, Placed;
      ghost var rows0, h0, v0, row := tty.rows, cursorH, cursorV, tty.rows[cursorV];
      PlacedStep(caps.ic, row, h0, 0, text);
      var n := 0;
      while n < |text|
        invariant n <= |text| && InSync()
        invariant (cursorH, cursorV) == Landed(h0 + n, v0)
        invariant tty.rows == rows0[v0 := Placed(caps.ic, row, h0, text[..n])]
      {
        PlacedStep(caps.ic, row, h0, n, text);
        InsertOne(text[n]);
        n := n + 1;
      }
      assert text[..n] == text;
    }

    method InsertOne(c: char)
      requires InSync() && c != NUL && (cursorH + 1 == width ==> WrapSafe())
      modifies `tty, `cursorH, `cursorV
      ensures InSync() && (cursorH, cursorV) == Landed(old(cursorH) + 1, old(cursorV))
      ensures var row := old(tty.rows[cursorV]);
              tty.rows == old(tty.rows)[old(cursorV) :=
                  (if caps.ic then Opened(row, old(cursorH), 1) else row)[old(cursorH) := c]]
    {
      if caps.ic {
        OpenedPlain(tty.rows[cursorV], cursorH, 1);
        tty := OpenCells(tty, 1);
      }
      WriteOne(tty.rows[cursorV], cursorH, c);
      SoWrite([c]);
    }

    /** What is behind the cursor goes, num cells of it in use. Without the `ce` capability blanks are
        written over them, and the wrap at the right edge is not accounted for. */
    method ClearEOL(num: int)
      requires InSync() && cursorH + num <= width
      requires num > 0 && !caps.ce && cursorH + num == width ==> WrapSafe()
      modifies `tty, `cursorH
      ensures num <= 0 ==> tty == old(tty) && cursorH == old(cursorH)
      ensures tty.Ok(width, height)
      ensures var blanked := if num <= 0 then 0 else if caps.ce then width - old(cursorH) else num;
              tty.rows == old(tty.rows[cursorV :=
                  Overwrite(tty.rows[cursorV], cursorH, Blanks(blanked))])
      ensures InSync() <==> (caps.ce || num <= 0 || old(cursorH) + num < width)
    {
      ghost var row := tty.rows[cursorV];
      assert Overwrite(row, cursorH, Blanks(0)) == row;
      if num <= 0 {
        return;
      }
      if caps.ce {
        assert ClearedFrom(row, cursorH) == Overwrite(row, cursorH, Blanks(width - cursorH));
        tty := ClearRight(tty);
      } else {
        PutText(Blanks(num));
        cursorH := cursorH + num;
      }
    }
  }

  // ---------------------------------------------------------------- inserting

  /** What Insert_write makes of a row. */
  function InsertEffect(caps: Caps, row: string, h: nat, text: string): string
    requires h + |text| <= |row|
  {
    Placed(caps.InsertWorks(), row, h, text)
  }

  lemma InsertNothing(caps: Caps, row: string, h: nat)
    requires h <= |row|
    ensures InsertEffect(caps, row, h, []) == row
  {
  }

  lemma WriteOne(row: string, h: nat, c: char)
    requires h < |row|
    ensures Overwrite(row, h, [c]) == row[h := c]
  {
  }

  /** Of the terminals that are taken to insert, those really do for which InsertWorks holds: they
      put any text into any row, and the others do not. */
  lemma InsertWorksExactly(caps: Caps)
    ensures caps.InsertWorks() <==> InsertsAll(caps)
  {
    if caps.InsertWorks() {
      forall row: string, h: nat, text: string | h + |text| <= |row|
        ensures InsertEffect(caps, row, h, text) == row[..h] + text + row[h..|row| - |text|]
      {
        OpenAndWrite(row, h, text);
      }
    } else {
      var row, text := "ab", "x";
      assert InsertEffect(caps, row, 0, text)[1] == 'b';
      assert (row[..0] + text + row[0..1])[1] == 'a';
    }
  }

  ghost predicate InsertsAll(caps: Caps) {
    forall row: string, h: nat, text: string | h + |text| <= |row| ::
      InsertEffect(caps, row, h, text) == row[..h] + text + row[h..|row| - |text|]
  }

  /** A row whose first cell has been inserted once more. */
  function FirstDoubled(row: string): string
    requires row != []
  {
    Opened(row, 0, 1)[0 := row[0]]
  }

  /** In insert mode the character that makes a wrap happen shifts the next row, unless all of
      that row is the same character. */
  lemma WrapInInsertMode(row: string)
    requires row != []
    ensures FirstDoubled(row) == row <==> forall i | 0 <= i < |row| :: row[i] == row[0]
  {
    if FirstDoubled(row) == row {
      AllAsFirst(row, row[0]);
    }
  }

  /** A row that is shifted. */
  lemma WrapShifts()
    ensures FirstDoubled("abc") == "aab"
  {
    assert Opened("abc", 0, 1) == " ab";
  }

  lemma {:induction false} AllAsFirst(row: string, c: char)
    requires row != [] && row[0] == c && forall i | 1 <= i < |row| :: row[i] == row[i - 1]
    ensures forall i | 0 <= i < |row| :: row[i] == c
  {
    if |row| > 1 {
      AllAsFirst(row[..|row| - 1], c);
      assert row[|row| - 1] == row[|row| - 2] == row[..|row| - 1][|row| - 2];
      assert forall i | 0 <= i < |row| - 1 :: row[i] == row[..|row| - 1][i];
    }
  }

  /** ReBufferDisplay: a buffer of its own for every row. */
  method AllocRows(width: nat, height: nat) returns (b: seq<array<char>>)
    ensures |b| == height && forall i | 0 <= i < height :: fresh(b[i]) && b[i].Length == width + 1
    ensures forall i, j | 0 <= i < j < height :: b[i] != b[j]
  {
    b := [];
    while |b| < height
      invariant |b| <= height && forall i | 0 <= i < |b| :: fresh(b[i]) && b[i].Length == width + 1
      invariant forall i, j | 0 <= i < j < |b| :: b[i] != b[j]
    {
      var row := new char[width + 1];
      b := b + [row];
    }
  }

  // ---------------------------------------------------------------- tabs

  function AfterTabs(t: Term, n: nat): Term
    requires t.v < |t.rows|
    decreases n
  {
    if n == 0 then t else AfterTabs(Tab(t), n - 1)
  }

  lemma {:induction false} TabsKeep(t: Term, n: nat)
    requires t.v < |t.rows|
    ensures AfterTabs(t, n) == t.(h := AfterTabs(t, n).h, pending := if n == 0 then t.pending else false)
    decreases n
  {
    if n > 0 {
      TabsKeep(Tab(t), n - 1);
    }
  }

  lemma NoTab(t: Term)
    requires t.v < |t.rows|
    ensures AfterTabs(t, 0) == t
  {
  }

  lemma {:induction false} OneMoreTab(t: Term, n: nat)
    requires t.v < |t.rows|
    ensures AfterTabs(t, n).rows == t.rows && AfterTabs(t, n).v == t.v
    ensures AfterTabs(t, n + 1) == Tab(AfterTabs(t, n))
    decreases n
  {
    TabsKeep(t, n);
    if n > 0 {
      OneMoreTab(Tab(t), n - 1);
    }
  }

  lemma {:induction false} TabsLand(t: Term, n: nat, width: nat)
    requires t.v < |t.rows| && |t.rows[t.v]| == width && t.h < width && n > 0
    ensures var stop := (t.h / 8 + n) * 8; AfterTabs(t, n).h == if stop < width then stop else width - 1
    decreases n
  {
    var u := Tab(t);
    if n > 1 {
      TabsLand(u, n - 1, width);
    } else {
      assert AfterTabs(u, 0) == u;
    }
  }

  /** MoveToChar counts its tabs from CursorH & 0370, which is the tab stop before the cursor only
      up to column 255. When a tab is due, the tabs that are sent land on the stop that CursorH is
      set to exactly when the cursor was before column 256, or that stop is the last column. */
  lemma TabMaskExact(t: Term, width: nat, where: nat)
    requires t.v < |t.rows| && |t.rows[t.v]| == width && t.h < where < width
    requires t.h / 8 * 8 % 256 != where / 8 * 8
    ensures var start, stop := t.h / 8 * 8 % 256, where / 8 * 8;
            && start < stop
            && (AfterTabs(t, (stop - start) / 8).h == stop <==> t.h < 256 || stop == width - 1)
  {
    hide AfterTabs;
    var start, stop := t.h / 8 * 8 % 256, where / 8 * 8;
    var q := t.h / 8 * 8 / 256;
    TabStops(t.h, where, start, stop, q);
    TabsLand(t, (stop - start) / 8, width);
  }

  /** Tab stops are multiples of eight; the mask takes off 256 q. */
  lemma TabStops(h: nat, where: nat, start: nat, stop: nat, q: nat)
    requires h < where && start == h / 8 * 8 % 256 && stop == where / 8 * 8 && q == h / 8 * 8 / 256 && start != stop
    ensures start < stop && (h / 8 + (stop - start) / 8) * 8 == stop + 256 * q
    ensures q == 0 <==> h < 256
  {
    var a, b := h / 8, where / 8;
    assert a * 8 == start + 256 * q;
    assert stop - start == (b - a) * 8 + 256 * q;
    assert (stop - start) / 8 == b - a + 32 * q;
  }
}
