/** The terminal at the other end: a grid of cells and a cursor, with the control functions
    the editor uses. Margins behave as the termcap flags `am` and `xn` describe: without
    automatic margins the cursor sticks at the last column; with them it moves to the next
    row, and on `xn` terminals only when the next character arrives. */
module Tty {
  import opened Rows

  /** Capabilities; names as in termcap. tabs means the tty driver passes tabs through. */
  datatype Caps = Caps(
    am: bool, xn: bool, tabs: bool,
    ch: bool, RI: bool, LE: bool, DO: bool, up: bool, UP: bool,
    ic: bool, IC: bool, im: bool, ei: bool,
    dc: bool, DC: bool, ce: bool)
  {
    predicate CanIns() { im || ic || IC }
    predicate CanDel() { dc || DC }
    predicate CanUp() { up || UP }

    /** The terminal really opens space for what Insert_write sends: an insert mode that
        cannot be left is not used by it, so `im` alone is not enough. */
    predicate InsertWorks() { IC || ic || (im && ei) }
  }

  /** pending: a character was put in the last column and the wrap is still due. */
  datatype Term = Term(rows: seq<string>, h: nat, v: nat, pending: bool)
  {
    ghost predicate Ok(width: nat, height: nat) {
      && |rows| == height && v < height && h < width
      && (forall r | 0 <= r < height :: |rows[r]| == width && NUL !in rows[r])
      && (pending ==> h == width - 1)
    }
  }

  /** Place c at the cursor and advance, in replace or in insert mode. */
  function Place(t: Term, caps: Caps, c: char, inserting: bool): Term
    requires t.v < |t.rows| && t.h < |t.rows[t.v]|
  {
    var row := t.rows[t.v];
    var open := if inserting then Opened(row, t.h, 1) else row;
    var rows := t.rows[t.v := open[t.h := c]];
    if t.h + 1 < |row| then Term(rows, t.h + 1, t.v, false)
    else if !caps.am then Term(rows, t.h, t.v, false)
    else if caps.xn then Term(rows, t.h, t.v, true)
    else Term(rows, 0, t.v + 1, false)
  }

  /** Receive a printing character. The model has rows enough that it never scrolls. */
  function Put(t: Term, caps: Caps, c: char, inserting: bool): Term
    requires t.v < |t.rows| && t.h < |t.rows[t.v]|
    requires t.pending ==> t.v + 1 < |t.rows| && 0 < |t.rows[t.v + 1]|
  {
    if t.pending then Place(Term(t.rows, 0, t.v + 1, false), caps, c, inserting)
    else Place(t, caps, c, inserting)
  }

  function CarriageReturn(t: Term): Term { t.(h := 0, pending := false) }

  function Backspace(t: Term): Term { t.(h := if t.h > 0 then t.h - 1 else 0, pending := false) }

  /** The newline character; the tty driver turns it into carriage return and line feed. */
  function Newline(t: Term): Term { t.(h := 0, v := t.v + 1, pending := false) }

  /** Tab stops every eight columns, the last one the right margin. */
  function Tab(t: Term): Term
    requires t.v < |t.rows|
  {
    var stop := (t.h / 8 + 1) * 8;
    var w := |t.rows[t.v]|;
    t.(h := if stop < w then stop else if w > 0 then w - 1 else 0, pending := false)
  }

  function ToColumn(t: Term, h: nat): Term { t.(h := h, pending := false) }

  function ToRow(t: Term, v: nat): Term { t.(v := v, pending := false) }

  function OpenCells(t: Term, n: nat): Term
    requires t.v < |t.rows| && t.h + n <= |t.rows[t.v]|
  {
    t.(rows := t.rows[t.v := Opened(t.rows[t.v], t.h, n)])
  }

  function DeleteCells(t: Term, n: nat): Term
    requires t.v < |t.rows| && t.h + n <= |t.rows[t.v]|
  {
    t.(rows := t.rows[t.v := Closed(t.rows[t.v], t.h, n)])
  }

  function ClearRight(t: Term): Term
    requires t.v < |t.rows| && t.h <= |t.rows[t.v]|
  {
    t.(rows := t.rows[t.v := ClearedFrom(t.rows[t.v], t.h)])
  }
}
