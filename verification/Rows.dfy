/** Screen rows as strings: C strings held in fixed buffers, the row a terminal shows for
    one, and what writing, inserting, deleting and clearing do to a row of a given width.
    The functions here are the specification vocabulary of Screen, UpdateLine and Refresh. */
module Rows {

  const NUL: char := '\0'

  /** n blank cells. */
  function Blanks(n: nat): (s: string)
    ensures |s| == n && forall i | 0 <= i < n :: s[i] == ' '
  {
    seq(n, _ => ' ')
  }

  /** Length of the C string stored at the start of b. */
  function StrLen(b: string): (n: nat)
    ensures n <= |b|
    ensures forall i | 0 <= i < n :: b[i] != NUL
    ensures n < |b| ==> b[n] == NUL
  {
    if b == [] || b[0] == NUL then 0 else 1 + StrLen(b[1..])
  }

  /** The C string stored at the start of b. */
  function CStr(b: string): (s: string)
    ensures NUL !in s
  {
    b[..StrLen(b)]
  }

  lemma StrLenIs(b: string, n: nat)
    requires n <= |b|
    requires forall i | 0 <= i < n :: b[i] != NUL
    requires n < |b| ==> b[n] == NUL
    ensures StrLen(b) == n
  {
  }

  /** What a row of width w shows after the text s: blanks up to the right edge. Text past
      the edge is lost. */
  function Fill(s: string, w: nat): (r: string)
    ensures |r| == w
    ensures forall i | 0 <= i < w :: r[i] == if i < |s| then s[i] else ' '
  {
    if |s| >= w then s[..w] else s + Blanks(w - |s|)
  }

  /** Row r after text t replaced the cells from column h. */
  function Overwrite(r: string, h: nat, t: string): (q: string)
    requires h + |t| <= |r|
    ensures |q| == |r|
    ensures forall i | 0 <= i < |r| :: q[i] == if h <= i < h + |t| then t[i - h] else r[i]
  {
    r[..h] + t + r[h + |t|..]
  }

  /** Row r after n blanks were opened at column h; cells pushed past the edge are lost. */
  function Opened(r: string, h: nat, n: nat): (q: string)
    requires h + n <= |r|
    ensures |q| == |r|
    ensures forall i | 0 <= i < |r| ::
              q[i] == if i < h then r[i] else if i < h + n then ' ' else r[i - n]
  {
    r[..h] + Blanks(n) + r[h..|r| - n]
  }

  /** Row r after n cells were deleted at column h and blanks entered at the edge. */
  function Closed(r: string, h: nat, n: nat): (q: string)
    requires h + n <= |r|
    ensures |q| == |r|
    ensures forall i | 0 <= i < |r| ::
              q[i] == if i < h then r[i] else if i + n < |r| then r[i + n] else ' '
  {
    r[..h] + r[h + n..] + Blanks(n)
  }

  /** Row r after everything from column h was cleared. */
  function ClearedFrom(r: string, h: nat): (q: string)
    requires h <= |r|
    ensures |q| == |r|
    ensures forall i | 0 <= i < |r| :: q[i] == if i < h then r[i] else ' '
  {
    r[..h] + Blanks(|r| - h)
  }

  lemma OpenedPlain(r: string, h: nat, n: nat)
    requires h + n <= |r| && NUL !in r
    ensures NUL !in Opened(r, h, n)
  {
  }

  lemma ClosedPlain(r: string, h: nat, n: nat)
    requires h + n <= |r| && NUL !in r
    ensures NUL !in Closed(r, h, n)
  {
  }

  lemma ClosedStep(r: string, h: nat, n: nat)
    requires h + n < |r|
    ensures Closed(r, h, 0) == r
    ensures Closed(Closed(r, h, n), h, 1) == Closed(r, h, n + 1)
  {
  }

  /** Row r after t was written at column h, with cells opened for it or not. */
  function Placed(opening: bool, r: string, h: nat, t: string): string
    requires h + |t| <= |r|
  {
    Overwrite(if opening then Opened(r, h, |t|) else r, h, t)
  }

  lemma PlacedIs(opening: bool, r: string, h: nat, t: string)
    requires h + |t| <= |r|
    ensures Placed(opening, r, h, t) == r[..h] + t + if opening then r[h..|r| - |t|] else r[h + |t|..]
  {
    if opening {
      OpenAndWrite(r, h, t);
    }
  }

  /** Placing t character by character. */
  lemma PlacedStep(opening: bool, r: string, h: nat, n: nat, t: string)
    requires n < |t| && h + |t| <= |r|
    ensures Placed(opening, r, h, t[..0]) == r
    ensures var q := Placed(opening, r, h, t[..n]);
            && |q| == |r|
            && (if opening then Opened(q, h + n, 1) else q)[h + n := t[n]] == Placed(opening, r, h, t[..n + 1])
  {
    hide Placed, Opened, Overwrite;
    PlacedIs(opening, r, h, t[..0]);
    PlacedIs(opening, r, h, t[..n]);
    PlacedIs(opening, r, h, t[..n + 1]);
    NothingPut(r, h);
    if opening {
      OpeningStep(r, h, n, t);
    } else {
      ReplacingStep(r, h, n, t);
    }
  }

  lemma NothingPut(r: string, h: nat)
    requires h <= |r|
    ensures forall e: string | e == [] :: r[..h] + e + r[h..|r| - 0] == r && r[..h] + e + r[h + 0..] == r
  {
  }

  lemma OpeningStep(r: string, h: nat, n: nat, t: string)
    requires n < |t| && h + |t| <= |r|
    ensures Opened(r[..h] + t[..n] + r[h..|r| - n], h + n, 1)[h + n := t[n]]
         == r[..h] + t[..n + 1] + r[h..|r| - (n + 1)]
  {
    hide Opened;
    PutBetween(r[..h] + t[..n], r[h..|r| - n], true, t[n]);
    LessAtEnd(r, h, |r| - n);
    assert r[..h] + t[..n] + [t[n]] == r[..h] + t[..n + 1];
  }

  lemma ReplacingStep(r: string, h: nat, n: nat, t: string)
    requires n < |t| && h + |t| <= |r|
    ensures (r[..h] + t[..n] + r[h + n..])[h + n := t[n]] == r[..h] + t[..n + 1] + r[h + (n + 1)..]
  {
    PutBetween(r[..h] + t[..n], r[h + n..], false, t[n]);
    LessInFront(r, h + n);
    assert r[..h] + t[..n] + [t[n]] == r[..h] + t[..n + 1];
  }

  lemma LessAtEnd(r: string, h: nat, e: nat)
    requires h < e <= |r|
    ensures r[h..e][..|r[h..e]| - 1] == r[h..e - 1]
  {
  }

  lemma LessInFront(r: string, h: nat)
    requires h < |r|
    ensures r[h..][1..] == r[h + 1..]
  {
  }

  /** One character put between a and b, with a cell opened for it or in place of the first of b. */
  lemma PutBetween(a: string, b: string, opening: bool, c: char)
    requires b != []
    ensures (if opening then Opened(a + b, |a|, 1) else a + b)[|a| := c]
         == a + [c] + if opening then b[..|b| - 1] else b[1..]
  {
  }

  lemma OpenAndWrite(r: string, f: nat, s: string)
    requires f + |s| <= |r|
    ensures Overwrite(Opened(r, f, |s|), f, s) == r[..f] + s + r[f..|r| - |s|]
  {
  }

  /** t with its num cells from f on replaced by text. */
  function Spliced(t: string, f: nat, num: nat, text: string): string
    requires f + num <= |t|
  {
    t[..f] + text + t[f + num..]
  }

  /** Insert ins at column f of a row showing t and write text after it. */
  lemma GrowMiddle(t: string, f: nat, ins: string, text: string, w: nat)
    requires f + |text| <= |t| && f + |ins| + |text| <= w
    ensures Overwrite(Overwrite(Opened(Fill(t, w), f, |ins|), f, ins), f + |ins|, text)
         == Fill(Spliced(t, f, |text|, ins + text), w)
    ensures ins == [] ==> Overwrite(Fill(t, w), f, text) == Fill(Spliced(t, f, |text|, ins + text), w)
  {
    OpenAndWrite(Fill(t, w), f, ins);
    hide Opened;
    var r, q := Fill(t, w), Spliced(t, f, |text|, ins + text);
    var opened_ := Overwrite(Opened(r, f, |ins|), f, ins);
    forall i | 0 <= i < w ensures Overwrite(opened_, f + |ins|, text)[i] == Fill(q, w)[i] {
      if i >= f + |ins| {
        assert opened_[i] == r[i - |ins|];
      }
    }
    if ins == [] {
      assert Overwrite(r, f, text) == Overwrite(opened_, f + |ins|, text);
    }
  }

  /** Delete num cells at column f of a row showing t and write text there. */
  lemma ShrunkCell(t: string, f: nat, num: nat, text: string, i: nat)
    requires f + num + |text| <= |t| && f + |text| <= i
    ensures var q := Spliced(t, f, num + |text|, text);
            |q| == |t| - num && (i < |q| ==> q[i] == t[i + num])
  {
  }

  lemma ShrinkMiddle(t: string, f: nat, num: nat, text: string, w: nat)
    requires f + num + |text| <= |t| <= w
    ensures Overwrite(Closed(Fill(t, w), f, num), f, text)
         == Fill(Spliced(t, f, num + |text|, text), w)
  {
    var r := Overwrite(Closed(Fill(t, w), f, num), f, text);
    forall i | 0 <= i < w ensures r[i] == Fill(Spliced(t, f, num + |text|, text), w)[i] {
      if i >= f + |text| {
        ShrunkCell(t, f, num, text, i);
        assert r[i] == if i + num < w then Fill(t, w)[i + num] else ' ';
      }
    }
  }

  /** Write text at column f of a row showing t and blank k cells after it: nothing of t is
      left behind when the blanks reach its end or the edge. */
  lemma ReplaceTail(t: string, f: nat, text: string, k: nat, w: nat)
    requires f <= |t| && f + |text| + k <= w
    requires f + |text| + k >= |t| || f + |text| + k == w
    ensures Overwrite(Overwrite(Fill(t, w), f, text), f + |text|, Blanks(k)) == Fill(t[..f] + text, w)
  {
  }

  /** Trailing blanks of the text do not show. */
  lemma FillTrimmed(s: string, k: nat, w: nat)
    requires k <= |s|
    requires forall i | k <= i < |s| :: s[i] == ' '
    ensures Fill(s[..k], w) == Fill(s, w)
  {
  }
}
