/** update_line (ed.refresh.c): find what the old and the new row share, then shift and
    rewrite the rest. */
module RowUpdate {
  import opened Rows
  import opened Tty
  import opened EdScreen

  const MIN_END_KEEP := 4

  /** The buffer holds a C string. */
  ghost predicate IsCStr(b: array<char>)
    reads b
  {
    StrLen(b[..]) < b.Length
  }

  // ---------------------------------------------------------------- buffers

  /** How many characters there is room for, of num at dat in a string of at most dlen. */
  function Room(dat: nat, dlen: nat, num: int): nat
    requires dat <= dlen
  {
    if num <= 0 then 0 else if num > dlen - dat then dlen - dat else num
  }

  /** Room is made in d at dat for the first num characters of s, or as many as the dlen cells of d
      allow, and they are put there. */
  method StrInsert(d: array<char>, dat: nat, dlen: nat, s: string, num: int)
    requires dat <= dlen < d.Length && Room(dat, dlen, num) <= |s|
    modifies d
    ensures forall i | 0 <= i < dat :: d[i] == old(d[i])
    ensures forall i | dat <= i < dat + Room(dat, dlen, num) :: d[i] == s[i - dat]
    ensures forall i | dat + Room(dat, dlen, num) <= i < dlen :: d[i] == old(d[i - Room(dat, dlen, num)])
    ensures d[dlen] == if Room(dat, dlen, num) > 0 then NUL else old(d[dlen])
  {
    var n := Room(dat, dlen, num);
    if n == 0 {
      return;
    }
    var b := dlen - 1;
    while b - n >= dat
      invariant dat + n - 1 <= b < dlen
      invariant forall i | 0 <= i <= b :: d[i] == old(d[i])
      invariant forall i | b < i < dlen :: d[i] == old(d[i - n])
    {
      d[b] := d[b - n];
      b := b - 1;
    }
    d[dlen] := NUL;
    var k := 0;
    while k < n
      invariant k <= n && d[dlen] == NUL
      invariant forall i | 0 <= i < dlen :: d[i] ==
                  if dat <= i < dat + k then s[i - dat]
                  else if i < dat + n then old(d[i]) else old(d[i - n])
    {
      d[dat + k] := s[k];
      k := k + 1;
    }
  }

  /** Delete num characters of d at dat; the string has room for dlen. When nothing would be left
      after them the string is only cut. */
  method StrDelete(d: array<char>, dat: nat, dlen: nat, num: int)
    requires dat <= dlen < d.Length
    modifies d
    ensures num <= 0 ==> d[..] == old(d[..])
    ensures num > 0 && dat + num >= dlen ==> d[..] == old(d[..])[dat := NUL]
    ensures num > 0 && dat + num < dlen ==>
              d[dlen] == NUL
              && forall i | 0 <= i < dlen - num :: d[i] == if i < dat then old(d[i]) else old(d[i + num])
  {
    if num <= 0 {
      return;
    }
    if dat + num >= dlen {
      d[dat] := NUL;
      return;
    }
    var b := dat;
    while b + num < dlen
      invariant dat <= b <= dlen - num
      invariant forall i | 0 <= i < b :: d[i] == if i < dat then old(d[i]) else old(d[i + num])
      invariant forall i | b <= i < d.Length :: d[i] == old(d[i])
    {
      d[b] := d[b + num];
      b := b + 1;
    }
    d[dlen] := NUL;
  }

  /** Copy s over d from position at; s has no NUL, so all of it is copied. */
  method StrCopy(d: array<char>, at: nat, s: string)
    requires at + |s| <= d.Length && NUL !in s
    modifies d
    ensures forall i | 0 <= i < d.Length ::
              d[i] == if at <= i < at + |s| then s[i - at] else old(d[i])
  {
    var k := 0;
    while k < |s|
      invariant k <= |s|
      invariant forall i | 0 <= i < d.Length ::
                  d[i] == if at <= i < at + k then s[i - at] else old(d[i])
    {
      d[at + k] := s[k];
      k := k + 1;
    }
  }

  // ---------------------------------------------------------------- the differences

  /** Positions in the old (o) and new (n) row: first difference (fd, the same in both),
      begin and end of the shifted same part (sb, se), begin of the same tail (ls), end. */
  datatype Cuts = Cuts(fd: nat, osb: nat, ose: nat, ols: nat, oe: nat,
                       nsb: nat, nse: nat, nls: nat, ne: nat)
  {
    /** Characters to insert (or, negative, delete) before the shifted same part. */
    function Fx(): int { (nsb - fd) - (osb - fd) }

    /** The same for the part between the shifted same part and the same tail. */
    function Sx(): int { (nls - nse) - (ols - ose) }

    predicate Ordered() {
      fd <= osb <= ose <= ols <= oe && fd <= nsb <= nse <= nls <= ne
    }

    function DropMatch(): Cuts { this.(osb := ols, ose := ols, nsb := nls, nse := nls) }

    function DropTail(): Cuts { this.(ols := oe, nls := ne) }

    function Match(i: nat, j: nat, k: nat): Cuts { this.(osb := i, ose := i + k, nsb := j, nse := j + k) }
  }

  /** What the cuts claim to be equal is equal. */
  ghost predicate Sound(o: string, n: string, c: Cuts) {
    && c.Ordered() && |o| == c.oe && |n| == c.ne
    && o[..c.fd] == n[..c.fd]
    && o[c.osb..c.ose] == n[c.nsb..c.nse]
    && o[c.ols..] == n[c.nls..]
  }

  /** What is kept of the middle was found by starting at the first difference of one of the rows. */
  predicate Anchored(c: Cuts) { c.osb == c.ose || c.osb == c.fd || c.nsb == c.fd }

  /** Cuts that ask for nothing the terminal cannot do and keep no scrap. */
  predicate Feasible(c: Cuts, caps: Caps) {
    && c.Ordered() && Anchored(c)
    && (c.ose - c.osb >= MIN_END_KEEP || c == c.DropMatch())
    && (!caps.CanIns() ==> (c.nsb != c.ne ==> c.Fx() <= 0) && (c.ols != c.oe ==> c.Sx() <= 0))
    && (!caps.CanDel() ==> (c.osb != c.oe ==> c.Fx() >= 0) && (c.ols != c.oe ==> c.Sx() >= 0))
  }

  /** c keeps or drops c0's shifted same part, and keeps or drops its same tail. */
  predicate Coarser(c0: Cuts, c: Cuts) {
    && c.Ordered() && c.fd == c0.fd && c.oe == c0.oe && c.ne == c0.ne
    && ((c.osb == c.ose && c.nsb == c.nse) ||
        (c.osb, c.ose, c.nsb, c.nse) == (c0.osb, c0.ose, c0.nsb, c0.nse))
    && ((c.ols, c.nls) == (c.oe, c.ne) || (c.ols, c.nls) == (c0.ols, c0.nls))
  }

  lemma CoarserSound(o: string, n: string, c0: Cuts, c: Cuts)
    requires Sound(o, n, c0) && Coarser(c0, c)
    ensures Sound(o, n, c)
  {
  }

  method FirstDifference(was: array<char>, want: array<char>) returns (fd: nat)
    requires IsCStr(was) && IsCStr(want)
    ensures fd <= StrLen(was[..]) && fd <= StrLen(want[..]) && was[..fd] == want[..fd]
    ensures was[fd] != want[fd] || was[fd] == NUL
  {
    fd := 0;
    while was[fd] != NUL && was[fd] == want[fd]
      invariant fd <= StrLen(was[..]) && fd <= StrLen(want[..]) && was[..fd] == want[..fd]
      decreases was.Length - fd
    {
      assert fd != StrLen(was[..]) && fd != StrLen(want[..]);
      fd := fd + 1;
    }
  }

  /** Cut trailing blanks off the string in b, but nothing before from; returns its end. */
  method TrimEnd(b: array<char>, from: nat) returns (e: nat)
    requires IsCStr(b) && from <= StrLen(b[..])
    modifies b
    ensures from <= e <= old(StrLen(b[..])) && IsCStr(b)
    ensures CStr(b[..]) == old(CStr(b[..]))[..e] && |CStr(b[..])| == e
    ensures forall i | e <= i < old(StrLen(b[..])) :: old(b[i]) == ' '
    ensures e > from ==> b[e - 1] != ' '
    ensures b[e] == NUL && forall i | 0 <= i < b.Length && i != e :: b[i] == old(b[i])
  {
    e := from;
    while b[e] != NUL
      invariant from <= e <= StrLen(b[..])
      decreases b.Length - e
    {
      assert e != StrLen(b[..]);
      e := e + 1;
    }
    assert e == StrLen(b[..]);
    while from < e
      invariant from <= e <= StrLen(b[..])
      invariant forall i | e <= i < StrLen(b[..]) :: b[i] == ' '
    {
      if b[e - 1] != ' ' {
        break;
      }
      e := e - 1;
    }
    b[e] := NUL;
    StrLenIs(b[..], e);
  }

  // ---------------------------------------------------------------- what rows have in common

  /** The length of s without trailing blanks. */
  function Trimmed(s: string): (e: nat)
    ensures e <= |s| && (e > 0 ==> s[e - 1] != ' ') && forall i | e <= i < |s| :: s[i] == ' '
  {
    if s == [] || s[|s| - 1] != ' ' then |s| else Trimmed(s[..|s| - 1])
  }

  function Longer(a: nat, b: nat): nat { if a > b then a else b }

  function Prefix(a: string, b: string): (k: nat)
    ensures k <= |a| && k <= |b| && forall i | 0 <= i < k :: a[i] == b[i]
    ensures k < |a| && k < |b| ==> a[k] != b[k]
  {
    if a == [] || b == [] || a[0] != b[0] then 0 else 1 + Prefix(a[1..], b[1..])
  }

  lemma PrefixIs(a: string, b: string, k: nat)
    requires k <= |a| && k <= |b| && a[..k] == b[..k] && (k < |a| && k < |b| ==> a[k] != b[k])
    ensures k == Prefix(a, b)
  {
    if k > 0 {
      assert a[0] == a[..k][0] && b[0] == b[..k][0];
      assert a[1..][..k - 1] == a[..k][1..] && b[1..][..k - 1] == b[..k][1..];
      PrefixIs(a[1..], b[1..], k - 1);
    }
  }

  lemma TrimmedIs(s: string, from: nat, e: nat)
    requires from <= e <= |s| && (forall i | e <= i < |s| :: s[i] == ' ') && (e > from ==> s[e - 1] != ' ')
    ensures e == Longer(from, Trimmed(s))
  {
  }

  /** How long a tail the two have in common behind fd. */
  function Tail(o: string, n: string, fd: nat): (k: nat)
    requires fd <= |o| && fd <= |n|
    ensures k <= |o| - fd && k <= |n| - fd
    decreases |o|
  {
    if |o| == fd || |n| == fd || o[|o| - 1] != n[|n| - 1] then 0 else 1 + Tail(o[..|o| - 1], n[..|n| - 1], fd)
  }

  lemma {:induction false} TailIs(o: string, n: string, fd: nat, k: nat)
    requires fd + k <= |o| && fd + k <= |n| && o[|o| - k..] == n[|n| - k..]
    requires fd + k < |o| && fd + k < |n| ==> o[|o| - k - 1] != n[|n| - k - 1]
    ensures k == Tail(o, n, fd)
    decreases |o|
  {
    if k > 0 {
      assert o[|o| - 1] == o[|o| - k..][k - 1] && n[|n| - 1] == n[|n| - k..][k - 1];
      assert o[..|o| - 1][|o| - k..] == o[|o| - k..][..k - 1] && n[..|n| - 1][|n| - k..] == n[|n| - k..][..k - 1];
      TailIs(o[..|o| - 1], n[..|n| - 1], fd, k - 1);
    }
  }

  lemma {:induction false} TailSame(o: string, n: string, fd: nat)
    requires fd <= |o| && fd <= |n|
    ensures var k := Tail(o, n, fd); o[|o| - k..] == n[|n| - k..]
    decreases |o|
  {
    var k := Tail(o, n, fd);
    if k > 0 {
      TailSame(o[..|o| - 1], n[..|n| - 1], fd);
      assert o[|o| - k..] == o[..|o| - 1][|o| - k..] + [o[|o| - 1]];
      assert n[|n| - k..] == n[..|n| - 1][|n| - k..] + [n[|n| - 1]];
    } else {
      assert o[|o|..] == [] && n[|n|..] == [];
    }
  }

  /** Cuts that keep the beginning and the longest same tail. */
  function SameEnds(o: string, n: string, fd: nat): Cuts
    requires fd <= |o| && fd <= |n|
  {
    var ols, nls := |o| - Tail(o, n, fd), |n| - Tail(o, n, fd);
    Cuts(fd, ols, ols, ols, |o|, nls, nls, nls, |n|)
  }

  /** Case 1, insert: what starts at the first difference of the old row is looked for in the new one,
      from m on; the longest match is kept that is worth the characters inserted before it. */
  function ScannedInsert(o: string, n: string, c: Cuts, m: nat): Cuts
    requires c.fd <= c.ols <= |o| && c.nls <= |n|
    decreases c.nls - m
  {
    if m >= c.nls then c
    else
      var k := Prefix(o[c.fd..c.ols], n[m..c.nls]);
      ScannedInsert(o, n, if c.nse - c.nsb < k && 2 * k > m - c.fd then c.Match(c.fd, m, k) else c, m + 1)
  }

  /** Case 2, delete: what starts at the first difference of the new row is looked for in the old one. */
  function ScannedDelete(o: string, n: string, c: Cuts, m: nat): Cuts
    requires c.fd <= c.nls <= |n| && c.ols <= |o|
    decreases c.ols - m
  {
    if m >= c.ols then c
    else
      var k := Prefix(o[m..c.ols], n[c.fd..c.nls]);
      ScannedDelete(o, n, if c.ose - c.osb < k && 2 * k > m - c.fd then c.Match(m, c.fd, k) else c, m + 1)
  }

  /** The terminal cannot insert: nothing is kept that would have to move right. */
  function NoInserts(c: Cuts, fx: int, sx: int): Cuts {
    var a := if fx > 0 then c.DropMatch() else c;
    var b := if sx > 0 then a.DropTail() else a;
    if b.ols < b.nls then b.DropTail() else b
  }

  /** The terminal cannot delete: nothing is kept that would have to move left. */
  function NoDeletes(c: Cuts, fx: int, sx: int): Cuts {
    var a := if fx < 0 then c.DropMatch() else c;
    var b := if sx < 0 then a.DropTail() else a;
    if b.ols > b.nls then b.DropTail() else b
  }

  /** The cuts without what this terminal could not shift into place. */
  function DumbedDown(c: Cuts, caps: Caps): Cuts {
    var a := if caps.CanIns() then c else NoInserts(c, c.Fx(), c.Sx());
    if caps.CanDel() then a else NoDeletes(a, c.Fx(), c.Sx())
  }

  /** The cuts without that and without scraps. */
  function Kept(c: Cuts, caps: Caps): Cuts {
    var a := if c.oe - c.ols < MIN_END_KEEP then c.DropTail() else c;
    var b := DumbedDown(a, caps);
    if b.ose - b.osb < MIN_END_KEEP then b.DropMatch() else b
  }

  /** The cuts that update_line works with, for rows that differ from fd on. */
  function CutsOf(o: string, n: string, fd: nat, caps: Caps): Cuts
    requires fd <= |o| && fd <= |n|
  {
    var a := SameEnds(o, n, fd);
    ScanKeepsEnds(o, n, a, fd);
    Kept(ScannedDelete(o, n, ScannedInsert(o, n, a, fd), fd), caps)
  }

  lemma {:induction false} ScanKeepsEnds(o: string, n: string, c: Cuts, m: nat)
    requires c.fd <= c.ols <= |o| && c.nls <= |n|
    ensures var r := ScannedInsert(o, n, c, m); r == c.(nsb := r.nsb, nse := r.nse, osb := r.osb, ose := r.ose)
    decreases c.nls - m
  {
    if m < c.nls {
      var k := Prefix(o[c.fd..c.ols], n[m..c.nls]);
      ScanKeepsEnds(o, n, if c.nse - c.nsb < k && 2 * k > m - c.fd then c.Match(c.fd, m, k) else c, m + 1);
    }
  }

  lemma {:induction false} DeleteKeepsEnds(o: string, n: string, c: Cuts, m: nat)
    requires c.fd <= c.nls <= |n| && c.ols <= |o|
    ensures var r := ScannedDelete(o, n, c, m); r == c.(nsb := r.nsb, nse := r.nse, osb := r.osb, ose := r.ose)
    decreases c.ols - m
  {
    if m < c.ols {
      var k := Prefix(o[m..c.ols], n[c.fd..c.nls]);
      DeleteKeepsEnds(o, n, if c.ose - c.osb < k && 2 * k > m - c.fd then c.Match(m, c.fd, k) else c, m + 1);
    }
  }

  lemma KeptEnds(c: Cuts, caps: Caps)
    ensures var r := Kept(c, caps); r.fd == c.fd && r.oe == c.oe && r.ne == c.ne
  {
  }

  // ---------------------------------------------------------------- the cuts are sound and feasible

  lemma SameEndsSound(o: string, n: string, fd: nat)
    requires fd <= |o| && fd <= |n| && o[..fd] == n[..fd]
    ensures Sound(o, n, SameEnds(o, n, fd)) && Anchored(SameEnds(o, n, fd))
  {
    TailSame(o, n, fd);
    var c := SameEnds(o, n, fd);
    assert o[c.osb..c.ose] == [] && n[c.nsb..c.nse] == [];
  }

  /** A match of k characters at i of the old and j of the new row. */
  lemma MatchSound(o: string, n: string, c: Cuts, i: nat, j: nat, k: nat)
    requires Sound(o, n, c) && c.fd <= i <= c.ols && c.fd <= j <= c.nls
    requires k == Prefix(o[i..c.ols], n[j..c.nls])
    ensures Sound(o, n, c.Match(i, j, k))
  {
    var a, b := o[i..c.ols], n[j..c.nls];
    var p, q := o[i..i + k], n[j..j + k];
    forall x | 0 <= x < |p| ensures p[x] == q[x] {
      assert p[x] == a[x] && q[x] == b[x];
    }
    assert p == q;
  }

  lemma {:induction false} ScannedInsertSound(o: string, n: string, c: Cuts, m: nat)
    requires Sound(o, n, c) && Anchored(c) && c.fd <= m
    ensures Sound(o, n, ScannedInsert(o, n, c, m)) && Anchored(ScannedInsert(o, n, c, m))
    decreases c.nls - m
  {
    hide Sound, Prefix;
    SoundBounds(o, n, c);
    if m < c.nls {
      var k := Prefix(o[c.fd..c.ols], n[m..c.nls]);
      MatchSound(o, n, c, c.fd, m, k);
      ScannedInsertSound(o, n, if c.nse - c.nsb < k && 2 * k > m - c.fd then c.Match(c.fd, m, k) else c, m + 1);
    }
  }

  lemma {:induction false} ScannedDeleteSound(o: string, n: string, c: Cuts, m: nat)
    requires Sound(o, n, c) && Anchored(c) && c.fd <= m
    ensures Sound(o, n, ScannedDelete(o, n, c, m)) && Anchored(ScannedDelete(o, n, c, m))
    decreases c.ols - m
  {
    hide Sound, Prefix;
    SoundBounds(o, n, c);
    if m < c.ols {
      var k := Prefix(o[m..c.ols], n[c.fd..c.nls]);
      MatchSound(o, n, c, m, c.fd, k);
      ScannedDeleteSound(o, n, if c.ose - c.osb < k && 2 * k > m - c.fd then c.Match(m, c.fd, k) else c, m + 1);
    }
  }

  lemma SoundBounds(o: string, n: string, c: Cuts)
    requires Sound(o, n, c)
    ensures c.Ordered() && |o| == c.oe && |n| == c.ne && TailsAlign(c) && c.ose - c.osb == c.nse - c.nsb
  {
    assert |o[c.ols..]| == |n[c.nls..]| && |o[c.osb..c.ose]| == |n[c.nsb..c.nse]|;
  }

  /** Equally long tails. */
  predicate TailsAlign(c: Cuts) { c.oe - c.ols == c.ne - c.nls }

  lemma CoarserDrops(c: Cuts)
    requires c.Ordered() && TailsAlign(c)
    ensures Coarser(c, c) && Coarser(c, c.DropMatch())
    ensures Coarser(c, c.DropTail()) && TailsAlign(c.DropTail()) && c.DropTail().Ordered()
  {
  }

  lemma CoarserTwice(c0: Cuts, c1: Cuts, c2: Cuts)
    requires Coarser(c0, c1) && Coarser(c1, c2)
    ensures Coarser(c0, c2)
    ensures c2.osb < c2.ose ==> c1.osb < c1.ose
    ensures c2.ols != c2.oe ==> c1.ols == c2.ols && c1.nls == c2.nls && c1.oe == c2.oe
  {
  }

  /** What a match kept to the end and a tail kept to the end have to satisfy. */
  predicate Suits(c: Cuts, fx: int, sx: int, caps: Caps) {
    && (!caps.CanIns() ==> (c.osb < c.ose ==> fx <= 0) &&
                           (c.ols != c.oe ==> sx <= 0 && c.nls <= c.ols))
    && (!caps.CanDel() ==> (c.osb < c.ose ==> fx >= 0) &&
                           (c.ols != c.oe ==> sx >= 0 && c.nls >= c.ols))
  }

  lemma NoInsertsSuits(c: Cuts, fx: int, sx: int)
    requires c.Ordered() && TailsAlign(c)
    ensures var r := NoInserts(c, fx, sx);
            && Coarser(c, r) && TailsAlign(r) && r.Ordered()
            && (r.osb < r.ose ==> fx <= 0) && (r.ols != r.oe ==> sx <= 0 && r.nls <= r.ols)
  {
  }

  lemma NoDeletesSuits(c: Cuts, fx: int, sx: int)
    requires c.Ordered() && TailsAlign(c)
    ensures var r := NoDeletes(c, fx, sx);
            && Coarser(c, r) && TailsAlign(r) && r.Ordered()
            && (r.osb < r.ose ==> fx >= 0) && (r.ols != r.oe ==> sx >= 0 && r.nls >= r.ols)
  {
  }

  lemma DumbedDownSuits(c: Cuts, caps: Caps)
    requires c.Ordered() && TailsAlign(c)
    ensures var r := DumbedDown(c, caps);
      && Coarser(c, r) && TailsAlign(r) && r.Ordered() && Suits(r, c.Fx(), c.Sx(), caps)
  {
    hide Coarser, NoInserts, NoDeletes;
    CoarserDrops(c);
    var a := if caps.CanIns() then c else NoInserts(c, c.Fx(), c.Sx());
    NoInsertsSuits(c, c.Fx(), c.Sx());
    NoDeletesSuits(a, c.Fx(), c.Sx());
    var r := DumbedDown(c, caps);
    if !caps.CanDel() {
      CoarserTwice(c, a, r);
    }
  }

  /** Once scraps are dropped, what is left is what the shifts of c1 allow. */
  lemma FeasibleAtLast(c1: Cuts, c3: Cuts, c: Cuts, caps: Caps)
    requires TailsAlign(c1) && c1.ose - c1.osb == c1.nse - c1.nsb && Anchored(c1)
    requires Coarser(c1, c3) && c == if c3.ose - c3.osb < MIN_END_KEEP then c3.DropMatch() else c3
    requires Suits(c3, c1.Fx(), c1.Sx(), caps)
    ensures Feasible(c, caps)
  {
    if c3.ose - c3.osb < MIN_END_KEEP {
      assert c.osb == c.ose == c3.ols && c.nsb == c.nse == c3.nls;
    } else {
      assert c.osb == c1.osb && c.ose == c1.ose && c.nsb == c1.nsb && c.nse == c1.nse;
      assert c.Fx() == c1.Fx();
    }
  }

  lemma KeptFeasible(c: Cuts, caps: Caps)
    requires c.Ordered() && TailsAlign(c) && c.ose - c.osb == c.nse - c.nsb && Anchored(c)
    ensures Feasible(Kept(c, caps), caps) && Coarser(c, Kept(c, caps))
  {
    hide Feasible, Coarser, Suits, DumbedDown;
    CoarserDrops(c);
    var a := if c.oe - c.ols < MIN_END_KEEP then c.DropTail() else c;
    DumbedDownSuits(a, caps);
    var b := DumbedDown(a, caps);
    CoarserDrops(b);
    FeasibleAtLast(a, b, Kept(c, caps), caps);
    CoarserTwice(a, b, Kept(c, caps));
    CoarserTwice(c, a, Kept(c, caps));
  }

  /** The cuts split both rows into what is the same and what differs, and ask for nothing that the
      terminal cannot do. */
  lemma CutsOfSound(o: string, n: string, fd: nat, caps: Caps)
    requires fd <= |o| && fd <= |n| && o[..fd] == n[..fd]
    ensures var c := CutsOf(o, n, fd, caps);
            Sound(o, n, c) && Feasible(c, caps) && c.fd == fd && c.oe == |o| && c.ne == |n|
  {
    hide Sound, Feasible, Kept, ScannedInsert, ScannedDelete;
    var a := SameEnds(o, n, fd);
    SameEndsSound(o, n, fd);
    ScannedInsertSound(o, n, a, fd);
    ScanKeepsEnds(o, n, a, fd);
    var b := ScannedInsert(o, n, a, fd);
    ScannedDeleteSound(o, n, b, fd);
    var d := ScannedDelete(o, n, b, fd);
    SoundBounds(o, n, d);
    KeptFeasible(d, caps);
    CoarserSound(o, n, d, Kept(d, caps));
    SoundBounds(o, n, Kept(d, caps));
    DeleteKeepsEnds(o, n, b, fd);
    KeptEnds(d, caps);
  }

  // ---------------------------------------------------------------- finding the cuts

  /** Walk back from both ends while the characters agree. */
  method LastSame(was: array<char>, want: array<char>, fd: nat, oe: nat, ne: nat)
    returns (ols: nat, nls: nat)
    requires fd <= oe < was.Length && fd <= ne < want.Length
    requires was[oe] == NUL == want[ne]
    ensures ols == oe - Tail(was[..oe], want[..ne], fd) && nls == ne - Tail(was[..oe], want[..ne], fd)
  {
    var o, n := oe, ne;
    while o > fd && n > fd
      invariant fd <= o <= oe && fd <= n <= ne && was[o..oe] == want[n..ne]
      invariant was[o] == want[n]
    {
      o, n := o - 1, n - 1;
      if was[o] != want[n] {
        break;
      }
    }
    if was[o] != want[n] {
      o, n := o + 1, n + 1;
    }
    assert was[..oe][o..] == was[o..oe] && want[..ne][n..] == want[n..ne];
    TailIs(was[..oe], want[..ne], fd, oe - o);
    ols, nls := o, n;
  }

  /** Length of the common run from was[i] and want[j], within the given ends. */
  method Common(was: array<char>, want: array<char>, i: nat, iEnd: nat, j: nat, jEnd: nat)
    returns (k: nat)
    requires i <= iEnd <= was.Length && j <= jEnd <= want.Length
    ensures k == Prefix(was[..][i..iEnd], want[..][j..jEnd])
  {
    k := 0;
    while i + k < iEnd && j + k < jEnd && was[i + k] == want[j + k]
      invariant i + k <= iEnd && j + k <= jEnd && was[i..i + k] == want[j..j + k]
    {
      k := k + 1;
    }
    var a, b := was[..][i..iEnd], want[..][j..jEnd];
    assert a[..k] == was[i..i + k] && b[..k] == want[j..j + k];
    PrefixIs(a, b, k);
  }

  /** Scan the new row for what starts at the first difference of the old. */
  method ScanInsert(was: array<char>, want: array<char>, c0: Cuts) returns (c: Cuts)
    requires c0.oe < was.Length && c0.ne < want.Length && c0.Ordered()
    requires was[c0.oe] == NUL && forall k | 0 <= k < c0.oe :: was[k] != NUL
    ensures c == ScannedInsert(was[..c0.oe], want[..c0.ne], c0, c0.fd)
  {
    hide ScannedInsert, Prefix;
    ghost var o, n := was[..][..c0.oe], want[..][..c0.ne];
    c := c0;
    if was[c.fd] == NUL {
      NothingToInsert(o, n, c, c.fd);
      return;
    }
    var m := c.fd;
    while m < c.nls
      invariant c0.fd <= m <= c0.nls && c == c0.(nsb := c.nsb, nse := c.nse, osb := c.osb, ose := c.ose)
      invariant c.nsb <= c.nse && ScannedInsert(o, n, c, m) == ScannedInsert(o, n, c0, c0.fd)
    {
      InsertStep(o, n, c, m);
      if was[c.fd] == want[m] {
        PartOf(was[..], c.oe, c.fd, c.ols);
        PartOf(want[..], c.ne, m, c.nls);
        var k := Common(was, want, c.fd, c.ols, m, c.nls);
        if c.nse - c.nsb < k && 2 * k > m - c.fd {
          c := c.Match(c.fd, m, k);
        }
      }
      m := m + 1;
    }
    InsertStep(o, n, c, m);
  }

  lemma PartOf(s: string, e: nat, i: nat, j: nat)
    requires i <= j <= e <= |s|
    ensures s[..e][i..j] == s[i..j]
  {
  }

  lemma InsertStep(o: string, n: string, c: Cuts, m: nat)
    requires c.fd <= c.ols <= |o| && c.nls <= |n| && c.nsb <= c.nse && m <= c.nls
    ensures if m == c.nls then ScannedInsert(o, n, c, m) == c
            else
              var k := Prefix(o[c.fd..c.ols], n[m..c.nls]);
              && ScannedInsert(o, n, c, m)
              == ScannedInsert(o, n, if c.nse - c.nsb < k && 2 * k > m - c.fd then c.Match(c.fd, m, k) else c, m + 1)
              && (c.fd < |o| && o[c.fd] != n[m] ==> k == 0)
  {
  }

  lemma {:induction false} NothingToInsert(o: string, n: string, c: Cuts, m: nat)
    requires c.fd == c.ols <= |o| && c.nls <= |n| && c.nsb <= c.nse
    ensures ScannedInsert(o, n, c, m) == c
    decreases c.nls - m
  {
    if m < c.nls {
      NothingToInsert(o, n, c, m + 1);
    }
  }

  /** Scan the old row for what starts at the first difference of the new. */
  method ScanDelete(was: array<char>, want: array<char>, c0: Cuts) returns (c: Cuts)
    requires c0.oe < was.Length && c0.ne < want.Length && c0.fd <= c0.ols <= c0.oe && c0.fd <= c0.nls <= c0.ne
    requires c0.osb <= c0.ose && want[c0.ne] == NUL && forall k | 0 <= k < c0.ne :: want[k] != NUL
    ensures c == ScannedDelete(was[..c0.oe], want[..c0.ne], c0, c0.fd)
  {
    hide ScannedDelete, Prefix;
    ghost var o, n := was[..][..c0.oe], want[..][..c0.ne];
    c := c0;
    if want[c.fd] == NUL {
      NothingToDelete(o, n, c, c.fd);
      return;
    }
    var m := c.fd;
    while m < c.ols
      invariant c0.fd <= m <= c0.ols && c == c0.(nsb := c.nsb, nse := c.nse, osb := c.osb, ose := c.ose)
      invariant c.osb <= c.ose && ScannedDelete(o, n, c, m) == ScannedDelete(o, n, c0, c0.fd)
    {
      DeleteStep(o, n, c, m);
      if want[c.fd] == was[m] {
        PartOf(was[..], c.oe, m, c.ols);
        PartOf(want[..], c.ne, c.fd, c.nls);
        var k := Common(was, want, m, c.ols, c.fd, c.nls);
        if c.ose - c.osb < k && 2 * k > m - c.fd {
          c := c.Match(m, c.fd, k);
        }
      }
      m := m + 1;
    }
    DeleteStep(o, n, c, m);
  }

  lemma DeleteStep(o: string, n: string, c: Cuts, m: nat)
    requires c.fd <= c.nls <= |n| && c.ols <= |o| && c.osb <= c.ose && m <= c.ols
    ensures if m == c.ols then ScannedDelete(o, n, c, m) == c
            else
              var k := Prefix(o[m..c.ols], n[c.fd..c.nls]);
              && ScannedDelete(o, n, c, m)
              == ScannedDelete(o, n, if c.ose - c.osb < k && 2 * k > m - c.fd then c.Match(m, c.fd, k) else c, m + 1)
              && (c.fd < |n| && o[m] != n[c.fd] ==> k == 0)
  {
  }

  lemma {:induction false} NothingToDelete(o: string, n: string, c: Cuts, m: nat)
    requires c.fd <= c.nls <= |n| && c.ols <= |o| && c.osb <= c.ose && (c.fd == c.nls || c.ols <= m)
    ensures ScannedDelete(o, n, c, m) == c
    decreases c.ols - m
  {
    if m < c.ols {
      NothingToDelete(o, n, c, m + 1);
    }
  }

  /** Drop what is not worth keeping and what this terminal could not shift into place. */
  method Pragmatics(c0: Cuts, caps: Caps) returns (c: Cuts)
    requires c0.Ordered() && TailsAlign(c0) && c0.ose - c0.osb == c0.nse - c0.nsb && Anchored(c0)
    ensures c == Kept(c0, caps) && Feasible(c, caps) && Coarser(c0, c)
  {
    hide Feasible, Coarser;
    KeptFeasible(c0, caps);
    c := c0;
    if c.oe - c.ols < MIN_END_KEEP {
      c := c.DropTail();
    }
    var fx, sx := c.Fx(), c.Sx();
    if !caps.CanIns() {
      if fx > 0 {
        c := c.DropMatch();
      }
      if sx > 0 {
        c := c.DropTail();
      }
      if c.ols - c.fd < c.nls - c.fd {
        c := c.DropTail();
      }
    }
    if !caps.CanDel() {
      if fx < 0 {
        c := c.DropMatch();
      }
      if sx < 0 {
        c := c.DropTail();
      }
      if c.ols - c.fd > c.nls - c.fd {
        c := c.DropTail();
      }
    }
    if c.ose - c.osb < MIN_END_KEEP {
      c := c.DropMatch();
    }
  }

  /** The new row is the old one with text put in at fd. */
  predicate PutIn(o: string, n: string, fd: nat) {
    fd <= |o| <= |n| && n[|n| - (|o| - fd)..] == o[fd..]
  }

  /** The differences of two rows, as far as this terminal can make use of them. */
  method FindCuts(was: array<char>, want: array<char>, fd: nat, oe: nat, ne: nat, caps: Caps)
    returns (c: Cuts)
    requires fd <= oe < was.Length && fd <= ne < want.Length && was[..fd] == want[..fd]
    requires was[oe] == NUL == want[ne]
    requires (forall k | 0 <= k < oe :: was[k] != NUL) && forall k | 0 <= k < ne :: want[k] != NUL
    ensures c == CutsOf(was[..oe], want[..ne], fd, caps)
    ensures Sound(was[..oe], want[..ne], c) && Feasible(c, caps) && c.fd == fd && c.oe == oe && c.ne == ne
  {
    hide Sound, Feasible, ScannedInsert, ScannedDelete, Kept, Tail;
    ghost var o, n := was[..oe], want[..ne];
    assert o[..fd] == was[..fd] && n[..fd] == want[..fd];
    var ols, nls := LastSame(was, want, fd, oe, ne);
    var a := Cuts(fd, ols, ols, ols, oe, nls, nls, nls, ne);
    SameEndsSound(o, n, fd);
    ScannedInsertSound(o, n, a, fd);
    ScanKeepsEnds(o, n, a, fd);
    SoundBounds(o, n, a);
    var b := ScanInsert(was, want, a);
    SoundBounds(o, n, b);
    ScannedDeleteSound(o, n, b, fd);
    DeleteKeepsEnds(o, n, b, fd);
    var d := ScanDelete(was, want, b);
    SoundBounds(o, n, d);
    c := Pragmatics(d, caps);
    CutsOfSound(o, n, fd, caps);
  }

  /** For text put in at one place the cuts are exactly that place. */
  lemma PutInCuts(o: string, n: string, fd: nat, caps: Caps)
    requires caps.CanIns() && caps.CanDel() && fd <= |o| <= |n| && |o| - fd >= MIN_END_KEEP && PutIn(o, n, fd)
    ensures var k := |n| - (|o| - fd); CutsOf(o, n, fd, caps) == Cuts(fd, fd, fd, fd, |o|, k, k, k, |n|)
  {
    hide ScannedInsert, ScannedDelete;
    TailIs(o, n, fd, |o| - fd);
    var a := SameEnds(o, n, fd);
    NothingToInsert(o, n, a, fd);
    NothingToDelete(o, n, a, fd);
  }

  // ---------------------------------------------------------------- the operations

  ghost predicate Shows(scr: Screen, cur: nat, text: string)
    reads scr
  {
    cur < |scr.tty.rows| && scr.tty.rows[cur] == Fill(text, scr.width)
  }

  /** With the cursor in a row showing t: insert ins and write text after it. */
  method Grow(scr: Screen, cur: nat, ins: string, text: string, ghost t: string)
    requires scr.InSync() && scr.cursorV == cur && Shows(scr, cur, t)
    requires scr.cursorH + |text| <= |t| && scr.cursorH + |ins| + |text| < scr.width
    requires NUL !in ins && NUL !in text && (ins != [] ==> scr.caps.InsertWorks())
    modifies scr`tty, scr`cursorH, scr`cursorV
    ensures scr.InSync() && scr.cursorV == cur && scr.cursorH == old(scr.cursorH) + |ins| + |text|
    ensures Shows(scr, cur, Spliced(t, old(scr.cursorH), |text|, ins + text))
    ensures scr.tty.rows == old(scr.tty.rows)[cur := scr.tty.rows[cur]]
  {
    GrowMiddle(t, scr.cursorH, ins, text, scr.width);
    if ins != [] {
      scr.InsertWrite(ins);
    }
    scr.SoWrite(text);
  }

  /** With the cursor in a row showing t: delete num cells and write text over the next. */
  method Shrink(scr: Screen, cur: nat, num: nat, text: string, ghost t: string)
    requires scr.InSync() && scr.cursorV == cur && Shows(scr, cur, t)
    requires 0 < num && scr.cursorH + num + |text| <= |t| <= scr.width
    requires NUL !in text && scr.caps.CanDel()
    modifies scr`tty, scr`cursorH, scr`cursorV
    ensures scr.InSync() && scr.cursorV == cur && scr.cursorH == old(scr.cursorH) + |text|
    ensures Shows(scr, cur, Spliced(t, old(scr.cursorH), num + |text|, text))
    ensures scr.tty.rows == old(scr.tty.rows)[cur := scr.tty.rows[cur]]
  {
    ShrinkMiddle(t, scr.cursorH, num, text, scr.width);
    scr.DeleteChars(num);
    scr.SoWrite(text);
  }

  /** Text ending at column end, with num blanks after it, hides a row's text of length len. */
  predicate Covers(end: nat, num: int, len: nat, width: nat) {
    end >= len || end == width || (num > 0 && (end + num >= len || end + num == width))
  }

  /** With the cursor in a row showing t: write text and clear num cells after it, which is
      all that is left of t. */
  method Finish(scr: Screen, cur: nat, text: string, num: int, ghost t: string)
    requires scr.InSync() && scr.cursorV == cur && Shows(scr, cur, t) && NUL !in text
    requires scr.cursorH <= |t| && scr.cursorH + |text| <= scr.width
    requires scr.cursorH + |text| == scr.width ==> scr.WrapSafe()
    requires num > 0 ==> scr.cursorH + |text| + num <= scr.width
    requires num > 0 && !scr.caps.ce && scr.cursorH + |text| + num == scr.width ==> scr.WrapSafe()
    requires (text == [] && num <= 0) || Covers(scr.cursorH + |text|, num, |t|, scr.width)
    modifies scr`tty, scr`cursorH, scr`cursorV
    ensures scr.Shape()
    ensures scr.InSync() <==> scr.caps.ce || num <= 0 || old(scr.cursorH) + |text| + num < scr.width
    ensures if Covers(old(scr.cursorH) + |text|, num, |t|, scr.width)
            then Shows(scr, cur, t[..old(scr.cursorH)] + text) else Shows(scr, cur, t)
    ensures old(scr.cursorH) + |text| < scr.width ==> scr.cursorV == cur
    ensures scr.tty.rows == old(scr.tty.rows)[cur := scr.tty.rows[cur]]
  {
    ghost var end := scr.cursorH + |text|;
    ghost var blanked := if num <= 0 then 0 else if scr.caps.ce then scr.width - end else num;
    if Covers(end, num, |t|, scr.width) {
      ReplaceTail(t, scr.cursorH, text, blanked, scr.width);
    } else {
      assert Overwrite(Fill(t, scr.width), scr.cursorH, []) == Fill(t, scr.width);
    }
    scr.SoWrite(text);
    scr.ClearEOL(num);
  }

  /** The row's text when the shifted same part is in place: new up to nsb, then old. */
  function Shifted(o: string, n: string, c: Cuts): string
    requires c.osb <= |o| && c.nsb <= |n|
  {
    n[..c.nsb] + o[c.osb..]
  }

  /** Sound, cell by cell, for the part of the new row that is taken over from the old. */
  ghost predicate Shared(o: string, n: string, c: Cuts) {
    && c.Ordered() && |o| == c.oe && |n| == c.ne && c.ose - c.osb == c.nse - c.nsb
    && (forall i | 0 <= i < c.fd :: o[i] == n[i])
    && (forall i | c.nsb <= i < c.nse :: n[i] == o[i - c.nsb + c.osb])
  }

  lemma SoundShared(o: string, n: string, c: Cuts)
    requires Sound(o, n, c)
    ensures Shared(o, n, c)
  {
    forall i | 0 <= i < c.fd ensures o[i] == n[i] {
      assert o[..c.fd][i] == n[..c.fd][i];
    }
    forall i | c.nsb <= i < c.nse ensures n[i] == o[i - c.nsb + c.osb] {
      assert o[c.osb..c.ose][i - c.nsb] == n[c.nsb..c.nse][i - c.nsb];
    }
  }

  /** Keep the Display buffer in step with a first insert: it then starts with n up to nse. */
  method BufferInsert(was: array<char>, width: nat, n: string, c: Cuts, ghost o: string)
    requires was.Length == width + 1 && c.oe <= width && c.ne <= width && c.Fx() >= 0
    requires Shared(o, n, c) && NUL !in n && forall i | 0 <= i < c.oe :: was[i] == o[i]
    modifies was
    ensures forall i | 0 <= i < c.nse :: was[i] == n[i]
  {
    hide Shared;
    var d: nat := c.Fx();
    SharedBounds(o, n, c);
    OpenBuffer(was, width, n, c, d, o);
    PartPlain(n, c.fd + d, c.nsb);
    StrCopy(was, c.fd + d, n[c.fd + d..c.nsb]);
  }

  lemma PartPlain(s: string, a: nat, b: nat)
    requires a <= b <= |s| && NUL !in s
    ensures NUL !in s[a..b]
  {
  }

  /** The first d of the characters, and what the old row goes on with. */
  method OpenBuffer(was: array<char>, width: nat, n: string, c: Cuts, d: nat, ghost o: string)
    requires was.Length == width + 1 && c.oe <= width && c.ne <= width && c.Fx() == d
    requires Shared(o, n, c) && forall i | 0 <= i < c.oe :: was[i] == o[i]
    modifies was
    ensures forall i | 0 <= i < c.fd + d :: was[i] == n[i]
    ensures forall i | c.nsb <= i < c.nse :: was[i] == n[i]
  {
    hide Room, Shared;
    SharedBounds(o, n, c);
    AllRoom(c.fd, width, d);
    ghost var a := was[..];
    StrInsert(was, c.fd, width, n[c.fd..c.nsb], d);
    BufferOpened(a, was[..], width, n, c, d, o);
  }

  lemma AllRoom(dat: nat, dlen: nat, num: nat)
    requires dat + num <= dlen
    ensures Room(dat, dlen, num) == num
  {
  }

  lemma SharedBounds(o: string, n: string, c: Cuts)
    requires Shared(o, n, c)
    ensures c.Ordered() && |o| == c.oe && |n| == c.ne
  {
  }

  /** What opening space in the buffer leaves in it. */
  lemma BufferOpened(a: string, b: string, width: nat, n: string, c: Cuts, d: nat, o: string)
    requires Shared(o, n, c) && c.Fx() == d && c.oe <= width && c.ne <= width && |a| == |b| == width + 1
    requires forall i | 0 <= i < c.oe :: a[i] == o[i]
    requires forall i | 0 <= i < c.fd :: b[i] == a[i]
    requires forall i | c.fd <= i < c.fd + d :: b[i] == n[c.fd..c.nsb][i - c.fd]
    requires forall i | c.fd + d <= i < width :: b[i] == a[i - d]
    ensures forall i | 0 <= i < c.fd + d :: b[i] == n[i]
    ensures forall i | c.nsb <= i < c.nse :: b[i] == n[i]
  {
    forall i | 0 <= i < c.fd + d ensures b[i] == n[i] {
      if i < c.fd {
        assert b[i] == a[i] && a[i] == o[i] && o[i] == n[i];
      } else {
        assert b[i] == n[c.fd..c.nsb][i - c.fd] == n[i];
      }
    }
    forall i | c.nsb <= i < c.nse ensures b[i] == n[i] {
      var j := i - c.nsb + c.osb;
      assert i - d == j && b[i] == a[j] && a[j] == o[j];
      assert n[i] == o[j];
    }
  }

  /** The same for a first delete. */
  method BufferDelete(was: array<char>, width: nat, n: string, c: Cuts, ghost o: string)
    requires was.Length == width + 1 && c.oe <= width && c.Fx() < 0 && c.osb != c.oe
    requires Shared(o, n, c) && NUL !in n && forall i | 0 <= i < c.oe :: was[i] == o[i]
    modifies was
    ensures forall i | 0 <= i < c.nse :: was[i] == n[i]
  {
    var d: nat := -c.Fx();
    StrDelete(was, c.fd, width, d);
    assert forall i | c.nsb <= i < c.nse :: was[i] == o[i + d];
    StrCopy(was, c.fd, n[c.fd..c.nsb]);
  }

  /** On a terminal row showing Shifted, the first nse cells are the new ones. */
  lemma ShiftedStart(o: string, n: string, c: Cuts)
    requires Sound(o, n, c)
    ensures c.nse <= |Shifted(o, n, c)| && Shifted(o, n, c)[..c.nse] == n[..c.nse]
    ensures Shifted(o, n, c)[c.nse..] == o[c.ose..]
  {
    var t := Shifted(o, n, c);
    SoundShared(o, n, c);
  }

  /** The first difference is shifted before the second one. */
  predicate Early(c: Cuts, width: nat) {
    c.Fx() < 0 || (c.Fx() > 0 && Useful(c) + c.Fx() < width)
  }

  /** The column up to which a row is cleared with these cuts; 0 if nothing is cleared. */
  function ClearedTo(c: Cuts, width: nat): int {
    if c.Fx() < 0 && c.osb == c.oe then c.oe
    else if c.Sx() < 0 && c.ols == c.oe then
      var shifted := c.oe + if Early(c, width) then c.Fx() else 0;
      var olen := if shifted > width then width else shifted;
      if olen > c.ne then olen else 0
    else 0
  }

  /** With these cuts the cursor is where the editor takes it to be in the end. */
  predicate CursorKept(c: Cuts, caps: Caps, width: nat) {
    caps.ce || ClearedTo(c, width) < width
  }

  /** With these cuts text is inserted. */
  predicate Inserts(c: Cuts) {
    (c.Fx() > 0 && c.nsb != c.ne) || (c.Sx() > 0 && c.ols != c.oe)
  }

  /** The terminal is on row cur, has room for both rows, counts tabs rightly as far as they reach, and
      really inserts if it has to. */
  ghost predicate Ready(scr: Screen, cur: nat, c: Cuts)
    reads scr, scr.display
  {
    && scr.InSync() && scr.cursorV == cur
    && (cur + 1 < scr.height ==> scr.display[cur] != scr.display[cur + 1])
    && c.oe <= scr.width && c.ne <= scr.width
    && (c.ne == scr.width ==> scr.WrapSafe())
    && scr.TabsUpTo(c.oe) && scr.TabsUpTo(c.ne)
    && (Inserts(c) ==> scr.caps.InsertWorks())
  }

  /** Blanks that are written up to the last column have a next row to run on to. */
  ghost predicate ClearRoom(scr: Screen, c: Cuts)
    requires scr.InSync()
    reads scr, scr.display
  {
    !CursorKept(c, scr.caps, scr.width) ==> scr.WrapSafe()
  }

  /** How far the old row is of use: to its end, or only as far as the shifted part when there is no same
      tail. */
  function Useful(c: Cuts): nat { if c.ols != c.oe then c.oe else c.ose }

  /** fx is the shift already done, 0 when it is nil or put off because something that is kept would go
      past the edge. */
  predicate ShiftDone(c: Cuts, fx: int, width: nat) {
    && (fx != 0 ==> fx == c.Fx() && c.nse < width && (fx > 0 ==> Useful(c) + fx < width))
    && (fx == 0 ==> c.Fx() >= 0 && (c.Fx() > 0 ==> Useful(c) + c.Fx() >= width))
  }

  /** After the first part: the row is shifted, or still the old one when fx is 0. */
  ghost predicate FirstPartDone(scr: Screen, cur: nat, o: string, n: string, c: Cuts, fx: int)
    requires Sound(o, n, c)
    reads scr, scr.display
  {
    && Ready(scr, cur, c) && ClearRoom(scr, c) && ShiftDone(c, fx, scr.width)
    && (if fx != 0 then Shows(scr, cur, Shifted(o, n, c)) && scr.Agrees(c.nse)
        else Shows(scr, cur, o) && scr.Agrees(c.oe))
  }

  /** First insert, when nothing kept would fall off the edge, or first delete. */
  method FirstPart(scr: Screen, cur: nat, n: string, c: Cuts, ghost o: string)
    returns (fx: int, done: bool)
    requires Ready(scr, cur, c) && ClearRoom(scr, c) && Shows(scr, cur, o) && scr.Agrees(c.oe)
    requires Sound(o, n, c) && Feasible(c, scr.caps) && NUL !in n
    modifies scr`tty, scr`cursorH, scr`cursorV, scr.display[cur]
    ensures scr.Shape() && scr.tty.rows == old(scr.tty.rows)[cur := scr.tty.rows[cur]]
    ensures done ==> Shows(scr, cur, n) && (scr.InSync() <==> CursorKept(c, scr.caps, scr.width))
    ensures !done ==> FirstPartDone(scr, cur, o, n, c, fx)
    ensures c.Fx() < 0 && c.osb == c.oe <==> done && c.Fx() <= 0
    ensures c.Fx() < 0 && c.osb == c.oe ==> scr.display[cur][..] == old(scr.display[cur][..])
  {
    hide Sound, Feasible, Shifted, ShiftDone, ClearedTo, Inserts;
    done := false;
    fx := c.Fx();
    var p := Useful(c);
    ShiftIsDone(o, n, c, scr.caps, scr.width);
    if c.nsb != c.fd && fx > 0 && p + fx < scr.width {
      scr.MoveToChar(c.fd);
      if c.nsb != c.ne {
        FirstInsert(scr, cur, n, c, o);
      } else {
        WriteRest(scr, cur, n, c, o);
        done := true;
      }
    } else if fx < 0 {
      scr.MoveToChar(c.fd);
      if c.osb != c.oe {
        FirstDelete(scr, cur, n, c, o);
      } else {
        ClearRest(scr, cur, n, c, o);
        done := true;
      }
    } else {
      fx := 0;
    }
  }

  lemma ShiftIsDone(o: string, n: string, c: Cuts, caps: Caps, width: nat)
    requires Sound(o, n, c) && Feasible(c, caps) && c.oe <= width && c.ne <= width
    ensures c.fd <= c.oe && c.fd <= width
    ensures c.Fx() > 0 && Useful(c) + c.Fx() < width ==> c.fd < width && ShiftDone(c, c.Fx(), width)
    ensures c.Fx() < 0 ==> c.fd < width && ShiftDone(c, c.Fx(), width)
    ensures c.Fx() > 0 && c.nsb == c.ne ==> ClearedTo(c, width) == 0
    ensures c.Fx() >= 0 && (c.nsb == c.fd || c.Fx() == 0 || Useful(c) + c.Fx() >= width) ==> ShiftDone(c, 0, width)
  {
  }

  /** The rest of the new row is what is inserted: write it. */
  method WriteRest(scr: Screen, cur: nat, n: string, c: Cuts, ghost o: string)
    requires Ready(scr, cur, c) && Shows(scr, cur, o) && scr.Agrees(c.oe) && scr.cursorH == c.fd
    requires Sound(o, n, c) && Feasible(c, scr.caps) && NUL !in n && c.nsb == c.ne && c.Fx() > 0
    modifies scr`tty, scr`cursorH, scr`cursorV, scr.display[cur]
    ensures scr.InSync() && scr.tty.rows == old(scr.tty.rows)[cur := scr.tty.rows[cur]]
    ensures Shows(scr, cur, n)
  {
    hide Shifted;
    Finish(scr, cur, n[c.fd..c.nsb], 0, o);
    StrCopy(scr.display[cur], c.fd, n[c.fd..c.nsb]);
    WholeRow(o, n, c);
  }

  /** The rest of the old row is what is deleted: clear it. */
  method ClearRest(scr: Screen, cur: nat, n: string, c: Cuts, ghost o: string)
    requires Ready(scr, cur, c) && ClearRoom(scr, c) && Shows(scr, cur, o) && scr.Agrees(c.oe) && scr.cursorH == c.fd
    requires Sound(o, n, c) && Feasible(c, scr.caps) && NUL !in n && c.osb == c.oe && c.Fx() < 0
    modifies scr`tty, scr`cursorH, scr`cursorV
    ensures scr.Shape() && (scr.InSync() <==> CursorKept(c, scr.caps, scr.width))
    ensures scr.tty.rows == old(scr.tty.rows)[cur := scr.tty.rows[cur]]
    ensures Shows(scr, cur, n)
  {
    hide Shifted;
    Finish(scr, cur, n[c.fd..c.nsb], c.oe - c.ne, o);
    WholeRow(o, n, c);
  }

  lemma WholeRow(o: string, n: string, c: Cuts)
    requires Sound(o, n, c)
    ensures c.nsb == c.ne ==> o[..c.fd] + n[c.fd..c.nsb] == n
  {
  }

  lemma ShiftedBySplice(o: string, n: string, c: Cuts)
    requires Sound(o, n, c)
    ensures Spliced(o, c.fd, c.osb - c.fd, n[c.fd..c.nsb]) == Shifted(o, n, c)
  {
  }

  /** First insert with something to keep after it. */
  method FirstInsert(scr: Screen, cur: nat, n: string, c: Cuts, ghost o: string)
    requires Ready(scr, cur, c) && Shows(scr, cur, o) && scr.Agrees(c.oe) && scr.cursorH == c.fd
    requires Sound(o, n, c) && Feasible(c, scr.caps) && NUL !in n && c.nsb != c.ne && c.Fx() >= 0
    modifies scr`tty, scr`cursorH, scr`cursorV, scr.display[cur]
    ensures Ready(scr, cur, c) && Shows(scr, cur, Shifted(o, n, c)) && scr.Agrees(c.nse)
    ensures scr.tty.rows == old(scr.tty.rows)[cur := scr.tty.rows[cur]]
  {
    SoundBounds(o, n, c);
    assert forall i | 0 <= i < c.oe :: scr.display[cur][i] == o[i];
    hide Shifted, Shared, Feasible, Inserts, Sound;
    SoundShared(o, n, c);
    BufferInsert(scr.display[cur], scr.width, n, c, o);
    InsertOnScreen(scr, cur, n, c, o);
    ShiftedAgrees(scr, cur, n, c, o);
  }

  /** With the row shifted and the buffer new up to nse, Display agrees with the screen up to there. */
  lemma ShiftedAgrees(scr: Screen, cur: nat, n: string, c: Cuts, o: string)
    requires Sound(o, n, c) && scr.InSync() && scr.cursorV == cur && c.nse <= scr.width
    requires Shows(scr, cur, Shifted(o, n, c)) && forall i | 0 <= i < c.nse :: scr.display[cur][i] == n[i]
    ensures scr.Agrees(c.nse)
  {
    hide Shifted, Sound, Fill;
    SoundBounds(o, n, c);
    ShiftedStart(o, n, c);
    var t := Shifted(o, n, c);
    forall i | 0 <= i < c.nse ensures scr.display[cur][i] == scr.tty.rows[cur][i] {
      FillStart(t, scr.width, i);
      assert t[..c.nse][i] == n[..c.nse][i];
    }
  }

  method InsertOnScreen(scr: Screen, cur: nat, n: string, c: Cuts, ghost o: string)
    requires Ready(scr, cur, c) && Shows(scr, cur, o) && scr.cursorH == c.fd
    requires Sound(o, n, c) && Feasible(c, scr.caps) && NUL !in n && c.nsb != c.ne && c.Fx() >= 0
    modifies scr`tty, scr`cursorH, scr`cursorV
    ensures Ready(scr, cur, c) && Shows(scr, cur, Shifted(o, n, c))
    ensures scr.tty.rows == old(scr.tty.rows)[cur := scr.tty.rows[cur]]
  {
    hide Shifted, Spliced, Sound;
    var fx: nat := c.Fx();
    SoundBounds(o, n, c);
    ShiftedBySplice(o, n, c);
    assert n[c.fd..c.fd + fx] + n[c.fd + fx..c.nsb] == n[c.fd..c.nsb];
    Grow(scr, cur, n[c.fd..c.fd + fx], n[c.fd + fx..c.nsb], o);
  }

  /** First delete with something to keep after it. */
  method FirstDelete(scr: Screen, cur: nat, n: string, c: Cuts, ghost o: string)
    requires Ready(scr, cur, c) && Shows(scr, cur, o) && scr.Agrees(c.oe) && scr.cursorH == c.fd
    requires Sound(o, n, c) && Feasible(c, scr.caps) && NUL !in n && c.osb != c.oe && c.Fx() < 0
    modifies scr`tty, scr`cursorH, scr`cursorV, scr.display[cur]
    ensures Ready(scr, cur, c) && Shows(scr, cur, Shifted(o, n, c)) && scr.Agrees(c.nse)
    ensures scr.tty.rows == old(scr.tty.rows)[cur := scr.tty.rows[cur]]
  {
    hide Shifted, Shared, Feasible, Inserts;
    assert forall i | 0 <= i < c.oe :: scr.display[cur][i] == o[i];
    SoundShared(o, n, c);
    BufferDelete(scr.display[cur], scr.width, n, c, o);
    DeleteOnScreen(scr, cur, n, c, o);
    ShiftedAgrees(scr, cur, n, c, o);
  }

  lemma DeleteFits(o: string, n: string, c: Cuts, caps: Caps)
    requires Sound(o, n, c) && Feasible(c, caps) && NUL !in n && c.osb != c.oe && c.Fx() < 0
    ensures caps.CanDel() && c.fd - c.Fx() + (c.nsb - c.fd) <= |o| == c.oe && NUL !in n[c.fd..c.nsb]
    ensures c.fd <= c.nsb <= |n| && -c.Fx() + (c.nsb - c.fd) == c.osb - c.fd && c.fd <= c.osb
  {
  }

  method DeleteOnScreen(scr: Screen, cur: nat, n: string, c: Cuts, ghost o: string)
    requires Ready(scr, cur, c) && Shows(scr, cur, o) && scr.cursorH == c.fd
    requires Sound(o, n, c) && Feasible(c, scr.caps) && NUL !in n && c.osb != c.oe && c.Fx() < 0
    modifies scr`tty, scr`cursorH, scr`cursorV
    ensures Ready(scr, cur, c) && Shows(scr, cur, Shifted(o, n, c))
    ensures scr.tty.rows == old(scr.tty.rows)[cur := scr.tty.rows[cur]]
  {
    hide Shifted, Spliced, Sound, Feasible;
    ShiftedBySplice(o, n, c);
    DeleteFits(o, n, c, scr.caps);
    Shrink(scr, cur, -c.Fx(), n[c.fd..c.nsb], o);
  }

  /** The row's text once the second delete is done: in place, or to the right of a first
      insert still to come. */
  function Shortened(o: string, n: string, c: Cuts, fx: int): string
    requires c.ose <= |o| && c.nse <= |n|
  {
    if fx != 0 then n else o[..c.ose] + n[c.nse..]
  }

  /** t begins with n up to f, and after k more cells goes on like n after g. */
  lemma SplicedTo(t: string, n: string, f: nat, k: nat, g: nat)
    requires f <= g <= |n| && f + k <= |t|
    requires t[..f] == n[..f] && t[f + k..] == n[g..]
    ensures Spliced(t, f, k, n[f..g]) == n
    ensures g == |n| ==> t[..f] + n[f..g] == n
  {
    assert n == n[..f] + n[f..g] + n[g..];
  }

  lemma ShortenedBySplice(o: string, n: string, c: Cuts, fx: int)
    requires Sound(o, n, c) && (fx == 0 || fx == c.Fx())
    ensures var t := if fx != 0 then Shifted(o, n, c) else o;
            && |t| == c.oe + fx && c.ose + fx >= 0
            && Spliced(t, c.ose + fx, c.ols - c.ose, n[c.nse..c.nls]) == Shortened(o, n, c, fx)
            && (c.nls == c.ne ==> t[..c.ose + fx] + n[c.nse..c.nls] == Shortened(o, n, c, fx))
  {
    hide Shifted, Spliced;
    var t, goal := if fx != 0 then Shifted(o, n, c) else o, Shortened(o, n, c, fx);
    ShiftedStart(o, n, c);
    var f := c.ose + fx;
    assert n[c.nls..] == o[c.ols..] == o[c.ose..][c.ols - c.ose..];
    if fx != 0 {
      assert t[f + (c.ols - c.ose)..] == t[f..][c.ols - c.ose..];
    } else {
      assert n[c.nse..] == n[c.nse..c.nls] + n[c.nls..];
    }
    var g := f + (c.nls - c.nse);
    assert goal[f..g] == n[c.nse..c.nls] && goal[g..] == n[c.nls..];
    SplicedTo(t, goal, f, c.ols - c.ose, g);
  }

  /** Second delete. When fx is 0 a first insert may still follow. */
  method SecondDelete(scr: Screen, cur: nat, n: string, c: Cuts, fx: int, ghost o: string)
    requires Sound(o, n, c) && Feasible(c, scr.caps) && NUL !in n && c.Sx() < 0
    requires FirstPartDone(scr, cur, o, n, c, fx)
    modifies scr`tty, scr`cursorH, scr`cursorV
    ensures scr.Shape() && (scr.InSync() <==> CursorKept(c, scr.caps, scr.width))
    ensures scr.tty.rows == old(scr.tty.rows)[cur := scr.tty.rows[cur]]
    ensures fx != 0 || c.ols != c.oe || c.Fx() == 0 ==> Shows(scr, cur, Shortened(o, n, c, fx))
    ensures fx == 0 && c.ols == c.oe && c.Fx() > 0 ==> Shows(scr, cur, o) && c.nse == c.ne == scr.width
    ensures fx == 0 ==> scr.cursorV == cur
  {
    hide Feasible;
    scr.MoveToChar(c.ose + fx);
    if c.ols != c.oe {
      SecondDeleteKeep(scr, cur, n, c, fx, o);
    } else {
      SecondDeleteRest(scr, cur, n, c, fx, o);
    }
  }

  /** There is a same tail: delete down to it. */
  method SecondDeleteKeep(scr: Screen, cur: nat, n: string, c: Cuts, fx: int, ghost o: string)
    requires Sound(o, n, c) && Feasible(c, scr.caps) && NUL !in n && c.Sx() < 0 && c.ols != c.oe
    requires FirstPartDone(scr, cur, o, n, c, fx) && scr.cursorH == c.ose + fx
    modifies scr`tty, scr`cursorH, scr`cursorV
    ensures scr.InSync() && scr.tty.rows == old(scr.tty.rows)[cur := scr.tty.rows[cur]]
    ensures Shows(scr, cur, Shortened(o, n, c, fx)) && scr.cursorV == cur
  {
    hide Shifted, Shortened, Spliced;
    ghost var t := if fx != 0 then Shifted(o, n, c) else o;
    ShortenedBySplice(o, n, c, fx);
    ghost var goal := Shortened(o, n, c, fx);
    assert Spliced(t, scr.cursorH, c.ols - c.ose, n[c.nse..c.nls]) == goal;
    SecondShrink(scr, cur, n, c, t);
    assert Shows(scr, cur, goal);
  }

  /** There is none: clear what the old row had left. */
  method SecondDeleteRest(scr: Screen, cur: nat, n: string, c: Cuts, fx: int, ghost o: string)
    requires Sound(o, n, c) && NUL !in n && c.Sx() < 0 && c.ols == c.oe
    requires FirstPartDone(scr, cur, o, n, c, fx) && scr.cursorH == c.ose + fx
    modifies scr`tty, scr`cursorH, scr`cursorV
    ensures scr.Shape() && (scr.InSync() <==> CursorKept(c, scr.caps, scr.width))
    ensures scr.tty.rows == old(scr.tty.rows)[cur := scr.tty.rows[cur]]
    ensures fx != 0 || c.Fx() == 0 ==> Shows(scr, cur, Shortened(o, n, c, fx))
    ensures fx == 0 && c.Fx() > 0 ==> Shows(scr, cur, o) && c.nse == c.ne == scr.width
    ensures fx == 0 ==> scr.cursorV == cur
  {
    hide Shifted, Shortened, Fill, Inserts, Sound, ClearedTo;
    SoundBounds(o, n, c);
    ghost var t := if fx != 0 then Shifted(o, n, c) else o;
    ShortenedBySplice(o, n, c, fx);
    var olen := c.oe + fx;
    if olen > scr.width {
      olen := scr.width;
    }
    ClearFits(c, fx, olen, scr.width);
    ghost var goal := t[..scr.cursorH] + n[c.nse..c.nls];
    SecondClear(scr, cur, n, c, olen, t);
    assert fx != 0 || c.Fx() == 0 ==> Shows(scr, cur, goal);
  }

  lemma ClearFits(c: Cuts, fx: int, olen: int, width: nat)
    requires c.Ordered() && c.oe <= width && c.ne <= width && c.ose - c.osb == c.nse - c.nsb
    requires ShiftDone(c, fx, width) && c.Sx() < 0 && c.ols == c.oe && c.nls == c.ne
    requires olen == if c.oe + fx > width then width else c.oe + fx
    ensures var end := c.ose + fx + (c.ne - c.nse);
            && end <= c.ne && (olen > c.ne ==> end == c.ne) && ClearedTo(c, width) == (if olen > c.ne then olen else 0)
            && (fx != 0 || c.Fx() == 0 ==> end == c.ne && Covers(end, olen - c.ne, c.oe + fx, width))
            && (fx == 0 && c.Fx() > 0 ==> c.nse == c.ne == width && olen <= c.ne)
            && (fx == 0 ==> end < width)
  {
  }

  method SecondShrink(scr: Screen, cur: nat, n: string, c: Cuts, ghost t: string)
    requires scr.InSync() && scr.cursorV == cur && Shows(scr, cur, t) && scr.caps.CanDel()
    requires c.Ordered() && |n| == c.ne && NUL !in n && c.Sx() < 0
    requires scr.cursorH + (c.ols - c.ose) <= |t| <= scr.width
    modifies scr`tty, scr`cursorH, scr`cursorV
    ensures scr.InSync() && scr.tty.rows == old(scr.tty.rows)[cur := scr.tty.rows[cur]]
    ensures scr.cursorV == cur
    ensures Shows(scr, cur, Spliced(t, old(scr.cursorH), c.ols - c.ose, n[c.nse..c.nls]))
  {
    assert -c.Sx() + |n[c.nse..c.nls]| == c.ols - c.ose;
    Shrink(scr, cur, -c.Sx(), n[c.nse..c.nls], t);
  }

  method SecondClear(scr: Screen, cur: nat, n: string, c: Cuts, olen: int, ghost t: string)
    requires scr.InSync() && scr.cursorV == cur && Shows(scr, cur, t) && NUL !in n
    requires c.Ordered() && |n| == c.ne == c.nls && scr.cursorH <= |t|
    requires var end := scr.cursorH + (c.ne - c.nse);
             && end <= c.ne <= scr.width && (end == scr.width ==> scr.WrapSafe())
             && olen <= scr.width && (olen > c.ne ==> end == c.ne)
             && (olen > c.ne && !scr.caps.ce && olen == scr.width ==> scr.WrapSafe())
             && ((c.nse == c.ne && olen <= c.ne) || Covers(end, olen - c.ne, |t|, scr.width))
    modifies scr`tty, scr`cursorH, scr`cursorV
    ensures scr.Shape() && (scr.InSync() <==> scr.caps.ce || olen <= c.ne || olen < scr.width)
    ensures scr.tty.rows == old(scr.tty.rows)[cur := scr.tty.rows[cur]]
    ensures if Covers(old(scr.cursorH) + (c.ne - c.nse), olen - c.ne, |t|, scr.width)
            then Shows(scr, cur, t[..old(scr.cursorH)] + n[c.nse..c.nls]) else Shows(scr, cur, t)
    ensures old(scr.cursorH) + (c.ne - c.nse) < scr.width ==> scr.cursorV == cur
  {
    Finish(scr, cur, n[c.nse..c.nls], olen - c.ne, t);
  }

  lemma SplicedFirst(o: string, n: string, c: Cuts, t: string)
    requires Sound(o, n, c) && c.osb <= |t| && t[..c.osb] == o[..c.osb]
    ensures Spliced(t, c.fd, c.osb - c.fd, n[c.fd..c.nsb]) == n[..c.nsb] + t[c.osb..]
    ensures c.nsb == c.ne ==> t[..c.fd] + n[c.fd..c.nsb] == n
  {
    assert t[..c.fd] == t[..c.osb][..c.fd] == n[..c.fd];
  }

  /** A first insert that was put off: on a row showing t, which is the old row up to osb. */
  method LateInsert(scr: Screen, cur: nat, n: string, c: Cuts, ghost t: string, ghost o: string)
    requires Sound(o, n, c) && Feasible(c, scr.caps) && NUL !in n && c.Fx() >= 0 && c.nsb != c.fd
    requires Ready(scr, cur, c) && Shows(scr, cur, t) && c.osb <= |t| && t[..c.osb] == o[..c.osb]
    requires forall i | 0 <= i < c.oe :: scr.display[cur][i] == o[i]
    requires c.nsb == c.ne ==> t == o
    modifies scr`tty, scr`cursorH, scr`cursorV, scr.display[cur]
    ensures scr.InSync() && scr.tty.rows == old(scr.tty.rows)[cur := scr.tty.rows[cur]]
    ensures Shows(scr, cur, if c.nsb == c.ne then n else n[..c.nsb] + t[c.osb..])
    ensures c.ne < scr.width || c.nsb != c.ne ==> Ready(scr, cur, c)
    ensures forall i | 0 <= i < c.nse :: scr.display[cur][i] == n[i]
  {
    hide Spliced, Shared;
    assert scr.Agrees(c.fd) by {
      assert forall i | 0 <= i < c.fd :: t[..c.osb][i] == o[..c.osb][i];
    }
    scr.MoveToChar(c.fd);
    SoundShared(o, n, c);
    SplicedFirst(o, n, c, t);
    if c.nsb != c.ne {
      BufferInsert(scr.display[cur], scr.width, n, c, o);
      LateInsertOnScreen(scr, cur, n, c, t);
    } else {
      LateWrite(scr, cur, n, c, o);
    }
  }

  lemma WrittenLast(o: string, n: string, c: Cuts, caps: Caps)
    requires Sound(o, n, c) && Feasible(c, caps) && c.Fx() >= 0 && c.nsb == c.ne
    ensures c.Ordered() && |o| == c.oe <= c.ne == |n| && c.nse == c.ne && o[..c.fd] + n[c.fd..c.nsb] == n
    ensures forall i | 0 <= i < c.fd :: n[i] == o[i]
  {
    SoundShared(o, n, c);
  }

  /** Late insert of all that is left of the new row. */
  method LateWrite(scr: Screen, cur: nat, n: string, c: Cuts, ghost o: string)
    requires Sound(o, n, c) && Feasible(c, scr.caps) && NUL !in n && c.Fx() >= 0 && c.nsb == c.ne
    requires Ready(scr, cur, c) && Shows(scr, cur, o) && scr.cursorH == c.fd
    requires forall i | 0 <= i < c.oe :: scr.display[cur][i] == o[i]
    modifies scr`tty, scr`cursorH, scr`cursorV, scr.display[cur]
    ensures scr.InSync() && scr.tty.rows == old(scr.tty.rows)[cur := scr.tty.rows[cur]]
    ensures Shows(scr, cur, n) && (c.ne < scr.width ==> Ready(scr, cur, c))
    ensures forall i | 0 <= i < c.nse :: scr.display[cur][i] == n[i]
  {
    hide Sound, Feasible, Inserts;
    WrittenLast(o, n, c, scr.caps);
    StrCopy(scr.display[cur], c.fd, n[c.fd..c.nsb]);
    Finish(scr, cur, n[c.fd..c.nsb], 0, o);
  }

  method LateInsertOnScreen(scr: Screen, cur: nat, n: string, c: Cuts, ghost t: string)
    requires Ready(scr, cur, c) && Shows(scr, cur, t) && scr.cursorH == c.fd && c.osb <= |t|
    requires Feasible(c, scr.caps) && |n| == c.ne && NUL !in n && c.Fx() >= 0 && c.nsb != c.ne
    requires Spliced(t, c.fd, c.osb - c.fd, n[c.fd..c.nsb]) == n[..c.nsb] + t[c.osb..]
    modifies scr`tty, scr`cursorH, scr`cursorV
    ensures Ready(scr, cur, c) && scr.tty.rows == old(scr.tty.rows)[cur := scr.tty.rows[cur]]
    ensures Shows(scr, cur, n[..c.nsb] + t[c.osb..])
  {
    hide Fill, Spliced;
    var fx: nat := c.Fx();
    ghost var goal := n[..c.nsb] + t[c.osb..];
    PartPlain(n, c.fd, c.fd + fx);
    PartPlain(n, c.fd + fx, c.nsb);
    assert n[c.fd..c.fd + fx] + n[c.fd + fx..c.nsb] == n[c.fd..c.nsb];
    Grow(scr, cur, n[c.fd..c.fd + fx], n[c.fd + fx..c.nsb], t);
    assert Shows(scr, cur, goal);
  }

  lemma SplicedSecond(o: string, n: string, c: Cuts)
    requires Sound(o, n, c) && c.Sx() >= 0
    ensures var t := Shifted(o, n, c);
            && |t| == c.oe + c.Fx()
            && Spliced(t, c.nse, c.ols - c.ose, n[c.nse..c.nls]) == n
            && (c.nls == c.ne ==> t[..c.nse] + n[c.nse..c.nls] == n)
            && (c.nse == c.nls && c.ols == c.oe ==> t == n)
  {
    hide Shifted, Spliced;
    ShiftedStart(o, n, c);
    var t := Shifted(o, n, c);
    assert t[c.nse + (c.ols - c.ose)..] == t[c.nse..][c.ols - c.ose..];
    assert n[c.nls..] == o[c.ols..] == o[c.ose..][c.ols - c.ose..];
    SplicedTo(t, n, c.nse, c.ols - c.ose, c.nls);
    assert t == t[..c.nse] + t[c.nse..];
  }

  /** Second insert, on a row that is new up to nse. */
  method SecondInsert(scr: Screen, cur: nat, n: string, c: Cuts, ghost o: string)
    requires Sound(o, n, c) && Feasible(c, scr.caps) && NUL !in n && c.Sx() >= 0 && c.ne <= scr.width
    requires scr.InSync() && cur < scr.height && Shows(scr, cur, Shifted(o, n, c))
    requires c.nse < scr.width ==> Ready(scr, cur, c) && scr.Agrees(c.nse)
    modifies scr`tty, scr`cursorH, scr`cursorV
    ensures scr.InSync() && scr.tty.rows == old(scr.tty.rows)[cur := scr.tty.rows[cur]]
    ensures Shows(scr, cur, n)
  {
    hide Shifted, Spliced;
    scr.MoveToChar(c.nse);
    SplicedSecond(o, n, c);
    ghost var t := Shifted(o, n, c);
    ghost var goal := n;
    if c.ols != c.oe {
      SecondInsertKeep(scr, cur, n, c, t);
    } else if c.nse < c.nls {  // an empty text is not written
      assert t[..scr.cursorH] + n[c.nse..c.nls] == goal;
      Finish(scr, cur, n[c.nse..c.nls], 0, t);
    }
  }

  method SecondInsertKeep(scr: Screen, cur: nat, n: string, c: Cuts, ghost t: string)
    requires c.Ordered() && NUL !in n && |n| == c.ne && c.Sx() >= 0 && c.nls < c.ne
    requires Ready(scr, cur, c) && scr.cursorH == c.nse && Shows(scr, cur, t) && c.ols != c.oe
    requires c.nse + (c.ols - c.ose) <= |t| && Spliced(t, c.nse, c.ols - c.ose, n[c.nse..c.nls]) == n
    modifies scr`tty, scr`cursorH, scr`cursorV
    ensures scr.InSync() && scr.tty.rows == old(scr.tty.rows)[cur := scr.tty.rows[cur]]
    ensures Shows(scr, cur, n)
  {
    hide Spliced, Feasible, Fill;
    var sx: nat := c.Sx();
    ghost var goal := n;
    PartPlain(n, c.nse, c.nse + sx);
    PartPlain(n, c.nse + sx, c.nls);
    assert n[c.nse..c.nse + sx] + n[c.nse + sx..c.nls] == n[c.nse..c.nls];
    Grow(scr, cur, n[c.nse..c.nse + sx], n[c.nse + sx..c.nls], t);
  }

  /** Text of the row when a first insert is still due: the second delete may be done, unless
      the insert will push everything it would clear off the edge. */
  function Pending(o: string, n: string, c: Cuts): string
    requires c.ose <= |o| && c.nse <= |n|
  {
    if c.Sx() >= 0 || (c.ols == c.oe && c.Fx() > 0) then o else Shortened(o, n, c, 0)
  }

  /** If the cursor is still known the terminal is ready; otherwise no insert is due. */
  ghost predicate ReadyOrDone(scr: Screen, cur: nat, c: Cuts)
    reads scr, scr.display
  {
    if CursorKept(c, scr.caps, scr.width) then Ready(scr, cur, c) else c.nsb == c.fd
  }

  ghost predicate BeforeLate(scr: Screen, cur: nat, o: string, n: string, c: Cuts, fx: int)
    requires Sound(o, n, c)
    reads scr, scr.display
  {
    if fx != 0 then
      if c.Sx() < 0 then Shows(scr, cur, n)
      else Ready(scr, cur, c) && Shows(scr, cur, Shifted(o, n, c)) && scr.Agrees(c.nse)
    else
      && ReadyOrDone(scr, cur, c)
      && c.Fx() >= 0 && Shows(scr, cur, Pending(o, n, c))
      && cur < |scr.display| && c.oe <= scr.display[cur].Length
      && (forall i | 0 <= i < c.oe :: scr.display[cur][i] == o[i])
      && (c.Sx() < 0 && c.ols == c.oe && c.Fx() > 0 ==> c.nse == scr.width)
  }

  ghost predicate AfterLate(scr: Screen, cur: nat, o: string, n: string, c: Cuts)
    requires Sound(o, n, c)
    reads scr, scr.display
  {
    if c.Sx() < 0 then Shows(scr, cur, n)
    else
      && Shows(scr, cur, Shifted(o, n, c))
      && (c.nse < scr.width && CursorKept(c, scr.caps, scr.width) ==> Ready(scr, cur, c) && scr.Agrees(c.nse))
  }

  lemma PendingInserted(o: string, n: string, c: Cuts, width: nat)
    requires Sound(o, n, c) && c.Fx() >= 0
    ensures var t := Pending(o, n, c);
            && c.osb <= |t| && t[..c.osb] == o[..c.osb]
            && (c.Sx() >= 0 ==> t == o && n[..c.nsb] + t[c.osb..] == Shifted(o, n, c))
            && (c.Sx() < 0 && !(c.ols == c.oe && c.Fx() > 0) ==> n[..c.nsb] + t[c.osb..] == n)
            && (c.Sx() < 0 && c.nse == width ==> Fill(Shifted(o, n, c), width) == Fill(n, width))
  {
    ShiftedStart(o, n, c);
    var t := Pending(o, n, c);
    if t != o {
      assert t[c.osb..] == o[c.osb..c.ose] + n[c.nse..];
      assert n == n[..c.nsb] + n[c.nsb..c.nse] + n[c.nse..];
    }
    if c.nse == width {
      forall i | 0 <= i < width ensures Fill(Shifted(o, n, c), width)[i] == Fill(n, width)[i] {
        assert Shifted(o, n, c)[..c.nse][i] == n[..c.nse][i];
      }
    }
  }

  /** Nothing was put off: the row is what it would be after the insert. */
  lemma PendingIsDone(o: string, n: string, c: Cuts)
    requires Sound(o, n, c) && c.Fx() >= 0 && c.nsb == c.fd
    ensures c.Fx() == 0 && c.osb == c.fd
    ensures Pending(o, n, c) == if c.Sx() < 0 then n else Shifted(o, n, c)
  {
    ShiftedStart(o, n, c);
    PendingInserted(o, n, c, 0);
    var t := Pending(o, n, c);
    assert t == t[..c.osb] + t[c.osb..];
  }

  method SecondDeleteIfAny(scr: Screen, cur: nat, n: string, c: Cuts, fx: int, ghost o: string)
    requires Sound(o, n, c) && Feasible(c, scr.caps) && NUL !in n && !(c.Fx() < 0 && c.osb == c.oe)
    requires FirstPartDone(scr, cur, o, n, c, fx)
    modifies scr`tty, scr`cursorH, scr`cursorV
    ensures scr.Shape() && (scr.InSync() <==> CursorKept(c, scr.caps, scr.width))
    ensures scr.tty.rows == old(scr.tty.rows)[cur := scr.tty.rows[cur]]
    ensures BeforeLate(scr, cur, o, n, c, fx)
  {
    hide Feasible, Shifted, Shared, ClearedTo, Inserts;
    assert fx == 0 ==> forall i | 0 <= i < c.oe :: scr.display[cur][i] == o[i];
    WhenLost(o, n, c, scr.caps, scr.width, fx);
    if c.Sx() < 0 {
      SecondDelete(scr, cur, n, c, fx, o);
    }
  }

  /** The cursor can only be lost in the second delete, and then nothing is left to be done. */
  lemma WhenLost(o: string, n: string, c: Cuts, caps: Caps, width: nat, fx: int)
    requires Sound(o, n, c) && Feasible(c, caps) && c.oe <= width && c.ne <= width && 0 < width
    requires ShiftDone(c, fx, width) && !(c.Fx() < 0 && c.osb == c.oe)
    ensures c.Sx() >= 0 ==> CursorKept(c, caps, width)
    ensures fx == 0 && !CursorKept(c, caps, width) ==> c.nsb == c.fd
  {
  }

  /** If there is a first insert that was not done early, do it now. */
  method LatePart(scr: Screen, cur: nat, n: string, c: Cuts, fx: int, ghost o: string)
    requires Sound(o, n, c) && Feasible(c, scr.caps) && NUL !in n
    requires scr.Shape() && cur < scr.height && (scr.InSync() <==> CursorKept(c, scr.caps, scr.width))
    requires c.oe <= scr.width && c.ne <= scr.width && (fx == 0 || fx == c.Fx())
    requires BeforeLate(scr, cur, o, n, c, fx)
    modifies scr`tty, scr`cursorH, scr`cursorV, scr.display[cur]
    ensures scr.Shape() && (scr.InSync() <==> CursorKept(c, scr.caps, scr.width))
    ensures scr.tty.rows == old(scr.tty.rows)[cur := scr.tty.rows[cur]]
    ensures AfterLate(scr, cur, o, n, c)
  {
    hide ClearedTo, Inserts, Feasible;
    if c.nsb != c.fd && c.osb - c.fd <= c.nsb - c.fd && fx == 0 {
      LateInsertDue(scr, cur, n, c, o);
    } else if fx == 0 {
      PendingIsDone(o, n, c);
      ShiftedStart(o, n, c);
    }
  }

  method LateInsertDue(scr: Screen, cur: nat, n: string, c: Cuts, ghost o: string)
    requires Sound(o, n, c) && Feasible(c, scr.caps) && NUL !in n && c.nsb != c.fd
    requires scr.InSync() && c.oe <= scr.width && c.ne <= scr.width && CursorKept(c, scr.caps, scr.width)
    requires BeforeLate(scr, cur, o, n, c, 0)
    modifies scr`tty, scr`cursorH, scr`cursorV, scr.display[cur]
    ensures scr.InSync() && scr.tty.rows == old(scr.tty.rows)[cur := scr.tty.rows[cur]]
    ensures AfterLate(scr, cur, o, n, c)
  {
    hide Pending, Spliced, Shifted, AfterLate;
    ghost var t := Pending(o, n, c);
    PendingInserted(o, n, c, scr.width);
    ghost var goal := if c.nsb == c.ne then n else n[..c.nsb] + t[c.osb..];
    LateInsert(scr, cur, n, c, t, o);
    assert Shows(scr, cur, goal);
    LateGoal(o, n, c, goal, scr.width);
    ShiftedStart(o, n, c);
    LateDone(scr, cur, n, c, goal, o);
  }

  /** The row and the buffer are as the second insertion wants them. */
  lemma LateDone(scr: Screen, cur: nat, n: string, c: Cuts, goal: string, o: string)
    requires Sound(o, n, c) && scr.InSync() && cur < scr.height && c.oe <= scr.width && c.ne <= scr.width
    requires Shows(scr, cur, goal)
    requires Fill(goal, scr.width) == Fill(if c.Sx() < 0 then n else Shifted(o, n, c), scr.width)
    requires c.ne < scr.width || c.nsb != c.ne ==> Ready(scr, cur, c)
    requires forall i | 0 <= i < c.nse :: scr.display[cur][i] == n[i]
    requires c.nse <= |Shifted(o, n, c)| && Shifted(o, n, c)[..c.nse] == n[..c.nse]
    ensures AfterLate(scr, cur, o, n, c)
  {
    hide Shifted;
  }

  lemma LateGoal(o: string, n: string, c: Cuts, goal: string, width: nat)
    requires Sound(o, n, c) && c.Fx() >= 0 && (c.ose - c.osb >= MIN_END_KEEP || c == c.DropMatch())
    requires c.osb <= |Pending(o, n, c)|
    requires goal == if c.nsb == c.ne then n else n[..c.nsb] + Pending(o, n, c)[c.osb..]
    requires c.Sx() < 0 && c.ols == c.oe && c.Fx() > 0 ==> c.nse == width
    ensures Fill(goal, width) == Fill(if c.Sx() < 0 then n else Shifted(o, n, c), width)
  {
    PendingInserted(o, n, c, width);
    if c.nsb == c.ne {
      assert Shifted(o, n, c) == n;
    }
  }

  /** Bring row cur from showing old to showing new, given cuts of the two. The editor then still knows
      where the cursor is exactly if no blanks are written up to the last column. */
  method ApplyCuts(scr: Screen, cur: nat, n: string, c: Cuts, ghost o: string)
    requires Sound(o, n, c) && Feasible(c, scr.caps) && NUL !in n
    requires Ready(scr, cur, c) && ClearRoom(scr, c) && Shows(scr, cur, o) && scr.Agrees(c.oe)
    modifies scr`tty, scr`cursorH, scr`cursorV, scr.display[cur]
    ensures scr.Shape() && (scr.InSync() <==> CursorKept(c, scr.caps, scr.width))
    ensures scr.tty.rows == old(scr.tty.rows)[cur := scr.tty.rows[cur]] && Shows(scr, cur, n)
    ensures c.Fx() < 0 && c.osb == c.oe ==> scr.display[cur][..] == old(scr.display[cur][..])
  {
    hide Sound, Shifted, Pending, Feasible, ClearedTo, Inserts;
    var fx, done := FirstPart(scr, cur, n, c, o);
    if done {
      return;
    }
    WhenLost(o, n, c, scr.caps, scr.width, fx);
    SecondDeleteIfAny(scr, cur, n, c, fx, o);
    LatePart(scr, cur, n, c, fx, o);
    if c.Sx() >= 0 {
      SecondInsert(scr, cur, n, c, o);
    }
  }

  /** For the rows o and n the cuts c ask only for text to be inserted, there is room for it, and
      still what inserting leaves is not the new row. */
  ghost predicate InsertingFails(caps: Caps, o: string, n: string, c: Cuts, width: nat) {
    && PutIn(o, n, c.fd) && Sound(o, n, c) && Feasible(c, caps) && Useful(c) + c.Fx() < width
    && InsertEffect(caps, Fill(o, width), c.fd, n[c.fd..c.nsb]) != Fill(n, width)
  }

  /** A terminal that has an insert mode but no way out of it overwrites where text is put in. */
  lemma InsertModeAlone(caps: Caps)
    requires caps.CanIns() && !caps.InsertWorks()
    ensures InsertingFails(caps, "abcdefgh", "Xabcdefgh", Cuts(0, 0, 0, 0, 8, 1, 1, 1, 9), 20)
  {
    var o, n := "abcdefgh", "Xabcdefgh";
    assert n[1..] == o;
    var wrong, right := InsertEffect(caps, Fill(o, 20), 0, n[0..1]), Fill(n, 20);
    assert wrong[1] == 'b' && right[1] == 'a';
  }

  /** What update_line relies on: the row shows its Display string, the rows between the cursor
      and it can be crossed, and a full new row has a next row to wrap to. */
  ghost predicate CanUpdate(scr: Screen, cur: nat, want: array<char>)
    reads scr, scr.display, want
  {
    && scr.InSync() && cur < scr.height
    && (forall i | 0 <= i < scr.height && i != cur :: scr.display[i] != scr.display[cur])
    && (forall i | 0 <= i < scr.height :: scr.display[i] != want)
    && (cur < scr.cursorV ==> scr.caps.CanUp())
    && (scr.cursorV < cur && scr.caps.am ==> scr.TabsTo(scr.width - 1))
    && (forall r | scr.cursorV <= r < cur :: scr.Crossable(r) && scr.FirstCellShown(r + 1))
    && IsCStr(scr.display[cur]) && StrLen(scr.display[cur][..]) <= scr.width
    && IsCStr(want) && StrLen(want[..]) <= scr.width
    && Shows(scr, cur, CStr(scr.display[cur][..]))
    && (StrLen(want[..]) == scr.width ==> RoomBelow(scr, cur))
  }

  /** Writing up to the last column of row cur has a next row to run on to. */
  ghost predicate RoomBelow(scr: Screen, cur: nat)
    requires scr.Shape()
    reads scr, scr.display
  {
    scr.caps.am ==> cur + 1 < scr.height && (scr.caps.xn ==> scr.FirstCellShown(cur + 1))
  }

  /** The cuts for a row and its Display string, the ends of both without trailing blanks. */
  function RowCuts(caps: Caps, was: string, want: string): Cuts {
    var fd := Prefix(was, want);
    CutsOf(was[..Longer(fd, Trimmed(was))], want[..Longer(fd, Trimmed(want))], fd, caps)
  }

  /** What the terminal has to be able to do for these cuts. */
  ghost predicate Manageable(scr: Screen, cur: nat, c: Cuts)
    requires scr.Shape()
    reads scr, scr.display
  {
    && scr.TabsUpTo(c.oe) && scr.TabsUpTo(c.ne) && (Inserts(c) ==> scr.caps.InsertWorks())
    && (!CursorKept(c, scr.caps, scr.width) ==> RoomBelow(scr, cur))
  }

  /** Cut trailing blanks off the Display string of row cur, but nothing before fd. */
  method TrimOld(scr: Screen, cur: nat, want: array<char>, fd: nat) returns (oe: nat)
    requires CanUpdate(scr, cur, want) && fd <= StrLen(scr.display[cur][..])
    modifies scr.display[cur]
    ensures CanUpdate(scr, cur, want)
    ensures fd <= oe == StrLen(scr.display[cur][..]) <= old(StrLen(scr.display[cur][..]))
    ensures var o := old(CStr(scr.display[cur][..]));
            (forall i | oe <= i < |o| :: o[i] == ' ') && (oe > fd ==> o[oe - 1] != ' ')
    ensures scr.display[cur][..] == old(scr.display[cur][..])[oe := NUL]
    ensures scr.display[cur][..oe] == old(CStr(scr.display[cur][..]))[..oe]
    ensures RoomBelow(scr, cur) == old(RoomBelow(scr, cur))
  {
    var was := scr.display[cur];
    FillTrimmedAll(CStr(was[..]), scr.width);
    oe := TrimEnd(was, fd);
    assert was[..oe] == CStr(was[..]);
    forall r | scr.cursorV <= r < cur ensures scr.Crossable(r) && scr.FirstCellShown(r + 1) {
      assert old(scr.Crossable(r) && scr.FirstCellShown(r + 1));
      if r + 1 == cur {
        assert oe > 0 ==> was[0] == was[..oe][0];
      }
    }
  }

  /** The same for the new string. */
  method TrimNew(scr: Screen, cur: nat, want: array<char>, fd: nat) returns (ne: nat)
    requires CanUpdate(scr, cur, want) && fd <= StrLen(want[..])
    modifies want
    ensures CanUpdate(scr, cur, want) && fd <= ne == StrLen(want[..])
    ensures var n := old(CStr(want[..]));
            ne <= |n| && (forall i | ne <= i < |n| :: n[i] == ' ') && (ne > fd ==> n[ne - 1] != ' ')
    ensures want[..ne] == old(CStr(want[..]))[..ne]
    ensures RoomBelow(scr, cur) == old(RoomBelow(scr, cur))
    ensures Fill(CStr(want[..]), scr.width) == Fill(old(CStr(want[..])), scr.width)
  {
    ghost var newText := CStr(want[..]);
    ne := TrimEnd(want, fd);
    FillTrimmed(newText, ne, scr.width);
    forall r | scr.cursorV <= r < cur ensures scr.Crossable(r) && scr.FirstCellShown(r + 1) {
      assert old(scr.Crossable(r) && scr.FirstCellShown(r + 1));
    }
  }

  lemma FillTrimmedAll(s: string, w: nat)
    ensures forall k | 0 <= k <= |s| && (forall i | k <= i < |s| :: s[i] == ' ') ::
              Fill(s[..k], w) == Fill(s, w)
  {
  }

  // ---------------------------------------------------------------- terminals that cannot clear a line

  /** For plain rows it can be said without the cuts when no blanks are written up to the last column:
      a terminal that can insert may first make the old row longer, by at most the new characters. */
  predicate ClearsInside(caps: Caps, fd: nat, oe: nat, ne: nat, width: nat) {
    caps.ce || ne == width || (oe < width && (!caps.CanIns() || oe + ne < width + fd))
  }

  lemma ClearsInsideKeeps(o: string, n: string, c: Cuts, caps: Caps, width: nat)
    requires Sound(o, n, c) && Feasible(c, caps) && c.oe <= width && c.ne <= width && 0 < width
    requires ClearsInside(caps, c.fd, c.oe, c.ne, width)
    ensures CursorKept(c, caps, width)
  {
  }

  /** A row of which only a beginning is left is cleared from there to its end, whatever the cuts. */
  lemma BeginningLeft(o: string, n: string, c: Cuts, caps: Caps, width: nat)
    requires Sound(o, n, c) && Feasible(c, caps) && c.fd == c.ne < c.oe <= width
    ensures c.osb == c.oe && c.Fx() == c.ne - c.oe && n[c.fd..c.nsb] == []
    ensures CursorKept(c, caps, width) <==> caps.ce || c.oe < width
  {
  }

  /** A row of the full width that is emptied: without a clear to the end of the line the blanks
      reach the last column. */
  lemma FullRowEmptied(caps: Caps)
    requires !caps.ce
    ensures var c := RowCuts(caps, "abcdefgh", ""); !CursorKept(c, caps, 8) && CursorKept(c, caps, 9)
  {
    hide CutsOf;
    var o: string := "abcdefgh";
    assert Prefix(o, "") == 0 && Trimmed(o) == 8 && o[..8] == o && ""[..0] == "" && Trimmed("") == 0;
    CutsOfSound(o, "", 0, caps);
    BeginningLeft(o, "", RowCuts(caps, o, ""), caps, 8);
    BeginningLeft(o, "", RowCuts(caps, o, ""), caps, 9);
  }

  /** update_line: afterwards row cur shows the new string, no other row has changed, and the editor
      still knows where the cursor is exactly if no blanks were written up to the last column. */
  method UpdateLine(scr: Screen, cur: nat, want: array<char>)
    requires CanUpdate(scr, cur, want)
    requires Manageable(scr, cur, RowCuts(scr.caps, CStr(scr.display[cur][..]), CStr(want[..])))
    modifies scr`tty, scr`cursorH, scr`cursorV, scr.display[cur], want
    ensures scr.Shape()
    ensures scr.InSync() <==>
            CursorKept(old(RowCuts(scr.caps, CStr(scr.display[cur][..]), CStr(want[..]))), scr.caps, scr.width)
    ensures scr.tty.rows == old(scr.tty.rows)[cur := Fill(old(CStr(want[..])), scr.width)]
    ensures IsCStr(want) && StrLen(want[..]) <= scr.width
    ensures Fill(CStr(want[..]), scr.width) == Fill(old(CStr(want[..])), scr.width)
    ensures old(CStr(want[..])) == [] ==>
              scr.display[cur][..] == old(scr.display[cur][..][Trimmed(CStr(scr.display[cur][..])) := NUL])
  {
    hide StrLen, Trimmed, Prefix, CutsOf, CursorKept, RowCuts, Manageable, Longer;
    ghost var o, n := CStr(scr.display[cur][..]), CStr(want[..]);
    var fd := FirstDifference(scr.display[cur], want);
    DifferenceIs(scr.display[cur][..], want[..], fd);
    UpdateFrom(scr, cur, want, fd, o, n);
  }

  /** update_line from the first difference on. */
  method UpdateFrom(scr: Screen, cur: nat, want: array<char>, fd: nat, ghost o: string, ghost n: string)
    requires CanUpdate(scr, cur, want) && o == CStr(scr.display[cur][..]) && n == CStr(want[..])
    requires fd == Prefix(o, n) && fd <= |o| && fd <= |n| && Manageable(scr, cur, RowCuts(scr.caps, o, n))
    modifies scr`tty, scr`cursorH, scr`cursorV, scr.display[cur], want
    ensures scr.Shape() && (scr.InSync() <==> CursorKept(RowCuts(scr.caps, o, n), scr.caps, scr.width))
    ensures scr.tty.rows == old(scr.tty.rows)[cur := Fill(n, scr.width)]
    ensures IsCStr(want) && StrLen(want[..]) <= scr.width && Fill(CStr(want[..]), scr.width) == Fill(n, scr.width)
    ensures n == [] ==> scr.display[cur][..] == old(scr.display[cur][..])[Trimmed(o) := NUL]
  {
    hide StrLen, Trimmed, Prefix, CutsOf, CursorKept, RowCuts, Manageable, Longer, Fill, RoomBelow;
    PrefixBounds(o, n);
    ghost var c := RowCuts(scr.caps, o, n);
    var oe, ne := TrimBoth(scr, cur, want, fd, c, o, n);
    RowCutsAre(scr.caps, o, n, fd, oe, ne);
    assert want[..ne] == CStr(want[..]);
    if scr.display[cur][fd] == NUL && want[fd] == NUL {
      NoDifference(scr.display[cur][..], want[..], fd);
      NoCuts(o[..oe], n[..ne], scr.caps, scr.width);
      return;
    }
    Redraw(scr, cur, want, fd, oe, ne);
  }

  lemma PrefixBounds(o: string, n: string)
    ensures n == [] ==> Prefix(o, n) == 0
  {
  }

  lemma RowCutsAre(caps: Caps, was: string, want: string, fd: nat, oe: nat, ne: nat)
    requires fd == Prefix(was, want) && oe == Longer(fd, Trimmed(was)) && ne == Longer(fd, Trimmed(want))
    ensures fd <= oe <= |was| && fd <= ne <= |want| && was[..fd] == want[..fd]
    ensures RowCuts(caps, was, want) == CutsOf(was[..oe], want[..ne], fd, caps)
  {
  }

  lemma RowCutsFeasible(caps: Caps, was: string, want: string)
    ensures Feasible(RowCuts(caps, was, want), caps)
    ensures Inserts(RowCuts(caps, was, want)) ==> caps.CanIns()
  {
    hide CutsOf;
    var fd := Prefix(was, want);
    assert was[..Longer(fd, Trimmed(was))][..fd] == want[..Longer(fd, Trimmed(want))][..fd];
    CutsOfSound(was[..Longer(fd, Trimmed(was))], want[..Longer(fd, Trimmed(want))], fd, caps);
  }

  lemma RowCutsEnds(caps: Caps, was: string, want: string)
    ensures RowCuts(caps, was, want).oe <= |was| && RowCuts(caps, was, want).ne <= |want|
  {
    hide CutsOf;
    var fd := Prefix(was, want);
    assert was[..Longer(fd, Trimmed(was))][..fd] == want[..Longer(fd, Trimmed(want))][..fd];
    CutsOfSound(was[..Longer(fd, Trimmed(was))], want[..Longer(fd, Trimmed(want))], fd, caps);
  }

  /** Rows that are the same are left alone. */
  lemma NoCuts(o: string, n: string, caps: Caps, width: nat)
    requires |o| == |n| && o == n && 0 < width
    ensures CursorKept(CutsOf(o, n, |o|, caps), caps, width)
  {
    hide CutsOf;
    CutsOfSound(o, n, |o|, caps);
  }

  /** Cut trailing blanks off both strings, but nothing before their first difference. */
  method TrimBoth(scr: Screen, cur: nat, want: array<char>, fd: nat, ghost c: Cuts, ghost o: string, ghost n: string)
    returns (oe: nat, ne: nat)
    requires CanUpdate(scr, cur, want) && o == CStr(scr.display[cur][..]) && n == CStr(want[..])
    requires fd <= |o| && fd <= |n| && (n == [] ==> fd == 0) && Manageable(scr, cur, c)
    modifies scr.display[cur], want
    ensures CanUpdate(scr, cur, want) && Manageable(scr, cur, c)
    ensures fd <= oe == StrLen(scr.display[cur][..]) && fd <= ne == StrLen(want[..])
    ensures oe == Longer(fd, Trimmed(o)) && ne == Longer(fd, Trimmed(n))
    ensures oe <= |o| && ne <= |n| && scr.display[cur][..oe] == o[..oe] && want[..ne] == n[..ne]
    ensures scr.display[cur][..] == old(scr.display[cur][..])[oe := NUL]
    ensures Fill(CStr(want[..]), scr.width) == Fill(n, scr.width)
    ensures n == [] ==> fd == 0 && ne == 0 && oe == Trimmed(o)
  {
    hide StrLen, Trimmed, Shows, RoomBelow, CursorKept, Inserts;
    oe := TrimOld(scr, cur, want, fd);
    ne := TrimNew(scr, cur, want, fd);
    TrimmedIs(o, fd, oe);
    TrimmedIs(n, fd, ne);
  }

  lemma DifferenceIs(was: string, want: string, fd: nat)
    requires StrLen(was) < |was| && StrLen(want) < |want|
    requires fd <= StrLen(was) && fd <= StrLen(want) && was[..fd] == want[..fd]
    requires was[fd] != want[fd] || was[fd] == NUL
    ensures fd == Prefix(CStr(was), CStr(want))
  {
    var a, b := CStr(was), CStr(want);
    assert a[..fd] == was[..fd] && b[..fd] == want[..fd];
    PrefixIs(a, b, fd);
  }

  lemma NoDifference(was: string, want: string, fd: nat)
    requires fd <= StrLen(was) < |was| && fd <= StrLen(want) < |want|
    requires was[..fd] == want[..fd] && was[fd] == NUL == want[fd]
    ensures CStr(was) == CStr(want)
  {
    assert StrLen(was) == fd && StrLen(want) == fd;
  }

  method Redraw(scr: Screen, cur: nat, want: array<char>, fd: nat, oe: nat, ne: nat)
    requires CanUpdate(scr, cur, want)
    requires oe == StrLen(scr.display[cur][..]) && ne == StrLen(want[..]) && fd <= oe && fd <= ne
    requires scr.display[cur][..fd] == want[..fd]
    requires Manageable(scr, cur, CutsOf(scr.display[cur][..oe], want[..ne], fd, scr.caps))
    modifies scr`tty, scr`cursorH, scr`cursorV, scr.display[cur]
    ensures scr.Shape()
    ensures scr.InSync() <==>
            CursorKept(old(CutsOf(scr.display[cur][..oe], want[..ne], fd, scr.caps)), scr.caps, scr.width)
    ensures scr.tty.rows == old(scr.tty.rows)[cur := Fill(want[..ne], scr.width)]
    ensures fd == ne < oe ==> scr.display[cur][..] == old(scr.display[cur][..])
  {
    hide Sound, Feasible, CutsOf, ClearedTo, Inserts;
    ghost var o := scr.display[cur][..oe];
    assert o == CStr(scr.display[cur][..]) && want[..ne] == CStr(want[..]);
    var c := FindCuts(scr.display[cur], want, fd, oe, ne, scr.caps);
    if fd == ne < oe {
      BeginningLeft(o, want[..ne], c, scr.caps, scr.width);
    }
    GoToRow(scr, cur, want, c, o);
    ApplyCuts(scr, cur, want[..ne], c, o);
  }

  /** Go to the row that is to be updated. */
  method GoToRow(scr: Screen, cur: nat, want: array<char>, ghost c: Cuts, ghost o: string)
    requires CanUpdate(scr, cur, want) && Manageable(scr, cur, c)
    requires o == CStr(scr.display[cur][..]) && c.oe == |o| && c.ne == StrLen(want[..])
    modifies scr`tty, scr`cursorH, scr`cursorV
    ensures Ready(scr, cur, c) && ClearRoom(scr, c) && Shows(scr, cur, o) && scr.Agrees(c.oe)
    ensures scr.tty.rows == old(scr.tty.rows)
  {
    hide CursorKept, Inserts, Fill;
    scr.MoveToLine(cur);
    forall i | 0 <= i < c.oe ensures scr.display[cur][i] == scr.tty.rows[cur][i] {
      FillStart(o, scr.width, i);
      assert o[i] == scr.display[cur][..][i];
    }
  }

  lemma FillStart(s: string, w: nat, i: nat)
    requires i < |s| && i < w
    ensures Fill(s, w)[i] == s[i]
  {
  }
}
