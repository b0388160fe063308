/** The kill ring of the line editor (ed.chared.c). */
module KillRing {
  import opened Basics

  /** An entry of the ring; one that was never written has no buffer. */
  datatype Entry = NoBuf | Buf(s: string)

  datatype Dup = Unset | Erase | All | Prev

  /** The slot of the k-th newest entry: at most len slots are in use. */
  function Back(killPos: nat, k: nat, len: nat): (r: nat)
    requires k < len && killPos <= len
    ensures r < len
  {
    if k < killPos then killPos - 1 - k else killPos - 1 - k + len
  }

  /** The entries, newest first. */
  function Items(ring: seq<Entry>, killPos: nat, len: nat): (r: seq<Entry>)
    requires len <= |ring| && killPos <= len
    ensures |r| == len
  {
    seq(len, k requires 0 <= k < len => ring[Back(killPos, k, len)])
  }

  function Take(s: seq<Entry>, n: nat): seq<Entry> {
    if |s| <= n then s else s[..n]
  }

  predicate Full(s: seq<Entry>) {
    forall k | 0 <= k < |s| :: s[k].Buf?
  }

  /** Where x is first in s; the length of s if it is not. */
  function Find(s: seq<Entry>, x: Entry): (r: nat)
    ensures r <= |s| && (r < |s| ==> s[r] == x) && forall k | 0 <= k < r :: s[k] != x
    ensures x in s <==> r < |s|
  {
    if s == [] || s[0] == x then 0 else 1 + Find(s[1..], x)
  }

  /** What pushing x does to the entries, in a ring of max. */
  function Pushed(items: seq<Entry>, x: Entry, max: nat, dup: Dup): seq<Entry>
    requires max > 0
  {
    if items != [] && dup == Erase && x in items then [x] + Without(items, Find(items, x))
    else if items != [] && dup == All && x in items then items
    else if items != [] && dup == Prev && items[0] == x then items
    else Take([x] + items, max)
  }

  /** x is the newest entry after a push, unless killdup is all and it was an older one. */
  lemma PushedNewest(items: seq<Entry>, x: Entry, max: nat, dup: Dup)
    requires max > 0
    ensures var r := Pushed(items, x, max, dup);
            && r != [] && (r[0] == x <==> dup != All || x !in items || items[0] == x)
  {
  }

  /** The entries after a push, newest first: the text in front of the others, of which the oldest goes if there
      is no room; with erase an older copy goes; with all, or with prev behind a copy, nothing changes. */
  lemma PushedOrder(items: seq<Entry>, x: Entry, max: nat, dup: Dup, a: seq<Entry>, b: seq<Entry>)
    requires 0 < max && |items| <= max
    ensures x !in items || dup == Unset || (dup == Prev && items[0] != x) ==>
              Pushed(items, x, max, dup) == [x] + if |items| < max then items else items[..max - 1]
    ensures dup == Erase && items == a + [x] + b && x !in a ==> Pushed(items, x, max, dup) == [x] + (a + b)
    ensures x in items && (dup == All || (dup == Prev && items[0] == x)) ==> Pushed(items, x, max, dup) == items
  {
    hide Find;
    if dup == Erase && items == a + [x] + b && x !in a {
      FindFound(items, x);
      FirstCopy(items, x, a, b);
    }
  }

  lemma FirstCopy(items: seq<Entry>, x: Entry, a: seq<Entry>, b: seq<Entry>)
    requires items == a + [x] + b && x !in a
    ensures Find(items, x) == |a| && Without(items, |a|) == a + b
  {
    assert items[|a|] == x;
    assert forall k | 0 <= k < |a| :: items[k] == a[k];
  }

  /** A push loses nothing but the oldest entry, and with erase or all no entry is there twice. */
  lemma PushedContents(items: seq<Entry>, x: Entry, max: nat, dup: Dup)
    requires max > 0 && |items| <= max
    ensures var r := Pushed(items, x, max, dup);
            && |r| <= max && x in r
            && (forall y | y in items :: y in r || (|items| == max && y == items[max - 1]))
            && (forall y | y in r :: y == x || y in items)
            && (dup in {Erase, All} && EachOnce(items) ==> EachOnce(r))
  {
    hide Find, Without, Take;
    var r := Pushed(items, x, max, dup);
    if items != [] && dup == Erase && x in items {
      MovedContents(items, Find(items, x));
      FindFound(items, x);
      if EachOnce(items) {
        StayDistinct(items, Find(items, x));
      }
    } else if items != [] && ((dup == All && x in items) || (dup == Prev && items[0] == x)) {
      assert r == items;
    } else {
      TakeContents(items, x, max);
    }
  }

  lemma FindFound(items: seq<Entry>, x: Entry)
    requires x in items
    ensures Find(items, x) < |items| && items[Find(items, x)] == x
  {
  }

  lemma MovedContents(items: seq<Entry>, f: nat)
    requires f < |items|
    ensures var r := [items[f]] + Without(items, f);
            |r| == |items| && r[0] == items[f] && (forall y | y in items :: y in r) && (forall y | y in r :: y in items)
  {
    var r := [items[f]] + Without(items, f);
    forall y | y in items ensures y in r {
      var k :| 0 <= k < |items| && items[k] == y;
      assert k < f ==> r[k + 1] == y;
      assert k > f ==> r[k] == y;
    }
  }

  lemma TakeContents(items: seq<Entry>, x: Entry, max: nat)
    requires 0 < max && |items| <= max
    ensures var r := Take([x] + items, max);
            && 0 < |r| <= max && r[0] == x && (forall y | y in r :: y == x || y in items)
            && (forall y | y in items :: y in r || (|items| == max && y == items[max - 1]))
            && (EachOnce(items) && x !in items ==> EachOnce(r))
  {
    var r := Take([x] + items, max);
    assert forall k | 0 <= k < |items| && k + 1 < |r| :: r[k + 1] == items[k];
    forall y | y in items ensures y in r || (|items| == max && y == items[max - 1]) {
      var k :| 0 <= k < |items| && items[k] == y;
      assert k + 1 < |r| ==> r[k + 1] == y;
    }
  }

  lemma StayDistinct(items: seq<Entry>, f: nat)
    requires f < |items| && EachOnce(items)
    ensures EachOnce([items[f]] + Without(items, f))
  {
    var w := Without(items, f);
    assert forall b | 0 <= b < |w| :: w[b] == items[if b < f then b else b + 1];
  }

  lemma PushedFull(items: seq<Entry>, x: Entry, max: nat, dup: Dup)
    requires max > 0 && Full(items) && x.Buf?
    ensures Full(Pushed(items, x, max, dup))
  {
  }

  // ---------------------------------------------------------------- the ring

  class Ring {
    var ring: array<Entry>
    var max: nat
    var len: nat
    var killPos: nat
    var yankPos: nat

    /** A ring that is not full has been filled from its first slot on. */
    ghost predicate Shape()
      reads this
    {
      ring.Length == max > 0 && len <= max && (if len == max then killPos < max else killPos == len)
    }

    ghost function Contents(): (r: seq<Entry>)
      requires Shape()
      reads this, ring
      ensures |r| == len
    {
      Items(ring[..], killPos, len)
    }

    ghost predicate Valid()
      reads this, ring
    {
      && Shape() && Full(Contents()) && (len > 0 ==> yankPos < len)
      && forall t | len <= t < max :: ring[t] == NoBuf
    }

    /** The text that a yank inserts. */
    ghost function YankedText(): string
      requires Valid() && len > 0
      reads this, ring
    {
      YankedIsBuf();
      ring[yankPos].s
    }

    /** A duplicate is moved up to be the newest: those that were newer move down by one. */
    method MoveUp(j0: nat, i0: nat)
      requires Shape() && i0 < len && j0 == Back(killPos, i0, len)
      modifies ring
      ensures Shape() && Contents() == [old(Contents())[i0]] + Without(old(Contents()), i0)
      ensures forall t | len <= t < max :: ring[t] == old(ring[t])
    {
      hide Items, Back, MovedTo, Wrap;
      ghost var items := Contents();
      MoveBegins(items, i0);
      ItemsAt(ring[..], killPos, len, i0);
      var save := ring[j0];
      var i: nat, j: nat := i0, j0;
      while i > 0
        invariant Shape() && i <= i0 && j == Back(killPos, i, len)
        invariant forall t | len <= t < max :: ring[t] == old(ring[t])
        invariant MovedTo(Contents(), items, i, i0)
        decreases i
      {
        var k := j;
        BackNext(killPos, i, len);
        j := Wrap(j + 1, len);
        ItemsAt(ring[..], killPos, len, i - 1);
        ItemsUpdate(ring[..], killPos, len, i, ring[j]);
        MoveStep(Contents(), items, i, i0);
        ring[k] := ring[j];
        i := i - 1;
      }
      ItemsUpdate(ring[..], killPos, len, 0, save);
      MoveEnds(Contents(), items, i0);
      ring[j] := save;
    }

    /** The first ring: KillRing was NULL. */
    constructor (size: int)
      ensures Valid() && max == (if size < 1 then 1 else size) && Contents() == []
    {
      var m := if size < 1 then 1 else size;
      ring := new Entry[m](_ => NoBuf);
      max, len, killPos, yankPos := m, 0, 0, 0;
    }

    /** Whether the text is in the ring, wherever it is. */
    method InRing(s: string) returns (found: bool)
      requires Valid()
      ensures found <==> Buf(s) in Contents()
    {
      var i := 0;
      while i < len
        invariant i <= len && forall t | 0 <= t < i :: ring[t] != Buf(s)
      {
        if ring[i] == Buf(s) {
          SlotIsItem(ring[..], killPos, len, i);
          return true;
        }
        i := i + 1;
      }
      return false;
    }

    /** A duplicate, looked for from the newest entry on. */
    method FindItem(s: string) returns (i: nat, j: nat)
      requires Valid() && len > 0
      ensures i == Find(Contents(), Buf(s)) && (i < len ==> j == Back(killPos, i, len))
    {
      hide Items, Back, Find, Wrap;
      BackNewest(killPos, len);
      i, j := 0, Wrap(killPos + len - 1, len);
      while i < len
        invariant i <= len && (i < len ==> j == Back(killPos, i, len))
        invariant forall k | 0 <= k < i :: Contents()[k] != Buf(s)
      {
        ItemsAt(ring[..], killPos, len, i);
        if ring[j] == Buf(s) {
          break;
        }
        BackPrevious(killPos, i, len);
        j := Wrap(j + len - 1, len);
        i := i + 1;
      }
      FindIs(Contents(), Buf(s), i);
    }

    /** c_push_kill */
    method PushKill(s: string, dup: Dup)
      requires Valid()
      modifies this, ring
      ensures Valid() && len > 0 && ring == old(ring) && max == old(max)
      ensures Contents() == Pushed(old(Contents()), Buf(s), max, dup)
      ensures yankPos == Back(killPos, 0, len)
    {
      hide Items, Back, Find, Take, Wrap, Without;
      PushedFull(Contents(), Buf(s), max, dup);
      if len > 0 && dup != Unset {
        BackNewest(killPos, len);
        yankPos := Wrap(killPos + len - 1, len);
        match dup {
          case Erase =>
            var i, j := FindItem(s);
            if i < len {
              MoveUp(j, i);
              return;
            }
          case All =>
            var found := InRing(s);
            if found {
              return;
            }
          case Prev =>
            ItemsAt(ring[..], killPos, len, 0);
            if ring[yankPos] == Buf(s) {
              return;
            }
          case Unset =>
        }
      }
      PushNew(s);
    }

    /** The text becomes a new entry, in the slot of the oldest one when the ring is full. */
    method PushNew(s: string)
      requires Valid()
      modifies this, ring
      ensures Valid() && len > 0 && ring == old(ring) && max == old(max)
      ensures Contents() == Take([Buf(s)] + old(Contents()), max)
      ensures yankPos == Back(killPos, 0, len)
    {
      hide Items, Wrap;
      PushItems(ring[..], killPos, len, Buf(s));
      yankPos := killPos;
      if len < max {
        len := len + 1;
      }
      ring[killPos] := Buf(s);
      killPos := Wrap(killPos + 1, max);
    }

    lemma YankedIsBuf()
      requires Valid() && len > 0
      ensures ring[yankPos].Buf?
    {
      SlotIsItem(ring[..], killPos, len, yankPos);
    }

    lemma NewestIsYanked()
      requires Valid() && len > 0 && yankPos == Back(killPos, 0, len)
      ensures Contents()[0] == Buf(YankedText())
    {
    }

    /** The position of e_yank_pop: argument entries older, around the ring. */
    method Older(argument: int, ghost k: nat)
      requires Valid() && len > 0 && k < len && yankPos == Back(killPos, k, len)
      modifies this`yankPos
      ensures Valid() && yankPos == Back(killPos, Mod(k + argument, len), len)
    {
      hide Mod, Items, Back;
      BackModulo(killPos, k, len, argument);
      yankPos := Normal(yankPos - argument, len);
    }

    /** Where SetKillRing keeps the entries: an empty or a full ring, one that gets smaller than
        what is in it, or one that stays as it is. */
    predicate CanResize(size: nat)
      reads this
    {
      len == 0 || len == max || size < len || size == max
    }

    /** SetKillRing. A ring that is filled in part, and for which the new size is enough, loses
        its oldest entry: copying starts from the empty slot. */
    method SetKillRing(size: int)
      requires Valid()
      modifies this
      ensures max == (if size < 1 then 1 else size) && Shape() && (forall t | len <= t < max :: ring[t] == NoBuf)
      ensures ring == old(ring) || fresh(ring)
      ensures old(CanResize(if size < 1 then 1 else size)) ==> Valid() && Contents() == Take(old(Contents()), max)
      ensures !old(CanResize(if size < 1 then 1 else size)) ==>
                Contents() == old(Contents())[old(len) - 1 := NoBuf] && !Valid()
      ensures len > 0 && max != old(max) ==> yankPos == Back(killPos, 0, len)
    {
      hide Items, Wrap, Full;
      var m := if size < 1 then 1 else size;
      if m == max {
        return;
      }
      ghost var before := Contents();
      var copy := new Entry[m](_ => NoBuf);
      if len != 0 {
        var count := Latest(copy);
        len := count;
        killPos := Wrap(count, m);
        yankPos := count - 1;
      }
      ring := copy;
      max := m;
      StaysFull(before, m);
      LosesOldest(before);
    }

    /** The newest entries, oldest of them first, go to the slots of a new ring. */
    method Latest(to: array<Entry>) returns (count: nat)
      requires Valid() && to != ring && len > 0 && to.Length > 0 && to.Length != max
      requires forall t | 0 <= t < to.Length :: to[t] == NoBuf
      modifies to
      ensures 0 < count == (if to.Length >= len then len else to.Length)
      ensures Wrap(count, to.Length) <= count && (count < to.Length ==> Wrap(count, to.Length) == count)
      ensures Items(to[..], Wrap(count, to.Length), count)
           == if CanResize(to.Length) then Take(Contents(), to.Length) else Contents()[len - 1 := NoBuf]
      ensures Back(Wrap(count, to.Length), 0, count) == count - 1
      ensures forall t | count <= t < to.Length :: to[t] == NoBuf
    {
      hide Items, Wrap, Full;
      var m, j := to.Length, 0;
      if m >= len {
        count, j := len, killPos;
      } else {
        count, j := m, Wrap(killPos + len - m, len);
      }
      CopyLatest(to, count, j);
      Resized(ring[..], killPos, len, to[..], count, j);
    }

    /** The loop of SetKillRing. */
    method CopyLatest(to: array<Entry>, count: nat, j0: nat)
      requires Valid() && to != ring && 0 < count <= len && count <= to.Length && j0 <= len && j0 < max
      requires forall t | 0 <= t < to.Length :: to[t] == NoBuf
      modifies to
      ensures forall i | 0 <= i < count :: to[i] == ring[Slot(j0, i, len)]
      ensures forall t | count <= t < to.Length :: to[t] == NoBuf
    {
      hide Wrap, Items;
      var i, j: nat := 0, j0;
      while i < len
        invariant i <= len && j <= len && (i < len ==> j == Slot(j0, i, len))
        invariant forall k | 0 <= k < i && k < count :: to[k] == ring[Slot(j0, k, len)]
        invariant forall t | count <= t < to.Length :: to[t] == NoBuf
      {
        if i < count {
          to[i] := ring[j];
        }
        SlotNext(j0, i, len);
        j := Wrap(j + 1, len);
        i := i + 1;
      }
    }
  }

  lemma StaysFull(items: seq<Entry>, n: nat)
    requires Full(items)
    ensures Full(Take(items, n))
  {
  }

  lemma LosesOldest(items: seq<Entry>)
    ensures items != [] ==> !Full(items[|items| - 1 := NoBuf])
  {
    assert items != [] ==> items[|items| - 1 := NoBuf][|items| - 1] == NoBuf;
  }

  /** The slot that is i after slot j0, around a ring of len. */
  function Slot(j0: nat, i: nat, len: nat): (r: nat)
    requires i < len && j0 <= len
    ensures r <= len && (r < len || i == 0)
  {
    if i == 0 then j0 else Wrap(j0 + i, len)
  }

  lemma SlotNext(j0: nat, i: nat, len: nat)
    requires i < len && j0 <= len
    ensures i + 1 < len ==> Wrap(Slot(j0, i, len) + 1, len) == Slot(j0, i + 1, len)
  {
    if i + 1 < len {
    }
  }

  /** What has been copied, as entries newest first. */
  lemma Resized(ring: seq<Entry>, killPos: nat, len: nat, to: seq<Entry>, count: nat, j: nat)
    requires 0 < len <= |ring| && killPos <= len && (len == |ring| ==> killPos < len)
             && (len < |ring| ==> killPos == len)
    requires 0 < count <= len && count <= |to| && j == (if |to| >= len then killPos else Back(killPos, count - 1, len))
    requires count == if |to| >= len then len else |to|
    requires forall i | 0 <= i < count :: to[i] == ring[Slot(j, i, len)]
    requires len < |ring| ==> ring[len] == NoBuf
    ensures Wrap(count, |to|) <= count
    ensures var after := Items(to, Wrap(count, |to|), count);
            var before := Items(ring, killPos, len);
            if len == |ring| || |to| < len then after == Take(before, |to|) else after == before[len - 1 := NoBuf]
  {
    hide Wrap, Items;
    var after, before := Items(to, Wrap(count, |to|), count), Items(ring, killPos, len);
    forall k | 0 <= k < count
      ensures after[k] == if (len == |ring| || |to| < len) || k < len - 1 then before[k] else NoBuf
    {
      ItemsAt(to, Wrap(count, |to|), count, k);
      ItemsAt(ring, killPos, len, k);
      assert after[k] == to[count - 1 - k];
    }
  }

  /** The entries from i + 1 to i0 have moved down by one; entry i is free. */
  predicate MovedTo(c: seq<Entry>, items: seq<Entry>, i: nat, i0: nat) {
    && |c| == |items|
    && (forall k | 0 <= k < |c| && k != i && !(i < k <= i0) :: c[k] == items[k])
    && (forall k | 0 <= k < |c| && i < k <= i0 :: c[k] == items[k - 1])
  }

  lemma MoveBegins(items: seq<Entry>, i0: nat)
    ensures MovedTo(items, items, i0, i0)
  {
  }

  lemma MoveStep(c: seq<Entry>, items: seq<Entry>, i: nat, i0: nat)
    requires MovedTo(c, items, i, i0) && 0 < i <= i0 < |items|
    ensures MovedTo(c[i := c[i - 1]], items, i - 1, i0)
  {
    assert c[i - 1] == items[i - 1];
  }

  lemma MoveEnds(c: seq<Entry>, items: seq<Entry>, i0: nat)
    requires MovedTo(c, items, 0, i0) && i0 < |items|
    ensures c[0 := items[i0]] == [items[i0]] + Without(items, i0)
  {
    var d, e := c[0 := items[i0]], [items[i0]] + Without(items, i0);
    forall k | 0 <= k < |d| ensures d[k] == e[k] {
      if k > 0 {
        assert d[k] == c[k];
      }
    }
  }

  lemma ItemsAt(ring: seq<Entry>, killPos: nat, len: nat, k: nat)
    requires k < len <= |ring| && killPos <= len
    ensures Items(ring, killPos, len)[k] == ring[Back(killPos, k, len)]
  {
  }

  lemma ItemsUpdate(ring: seq<Entry>, killPos: nat, len: nat, k: nat, x: Entry)
    requires k < len <= |ring| && killPos <= len
    ensures Items(ring[Back(killPos, k, len) := x], killPos, len) == Items(ring, killPos, len)[k := x]
  {
  }

  lemma BackNext(killPos: nat, i: nat, len: nat)
    requires 0 < i < len && killPos <= len
    ensures Wrap(Back(killPos, i, len) + 1, len) == Back(killPos, i - 1, len)
  {
  }

  /** x % len */
  function Wrap(x: nat, len: nat): (r: nat)
    requires len > 0
    ensures r < len && (x < len ==> r == x)
    ensures len <= x < 2 * len ==> r == x - len
  {
    x % len
  }

  lemma BackNewest(killPos: nat, len: nat)
    requires killPos <= len && len > 0
    ensures Wrap(killPos + len - 1, len) == Back(killPos, 0, len)
  {
  }

  lemma BackPrevious(killPos: nat, i: nat, len: nat)
    requires i < len && killPos <= len
    ensures i + 1 < len ==> Wrap(Back(killPos, i, len) + len - 1, len) == Back(killPos, i + 1, len)
  {
  }

  lemma SlotIsItem(ring: seq<Entry>, killPos: nat, len: nat, t: nat)
    requires t < len <= |ring| && killPos <= len
    ensures ring[t] in Items(ring, killPos, len)
  {
    var k := if t < killPos then killPos - 1 - t else killPos - 1 - t + len;
    assert Items(ring, killPos, len)[k] == ring[t];
  }

  lemma FindIs(s: seq<Entry>, x: Entry, i: nat)
    requires i <= |s| && (forall k | 0 <= k < i :: s[k] != x) && (i < |s| ==> s[i] == x)
    ensures i == Find(s, x)
  {
    var f := Find(s, x);
    assert forall k | 0 <= k < f :: s[k] == s[..f][k];
  }

  /** Writing the slot at killPos puts the entry before the others; when all slots are in use the
      oldest goes. */
  lemma PushItems(ring: seq<Entry>, killPos: nat, len: nat, x: Entry)
    requires len <= |ring| && |ring| > 0 && (if len == |ring| then killPos < |ring| else killPos == len)
    ensures var max := |ring|; var n := if len < max then len + 1 else len;
            && Wrap(killPos + 1, max) <= n
            && (if n == max then Wrap(killPos + 1, max) < max else Wrap(killPos + 1, max) == n)
            && Items(ring[killPos := x], Wrap(killPos + 1, max), n) == Take([x] + Items(ring, killPos, len), max)
  {
    hide Wrap;
    var max := |ring|;
    var n, at := if len < max then len + 1 else len, Wrap(killPos + 1, max);
    var before, after := Items(ring, killPos, len), Items(ring[killPos := x], at, n);
    forall k | 0 <= k < n ensures after[k] == if k == 0 then x else before[k - 1] {
      ItemsAt(ring[killPos := x], at, n, k);
      if k > 0 {
        ItemsAt(ring, killPos, len, k - 1);
      }
    }
    assert after == Take([x] + before, max);
  }

  function Mod(x: int, len: nat): (r: nat)
    requires len > 0
    ensures r < len
  {
    x % len
  }

  /** It differs by full turns. */
  lemma ModTurns(x: int, len: nat) returns (turns: int)
    requires len > 0
    ensures x == turns * len + Mod(x, len)
  {
    turns := x / len;
  }

  /** A position that may be negative, brought into the ring. */
  method Normal(y0: int, len: nat) returns (y: nat)
    requires len > 0
    ensures y == Mod(y0, len)
  {
    hide Mod;
    var z := y0;
    while z < 0
      invariant Mod(z, len) == Mod(y0, len)
      decreases -z
    {
      ModPlus(z, len);
      z := z + len;
    }
    y := Mod(z, len);
  }

  lemma ModPlus(y: int, len: nat)
    requires len > 0
    ensures Mod(y + len, len) == Mod(y, len)
  {
    var q := y / len;
    assert y == q * len + y % len;
    ModTimes(y % len, q + 1, len);
    assert (q + 1) * len == q * len + len;
  }

  lemma Multiple(d: int, len: nat)
    ensures d > 0 ==> d * len >= len
    ensures d < 0 ==> d * len <= -(len as int)
  {
  }

  lemma ModTimes(r: nat, q: int, len: nat)
    requires r < len
    ensures Mod(r + q * len, len) == r
  {
    var x := r + q * len;
    var d := x / len - q;
    assert x == (q + d) * len + x % len;
    assert (q + d) * len == q * len + d * len;
    Multiple(d, len);
  }

  lemma BackModulo(killPos: nat, k: nat, len: nat, argument: int)
    requires k < len && killPos <= len
    ensures Mod(Back(killPos, k, len) - argument, len) == Back(killPos, Mod(k + argument, len), len)
  {
    var n, q := (k + argument) % len, (k + argument) / len;
    assert k + argument == q * len + n;
    var b, p := Back(killPos, n, len), Back(killPos, k, len);
    // b and p are killPos - 1 - n and killPos - 1 - k, or len more
    var i, j := if k < killPos then 0 else 1, if n < killPos then 0 else 1;
    Distribute(i - j, q, len);
    assert p - argument == b + (i - j - q) * len;
    ModTimes(b, i - j - q, len);
  }

  lemma Distribute(i: int, q: int, len: nat)
    requires -1 <= i <= 1
    ensures (i - q) * len == (if i == 0 then 0 else if i == 1 then len as int else -(len as int)) - q * len
  {
  }
}
