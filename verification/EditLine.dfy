/** Killing and yanking in the line that is edited (ed.chared.c). */
module EditLine {
  import opened KillRing

  /** Text with s put in at position a. */
  function Inserted(text: string, a: nat, s: string): (r: string)
    requires a <= |text|
    ensures |r| == |text| + |s|
  {
    text[..a] + s + text[a..]
  }

  function Deleted(text: string, a: nat, b: nat): (r: string)
    requires a <= b <= |text|
    ensures |r| == |text| - (b - a)
  {
    text[..a] + text[b..]
  }

  /** What was deleted, put back; nothing else put there gives the text again. */
  lemma PutBack(text: string, a: nat, b: nat, s: string)
    requires a <= b <= |text|
    ensures Inserted(Deleted(text, a, b), a, s) == text <==> s == text[a..b]
  {
    var d := Deleted(text, a, b);
    assert d[..a] == text[..a] && d[a..] == text[b..];
    if Inserted(d, a, s) == text {
      assert |s| == b - a;
      assert s == Inserted(d, a, s)[a..b];
    } else {
      assert text == text[..a] + text[a..b] + text[b..];
    }
  }

  lemma DeletedTail(text: string, a: nat)
    requires a <= |text|
    ensures Deleted(text, a, |text|) == text[..a] && text[a..|text|] == text[a..]
  {
  }

  /** What was pushed can be yanked: always but when killdup is all and it is an older entry. */
  predicate ComesBack(x: Entry, items: seq<Entry>, dup: Dup) {
    dup != All || x !in items || items[0] == x
  }

  /** A position after s is put in at a, as for the mark. */
  function Moved(mark: int, a: nat, n: nat): int {
    if mark > a then mark + n else mark
  }

  /** A position after the text from a to b is deleted. */
  function Drawn(mark: int, a: nat, b: nat): int {
    if mark <= a then mark else if mark <= b then a else mark - (b - a)
  }

  /** The mark keeps to its character: text put in or deleted elsewhere does not change which one is at the mark.
      In front of the text or at the place itself the mark stays. */
  lemma MarkKeepsPlace(text: string, a: nat, s: string, b: nat, mark: nat)
    requires a <= b <= |text| && mark <= |text|
    ensures mark <= a ==> Moved(mark, a, |s|) == mark && Drawn(mark, a, b) == mark
    ensures a < mark ==>
              0 <= Moved(mark, a, |s|) && Inserted(text, a, s)[Moved(mark, a, |s|)..] == text[mark..]
    ensures a < mark <= b ==> Drawn(mark, a, b) == a
    ensures b <= mark ==> 0 <= Drawn(mark, a, b) && Deleted(text, a, b)[Drawn(mark, a, b)..] == text[mark..]
  {
  }

  class Line {
    /** InputBuf; the text may fill it up to before lim. */
    var buf: array<char>
    const lim: nat
    var cursor: nat
    var last: nat
    /** Mark, or -1 for NULL. */
    var mark: int
    const kills: Ring

    ghost predicate Valid()
      reads this, buf, kills, kills.ring
    {
      && kills.Valid()
      && buf.Length == lim + 2 && cursor <= last < lim && -1 <= mark <= last
    }

    function Text(): (r: string)
      requires last <= buf.Length
      reads this, buf
      ensures |r| == last
    {
      buf[..last]
    }

    constructor (size: nat, ring: Ring)
      requires size > 0 && ring.Valid()
      ensures Valid() && Text() == [] && cursor == 0 && mark == 0 && kills == ring
    {
      lim := size;
      kills := ring;
      buf := new char[size + 2](_ => '\0');
      cursor, last, mark := 0, 0, 0;
    }

    /** c_insert: room for num characters at the cursor. */
    method CInsert(num: nat)
      requires Valid()
      modifies this`last, this`mark, buf
      ensures Valid()
      ensures if old(last) + num >= lim then last == old(last) && mark == old(mark) && Text() == old(Text())
              else
                && last == old(last) + num && mark == Moved(old(mark), cursor, num)
                && buf[..cursor] == old(buf[..cursor]) && buf[cursor + num..last] == old(buf[cursor..last])
    {
      if last + num >= lim {
        return;
      }
      if cursor < last {
        Open(cursor, num);
        if mark > cursor {
          mark := mark + num;
        }
      }
      last := last + num;
    }

    /** The text from a on, and the cell after it, move up by num. */
    method Open(a: nat, num: nat)
      requires a <= last && last + num < buf.Length
      modifies buf
      ensures buf[..a] == old(buf[..a]) && buf[a + num..last + num] == old(buf[a..last])
    {
      ghost var was := buf[..];
      var cp: int := last;
      while cp >= a
        invariant a - 1 <= cp <= last
        invariant forall k | 0 <= k <= cp :: buf[k] == was[k]
        invariant forall k | cp + num < k <= last + num :: buf[k] == was[k - num]
        decreases cp
      {
        buf[cp + num] := buf[cp];
        cp := cp - 1;
      }
      Shifted(was, buf[..], a, last, num);
    }

    /** The text from a on moves down by num. */
    method Close(a: nat, num: nat)
      requires a + num <= last < buf.Length
      modifies buf
      ensures buf[..last - num] == Deleted(old(Text()), a, a + num)
    {
      var cp := a;
      while cp + num <= last
        invariant a <= cp <= last + 1 - num
        invariant forall k | 0 <= k < a :: buf[k] == old(buf[k])
        invariant forall k | a <= k < cp :: buf[k] == old(buf[k + num])
        invariant forall k | cp <= k < buf.Length :: buf[k] == old(buf[k])
        decreases last + 1 - num - cp
      {
        buf[cp] := buf[cp + num];
        cp := cp + 1;
      }
      ghost var was := old(Text());
      ghost var d := Deleted(was, a, a + num);
      forall k | 0 <= k < last - num ensures buf[k] == d[k] {
        if k >= a {
          assert d[k] == was[k + num];
        }
      }
    }

    /** c_delafter, not in vi mode */
    method CDelAfter(num0: nat)
      requires Valid()
      modifies this`last, this`mark, buf
      ensures Valid()
      ensures var n := if num0 > old(last) - cursor then old(last) - cursor else num0;
              Text() == Deleted(old(Text()), cursor, cursor + n) && mark == Drawn(old(mark), cursor, cursor + n)
    {
      var num := if num0 > last - cursor then last - cursor else num0;
      if num > 0 {
        Close(cursor, num);
        last := last - num;
        if mark > cursor && mark <= cursor + num {
          mark := cursor;
        } else if mark > cursor {
          mark := mark - num;
        }
      }
    }

    /** c_delbefore, not in vi mode. The mark is compared with the text after the cursor has moved. */
    method CDelBefore(num0: nat)
      requires Valid()
      modifies this`cursor, this`last, this`mark, buf
      ensures Valid()
      ensures var n := if num0 > old(cursor) then old(cursor) else num0;
              && cursor == old(cursor) - n
              && Text() == Deleted(old(Text()), cursor, cursor + n) && mark == Drawn(old(mark), cursor, cursor + n)
    {
      hide Items, Full;
      var num := if num0 > cursor then cursor else num0;
      if num > 0 {
        Close(cursor - num, num);
        last := last - num;
        cursor := cursor - num;
        if mark > cursor && mark <= cursor + num {
          mark := cursor;
        } else if mark > cursor {
          mark := mark - num;
        }
      }
    }

    /** e_killend */
    method KillEnd(dup: Dup)
      requires Valid()
      modifies this`last, this`mark, kills, kills.ring
      ensures Valid() && kills.ring == old(kills.ring)
      ensures kills.Contents() == Pushed(old(kills.Contents()), Buf(old(Text())[cursor..]), kills.max, dup)
      ensures kills.max == old(kills.max) && kills.len > 0 && kills.yankPos == Back(kills.killPos, 0, kills.len)
      ensures Text() == Deleted(old(Text()), cursor, old(last)) && mark == Drawn(old(mark), cursor, old(last))
    {
      hide Pushed, Back, Items, Full;
      kills.PushKill(buf[cursor..last], dup);
      assert buf[cursor..last] == Text()[cursor..];
      last := cursor;
      if mark > cursor {
        mark := cursor;
      }
    }

    /** e_killbeg */
    method KillBeg(dup: Dup)
      requires Valid()
      modifies this`cursor, this`last, this`mark, buf, kills, kills.ring
      ensures Valid() && kills.ring == old(kills.ring) && cursor == 0 && kills.max == old(kills.max)
      ensures kills.Contents() == Pushed(old(kills.Contents()), Buf(old(Text())[..old(cursor)]), kills.max, dup)
      ensures Text() == old(Text())[old(cursor)..] && mark == Drawn(old(mark), 0, old(cursor))
    {
      hide Pushed, Back, Items, Full;
      kills.PushKill(buf[..cursor], dup);
      assert buf[..cursor] == Text()[..cursor];
      CDelBefore(cursor);
      if mark >= 0 && mark > cursor {
        mark := mark - cursor;
      }
    }

    /** e_killregion: false when there is no mark. */
    method KillRegion(dup: Dup) returns (ok: bool)
      requires Valid()
      modifies this`cursor, this`last, this`mark, buf, kills, kills.ring
      ensures Valid() && kills.ring == old(kills.ring) && kills.max == old(kills.max) && ok == (old(mark) >= 0)
      ensures !ok ==> Text() == old(Text()) && cursor == old(cursor) && mark == old(mark)
                      && kills.Contents() == old(kills.Contents())
      ensures ok ==>
                var a, b := if old(mark) > old(cursor) then old(cursor) else old(mark),
                            if old(mark) > old(cursor) then old(mark) else old(cursor);
                && Text() == Deleted(old(Text()), a, b) && cursor == a == mark
                && kills.Contents() == Pushed(old(kills.Contents()), Buf(old(Text())[a..b]), kills.max, dup)
                && kills.len > 0 && kills.yankPos == Back(kills.killPos, 0, kills.len)
    {
      hide Pushed, Deleted, Back, Items, Full;
      if mark < 0 {
        return false;
      }
      if mark > cursor {
        assert buf[cursor..mark] == Text()[cursor..mark];
        kills.PushKill(buf[cursor..mark], dup);
        CDelAfter(mark - cursor);
        mark := cursor;
      } else {
        assert buf[mark..cursor] == Text()[mark..cursor];
        kills.PushKill(buf[mark..cursor], dup);
        CDelBefore(cursor - mark);
      }
      ok := true;
    }

    /** Room at the cursor, and s in it. */
    method Put(s: string) returns (end: nat)
      requires Valid() && last + |s| < lim
      modifies this`last, this`mark, buf
      ensures Valid() && last == old(last) + |s| && end == cursor + |s|
      ensures Text() == Inserted(old(Text()), cursor, s)
    {
      ghost var was := Text();
      assert was[..cursor] == buf[..cursor] && was[cursor..] == buf[cursor..last];
      CInsert(|s|);
      Fill(cursor, s);
      end := cursor + |s|;
    }

    /** The characters of s, from a on. */
    method Fill(a: nat, s: string)
      requires a + |s| <= last <= buf.Length
      modifies buf
      ensures buf[..last] == old(buf[..a]) + s + old(buf[a + |s|..last])
    {
      var k := 0;
      while k < |s|
        invariant k <= |s| && buf[..a] == old(buf[..a]) && buf[a..a + k] == s[..k]
        invariant buf[a + |s|..last] == old(buf[a + |s|..last])
      {
        buf[a + k] := s[k];
        k := k + 1;
      }
      Pieces(buf[..], a, a + |s|, last);
      assert s[..|s|] == s;
    }

    /** e_yank_kill: false when nothing was killed or there is no room. */
    method YankKill(argument: int) returns (ok: bool)
      requires Valid()
      modifies this`cursor, this`last, this`mark, buf
      ensures Valid() && ok == (kills.len > 0 && old(last) + |kills.YankedText()| < lim)
      ensures !ok ==> Text() == old(Text()) && cursor == old(cursor) && mark == old(mark)
      ensures ok ==>
                var s := kills.YankedText();
                && Text() == Inserted(old(Text()), old(cursor), s)
                && (if argument == 1 then mark == old(cursor) && cursor == old(cursor) + |s|
                    else cursor == old(cursor) && mark == old(cursor) + |s|)
    {
      hide Items, Inserted;
      if kills.len == 0 {
        return false;
      }
      kills.YankedIsBuf();
      var s := kills.ring[kills.yankPos].s;
      if last + |s| >= lim {
        return false;
      }
      var end := Put(s);
      if argument == 1 {
        mark := cursor;
        cursor := end;
      } else {
        mark := end;
      }
      ok := true;
    }

    /** e_yank_pop, after a yank: what is between mark and cursor is replaced by an entry that is
        argument entries older. When there is no room only the entry to yank has changed. */
    method YankPop(argument: int, ghost k: nat) returns (ok: bool)
      requires Valid() && mark >= 0
      requires kills.len > 0 ==> k < kills.len && kills.yankPos == Back(kills.killPos, k, kills.len)
      modifies this`cursor, this`last, this`mark, buf, kills`yankPos
      ensures kills.len > 0 ==> kills.yankPos == Back(kills.killPos, Mod(k + argument, kills.len), kills.len)
      ensures Valid() && kills.Contents() == old(kills.Contents())
      ensures var a, b := if old(cursor) > old(mark) then old(mark) else old(cursor),
                          if old(cursor) > old(mark) then old(cursor) else old(mark);
              && ok == (kills.len > 0 && old(last) + |kills.YankedText()| - (b - a) < lim)
              && (ok ==>
                    var s := kills.YankedText();
                    && Text() == Inserted(Deleted(old(Text()), a, b), a, s)
                    && (if old(cursor) > old(mark) then mark == a && cursor == a + |s|
                        else cursor == a && mark == a + |s|))
      ensures !ok ==> Text() == old(Text()) && cursor == old(cursor) && mark == old(mark)
    {
      hide Mod, Back, Items, Full, Inserted, Deleted;
      if kills.len == 0 {
        return false;
      }
      kills.Older(argument, k);
      kills.YankedIsBuf();
      var s := kills.ring[kills.yankPos].s;
      var before := cursor > mark;
      var delLen := if before then cursor - mark else mark - cursor;
      if last + |s| - delLen >= lim {
        return false;
      }
      Replace(before, delLen, s);
      ok := true;
    }

    /** A region is killed and yanked at once. The text is then what it was if and only if what was
        killed is the newest entry; if there is no room for another entry, the region is gone. */
    method KillThenYank(dup: Dup) returns (killed: bool, yanked: bool)
      requires Valid()
      modifies this`cursor, this`last, this`mark, buf, kills, kills.ring
      ensures Valid() && killed == (old(mark) >= 0) && (!killed ==> !yanked && Text() == old(Text()))
      ensures killed ==>
                var a, b := if old(mark) > old(cursor) then old(cursor) else old(mark),
                            if old(mark) > old(cursor) then old(mark) else old(cursor);
                var comes := ComesBack(Buf(old(Text())[a..b]), old(kills.Contents()), dup);
                && (comes ==> yanked && Text() == old(Text()) && cursor == b && mark == a)
                && (yanked ==> (Text() == old(Text()) <==> comes))
                && (!yanked ==> Text() == Deleted(old(Text()), a, b))
    {
      hide Pushed, Deleted, Inserted, Back, Items, Full;
      yanked := false;
      ghost var text, items, max := Text(), kills.Contents(), kills.max;
      killed := KillRegion(dup);
      if killed {
        ghost var a, b := if old(mark) > old(cursor) then old(cursor) else old(mark),
                          if old(mark) > old(cursor) then old(mark) else old(cursor);
        ghost var x := Buf(text[a..b]);
        PushedNewest(items, x, max, dup);
        kills.NewestIsYanked();
        PutBack(text, a, b, kills.YankedText());
        yanked := YankKill(1);
      }
    }

    /** The tail of the line is killed and yanked at once: the same holds. */
    method KillEndThenYank(dup: Dup) returns (yanked: bool)
      requires Valid()
      modifies this`cursor, this`last, this`mark, buf, kills, kills.ring
      ensures Valid()
      ensures var comes := ComesBack(Buf(old(Text())[old(cursor)..]), old(kills.Contents()), dup);
              && (comes ==> yanked && Text() == old(Text()) && mark == old(cursor) && cursor == old(last))
              && (yanked ==> (Text() == old(Text()) <==> comes))
              && (!yanked ==> Text() == old(Text())[..old(cursor)])
    {
      hide Pushed, Deleted, Inserted, Back, Items, Full;
      ghost var text, items, max, at := Text(), kills.Contents(), kills.max, cursor;
      ghost var x := Buf(text[at..]);
      DeletedTail(text, at);
      KillEnd(dup);
      PushedNewest(items, x, max, dup);
      kills.NewestIsYanked();
      PutBack(text, at, |text|, kills.YankedText());
      yanked := YankKill(1);
    }

    /** A yank, and another entry for it: as if that one had been yanked at once, if there is room. Only
        after an empty entry the cursor stays in front. */
    method YankThenPop(argument: int, ghost k: nat) returns (yanked: bool, popped: bool)
      requires Valid()
      requires kills.len > 0 ==> k < kills.len && kills.yankPos == Back(kills.killPos, k, kills.len)
      modifies this`cursor, this`last, this`mark, buf, kills`yankPos
      ensures Valid() && kills.Contents() == old(kills.Contents()) && (popped ==> yanked)
      ensures yanked ==> old(kills.len) > 0 && kills.len > 0
      ensures yanked ==>
                var s := kills.YankedText();
                && kills.yankPos == Back(kills.killPos, Mod(k + argument, kills.len), kills.len)
                && popped == (old(last) + |s| < lim)
                && (popped ==> Text() == Inserted(old(Text()), old(cursor), s)
                               && if old(kills.YankedText()) != [] then mark == old(cursor) == cursor - |s|
                                  else cursor == old(cursor) == mark - |s|)
      ensures !popped ==>
                Text() == if yanked then Inserted(old(Text()), old(cursor), old(kills.YankedText())) else old(Text())
    {
      hide Mod, Deleted, Inserted, Back, Items, Full;
      popped := false;
      ghost var text, at := Text(), cursor;
      yanked := YankKill(1);
      if yanked {
        DeleteAgain(text, at, kills.YankedText());
        popped := YankPop(argument, k);
      }
    }

    /** The text between mark and cursor is replaced by s. */
    method Replace(before: bool, delLen: nat, s: string)
      requires Valid() && mark >= 0 && before == (cursor > mark) && last + |s| - delLen < lim
      requires delLen == if before then cursor - mark else mark - cursor
      modifies this`cursor, this`last, this`mark, buf
      ensures Valid()
      ensures var a := if before then old(mark) else old(cursor);
              && Text() == Inserted(Deleted(old(Text()), a, a + delLen), a, s)
              && (if before then mark == a && cursor == a + |s| else cursor == a && mark == a + |s|)
    {
      hide Inserted, Items, Full;
      if before {
        CDelBefore(delLen);
      } else {
        CDelAfter(delLen);
      }
      var end := Put(s);
      if before {
        mark := cursor;
        cursor := end;
      } else {
        mark := end;
      }
    }
  }

  lemma Pieces(b: seq<char>, i: nat, j: nat, k: nat)
    requires i <= j <= k <= |b|
    ensures b[..k] == b[..i] + b[i..j] + b[j..k]
  {
  }

  lemma DeleteAgain(text: string, a: nat, s: string)
    requires a <= |text|
    ensures Deleted(Inserted(text, a, s), a, a + |s|) == text
  {
  }

  lemma Shifted(a: seq<char>, b: seq<char>, cursor: nat, last: nat, num: nat)
    requires cursor <= last && last + num < |a| == |b|
    requires forall k | 0 <= k < cursor :: b[k] == a[k]
    requires forall k | cursor + num <= k <= last + num :: b[k] == a[k - num]
    ensures b[..cursor] == a[..cursor] && b[cursor + num..last + num] == a[cursor..last]
  {
  }
}
