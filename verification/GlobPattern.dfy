/** The language of file name patterns (IEEE Std 1003.1-2017, Shell Command Language, section
    2.13), for patterns already split into tokens. */
module GlobPattern {

  datatype Item = Single(c: char) | Span(lo: char, hi: char)

  datatype Tok = Star | Any | Bracket(neg: bool, items: seq<Item>) | Char(c: char)

  /** c is in the range or is the character. With rev set, a range contains its first end
      even when its ends are in the wrong order. */
  predicate InItem(it: Item, c: char, rev: bool) {
    match it
    case Single(d) => c == d
    case Span(lo, hi) => lo <= c <= hi || (rev && c == lo)
  }

  predicate InItems(items: seq<Item>, c: char, rev: bool) {
    exists i | 0 <= i < |items| :: InItem(items[i], c, rev)
  }

  /** A token other than a star, and a character it stands for. */
  predicate Accepts(t: Tok, c: char, rev: bool) {
    match t
    case Star => false
    case Any => true
    case Bracket(neg, items) => InItems(items, c, rev) != neg
    case Char(d) => c == d
  }

  /** s is in the language of the pattern: a star stands for any string. */
  ghost predicate Matches(ts: seq<Tok>, s: string, rev: bool)
    decreases |ts|
  {
    if ts == [] then s == []
    else if ts[0] == Star then exists k | 0 <= k <= |s| :: Matches(ts[1..], s[k..], rev)
    else s != [] && Accepts(ts[0], s[0], rev) && Matches(ts[1..], s[1..], rev)
  }

  /** What a star may do next: stand for nothing more, or for one more character. */
  lemma StarStep(ts: seq<Tok>, s: string, rev: bool)
    requires ts != [] && ts[0] == Star
    ensures Matches(ts, s, rev) <==> Matches(ts[1..], s, rev) || (s != [] && Matches(ts, s[1..], rev))
  {
    assert s[0..] == s;
    if Matches(ts, s, rev) {
      var k :| 0 <= k <= |s| && Matches(ts[1..], s[k..], rev);
      if k > 0 {
        assert s[1..][k - 1..] == s[k..];
      }
    }
    if s != [] && Matches(ts, s[1..], rev) {
      var k :| 0 <= k <= |s| - 1 && Matches(ts[1..], s[1..][k..], rev);
      assert s[1..][k..] == s[k + 1..];
    }
  }

  /** A star matches at every earlier position as well. */
  lemma StarEarlier(ts: seq<Tok>, s: string, k: nat, rev: bool)
    requires ts != [] && ts[0] == Star && k <= |s| && Matches(ts, s[k..], rev)
    ensures Matches(ts, s, rev)
  {
    var m :| 0 <= m <= |s| - k && Matches(ts[1..], s[k..][m..], rev);
    assert s[k..][m..] == s[k + m..];
  }

  /** Tokens without a star take one character each. */
  lemma {:induction false} FixedPrefix(ts: seq<Tok>, m: nat, s: string, rev: bool)
    requires m <= |ts| && Star !in ts[..m] && Matches(ts, s, rev)
    ensures m <= |s| && Matches(ts[m..], s[m..], rev)
    decreases m
  {
    if m > 0 {
      assert ts[0] == ts[..m][0] && ts[1..][..m - 1] == ts[..m][1..];
      FixedPrefix(ts[1..], m - 1, s[1..], rev);
      assert ts[1..][m - 1..] == ts[m..] && s[1..][m - 1..] == s[m..];
    } else {
      assert ts[m..] == ts && s[m..] == s;
    }
  }

  // ---------------------------------------------------------------- what matching means

  /** A token stands for this part of a name: a star for any, a question mark for any one character, a bracket
      for one that is listed or in a range, or for one that is not. */
  ghost predicate StandsFor(t: Tok, part: string, rev: bool) {
    match t
    case Star => true
    case Any => |part| == 1
    case Char(c) => part == [c]
    case Bracket(neg, items) =>
      |part| == 1 && (neg <==> !exists it <- items ::
                        if it.Single? then part == [it.c]
                        else it.lo <= part[0] <= it.hi || (rev && part == [it.lo]))
  }

  function Joined(parts: seq<string>): string {
    if parts == [] then [] else parts[0] + Joined(parts[1..])
  }

  /** The parts of s that the tokens stand for, one after the other. */
  ghost predicate Cut(ts: seq<Tok>, s: string, rev: bool, parts: seq<string>) {
    |parts| == |ts| && Joined(parts) == s && forall k | 0 <= k < |ts| :: StandsFor(ts[k], parts[k], rev)
  }

  lemma OneStands(t: Tok, c: char, rev: bool)
    requires t != Star
    ensures StandsFor(t, [c], rev) <==> Accepts(t, c, rev)
  {
    if t.Bracket? {
      forall it <- t.items
        ensures InItem(it, c, rev) <==>
                if it.Single? then [c] == [it.c] else it.lo <= [c][0] <= it.hi || (rev && [c] == [it.lo])
      {
      }
      Listed(t.items, c, rev);
    }
  }

  lemma Listed(items: seq<Item>, c: char, rev: bool)
    ensures InItems(items, c, rev) <==> exists it <- items :: InItem(it, c, rev)
  {
  }

  /** A name matches exactly if it can be cut into parts that the tokens stand for. */
  lemma {:induction false} MatchesMeaning(ts: seq<Tok>, s: string, rev: bool)
    ensures Matches(ts, s, rev) <==> exists parts :: Cut(ts, s, rev, parts)
    decreases |ts|
  {
    hide StandsFor, Accepts;
    if Matches(ts, s, rev) {
      if ts == [] {
        assert Cut(ts, s, rev, []);
      } else {
        var k := 1;
        if ts[0] == Star {
          k :| 0 <= k <= |s| && Matches(ts[1..], s[k..], rev);
          AnyPart(s[..k], rev);
        } else {
          OneStands(ts[0], s[0], rev);
          assert s[..1] == [s[0]];
        }
        MatchesMeaning(ts[1..], s[k..], rev);
        var rest :| Cut(ts[1..], s[k..], rev, rest);
        CutMore(ts, s, rev, k, rest);
      }
    }
    forall parts | Cut(ts, s, rev, parts) ensures Matches(ts, s, rev) {
      if ts != [] {
        CutLess(ts, s, rev, parts);
        var k := |parts[0]|;
        MatchesMeaning(ts[1..], s[k..], rev);
        if ts[0] != Star {
          OnePart(ts[0], parts[0], rev);
          assert parts[0] == [s[..1][0]] == [s[0]];
          OneStands(ts[0], s[0], rev);
        }
      }
    }
  }

  lemma AnyPart(part: string, rev: bool)
    ensures StandsFor(Star, part, rev)
  {
  }

  lemma OnePart(t: Tok, part: string, rev: bool)
    requires t != Star && StandsFor(t, part, rev)
    ensures |part| == 1
  {
  }

  lemma CutMore(ts: seq<Tok>, s: string, rev: bool, k: nat, rest: seq<string>)
    requires ts != [] && k <= |s| && StandsFor(ts[0], s[..k], rev) && Cut(ts[1..], s[k..], rev, rest)
    ensures Cut(ts, s, rev, [s[..k]] + rest)
  {
    hide StandsFor;
    var parts := [s[..k]] + rest;
    assert parts[1..] == rest;
    forall i | 0 <= i < |ts| ensures StandsFor(ts[i], parts[i], rev) {
      if i > 0 {
        assert ts[i] == ts[1..][i - 1] && parts[i] == rest[i - 1];
      }
    }
  }

  lemma CutLess(ts: seq<Tok>, s: string, rev: bool, parts: seq<string>)
    requires ts != [] && Cut(ts, s, rev, parts)
    ensures |parts[0]| <= |s| && s[..|parts[0]|] == parts[0]
    ensures StandsFor(ts[0], parts[0], rev) && Cut(ts[1..], s[|parts[0]|..], rev, parts[1..])
  {
    hide StandsFor;
    assert s == parts[0] + Joined(parts[1..]);
    assert forall i | 0 <= i < |ts| - 1 :: ts[1..][i] == ts[i + 1] && parts[1..][i] == parts[i + 1];
  }

  // ---------------------------------------------------------------- adjacent stars

  /** Runs of stars reduced to one. */
  function Collapse(ts: seq<Tok>): seq<Tok> {
    if ts == [] then []
    else if ts[0] == Star && |ts| > 1 && ts[1] == Star then Collapse(ts[1..])
    else [ts[0]] + Collapse(ts[1..])
  }

  /** Reducing runs of stars does not change what matches. */
  lemma {:induction false} CollapsePreserves(ts: seq<Tok>, s: string, rev: bool)
    ensures Matches(Collapse(ts), s, rev) <==> Matches(ts, s, rev)
    decreases |ts|, |s|
  {
    if ts == [] {
    } else if ts[0] == Star && |ts| > 1 && ts[1] == Star {
      CollapsePreserves(ts[1..], s, rev);
      StarStep(ts, s, rev);
      if s != [] {
        StarStep(ts[1..], s, rev);
        CollapsePreserves(ts, s[1..], rev);
        CollapsePreserves(ts[1..], s[1..], rev);
      }
    } else {
      assert Collapse(ts)[1..] == Collapse(ts[1..]);
      forall k | 0 <= k <= |s| ensures Matches(Collapse(ts[1..]), s[k..], rev) <==> Matches(ts[1..], s[k..], rev) {
        CollapsePreserves(ts[1..], s[k..], rev);
      }
    }
  }

  // ---------------------------------------------------------------- reversed ranges

  predicate Ordered(ts: seq<Tok>) {
    forall i, j | 0 <= i < |ts| && ts[i].Bracket? && 0 <= j < |ts[i].items| && ts[i].items[j].Span? ::
      ts[i].items[j].lo <= ts[i].items[j].hi
  }

  /** The two readings of a range differ exactly when its ends are in the wrong order. */
  lemma SpanReadings(lo: char, hi: char)
    ensures (forall c :: InItem(Span(lo, hi), c, true) == InItem(Span(lo, hi), c, false)) <==> lo <= hi
  {
    if lo > hi {
      assert InItem(Span(lo, hi), lo, true) != InItem(Span(lo, hi), lo, false);
    }
  }

  lemma {:induction false} OrderedReadings(ts: seq<Tok>, s: string)
    requires Ordered(ts)
    ensures Matches(ts, s, true) <==> Matches(ts, s, false)
    decreases |ts|
  {
    if ts != [] {
      assert Ordered(ts[1..]) by {
        assert forall i | 0 <= i < |ts| - 1 :: ts[1..][i] == ts[i + 1];
      }
      if ts[0] == Star {
        forall k | 0 <= k <= |s| ensures Matches(ts[1..], s[k..], true) <==> Matches(ts[1..], s[k..], false) {
          OrderedReadings(ts[1..], s[k..]);
        }
      } else if s != [] {
        OrderedReadings(ts[1..], s[1..]);
        if ts[0].Bracket? {
          forall j | 0 <= j < |ts[0].items|
            ensures InItem(ts[0].items[j], s[0], true) == InItem(ts[0].items[j], s[0], false)
          {
          }
        }
      }
    }
  }
}
