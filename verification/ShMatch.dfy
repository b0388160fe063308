/** t_pmatch (sh.glob.c): the recursive matcher that tells a whole match from a match of a
    proper prefix. */
module ShMatch {
  import opened GlobPattern

  const NUL := '\0'

  /** *p, where the string ends in NUL. */
  function At(s: string, i: nat): (c: char)
    requires i <= |s|
  {
    if i < |s| then s[i] else NUL
  }

  // ---------------------------------------------------------------- reading a pattern

  /** A list of items up to the closing bracket and the length of its text; or None, when
      the pattern ends first. The list may be empty. */
  datatype Listed = None | Some(items: seq<Item>, len: nat)

  predicate IsRange(p: string) {
    |p| > 1 && p[1] == '-' && !(|p| > 2 && p[2] == ']')
  }

  function List(p: string): (r: Listed)
    ensures r.Some? ==>
              0 < r.len <= |p| && p[r.len - 1] == ']' && forall k | 0 <= k < r.len - 1 :: p[k] != ']'
    ensures r.None? ==> ']' !in p
  {
    if p == [] then None
    else if p[0] == ']' then Some([], 1)
    else if IsRange(p) then
      if |p| == 2 then None
      else assert forall k | 0 <= k < |p| - 3 :: p[3..][k] == p[k + 3]; More(Span(p[0], p[2]), 3, List(p[3..]))
    else More(Single(p[0]), 1, List(p[1..]))
  }

  function More(it: Item, n: nat, l: Listed): Listed {
    match l
    case None => None
    case Some(items, len) => Some([it] + items, n + len)
  }

  /** The tokens of a pattern; when a bracket is not closed, those before it. */
  datatype Pattern = Pattern(ts: seq<Tok>, closed: bool)

  function Read(p: string): Pattern
    decreases |p|
  {
    if p == [] then Pattern([], true)
    else if p[0] == '[' then
      var from := ListAt(p);
      match List(p[from..])
      case None => Pattern([], false)
      case Some(items, len) => Prefixed(Bracket(from == 2, items), Read(p[from + len..]))
    else Prefixed(Simple(p[0]), Read(p[1..]))
  }

  function ListAt(p: string): (n: nat)
    requires p != []
    ensures n <= |p| && 1 <= n <= 2
  {
    if |p| > 1 && p[1] == '^' then 2 else 1
  }

  function Simple(c: char): Tok {
    if c == '*' then Star else if c == '?' then Any else Char(c)
  }

  function Prefixed(t: Tok, q: Pattern): Pattern {
    Pattern([t] + q.ts, q.closed)
  }

  // ---------------------------------------------------------------- what the matcher decides

  /** The pattern matches the part of s from i to e. */
  ghost predicate Hit(ts: seq<Tok>, s: string, i: nat, e: nat) {
    i <= e <= |s| && Matches(ts, s[i..e], false)
  }

  ghost predicate HitsPrefix(ts: seq<Tok>, s: string, i: nat) {
    exists e | i <= e <= |s| :: Hit(ts, s, i, e)
  }

  /** The match from i that ends last. */
  ghost predicate Longest(ts: seq<Tok>, s: string, i: nat, e: nat) {
    Hit(ts, s, i, e) && forall f: nat | Hit(ts, s, i, f) :: f <= e
  }

  datatype Outcome = Missing | Found(code: nat, estr: nat)

  /** What t_pmatch promises: 2 for a whole match, 1 for a match of a proper prefix only, and
      0 for neither, with the end of the longest match; the error when the text before an unclosed
      bracket matches a prefix. */
  ghost predicate Decided(q: Pattern, s: string, i: nat, o: Outcome) {
    if q.closed then
      && o.Found?
      && (o.code == 2 <==> Hit(q.ts, s, i, |s|))
      && (o.code == 1 <==> !Hit(q.ts, s, i, |s|) && HitsPrefix(q.ts, s, i))
      && (o.code == 0 <==> !HitsPrefix(q.ts, s, i))
      && (o.code != 0 ==> Longest(q.ts, s, i, o.estr))
      && (o.code == 2 ==> o.estr == |s|)
    else
      && (o.Missing? <==> HitsPrefix(q.ts, s, i))
      && (o.Found? ==> o.code == 0)
  }

  lemma HitStep(ts: seq<Tok>, s: string, i: nat, e: nat)
    requires ts != [] && ts[0] != Star
    ensures Hit(ts, s, i, e) <==> i < e <= |s| && Accepts(ts[0], s[i], false) && Hit(ts[1..], s, i + 1, e)
  {
    if i < e <= |s| {
      assert s[i..e][1..] == s[i + 1..e];
    }
  }

  lemma HitStar(ts: seq<Tok>, s: string, i: nat, e: nat)
    requires ts != [] && ts[0] == Star
    ensures Hit(ts, s, i, e) <==> exists k | i <= k <= e :: Hit(ts[1..], s, k, e)
  {
    if Hit(ts, s, i, e) {
      var k :| 0 <= k <= e - i && Matches(ts[1..], s[i..e][k..], false);
      assert s[i..e][k..] == s[i + k..e];
      assert Hit(ts[1..], s, i + k, e);
    }
    if k :| i <= k <= e && Hit(ts[1..], s, k, e) {
      assert s[i..e][k - i..] == s[k..e];
    }
  }

  lemma HitNone(s: string, i: nat, e: nat)
    requires i <= |s|
    ensures Hit([], s, i, e) <==> e == i
  {
  }

  /** When matches begin at two positions, none from the first ends later than all from the second. */
  lemma {:induction false} LaterReachesAsFar(ts: seq<Tok>, s: string, i: nat, e: nat, k: nat) returns (f: nat)
    requires i <= k && Hit(ts, s, i, e) && HitsPrefix(ts, s, k)
    ensures e <= f && Hit(ts, s, k, f)
    decreases |ts|
  {
    hide Matches;
    f :| k <= f <= |s| && Hit(ts, s, k, f);
    if ts == [] {
      HitNone(s, i, e);
    } else if ts[0] == Star {
      HitStar(ts, s, i, e);
      HitStar(ts, s, k, f);
      var i1 :| i <= i1 <= e && Hit(ts[1..], s, i1, e);
      var k1 :| k <= k1 <= f && Hit(ts[1..], s, k1, f);
      if k <= i1 {
        f := e;
      } else {
        f := LaterReachesAsFar(ts[1..], s, i1, e, k1);
        assert f >= k1;
      }
      HitStar(ts, s, k, f);
    } else {
      HitStep(ts, s, i, e);
      HitStep(ts, s, k, f);
      f := LaterReachesAsFar(ts[1..], s, i + 1, e, k + 1);
      HitStep(ts, s, k, f);
    }
  }

  /** At the end of the pattern. */
  lemma DecidedEnd(s: string, i: nat)
    requires i <= |s|
    ensures Decided(Pattern([], true), s, i, Found(if i == |s| then 2 else 1, i))
  {
    HitNone(s, i, i);
    HitNone(s, i, |s|);
    forall f: nat | Hit([], s, i, f) ensures f == i {
      HitNone(s, i, f);
    }
  }

  /** At an unclosed bracket. */
  lemma DecidedMissing(s: string, i: nat)
    requires i <= |s|
    ensures Decided(Pattern([], false), s, i, Missing)
  {
    HitNone(s, i, i);
  }

  /** One token that is not a star: the rest decides, if the token accepts the character. */
  lemma DecidedStep(t: Tok, q: Pattern, s: string, i: nat, o: Outcome)
    requires t != Star && i <= |s|
    requires if i < |s| && Accepts(t, s[i], false) then Decided(q, s, i + 1, o) else o.Found? && o.code == 0
    ensures Decided(Prefixed(t, q), s, i, o)
  {
    var ts := [t] + q.ts;
    assert ts[1..] == q.ts;
    forall e | i <= e <= |s|
      ensures Hit(ts, s, i, e) <==> i < e && Accepts(t, s[i], false) && Hit(q.ts, s, i + 1, e)
    {
      HitStep(ts, s, i, e);
    }
    if i < |s| && Accepts(t, s[i], false) {
      if HitsPrefix(q.ts, s, i + 1) {
        var e :| i + 1 <= e <= |s| && Hit(q.ts, s, i + 1, e);
        assert Hit(ts, s, i, e);
      }
    }
  }

  /** A last star. */
  lemma DecidedLastStar(s: string, i: nat)
    requires i <= |s|
    ensures Decided(Prefixed(Star, Pattern([], true)), s, i, Found(2, |s|))
  {
    assert [Star] + [] == [Star] && [Star][1..] == [];
    HitStar([Star], s, i, |s|);
    HitNone(s, |s|, |s|);
  }

  /** The positions tried so far after a star, up to k; last is the end of the prefix found last. */
  ghost predicate Tried(q: Pattern, s: string, i: nat, k: nat, last: int) {
    && (forall m | i <= m < k :: !Hit(q.ts, s, m, |s|))
    && (if last == -1 then forall m | i <= m < k :: !HitsPrefix(q.ts, s, m)
        else
          && q.closed && i <= last <= |s| && (exists m | i <= m < k :: Hit(q.ts, s, m, last))
          && forall m: nat, e: nat | i <= m < k && Hit(q.ts, s, m, e) :: e <= last)
  }

  lemma TriedMore(q: Pattern, s: string, i: nat, k: nat, last: int, o: Outcome)
    requires i <= k <= |s| && Tried(q, s, i, k, last) && Decided(q, s, k, o) && o.Found? && o.code != 2
    ensures Tried(q, s, i, k + 1, if o.code == 1 then o.estr else last)
  {
    if o.code == 1 {
      assert Hit(q.ts, s, k, o.estr);
      forall m: nat, e: nat | i <= m < k + 1 && Hit(q.ts, s, m, e) ensures e <= o.estr {
        var f := LaterReachesAsFar(q.ts, s, m, e, k);
      }
    } else {
      assert !HitsPrefix(q.ts, s, k);
      assert Hit(q.ts, s, k, |s|) ==> HitsPrefix(q.ts, s, k);
    }
  }

  /** What a star does with the outcome of a later position. */
  lemma DecidedStar(q: Pattern, s: string, i: nat, k: nat, last: int, o: Outcome)
    requires i <= k <= |s| && Tried(q, s, i, k, last) && Decided(q, s, k, o)
    ensures o.Missing? ==> Decided(Prefixed(Star, q), s, i, Missing)
    ensures o.Found? && o.code == 2 ==> Decided(Prefixed(Star, q), s, i, o)
  {
    var ts := [Star] + q.ts;
    assert ts[1..] == q.ts;
    if o.Missing? {
      var e :| k <= e <= |s| && Hit(q.ts, s, k, e);
      HitStar(ts, s, i, e);
      assert Hit(ts, s, i, e);
    } else if o.code == 2 {
      HitStar(ts, s, i, |s|);
    }
  }

  lemma DecidedStarEnds(q: Pattern, s: string, i: nat, last: int)
    requires i <= |s| && Tried(q, s, i, |s| + 1, last)
    ensures Decided(Prefixed(Star, q), s, i, if last == -1 then Found(0, 0) else Found(1, last))
  {
    var ts := [Star] + q.ts;
    assert ts[1..] == q.ts;
    HitStar(ts, s, i, |s|);
    assert !Hit(ts, s, i, |s|);
    if last == -1 {
      forall e | i <= e <= |s| ensures !Hit(ts, s, i, e) {
        HitStar(ts, s, i, e);
        if k :| i <= k <= e && Hit(q.ts, s, k, e) {
          assert HitsPrefix(q.ts, s, k);
        }
      }
    } else {
      HitStar(ts, s, i, last);
      assert Hit(ts, s, i, last);
      forall e: nat | Hit(ts, s, i, e) ensures e <= last {
        HitStar(ts, s, i, e);
      }
    }
  }

  // ---------------------------------------------------------------- the matcher

  lemma ListHead(p: string, j: nat)
    requires j < |p|
    ensures p[j..][0] == p[j] && p[j..][1..] == p[j + 1..]
    ensures j + 1 < |p| ==> p[j..][1] == p[j + 1]
    ensures j + 2 < |p| ==> p[j..][2] == p[j + 2]
    ensures j + 3 <= |p| ==> p[j..][3..] == p[j + 3..]
  {
  }

  /** Where the list that starts at j0 ends, when no bracket was seen before j. */
  lemma ListEnd(p: string, j0: nat, j: nat)
    requires j0 <= j <= |p| && forall k | j0 <= k < j :: p[k] != ']'
    ensures j < |p| && p[j] == ']' ==> List(p[j0..]).Some? && List(p[j0..]).len == j + 1 - j0
    ensures j == |p| ==> List(p[j0..]).None?
  {
    var rest, l := p[j0..], List(p[j0..]);
    assert forall k | 0 <= k < |rest| :: rest[k] == p[j0 + k];
    if l.Some? {
      assert rest[l.len - 1] == ']';
      assert forall k | 0 <= k < l.len - 1 :: rest[k] == rest[..l.len - 1][k];
    } else if j < |p| {
      assert rest[j - j0] == p[j];
    }
  }

  /** The item at j, and its length. */
  function ItemAt(p: string, j: nat): (Item, nat)
    requires j < |p|
  {
    if IsRange(p[j..]) && j + 2 < |p| then (Span(p[j], p[j + 2]), 3) else (Single(p[j]), 1)
  }

  /** No item before j contains c; what is left decides. */
  ghost predicate Listing(l: Listed, c: char, p: string, j0: nat, j: nat) {
    && j0 <= j <= |p|
    && var rest := List(p[j..]);
       && (l.Some? <==> rest.Some?)
       && (l.Some? ==> l.len == j - j0 + rest.len
                       && (InItems(l.items, c, false) <==> InItems(rest.items, c, false)))
  }

  lemma InItemsStep(it: Item, items: seq<Item>, c: char)
    ensures InItems([it] + items, c, false) <==> InItem(it, c, false) || InItems(items, c, false)
  {
    var all := [it] + items;
    if InItem(it, c, false) {
      assert InItem(all[0], c, false);
    }
    if i :| 0 <= i < |items| && InItem(items[i], c, false) {
      assert all[i + 1] == items[i];
    }
  }

  lemma ListingNext(l: Listed, c: char, p: string, j0: nat, j: nat)
    requires Listing(l, c, p, j0, j) && j < |p| && p[j] != ']'
    ensures IsRange(p[j..]) <==> j + 1 < |p| && p[j + 1] == '-' && !(j + 2 < |p| && p[j + 2] == ']')
    ensures if IsRange(p[j..]) && j + 2 == |p| then l.None?
            else if InItem(ItemAt(p, j).0, c, false) then l.Some? ==> InItems(l.items, c, false)
            else Listing(l, c, p, j0, j + ItemAt(p, j).1)
  {
    ListHead(p, j);
    var (it, n) := ItemAt(p, j);
    if !(IsRange(p[j..]) && j + 2 == |p|) {
      var rest := List(p[j + n..]);
      assert List(p[j..]) == More(it, n, rest);
      if rest.Some? {
        InItemsStep(it, rest.items, c);
      }
    }
  }

  lemma ListingEnd(l: Listed, c: char, p: string, j0: nat, j: nat)
    requires Listing(l, c, p, j0, j) && j < |p| && p[j] == ']' && l.Some?
    ensures !InItems(l.items, c, false)
  {
  }

  /** The bracket case of t_pmatch: whether c is in the list at j0, and where the list ends, or
      that it does not end. After a hit the items are only skipped. */
  method MatchList(c: char, p: string, j0: nat) returns (missing: bool, hit: bool, j: nat)
    requires j0 <= |p| && NUL !in p
    ensures missing <==> List(p[j0..]).None?
    ensures !missing ==> j == j0 + List(p[j0..]).len <= |p|
    ensures !missing && c != NUL ==> (hit <==> InItems(List(p[j0..]).items, c, false))
    ensures !missing && c == NUL ==> !hit
  {
    hide List, InItems;
    hit, j := false, j0;
    var rangec := At(p, j);
    ghost var l := List(p[j0..]);
    while rangec != NUL && rangec != ']'
      invariant j0 <= j <= |p| && rangec == At(p, j) && (forall k | j0 <= k < j :: p[k] != ']')
      invariant !hit ==> Listing(l, c, p, j0, j)
      invariant hit ==> c != NUL && (l.Some? ==> InItems(l.items, c, false))
      decreases |p| - j
    {
      if hit {
        j := j + 1;
      } else {
        ListingNext(l, c, p, j0, j);
        j := j + 1;
        if At(p, j) == '-' && At(p, j + 1) != ']' {
          if j + 1 == |p| {
            return true, false, j;
          }
          var rangec2 := At(p, j + 1);
          hit := c <= rangec2 && rangec <= c;
          j := j + 2;
        } else {
          hit := c == rangec;
        }
      }
      rangec := At(p, j);
    }
    ListEnd(p, j0, j);
    if rangec == NUL {
      return true, false, j;
    }
    missing := false;
    if !hit {
      ListingEnd(l, c, p, j0, j);
    }
    j := j + 1;
  }

  /** The pattern at j, by its first token. */
  lemma ReadAt(p: string, j: nat)
    requires j <= |p|
    ensures if j == |p| then Read(p[j..]) == Pattern([], true)
            else if p[j] == '[' then
              var from := j + ListAt(p[j..]);
              && (from == j + 2 <==> j + 1 < |p| && p[j + 1] == '^')
              && from <= |p|
              && match List(p[from..])
                 case None => Read(p[j..]) == Pattern([], false)
                 case Some(items, len) =>
                   from + len <= |p| && Read(p[j..]) == Prefixed(Bracket(from == j + 2, items), Read(p[from + len..]))
            else Read(p[j..]) == Prefixed(Simple(p[j]), Read(p[j + 1..]))
  {
    hide Read, List;
    if j < |p| {
      ReadStep(p[j..]);
      ListHead(p, j);
      var n := ListAt(p[j..]);
      Twice(p, j, n);
      if p[j] == '[' && List(p[j + n..]).Some? {
        Twice(p, j, n + List(p[j + n..]).len);
      }
    } else {
      ReadNothing();
      assert p[j..] == [];
    }
  }

  lemma Twice(p: string, j: nat, n: nat)
    requires j + n <= |p|
    ensures p[j..][n..] == p[j + n..]
  {
  }

  lemma ReadNothing()
    ensures Read([]) == Pattern([], true)
  {
  }

  lemma ReadStep(q: string)
    requires q != []
    ensures if q[0] == '[' then
              match List(q[ListAt(q)..])
              case None => Read(q) == Pattern([], false)
              case Some(items, len) =>
                ListAt(q) + len <= |q|
                && Read(q) == Prefixed(Bracket(ListAt(q) == 2, items), Read(q[ListAt(q) + len..]))
            else Read(q) == Prefixed(Simple(q[0]), Read(q[1..]))
  {
    hide List;
  }

  /** t_pmatch: on the string at i and the pattern at j. */
  method TPmatch(s: string, i0: nat, p: string, j0: nat) returns (o: Outcome)
    requires i0 <= |s| && j0 <= |p| && NUL !in s && NUL !in p
    ensures Decided(Read(p[j0..]), s, i0, o)
    decreases |p| - j0, 0
  {
    hide Decided, Read, List, InItems;
    var i, j := i0, j0;
    ghost var q0 := Read(p[j0..]);
    while true
      invariant i0 <= i <= |s| && j0 <= j <= |p|
      invariant forall o :: Decided(Read(p[j..]), s, i, o) ==> Decided(q0, s, i0, o)
      decreases |p| - j
    {
      ReadAt(p, j);
      var stringc, patternc := At(s, i), At(p, j);
      j := j + 1;
      if patternc == NUL {
        DecidedEnd(s, i);
        return Found(if stringc == NUL then 2 else 1, i);
      }
      ghost var t, next := Simple(patternc), j;
      var ok := true;
      if patternc == '?' {
        ok := stringc != NUL;
      } else if patternc == '*' {
        o := MatchStar(s, i, p, j);
        return;
      } else if patternc == '[' {
        var negateRange := At(p, j) == '^';
        if negateRange {
          j := j + 1;
        }
        ghost var list := List(p[j..]);
        var missing, hit;
        missing, hit, j := MatchList(stringc, p, j);
        if missing {
          DecidedMissing(s, i);
          return Missing;
        }
        t := Bracket(negateRange, list.items);
        ok := (hit || stringc != NUL) && hit != negateRange;
      } else {
        ok := patternc == stringc;
      }
      forall o | if ok then Decided(Read(p[j..]), s, i + 1, o) else o == Found(0, 0)
        ensures Decided(q0, s, i0, o)
      {
        DecidedStep(t, Read(p[j..]), s, i, o);
      }
      if !ok {
        return Found(0, 0);
      }
      i := i + 1;
    }
  }

  /** The star case of t_pmatch; j is past the star. */
  method MatchStar(s: string, i0: nat, p: string, j: nat) returns (o: Outcome)
    requires i0 <= |s| && 0 < j <= |p| && NUL !in s && NUL !in p
    ensures Decided(Prefixed(Star, Read(p[j..])), s, i0, o)
    decreases |p| - j, 1
  {
    hide Decided, Read, Tried;
    ReadAt(p, j);
    if At(p, j) == NUL {
      DecidedLastStar(s, i0);
      return Found(2, |s|);
    }
    var i: nat, pestr: int := i0, -1;
    TriedNone(Read(p[j..]), s, i);
    while true
      invariant i0 <= i <= |s| && pestr >= -1 && Tried(Read(p[j..]), s, i0, i, pestr)
      decreases |s| - i
    {
      o := TPmatch(s, i, p, j);
      DecidedStar(Read(p[j..]), s, i0, i, pestr, o);
      if o.Missing? || o.code == 2 {
        return;
      }
      TriedMore(Read(p[j..]), s, i0, i, pestr, o);
      if o.code == 1 {
        pestr := o.estr;
      }
      if At(s, i) == NUL {
        break;
      }
      i := i + 1;
    }
    DecidedStarEnds(Read(p[j..]), s, i0, pestr);
    o := if pestr == -1 then Found(0, 0) else Found(1, pestr);
  }

  lemma TriedNone(q: Pattern, s: string, i: nat)
    ensures Tried(q, s, i, i, -1)
  {
  }
}
