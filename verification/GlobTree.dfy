/** glob2 and glob3 (glob.c): one path buffer and one list of results, changed along the walk. */
module GlobTree {
  import opened Basics
  import opened GlobPattern
  import opened GlobMatch
  import opened GlobCompile
  import opened GlobText
  import opened GlobWalk

  const SEP := Lit('/')
  const GLOB_ABEND := -2

  /** Slashes and end marks are cells of their own: none is inside a bracket. */
  predicate Separate(ts: seq<Tok>) {
    forall k | 0 <= k < |ts| :: Own(ts[k])
  }

  predicate Own(t: Tok) {
    EOS !in TokCells(t) && (SEP in TokCells(t) ==> t == Char('/'))
  }

  /** A bracket without a slash in its list, or another token. */
  predicate SlashFree(t: Tok) {
    t.Bracket? ==> forall k | 0 <= k < |t.items| :: ItemSlashFree(t.items[k])
  }

  predicate ItemSlashFree(it: Item) {
    match it
    case Single(c) => c != '/'
    case Span(lo, hi) => lo != '/' && hi != '/'
  }

  lemma {:induction false} ItemsOwn(items: seq<Item>)
    ensures SEP in ItemsCells(items) <==> exists k | 0 <= k < |items| :: !ItemSlashFree(items[k])
    ensures EOS in ItemsCells(items) <==> exists k | 0 <= k < |items| :: !ItemNoEnd(items[k])
  {
    if items != [] {
      ItemsOwn(items[1..]);
      assert forall k | 1 <= k < |items| :: items[k] == items[1..][k - 1];
      assert forall k | 0 <= k < |items| - 1 :: items[1..][k] == items[k + 1];
      assert SEP in ItemCells(items[0]) <==> !ItemSlashFree(items[0]);
      assert EOS in ItemCells(items[0]) <==> !ItemNoEnd(items[0]);
    }
  }

  lemma OwnExactly(t: Tok)
    ensures Own(t) <==> SlashFree(t) && NoEnd(t)
    ensures SEP in TokCells(t) <==> t == Char('/') || !SlashFree(t)
    ensures !SlashFree(t) ==> t.Bracket?
  {
    if t.Bracket? {
      ItemsOwn(t.items);
    }
  }

  lemma CollapseIn(ts: seq<Tok>)
    ensures forall t <- Collapse(ts) :: t in ts
  {
  }

  /** In the pattern that glob compiles every slash and the end mark have cells of their own, when
      there is no slash in a bracket. */
  lemma CompiledSeparate(pattern: string, quote: bool, not: char)
    requires '\0' !in pattern
    requires forall t <- Parse(Protect(pattern, quote), not) :: SlashFree(t)
    ensures Separate(Collapse(Parse(Protect(pattern, quote), not)))
  {
    hide Parse, Protect, Collapse, Own, SlashFree, NoEnd;
    var raw := Protect(pattern, quote);
    ProtectWritten(pattern, quote);
    ParsedNoEnd(raw, not);
    var ts := Parse(raw, not);
    CollapseIn(ts);
    forall k | 0 <= k < |Collapse(ts)| ensures Own(Collapse(ts)[k]) {
      assert Collapse(ts)[k] in ts;
      OwnExactly(Collapse(ts)[k]);
    }
  }

  lemma ParsedNoEnd(raw: seq<Cell>, not: char)
    requires Written(raw)
    ensures forall t <- Parse(raw, not) :: NoEnd(t)
  {
    ParseNoEnd(raw, 0, not);
  }

  /** The walk cuts a pattern at its separators. These are the slashes of the pattern if and only if
      no bracket has a slash in it. */
  lemma CutAtSlashes(ts: seq<Tok>)
    ensures (forall t <- ts :: SlashFree(t)) <==>
            forall k | 0 <= k < |Cells(ts)| && Cells(ts)[k] == SEP :: ASlash(ts, k)
  {
    hide Cells, TokCells, SlashFree;
    if forall t <- ts :: SlashFree(t) {
      forall k | 0 <= k < |Cells(ts)| && Cells(ts)[k] == SEP ensures ASlash(ts, k) {
        FirstPos(ts);
        var i := TokenAround(ts, k, 0);
        CellsAt(ts, i);
        CellInside(ts, i, k);
        OwnExactly(ts[i]);
        SimpleCells();
      }
    } else {
      var i :| 0 <= i < |ts| && !SlashFree(ts[i]);
      OwnExactly(ts[i]);
      CellsAt(ts, i);
      var x :| 0 <= x < |TokCells(ts[i])| && TokCells(ts[i])[x] == SEP;
      CellInside(ts, i, Pos(ts, i) + x);
      NotASlash(ts, i, Pos(ts, i) + x);
    }
  }

  lemma FirstPos(ts: seq<Tok>)
    ensures Pos(ts, 0) == 0
  {
    assert ts[..0] == [];
  }

  /** The cell at k is a slash of the pattern. */
  ghost predicate ASlash(ts: seq<Tok>, k: nat) {
    exists i :: 0 <= i < |ts| && ts[i] == Char('/') && k == Pos(ts, i)
  }

  lemma CellInside(ts: seq<Tok>, i: nat, k: nat)
    requires i < |ts| && Pos(ts, i) <= k < Pos(ts, i) + |TokCells(ts[i])| <= |Cells(ts)|
    requires Cells(ts)[Pos(ts, i)..Pos(ts, i) + |TokCells(ts[i])|] == TokCells(ts[i])
    ensures Cells(ts)[k] == TokCells(ts[i])[k - Pos(ts, i)]
  {
    hide Cells, TokCells;
    assert Cells(ts)[Pos(ts, i)..Pos(ts, i) + |TokCells(ts[i])|][k - Pos(ts, i)] == Cells(ts)[k];
  }

  /** The token that a cell belongs to, among those from i on. */
  lemma {:induction false} TokenAround(ts: seq<Tok>, k: nat, i: nat) returns (j: nat)
    requires i <= |ts| && Pos(ts, i) <= k < |Cells(ts)|
    ensures j < |ts| && Pos(ts, j) <= k < Pos(ts, j) + |TokCells(ts[j])|
    decreases |ts| - i
  {
    hide TokCells, Cells;
    assert ts[..|ts|] == ts;
    CellsAt(ts, i);
    j := i;
    if k >= Pos(ts, i) + |TokCells(ts[i])| {
      j := TokenAround(ts, k, i + 1);
    }
  }

  lemma {:induction false} PosGrows(ts: seq<Tok>, i: nat, j: nat)
    requires i < j <= |ts|
    ensures Pos(ts, i) + |TokCells(ts[i])| <= Pos(ts, j)
    decreases j - i
  {
    hide TokCells, Cells;
    CellsAt(ts, i);
    if i + 1 < j {
      PosGrows(ts, i + 1, j);
    }
  }

  /** A cell in a bracket is not a slash of the pattern. */
  lemma NotASlash(ts: seq<Tok>, i: nat, k: nat)
    requires i < |ts| && ts[i].Bracket? && Pos(ts, i) <= k < Pos(ts, i) + |TokCells(ts[i])|
    ensures !ASlash(ts, k)
  {
    hide TokCells, Cells;
    forall j | 0 <= j < |ts| && ts[j] == Char('/') ensures k != Pos(ts, j) {
      if j < i {
        PosGrows(ts, j, i);
        PosBefore(ts, j);
      } else {
        PosGrows(ts, i, j);
      }
    }
  }

  lemma PosBefore(ts: seq<Tok>, j: nat)
    requires j < |ts|
    ensures |TokCells(ts[j])| > 0
  {
  }

  /** The pattern [a/b] is one bracket, but it is cut inside: the cells before the cut are those of
      no tokens. */
  lemma SlashInBracket()
    ensures var ts := Parse(Protect("[a/b]", false), '!');
            && ts == [Bracket(false, [Single('a'), Single('/'), Single('b')])]
            && Cells(ts) == [Set, Lit('a'), SEP, Lit('b'), End] && !ASlash(ts, 2)
    ensures forall seg :: Cells(seg) != [Set, Lit('a')]
  {
    ReadBracket();
    var ts := [Bracket(false, [Single('a'), Single('/'), Single('b')])];
    BracketCellsAre();
    WholeIn(ts);
    NotASlash(ts, 0, 2);
    forall seg ensures Cells(seg) != [Set, Lit('a')] {
      NoEndIn();
      if seg != [] && Cells(seg) == [Set, Lit('a')] {
        BracketEnds(seg);
      }
    }
  }

  lemma WholeIn(ts: seq<Tok>)
    requires |ts| == 1
    ensures Pos(ts, 0) == 0 && Cells(ts) == TokCells(ts[0])
  {
    assert ts[..0] == [];
    CellsHead(ts);
  }

  lemma NoEndIn()
    ensures Cells([]) == [] && End !in [Set, Lit('a')]
  {
  }

  /** Cells that begin with a bracket contain its end. */
  lemma BracketEnds(seg: seq<Tok>)
    requires seg != [] && Cells(seg)[0] == Set
    ensures End in Cells(seg)
  {
    FirstCell(seg[0]);
    BracketCells(seg[0]);
    hide ItemsCells, TokCells;
    CellsHead(seg);
    assert Cells(seg)[..|TokCells(seg[0])|] == TokCells(seg[0]);
  }

  lemma {:induction false} ProtectPlain(pattern: string)
    ensures |Protect(pattern, false)| == |pattern|
    ensures forall k | 0 <= k < |pattern| :: Protect(pattern, false)[k] == Lit(pattern[k])
  {
    if pattern != [] {
      ProtectPlain(pattern[1..]);
    }
  }

  lemma SingleStep(b: seq<Cell>, c: char)
    requires Source(b) && Closable(b) && b[0] == Lit(c) && b[1] != Lit('-')
    ensures if b[1] == Lit(']') then Items(b) == ([Single(c)], 1)
            else Closable(b[1..]) && Items(b) == ([Single(c)] + Items(b[1..]).0, 1 + Items(b[1..]).1)
  {
    hide Items, Closable, ItemsCells;
    FirstIsSingle(b, c);
    ItemsUnfold(b);
  }

  lemma FirstIsSingle(b: seq<Cell>, c: char)
    requires Source(b) && Closable(b) && b[0] == Lit(c) && b[1] != Lit('-')
    ensures FirstItem(b) == (Single(c), 1)
  {
  }

  lemma ReadItems(b: seq<Cell>)
    requires b == [Lit('a'), SEP, Lit('b'), Lit(']')]
    ensures Source(b) && Closable(b) && Items(b) == ([Single('a'), Single('/'), Single('b')], 3)
  {
    hide Items, Closable, FirstItem;
    var b1, b2 := b[1..], b[1..][1..];
    assert b1 == [SEP, Lit('b'), Lit(']')] && b2 == [Lit('b'), Lit(']')];
    ClosedAt(b, 3);
    SingleStep(b, 'a');
    SingleStep(b1, '/');
    SingleStep(b2, 'b');
    assert [Single('/')] + [Single('b')] == [Single('/'), Single('b')];
    assert [Single('a')] + [Single('/'), Single('b')] == [Single('a'), Single('/'), Single('b')];
  }

  lemma ReadBracket()
    ensures Parse(Protect("[a/b]", false), '!') == [Bracket(false, [Single('a'), Single('/'), Single('b')])]
  {
    hide Items, Closable, Protect;
    ProtectPlain("[a/b]");
    var raw := [Lit('['), Lit('a'), SEP, Lit('b'), Lit(']')];
    assert Protect("[a/b]", false) == raw;
    ReadItems(raw[1..]);
    assert Inside(raw, '!') == raw[1..] && raw[0..] == raw;
    assert FirstTok(raw, '!') == (Bracket(false, [Single('a'), Single('/'), Single('b')]), 5);
  }

  lemma ClosedAt(b: seq<Cell>, i: nat)
    requires 1 <= i < |b| && b[i] == Lit(']')
    ensures Closable(b)
  {
  }

  lemma BracketCellsAre()
    ensures Cells([Bracket(false, [Single('a'), Single('/'), Single('b')])]) == [Set, Lit('a'), SEP, Lit('b'), End]
  {
    var items := [Single('a'), Single('/'), Single('b')];
    assert items[1..] == [Single('/'), Single('b')] && items[1..][1..] == [Single('b')];
    assert ItemsCells([Single('b')]) == [Lit('b')];
    assert ItemsCells(items[1..]) == [SEP, Lit('b')];
    assert ItemsCells(items) == [Lit('a'), SEP, Lit('b')];
    WholeIn([Bracket(false, items)]);
  }

  predicate IsMeta(c: Cell) { !c.Lit? && !c.Prot? }

  /** What is appended to the path for a cell; what stands for a meta cell is taken back. */
  function Text(c: Cell): char {
    if c.Lit? then c.c else '*'
  }

  predicate AnyMeta(cells: seq<Cell>) {
    exists k | 0 <= k < |cells| :: IsMeta(cells[k])
  }

  lemma TokenCells(t: Tok)
    requires Own(t) && t != Char('/')
    ensures SEP !in TokCells(t) && EOS !in TokCells(t) && (AnyMeta(TokCells(t)) <==> !t.Char?)
    ensures t.Char? ==> TokCells(t) == [Lit(t.c)]
  {
    if !t.Char? {
      assert IsMeta(TokCells(t)[0]);
    }
  }

  lemma AnyMetaAppend(a: seq<Cell>, b: seq<Cell>)
    ensures AnyMeta(a + b) <==> AnyMeta(a) || AnyMeta(b)
  {
    var c := a + b;
    if k :| 0 <= k < |a| && IsMeta(a[k]) {
      assert c[k] == a[k];
    }
    if k :| 0 <= k < |b| && IsMeta(b[k]) {
      assert c[|a| + k] == b[k];
    }
  }

  /** The cells of a segment: none is a separator, and there is a meta cell unless all is literal. */
  lemma {:induction false} SegmentCells(seg: seq<Tok>)
    requires Separate(seg) && Char('/') !in seg
    ensures SEP !in Cells(seg) && EOS !in Cells(seg) && (AnyMeta(Cells(seg)) <==> !Literal(seg))
    ensures Literal(seg) ==> |Cells(seg)| == |seg| && forall k | 0 <= k < |seg| :: Cells(seg)[k] == Lit(seg[k].c)
  {
    hide Own, TokCells, AnyMeta;
    if seg != [] {
      assert Own(seg[0]);
      TokenCells(seg[0]);
      SegmentCells(seg[1..]);
      AnyMetaAppend(TokCells(seg[0]), Cells(seg[1..]));
      LiteralStep(seg);
      if Literal(seg) {
        forall k | 0 <= k < |seg| ensures Cells(seg)[k] == Lit(seg[k].c) {
          if k > 0 {
            assert Cells(seg[1..])[k - 1] == Lit(seg[1..][k - 1].c);
          }
        }
      }
    } else {
      NoMeta();
    }
  }

  lemma NoMeta()
    ensures !AnyMeta([])
  {
  }

  lemma LiteralStep(seg: seq<Tok>)
    requires seg != []
    ensures Literal(seg) <==> seg[0].Char? && Literal(seg[1..])
  {
    assert forall k | 1 <= k < |seg| :: seg[k] == seg[1..][k - 1];
  }

  /** The pattern's cells and where token i starts. */
  ghost predicate Compiled(pat: seq<Cell>, ts: seq<Tok>) {
    pat == Cells(ts) + [EOS] && Separate(ts)
  }

  ghost function Pos(ts: seq<Tok>, i: nat): nat
    requires i <= |ts|
  {
    |Cells(ts[..i])|
  }

  /** The end of the segment that starts at token i. */
  function SegEnd(ts: seq<Tok>, i: nat): (j: nat)
    requires i <= |ts|
    ensures i <= j <= |ts| && (j < |ts| ==> ts[j] == Char('/')) && forall k | i <= k < j :: ts[k] != Char('/')
    ensures i < |ts| && ts[i] != Char('/') ==> j > i
    decreases |ts| - i
  {
    if i == |ts| || ts[i] == Char('/') then i else SegEnd(ts, i + 1)
  }

  lemma SegLenIs(ts: seq<Tok>, i: nat)
    requires i <= |ts|
    ensures SegLen(ts[i..]) == SegEnd(ts, i) - i
    ensures ts[i..][..SegEnd(ts, i) - i] == ts[i..SegEnd(ts, i)] && ts[i..][SegEnd(ts, i) - i..] == ts[SegEnd(ts, i)..]
  {
    SegEndFrom(ts, i);
    CutTwice(ts, i, SegEnd(ts, i));
  }

  lemma CutTwice(ts: seq<Tok>, i: nat, j: nat)
    requires i <= j <= |ts|
    ensures ts[i..][..j - i] == ts[i..j] && ts[i..][j - i..] == ts[j..]
  {
  }

  lemma {:induction false} SegEndFrom(ts: seq<Tok>, i: nat)
    requires i <= |ts|
    ensures SegLen(ts[i..]) == SegEnd(ts, i) - i
    decreases |ts| - i
  {
    if i < |ts| && ts[i] != Char('/') {
      SegEndFrom(ts, i + 1);
      SegLenStep(ts, i);
    }
  }

  lemma SegLenStep(ts: seq<Tok>, i: nat)
    requires i < |ts| && ts[i] != Char('/')
    ensures SegLen(ts[i..]) == 1 + SegLen(ts[i + 1..])
  {
    assert ts[i..][1..] == ts[i + 1..] && ts[i..][0] == ts[i];
  }

  /** The segment from token i on, in the pattern. */
  lemma SegmentAt(pat: seq<Cell>, ts: seq<Tok>, i: nat, j: nat)
    requires Compiled(pat, ts) && i <= |ts| && j == SegEnd(ts, i)
    ensures Pos(ts, i) <= Pos(ts, j) < |pat| && pat[Pos(ts, i)..Pos(ts, j)] == Cells(ts[i..j])
    ensures pat[Pos(ts, j)] == (if j < |ts| then SEP else EOS)
    ensures Separate(ts[i..j]) && Char('/') !in ts[i..j]
  {
    hide Cells, Own, TokCells;
    CellsSplit(ts, j);
    CellsSplit(ts[..j], i);
    assert ts[..j][..i] == ts[..i] && ts[..j][i..] == ts[i..j];
    Between(Cells(ts[..i]), Cells(ts[i..j]), Cells(ts[j..]) + [EOS], pat);
    if j < |ts| {
      CellsHead(ts[j..]);
      SimpleCells();
    } else {
      assert ts[j..] == [];
      CellsNone();
    }
  }

  lemma Between(a: seq<Cell>, b: seq<Cell>, c: seq<Cell>, pat: seq<Cell>)
    requires pat == a + b + c && c != []
    ensures pat[|a|..|a| + |b|] == b && pat[|a| + |b|] == c[0]
  {
  }

  lemma CellsNone()
    ensures Cells([]) == []
  {
  }

  /** A slash is one token and one cell. */
  lemma SlashAt(pat: seq<Cell>, ts: seq<Tok>, i: nat)
    requires Compiled(pat, ts) && i <= |ts|
    ensures Pos(ts, i) < |pat| && (pat[Pos(ts, i)] == SEP <==> i < |ts| && ts[i] == Char('/'))
    ensures i < |ts| && ts[i] == Char('/') ==> Pos(ts, i + 1) == Pos(ts, i) + 1
    ensures pat[Pos(ts, i)] == EOS <==> i == |ts|
    ensures i < |ts| ==> (pat[Pos(ts, i)] == Lit('.') <==> ts[i] == Char('.'))
  {
    hide Cells, TokCells;
    if i < |ts| {
      CellsAt(ts, i);
      SimpleCells();
      FirstCell(ts[i]);
      OwnFirst(ts[i]);
      assert Own(ts[i]);
      var a := Pos(ts, i);
      assert pat[a] == Cells(ts)[a] == Cells(ts)[a..a + |TokCells(ts[i])|][0];
    } else {
      assert ts[..i] == ts;
    }
  }

  lemma OwnFirst(t: Tok)
    requires Own(t)
    ensures TokCells(t)[0] != EOS && (TokCells(t)[0] == SEP <==> t == Char('/'))
  {
  }

  /** Names are not empty, and have no slash and no end mark in them. */
  ghost predicate ProperListings(env: Env) {
    forall d | env.readdir(d).Some? :: ProperList(env.readdir(d).value)
  }

  predicate ProperList(names: seq<string>) {
    forall i | 0 <= i < |names| :: names[i] != [] && '/' !in names[i] && '\0' !in names[i]
  }

  class Walker {
    /** pathbuf and gl_pathv */
    var pathbuf: string
    var pathv: seq<string>
    var matchc: nat

    constructor ()
      ensures pathbuf == [] && pathv == [] && matchc == 0
    {
      pathbuf, pathv, matchc := [], [], 0;
    }

    /** The text of the segment goes to the path as if it had no meta character in it. */
    method CopySegment(pat: seq<Cell>, p0: nat, ghost ts: seq<Tok>, ghost i: nat, ghost j: nat)
      returns (p: nat, anymeta: bool)
      requires Compiled(pat, ts) && i <= |ts| && p0 == Pos(ts, i) && j == SegEnd(ts, i)
      modifies this`pathbuf
      ensures p == Pos(ts, j) && (anymeta <==> !Literal(ts[i..j]))
      ensures !anymeta ==> pathbuf == old(pathbuf) + Chars(ts[i..j])
      ensures StartsWith(pathbuf, old(pathbuf))
    {
      hide Cells, Separate, SegEnd, Compiled;
      ghost var seg, end := ts[i..j], Pos(ts, j);
      SegmentAt(pat, ts, i, j);
      SegmentCells(seg);
      InSegment(pat, p0, end, seg);
      p, anymeta := p0, false;
      ghost var start := pathbuf;
      while pat[p] != EOS && pat[p] != SEP
        invariant p0 <= p <= end && StartsWith(pathbuf, start)
        invariant anymeta <==> exists k | p0 <= k < p :: IsMeta(pat[k])
        invariant Literal(seg) ==> pathbuf == start + Chars(seg)[..p - p0]
        decreases end - p
      {
        if IsMeta(pat[p]) {
          anymeta := true;
        }
        pathbuf := pathbuf + [Text(pat[p])];
        p := p + 1;
      }
      SomeMeta(pat, p0, end, Cells(seg));
      assert Literal(seg) ==> Chars(seg)[..|seg|] == Chars(seg);
    }

    /** The slashes between segments go to the path as they are. */
    method CopySlashes(pat: seq<Cell>, pattern0: nat, env: Env, ghost ts: seq<Tok>, ghost i0: nat)
      returns (pattern: nat, ghost i: nat)
      requires Compiled(pat, ts) && i0 <= |ts| && pattern0 == Pos(ts, i0)
      modifies this`pathbuf
      ensures i0 <= i <= |ts| && pattern == Pos(ts, i) && (i0 < |ts| && ts[i0] == Char('/') ==> i > i0)
      ensures StartsWith(pathbuf, old(pathbuf))
      ensures Paths(env, pathbuf, ts[i..]) == Paths(env, old(pathbuf), ts[i0..])
    {
      hide Compiled, Paths, Pos;
      pattern, i := pattern0, i0;
      ghost var start := pathbuf;
      SlashAt(pat, ts, i);
      while pat[pattern] == SEP
        invariant i0 <= i <= |ts| && pattern == Pos(ts, i) < |pat| && StartsWith(pathbuf, start)
        invariant pat[pattern] == SEP <==> i < |ts| && ts[i] == Char('/')
        invariant i == i0 || i > i0
        invariant Paths(env, pathbuf, ts[i..]) == Paths(env, start, ts[i0..])
        decreases |ts| - i
      {
        PathsAt(env, pathbuf, ts, i);
        pathbuf := pathbuf + "/";
        SlashAt(pat, ts, i);
        pattern, i := pattern + 1, i + 1;
        SlashAt(pat, ts, i);
      }
    }

    /** What the walk promises, from a list of results and a path on. */
    twostate predicate Found(env: Env, err: int, goal: seq<string>)
      reads this
    {
      && (err == 0 ==> pathv == old(pathv) + goal)
      && ((forall d :: !env.abend(d)) ==> err == 0)
      && |old(pathv)| <= |pathv| && pathv[..|old(pathv)|] == old(pathv)
      && matchc + |old(pathv)| == old(matchc) + |pathv|
    }

    /** glob2 */
    method Glob2(pat: seq<Cell>, pattern0: nat, env: Env, ghost ts: seq<Tok>, ghost i0: nat) returns (err: int)
      requires Compiled(pat, ts) && i0 <= |ts| && pattern0 == Pos(ts, i0) && ProperListings(env)
      modifies this
      ensures Found(env, err, Paths(env, old(pathbuf), ts[i0..])) && StartsWith(pathbuf, old(pathbuf))
      decreases |ts| - i0, 2
    {
      hide Compiled, Paths, Pos, ProperListings, Literal, SegEnd;
      var pattern := pattern0;
      ghost var i, start := i0, pathbuf;
      while true
        invariant i0 <= i <= |ts| && pattern == Pos(ts, i) && StartsWith(pathbuf, start)
        invariant pathv == old(pathv) && matchc == old(matchc)
        invariant Paths(env, pathbuf, ts[i..]) == Paths(env, start, ts[i0..])
        decreases |ts| - i
      {
        SlashAt(pat, ts, i);
        PathsAt(env, pathbuf, ts, i);
        if pat[pattern] == EOS {
          if env.exists_(pathbuf) {
            matchc := matchc + 1;
            pathv := pathv + [pathbuf];
          }
          return 0;
        }
        ghost var j := SegEnd(ts, i);
        ghost var here := pathbuf;
        var origLen := |pathbuf|;
        var p, anymeta := CopySegment(pat, pattern, ts, i, j);
        if anymeta {
          pathbuf := pathbuf[..origLen];
          SegmentStarts(ts, i, j);
          err := Glob3(pat, pattern, p, env, ts, i, j);
          return;
        }
        SegmentStarts(ts, i, j);
        if i == |ts| || ts[i] == Char('/') {
          EmptySegment(env, here, ts, i, j);
        }
        pattern, i := CopySlashes(pat, p, env, ts, j);
      }
    }

    /** glob3, for a segment with a meta character. */
    method Glob3(pat: seq<Cell>, pattern: nat, restpattern: nat, env: Env, ghost ts: seq<Tok>, ghost i: nat,
                 ghost j: nat)
      returns (err: int)
      requires Compiled(pat, ts) && i < |ts| && ts[i] != Char('/') && j == SegEnd(ts, i) && ProperListings(env)
      requires pattern == Pos(ts, i) && restpattern == Pos(ts, j) && !Literal(ts[i..j])
      modifies this
      ensures Found(env, err, Paths(env, old(pathbuf), ts[i..])) && StartsWith(pathbuf, old(pathbuf))
      decreases |ts| - i, 1
    {
      hide Compiled, Paths, Pos, ProperListings, Literal, Each, Via, SegEnd;
      ghost var path := pathbuf;
      var origLen := |pathbuf|;
      PathsAt(env, path, ts, i);
      if pathbuf != [] && !env.isdir(pathbuf) {
        return 0;
      }
      var dirp := env.readdir(pathbuf);
      if dirp.None? {
        return if env.abend(pathbuf) then GLOB_ABEND else 0;
      }
      Listing(env, pathbuf);
      err := 0;
      var k := 0;
      EachEnds(env, path, ts[i..]);
      assert dirp.value[0..] == dirp.value;
      while k < |dirp.value|
        invariant k <= |dirp.value| && StartsWith(pathbuf, path) && origLen == |path| && err == 0
        invariant pathv + Each(env, path, dirp.value[k..], ts[i..]) == old(pathv) + Each(env, path, dirp.value, ts[i..])
        invariant |old(pathv)| <= |pathv| && pathv[..|old(pathv)|] == old(pathv)
        invariant matchc + |old(pathv)| == old(matchc) + |pathv|
      {
        ghost var sofar := pathv;
        EachAt(env, path, dirp.value, k, ts[i..]);
        err := Entry(pat, pattern, restpattern, env, dirp.value[k], origLen, path, ts, i, j);
        if err != 0 {
          return;
        }
        Regroup(sofar, Via(env, path, dirp.value[k], ts[i..]), Each(env, path, dirp.value[k + 1..], ts[i..]));
        k := k + 1;
      }
      assert dirp.value[k..] == [];
      NothingMore(old(pathv), pathv, Each(env, path, dirp.value, ts[i..]));
    }

    /** The body of the loop of glob3. */
    method Entry(pat: seq<Cell>, pattern: nat, restpattern: nat, env: Env, name: string, origLen: nat,
                 ghost path: string, ghost ts: seq<Tok>, ghost i: nat, ghost j: nat) returns (err: int)
      requires Compiled(pat, ts) && i < |ts| && ts[i] != Char('/') && j == SegEnd(ts, i) && ProperListings(env)
      requires pattern == Pos(ts, i) && restpattern == Pos(ts, j)
      requires name != [] && '/' !in name && '\0' !in name && StartsWith(pathbuf, path) && origLen == |path|
      modifies this
      ensures Found(env, err, Via(env, path, name, ts[i..])) && StartsWith(pathbuf, path)
      decreases |ts| - i, 0
    {
      hide Compiled, Paths, Pos, ProperListings, Literal, SegEnd, Via, SegMatches;
      OneAt(env, path, name, ts, i, j);
      SlashAt(pat, ts, i);
      if name[0] == '.' && pat[pattern] != Lit('.') {
        if !env.globdot || |name| == 1 || (name[1] == '.' && |name| == 2) {
          HiddenName(ts, i, j, name, env.globdot);
          return 0;
        }
      }
      pathbuf := pathbuf[..origLen] + name;
      var matches := NameMatches(pat, pattern, restpattern, name, env.globdot, ts, i, j);
      StartsWithMore(pathbuf, path, name);
      if !matches {
        return 0;
      }
      err := Glob2(pat, restpattern, env, ts, j);
      StartsWithMore(pathbuf, path, name);
    }

    /** glob, from the pattern's text on, without sorting; pathbuf is empty at the start. A null
        pattern finds nothing, any other the existing paths that match it. */
    method Glob(pattern: string, quote: bool, not: char, env: Env) returns (err: int)
      requires '\0' !in pattern && not in {'!', '^'} && ProperListings(env)
      requires forall t <- Parse(Protect(pattern, quote), not) :: SlashFree(t)
      modifies this
      ensures var ts := Parse(Protect(pattern, quote), not);
              && Found(env, err, if ts == [] then [] else Paths(env, [], ts))
              && (err == 0 && Consistent(env) ==>
                    var found := pathv[|old(pathv)|..];
                    && EachOnce(found)
                    && forall q :: q in found <==> ts != [] && env.exists_(q) && PathMatches(ts, q, env.globdot))
      ensures forall p | quote && pattern == Quoted(p) ::
                Found(env, err, if p != [] && env.exists_(p) then [p] else [])
    {
      hide Parse, Protect, Collapse, Paths, Cells, Separate, ProperListings, SlashFree, PathMatches, Consistent,
           EachOnce;
      ghost var raw, parsed := Protect(pattern, quote), Parse(Protect(pattern, quote), not);
      assert forall k | 0 <= k < |pattern| :: pattern[k] != '\0';
      var buf := ProtectQuoted(pattern, quote);
      var b := Compile(buf, not, raw);
      var pat := buf[..b + 1];
      ghost var ts := Collapse(parsed);
      assert pat == Cells(ts) + [EOS];
      CompiledSeparate(pattern, quote, not);
      FirstIsEnd(pat, ts);
      SameStart(parsed);
      pathbuf := [];
      if pat[0] == EOS {
        err := 0;
      } else {
        assert ts[..0] == [] && ts[0..] == ts;
        CellsNone();
        CollapseKeepsWalk(env, [], parsed);
        err := Glob2(pat, 0, env, ts, 0);
      }
      WhatWasFound(env, parsed, old(pathv), pathv);
      forall p | quote && pattern == Quoted(p)
        ensures (if parsed == [] then [] else Paths(env, [], parsed)) == if p != [] && env.exists_(p) then [p] else []
      {
        QuotedPath(env, p, not);
      }
    }
  }

  /** The name of an entry against the segment; names that the rule for dots hides are not asked about. */
  method NameMatches(pat: seq<Cell>, pattern: nat, restpattern: nat, name: string, ghost globdot: bool,
                     ghost ts: seq<Tok>, ghost i: nat, ghost j: nat) returns (r: bool)
    requires Compiled(pat, ts) && i < |ts| && ts[i] != Char('/') && j == SegEnd(ts, i)
    requires pattern == Pos(ts, i) && restpattern == Pos(ts, j)
    requires name != [] && '/' !in name && '\0' !in name
    requires name[0] == '.' && ts[i] != Char('.') ==> globdot && name != "." && name != ".."
    ensures r <==> SegMatches(ts[i..j], name, globdot)
  {
    hide Compiled, Pos, Matches, SegEnd, Cells;
    SegmentAt(pat, ts, i, j);
    SegmentStarts(ts, i, j);
    r := Match(name, pat, pattern, restpattern, ts[i..j]);
  }

  /** A pattern that is quoted throughout finds the path of that name, if there is one. */
  lemma QuotedPath(env: Env, p: string, not: char)
    ensures var ts := Parse(Protect(Quoted(p), true), not);
            (if ts == [] then [] else Paths(env, [], ts)) == if p != [] && env.exists_(p) then [p] else []
  {
    hide Parse, Protect, Paths;
    QuotedTokens(p, not);
    CharsPath(env, [], p);
    assert [] + p == p;
  }

  lemma {:induction false} CharsPath(env: Env, path: string, p: string)
    ensures Paths(env, path, CharsOf(p)) == if env.exists_(path + p) then [path + p] else []
    decreases |p|
  {
    var ts := CharsOf(p);
    if p == [] {
      assert path + p == path;
    } else if p[0] == '/' {
      CharsPath(env, path + "/", p[1..]);
      assert ts[1..] == CharsOf(p[1..]) && path + p == path + "/" + p[1..];
    } else {
      var n := SegLen(ts);
      CharsPath(env, path + p[..n], p[n..]);
      assert ts[n..] == CharsOf(p[n..]) && path + p == path + p[..n] + p[n..];
      assert Literal(ts[..n]) && Chars(ts[..n]) == p[..n];
      assert n > 0;
    }
  }

  lemma SameStart(ts: seq<Tok>)
    ensures Collapse(ts) == [] <==> ts == []
  {
  }

  lemma WhatWasFound(env: Env, ts: seq<Tok>, before: seq<string>, after: seq<string>)
    ensures after == before + (if ts == [] then [] else Paths(env, [], ts)) && Consistent(env) ==>
              var found := after[|before|..];
              && EachOnce(found)
              && forall q :: q in found <==> ts != [] && env.exists_(q) && PathMatches(ts, q, env.globdot)
  {
    hide Paths, Consistent, PathMatches;
    var found := if ts == [] then [] else Paths(env, [], ts);
    if after == before + found && Consistent(env) {
      assert after[|before|..] == found;
      ExactlyTheMatchingPaths(env, ts);
    }
  }

  lemma FirstIsEnd(pat: seq<Cell>, ts: seq<Tok>)
    requires Compiled(pat, ts)
    ensures pat[0] == EOS <==> ts == []
  {
    SlashAt(pat, ts, 0);
    assert ts[..0] == [];
    CellsNone();
  }

  /** Paths, by the token at i. */
  lemma PathsAt(env: Env, path: string, ts: seq<Tok>, i: nat)
    requires i <= |ts|
    ensures var j, r := SegEnd(ts, i), Paths(env, path, ts[i..]);
            if i == |ts| then r == if env.exists_(path) then [path] else []
            else if ts[i] == Char('/') then r == Paths(env, path + "/", ts[i + 1..])
            else
              && SegLen(ts[i..]) > 0
              && r == (if Literal(ts[i..j]) then Paths(env, path + Chars(ts[i..j]), ts[j..])
                       else if (path != [] && !env.isdir(path)) || env.readdir(path).None? then []
                       else Each(env, path, env.readdir(path).value, ts[i..]))
  {
    hide Each;
    SegLenIs(ts, i);
    if i < |ts| {
      assert ts[i..][0] == ts[i] && ts[i..][1..] == ts[i + 1..];
    }
  }

  lemma SegmentStarts(ts: seq<Tok>, i: nat, j: nat)
    requires i <= |ts| && j == SegEnd(ts, i)
    ensures i <= j <= |ts|
    ensures i < |ts| && ts[i] != Char('/') ==> j > i && ts[i..j] != [] && ts[i..j][0] == ts[i]
    ensures i == |ts| || ts[i] == Char('/') ==> j == i && Literal(ts[i..j])
    ensures j < |ts| ==> ts[j] == Char('/')
  {
  }

  /** An empty segment adds nothing. */
  lemma EmptySegment(env: Env, path: string, ts: seq<Tok>, i: nat, j: nat)
    requires i <= |ts| && j == SegEnd(ts, i) && (i == |ts| || ts[i] == Char('/'))
    ensures Literal(ts[i..j]) && path + Chars(ts[i..j]) == path
  {
  }

  /** A name that starts with a dot the segment does not have. */
  lemma HiddenName(ts: seq<Tok>, i: nat, j: nat, name: string, globdot: bool)
    requires i < |ts| && ts[i] != Char('/') && ts[i] != Char('.') && j == SegEnd(ts, i)
    requires name != [] && name[0] == '.' && (!globdot || name == "." || name == "..")
    ensures !SegMatches(ts[i..j], name, globdot)
  {
    hide Matches;
    SegmentStarts(ts, i, j);
  }

  lemma OneAt(env: Env, path: string, name: string, ts: seq<Tok>, i: nat, j: nat)
    requires i < |ts| && ts[i] != Char('/') && j == SegEnd(ts, i)
    ensures SegLen(ts[i..]) > 0
    ensures Via(env, path, name, ts[i..])
         == if SegMatches(ts[i..j], name, env.globdot) then Paths(env, path + name, ts[j..]) else []
  {
    SegLenIs(ts, i);
  }

  lemma EachAt(env: Env, path: string, names: seq<string>, k: nat, ts: seq<Tok>)
    requires k < |names| && SegLen(ts) > 0
    ensures Each(env, path, names[k..], ts) == Via(env, path, names[k], ts) + Each(env, path, names[k + 1..], ts)
  {
    assert names[k..][1..] == names[k + 1..];
  }

  lemma EachEnds(env: Env, path: string, ts: seq<Tok>)
    requires SegLen(ts) > 0
    ensures Each(env, path, [], ts) == []
  {
  }

  lemma NothingMore(a: seq<string>, b: seq<string>, c: seq<string>)
    requires b + [] == a + c
    ensures b == a + c
  {
    assert b + [] == b;
  }

  lemma Regroup(a: seq<string>, b: seq<string>, c: seq<string>)
    ensures a + (b + c) == (a + b) + c
  {
  }

  lemma Listing(env: Env, d: string)
    requires ProperListings(env) && env.readdir(d).Some?
    ensures ProperList(env.readdir(d).value)
  {
  }

  lemma InSegment(pat: seq<Cell>, a: nat, b: nat, seg: seq<Tok>)
    requires a <= b < |pat| && pat[a..b] == Cells(seg) && SEP !in Cells(seg) && EOS !in Cells(seg)
    requires Literal(seg) ==> |Cells(seg)| == |seg| && forall k | 0 <= k < |seg| :: Cells(seg)[k] == Lit(seg[k].c)
    ensures forall k | a <= k < b ::
              pat[k] != SEP && pat[k] != EOS && (Literal(seg) ==> k - a < |seg| && pat[k] == Lit(seg[k - a].c))
  {
    assert forall k | a <= k < b :: pat[k] == Cells(seg)[k - a];
  }

  lemma SomeMeta(pat: seq<Cell>, a: nat, b: nat, cells: seq<Cell>)
    requires a <= b <= |pat| && pat[a..b] == cells
    ensures (exists k | a <= k < b :: IsMeta(pat[k])) <==> AnyMeta(cells)
  {
    if k :| a <= k < b && IsMeta(pat[k]) {
      assert cells[k - a] == pat[k];
    }
    if k :| 0 <= k < |cells| && IsMeta(cells[k]) {
      assert cells[k] == pat[a + k];
    }
  }
}
