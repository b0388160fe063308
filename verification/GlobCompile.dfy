/** The pattern compiler of glob (glob.c): quote protection, then tokens to cells in place. */
module GlobCompile {
  import opened GlobPattern
  import opened GlobMatch

  // ---------------------------------------------------------------- reading a pattern

  /** First pass: a quoted character is protected from being special. */
  function Protect(pattern: string, quote: bool): (r: seq<Cell>)
    ensures Source(r)
  {
    if pattern == [] then []
    else if quote && pattern[0] == '\\' then
      if |pattern| == 1 then [Prot('\\')] else [Prot(pattern[1])] + Protect(pattern[2..], quote)
    else [Lit(pattern[0])] + Protect(pattern[1..], quote)
  }

  predicate Source(raw: seq<Cell>) {
    forall i | 0 <= i < |raw| :: raw[i].Lit? || raw[i].Prot?
  }

  /** There is a closing bracket after the first cell. */
  predicate Closable(b: seq<Cell>) {
    exists i | 1 <= i < |b| :: b[i] == Lit(']')
  }

  function LChar(c: Cell): char
    requires c.Lit? || c.Prot?
  {
    if c.Lit? then c.c else c.p
  }

  /** The item at the start of a bracket's list, and how many cells it takes. */
  function FirstItem(b: seq<Cell>): (r: (Item, nat))
    requires Source(b) && Closable(b)
    ensures 1 <= r.1 < |b| && |ItemCells(r.0)| == r.1
    ensures b[r.1] == Lit(']') || Closable(b[r.1..])
  {
    ghost var i :| 1 <= i < |b| && b[i] == Lit(']');
    if b[1] == Lit('-') && b[2] != Lit(']')
    then assert i == 3 || b[3..][i - 3] == Lit(']'); (Span(LChar(b[0]), LChar(b[2])), 3)
    else assert i == 1 || b[1..][i - 1] == Lit(']'); (Single(LChar(b[0])), 1)
  }

  /** The items of a bracket up to the closing one, and how many cells they take; the first
      character is an item even if it is a bracket. */
  function Items(b: seq<Cell>): (r: (seq<Item>, nat))
    requires Source(b) && Closable(b)
    ensures 1 <= r.1 < |b| && b[r.1] == Lit(']') && |ItemsCells(r.0)| == r.1
    decreases |b|
  {
    var (it, n) := FirstItem(b);
    if b[n] == Lit(']') then ([it], n)
    else
      var (its, m) := Items(b[n..]);
      ([it] + its, n + m)
  }

  /** Whether raw, which starts with a bracket, has a complete bracket expression there. */
  predicate Closed(raw: seq<Cell>, not: char)
    requires raw != []
  {
    var b := Inside(raw, not);
    Closable(b)
  }

  predicate Negated(raw: seq<Cell>, not: char) {
    |raw| > 1 && raw[1] == Lit(not)
  }

  function Inside(raw: seq<Cell>, not: char): seq<Cell>
    requires raw != []
  {
    if Negated(raw, not) then raw[2..] else raw[1..]
  }

  /** The first token of a pattern, and how many cells it takes. */
  function FirstTok(raw: seq<Cell>, not: char): (r: (Tok, nat))
    requires raw != [] && Source(raw)
    ensures 1 <= r.1 <= |raw| && |TokCells(r.0)| <= r.1
  {
    if raw[0] == Lit('[') && Closed(raw, not) then
      var (its, n) := Items(Inside(raw, not));
      (Bracket(Negated(raw, not), its), n + if Negated(raw, not) then 3 else 2)
    else if raw[0] == Lit('?') then (Any, 1)
    else if raw[0] == Lit('*') then (Star, 1)
    else (Char(LChar(raw[0])), 1)
  }

  /** The token at position q. */
  function TokAt(raw: seq<Cell>, q: nat, not: char): (r: (Tok, nat))
    requires Source(raw) && q < |raw|
    ensures 1 <= r.1 <= |raw| - q
  {
    FirstTok(raw[q..], not)
  }

  /** The tokens of a pattern from position q on. */
  function ParseFrom(raw: seq<Cell>, q: nat, not: char): seq<Tok>
    requires Source(raw) && q <= |raw|
    decreases |raw| - q
  {
    if q == |raw| then [] else var (t, n) := TokAt(raw, q, not); [t] + ParseFrom(raw, q + n, not)
  }

  /** The tokens of a pattern. */
  function Parse(raw: seq<Cell>, not: char): seq<Tok>
    requires Source(raw)
  {
    ParseFrom(raw, 0, not)
  }

  /** No token stands for the end mark, alone or in a bracket. */
  predicate NoEnd(t: Tok) {
    (t.Char? ==> t.c != '\0') && (t.Bracket? ==> forall k | 0 <= k < |t.items| :: ItemNoEnd(t.items[k]))
  }

  predicate ItemNoEnd(it: Item) {
    match it
    case Single(c) => c != '\0'
    case Span(lo, hi) => lo != '\0' && hi != '\0'
  }

  predicate Written(raw: seq<Cell>) {
    Source(raw) && forall k | 0 <= k < |raw| :: LChar(raw[k]) != '\0'
  }

  lemma {:induction false} ProtectWritten(pattern: string, quote: bool)
    requires '\0' !in pattern
    ensures Written(Protect(pattern, quote))
  {
    if pattern != [] && quote && pattern[0] == '\\' {
      if |pattern| > 1 {
        ProtectWritten(pattern[2..], quote);
      }
    } else if pattern != [] {
      ProtectWritten(pattern[1..], quote);
    }
  }

  lemma {:induction false} ItemsNoEnd(b: seq<Cell>)
    requires Written(b) && Closable(b)
    ensures var its := Items(b).0; forall k | 0 <= k < |its| :: ItemNoEnd(its[k])
    decreases |b|
  {
    hide ItemNoEnd, FirstItem, Items;
    var (it, n) := FirstItem(b);
    FirstItemNoEnd(b);
    ItemsUnfold(b);
    if b[n] != Lit(']') {
      WrittenFrom(b, n);
      ItemsNoEnd(b[n..]);
      var rest := Items(b[n..]).0;
      forall k | 0 <= k < 1 + |rest| ensures ItemNoEnd(([it] + rest)[k]) {
        if k > 0 {
          assert ([it] + rest)[k] == rest[k - 1];
        }
      }
    } else {
      forall k | 0 <= k < 1 ensures ItemNoEnd([it][k]) {
      }
    }
  }

  lemma FirstItemNoEnd(b: seq<Cell>)
    requires Written(b) && Closable(b)
    ensures ItemNoEnd(FirstItem(b).0) && 1 <= FirstItem(b).1 < |b|
  {
  }

  lemma WrittenFrom(b: seq<Cell>, n: nat)
    requires Written(b) && n <= |b|
    ensures Written(b[n..])
  {
  }

  lemma FirstTokNoEnd(raw: seq<Cell>, not: char)
    requires raw != [] && Written(raw)
    ensures NoEnd(FirstTok(raw, not).0)
  {
    hide Items, ItemNoEnd;
    if raw[0] == Lit('[') && Closed(raw, not) {
      var b := Inside(raw, not);
      ItemsNoEnd(b);
      var t := FirstTok(raw, not).0;
      assert t.items == Items(b).0;
    }
  }

  lemma {:induction false} ParseNoEnd(raw: seq<Cell>, q: nat, not: char)
    requires Written(raw) && q <= |raw|
    ensures forall t <- ParseFrom(raw, q, not) :: NoEnd(t)
    decreases |raw| - q
  {
    hide NoEnd, FirstTok;
    if q < |raw| {
      FirstTokNoEnd(raw[q..], not);
      ParseNoEnd(raw, q + TokAt(raw, q, not).1, not);
    }
  }

  // ---------------------------------------------------------------- writing the cells

  const EOS := Lit('\0')

  /** The buffer holds raw from q on, then the end mark. */
  ghost predicate Unread(buf: array<Cell>, raw: seq<Cell>, q: nat)
    reads buf
  {
    && |raw| < buf.Length && q <= |raw| && buf[|raw|] == EOS
    && (forall k | 0 <= k < |raw| :: raw[k] != EOS) && Source(raw)
    && forall k | q <= k < |raw| :: buf[k] == raw[k]
  }

  /** The cell for the character at p, and the position after it. */
  function ProtectAt(pattern: string, p: nat, quote: bool): (Cell, nat)
    requires p < |pattern|
  {
    if quote && pattern[p] == '\\' then
      if p + 1 < |pattern| then (Prot(pattern[p + 1]), p + 2) else (Prot('\\'), p + 1)
    else (Lit(pattern[p]), p + 1)
  }

  lemma ProtectStep(pattern: string, p: nat, quote: bool)
    requires p < |pattern|
    ensures ProtectAt(pattern, p, quote).1 <= |pattern|
    ensures Protect(pattern[p..], quote) == [ProtectAt(pattern, p, quote).0] +
              Protect(pattern[ProtectAt(pattern, p, quote).1..], quote)
  {
    assert pattern[p..][1..] == pattern[p + 1..];
    if p + 1 < |pattern| {
      assert pattern[p..][1] == pattern[p + 1] && pattern[p..][2..] == pattern[p + 2..];
    } else {
      assert pattern[p + 1..] == [];
    }
  }

  lemma ProtectEnds(pattern: string, quote: bool)
    ensures pattern[0..] == pattern && Protect(pattern[|pattern|..], quote) == []
  {
  }

  lemma PrefixGrows(a: seq<Cell>, c: Cell, b: seq<Cell>)
    ensures a + ([c] + b) == (a + [c]) + b
  {
  }

  /** The cell for the character that is read, and for a quoted one the cell for the character behind it. */
  method NextProtected(pattern: string, p0: nat, quote: bool) returns (cell: Cell, p: nat)
    requires p0 < |pattern|
    ensures (cell, p) == ProtectAt(pattern, p0, quote)
  {
    var c := pattern[p0];
    p := p0 + 1;
    if quote && c == '\\' {
      if p < |pattern| {
        c := pattern[p];
        p := p + 1;
      }
      cell := Prot(c);
    } else {
      cell := Lit(c);
    }
  }

  /** *bufnext++ = c, in the first pass. */
  method Put(buf: array<Cell>, b: nat, c: Cell)
    requires b < buf.Length
    modifies buf
    ensures buf[..b + 1] == old(buf[..b]) + [c] && buf[b + 1..] == old(buf[b + 1..])
  {
    buf[b] := c;
  }

  lemma ProtectAtNoEnd(pattern: string, p: nat, quote: bool)
    requires p < |pattern| && forall k | 0 <= k < |pattern| :: pattern[k] != '\0'
    ensures ProtectAt(pattern, p, quote).0 != EOS && p < ProtectAt(pattern, p, quote).1 <= |pattern|
  {
  }

  /** The first pass of glob. */
  method ProtectQuoted(pattern: string, quote: bool) returns (buf: array<Cell>)
    requires forall k | 0 <= k < |pattern| :: pattern[k] != '\0'
    ensures fresh(buf) && Unread(buf, Protect(pattern, quote), 0)
  {
    hide Protect, Source, ProtectAt;
    buf := new Cell[|pattern| + 1](_ => EOS);
    var p, b := 0, 0;
    ghost var done: seq<Cell> := [];
    ProtectEnds(pattern, quote);
    while p < |pattern|
      invariant b <= p <= |pattern| && buf[..b] == done
      invariant EOS !in done
      invariant Protect(pattern, quote) == done + Protect(pattern[p..], quote)
    {
      ProtectStep(pattern, p, quote);
      ProtectAtNoEnd(pattern, p, quote);
      PrefixGrows(done, ProtectAt(pattern, p, quote).0, Protect(pattern[ProtectAt(pattern, p, quote).1..], quote));
      var c;
      c, p := NextProtected(pattern, p, quote);
      Put(buf, b, c);
      done := done + [c];
      b := b + 1;
    }
    assert done + [] == done;
    buf[b] := EOS;
    Unreads(buf, b, done);
  }

  lemma Unreads(buf: array<Cell>, b: nat, raw: seq<Cell>)
    requires b < buf.Length && buf[..b] == raw && buf[b] == EOS && EOS !in raw && Source(raw)
    ensures Unread(buf, raw, 0)
  {
    hide Source;
  }

  /** Strchr on the unread part. */
  method HasCloser(buf: array<Cell>, from: nat, ghost raw: seq<Cell>) returns (r: bool)
    requires Unread(buf, raw, from)
    ensures r <==> exists k | from <= k < |raw| :: raw[k] == Lit(']')
  {
    var k := from;
    while true
      invariant from <= k <= |raw| && forall i | from <= i < k :: raw[i] != Lit(']')
      decreases |raw| - k
    {
      if buf[k] == Lit(']') {
        return true;
      }
      if buf[k] == EOS {
        return false;
      }
      k := k + 1;
    }
  }

  /** *bufnext++ = c, over a cell that has been read. */
  method Emit(buf: array<Cell>, b: nat, c: Cell, ghost raw: seq<Cell>, ghost q: nat)
    requires Unread(buf, raw, q) && b < q
    modifies buf
    ensures Unread(buf, raw, q) && buf[..b + 1] == old(buf[..b]) + [c]
  {
    buf[b] := c;
  }

  /** One item of a bracket's list: its cells go where it was or before. */
  method CompileItem(buf: array<Cell>, b0: nat, q0: nat, ghost raw: seq<Cell>) returns (b: nat, q: nat)
    requires Unread(buf, raw, q0) && b0 <= q0 < |raw| && Closable(raw[q0..])
    modifies buf
    ensures q == q0 + FirstItem(raw[q0..]).1 && b == b0 + FirstItem(raw[q0..]).1
    ensures Unread(buf, raw, q)
    ensures buf[..b] == old(buf[..b0]) + ItemCells(FirstItem(raw[q0..]).0)
  {
    ghost var rest := raw[q0..];
    assert rest[0] == raw[q0] && rest[1] == raw[q0 + 1] && (|rest| > 2 ==> rest[2] == raw[q0 + 2]);
    ghost var it, n := FirstItem(rest).0, FirstItem(rest).1;
    assert it == (if n == 3 then Span(LChar(rest[0]), LChar(rest[2])) else Single(LChar(rest[0])));
    assert n == 3 <==> rest[1] == Lit('-') && rest[2] != Lit(']');
    hide FirstItem;
    b, q := b0, q0;
    var c := buf[q];
    q := q + 1;
    var range := buf[q] == Lit('-') && buf[q + 1] != Lit(']');
    assert range <==> n == 3;
    var c2 := if range then buf[q + 1] else c;
    Emit(buf, b, Lit(LChar(c)), raw, q);
    b := b + 1;
    if range {
      q := q + 2;
      Emit(buf, b, Rng, raw, q);
      Emit(buf, b + 1, Lit(LChar(c2)), raw, q);
      b := b + 2;
    }
  }

  lemma ItemsUnfold(b: seq<Cell>)
    requires Source(b) && Closable(b)
    ensures var (it, n) := FirstItem(b);
            if b[n] == Lit(']') then Items(b) == ([it], n)
            else Closable(b[n..]) && Source(b[n..])
                 && Items(b) == ([it] + Items(b[n..]).0, n + Items(b[n..]).1)
  {
  }

  /** The list of a bracket: on entry q is at the first item and b is where to write. */
  method CompileItems(buf: array<Cell>, b0: nat, q0: nat, ghost raw: seq<Cell>) returns (b: nat, q: nat)
    requires Unread(buf, raw, q0) && b0 <= q0 < |raw| && Closable(raw[q0..])
    modifies buf
    ensures Unread(buf, raw, q) && b <= q < |raw| && q == q0 + Items(raw[q0..]).1
    ensures b == b0 + Items(raw[q0..]).1
    ensures buf[..b] == old(buf[..b0]) + ItemsCells(Items(raw[q0..]).0)
  {
    hide FirstItem, Items, ItemCells, ItemsCells, Closable;
    b, q := b0, q0;
    ghost var done: seq<Item>, all, len, pre := [], Items(raw[q0..]).0, Items(raw[q0..]).1, buf[..b0];
    ghost var out := pre;
    ItemsCellsEmpty();
    while true
      invariant Unread(buf, raw, q) && b0 <= b <= q < |raw| && Closable(raw[q..])
      invariant buf[..b] == out && out == pre + ItemsCells(done) && b - b0 == q - q0
      invariant all == done + Items(raw[q..]).0 && len == q - q0 + Items(raw[q..]).1
      decreases |raw| - q
    {
      ghost var rest, q1 := raw[q..], q;
      ghost var it := FirstItem(rest).0;
      ItemsUnfold(rest);
      Appended(pre, ItemsCells(done), ItemCells(it));
      ItemsCellsAppend(done, it);
      b, q := CompileItem(buf, b, q, raw);
      out, done := out + ItemCells(it), done + [it];
      assert raw[q..] == rest[q - q1..] && raw[q] == rest[q - q1];
      if buf[q] == Lit(']') {
        break;
      }
    }
  }

  lemma Appended(a: seq<Cell>, b: seq<Cell>, c: seq<Cell>)
    ensures (a + b) + c == a + (b + c)
  {
  }

  lemma ItemsCellsEmpty()
    ensures ItemsCells([]) == []
  {
  }

  lemma ItemsCellsAppend(items: seq<Item>, it: Item)
    ensures ItemsCells(items + [it]) == ItemsCells(items) + ItemCells(it)
  {
    if items == [] {
      assert items + [it] == [it] && [it][1..] == [];
    } else {
      ItemsCellsAppend(items[1..], it);
      assert (items + [it])[1..] == items[1..] + [it];
    }
  }

  lemma BracketText(pre: seq<Cell>, neg: bool, its: seq<Item>)
    ensures pre + TokCells(Bracket(neg, its))
         == (pre + [Set] + (if neg then [Not] else []) + ItemsCells(its)) + [End]
  {
    hide ItemsCells;
  }

  method CompileBracket(buf: array<Cell>, b0: nat, q0: nat, negated: bool, ghost raw: seq<Cell>)
    returns (b: nat, q: nat)
    requires Unread(buf, raw, q0) && b0 + (if negated then 2 else 1) <= q0 < |raw|
    requires Closable(raw[q0..])
    modifies buf
    ensures Unread(buf, raw, q) && b0 <= b <= q && q == q0 + Items(raw[q0..]).1 + 1
    ensures buf[..b] == old(buf[..b0]) + TokCells(Bracket(negated, Items(raw[q0..]).0))
  {
    hide Items, ItemsCells, TokCells;
    BracketText(buf[..b0], negated, Items(raw[q0..]).0);
    b, q := b0, q0;
    Emit(buf, b, Set, raw, q);
    b := b + 1;
    if negated {
      Emit(buf, b, Not, raw, q);
      b := b + 1;
    }
    b, q := CompileItems(buf, b, q, raw);
    q := q + 1;
    Emit(buf, b, End, raw, q);
    b := b + 1;
  }

  /** The bracket at q0, in terms of positions in raw. */
  lemma InsideIs(raw: seq<Cell>, q0: nat, not: char)
    requires q0 < |raw|
    ensures Negated(raw[q0..], not) <==> q0 + 1 < |raw| && raw[q0 + 1] == Lit(not)
    ensures var q := if Negated(raw[q0..], not) then q0 + 2 else q0 + 1;
            && Inside(raw[q0..], not) == raw[q..]
            && (Closed(raw[q0..], not) <==> exists k | q + 1 <= k < |raw| :: raw[k] == Lit(']'))
  {
    var rest := raw[q0..];
    assert |rest| > 1 ==> rest[1] == raw[q0 + 1];
    assert rest[1..] == raw[q0 + 1..] && (|rest| > 1 ==> rest[2..] == raw[q0 + 2..]);
    var q := if Negated(rest, not) then q0 + 2 else q0 + 1;
    if k :| q + 1 <= k < |raw| && raw[k] == Lit(']') {
      assert raw[q..][k - q] == Lit(']');
    }
  }

  /** The token at q, in terms of positions in raw. */
  lemma TokAtIs(raw: seq<Cell>, q0: nat, not: char)
    requires q0 < |raw| && Source(raw)
    ensures var negated := q0 + 1 < |raw| && raw[q0 + 1] == Lit(not);
            var q, t, c := if negated then q0 + 2 else q0 + 1, TokAt(raw, q0, not), raw[q0];
            if c == Lit('[') && exists k | q + 1 <= k < |raw| :: raw[k] == Lit(']')
            then Closable(raw[q..]) && t == (Bracket(negated, Items(raw[q..]).0), q - q0 + Items(raw[q..]).1 + 1)
            else t == (if c == Lit('?') then Any else if c == Lit('*') then Star else Char(LChar(c)), 1)
  {
    hide Inside, Negated, Closable, Items;
    InsideIs(raw, q0, not);
    assert raw[q0..][0] == raw[q0];
  }

  lemma SimpleCells()
    ensures TokCells(Star) == [All] && TokCells(Any) == [One] && forall c :: TokCells(Char(c)) == [Lit(c)]
  {
  }

  /** A bracket, or one of the other characters but a star. */
  method CompileTok(buf: array<Cell>, b0: nat, q0: nat, not: char, ghost raw: seq<Cell>)
    returns (b: nat, q: nat)
    requires Unread(buf, raw, q0) && b0 <= q0 < |raw| && raw[q0] != Lit('*') && not != '\0'
    modifies buf
    ensures q == q0 + TokAt(raw, q0, not).1 && b0 <= b <= q && Unread(buf, raw, q)
    ensures buf[..b] == old(buf[..b0]) + TokCells(TokAt(raw, q0, not).0)
  {
    hide TokAt, Inside, Closed, Closable, Negated, Items, ItemsCells, TokCells;
    TokAtIs(raw, q0, not);
    SimpleCells();
    b, q := b0, q0;
    var c := buf[q];
    q := q + 1;
    if c == Lit('[') {
      var negated := buf[q] == Lit(not);
      if negated {
        q := q + 1;
      }
      var closer := false;
      if buf[q] != EOS {
        closer := HasCloser(buf, q + 1, raw);
      }
      if closer {
        b, q := CompileBracket(buf, b, q, negated, raw);
      } else {
        q := q0 + 1;
        Emit(buf, b, Lit('['), raw, q);
        b := b + 1;
      }
    } else {
      Emit(buf, b, if c == Lit('?') then One else Lit(LChar(c)), raw, q);
      b := b + 1;
    }
  }

  // ---------------------------------------------------------------- the whole pattern

  predicate EndsInStar(ts: seq<Tok>) { ts != [] && ts[|ts| - 1] == Star }

  lemma {:induction false} CollapseAppend(ts: seq<Tok>, t: Tok)
    ensures Collapse(ts + [t]) == if t == Star && EndsInStar(ts) then Collapse(ts) else Collapse(ts) + [t]
    ensures EndsInStar(Collapse(ts)) <==> EndsInStar(ts)
  {
    hide Collapse, EndsInStar;
    CollapseOne(t);
    if ts == [] {
      CollapseNone();
      LastOf(t, []);
      assert ts + [t] == [t] && Collapse(ts) + [t] == [t];
    } else {
      var a, rest := ts[0], ts[1..];
      assert ts == [a] + rest;
      LastOf(a, rest);
      if rest == [] {
        assert ts + [t] == [a] + [t] && ts == [a];
        CollapseMore(a, [t]);
        CollapseOne(a);
      } else {
        CollapseAppend(rest, t);
        CollapseAround(a, rest, t);
      }
    }
  }

  lemma LastOf(a: Tok, rest: seq<Tok>)
    ensures !EndsInStar([])
    ensures EndsInStar([a] + rest) <==> if rest == [] then a == Star else EndsInStar(rest)
  {
  }

  lemma CollapseAround(a: Tok, rest: seq<Tok>, t: Tok)
    requires rest != []
    requires EndsInStar(Collapse(rest)) <==> EndsInStar(rest)
    ensures var star := a == Star && rest[0] == Star;
            && Collapse([a] + rest + [t]) == (if star then [] else [a]) + Collapse(rest + [t])
            && Collapse([a] + rest) == (if star then [] else [a]) + Collapse(rest)
    ensures EndsInStar(Collapse([a] + rest)) <==> EndsInStar(rest)
  {
    hide Collapse, EndsInStar;
    assert [a] + rest + [t] == [a] + (rest + [t]) && (rest + [t])[0] == rest[0];
    CollapseMore(a, rest + [t]);
    CollapseMore(a, rest);
    CollapseSome(rest);
    LastOf(a, Collapse(rest));
  }

  lemma CollapseNone()
    ensures Collapse([]) == []
  {
  }

  lemma CollapseOne(t: Tok)
    ensures Collapse([t]) == [t]
  {
    assert [t][1..] == [];
  }

  lemma CollapseSome(ts: seq<Tok>)
    requires ts != []
    ensures Collapse(ts) != []
  {
  }

  lemma CollapseMore(a: Tok, rest: seq<Tok>)
    requires rest != []
    ensures Collapse([a] + rest) == if a == Star && rest[0] == Star then Collapse(rest) else [a] + Collapse(rest)
  {
    assert ([a] + rest)[1..] == rest && ([a] + rest)[1] == rest[0];
  }

  lemma CellsAppend(ts: seq<Tok>, t: Tok)
    ensures Cells(ts + [t]) == Cells(ts) + TokCells(t)
  {
    CellsSplit(ts + [t], |ts|);
    assert (ts + [t])[..|ts|] == ts && (ts + [t])[|ts|..] == [t];
    CellsHead([t]);
  }

  lemma CellsEnd(ts: seq<Tok>)
    ensures var out := Cells(ts); out != [] && out[|out| - 1] == All <==> EndsInStar(ts)
  {
    if ts != [] {
      var t := ts[|ts| - 1];
      assert ts == ts[..|ts| - 1] + [t];
      CellsAppend(ts[..|ts| - 1], t);
      LastCell(t);
      hide Cells, TokCells;
      assert Cells(ts)[|Cells(ts)| - 1] == TokCells(t)[|TokCells(t)| - 1];
    }
  }

  lemma LastCell(t: Tok)
    ensures TokCells(t)[|TokCells(t)| - 1] == All <==> t == Star
  {
  }

  lemma CellsGrow(done: seq<Tok>, t: Tok)
    ensures var out := Cells(Collapse(done));
            Cells(Collapse(done + [t])) ==
            if t == Star && out != [] && out[|out| - 1] == All then out else out + TokCells(t)
  {
    hide Cells, Collapse, TokCells;
    CollapseAppend(done, t);
    CellsAppend(Collapse(done), t);
    CellsEnd(Collapse(done));
  }

  /** The tokens before position q are done. */
  ghost predicate Parsed(raw: seq<Cell>, q: nat, not: char, done: seq<Tok>) {
    Source(raw) && q <= |raw| && Parse(raw, not) == done + ParseFrom(raw, q, not)
  }

  lemma ParsedNone(raw: seq<Cell>, not: char)
    requires Source(raw)
    ensures Parsed(raw, 0, not, []) && Cells(Collapse([])) == []
  {
  }

  lemma ParsedOne(raw: seq<Cell>, q: nat, not: char, done: seq<Tok>)
    requires Parsed(raw, q, not, done) && q < |raw|
    ensures Parsed(raw, q + TokAt(raw, q, not).1, not, done + [TokAt(raw, q, not).0])
  {
  }

  lemma ParsedAll(raw: seq<Cell>, not: char, done: seq<Tok>)
    requires Parsed(raw, |raw|, not, done)
    ensures done == Parse(raw, not)
  {
  }

  lemma StarTok(raw: seq<Cell>, q: nat, not: char)
    requires Source(raw) && q < |raw|
    ensures raw[q] == Lit('*') ==> TokAt(raw, q, not) == (Star, 1)
    ensures raw[q] != Lit('*') ==> TokAt(raw, q, not).0 != Star
  {
    TokAtIs(raw, q, not);
  }

  /** One round of the second pass, for a pattern that is read up to q. */
  method CompileStep(buf: array<Cell>, b0: nat, q0: nat, not: char, ghost raw: seq<Cell>, ghost done: seq<Tok>)
    returns (b: nat, q: nat)
    requires Unread(buf, raw, q0) && b0 <= q0 < |raw| && not != '\0'
    requires buf[..b0] == Cells(Collapse(done))
    modifies buf
    ensures Unread(buf, raw, q) && b <= q && q == q0 + TokAt(raw, q0, not).1
    ensures buf[..b] == Cells(Collapse(done + [TokAt(raw, q0, not).0]))
  {
    hide TokAt, Collapse, Cells, TokCells, Closed, Items, Negated, LChar;
    ghost var t := TokAt(raw, q0, not).0;
    StarTok(raw, q0, not);
    SimpleCells();
    CellsGrow(done, t);
    b, q := b0, q0;
    if buf[q] == Lit('*') {
      q := q + 1;
      if b == 0 || buf[b - 1] != All {
        Emit(buf, b, All, raw, q);
        b := b + 1;
      }
    } else {
      b, q := CompileTok(buf, b, q, not, raw);
    }
  }

  /** The second pass of glob: the buffer holds a pattern with quoted characters protected;
      afterwards it holds the cells of its tokens, runs of stars reduced. */
  method Compile(buf: array<Cell>, not: char, ghost raw: seq<Cell>) returns (b: nat)
    requires Unread(buf, raw, 0) && not != '\0'
    modifies buf
    ensures b <= |raw| && buf[..b] == Cells(Collapse(Parse(raw, not))) && buf[b] == EOS
  {
    hide *;
    b := 0;
    var q := 0;
    ghost var done: seq<Tok> := [];
    UnreadHere(buf, raw, q);
    ParsedNone(raw, not);
    while buf[q] != EOS
      invariant Unread(buf, raw, q) && b <= q <= |raw| < buf.Length && (buf[q] == EOS <==> q == |raw|)
      invariant buf[..b] == Cells(Collapse(done)) && Parsed(raw, q, not, done)
      decreases |raw| - q
    {
      ParsedOne(raw, q, not, done);
      ghost var t := TokAt(raw, q, not).0;
      b, q := CompileStep(buf, b, q, not, raw, done);
      done := done + [t];
      UnreadHere(buf, raw, q);
    }
    ParsedAll(raw, not, done);
    buf[b] := EOS;
  }

  lemma UnreadHere(buf: array<Cell>, raw: seq<Cell>, q: nat)
    requires Unread(buf, raw, q)
    ensures Source(raw) && q <= |raw| < buf.Length && (buf[q] == EOS <==> q == |raw|)
  {
  }
}
