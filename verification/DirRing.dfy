/** The directory stack (sh.dir.c): a circular list, linked both ways, with a head that is not a
    directory. Memory is a map from pointers to entries. */
module DirRing {
  type Ptr = nat

  /** &dhead */
  const HEAD: Ptr := 0

  datatype Directory = Directory(name: string, next: Ptr, prev: Ptr)

  type Memory = map<Ptr, Directory>

  // ---------------------------------------------------------------- the ring

  predicate Joined(m: Memory, a: Ptr, b: Ptr) {
    a in m && b in m && m[a].prev == b && m[b].next == a
  }

  /** Neighbours in o are joined. */
  predicate Chain(m: Memory, o: seq<Ptr>) {
    |o| <= 1 || (Joined(m, o[0], o[1]) && Chain(m, o[1..]))
  }

  predicate Distinct(m: Memory, o: seq<Ptr>) {
    (forall i | 0 <= i < |o| :: o[i] in m) && forall i, j | 0 <= i < j < |o| :: o[i] != o[j]
  }

  /** The entries in memory are those of o, in the order in which di_prev goes through them. */
  predicate Circular(m: Memory, o: seq<Ptr>) {
    o != [] && Distinct(m, o) && Chain(m, o) && Joined(m, o[|o| - 1], o[0])
  }

  lemma {:induction false} ChainAppend(m: Memory, a: seq<Ptr>, b: seq<Ptr>)
    requires a != [] && b != []
    ensures Chain(m, a + b) <==> Chain(m, a) && Chain(m, b) && Joined(m, a[|a| - 1], b[0])
  {
    assert (a + b)[1..] == a[1..] + b && (a + b)[0] == a[0];
    if |a| > 1 {
      ChainAppend(m, a[1..], b);
      assert (a + b)[1] == a[1];
    } else {
      assert a[1..] + b == b;
    }
  }

  lemma {:induction false} ChainSame(m: Memory, m': Memory, o: seq<Ptr>)
    requires Chain(m, o) && forall i | 0 <= i < |o| :: o[i] in m && o[i] in m'
    requires forall i | 0 <= i < |o| - 1 :: m'[o[i]].prev == m[o[i]].prev
    requires forall i | 0 < i < |o| :: m'[o[i]].next == m[o[i]].next
    ensures Chain(m', o)
  {
    if |o| > 1 {
      ChainSame(m, m', o[1..]);
    }
  }

  /** The names of the directories in o, without the head. */
  function Names(m: Memory, o: seq<Ptr>): seq<string> {
    if o == [] then [] else (if o[0] == HEAD || o[0] !in m then [] else [m[o[0]].name]) + Names(m, o[1..])
  }

  lemma {:induction false} NamesAppend(m: Memory, a: seq<Ptr>, b: seq<Ptr>)
    ensures Names(m, a + b) == Names(m, a) + Names(m, b)
  {
    if a == [] {
      assert a + b == b;
    } else {
      NamesAppend(m, a[1..], b);
      assert (a + b)[1..] == a[1..] + b && (a + b)[0] == a[0];
    }
  }

  lemma {:induction false} NamesSame(m: Memory, m': Memory, o: seq<Ptr>)
    requires forall i | 0 <= i < |o| :: o[i] in m && o[i] in m' && m[o[i]].name == m'[o[i]].name
    ensures Names(m, o) == Names(m', o)
  {
    if o != [] {
      NamesSame(m, m', o[1..]);
    }
  }

  /** One starting point of a ring is as good as another. */
  lemma Rotated(m: Memory, a: seq<Ptr>, b: seq<Ptr>)
    requires Circular(m, a + b)
    ensures Circular(m, b + a) && Names(m, b + a) == Names(m, b) + Names(m, a)
    ensures Names(m, a + b) == Names(m, a) + Names(m, b)
  {
    Apart(m, a, b);
    NamesAppend(m, a, b);
    NamesAppend(m, b, a);
    if a != [] && b != [] {
      ChainAppend(m, a, b);
      ChainAppend(m, b, a);
    } else {
      assert a + b == b + a;
    }
  }

  lemma Apart(m: Memory, a: seq<Ptr>, b: seq<Ptr>)
    ensures Distinct(m, a + b) ==>
              Distinct(m, a) && Distinct(m, b) && Distinct(m, b + a) && forall x | x in a :: x !in b
  {
    var o := a + b;
    if Distinct(m, o) {
      assert forall i | 0 <= i < |a| :: a[i] == o[i];
      assert forall i | 0 <= i < |b| :: b[i] == o[|a| + i];
    }
  }

  /** The two neighbours of an entry are joined past it. */
  function Unlinked(m: Memory, p: Ptr): Memory
    requires p in m && m[p].prev in m && m[p].next in m
  {
    var m1 := m[m[p].prev := m[m[p].prev].(next := m[p].next)];
    m1[m[p].next := m1[m[p].next].(prev := m[p].prev)]
  }

  lemma UnlinkCells(m: Memory, p: Ptr, b: seq<Ptr>)
    requires Distinct(m, b) && b != [] && p in m && p !in b && m[p].prev == b[0] && m[p].next == b[|b| - 1]
    ensures b[0] in m && b[|b| - 1] in m
    ensures var m' := Unlinked(m, p);
            && m'.Keys == m.Keys && m'[b[0]].next == b[|b| - 1] && m'[b[|b| - 1]].prev == b[0]
            && (forall i | 0 <= i < |b| - 1 :: m'[b[i]].prev == m[b[i]].prev)
            && (forall i | 0 < i < |b| :: m'[b[i]].next == m[b[i]].next)
            && (forall i | 0 <= i < |b| :: m'[b[i]].name == m[b[i]].name)
  {
  }

  lemma UnlinkFirst(m: Memory, p: Ptr, b: seq<Ptr>)
    requires Circular(m, [p] + b) && b != []
    ensures m[p].prev == b[0] && m[p].next == b[|b| - 1] && b[0] in m && b[|b| - 1] in m
    ensures Circular(Unlinked(m, p), b) && Names(Unlinked(m, p), b) == Names(m, b)
  {
    hide Names, Chain, Unlinked;
    Apart(m, [p], b);
    ChainAppend(m, [p], b);
    UnlinkCells(m, p, b);
    var m' := Unlinked(m, p);
    ChainSame(m, m', b);
    NamesSame(m, m', b);
  }

  /** An entry is taken out, wherever it is. */
  lemma UnlinkAt(m: Memory, a: seq<Ptr>, p: Ptr, b: seq<Ptr>)
    requires Circular(m, a + ([p] + b)) && a + b != []
    ensures p in m && m[p].prev in m && m[p].next in m
    ensures Circular(Unlinked(m, p), a + b) && Names(Unlinked(m, p), a + b) == Names(m, a) + Names(m, b)
  {
    hide Names, Unlinked, Circular;
    Rotated(m, a, [p] + b);
    assert ([p] + b) + a == [p] + (b + a);
    FirstIn(m, [p] + (b + a));
    UnlinkFirst(m, p, b + a);
    Rotated(Unlinked(m, p), b, a);
    NamesKept(m, p, a);
    NamesKept(m, p, b);
  }

  lemma FirstIn(m: Memory, o: seq<Ptr>)
    requires Circular(m, o)
    ensures o[0] in m
  {
  }

  lemma {:induction false} NamesKept(m: Memory, p: Ptr, o: seq<Ptr>)
    requires p in m && m[p].prev in m && m[p].next in m
    ensures Names(Unlinked(m, p), o) == Names(m, o)
  {
    if o != [] {
      NamesKept(m, p, o[1..]);
    }
  }

  /** A new entry between the first one and what di_next leads to from it. */
  function Linked(m: Memory, p: Ptr, cwd: Ptr): Memory
    requires p in m && cwd in m && m[cwd].next in m
  {
    var q := m[cwd].next;
    var m1 := m[p := m[p].(next := q, prev := cwd)];
    var m2 := m1[cwd := m1[cwd].(next := p)];
    m2[q := m2[q].(prev := p)]
  }

  lemma LinkFirst(m: Memory, o: seq<Ptr>, p: Ptr)
    requires Circular(m, o) && p in m && p !in o && p != HEAD
    ensures m[o[0]].next in m && Circular(Linked(m, p, o[0]), [p] + o)
    ensures Names(Linked(m, p, o[0]), [p] + o) == [m[p].name] + Names(m, o)
  {
    hide Names, Chain;
    var m' := Linked(m, p, o[0]);
    ChainSame(m, m', o);
    ChainOne(m', p);
    ChainAppend(m', [p], o);
    NamesSame(m, m', o);
    NamesFirst(m', p, o);
  }

  lemma ChainOne(m: Memory, p: Ptr)
    ensures Chain(m, [p])
  {
  }

  lemma NamesFirst(m: Memory, p: Ptr, o: seq<Ptr>)
    requires p in m && p != HEAD
    ensures Names(m, [p] + o) == [m[p].name] + Names(m, o)
  {
    assert ([p] + o)[1..] == o;
  }

  /** A new entry in the place of the first one. */
  function Replaced(m: Memory, p: Ptr, cwd: Ptr): Memory
    requires p in m && cwd in m && m[cwd].next in m && m[cwd].prev in m && p != m[cwd].prev
  {
    var m1 := m[p := m[p].(next := m[cwd].next, prev := m[cwd].prev)];
    var m2 := m1[m1[p].prev := m1[m1[p].prev].(next := p)];
    m2[m2[p].next := m2[m2[p].next].(prev := p)]
  }

  lemma ReplaceFirst(m: Memory, q: Ptr, b: seq<Ptr>, p: Ptr)
    requires Circular(m, [q] + b) && b != [] && p in m && p !in [q] + b && p != HEAD
    ensures q in m && m[q].next in m && m[q].prev in m && p != m[q].prev
    ensures Circular(Replaced(m, p, q), [p] + b)
    ensures Names(Replaced(m, p, q), [p] + b) == [m[p].name] + Names(m, b)
  {
    hide Names, Chain, Replaced;
    Apart(m, [q], b);
    ChainAppend(m, [q], b);
    assert forall i | 0 <= i < |b| :: b[i] == ([q] + b)[i + 1];
    ReplaceCells(m, q, b, p);
    var m' := Replaced(m, p, q);
    ChainSame(m, m', b);
    ChainOne(m', p);
    ChainAppend(m', [p], b);
    NamesSame(m, m', b);
    NamesFirst(m', p, b);
  }

  lemma ReplaceCells(m: Memory, q: Ptr, b: seq<Ptr>, p: Ptr)
    requires Distinct(m, b) && b != [] && q in m && q !in b && m[q].prev == b[0] && m[q].next == b[|b| - 1]
    requires p in m && p !in b && p != q
    ensures b[0] in m && b[|b| - 1] in m
    ensures var m' := Replaced(m, p, q);
            && m'.Keys == m.Keys && m'[b[0]].next == p && m'[b[|b| - 1]].prev == p
            && m'[p] == Directory(m[p].name, b[|b| - 1], b[0])
            && (forall i | 0 <= i < |b| - 1 :: m'[b[i]].prev == m[b[i]].prev)
            && (forall i | 0 < i < |b| :: m'[b[i]].next == m[b[i]].next)
            && (forall i | 0 <= i < |b| :: m'[b[i]].name == m[b[i]].name)
  {
  }
}
