/** The extended-key map as linked nodes (ed.xmap.c). Memory is a map from pointers to nodes, so
    that updates in place, pointers to pointers and freed nodes are all in view. */
module Xmap {
  import opened Basics
  import opened XkeyMap

  type Ptr = nat

  const NULL: Ptr := 0

  datatype Cell = Cell(ch: char, b: Binding, next: Ptr, sibling: Ptr)

  type Memory = map<Ptr, Cell>

  // ---------------------------------------------------------------- nodes in memory

  /** The nodes that p leads to are those of f, each of them once. */
  ghost predicate Rep(m: Memory, p: Ptr, f: Forest)
    decreases f
  {
    if f.Nil? then p == NULL
    else
      && p != NULL && p in m && m[p].ch == f.ch && m[p].b == f.b
      && Rep(m, m[p].next, f.next) && Rep(m, m[p].sibling, f.sibling)
      && p !in Nodes(m, m[p].next, f.next) && p !in Nodes(m, m[p].sibling, f.sibling)
      && Nodes(m, m[p].next, f.next) !! Nodes(m, m[p].sibling, f.sibling)
  }

  ghost function Nodes(m: Memory, p: Ptr, f: Forest): set<Ptr>
    decreases f
  {
    if f.Nil? || p !in m then {} else {p} + Nodes(m, m[p].next, f.next) + Nodes(m, m[p].sibling, f.sibling)
  }

  lemma {:induction false} NodesInMemory(m: Memory, p: Ptr, f: Forest)
    requires Rep(m, p, f)
    ensures Nodes(m, p, f) <= m.Keys
    ensures NULL !in Nodes(m, p, f)
    decreases f
  {
    if f.Node? {
      NodesInMemory(m, m[p].next, f.next);
      NodesInMemory(m, m[p].sibling, f.sibling);
    }
  }

  /** Nodes that are not touched stay what they are. */
  lemma {:induction false} Frame(m: Memory, m': Memory, p: Ptr, f: Forest)
    requires Rep(m, p, f) && forall x | x in Nodes(m, p, f) :: x in m && x in m' && m'[x] == m[x]
    ensures Rep(m', p, f) && Nodes(m', p, f) == Nodes(m, p, f)
    decreases f
  {
    if f.Node? {
      assert p in Nodes(m, p, f);
      Frame(m, m', m[p].next, f.next);
      Frame(m, m', m[p].sibling, f.sibling);
    }
  }

  /** From m to m' the nodes of f at p have become those of g at q. Every other node is as it was;
      no node is lost, and none is freed that is still in use. */
  ghost predicate Changed(m: Memory, m': Memory, p: Ptr, f: Forest, q: Ptr, g: Forest) {
    && Rep(m, p, f) && Rep(m', q, g)
    && (forall x | x in m && x !in Nodes(m, p, f) :: x in m' && m'[x] == m[x])
    && m'.Keys == (m.Keys - Nodes(m, p, f)) + Nodes(m', q, g)
    && Nodes(m', q, g) !! (m.Keys - Nodes(m, p, f))
  }

  lemma Unchanged(m: Memory, p: Ptr, f: Forest)
    requires Rep(m, p, f)
    ensures Changed(m, m, p, f, p, f)
  {
    NodesInMemory(m, p, f);
  }

  lemma ChangedTwice(a: Memory, b: Memory, c: Memory, p: Ptr, f: Forest, q: Ptr, g: Forest, r: Ptr, h: Forest)
    requires Changed(a, b, p, f, q, g) && Changed(b, c, q, g, r, h)
    ensures Changed(a, c, p, f, r, h)
  {
  }

  lemma NodeIs(m: Memory, p: Ptr, f: Forest)
    requires Rep(m, p, f) && f.Node?
    ensures p in m && m[p].ch == f.ch && m[p].b == f.b && p != NULL
    ensures Rep(m, m[p].next, f.next) && Rep(m, m[p].sibling, f.sibling)
    ensures var a, b := Nodes(m, m[p].next, f.next), Nodes(m, m[p].sibling, f.sibling);
            && Nodes(m, p, f) == {p} + a + b && p !in a && p !in b && a !! b && a <= m.Keys && b <= m.Keys
  {
    NodesInMemory(m, m[p].next, f.next);
    NodesInMemory(m, m[p].sibling, f.sibling);
  }

  lemma MakeNode(m: Memory, p: Ptr, f: Forest)
    requires f.Node? && p in m && p != NULL && m[p].ch == f.ch && m[p].b == f.b
    requires Rep(m, m[p].next, f.next) && Rep(m, m[p].sibling, f.sibling)
    requires var a, b := Nodes(m, m[p].next, f.next), Nodes(m, m[p].sibling, f.sibling);
             p !in a && p !in b && a !! b
    ensures Rep(m, p, f)
    ensures Nodes(m, p, f) == {p} + Nodes(m, m[p].next, f.next) + Nodes(m, m[p].sibling, f.sibling)
  {
  }

  /** A change below a node, or after it, as a change of the node's forest. */
  lemma ChangedBelow(m: Memory, m': Memory, p: Ptr, f: Forest, q: Ptr, g: Forest, b: Binding)
    requires Rep(m, p, f) && f.Node? && Changed(m, m', m[p].next, f.next, q, g)
    ensures Changed(m, m'[p := m[p].(next := q, b := b)], p, f, p, f.(next := g, b := b))
  {
    hide Rep, Nodes;
    NodeIs(m, p, f);
    var m'' := m'[p := m[p].(next := q, b := b)];
    assert p in m.Keys - Nodes(m, m[p].next, f.next);
    Frame(m, m'', m[p].sibling, f.sibling);
    NodesInMemory(m', q, g);
    Frame(m', m'', q, g);
    MakeNode(m'', p, f.(next := g, b := b));
  }

  lemma ChangedAfter(m: Memory, m': Memory, p: Ptr, f: Forest, q: Ptr, g: Forest)
    requires Rep(m, p, f) && f.Node? && Changed(m, m', m[p].sibling, f.sibling, q, g)
    ensures Changed(m, m'[p := m[p].(sibling := q)], p, f, p, f.(sibling := g))
  {
    hide Rep, Nodes;
    NodeIs(m, p, f);
    var m'' := m'[p := m[p].(sibling := q)];
    assert p in m.Keys - Nodes(m, m[p].sibling, f.sibling);
    Frame(m, m'', m[p].next, f.next);
    NodesInMemory(m', q, g);
    Frame(m', m'', q, g);
    MakeNode(m'', p, f.(sibling := g));
  }

  // ---------------------------------------------------------------- siblings

  function Len(f: Forest): nat {
    if f.Nil? then 0 else 1 + Len(f.sibling)
  }

  function From(f: Forest, k: nat): (g: Forest)
    requires k < Len(f)
    ensures g.Node?
  {
    if k == 0 then f else From(f.sibling, k - 1)
  }

  function WithFrom(f: Forest, k: nat, g: Forest): Forest
    requires k < Len(f)
  {
    if k == 0 then g else f.(sibling := WithFrom(f.sibling, k - 1, g))
  }

  ghost function PtrAt(m: Memory, p: Ptr, f: Forest, k: nat): Ptr
    requires Rep(m, p, f) && k < Len(f)
    decreases k
  {
    if k == 0 then p else PtrAt(m, m[p].sibling, f.sibling, k - 1)
  }

  /** The first n siblings have other characters. */
  predicate Others(f: Forest, n: nat, c: char)
    requires n <= Len(f)
  {
    n == 0 || (f.ch != c && Others(f.sibling, n - 1, c))
  }

  lemma {:induction false} AtFrom(m: Memory, p: Ptr, f: Forest, k: nat)
    requires Rep(m, p, f) && k < Len(f)
    ensures Rep(m, PtrAt(m, p, f, k), From(f, k))
    ensures Nodes(m, PtrAt(m, p, f, k), From(f, k)) <= Nodes(m, p, f)
    decreases f
  {
    if k > 0 {
      AtFrom(m, m[p].sibling, f.sibling, k - 1);
    }
  }

  lemma {:induction false} NextSibling(m: Memory, p: Ptr, f: Forest, k: nat, c: char)
    requires Rep(m, p, f) && k < Len(f) && Others(f, k, c)
    ensures var q := PtrAt(m, p, f, k);
            && q in m && m[q].ch == From(f, k).ch
            && (m[q].sibling == NULL <==> k + 1 == Len(f))
            && (k + 1 < Len(f) ==> m[q].sibling == PtrAt(m, p, f, k + 1))
    ensures k + 1 < Len(f) ==> From(f, k).sibling == From(f, k + 1)
    ensures k + 1 == Len(f) ==> From(f, k).sibling == Nil
    ensures From(f, k).ch != c ==> Others(f, k + 1, c)
    decreases f
  {
    if k > 0 {
      NextSibling(m, m[p].sibling, f.sibling, k - 1, c);
    }
  }

  /** A change from the k-th sibling on. */
  lemma {:induction false} ChangedFrom(m: Memory, m': Memory, p: Ptr, f: Forest, k: nat, g: Forest)
    requires Rep(m, p, f) && k < Len(f)
    requires Changed(m, m', PtrAt(m, p, f, k), From(f, k), PtrAt(m, p, f, k), g)
    ensures Changed(m, m', p, f, p, WithFrom(f, k, g))
    decreases f
  {
    if k > 0 {
      ChangedFrom(m, m', m[p].sibling, f.sibling, k - 1, g);
      ChangedAfter(m, m', p, f, m[p].sibling, WithFrom(f.sibling, k - 1, g));
      NodesInMemory(m, m[p].sibling, f.sibling);
      assert p in m && p !in Nodes(m, m[p].sibling, f.sibling);
      assert m'[p := m[p].(sibling := m[p].sibling)] == m';
    }
  }

  lemma {:induction false} InsertFrom(f: Forest, k: nat, key: string, b: Binding)
    requires key != [] && k < Len(f) && Others(f, k, key[0]) && From(f, k).ch == key[0]
    ensures Insert(f, key, b) == WithFrom(f, k, Below(From(f, k), key, b))
    decreases f
  {
    if k > 0 {
      InsertFrom(f.sibling, k - 1, key, b);
    }
  }

  lemma {:induction false} InsertAtEnd(f: Forest, key: string, b: Binding)
    requires key != [] && f.Node? && Others(f, Len(f), key[0])
    ensures var k := Len(f) - 1;
            Insert(f, key, b) == WithFrom(f, k, From(f, k).(sibling := Below(Fresh(key[0]), key, b)))
    decreases f
  {
    if Len(f) > 1 {
      InsertAtEnd(f.sibling, key, b);
    }
  }

  lemma {:induction false} DeleteFrom(f: Forest, k: nat, key: string)
    requires key != [] && k + 1 < Len(f) && Others(f, k + 1, key[0])
    ensures var g := From(f, k); Delete(f, key) == WithFrom(f, k, g.(sibling := Delete(From(f, k + 1), key)))
    decreases f
  {
    if k > 0 {
      DeleteFrom(f.sibling, k - 1, key);
    }
  }

  lemma {:induction false} DeleteNone(f: Forest, key: string)
    requires key != [] && Others(f, Len(f), key[0])
    ensures Delete(f, key) == f
    decreases f
  {
    if f.Node? {
      DeleteNone(f.sibling, key);
    }
  }

  // ---------------------------------------------------------------- the code

  /** The value of a command that only leads in an extended key. */
  const F_XKEY := "sequence-lead-in"

  class Map {
    var mem: Memory
    var root: Ptr
    var unused: Ptr

    /** The map is f; its nodes are all that is allocated. */
    ghost predicate Valid(f: Forest)
      reads this
    {
      Rep(mem, root, f) && Sound(f) && mem.Keys == Nodes(mem, root, f) && Room()
    }

    ghost predicate Room()
      reads this
    {
      unused != NULL && forall p | p in mem :: p < unused
    }

    constructor ()
      ensures Valid(Nil)
    {
      mem, root, unused := map[], NULL, 1;
    }

    /** GetFreeNode */
    method GetFreeNode(c: char) returns (p: Ptr)
      requires Room()
      modifies this`mem, this`unused
      ensures Room() && p !in old(mem) && mem == old(mem)[p := Cell(c, Binding(Nod, ""), NULL, NULL)]
      ensures Changed(old(mem), mem, NULL, Nil, p, Fresh(c))
    {
      p := unused;
      unused := unused + 1;
      mem := mem[p := Cell(c, Binding(Nod, ""), NULL, NULL)];
    }

    /** PutFreeNode: the nodes of f are freed, each once. */
    method PutFreeNode(ptr: Ptr, ghost f: Forest)
      requires Rep(mem, ptr, f)
      modifies this`mem
      ensures mem == old(mem) - Nodes(old(mem), ptr, f)
      decreases f
    {
      hide Rep, Nodes;
      if ptr == NULL {
        NullIsNil(mem, ptr, f);
        return;
      }
      NullIsNil(mem, ptr, f);
      NodeIs(mem, ptr, f);
      ghost var m := mem;
      if mem[ptr].next != NULL {
        PutFreeNode(mem[ptr].next, f.next);
        mem := mem[ptr := mem[ptr].(next := NULL)];
      } else {
        NullIsNil(mem, NULL, f.next);
      }
      Frame(m, mem, m[ptr].sibling, f.sibling);
      PutFreeNode(mem[ptr].sibling, f.sibling);
      mem := mem - {ptr};
    }

    /** The last sibling that is looked at before one with character c, or the last of all. */
    method Seek(ptr: Ptr, c: char, ghost f: Forest) returns (xm: Ptr, ghost k: nat)
      requires Rep(mem, ptr, f) && f.Node? && f.ch != c
      ensures k < Len(f) && xm == PtrAt(mem, ptr, f, k) && Others(f, k + 1, c)
      ensures k + 1 < Len(f) ==> From(f, k + 1).ch == c
    {
      hide Rep, Nodes, Others;
      xm, k := ptr, 0;
      OthersFirst(f, c);
      while true
        invariant k < Len(f) && xm == PtrAt(mem, ptr, f, k) && Others(f, k + 1, c)
        decreases Len(f) - k
      {
        OthersFewer(f, k, c);
        NextSibling(mem, ptr, f, k, c);
        if mem[xm].sibling == NULL {
          break;
        }
        OthersFewer(f, k, c);
        NextSiblingAgain(mem, ptr, f, k, c);
        if mem[mem[xm].sibling].ch == c {
          break;
        }
        xm, k := mem[xm].sibling, k + 1;
      }
    }

    /** The end of TryNode: the node for the first character has been found. */
    method AtNode(ptr: Ptr, str: string, b: Binding, ghost g: Forest)
      requires Room() && Rep(mem, ptr, g) && g.Node? && str != []
      modifies this`mem, this`unused
      ensures Room() && Changed(old(mem), mem, ptr, g, ptr, Below(g, str, b))
      decreases |str|, 0
    {
      hide Rep, Nodes, Insert;
      ghost var m := mem;
      NodeIs(m, ptr, g);
      if |str| == 1 {
        NullIsNil(m, m[ptr].next, g.next);
        if mem[ptr].next != NULL {
          PutFreeNode(mem[ptr].next, g.next);
          mem := mem[ptr := mem[ptr].(next := NULL)];
        }
        mem := mem[ptr := mem[ptr].(b := b)];
        Freed(m, ptr, g, b);
        assert mem == (m - Nodes(m, m[ptr].next, g.next))[ptr := m[ptr].(next := NULL, b := b)];
      } else {
        NullIsNil(m, m[ptr].next, g.next);
        ghost var g1 := g;
        if mem[ptr].next == NULL {
          var n := GetFreeNode(str[1]);
          ChangedBelow(m, mem, ptr, g, n, Fresh(str[1]), g.b);
          mem := mem[ptr := mem[ptr].(next := n)];
          g1 := g.(next := Fresh(str[1]));
          InsertFresh(str[1..], b);
        } else {
          Unchanged(m, ptr, g);
        }
        ghost var m1 := mem;
        NodeIs(m1, ptr, g1);
        TryNode(mem[ptr].next, str[1..], b, g1.next);
        ghost var h := Insert(g1.next, str[1..], b);
        ChangedBelow(m1, mem, ptr, g1, m1[ptr].next, h, g1.b);
        SameCell(m1, mem, ptr, m1[ptr].next, g1.next, m1[ptr].next, h);
        ChangedTwice(m, m1, mem, ptr, g, ptr, g1, ptr, g1.(next := h));
      }
    }

    /** TryNode: the key is put below ptr and its siblings. */
    method TryNode(ptr0: Ptr, str: string, b: Binding, ghost f: Forest)
      requires Room() && Rep(mem, ptr0, f) && f.Node? && str != []
      modifies this`mem, this`unused
      ensures Room() && Changed(old(mem), mem, ptr0, f, ptr0, Insert(f, str, b))
      decreases |str|, 2
    {
      hide Rep, Nodes, Insert, Below;
      ghost var m := mem;
      NodeIs(m, ptr0, f);
      var ptr := ptr0;
      ghost var k := 0;
      if mem[ptr].ch != str[0] {
        var xm;
        xm, k := Seek(ptr, str[0], f);
        OthersFewer(f, k, str[0]);
        NextSibling(m, ptr0, f, k, str[0]);
        if mem[xm].sibling == NULL {
          AddSibling(xm, str, b, ptr0, f, k);
          return;
        }
        ptr := mem[xm].sibling;
        k := k + 1;
      }
      AtFrom(m, ptr0, f, k);
      AtNode(ptr, str, b, From(f, k));
      ChangedFrom(m, mem, ptr0, f, k, Below(From(f, k), str, b));
      InsertFrom(f, k, str, b);
    }

    /** A new node after the last sibling. */
    method AddSibling(xm: Ptr, str: string, b: Binding, ghost ptr0: Ptr, ghost f: Forest, ghost k: nat)
      requires Room() && Rep(mem, ptr0, f) && f.Node? && str != [] && k + 1 == Len(f) && xm == PtrAt(mem, ptr0, f, k)
      requires Others(f, k + 1, str[0]) && From(f, k).sibling == Nil
      modifies this`mem, this`unused
      ensures Room() && Changed(old(mem), mem, ptr0, f, ptr0, Insert(f, str, b))
      decreases |str|, 1
    {
      hide Rep, Nodes, Insert, Below;
      ghost var m, g := mem, From(f, k);
      AtFrom(m, ptr0, f, k);
      NodeIs(m, xm, g);
      NullIsNil(m, m[xm].sibling, g.sibling);
      var ptr := GetFreeNode(str[0]);
      ChangedAfter(m, mem, xm, g, ptr, Fresh(str[0]));
      mem := mem[xm := mem[xm].(sibling := ptr)];
      ghost var m1, g1 := mem, g.(sibling := Fresh(str[0]));
      NodeIs(m1, xm, g1);
      AtNode(ptr, str, b, Fresh(str[0]));
      ghost var h := Below(Fresh(str[0]), str, b);
      ChangedAfter(m1, mem, xm, g1, ptr, h);
      SameCell(m1, mem, xm, ptr, Fresh(str[0]), ptr, h);
      ChangedTwice(m, m1, mem, xm, g, xm, g1, xm, g1.(sibling := h));
      ChangedFrom(m, mem, ptr0, f, k, g.(sibling := h));
      InsertAtEnd(f, str, b);
    }

    /** The node is taken out of the list of its siblings; it and what is below it is freed. */
    method Remove(ptr: Ptr, ghost g: Forest) returns (np: Ptr)
      requires Rep(mem, ptr, g) && g.Node?
      modifies this`mem
      ensures Changed(old(mem), mem, ptr, g, np, g.sibling) && mem.Keys <= old(mem.Keys)
    {
      hide Rep, Nodes;
      ghost var m := mem;
      NodeIs(m, ptr, g);
      np := mem[ptr].sibling;
      mem := mem[ptr := mem[ptr].(sibling := NULL)];
      Frame(m, mem, m[ptr].next, g.next);
      NilAtNull(mem);
      MakeNode(mem, ptr, g.(sibling := Nil));
      PutFreeNode(ptr, g.(sibling := Nil));
      Frame(m, mem, np, g.sibling);
    }

    /** The end of TryDeleteNode: the node for the first character has been found. The results are
        what the function returns and the pointer that it leaves in *inptr. */
    method DeleteAt(ptr: Ptr, str: string, ghost g: Forest) returns (res: bool, np: Ptr)
      requires Rep(mem, ptr, g) && g.Node? && str != [] && g.ch == str[0]
      modifies this`mem
      ensures Changed(old(mem), mem, ptr, g, np, Delete(g, str)) && mem.Keys <= old(mem.Keys)
      ensures !res ==> Delete(g, str).Node?
      decreases |str|, 0
    {
      hide Rep, Nodes;
      ghost var m := mem;
      NodeIs(m, ptr, g);
      if |str| == 1 {
        np := Remove(ptr, g);
        return true, np;
      }
      NullIsNil(m, m[ptr].next, g.next);
      if mem[ptr].next == NULL {
        Unchanged(m, ptr, g);
        return false, ptr;
      }
      var n;
      res, n := TryDeleteNode(mem[ptr].next, str[1..], g.next);
      ghost var h := Delete(g.next, str[1..]);
      ChangedBelow(m, mem, ptr, g, n, h, g.b);
      SameCell(m, mem, ptr, m[ptr].next, g.next, n, h);
      NullIsNil(mem, n, h);
      mem := mem[ptr := mem[ptr].(next := n)];
      if !res || n != NULL {
        return false, ptr;
      }
      ghost var m1 := mem;
      np := Remove(ptr, g.(next := h));
      ChangedTwice(m, m1, mem, ptr, g, ptr, g.(next := h), np, g.sibling);
      return true, np;
    }

    /** TryDeleteNode */
    method TryDeleteNode(ptr0: Ptr, str: string, ghost f: Forest) returns (res: bool, np: Ptr)
      requires Rep(mem, ptr0, f) && f.Node? && str != []
      modifies this`mem
      ensures Changed(old(mem), mem, ptr0, f, np, Delete(f, str)) && mem.Keys <= old(mem.Keys)
      ensures !res ==> Delete(f, str).Node?
      decreases |str|, 1
    {
      hide Rep, Nodes, Delete;
      ghost var m := mem;
      NodeIs(m, ptr0, f);
      if mem[ptr0].ch == str[0] {
        res, np := DeleteAt(ptr0, str, f);
        return;
      }
      var xm;
      ghost var k;
      xm, k := Seek(ptr0, str[0], f);
      OthersFewer(f, k, str[0]);
      NextSibling(m, ptr0, f, k, str[0]);
      if mem[xm].sibling == NULL {
        DeleteNone(f, str);
        Unchanged(m, ptr0, f);
        return false, ptr0;
      }
      ghost var g := From(f, k);
      AtFrom(m, ptr0, f, k);
      NodeIs(m, xm, g);
      var n;
      res, n := DeleteAt(mem[xm].sibling, str, g.sibling);
      ghost var h := Delete(g.sibling, str);
      ChangedAfter(m, mem, xm, g, n, h);
      SameCell(m, mem, xm, m[xm].sibling, g.sibling, n, h);
      mem := mem[xm := mem[xm].(sibling := n)];
      ChangedFrom(m, mem, ptr0, f, k, g.(sibling := h));
      DeleteFrom(f, k, str);
      WithFromNode(f, k, g.(sibling := h));
      np := ptr0;
    }

    /** AddXkey: false when the key or the command is refused. */
    method AddXkey(xkey: string, b: Binding, ghost f: Forest) returns (ok: bool)
      requires Valid(f) && b.kind != Nod
      modifies this
      ensures ok == (xkey != [] && !(b.kind == Cmd && b.val == F_XKEY))
      ensures Valid(if ok then Insert(f, xkey, b) else f)
    {
      hide Rep, Nodes, Insert, Sound;
      if xkey == [] || (b.kind == Cmd && b.val == F_XKEY) {
        return false;
      }
      NullIsNil(mem, root, f);
      InsertSound(f, xkey, b);
      ghost var m, f1, r := mem, f, root;
      if root == NULL {
        root := GetFreeNode(xkey[0]);
        f1 := Fresh(xkey[0]);
        InsertFresh(xkey, b);
      } else {
        Unchanged(m, root, f);
      }
      ghost var m1 := mem;
      TryNode(root, xkey, b, f1);
      ChangedTwice(m, m1, mem, r, f, root, f1, root, Insert(f1, xkey, b));
      ok := true;
    }

    /** DeleteXkey: -1 for the empty key. */
    method DeleteXkey(xkey: string, ghost f: Forest) returns (r: int)
      requires Valid(f)
      modifies this
      ensures r == (if xkey == [] then -1 else 0)
      ensures Valid(if xkey == [] then f else Delete(f, xkey))
    {
      hide Rep, Nodes, Delete, Sound;
      if xkey == [] {
        return -1;
      }
      NullIsNil(mem, root, f);
      if root == NULL {
        DeleteNone(f, xkey);
        return 0;
      }
      DeleteSound(f, xkey);
      var res, np := TryDeleteNode(root, xkey, f);
      root := np;
      AllInUse(old(mem), mem, old(root), f, root, Delete(f, xkey));
      return 0;
    }

    /** TraverseMap: input holds the first character and those that GetNextChar will give. */
    method TraverseMap(ptr: Ptr, input: string, ghost f: Forest) returns (r: Read)
      requires Rep(mem, ptr, f) && f.Node? && input != []
      ensures r == Get(f, input)
      decreases f
    {
      hide Rep, Nodes;
      NodeIs(mem, ptr, f);
      NullIsNil(mem, mem[ptr].next, f.next);
      NullIsNil(mem, mem[ptr].sibling, f.sibling);
      if mem[ptr].ch == input[0] {
        if mem[ptr].next != NULL {
          if |input| == 1 {
            return AtEof;
          }
          r := TraverseMap(mem[ptr].next, input[1..], f.next);
          r := More(r);
        } else {
          r := Bound(mem[ptr].b, 1);
        }
      } else if mem[ptr].sibling != NULL {
        r := TraverseMap(mem[ptr].sibling, input, f.sibling);
      } else {
        r := Mismatch;
      }
    }
  }

  lemma {:induction false} WithFromNode(f: Forest, k: nat, g: Forest)
    requires k < Len(f) && g.Node?
    ensures WithFrom(f, k, g).Node?
  {
    if k > 0 {
      WithFromNode(f.sibling, k - 1, g);
    }
  }

  lemma AllInUse(m: Memory, m': Memory, p: Ptr, f: Forest, q: Ptr, g: Forest)
    requires Changed(m, m', p, f, q, g) && m.Keys == Nodes(m, p, f)
    ensures m'.Keys == Nodes(m', q, g)
  {
  }

  lemma InsertFresh(key: string, b: Binding)
    requires key != []
    ensures Insert(Fresh(key[0]), key, b) == Insert(Nil, key, b)
  {
  }

  lemma SameCell(m: Memory, m': Memory, p: Ptr, q: Ptr, f: Forest, q': Ptr, g: Forest)
    requires Changed(m, m', q, f, q', g) && p in m && p !in Nodes(m, q, f)
    ensures p in m' && m'[p] == m[p] && m'[p := m[p]] == m'
  {
  }

  /** The nodes below a node are freed. */
  lemma Freed(m: Memory, p: Ptr, f: Forest, b: Binding)
    requires Rep(m, p, f) && f.Node?
    ensures var m' := m - Nodes(m, m[p].next, f.next);
            Changed(m, m'[p := m[p].(next := NULL, b := b)], p, f, p, f.(next := Nil, b := b))
  {
    hide Rep, Nodes;
    NodeIs(m, p, f);
    var m' := m - Nodes(m, m[p].next, f.next);
    NilAtNull(m');
    ChangedBelow(m, m', p, f, NULL, Nil, b);
  }

  lemma NilAtNull(m: Memory)
    ensures Rep(m, NULL, Nil) && Nodes(m, NULL, Nil) == {}
  {
  }

  lemma NullIsNil(m: Memory, p: Ptr, f: Forest)
    requires Rep(m, p, f)
    ensures p == NULL <==> f.Nil?
    ensures f.Nil? ==> Nodes(m, p, f) == {}
  {
  }

  lemma OthersFirst(f: Forest, c: char)
    requires f.Node? && f.ch != c
    ensures Others(f, 1, c)
  {
  }

  lemma {:induction false} OthersFewer(f: Forest, k: nat, c: char)
    requires k < Len(f) && Others(f, k + 1, c)
    ensures Others(f, k, c) && From(f, k).ch != c
    decreases f
  {
    if k > 0 {
      OthersFewer(f.sibling, k - 1, c);
    }
  }

  /** The sibling after the k-th. */
  lemma {:induction false} NextSiblingAgain(m: Memory, p: Ptr, f: Forest, k: nat, c: char)
    requires Rep(m, p, f) && k + 1 < Len(f) && Others(f, k + 1, c)
    ensures var q := PtrAt(m, p, f, k + 1);
            && q in m && m[q].ch == From(f, k + 1).ch
            && (m[q].ch != c ==> Others(f, k + 2, c))
  {
    NextSibling(m, p, f, k + 1, c);
  }
}
