/** Maps from extended keys to what they are bound to, as trees (ed.xmap.c), and what adding,
    deleting and reading keys means. */
module XkeyMap {
  import opened Basics

  datatype Kind = Cmd | Str | Exe | Nod

  datatype Binding = Binding(kind: Kind, val: string)

  /** A node with its siblings after it, and the nodes one character further below it. */
  datatype Forest = Nil | Node(ch: char, b: Binding, next: Forest, sibling: Forest)

  predicate IsPrefix(a: string, b: string) {
    |a| <= |b| && a == b[..|a|]
  }

  // ---------------------------------------------------------------- what is bound

  /** The binding of a key: that of the leaf its characters lead to. */
  function Lookup(f: Forest, key: string): Option<Binding>
    decreases f
  {
    if f.Nil? || key == [] then None
    else if f.ch != key[0] then Lookup(f.sibling, key)
    else if |key| > 1 then Lookup(f.next, key[1..])
    else if f.next.Nil? then Some(f.b)
    else None
  }

  /** No sibling has the character. */
  predicate NoneWith(f: Forest, c: char) {
    f.Nil? || (f.ch != c && NoneWith(f.sibling, c))
  }

  /** Siblings differ, and every leaf is bound to something. */
  predicate Sound(f: Forest) {
    f.Nil? ||
    (NoneWith(f.sibling, f.ch) && (f.next.Nil? ==> f.b.kind != Nod) && Sound(f.next) && Sound(f.sibling))
  }

  /** No bound key is a prefix of another one. */
  lemma {:induction false} PrefixFree(f: Forest, a: string, b: string)
    requires Lookup(f, a).Some? && Lookup(f, b).Some? && IsPrefix(a, b)
    ensures a == b
    decreases f
  {
    if f.ch != a[0] {
      PrefixFree(f.sibling, a, b);
    } else if |a| > 1 {
      assert b[1..][..|a| - 1] == a[1..];
      PrefixFree(f.next, a[1..], b[1..]);
      assert a == [a[0]] + a[1..] && b == [b[0]] + b[1..];
    } else {
      LeafEnds(f, b);
    }
  }

  /** Nothing longer is bound at a leaf. */
  lemma LeafEnds(f: Forest, key: string)
    requires f.Node? && f.next.Nil? && key != [] && f.ch == key[0]
    ensures Lookup(f, key).Some? ==> |key| == 1
  {
    if |key| > 1 {
      assert Lookup(f.next, key[1..]).None?;
    }
  }

  lemma {:induction false} NoneWithLookup(f: Forest, key: string)
    requires key != [] && NoneWith(f, key[0])
    ensures Lookup(f, key).None?
  {
    if !f.Nil? {
      NoneWithLookup(f.sibling, key);
    }
  }

  // ---------------------------------------------------------------- adding

  function Fresh(c: char): Forest {
    Node(c, Binding(Nod, ""), Nil, Nil)
  }

  /** AddXkey */
  function Insert(f: Forest, key: string, b: Binding): Forest
    requires key != []
    decreases |key|, 1, f
  {
    if f.Nil? then Below(Fresh(key[0]), key, b)
    else if f.ch != key[0] then f.(sibling := Insert(f.sibling, key, b))
    else Below(f, key, b)
  }

  /** At the node for the key's first character. */
  function Below(f: Forest, key: string, b: Binding): Forest
    requires key != [] && f.Node?
    decreases |key|, 0, Nil
  {
    if |key| == 1 then f.(b := b, next := Nil) else f.(next := Insert(f.next, key[1..], b))
  }

  /** Keys that cannot be bound together with key. */
  predicate Clashes(q: string, key: string) {
    IsPrefix(q, key) || IsPrefix(key, q)
  }

  lemma {:induction false} InsertSound(f: Forest, key: string, b: Binding)
    requires key != [] && Sound(f) && b.kind != Nod
    ensures Sound(Insert(f, key, b)) && Insert(f, key, b).Node?
    ensures forall c :: c != key[0] && NoneWith(f, c) ==> NoneWith(Insert(f, key, b), c)
    decreases |key|, f
  {
    if f.Nil? {
      if |key| > 1 {
        InsertSound(Nil, key[1..], b);
      }
    } else if f.ch != key[0] {
      InsertSound(f.sibling, key, b);
    } else if |key| > 1 {
      InsertSound(f.next, key[1..], b);
    }
  }

  lemma ClashTail(q: string, key: string)
    requires q != [] && key != []
    ensures Clashes(q, key) <==> q[0] == key[0] && Clashes(q[1..], key[1..])
    ensures q == key <==> q[0] == key[0] && q[1..] == key[1..]
  {
    assert q == [q[0]] + q[1..] && key == [key[0]] + key[1..];
  }

  /** Adding binds the key, unbinds its prefixes and its extensions, and changes nothing else. */
  lemma {:induction false} InsertBinds(f: Forest, key: string, b: Binding, q: string)
    requires key != [] && q != []
    ensures Lookup(Insert(f, key, b), q)
         == if q == key then Some(b) else if Clashes(q, key) then None else Lookup(f, q)
    decreases |key|, 1, f
  {
    ClashTail(q, key);
    if f.Nil? || f.ch == key[0] {
      var n := if f.Nil? then Fresh(key[0]) else f;
      BelowBinds(n, key, b, q);
    } else {
      InsertBinds(f.sibling, key, b, q);
    }
  }

  lemma {:induction false} BelowBinds(f: Forest, key: string, b: Binding, q: string)
    requires key != [] && q != [] && f.Node? && f.ch == key[0]
    ensures Lookup(Below(f, key, b), q)
         == if q == key then Some(b) else if Clashes(q, key) then None else Lookup(f, q)
    decreases |key|, 0, Nil
  {
    ClashTail(q, key);
    if q[0] == key[0] {
      if |q| > 1 && |key| > 1 {
        InsertBinds(f.next, key[1..], b, q[1..]);
      } else if |key| > 1 {
        InsertNode(f.next, key[1..], b);
      }
    }
  }

  lemma InsertNode(f: Forest, key: string, b: Binding)
    requires key != []
    ensures Insert(f, key, b).Node?
  {
  }

  // ---------------------------------------------------------------- deleting

  /** DeleteXkey: the node of the key goes, and nodes above it that are left without any below. */
  function Delete(f: Forest, key: string): Forest
    requires key != []
    decreases |key|, f
  {
    if f.Nil? then Nil
    else if f.ch != key[0] then f.(sibling := Delete(f.sibling, key))
    else if |key| == 1 then f.sibling
    else if f.next.Nil? then f
    else if Delete(f.next, key[1..]).Nil? then f.sibling
    else f.(next := Delete(f.next, key[1..]))
  }

  lemma {:induction false} DeleteSound(f: Forest, key: string)
    requires key != [] && Sound(f)
    ensures Sound(Delete(f, key))
    ensures forall c :: NoneWith(f, c) ==> NoneWith(Delete(f, key), c)
    decreases |key|, f
  {
    if f.Nil? {
    } else if f.ch != key[0] {
      DeleteSound(f.sibling, key);
    } else if |key| > 1 {
      DeleteSound(f.next, key[1..]);
    }
  }

  /** Deleting unbinds the key and its extensions, and changes nothing else. */
  lemma {:induction false} DeleteUnbinds(f: Forest, key: string, q: string)
    requires key != [] && q != [] && Sound(f)
    ensures Lookup(Delete(f, key), q) == if IsPrefix(key, q) then None else Lookup(f, q)
    decreases |key|, f
  {
    PrefixTail(key, q);
    if f.Nil? {
    } else if f.ch != key[0] {
      DeleteUnbinds(f.sibling, key, q);
    } else {
      if q[0] == key[0] {
        NoneWithLookup(f.sibling, q);
        if |key| > 1 && |q| > 1 {
          DeleteUnbinds(f.next, key[1..], q[1..]);
        }
      } else if |key| > 1 {
        assert Lookup(f, q) == Lookup(f.sibling, q);
      }
    }
  }

  lemma PrefixTail(a: string, b: string)
    requires a != [] && b != []
    ensures IsPrefix(a, b) <==> a[0] == b[0] && IsPrefix(a[1..], b[1..])
  {
    assert a == [a[0]] + a[1..] && b == [b[0]] + b[1..];
  }

  // ---------------------------------------------------------------- reading

  datatype Read = Bound(b: Binding, used: nat) | AtEof | Mismatch

  /** GetXkey on the characters that come in: what is found, and how many were used. */
  function Get(f: Forest, input: string): Read
    requires input != []
    decreases f
  {
    if f.Nil? then Mismatch
    else if f.ch != input[0] then Get(f.sibling, input)
    else if f.next.Nil? then Bound(f.b, 1)
    else if |input| == 1 then AtEof
    else More(Get(f.next, input[1..]))
  }

  function More(r: Read): Read {
    if r.Bound? then Bound(r.b, r.used + 1) else r
  }

  predicate BoundPrefix(f: Forest, input: string, n: nat) {
    0 < n <= |input| && Lookup(f, input[..n]).Some?
  }

  /** Exactly the bound key that the input starts with is found, and no more is used up. */
  lemma {:induction false} GetFinds(f: Forest, input: string, n: nat)
    requires Sound(f) && input != [] && 0 < n <= |input|
    ensures BoundPrefix(f, input, n) <==> Get(f, input).Bound? && Get(f, input).used == n
    ensures BoundPrefix(f, input, n) ==> Lookup(f, input[..n]) == Some(Get(f, input).b)
    decreases f
  {
    if f.Node? {
      assert input[..n][0] == input[0];
      if f.ch != input[0] {
        GetFinds(f.sibling, input, n);
      } else if f.next.Nil? {
        assert n > 1 ==> Lookup(f, input[..n]) == Lookup(f.next, input[..n][1..]);
      } else if |input| > 1 {
        assert input[..n][1..] == input[1..][..n - 1];
        if n > 1 {
          GetFinds(f.next, input[1..], n - 1);
        } else {
          GetUses(f.next, input[1..]);
        }
      }
    }
  }

  lemma {:induction false} GetUses(f: Forest, input: string)
    requires input != []
    ensures Get(f, input).Bound? ==> 0 < Get(f, input).used <= |input|
    decreases f
  {
    if f.Node? {
      if f.ch != input[0] {
        GetUses(f.sibling, input);
      } else if f.next.Node? && |input| > 1 {
        GetUses(f.next, input[1..]);
      }
    }
  }

  /** The end of the input is reached only on the way to a bound key. */
  lemma {:induction false} GetEof(f: Forest, input: string)
    requires Sound(f) && input != []
    ensures Get(f, input).AtEof? <==> (exists k :: |k| > |input| && IsPrefix(input, k) && Lookup(f, k).Some?)
    decreases f
  {
    if f.Nil? {
    } else if f.ch != input[0] {
      GetEof(f.sibling, input);
      if k :| |k| > |input| && IsPrefix(input, k) && Lookup(f, k).Some? {
        assert k[0] == input[0];
        assert Lookup(f.sibling, k).Some?;
      }
      if k :| |k| > |input| && IsPrefix(input, k) && Lookup(f.sibling, k).Some? {
        assert Lookup(f, k).Some?;
      }
    } else if f.next.Nil? {
      if k :| |k| > |input| && IsPrefix(input, k) && Lookup(f, k).Some? {
        PrefixTail(input, k);
        LeafEnds(f, k);
        assert false;
      }
    } else if |input| == 1 {
      var t := SomeKey(f.next);
      var k := [f.ch] + t;
      assert k[1..] == t && k[..1] == input;
      assert Lookup(f, k).Some?;
    } else {
      GetEof(f.next, input[1..]);
      if k :| |k| > |input| && IsPrefix(input, k) && Lookup(f, k).Some? {
        PrefixTail(input, k);
        assert Lookup(f.next, k[1..]).Some?;
      }
      if t :| |t| > |input| - 1 && IsPrefix(input[1..], t) && Lookup(f.next, t).Some? {
        var k := [f.ch] + t;
        assert k[1..] == t;
        PrefixTail(input, k);
        assert Lookup(f, k).Some?;
      }
    }
  }

  /** Below every node something is bound. */
  lemma {:induction false} SomeKey(f: Forest) returns (k: string)
    requires f.Node? && Sound(f)
    ensures k != [] && Lookup(f, k).Some?
    decreases f
  {
    if f.next.Nil? {
      k := [f.ch];
    } else {
      var t := SomeKey(f.next);
      k := [f.ch] + t;
      assert k[1..] == t;
    }
  }
}
