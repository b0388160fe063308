/** The hash of the command path (sh.exec.c): a filter that says where a command cannot be. */
module PathHash {
  import opened Basics

  const HSHMUL := 241

  /** What a directory lists: names with their inode numbers, or nothing if it cannot be opened. */
  datatype Entry = Entry(name: string, ino: nat)

  type Directories = string -> Option<seq<Entry>>

  /** executable: whether a directory has an executable file of that name. */
  type Executables = (string, string) -> bool

  /** The bucket of a name, in a table of the given length. */
  function HashName(name: string, length: nat): (h: nat)
    requires length > 0
    ensures h < length
  {
    if name == [] then 0 else (HashName(name[..|name| - 1], length) * HSHMUL + name[|name| - 1] as int) % length
  }

  function Multiplier(n: nat): nat { if n == 0 then 1 else HSHMUL * Multiplier(n - 1) }

  /** The hash of a name before it is taken modulo the length of the table. */
  function HashSum(name: string): nat {
    if name == [] then 0 else name[0] as int * Multiplier(|name| - 1) + HashSum(name[1..])
  }

  /** A character counts for what its place says; what is left over after division by the length is the bucket. */
  lemma {:induction false} HashNameMeaning(name: string, length: nat)
    requires length > 0
    ensures HashName(name, length) == HashSum(name) % length
    decreases |name|
  {
    if name != [] {
      var t, c := name[..|name| - 1], name[|name| - 1] as int;
      HashNameMeaning(t, length);
      HashSumLast(name);
      ModuloStep(HashSum(t), c, length);
    }
  }

  lemma {:induction false} HashSumLast(name: string)
    requires name != []
    ensures HashSum(name) == HashSum(name[..|name| - 1]) * HSHMUL + name[|name| - 1] as int
    decreases |name|
  {
    var t := name[..|name| - 1];
    if |name| > 1 {
      HashSumLast(name[1..]);
      assert t[1..] == name[1..][..|name| - 2] && t[0] == name[0];
      assert name[0] as int * Multiplier(|name| - 2) * HSHMUL == name[0] as int * Multiplier(|name| - 1);
    }
  }

  lemma ModuloStep(a: nat, c: nat, length: nat)
    requires length > 0
    ensures (a % length * HSHMUL + c) % length == (a * HSHMUL + c) % length
  {
    var y, q := a % length * HSHMUL + c, a / length;
    Divided(a, length);
    Divided(y, length);
    Regrouped(q, length, a % length, HSHMUL, c, y / length, y % length);
    QuotientIs(a * HSHMUL + c, y / length + q * HSHMUL, y % length, length);
  }

  lemma Divided(a: nat, length: nat)
    requires length > 0
    ensures a == a / length * length + a % length
  {
  }

  lemma Regrouped(q: nat, length: nat, r: nat, m: nat, c: nat, q2: nat, r2: nat)
    requires r * m + c == q2 * length + r2
    ensures (q * length + r) * m + c == (q2 + q * m) * length + r2
  {
    assert (q * length + r) * m == q * length * m + r * m;
    assert q * length * m == q * m * length;
  }

  /** The bit of path entry i in a bucket of the given width in bytes: i & (8 * width - 1). */
  function Mask(i: nat, width: nat): bv64
    requires width in {1, 2, 4, 8}
  {
    1 << i % (8 * width)
  }

  /** The entry is one that dohash enters. */
  predicate Listed(e: Entry) {
    e.ino != 0 && e.name != "." && e.name != ".."
  }

  function Common(x: bv64, m: bv64): bv64 { x & m }

  predicate Meets(x: bv64, m: bv64) { Common(x, m) != 0 }

  function With(x: bv64, m: bv64): bv64 { x | m }

  /** Entries i and k of the path have the same bit. */
  predicate SameBit(i: nat, k: nat, width: nat)
    requires width in {1, 2, 4, 8}
  {
    i % (8 * width) == k % (8 * width)
  }

  lemma MasksMeet(i: nat, k: nat, width: nat)
    requires width in {1, 2, 4, 8}
    ensures Meets(Mask(i, width), Mask(k, width)) <==> SameBit(i, k, width)
  {
    OneShifted(i % (8 * width), k % (8 * width));
  }

  lemma OneShifted(a: nat, b: nat)
    requires a < 64 && b < 64
    ensures ((1 as bv64) << a) & ((1 as bv64) << b) != 0 <==> a == b
  {
    var x: bv6, y: bv6 := a as bv6, b as bv6;
    assert ((1 as bv64) << x) & ((1 as bv64) << y) != 0 <==> x == y;
    assert x as nat == a && y as nat == b;
  }

  lemma OrBits(x: bv64, y: bv64, m: bv64)
    ensures Meets(With(x, y), m) <==> Meets(x, m) || Meets(y, m)
  {
    hide Common, With;
    Distribute(x, y, m);
    NoneOf(Common(x, m), Common(y, m));
  }

  lemma Distribute(x: bv64, y: bv64, m: bv64)
    ensures Common(With(x, y), m) == With(Common(x, m), Common(y, m))
  {
    assert (x | y) & m == (x & m) | (y & m);
  }

  lemma NoneOf(a: bv64, b: bv64)
    ensures With(a, b) != 0 <==> a != 0 || b != 0
  {
  }

  /** hashname */
  method Hashname(cp: string, length: nat) returns (h: nat)
    requires length > 0
    ensures h == HashName(cp, length)
  {
    h := 0;
    var k := 0;
    while k < |cp|
      invariant k <= |cp| && h == HashName(cp[..k], length)
    {
      h := (h * HSHMUL + cp[k] as int) % length;
      assert cp[..k + 1][..k] == cp[..k];
      k := k + 1;
    }
    assert cp[..k] == cp;
  }

  /** Without a hash: the position, counted from 1, of the first directory that has the command;
      0 if there is none. The empty directory and "." stand for the command's own text. */
  function Search(dirs: seq<string>, name: string, exec: Executables, i: nat): (r: nat)
    requires i <= |dirs|
    ensures r == 0 <==> forall k | i <= k < |dirs| :: !Has(dirs[k], name, exec)
    ensures r > 0 ==>
              && i < r <= |dirs| && Has(dirs[r - 1], name, exec)
              && forall k | i <= k < r - 1 :: !Has(dirs[k], name, exec)
    decreases |dirs| - i
  {
    if i == |dirs| then 0 else if Has(dirs[i], name, exec) then i + 1 else Search(dirs, name, exec, i + 1)
  }

  predicate Has(dir: string, name: string, exec: Executables) {
    if dir == "" || dir == "." then exec("", name) else exec(dir, "/" + name)
  }

  /** The directories of the path can be read, and list what can be executed in them. */
  ghost predicate Readable(dirs: seq<string>, name: string, ls: Directories, exec: Executables) {
    forall k | 0 <= k < |dirs| && Absolute(dirs[k]) && exec(dirs[k], "/" + name) ::
      ls(dirs[k]).Some? && exists e :: e in ls(dirs[k]).value && e.name == name && Listed(e)
  }

  // ---------------------------------------------------------------- what a table says

  /** bit(h, i), for buckets of the given width. */
  predicate Bit(cells: seq<bv64>, width: nat, h: nat, i: nat)
    requires width in {1, 2, 4, 8} && h < |cells|
  {
    Meets(cells[h], Mask(i, width))
  }

  predicate Table(cells: seq<bv64>, width: nat) {
    width in {1, 2, 4, 8} && cells != []
  }

  /** Entry j of directory i of the path is one that a table of this length has in bucket h. */
  predicate Enters(ls: Directories, dirs: seq<string>, i: nat, j: nat, length: nat, h: nat) {
    && i < |dirs| && Absolute(dirs[i]) && ls(dirs[i]).Some? && j < |ls(dirs[i]).value|
    && Listed(ls(dirs[i]).value[j]) && 0 < length && HashName(ls(dirs[i]).value[j].name, length) == h
  }

  predicate Before(i: nat, j: nat, i1: nat, j1: nat) {
    i < i1 || (i == i1 && j < j1)
  }

  /** Up to entry j1 of directory i1, some entry sets bit k in bucket h. */
  ghost predicate SetBy(ls: Directories, dirs: seq<string>, i1: nat, j1: nat, length: nat, width: nat, h: nat, k: nat)
    requires width in {1, 2, 4, 8}
  {
    exists i: nat, j: nat :: Before(i, j, i1, j1) && Enters(ls, dirs, i, j, length, h) && SameBit(i, k, width)
  }

  /** The bits are those of the entries up to entry j1 of directory i1, and no others. */
  ghost predicate Made(cells: seq<bv64>, width: nat, ls: Directories, dirs: seq<string>, i1: nat, j1: nat) {
    Table(cells, width) &&
    forall h: nat, k: nat | h < |cells| :: Bit(cells, width, h, k) <==> SetBy(ls, dirs, i1, j1, |cells|, width, h, k)
  }

  /** No false negatives: where the bit is off, the command is not. */
  lemma NoFalseNegatives(cells: seq<bv64>, width: nat, ls: Directories, exec: Executables, dirs: seq<string>,
                         name: string, i: nat)
    requires Made(cells, width, ls, dirs, |dirs|, 0) && Readable(dirs, name, ls, exec)
    requires i < |dirs| && Absolute(dirs[i])
    ensures Has(dirs[i], name, exec) ==> Bit(cells, width, HashName(name, |cells|), i)
  {
    hide Bit, Listed, HashName;
    if exec(dirs[i], "/" + name) {
      var entries := ls(dirs[i]).value;
      var e :| e in entries && e.name == name && Listed(e);
      var j: nat :| j < |entries| && entries[j] == e;
      assert Enters(ls, dirs, i, j, |cells|, HashName(name, |cells|));
      assert Before(i, j, |dirs|, 0) && SameBit(i, i, width);
    }
  }

  /** A false positive is a name with the same hash, in a directory with the same bit. */
  lemma FalsePositives(cells: seq<bv64>, width: nat, ls: Directories, dirs: seq<string>, name: string, k: nat)
    requires Made(cells, width, ls, dirs, |dirs|, 0)
    ensures Bit(cells, width, HashName(name, |cells|), k) <==>
            exists i: nat, j: nat :: Enters(ls, dirs, i, j, |cells|, HashName(name, |cells|)) && SameBit(i, k, width)
  {
    hide Bit, HashName;
    var h := HashName(name, |cells|);
    HashInTable(name, |cells|);
    if i: nat, j: nat :| Enters(ls, dirs, i, j, |cells|, h) && SameBit(i, k, width) {
      assert Before(i, j, |dirs|, 0);
    }
  }

  lemma HashInTable(name: string, length: nat)
    requires 0 < length
    ensures HashName(name, length) < length
  {
  }

  lemma WithBit(x: bv64, i: nat, k: nat, width: nat)
    requires width in {1, 2, 4, 8}
    ensures Meets(With(x, Mask(i, width)), Mask(k, width)) <==> Meets(x, Mask(k, width)) || SameBit(i, k, width)
  {
    hide Mask, SameBit, Meets, With;
    OrBits(x, Mask(i, width), Mask(k, width));
    MasksMeet(i, k, width);
  }

  /** Setting a bit changes that bit only. */
  lemma SetBit(a: seq<bv64>, width: nat, h: nat, i: nat)
    requires Table(a, width) && h < |a|
    ensures var b := a[h := With(a[h], Mask(i, width))];
            forall g: nat, k: nat | g < |a| ::
              Bit(b, width, g, k) <==> Bit(a, width, g, k) || (g == h && SameBit(i, k, width))
  {
    hide Mask, SameBit, With, Meets;
    var b := a[h := With(a[h], Mask(i, width))];
    forall g: nat, k: nat | g < |a|
      ensures Bit(b, width, g, k) <==> Bit(a, width, g, k) || (g == h && SameBit(i, k, width))
    {
      WithBit(a[h], i, k, width);
    }
  }

  lemma MadeNone(cells: seq<bv64>, width: nat, ls: Directories, dirs: seq<string>)
    requires Table(cells, width) && forall h | 0 <= h < |cells| :: cells[h] == 0
    ensures Made(cells, width, ls, dirs, 0, 0)
  {
    hide Mask, Meets;
    forall h: nat, k: nat | h < |cells| ensures !Bit(cells, width, h, k) {
      NoBits(Mask(k, width));
    }
  }

  lemma NoBits(m: bv64)
    ensures !Meets(0, m)
  {
  }

  /** The same entries are before both marks, as far as any are entered. */
  lemma MadeSame(cells: seq<bv64>, width: nat, ls: Directories, dirs: seq<string>, i1: nat, j1: nat, i2: nat, j2: nat)
    requires Made(cells, width, ls, dirs, i1, j1)
    requires forall i: nat, j: nat, h: nat | Enters(ls, dirs, i, j, |cells|, h) ::
               Before(i, j, i1, j1) <==> Before(i, j, i2, j2)
    ensures Made(cells, width, ls, dirs, i2, j2)
  {
    hide Bit, Enters, Before, SameBit;
    forall h: nat, k: nat | h < |cells|
      ensures SetBy(ls, dirs, i1, j1, |cells|, width, h, k) <==> SetBy(ls, dirs, i2, j2, |cells|, width, h, k)
    {
    }
  }

  /** One more entry is entered. */
  lemma MadeMore(a: seq<bv64>, b: seq<bv64>, width: nat, ls: Directories, dirs: seq<string>, i1: nat, j1: nat, h: nat)
    requires Made(a, width, ls, dirs, i1, j1) && Enters(ls, dirs, i1, j1, |a|, h) && h < |a|
    requires b == a[h := With(a[h], Mask(i1, width))]
    ensures Made(b, width, ls, dirs, i1, j1 + 1)
  {
    hide Bit, Enters, SameBit, Mask;
    SetBit(a, width, h, i1);
    OneHash(ls, dirs, i1, j1, |a|, h);
    forall g: nat, k: nat | g < |a|
      ensures SetBy(ls, dirs, i1, j1 + 1, |a|, width, g, k)
         <==> SetBy(ls, dirs, i1, j1, |a|, width, g, k) || (g == h && SameBit(i1, k, width))
    {
      assert Before(i1, j1, i1, j1 + 1);
    }
  }

  lemma OneHash(ls: Directories, dirs: seq<string>, i: nat, j: nat, length: nat, h: nat)
    requires Enters(ls, dirs, i, j, length, h)
    ensures forall g: nat :: Enters(ls, dirs, i, j, length, g) <==> g == h
  {
  }

  /** The search goes on from entry i, or has ended. */
  lemma SearchStep(dirs: seq<string>, name: string, exec: Executables, i: nat)
    requires i < |dirs|
    ensures Search(dirs, name, exec, i) == if Has(dirs[i], name, exec) then i + 1 else Search(dirs, name, exec, i + 1)
  {
  }

  // ---------------------------------------------------------------- the shell's table

  class Hash {
    var path: Option<seq<string>>
    var havhash: bool
    var xhash: array<bv64>
    var hashlength: nat
    var hashwidth: nat
    var uhashlength: nat
    var uhashwidth: nat

    ghost predicate Valid()
      reads this
    {
      && (havhash ==> hashlength == xhash.Length > 0)
      && (havhash && path.Some? ==>
            hashwidth == WidthFor(uhashwidth, |path.value|) && hashlength == LengthFor(uhashlength, hashwidth))
      && uhashwidth in {0, 1, 2, 8}
    }

    /** The table is that of the path and the directories as they are. */
    ghost predicate Current(ls: Directories)
      reads this, xhash
    {
      Valid() && havhash && (path.Some? ==> Made(xhash[..], hashwidth, ls, path.value, |path.value|, 0))
    }

    /** The table cannot mislead a search in these directories. */
    ghost predicate Reliable(opv: seq<string>, ls: Directories)
      reads this, xhash
    {
      !havhash || (path == Some(opv) && Current(ls)) || forall k | 0 <= k < |opv| :: !Absolute(opv[k])
    }

    /** bis(h, i) */
    method Bis(h: nat, i: nat)
      requires Valid() && havhash && h < hashlength && hashwidth in {1, 2, 4, 8}
      modifies xhash
      ensures xhash[..] == old(xhash[..])[h := With(old(xhash[h]), Mask(i, hashwidth))]
    {
      xhash[h] := xhash[h] | Mask(i, hashwidth);
    }

    /** The names of one directory. */
    method EnterDirectory(entries: seq<Entry>, i: nat, ghost ls: Directories, ghost dirs: seq<string>)
      requires Valid() && havhash && i < |dirs| && Made(xhash[..], hashwidth, ls, dirs, i, 0)
      requires Absolute(dirs[i]) && ls(dirs[i]) == Some(entries)
      modifies xhash
      ensures Valid() && Made(xhash[..], hashwidth, ls, dirs, i + 1, 0)
    {
      hide Bit, Made, Mask, With, SetBy, HashName, SameBit;
      var j := 0;
      MadeTable(xhash[..], hashwidth, ls, dirs, i, j);
      while j < |entries|
        invariant j <= |entries| && Valid() && Made(xhash[..], hashwidth, ls, dirs, i, j)
      {
        ghost var a := xhash[..];
        var e := entries[j];
        if e.ino != 0 && e.name != "." && e.name != ".." {
          var h := Hashname(e.name, hashlength);
          HashInTable(e.name, hashlength);
          Bis(h, i);
          MadeMore(a, xhash[..], hashwidth, ls, dirs, i, j, h);
        } else {
          MadeSame(a, hashwidth, ls, dirs, i, j, i, j + 1);
        }
        j := j + 1;
      }
      MadeSame(xhash[..], hashwidth, ls, dirs, i, j, i + 1, 0);
    }

    /** dohash; the arguments are those of the rehash command. */
    method DoHash(length: Option<nat>, width: Option<nat>, ls: Directories)
      requires Valid()
      modifies this
      ensures Valid() && path == old(path)
      ensures path.Some? ==> Current(ls) && fresh(xhash)
      ensures old(havhash) ==> havhash
      ensures length.None? ==> uhashlength == old(uhashlength) && uhashwidth == old(uhashwidth)
    {
      hide Made, Mask, Meets, With, Bit, SetBy;
      SetSizes(length, width);
      if uhashwidth != 0 {
        hashwidth := uhashwidth;
      } else {
        if path.None? {
          hashwidth := 0;
          return;
        }
        var n := |path.value|;
        hashwidth := if n <= 8 then 1 else if n <= 16 then 2 else if n <= 32 then 4 else 8;
      }
      Fill(ls);
    }

    /** A table of the sizes that have been set, for the directories of the path. */
    method Fill(ls: Directories)
      requires uhashwidth in {0, 1, 2, 8} && hashwidth in {1, 2, 4, 8}
      requires path.Some? ==> hashwidth == WidthFor(uhashwidth, |path.value|)
      modifies this
      ensures Valid() && path == old(path) && havhash && (path.Some? ==> Current(ls) && fresh(xhash))
      ensures uhashlength == old(uhashlength) && uhashwidth == old(uhashwidth)
    {
      hide Made, Mask, Meets, With, Bit, SetBy;
      hashlength := if uhashlength != 0 then uhashlength else hashwidth * (8 * 64);
      xhash := NewTable(hashlength);
      havhash := true;
      if path.None? {
        return;
      }
      EnterPath(path.value, ls);
    }

    /** The sizes that were asked for; others than these widths mean that none was. */
    method SetSizes(length: Option<nat>, width: Option<nat>)
      requires uhashwidth in {0, 1, 2, 8}
      modifies this`uhashlength, this`uhashwidth
      ensures uhashwidth in {0, 1, 2, 8}
      ensures length.None? ==> uhashlength == old(uhashlength) && uhashwidth == old(uhashwidth)
    {
      if length.Some? {
        uhashlength := length.value;
        if width.Some? {
          uhashwidth := width.value;
          if uhashwidth != 1 && uhashwidth != 2 && uhashwidth != 8 {
            uhashwidth := 0;
          }
        }
      }
    }

    method EnterPath(dirs: seq<string>, ls: Directories)
      requires Valid() && havhash && Table(xhash[..], hashwidth) && forall h | 0 <= h < xhash.Length :: xhash[h] == 0
      modifies xhash
      ensures Valid() && Made(xhash[..], hashwidth, ls, dirs, |dirs|, 0)
    {
      hide Made, Mask;
      var i := 0;
      MadeNone(xhash[..], hashwidth, ls, dirs);
      while i < |dirs|
        invariant i <= |dirs| && Valid() && Made(xhash[..], hashwidth, ls, dirs, i, 0)
      {
        if Absolute(dirs[i]) && ls(dirs[i]).Some? {
          EnterDirectory(ls(dirs[i]).value, i, ls, dirs);
        } else {
          MadeSame(xhash[..], hashwidth, ls, dirs, i, 0, i + 1, 0);
        }
        i := i + 1;
      }
    }

    /** One pass of iscommand over the path opv. */
    method Look(opv: seq<string>, name: string, slash: bool, hashval: nat, ghost ls: Directories, exec: Executables)
      returns (r: nat)
      requires Valid() && opv != []
      requires havhash && !slash && path.Some? ==> hashval == HashName(name, hashlength)
      ensures r == 0 || (r <= |opv| && Has(opv[r - 1], name, exec))
      requires havhash && !slash ==> path == Some(opv) || forall k | 0 <= k < |opv| :: !Absolute(opv[k])
      ensures Reliable(opv, ls) && Readable(opv, name, ls, exec) ==> r == Search(opv, name, exec, 0)
    {
      hide Made, Bit, Search, HashName;
      ghost var sure := Reliable(opv, ls) && Readable(opv, name, ls, exec);
      var i := 0;
      while true
        invariant i < |opv| && (sure ==> Search(opv, name, exec, 0) == Search(opv, name, exec, i))
        decreases |opv| - i
      {
        SearchStep(opv, name, exec, i);
        var skip := false;
        if !slash && Absolute(opv[i]) && havhash {
          skip := !Bit(xhash[..], hashwidth, hashval, i);
          if sure {
            NoFalseNegatives(xhash[..], hashwidth, ls, exec, opv, name, i);
          }
        }
        if !skip && Has(opv[i], name, exec) {
          return i + 1;
        }
        i := i + 1;
        if i == |opv| {
          SearchEnds(opv, name, exec);
          return 0;
        }
      }
    }

    /** iscommand. With autorehash the table is built anew if nothing is found. */
    method IsCommand(name: string, autorehash: bool, ls: Directories, exec: Executables) returns (r: nat)
      requires Valid()
      modifies this
      ensures Valid() && path == old(path)
      ensures var opv := Where(path, name);
              && (r > 0 ==> r <= |opv| && Has(opv[r - 1], name, exec))
              && (Readable(opv, name, ls, exec) ==>
                    && (!old(havhash) || old(Current(ls)) || opv == JustAbs ==> r == Search(opv, name, exec, 0))
                    && (autorehash ==> (r == 0 <==> Search(opv, name, exec, 0) == 0)))
    {
      hide Made, Bit, Search, HashName, Mask;
      var slash := '/' in name;
      var opv := if path.None? || path.value == [] || slash then JustAbs else path.value;
      var hashval := 0;
      if havhash {
        hashval := Hashname(name, hashlength);
      }
      r := Look(opv, name, slash, hashval, ls, exec);
      SearchFound(opv, name, exec, r);
      if r == 0 && autorehash && havhash && opv != JustAbs {
        DoHash(None, None, ls);
        r := Look(opv, name, slash, hashval, ls, exec);
        SearchFound(opv, name, exec, r);
      }
    }

    /** What one pass of find_cmd finds: a relative directory other than "." is looked up in the
        table, though dohash never enters one. */
    ghost predicate PassFinds(dirs: seq<string>, cmd: string, exec: Executables)
      requires Valid() && path == Some(dirs)
      reads this, xhash
    {
      if havhash then TableFinds(xhash[..], hashwidth, dirs, cmd, exec) else Found(dirs, cmd, exec)
    }

    /** find_cmd, without printing: the built-in commands, and then the path. */
    method FindCmd(cmd: string, builtins: set<string>, autorehash: bool, ls: Directories, exec: Executables)
      returns (rval: bool)
      requires Valid()
      modifies this
      ensures Valid() && path == old(path) && havhash == old(havhash)
      ensures path.None? ==> (rval <==> cmd in builtins)
      ensures path.Some? && !autorehash ==> (rval <==> cmd in builtins || old(PassFinds(path.value, cmd, exec)))
      ensures path.Some? && autorehash ==>
                (rval <==> cmd in builtins || old(PassFinds(path.value, cmd, exec)) || PassFinds(path.value, cmd, exec))
      ensures path.Some? && autorehash && !rval && havhash ==> Current(ls)
    {
      hide Made, Bit, HashName, Mask, TableFinds, Found;
      if cmd in builtins {
        return true;
      }
      if path.None? {
        return false;
      }
      var hashval := 0;
      if havhash {
        hashval := Hashname(cmd, hashlength);
      }
      rval := Pass(path.value, cmd, hashval, exec);
      if !rval && autorehash && havhash {
        DoHash(None, None, ls);
        rval := Pass(path.value, cmd, hashval, exec);
      }
    }

    /** One pass of find_cmd. */
    method Pass(dirs: seq<string>, cmd: string, hashval: nat, exec: Executables) returns (rval: bool)
      requires Valid() && path == Some(dirs) && (havhash ==> hashval == HashName(cmd, hashlength))
      ensures rval <==> PassFinds(dirs, cmd, exec)
    {
      hide Bit, HashName, Mask;
      var i := 0;
      while i < |dirs|
        invariant i <= |dirs|
        invariant forall k | 0 <= k < i :: !(exec(dirs[k], "/" + cmd) &&
                    (!havhash || dirs[k] == "." || Bit(xhash[..], hashwidth, hashval, k)))
      {
        var skip := false;
        if havhash && dirs[i] != "." {
          skip := !Bit(xhash[..], hashwidth, hashval, i);
        }
        if !skip && exec(dirs[i], "/" + cmd) {
          return true;
        }
        i := i + 1;
      }
      return false;
    }
  }

  method NewTable(length: nat) returns (xhash: array<bv64>)
    ensures fresh(xhash) && xhash.Length == length && forall h | 0 <= h < length :: xhash[h] == 0
  {
    xhash := new bv64[length](_ => 0);
  }

  /** Some directory of the path has the command. */
  predicate Found(dirs: seq<string>, cmd: string, exec: Executables) {
    exists k | 0 <= k < |dirs| :: exec(dirs[k], "/" + cmd)
  }

  /** Some directory has it that is "." or has its bit on in the command's bucket. */
  predicate TableFinds(cells: seq<bv64>, width: nat, dirs: seq<string>, cmd: string, exec: Executables)
    requires Table(cells, width)
  {
    exists k | 0 <= k < |dirs| ::
      exec(dirs[k], "/" + cmd) && (dirs[k] == "." || Bit(cells, width, HashName(cmd, |cells|), k))
  }

  lemma AbsoluteHas(dir: string, name: string, exec: Executables)
    requires Absolute(dir)
    ensures Has(dir, name, exec) == exec(dir, "/" + name)
  {
  }

  /** With a table that is up to date find_cmd misses a command exactly when no directory that has it
      is absolute or ".", and none of them shares its bit with a name of the same hash. */
  lemma FindsExactly(cells: seq<bv64>, width: nat, ls: Directories, dirs: seq<string>, cmd: string, exec: Executables)
    requires Made(cells, width, ls, dirs, |dirs|, 0) && Readable(dirs, cmd, ls, exec)
    ensures TableFinds(cells, width, dirs, cmd, exec) <==>
            exists k: nat | k < |dirs| && exec(dirs[k], "/" + cmd) ::
              Absolute(dirs[k]) || dirs[k] == "." || Mistaken(ls, dirs, |cells|, width, cmd, k)
  {
    hide Bit, HashName, Made, SameBit, Enters;
    MadeTable(cells, width, ls, dirs, |dirs|, 0);
    forall k: nat | k < |dirs| && exec(dirs[k], "/" + cmd)
      ensures Bit(cells, width, HashName(cmd, |cells|), k) <==>
              Absolute(dirs[k]) || Mistaken(ls, dirs, |cells|, width, cmd, k)
    {
      FalsePositives(cells, width, ls, dirs, cmd, k);
      if Absolute(dirs[k]) {
        AbsoluteHas(dirs[k], cmd, exec);
        NoFalseNegatives(cells, width, ls, exec, dirs, cmd, k);
      }
    }
  }

  /** Some name that is entered has the hash of the command and the bit of entry k. */
  ghost predicate Mistaken(ls: Directories, dirs: seq<string>, length: nat, width: nat, cmd: string, k: nat)
    requires 0 < length && width in {1, 2, 4, 8}
  {
    exists i: nat, j: nat :: Enters(ls, dirs, i, j, length, HashName(cmd, length)) && SameBit(i, k, width)
  }

  /** A command in a relative directory, the only one of the path, is there and is not found, with
      any table that is up to date. */
  lemma RelativeDirectoryMissed(cells: seq<bv64>, width: nat, ls: Directories, exec: Executables)
    requires exec("bin", "/x") && Made(cells, width, ls, ["bin"], 1, 0)
    ensures Found(["bin"], "x", exec) && !TableFinds(cells, width, ["bin"], "x", exec)
  {
    var dirs: seq<string> := ["bin"];
    assert dirs[0] == "bin" && "/" + "x" == "/x" && !Absolute("bin") && "bin" != ".";
    assert forall k | 0 <= k < |dirs| :: dirs[k] == "bin";
    FindsExactly(cells, width, ls, dirs, "x", exec);
    forall k: nat ensures !Mistaken(ls, dirs, |cells|, width, "x", k) {
    }
  }

  /** The width in bytes of a bucket, as asked for or for the entries of the path. */
  function WidthFor(asked: nat, n: nat): nat {
    if asked != 0 then asked else if n <= 8 then 1 else if n <= 16 then 2 else if n <= 32 then 4 else 8
  }

  function LengthFor(asked: nat, width: nat): nat {
    if asked != 0 then asked else width * (8 * 64)
  }

  const JustAbs: seq<string> := [""]

  /** The directories that iscommand looks in. */
  function Where(path: Option<seq<string>>, name: string): seq<string> {
    if path.None? || path.value == [] || '/' in name then JustAbs else path.value
  }

  /** A name with a slash is looked up as it is, and so is any name without a path; another one in the
      directories of the path. */
  lemma WhereMeaning(path: Option<seq<string>>, name: string, exec: Executables)
    ensures '/' in name || path == None || path == Some([]) ==>
              Search(Where(path, name), name, exec, 0) == if exec("", name) then 1 else 0
    ensures '/' !in name && path.Some? && path.value != [] ==> Where(path, name) == path.value
  {
    if '/' in name || path == None || path == Some([]) {
      SearchEnds(JustAbs, name, exec);
      assert Search(JustAbs, name, exec, 0) == if Has("", name, exec) then 1 else Search(JustAbs, name, exec, 1);
    }
  }

  lemma SearchEnds(dirs: seq<string>, name: string, exec: Executables)
    ensures Search(dirs, name, exec, |dirs|) == 0
  {
  }

  lemma SearchFound(dirs: seq<string>, name: string, exec: Executables, r: nat)
    requires 0 < r <= |dirs| ==> Has(dirs[r - 1], name, exec)
    ensures 0 < r <= |dirs| ==> Search(dirs, name, exec, 0) != 0
  {
  }

  lemma MadeTable(cells: seq<bv64>, width: nat, ls: Directories, dirs: seq<string>, i: nat, j: nat)
    requires Made(cells, width, ls, dirs, i, j)
    ensures Table(cells, width)
  {
  }
}
