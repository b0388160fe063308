/** Path canonicalisation (dcanon_internal, sh.dir.c) on components, and what it preserves:
    what the path resolves to (IEEE Std 1003.1-2017, Base Definitions, section 4.13). */
module Canon {
  import opened Basics

  // ---------------------------------------------------------------- paths

  function UpToSlash(s: string): (r: nat)
    ensures r <= |s| && (forall k | 0 <= k < r :: s[k] != '/') && (r < |s| ==> s[r] == '/')
  {
    if s == [] || s[0] == '/' then 0 else 1 + UpToSlash(s[1..])
  }

  /** The components of a path: what is between slashes, without empty ones. */
  function Comps(s: string): seq<string>
    decreases |s|
  {
    if s == [] then []
    else if s[0] == '/' then Comps(s[1..])
    else var e := UpToSlash(s); [s[..e]] + Comps(s[e..])
  }

  /** The text of a canonical path; the root is written as a slash on its own. */
  function Text(p: seq<string>): string {
    if p == [] then "" else Text(p[..|p| - 1]) + "/" + p[|p| - 1]
  }

  predicate Component(c: string) {
    c != [] && '/' !in c
  }

  /** A component that is a name: neither empty nor a dot nor two. */
  predicate Name(c: string) {
    Component(c) && c != "." && c != ".."
  }

  predicate Names(p: seq<string>) {
    forall k | 0 <= k < |p| :: Name(p[k])
  }

  lemma {:induction false} CompsAppend(a: string, b: string)
    requires b != [] ==> b[0] == '/'
    ensures Comps(a + b) == Comps(a) + Comps(b)
    decreases |a|
  {
    hide Comps, UpToSlash;
    if a == [] {
      CompsNone();
      assert a + b == b;
    } else {
      CompsStep(a);
      CompsStep(a + b);
      if a[0] == '/' {
        CompsAppend(a[1..], b);
        assert (a + b)[1..] == a[1..] + b;
      } else {
        var e := UpToSlash(a);
        SlashAppend(a, b);
        CompsAppend(a[e..], b);
        assert (a + b)[e..] == a[e..] + b && (a + b)[..e] == a[..e];
      }
    }
  }

  lemma CompsNone()
    ensures Comps([]) == []
  {
  }

  lemma CompsStep(s: string)
    requires s != []
    ensures if s[0] == '/' then Comps(s) == Comps(s[1..])
            else 0 < UpToSlash(s) <= |s| && Comps(s) == [s[..UpToSlash(s)]] + Comps(s[UpToSlash(s)..])
  {
  }

  lemma SlashAppend(a: string, b: string)
    requires b != [] ==> b[0] == '/'
    ensures UpToSlash(a + b) == UpToSlash(a)
  {
    if a == [] {
      assert a + b == b;
    } else if a[0] != '/' {
      SlashAppend(a[1..], b);
      assert (a + b)[1..] == a[1..] + b;
    }
  }

  /** A path is taken apart at its slashes, of which more than one are like one. */
  lemma CompsMeaning(c: string, s: string)
    requires c != [] && '/' !in c
    ensures Comps([]) == [] && Comps("/" + s) == Comps(s)
    ensures Comps(c) == [c] && Comps(c + ("/" + s)) == [c] + Comps(s)
  {
    hide Comps;
    CompsNone();
    CompsStep("/" + s);
    assert ("/" + s)[1..] == s;
    FirstComponent(c, "/" + s);
    FirstComponent(c, []);
    assert c + [] == c && [c] + [] == [c];
  }

  lemma FirstComponent(c: string, rest: string)
    requires c != [] && '/' !in c && (rest == [] || rest[0] == '/')
    ensures Comps(c + rest) == [c] + Comps(rest)
  {
    hide Comps;
    var a, e := c + rest, UpToSlash(c + rest);
    assert a[0] == c[0] && c[0] in c;
    CompsStep(a);
    assert forall k | 0 <= k < |c| :: a[k] == c[k] && a[k] in c;
    assert rest != [] ==> a[|c|] == rest[0];
    assert e == |c|;
    assert a[..e] == c && a[e..] == rest;
  }

  // ---------------------------------------------------------------- the rewriting

  /** readlink: the text of the symbolic link that a path names, if it names one. */
  type Readlink = string -> Option<string>

  function Up(p: seq<string>): seq<string> {
    if p == [] then [] else p[..|p| - 1]
  }

  /** The rewriting of done components p and components r to come; None when more than k
      links are expanded. Links are expanded before "..", and everywhere if chase is set. */
  function Rewrite(rl: Readlink, chase: bool, p: seq<string>, r: seq<string>, k: nat): Option<seq<string>>
    decreases k, |r|
  {
    if r == [] then Some(p)
    else if r[0] == "." then Rewrite(rl, chase, p, r[1..], k)
    else if r[0] == ".." then
      if p != [] && rl(Text(p)).Some? then
        if k == 0 then None
        else Rewrite(rl, chase, LinkBase(Up(p), rl(Text(p)).value), Comps(rl(Text(p)).value) + r, k - 1)
      else Rewrite(rl, chase, Up(p), r[1..], k)
    else if chase && rl(Text(p + [r[0]])).Some? then
      if k == 0 then None
      else
        var t := rl(Text(p + [r[0]])).value;
        Rewrite(rl, chase, LinkBase(p, t), Comps(t) + r[1..], k - 1)
    else Rewrite(rl, chase, p + [r[0]], r[1..], k)
  }

  /** Where the text of a link starts from. */
  function LinkBase(p: seq<string>, t: string): seq<string> {
    if Absolute(t) then [] else p
  }

  /** More room for links changes nothing. */
  lemma {:induction false} RewriteMore(rl: Readlink, chase: bool, p: seq<string>, r: seq<string>, k: nat)
    requires Rewrite(rl, chase, p, r, k).Some?
    ensures Rewrite(rl, chase, p, r, k + 1) == Rewrite(rl, chase, p, r, k)
    decreases k, |r|
  {
    if r == [] {
    } else if r[0] == "." {
      RewriteMore(rl, chase, p, r[1..], k);
    } else if r[0] == ".." {
      if p != [] && rl(Text(p)).Some? {
        RewriteMore(rl, chase, LinkBase(Up(p), rl(Text(p)).value), Comps(rl(Text(p)).value) + r, k - 1);
      } else {
        RewriteMore(rl, chase, Up(p), r[1..], k);
      }
    } else if chase && rl(Text(p + [r[0]])).Some? {
      var t := rl(Text(p + [r[0]])).value;
      RewriteMore(rl, chase, LinkBase(p, t), Comps(t) + r[1..], k - 1);
    } else {
      RewriteMore(rl, chase, p + [r[0]], r[1..], k);
    }
  }

  // ---------------------------------------------------------------- what it leaves

  lemma {:induction false} CompsAreComponents(s: string)
    ensures forall k | 0 <= k < |Comps(s)| :: Component(Comps(s)[k])
    decreases |s|
  {
    if s != [] {
      CompsAreComponents(if s[0] == '/' then s[1..] else s[UpToSlash(s)..]);
    }
  }

  predicate Components(r: seq<string>) {
    forall k | 0 <= k < |r| :: Component(r[k])
  }

  /** No prefix of p, p included, is a symbolic link. */
  ghost predicate LinkFree(rl: Readlink, p: seq<string>) {
    forall n | 1 <= n <= |p| :: rl(Text(p[..n])).None?
  }

  /** The result has no empty, "." or ".." component, and under chase no link in it. */
  lemma {:induction false} RewriteCanonical(rl: Readlink, chase: bool, p: seq<string>, r: seq<string>, k: nat)
    requires Rewrite(rl, chase, p, r, k).Some? && Names(p) && Components(r)
    requires chase ==> LinkFree(rl, p)
    ensures Names(Rewrite(rl, chase, p, r, k).value)
    ensures chase ==> LinkFree(rl, Rewrite(rl, chase, p, r, k).value)
    decreases k, |r|
  {
    hide Comps, Text, LinkFree;
    if r == [] {
    } else if r[0] == "." {
      RewriteCanonical(rl, chase, p, r[1..], k);
    } else if r[0] == ".." {
      UpLinkFree(rl, chase, p);
      NoneLinkFree(rl);
      if p != [] && rl(Text(p)).Some? {
        var t := rl(Text(p)).value;
        CompsAreComponents(t);
        RewriteCanonical(rl, chase, LinkBase(Up(p), t), Comps(t) + r, k - 1);
      } else {
        RewriteCanonical(rl, chase, Up(p), r[1..], k);
      }
    } else if chase && rl(Text(p + [r[0]])).Some? {
      var t := rl(Text(p + [r[0]])).value;
      NoneLinkFree(rl);
      CompsAreComponents(t);
      RewriteCanonical(rl, chase, LinkBase(p, t), Comps(t) + r[1..], k - 1);
    } else {
      MoreLinkFree(rl, p, r[0]);
      RewriteCanonical(rl, chase, p + [r[0]], r[1..], k);
    }
  }

  lemma NoneLinkFree(rl: Readlink)
    ensures LinkFree(rl, [])
  {
  }

  lemma MoreLinkFree(rl: Readlink, p: seq<string>, c: string)
    ensures LinkFree(rl, p) && rl(Text(p + [c])).None? ==> LinkFree(rl, p + [c])
  {
    hide Text;
    var q := p + [c];
    assert forall n | 1 <= n <= |p| :: q[..n] == p[..n];
    assert q[..|q|] == q;
  }

  lemma UpLinkFree(rl: Readlink, chase: bool, p: seq<string>)
    requires chase ==> LinkFree(rl, p)
    ensures chase ==> LinkFree(rl, Up(p))
  {
    assert forall n | 1 <= n <= |Up(p)| :: Up(p)[..n] == p[..n];
  }

  // ---------------------------------------------------------------- a tree file system

  type Id = nat

  datatype Node = Dir(parent: Id, entries: map<string, Id>) | File | Link(target: string)

  datatype Fs = Fs(root: Id, nodes: map<Id, Node>)

  predicate IsDir(fs: Fs, n: Id) {
    n in fs.nodes && fs.nodes[n].Dir?
  }

  /** A tree: every entry that is a directory has the directory it is in as its parent. */
  ghost predicate Tree(fs: Fs) {
    && IsDir(fs, fs.root) && fs.nodes[fs.root].parent == fs.root
    && forall d | IsDir(fs, d) ::
         && IsDir(fs, fs.nodes[d].parent)
         && forall c | c in fs.nodes[d].entries ::
              fs.nodes[d].entries[c] in fs.nodes
              && (fs.nodes[fs.nodes[d].entries[c]].Dir? ==> fs.nodes[fs.nodes[d].entries[c]].parent == d)
  }

  /** Path resolution from n: the node reached, and how many of k link expansions are left. */
  function Walk(fs: Fs, n: Id, r: seq<string>, k: nat): (w: Option<(Id, nat)>)
    ensures w.Some? ==> w.value.1 <= k
    decreases k, |r|
  {
    if r == [] then Some((n, k))
    else if !IsDir(fs, n) then None
    else if r[0] == "." then Walk(fs, n, r[1..], k)
    else if r[0] == ".." then Walk(fs, fs.nodes[n].parent, r[1..], k)
    else if r[0] !in fs.nodes[n].entries then None
    else
      var x := fs.nodes[n].entries[r[0]];
      if x in fs.nodes && fs.nodes[x].Link? then
        if k == 0 then None
        else Walk(fs, LinkStart(fs, n, fs.nodes[x].target), Comps(fs.nodes[x].target) + r[1..], k - 1)
      else Walk(fs, x, r[1..], k)
  }

  function LinkStart(fs: Fs, n: Id, t: string): Id {
    if Absolute(t) then fs.root else n
  }

  ghost predicate Resolves(fs: Fs, r: seq<string>, k: nat, n: Id) {
    Walk(fs, fs.root, r, k).Some? && Walk(fs, fs.root, r, k).value.0 == n
  }

  /** The path leads to n, with as many links as it takes. */
  ghost predicate Leads(fs: Fs, p: seq<string>, n: Id) {
    exists k: nat :: Resolves(fs, p, k, n)
  }

  /** The path leads to directory d. */
  ghost predicate DirAt(fs: Fs, p: seq<string>, d: Id) {
    IsDir(fs, d) && Leads(fs, p, d)
  }

  /** The path leads to a directory. */
  ghost predicate AtDir(fs: Fs, p: seq<string>) {
    exists d :: DirAt(fs, p, d)
  }

  /** readlink answers as the tree has it wherever the directory of the link can be reached, and
      finds no link anywhere else. */
  ghost predicate Faithful(fs: Fs, rl: Readlink) {
    && (forall p, c, d | Names(p) && Name(c) && DirAt(fs, p, d) :: rl(Text(p + [c])) == LinkIn(fs, d, c))
    && (forall p, c | Names(p) && Name(c) && !AtDir(fs, p) :: rl(Text(p + [c])).None?)
  }

  function LinkIn(fs: Fs, d: Id, c: string): Option<string>
    requires IsDir(fs, d)
  {
    if c in fs.nodes[d].entries && fs.nodes[d].entries[c] in fs.nodes && fs.nodes[fs.nodes[d].entries[c]].Link?
    then Some(fs.nodes[fs.nodes[d].entries[c]].target) else None
  }

  lemma {:induction false} WalkAppend(fs: Fs, n: Id, a: seq<string>, b: seq<string>, k: nat)
    ensures Walk(fs, n, a + b, k) ==
            match Walk(fs, n, a, k)
            case None => None
            case Some(w) => Walk(fs, w.0, b, w.1)
    decreases k, |a|
  {
    if a == [] {
      assert a + b == b;
    } else if IsDir(fs, n) {
      assert (a + b)[0] == a[0] && (a + b)[1..] == a[1..] + b;
      if a[0] == "." {
        WalkAppend(fs, n, a[1..], b, k);
      } else if a[0] == ".." {
        WalkAppend(fs, fs.nodes[n].parent, a[1..], b, k);
      } else if a[0] in fs.nodes[n].entries {
        var x := fs.nodes[n].entries[a[0]];
        if x in fs.nodes && fs.nodes[x].Link? {
          if k > 0 {
            var t := fs.nodes[x].target;
            assert Comps(t) + (a[1..] + b) == (Comps(t) + a[1..]) + b;
            WalkAppend(fs, LinkStart(fs, n, t), Comps(t) + a[1..], b, k - 1);
          }
        } else {
          WalkAppend(fs, x, a[1..], b, k);
        }
      }
    }
  }

  /** With one link less allowed the same node is reached, if one is to spare. */
  lemma {:induction false} WalkLess(fs: Fs, n: Id, r: seq<string>, k: nat)
    ensures k > 0 && Walk(fs, n, r, k).Some? && Walk(fs, n, r, k).value.1 > 0
            ==> Walk(fs, n, r, k - 1) == Some((Walk(fs, n, r, k).value.0, Walk(fs, n, r, k).value.1 - 1))
    ensures k > 0 && Walk(fs, n, r, k - 1).Some?
            ==> Walk(fs, n, r, k) == Some((Walk(fs, n, r, k - 1).value.0, Walk(fs, n, r, k - 1).value.1 + 1))
    decreases k, |r|
  {
    if r != [] && IsDir(fs, n) {
      if r[0] == "." {
        WalkLess(fs, n, r[1..], k);
      } else if r[0] == ".." {
        WalkLess(fs, fs.nodes[n].parent, r[1..], k);
      } else if r[0] in fs.nodes[n].entries {
        var x := fs.nodes[n].entries[r[0]];
        if x in fs.nodes && fs.nodes[x].Link? {
          if k > 0 {
            var t := fs.nodes[x].target;
            WalkLess(fs, LinkStart(fs, n, t), Comps(t) + r[1..], k - 1);
          }
        } else {
          WalkLess(fs, x, r[1..], k);
        }
      }
    }
  }

  lemma {:induction false} WalkMore(fs: Fs, n: Id, r: seq<string>, j: nat, k: nat)
    requires j <= k && Walk(fs, n, r, j).Some?
    ensures Walk(fs, n, r, k) == Some((Walk(fs, n, r, j).value.0, Walk(fs, n, r, j).value.1 + k - j))
    decreases k - j
  {
    if j < k {
      WalkLess(fs, n, r, j + 1);
      WalkMore(fs, n, r, j + 1, k);
    }
  }

  /** Reading the text of a canonical path gives its components back. */
  lemma {:induction false} CompsText(p: seq<string>)
    requires Components(p)
    ensures Comps(Text(p)) == p
  {
    if p != [] {
      var q, c := p[..|p| - 1], p[|p| - 1];
      CompsText(q);
      assert Text(p) == Text(q) + ("/" + c);
      CompsAppend(Text(q), "/" + c);
      OneComponent(c);
      assert ("/" + c)[1..] == c;
      assert q + [c] == p;
    }
  }

  lemma OneComponent(c: string)
    requires Component(c)
    ensures Comps(c) == [c]
  {
    var e := UpToSlash(c);
    assert e == |c|;
    assert c[..e] == c && c[e..] == [];
  }

  /** The readlink of a tree. */
  ghost function TrueReadlink(fs: Fs): Readlink {
    s => LinkAt(fs, Comps(s))
  }

  ghost function LinkAt(fs: Fs, p: seq<string>): Option<string> {
    if p != [] && AtDir(fs, Up(p)) then
      var d :| DirAt(fs, Up(p), d);
      LinkIn(fs, d, p[|p| - 1])
    else None
  }

  lemma OneDir(fs: Fs, p: seq<string>, c: Id, d: Id)
    requires DirAt(fs, p, c) && DirAt(fs, p, d)
    ensures c == d
  {
    var j: nat :| Resolves(fs, p, j, c);
    var k: nat :| Resolves(fs, p, k, d);
    if j <= k {
      WalkMore(fs, fs.root, p, j, k);
    } else {
      WalkMore(fs, fs.root, p, k, j);
    }
  }

  /** There is such a readlink for every tree. */
  lemma TrueReadlinkIsFaithful(fs: Fs)
    ensures Faithful(fs, TrueReadlink(fs))
  {
    hide Resolves, Comps, Text;
    forall p, c, d | Names(p) && Name(c) && DirAt(fs, p, d)
      ensures TrueReadlink(fs)(Text(p + [c])) == LinkIn(fs, d, c)
    {
      CompsText(p + [c]);
      assert Up(p + [c]) == p;
      var e :| DirAt(fs, p, e) && LinkAt(fs, p + [c]) == LinkIn(fs, e, c);
      OneDir(fs, p, d, e);
    }
    forall p, c | Names(p) && Name(c) && !AtDir(fs, p) ensures TrueReadlink(fs)(Text(p + [c])).None? {
      CompsText(p + [c]);
      assert Up(p + [c]) == p;
    }
  }

  /** The last name of p, from the directory it is in. */
  lemma LastStep(fs: Fs, rl: Readlink, p: seq<string>, c: string, r: seq<string>, k: nat, n: Id)
    requires Tree(fs) && Faithful(fs, rl) && Names(p) && Name(c) && Resolves(fs, p + [c] + r, k, n)
    ensures Walk(fs, fs.root, p, k).Some?
    ensures var (d, j) := Walk(fs, fs.root, p, k).value;
            && IsDir(fs, d) && c in fs.nodes[d].entries && fs.nodes[d].entries[c] in fs.nodes
            && rl(Text(p + [c])) == LinkIn(fs, d, c)
            && Walk(fs, fs.root, p + [c] + r, k) == Walk(fs, d, [c] + r, j)
  {
    assert p + [c] + r == p + ([c] + r);
    WalkAppend(fs, fs.root, p, [c] + r, k);
    assert Resolves(fs, p, k, Walk(fs, fs.root, p, k).value.0);
  }

  /** Putting the text of a link in its place, with one expansion less to go. */
  lemma Expanded(fs: Fs, rl: Readlink, p: seq<string>, c: string, r: seq<string>, k: nat, n: Id)
    requires Tree(fs) && Faithful(fs, rl) && Names(p) && Name(c) && Resolves(fs, p + [c] + r, k, n)
    requires rl(Text(p + [c])).Some?
    ensures k > 0
    ensures var t := rl(Text(p + [c])).value; Resolves(fs, LinkBase(p, t) + (Comps(t) + r), k - 1, n)
  {
    hide Comps, Text, Tree, Faithful;
    LastStep(fs, rl, p, c, r, k, n);
    var (d, j) := Walk(fs, fs.root, p, k).value;
    assert Resolves(fs, p, k, d);
    LinkOut(fs, p, c, d, r, k);
    var t := rl(Text(p + [c])).value;
    assert LinkBase(p, t) + Comps(t) + r == LinkBase(p, t) + (Comps(t) + r);
  }

  /** A name that is not a link, before "..", cancels. */
  lemma Cancelled(fs: Fs, rl: Readlink, p: seq<string>, c: string, r: seq<string>, k: nat, n: Id)
    requires Tree(fs) && Faithful(fs, rl) && Names(p) && Name(c) && Resolves(fs, p + [c] + ([".."] + r), k, n)
    requires rl(Text(p + [c])).None?
    ensures Resolves(fs, p + r, k, n)
  {
    hide Comps, Text, Faithful;
    LastStep(fs, rl, p, c, [".."] + r, k, n);
    var (d, j) := Walk(fs, fs.root, p, k).value;
    var x := fs.nodes[d].entries[c];
    assert ([c] + ([".."] + r))[1..] == [".."] + r && ([".."] + r)[1..] == r;
    assert Walk(fs, d, [c] + ([".."] + r), j) == Walk(fs, x, [".."] + r, j) == Walk(fs, d, r, j);
    WalkAppend(fs, fs.root, p, r, k);
  }

  /** "." and, at the root, ".." go nowhere. */
  lemma Nowhere(fs: Fs, p: seq<string>, c: string, r: seq<string>, k: nat, n: Id)
    requires Tree(fs) && (c == "." || (c == ".." && p == [])) && Resolves(fs, p + ([c] + r), k, n)
    ensures Resolves(fs, p + r, k, n)
  {
    WalkAppend(fs, fs.root, p, [c] + r, k);
    WalkAppend(fs, fs.root, p, r, k);
    assert ([c] + r)[1..] == r;
  }

  /** What the path resolves to is preserved: whenever p and r resolve, with at most k links, the
      rewriting ends, and its result resolves to the same node. */
  lemma {:induction false} RewriteResolves(fs: Fs, rl: Readlink, chase: bool, p: seq<string>, r: seq<string>, k: nat,
                                           n: Id)
    requires Tree(fs) && Faithful(fs, rl) && Names(p) && Components(r) && Resolves(fs, p + r, k, n)
    ensures Rewrite(rl, chase, p, r, k).Some?
    ensures Resolves(fs, Rewrite(rl, chase, p, r, k).value, k, n)
    decreases k, |r|
  {
    hide Comps, Text, Tree, Faithful, Walk;
    if r == [] {
      assert p + r == p;
      return;
    }
    var c, rest := r[0], r[1..];
    assert r == [c] + rest;
    if c == "." {
      Nowhere(fs, p, c, rest, k, n);
      RewriteResolves(fs, rl, chase, p, rest, k, n);
    } else if c == ".." && p == [] {
      Nowhere(fs, p, c, rest, k, n);
      RewriteResolves(fs, rl, chase, p, rest, k, n);
    } else if c == ".." {
      var q, last := Up(p), p[|p| - 1];
      assert p == q + [last];
      if rl(Text(p)).Some? {
        var t := rl(Text(p)).value;
        Expanded(fs, rl, q, last, r, k, n);
        CompsAreComponents(t);
        RewriteResolves(fs, rl, chase, LinkBase(q, t), Comps(t) + r, k - 1, n);
        ResolvesMore(fs, Rewrite(rl, chase, p, r, k).value, k, n);
      } else {
        Cancelled(fs, rl, q, last, rest, k, n);
        RewriteResolves(fs, rl, chase, q, rest, k, n);
      }
    } else {
      assert p + r == p + [c] + rest;
      if chase && rl(Text(p + [c])).Some? {
        var t := rl(Text(p + [c])).value;
        Expanded(fs, rl, p, c, rest, k, n);
        CompsAreComponents(t);
        RewriteResolves(fs, rl, chase, LinkBase(p, t), Comps(t) + rest, k - 1, n);
        ResolvesMore(fs, Rewrite(rl, chase, p, r, k).value, k, n);
      } else {
        RewriteResolves(fs, rl, chase, p + [c], rest, k, n);
      }
    }
  }

  lemma ResolvesMore(fs: Fs, r: seq<string>, k: nat, n: Id)
    requires k > 0 && Resolves(fs, r, k - 1, n)
    ensures Resolves(fs, r, k, n)
  {
    WalkMore(fs, fs.root, r, k - 1, k);
  }

  // ---------------------------------------------------------------- when a path that does not resolve is kept apart

  /** Whatever comes after, the two paths lead to the same nodes. */
  ghost predicate Same(fs: Fs, a: seq<string>, b: seq<string>) {
    forall x: seq<string>, n: Id :: Leads(fs, a + x, n) <==> Leads(fs, b + x, n)
  }

  ghost predicate IsLink(fs: Fs, p: seq<string>, c: string) {
    exists d :: DirAt(fs, p, d) && LinkIn(fs, d, c).Some?
  }

  /** What a component asks of the path before it: "." and ".." stand in a directory, and a link that
      is to be expanded leads somewhere. */
  ghost predicate GroundedAt(fs: Fs, chase: bool, p: seq<string>, c: string) {
    && (c == "." || c == ".." ==> AtDir(fs, p))
    && (chase && Name(c) && IsLink(fs, p, c) ==> exists n :: Leads(fs, p + [c], n))
  }

  ghost predicate Grounded(fs: Fs, chase: bool, p: seq<string>, r: seq<string>) {
    forall i | 0 <= i < |r| :: GroundedAt(fs, chase, p + r[..i], r[i])
  }

  /** Every part of a path that leads somewhere does; before a component it is a directory. */
  lemma LeadsPrefix(fs: Fs, a: seq<string>, b: seq<string>, n: Id)
    requires Leads(fs, a + b, n)
    ensures exists m :: Leads(fs, a, m)
    ensures b != [] ==> AtDir(fs, a)
  {
    var k: nat :| Resolves(fs, a + b, k, n);
    WalkAppend(fs, fs.root, a, b, k);
    var m := Walk(fs, fs.root, a, k).value.0;
    assert Resolves(fs, a, k, m) && Leads(fs, a, m);
    if b != [] {
      assert DirAt(fs, a, m);
    }
  }

  lemma LeadsGrounded(fs: Fs, chase: bool, p: seq<string>, a: seq<string>, n: Id)
    requires Leads(fs, p + a, n)
    ensures Grounded(fs, chase, p, a)
  {
    hide Leads, AtDir, IsLink;
    forall i | 0 <= i < |a| ensures GroundedAt(fs, chase, p + a[..i], a[i]) {
      assert p + a == (p + a[..i]) + a[i..];
      LeadsPrefix(fs, p + a[..i], a[i..], n);
      assert p + a == ((p + a[..i]) + [a[i]]) + a[i + 1..];
      LeadsPrefix(fs, (p + a[..i]) + [a[i]], a[i + 1..], n);
    }
  }

  /** Being grounded depends only on where the path before leads. */
  lemma GroundedShift(fs: Fs, chase: bool, p: seq<string>, r: seq<string>, m: nat, q: seq<string>)
    requires m <= |r| && Grounded(fs, chase, p, r) && Same(fs, p + r[..m], q)
    ensures Grounded(fs, chase, q, r[m..])
  {
    hide Leads;
    var s := r[m..];
    forall i | 0 <= i < |s| ensures GroundedAt(fs, chase, q + s[..i], s[i]) {
      assert p + r[..m + i] == (p + r[..m]) + s[..i];
      assert GroundedAt(fs, chase, p + r[..m + i], r[m + i]);
      GroundedSame(fs, chase, p + r[..m], q, s[..i], s[i]);
    }
  }

  lemma GroundedSame(fs: Fs, chase: bool, a: seq<string>, b: seq<string>, x: seq<string>, c: string)
    requires Same(fs, a, b) && GroundedAt(fs, chase, a + x, c)
    ensures GroundedAt(fs, chase, b + x, c)
  {
    hide Leads;
    assert forall n :: Leads(fs, a + x, n) <==> Leads(fs, b + x, n);
    assert forall d :: DirAt(fs, a + x, d) <==> DirAt(fs, b + x, d);
    assert a + x + [c] == a + (x + [c]) && b + x + [c] == b + (x + [c]);
  }

  lemma GroundedJoin(fs: Fs, chase: bool, p: seq<string>, a: seq<string>, b: seq<string>, n: Id)
    requires Leads(fs, p + a, n) && Grounded(fs, chase, p + a, b)
    ensures Grounded(fs, chase, p, a + b)
  {
    hide GroundedAt, Leads;
    LeadsGrounded(fs, chase, p, a, n);
    forall i | 0 <= i < |a + b| ensures GroundedAt(fs, chase, p + (a + b)[..i], (a + b)[i]) {
      if i < |a| {
        assert (a + b)[..i] == a[..i];
      } else {
        assert p + (a + b)[..i] == (p + a) + b[..i - |a|];
      }
    }
  }

  /** "." in a directory, and ".." at the root. */
  lemma SameNowhere(fs: Fs, p: seq<string>, c: string)
    requires Tree(fs) && AtDir(fs, p) && (c == "." || (c == ".." && p == []))
    ensures Same(fs, p + [c], p)
  {
    var d :| DirAt(fs, p, d);
    forall x, n ensures Leads(fs, p + [c] + x, n) <==> Leads(fs, p + x, n) {
      assert p + [c] + x == p + ([c] + x) && ([c] + x)[1..] == x;
      forall k: nat ensures Resolves(fs, p + [c] + x, k, n) <==> Resolves(fs, p + x, k, n) {
        WalkAppend(fs, fs.root, p, [c] + x, k);
        WalkAppend(fs, fs.root, p, x, k);
        OneEnd(fs, p, d, k);
      }
    }
  }

  /** A path leads to one node only. */
  lemma OneEnd(fs: Fs, p: seq<string>, d: Id, k: nat)
    requires Leads(fs, p, d)
    ensures Walk(fs, fs.root, p, k).Some? ==> Walk(fs, fs.root, p, k).value.0 == d
  {
    var j: nat :| Resolves(fs, p, j, d);
    if Walk(fs, fs.root, p, k).Some? {
      if j <= k {
        WalkMore(fs, fs.root, p, j, k);
      } else {
        WalkMore(fs, fs.root, p, k, j);
      }
    }
  }

  /** A directory that is not behind a link, and back from it. */
  lemma SameBack(fs: Fs, q: seq<string>, c: string, e: Id)
    requires Tree(fs) && Name(c) && DirAt(fs, q, e) && LinkIn(fs, e, c).None? && AtDir(fs, q + [c])
    ensures Same(fs, q + [c] + [".."], q)
  {
    hide Tree;
    var x: Id := BackFrom(fs, q, c, e);
    forall y, n ensures Leads(fs, q + [c] + [".."] + y, n) <==> Leads(fs, q + y, n) {
      assert q + [c] + [".."] + y == q + ([c] + ([".."] + y));
      assert ([c] + ([".."] + y))[1..] == [".."] + y && ([".."] + y)[1..] == y;
      forall k: nat ensures Resolves(fs, q + [c] + [".."] + y, k, n) <==> Resolves(fs, q + y, k, n) {
        WalkAppend(fs, fs.root, q, [c] + ([".."] + y), k);
        WalkAppend(fs, fs.root, q, y, k);
        OneEnd(fs, q, e, k);
        if Walk(fs, fs.root, q, k).Some? {
          var j := Walk(fs, fs.root, q, k).value.1;
          assert Walk(fs, e, [c] + ([".."] + y), j) == Walk(fs, x, [".."] + y, j) == Walk(fs, e, y, j);
        }
      }
    }
  }

  lemma BackFrom(fs: Fs, q: seq<string>, c: string, e: Id) returns (x: Id)
    requires Tree(fs) && Name(c) && DirAt(fs, q, e) && LinkIn(fs, e, c).None? && AtDir(fs, q + [c])
    ensures c in fs.nodes[e].entries && x == fs.nodes[e].entries[c] && IsDir(fs, x) && fs.nodes[x].parent == e
  {
    hide Tree;
    var d :| DirAt(fs, q + [c], d);
    var k: nat :| Resolves(fs, q + [c], k, d);
    WalkAppend(fs, fs.root, q, [c], k);
    OneEnd(fs, q, e, k);
    assert [c][1..] == [];
    x := fs.nodes[e].entries[c];
    ParentIs(fs, e, c);
  }

  lemma ParentIs(fs: Fs, e: Id, c: string)
    requires Tree(fs) && IsDir(fs, e) && c in fs.nodes[e].entries
    ensures var x := fs.nodes[e].entries[c]; x in fs.nodes && (IsDir(fs, x) ==> fs.nodes[x].parent == e)
  {
  }

  /** A link and its text. */
  lemma SameLink(fs: Fs, q: seq<string>, c: string, e: Id)
    requires Tree(fs) && Name(c) && DirAt(fs, q, e) && LinkIn(fs, e, c).Some?
    ensures var t := LinkIn(fs, e, c).value; Same(fs, q + [c], LinkBase(q, t) + Comps(t))
  {
    hide Tree, Comps;
    var t := LinkIn(fs, e, c).value;
    var k0: nat :| Resolves(fs, q, k0, e);
    forall y, n ensures Leads(fs, q + [c] + y, n) <==> Leads(fs, LinkBase(q, t) + Comps(t) + y, n) {
      var there, here := LinkBase(q, t) + Comps(t) + y, q + [c] + y;
      if k: nat :| Resolves(fs, here, k, n) {
        LinkOut(fs, q, c, e, y, k);
        assert Resolves(fs, there, k - 1, n);
      }
      if k: nat :| Resolves(fs, there, k, n) {
        LinkBack(fs, q, c, e, y, k, k0);
        assert Resolves(fs, here, k + k0 + 1, n);
      }
    }
  }

  lemma LinkOut(fs: Fs, q: seq<string>, c: string, e: Id, y: seq<string>, k: nat)
    requires Name(c) && DirAt(fs, q, e) && LinkIn(fs, e, c).Some? && Walk(fs, fs.root, q + [c] + y, k).Some?
    ensures k > 0
    ensures var t := LinkIn(fs, e, c).value;
            var there := Walk(fs, fs.root, LinkBase(q, t) + Comps(t) + y, k - 1);
            there.Some? && there.value.0 == Walk(fs, fs.root, q + [c] + y, k).value.0
  {
    hide Comps, Walk;
    var t := LinkIn(fs, e, c).value;
    assert q + [c] + y == q + ([c] + y);
    WalkAppend(fs, fs.root, q, [c] + y, k);
    OneEnd(fs, q, e, k);
    WalkLeft(fs, q, k);
    var j := Walk(fs, fs.root, q, k).value.1;
    LinkStep(fs, e, c, y, j);
    if Absolute(t) {
      assert [] + Comps(t) + y == Comps(t) + y;
      WalkMore(fs, fs.root, Comps(t) + y, j - 1, k - 1);
    } else {
      WalkLess(fs, fs.root, q, k);
      WalkAppend(fs, fs.root, q, Comps(t) + y, k - 1);
      assert q + Comps(t) + y == q + (Comps(t) + y);
    }
  }

  lemma LinkBack(fs: Fs, q: seq<string>, c: string, e: Id, y: seq<string>, k: nat, k0: nat)
    requires Name(c) && DirAt(fs, q, e) && LinkIn(fs, e, c).Some? && Resolves(fs, q, k0, e)
    requires var t := LinkIn(fs, e, c).value; Walk(fs, fs.root, LinkBase(q, t) + Comps(t) + y, k).Some?
    ensures var t, here := LinkIn(fs, e, c).value, Walk(fs, fs.root, q + [c] + y, k + k0 + 1);
            here.Some? && here.value.0 == Walk(fs, fs.root, LinkBase(q, t) + Comps(t) + y, k).value.0
  {
    hide Comps, Walk;
    var t := LinkIn(fs, e, c).value;
    assert q + [c] + y == q + ([c] + y);
    WalkMore(fs, fs.root, q, k0, k + k0 + 1);
    var j := Walk(fs, fs.root, q, k0).value.1 + k + 1;
    WalkAppend(fs, fs.root, q, [c] + y, k + k0 + 1);
    LinkStep(fs, e, c, y, j);
    if Absolute(t) {
      assert [] + Comps(t) + y == Comps(t) + y;
      WalkMore(fs, fs.root, Comps(t) + y, k, j - 1);
    } else {
      assert q + Comps(t) + y == q + (Comps(t) + y);
      WalkAppend(fs, fs.root, q, Comps(t) + y, k);
      OneEnd(fs, q, e, k);
      WalkLeft(fs, q, k);
      WalkMore(fs, e, Comps(t) + y, Walk(fs, fs.root, q, k).value.1, j - 1);
    }
  }

  lemma WalkLeft(fs: Fs, q: seq<string>, k: nat)
    ensures Walk(fs, fs.root, q, k).Some? ==> Walk(fs, fs.root, q, k).value.1 <= k
  {
  }

  /** A link is the next component. */
  lemma LinkStep(fs: Fs, e: Id, c: string, y: seq<string>, j: nat)
    requires Name(c) && IsDir(fs, e) && LinkIn(fs, e, c).Some?
    ensures var t := LinkIn(fs, e, c).value;
            Walk(fs, e, [c] + y, j) == if j == 0 then None else Walk(fs, LinkStart(fs, e, t), Comps(t) + y, j - 1)
  {
    hide Comps;
    assert ([c] + y)[1..] == y;
  }

  /** The path is grounded and what it is rewritten to leads to n: then so does the path. */
  lemma {:induction false} RewriteReflects(fs: Fs, rl: Readlink, chase: bool, p: seq<string>, r: seq<string>, k: nat,
                                           n: Id)
    requires Tree(fs) && Faithful(fs, rl) && Names(p) && Components(r) && Grounded(fs, chase, p, r)
    requires Rewrite(rl, chase, p, r, k).Some? && Leads(fs, Rewrite(rl, chase, p, r, k).value, n)
    ensures Leads(fs, p + r, n)
    decreases k, |r|, 0
  {
    hide Comps, Text, Tree, Faithful, Leads, AtDir, Grounded, GroundedAt, Same;
    if r == [] {
      assert p + r == p;
      return;
    }
    var c, rest := r[0], r[1..];
    assert r == [c] + rest && r[..1] == [c] && r[..0] == [] && p + [] == p;
    FirstGrounded(fs, chase, p, r);
    if c == "." || (c == ".." && p == []) {
      SameNowhere(fs, p, c);
      Onward(fs, rl, chase, p, r, p, k, n);
    } else if c == ".." {
      var q, last := Up(p), p[|p| - 1];
      assert p == q + [last];
      var e := ParentOf(fs, q, last);
      ReadlinkIs(fs, rl, q, last, e);
      if rl(Text(p)).Some? {
        var t := rl(Text(p)).value;
        SameLink(fs, q, last, e);
        Through(fs, rl, chase, p, r, 0, LinkBase(q, t), t, k, n);
      } else {
        SameBack(fs, q, last, e);
        Onward(fs, rl, chase, p, r, q, k, n);
      }
    } else if chase && rl(Text(p + [c])).Some? {
      var t := rl(Text(p + [c])).value;
      var e := LinkFound(fs, rl, p, c);
      SameLink(fs, p, c, e);
      LinkLeads(fs, chase, p, c, e);
      Through(fs, rl, chase, p, r, 1, LinkBase(p, t), t, k, n);
    } else {
      SameItself(fs, p + [c]);
      Onward(fs, rl, chase, p, r, p + [c], k, n);
    }
  }

  /** The step of RewriteReflects that takes one component. */
  lemma {:induction false} Onward(fs: Fs, rl: Readlink, chase: bool, p: seq<string>, r: seq<string>, q: seq<string>,
                                  k: nat, n: Id)
    requires Tree(fs) && Faithful(fs, rl) && Names(q) && Components(r) && Grounded(fs, chase, p, r)
    requires r != [] && Same(fs, p + [r[0]], q)
    requires Rewrite(rl, chase, q, r[1..], k).Some? && Leads(fs, Rewrite(rl, chase, q, r[1..], k).value, n)
    ensures Leads(fs, p + r, n)
    decreases k, |r| - 1, 1
  {
    hide Rewrite, Tree, Faithful, Leads, Grounded;
    assert r[..1] == [r[0]] && p + r == p + [r[0]] + r[1..];
    GroundedShift(fs, chase, p, r, 1, q);
    RewriteReflects(fs, rl, chase, q, r[1..], k, n);
  }

  /** The step that puts the text of a link in the place of the first m components or of the last done. */
  lemma {:induction false} Through(fs: Fs, rl: Readlink, chase: bool, p: seq<string>, r: seq<string>, m: nat,
                                   base: seq<string>, t: string, k: nat, n: Id)
    requires Tree(fs) && Faithful(fs, rl) && Names(base) && Components(r) && Grounded(fs, chase, p, r) && 0 < k
    requires m <= |r| && Same(fs, p + r[..m], base + Comps(t)) && exists x :: Leads(fs, p + r[..m], x)
    requires Rewrite(rl, chase, base, Comps(t) + r[m..], k - 1).Some?
    requires Leads(fs, Rewrite(rl, chase, base, Comps(t) + r[m..], k - 1).value, n)
    ensures Leads(fs, p + r, n)
    decreases k, 0, 0
  {
    hide Rewrite, Tree, Faithful, Leads, Grounded, Comps;
    var x :| Leads(fs, p + r[..m], x);
    assert p + r[..m] + [] == p + r[..m] && base + Comps(t) + [] == base + Comps(t);
    GroundedShift(fs, chase, p, r, m, base + Comps(t));
    GroundedJoin(fs, chase, base, Comps(t), r[m..], x);
    CompsAreComponents(t);
    RewriteReflects(fs, rl, chase, base, Comps(t) + r[m..], k - 1, n);
    assert p + r == p + r[..m] + r[m..] && base + (Comps(t) + r[m..]) == base + Comps(t) + r[m..];
  }

  lemma FirstGrounded(fs: Fs, chase: bool, p: seq<string>, r: seq<string>)
    requires Grounded(fs, chase, p, r) && r != []
    ensures GroundedAt(fs, chase, p, r[0])
    ensures r[0] == "." || r[0] == ".." ==> AtDir(fs, p) && exists x :: Leads(fs, p, x)
  {
    hide Leads;
    assert p + r[..0] == p;
  }

  lemma SameItself(fs: Fs, p: seq<string>)
    ensures Same(fs, p, p)
  {
  }

  /** The directory that the last name of a path is in. */
  lemma ParentOf(fs: Fs, q: seq<string>, c: string) returns (e: Id)
    requires AtDir(fs, q + [c])
    ensures DirAt(fs, q, e)
  {
    hide Leads;
    var d :| DirAt(fs, q + [c], d);
    LeadsPrefix(fs, q, [c], d);
    e :| DirAt(fs, q, e);
  }

  lemma ReadlinkIs(fs: Fs, rl: Readlink, q: seq<string>, c: string, e: Id)
    requires Faithful(fs, rl) && Names(q) && Name(c) && DirAt(fs, q, e)
    ensures rl(Text(q + [c])) == LinkIn(fs, e, c)
  {
  }

  lemma LinkFound(fs: Fs, rl: Readlink, p: seq<string>, c: string) returns (e: Id)
    requires Faithful(fs, rl) && Names(p) && Name(c) && rl(Text(p + [c])).Some?
    ensures DirAt(fs, p, e) && LinkIn(fs, e, c) == rl(Text(p + [c]))
  {
    hide Text, Leads;
    e :| DirAt(fs, p, e);
  }

  lemma LinkLeads(fs: Fs, chase: bool, p: seq<string>, c: string, e: Id)
    requires GroundedAt(fs, chase, p, c) && chase && Name(c) && DirAt(fs, p, e) && LinkIn(fs, e, c).Some?
    ensures exists n :: Leads(fs, p + [c], n)
  {
  }

  /** With room for the links, a rewriting gives the same path whatever the room. */
  lemma {:induction false} RewriteRoom(rl: Readlink, chase: bool, p: seq<string>, r: seq<string>, j: nat, k: nat)
    requires j <= k && Rewrite(rl, chase, p, r, j).Some?
    ensures Rewrite(rl, chase, p, r, k) == Rewrite(rl, chase, p, r, j)
    decreases k - j
  {
    if j < k {
      RewriteMore(rl, chase, p, r, j);
      RewriteRoom(rl, chase, p, r, j + 1, k);
    }
  }

  /** When a rewriting has ended: the path leads to a node if and only if it is grounded and what it was
      rewritten to leads there. */
  lemma RewriteExact(fs: Fs, rl: Readlink, chase: bool, r: seq<string>, k: nat, n: Id)
    requires Tree(fs) && Faithful(fs, rl) && Components(r) && Rewrite(rl, chase, [], r, k).Some?
    ensures Leads(fs, r, n) <==> Grounded(fs, chase, [], r) && Leads(fs, Rewrite(rl, chase, [], r, k).value, n)
  {
    hide Tree, Faithful, Grounded;
    assert [] + r == r;
    if Leads(fs, r, n) {
      var j: nat :| Resolves(fs, r, j, n);
      RewriteResolves(fs, rl, chase, [], r, j, n);
      if j <= k {
        RewriteRoom(rl, chase, [], r, j, k);
      } else {
        RewriteRoom(rl, chase, [], r, k, j);
      }
      LeadsGrounded(fs, chase, [], r, n);
    } else if Grounded(fs, chase, [], r) && Leads(fs, Rewrite(rl, chase, [], r, k).value, n) {
      RewriteReflects(fs, rl, chase, [], r, k, n);
    }
  }

  // ---------------------------------------------------------------- when the rewriting ends

  /** Without ".." and without chase nothing is expanded. */
  lemma {:induction false} NoBackEnds(rl: Readlink, p: seq<string>, r: seq<string>)
    requires ".." !in r
    ensures Rewrite(rl, false, p, r, 0).Some?
    decreases |r|
  {
    if r != [] {
      NoBackEnds(rl, if r[0] == "." then p else p + [r[0]], r[1..]);
    }
  }

  /** Rewriting in two parts. */
  lemma {:induction false} RewriteAppend(rl: Readlink, chase: bool, p: seq<string>, a: seq<string>, b: seq<string>,
                                         k: nat)
    requires Rewrite(rl, chase, p, a, k).Some? && Rewrite(rl, chase, Rewrite(rl, chase, p, a, k).value, b, 0).Some?
    ensures Rewrite(rl, chase, p, a + b, k) == Rewrite(rl, chase, Rewrite(rl, chase, p, a, k).value, b, 0)
    decreases k, |a|
  {
    hide Text, Comps;
    if a == [] {
      assert a + b == b;
      RewriteRoom(rl, chase, p, b, 0, k);
      return;
    }
    assert (a + b)[0] == a[0] && (a + b)[1..] == a[1..] + b;
    if a[0] == "." {
      RewriteAppend(rl, chase, p, a[1..], b, k);
    } else if a[0] == ".." {
      if p != [] && rl(Text(p)).Some? {
        var t := rl(Text(p)).value;
        assert Comps(t) + (a + b) == (Comps(t) + a) + b;
        RewriteAppend(rl, chase, LinkBase(Up(p), t), Comps(t) + a, b, k - 1);
      } else {
        RewriteAppend(rl, chase, Up(p), a[1..], b, k);
      }
    } else if chase && rl(Text(p + [a[0]])).Some? {
      var t := rl(Text(p + [a[0]])).value;
      assert Comps(t) + (a[1..] + b) == (Comps(t) + a[1..]) + b;
      RewriteAppend(rl, chase, LinkBase(p, t), Comps(t) + a[1..], b, k - 1);
    } else {
      RewriteAppend(rl, chase, p + [a[0]], a[1..], b, k);
    }
  }

  /** The rewriting of a grounded path ends, even if the path leads nowhere. */
  lemma {:induction false} GroundedEnds(fs: Fs, rl: Readlink, chase: bool, r: seq<string>) returns (k: nat)
    requires Tree(fs) && Faithful(fs, rl) && Components(r) && Grounded(fs, chase, [], r)
    ensures Rewrite(rl, chase, [], r, k).Some?
    decreases |r|
  {
    hide Tree, Faithful, Comps, Text, Leads, AtDir, IsLink, GroundedAt;
    if r == [] {
      return 0;
    }
    var a, c := r[..|r| - 1], r[|r| - 1];
    assert r == a + [c] && [] + a == a;
    GroundedFront(fs, chase, r);
    if exists n :: Leads(fs, r, n) {
      var n :| Leads(fs, r, n);
      k := LeadsEnds(fs, rl, chase, r, n);
      return;
    }
    k := GroundedEnds(fs, rl, chase, a);
    LastIsName(fs, chase, a, c);
    var o := Rewrite(rl, chase, [], a, k).value;
    RewriteCanonicalNames(rl, chase, a, k);
    if chase && rl(Text(o + [c])).Some? {
      var e := LinkFound(fs, rl, o, c);
      RewriteExact(fs, rl, chase, a, k, e);
      LinkHere(fs, chase, a, c, e);
    }
    assert [c][1..] == [];
    RewriteAppend(rl, chase, [], a, [c], k);
  }

  lemma GroundedFront(fs: Fs, chase: bool, r: seq<string>)
    requires r != [] && Grounded(fs, chase, [], r)
    ensures Grounded(fs, chase, [], r[..|r| - 1]) && GroundedAt(fs, chase, r[..|r| - 1], r[|r| - 1])
  {
    hide GroundedAt;
    var a := r[..|r| - 1];
    assert [] + a == a;
    forall i | 0 <= i < |a| ensures GroundedAt(fs, chase, [] + a[..i], a[i]) {
      assert a[..i] == r[..i];
    }
  }

  lemma LeadsEnds(fs: Fs, rl: Readlink, chase: bool, r: seq<string>, n: Id) returns (k: nat)
    requires Tree(fs) && Faithful(fs, rl) && Components(r) && Leads(fs, r, n)
    ensures Rewrite(rl, chase, [], r, k).Some?
  {
    hide Tree, Faithful, Resolves, Rewrite;
    k :| Resolves(fs, r, k, n);
    assert [] + r == r;
    RewriteResolves(fs, rl, chase, [], r, k, n);
  }

  /** A grounded path that ends in "." or ".." leads somewhere. */
  lemma LastIsName(fs: Fs, chase: bool, a: seq<string>, c: string)
    requires Tree(fs) && Component(c) && GroundedAt(fs, chase, a, c) && !exists n :: Leads(fs, a + [c], n)
    ensures Name(c)
  {
    if c == "." || c == ".." {
      var d: Id :| DirAt(fs, a, d);
      var k: nat :| Resolves(fs, a, k, d);
      WalkAppend(fs, fs.root, a, [c], k);
      assert [c][1..] == [];
      var n: Id := if c == "." then d else fs.nodes[d].parent;
      assert Resolves(fs, a + [c], k, n);
      assert Leads(fs, a + [c], n);
    }
  }

  lemma RewriteCanonicalNames(rl: Readlink, chase: bool, r: seq<string>, k: nat)
    requires Rewrite(rl, chase, [], r, k).Some? && Components(r)
    ensures Names(Rewrite(rl, chase, [], r, k).value)
  {
    RewriteCanonical(rl, chase, [], r, k);
  }

  lemma LinkHere(fs: Fs, chase: bool, a: seq<string>, c: string, e: Id)
    requires GroundedAt(fs, chase, a, c) && chase && Name(c) && IsDir(fs, e) && Leads(fs, a, e)
             && LinkIn(fs, e, c).Some?
    ensures exists n :: Leads(fs, a + [c], n)
  {
    assert DirAt(fs, a, e);
  }


  /** A path that leads nowhere may be rewritten to one that does lead somewhere: a name that does not
      exist cancels as well. */
  lemma MissingNameCancels(rl: Readlink, chase: bool, k: nat)
    requires Faithful(Fs(0, map[0 := Dir(0, map[])]), rl)
    ensures var fs := Fs(0, map[0 := Dir(0, map[])]);
            && Tree(fs) && Rewrite(rl, chase, [], ["nofile", ".."], k) == Some([])
            && Resolves(fs, [], k, fs.root) && forall j, n :: !Resolves(fs, ["nofile", ".."], j, n)
  {
    var fs := Fs(0, map[0 := Dir(0, map[])]);
    assert ["nofile", ".."][1..] == [".."] && [".."][1..] == [];
    assert Walk(fs, fs.root, [], k) == Some((fs.root, k));
    assert Name("nofile") by { assert "nofile" == ['n', 'o', 'f', 'i', 'l', 'e']; }
    assert [] + ["nofile"] == ["nofile"];
    assert Resolves(fs, [], k, fs.root) && DirAt(fs, [], fs.root);
    assert rl(Text([] + ["nofile"])) == LinkIn(fs, fs.root, "nofile");
    assert Rewrite(rl, chase, [], ["nofile", ".."], k) == Rewrite(rl, chase, ["nofile"], [".."], k);
    assert Rewrite(rl, chase, ["nofile"], [".."], k) == Rewrite(rl, chase, Up(["nofile"]), [], k);
  }

  /** A link to itself before ".." is expanded for ever. */
  lemma {:induction false} SelfLinkNeverEnds(rl: Readlink, chase: bool, k: nat)
    requires !chase && rl(Text(["a"])) == Some("a")
    ensures Rewrite(rl, chase, [], ["a", ".."], k).None?
  {
    assert ["a", ".."][1..] == [".."] && [] + ["a"] == ["a"] && Up(["a"]) == [];
    assert Rewrite(rl, chase, [], ["a", ".."], k) == Rewrite(rl, chase, ["a"], [".."], k);
    if k > 0 {
      SelfLinkNeverEnds(rl, chase, k - 1);
      assert UpToSlash("a") == 1 by { assert "a"[1..] == []; }
      assert Comps("a") == ["a"] by { assert "a"[1..] == [] && "a"[..1] == "a"; }
      assert ["a"] + [".."] == ["a", ".."];
    }
  }
}
