/** dcanon_internal (sh.dir.c): the path is rewritten in place, in one buffer. */
module DirCanon {
  import opened Basics
  import opened Canon

  const NUL := '\0'

  /** The buffer holds s and a NUL after it. */
  ghost predicate Buf(cp: array<char>, s: string)
    reads cp
  {
    |s| < cp.Length && cp[|s|] == NUL && forall k | 0 <= k < |s| :: cp[k] == s[k]
  }

  predicate Tail(t: string) {
    t == [] || t[0] == '/'
  }

  /** p is after the components that are done; the tail is to come. */
  ghost predicate Here(cp: array<char>, p: nat, done: seq<string>, tail: string)
    reads cp
  {
    && Buf(cp, Text(done) + tail) && p == |Text(done)|
    && NUL !in Text(done) + tail && Components(done) && Tail(tail) && (tail == [] ==> done != [])
  }

  function Final(done: seq<string>): string {
    if done == [] then "/" else Text(done)
  }

  /** The path has been dealt with, and p is at a NUL. */
  ghost predicate Ended(cp: array<char>, p: nat, done: seq<string>)
    reads cp
  {
    p < cp.Length && cp[p] == NUL && Buf(cp, Final(done)) && NUL !in Final(done)
  }

  ghost predicate NulFree(rl: Readlink) {
    forall s :: rl(s).Some? ==> NUL !in rl(s).value
  }

  // ---------------------------------------------------------------- moving text

  /** The string from b on moves down to a, with its NUL. */
  method Shift(cp: array<char>, a: nat, b: nat, ghost s: string)
    requires Buf(cp, s) && a <= b <= |s| && NUL !in s[b..]
    modifies cp
    ensures Buf(cp, s[..a] + s[b..])
  {
    var p1, p2 := a, b;
    while true
      invariant b <= p2 <= |s| && p1 == a + p2 - b
      invariant forall k | 0 <= k < a :: cp[k] == s[k]
      invariant forall k | a <= k < p1 :: cp[k] == s[k + (b - a)]
      invariant forall k | p1 < k && p2 <= k < |s| :: cp[k] == s[k]
      invariant p2 < |s| ==> cp[p2] == s[p2]
      invariant cp[|s|] == NUL
      decreases |s| - p2
    {
      assert p2 < |s| ==> s[p2] == s[b..][p2 - b];
      cp[p1] := cp[p2];
      if cp[p1] == NUL {
        break;
      }
      p1, p2 := p1 + 1, p2 + 1;
    }
  }

  /** Strcpy of src to position at. */
  method CopyTo(cp: array<char>, at: nat, src: string, ghost s: string)
    requires at + |src| < cp.Length && |s| == at && forall k | 0 <= k < at :: cp[k] == s[k]
    modifies cp
    ensures Buf(cp, s + src)
  {
    var k := 0;
    while k < |src|
      invariant k <= |src| && forall j | 0 <= j < at + k :: cp[j] == (s + src)[j]
    {
      cp[at + k] := src[k];
      k := k + 1;
    }
    cp[at + k] := NUL;
  }

  /** The string at p. */
  method StringAt(cp: array<char>, p: nat, ghost s: string) returns (r: string)
    requires p <= |s| && Buf(cp, s) && NUL !in s[p..]
    ensures r == s[p..]
  {
    var e := p;
    while cp[e] != NUL
      invariant p <= e <= |s|
      decreases |s| - e
    {
      e := e + 1;
    }
    assert forall k | p <= k < |s| :: s[k] == s[p..][k - p];
    r := cp[p..e];
  }

  /** Of the q slashes at p0 only one is left. */
  method Flush(cp: array<char>, p0: nat, ghost d: string, ghost tail: string) returns (ghost q: nat)
    requires Buf(cp, d + tail) && NUL !in tail && p0 == |d| && tail != [] && tail[0] == '/'
    modifies cp
    ensures 0 < q <= |tail| && (forall k | 0 <= k < q :: tail[k] == '/') && (q < |tail| ==> tail[q] != '/')
    ensures Buf(cp, d + "/" + tail[q..])
  {
    ghost var s := d + tail;
    var p := p0 + 1;
    q := 1;
    CharAt(cp, p0, d, tail, q);
    while cp[p] == '/'
      invariant Buf(cp, s) && p == p0 + q && q <= |tail| && forall k | 0 <= k < q :: tail[k] == '/'
      invariant cp[p] == if q < |tail| then tail[q] else NUL
      decreases |tail| - q
    {
      p, q := p + 1, q + 1;
      CharAt(cp, p0, d, tail, q);
    }
    assert s[..p0 + 1] == d + "/" && s[p..] == tail[q..];
    if p != p0 + 1 {
      Shift(cp, p0 + 1, p, s);
    } else {
      assert s == s[..p0 + 1] + s[p..];
    }
  }

  /** The path is cut at the next slash, e characters on, or it ends there. */
  method Cut(cp: array<char>, sp: nat, ghost d: string, ghost t: string) returns (p: nat, slash: bool, ghost e: nat)
    requires Buf(cp, d + t) && NUL !in t && sp == |d| && (t != [] ==> t[0] != '/')
    modifies cp
    ensures e <= |t| && p == sp + e && '/' !in t[..e] && (slash <==> e < |t|) && (slash ==> t[e] == '/')
    ensures Buf(cp, if slash then (d + t)[p := NUL] else d + t)
    ensures t != [] ==> e > 0
  {
    p, slash, e := sp, false, 0;
    CharAt(cp, sp, d, t, 0);
    if cp[p] != NUL {
      p, e := p + 1, 1;
      CharAt(cp, sp, d, t, e);
      while cp[p] != NUL
        invariant Buf(cp, d + t) && e <= |t| && p == sp + e && !slash && '/' !in t[..e]
        invariant cp[p] == if e < |t| then t[e] else NUL
        decreases |t| - e
      {
        if cp[p] == '/' {
          slash := true;
          cp[p] := NUL;
          return;
        }
        p, e := p + 1, e + 1;
        CharAt(cp, sp, d, t, e);
      }
    }
  }

  lemma CharAt(cp: array<char>, sp: nat, d: string, t: string, e: nat)
    requires Buf(cp, d + t) && sp == |d| && e <= |t|
    ensures sp + e < cp.Length && cp[sp + e] == if e < |t| then t[e] else NUL
  {
  }

  // ---------------------------------------------------------------- texts

  lemma TextMore(done: seq<string>, c: string)
    ensures Text(done + [c]) == Text(done) + "/" + c
  {
    assert (done + [c])[..|done|] == done;
  }

  lemma TextUp(done: seq<string>)
    requires done != [] && Components(done)
    ensures Text(done) == Text(Up(done)) + "/" + done[|done| - 1]
    ensures '/' !in done[|done| - 1] && done[|done| - 1] != []
  {
  }

  lemma {:induction false} SlashesComps(t: string, n: nat)
    requires n <= |t| && forall k | 0 <= k < n :: t[k] == '/'
    ensures Comps(t) == Comps(t[n..])
  {
    if n > 0 {
      SlashesComps(t[1..], n - 1);
      assert t[1..][n - 1..] == t[n..];
    } else {
      assert t[0..] == t;
    }
  }

  // ---------------------------------------------------------------- one component

  /** The component at sp is c, up to p, where the text is cut; rest comes after it. */
  ghost predicate Split(cp: array<char>, sp: nat, p: nat, slash: bool, done: seq<string>, c: string, rest: string)
    reads cp
  {
    var s := Text(done) + "/" + c + rest;
    && NUL !in s && Components(done) && Tail(rest) && '/' !in c && (c == [] ==> rest == [])
    && sp == |Text(done)| + 1 && p == sp + |c| && (slash <==> rest != [])
    && Buf(cp, if slash then s[p := NUL] else s)
  }

  method NextComponent(cp: array<char>, p0: nat, ghost done: seq<string>, ghost tail: string)
    returns (sp: nat, p: nat, slash: bool, ghost c: string, ghost rest: string)
    requires Here(cp, p0, done, tail) && tail != []
    modifies cp
    ensures Split(cp, sp, p, slash, done, c, rest)
    ensures Comps(tail) == (if c == [] then [] else [c]) + Comps(rest) && |rest| < |tail|
  {
    hide Text, Comps;
    ghost var d := Text(done);
    assert NUL !in tail by {
      assert forall k | 0 <= k < |tail| :: tail[k] == (d + tail)[|d| + k];
    }
    ghost var q := Flush(cp, p0, d, tail);
    ghost var t := tail[q..];
    sp := p0 + 1;
    ghost var e;
    p, slash, e := Cut(cp, sp, d + "/", t);
    c, rest := t[..e], t[e..];
    assert d + "/" + c + rest == d + "/" + t;
    TailParts(c, rest, tail, q);
  }

  lemma TailParts(c: string, rest: string, tail: string, q: nat)
    requires 0 < q <= |tail| && tail[q..] == c + rest && '/' !in c && Tail(rest)
    requires forall k | 0 <= k < q :: tail[k] == '/'
    ensures Comps(tail) == (if c == [] then [] else [c]) + Comps(rest) && |rest| < |tail|
  {
    SlashesComps(tail, q);
    CompsAppend(c, rest);
    if c != [] {
      OneComponent(c);
    }
  }

  lemma TextEmpty(done: seq<string>)
    ensures Text(done) == [] <==> done == []
  {
  }

  /** What the loop goes on with, when a component of the buffer has been dealt with. */
  ghost predicate After(cp: array<char>, p: nat, done: seq<string>, rest: string)
    reads cp
  {
    if rest == [] then Ended(cp, p, done) else Here(cp, p, done, rest)
  }

  lemma SplitParts(done: seq<string>, c: string, rest: string)
    requires NUL !in Text(done) + "/" + c + rest
    ensures NUL !in Text(done) && NUL !in c && NUL !in rest && NUL !in Text(done) + rest
  {
    var d, s := Text(done), Text(done) + "/" + c + rest;
    assert forall k | 0 <= k < |d| :: d[k] == s[k];
    assert forall k | 0 <= k < |c| :: c[k] == s[|d| + 1 + k];
    assert forall k | 0 <= k < |rest| :: rest[k] == s[|d| + 1 + |c| + k];
  }

  /** The component is null: a slash at the end goes, but not that of the root. */
  method EmptyCase(cp: array<char>, sp0: nat, p: nat, ghost done: seq<string>)
    requires Split(cp, sp0, p, false, done, [], [])
    modifies cp
    ensures Ended(cp, p, done)
  {
    hide Text;
    TextEmpty(done);
    SplitParts(done, [], []);
    var sp := sp0 - 1;
    if sp != 0 {
      cp[sp] := NUL;
    }
  }

  /** The component is ".". */
  method DotCase(cp: array<char>, sp0: nat, p0: nat, slash: bool, ghost done: seq<string>, ghost rest: string)
    returns (p: nat)
    requires Split(cp, sp0, p0, slash, done, ".", rest)
    modifies cp
    ensures After(cp, p, done, rest)
  {
    hide Text;
    TextEmpty(done);
    SplitParts(done, ".", rest);
    p := p0;
    var sp := sp0;
    if slash {
      assert Text(done) + "/" + "." + rest == Text(done) + "/." + rest;
      Join(cp, sp, p, Text(done), "/.", rest);
      sp := sp - 1;
      p := sp;
    } else {
      sp := sp - 1;
      if sp != 0 {
        cp[sp] := NUL;
      } else {
        cp[1] := NUL;
      }
    }
  }

  /** The rest after the cut moves down, and m, before it, goes. */
  method Join(cp: array<char>, a: nat, b: nat, ghost d: string, ghost m: string, ghost rest: string)
    requires b == |d| + |m| && a == |d| + 1 && m != [] && m[0] == '/' && rest != [] && rest[0] == '/'
    requires Buf(cp, (d + m + rest)[b := NUL]) && NUL !in rest
    modifies cp
    ensures Buf(cp, d + rest)
  {
    ghost var s := (d + m + rest)[b := NUL];
    assert s[b + 1..] == rest[1..] && s[..a] == d + "/";
    assert d + "/" + rest[1..] == d + rest;
    Shift(cp, a, b + 1, s);
  }

  /** Back to the slash before the name. */
  method BackToSlash(cp: array<char>, sp0: nat, ghost d: string, ghost c: string, ghost rest: string) returns (sp: nat)
    requires Buf(cp, d + "/" + c + rest) && '/' !in c && sp0 == |d| + 1 + |c|
    ensures sp == |d|
  {
    ghost var s := d + "/" + c + rest;
    forall k | |d| < k < |d| + 1 + |c| ensures cp[k] != '/' {
      assert s[k] == c[k - |d| - 1];
    }
    assert cp[|d|] == s[|d|] == '/';
    sp := sp0 - 1;
    while cp[sp] != '/'
      invariant |d| <= sp < |d| + 1 + |c|
      decreases sp
    {
      sp := sp - 1;
    }
  }

  /** What is cut off by "..": the last name with its slash, if there is one, and "/..". */
  function Gone(done: seq<string>): (m: string)
    ensures m != [] && m[0] == '/'
  {
    if done == [] then "/.." else "/" + done[|done| - 1] + "/.."
  }

  lemma BackText(done: seq<string>, rest: string)
    requires Components(done)
    ensures Text(done) + "/" + ".." + rest == Text(Up(done)) + Gone(done) + rest
    ensures done != [] ==> Text(done) + "/" + ".." + rest == Text(Up(done)) + "/" + done[|done| - 1] + ("/.." + rest)
    ensures done != [] ==> |Text(done)| == |Text(Up(done))| + 1 + |done[|done| - 1]| && '/' !in done[|done| - 1]
    ensures Components(Up(done))
    ensures NUL !in Text(done) ==> NUL !in Text(Up(done))
  {
    if done == [] {
      assert Text(done) + "/" + ".." == Gone(done);
    } else {
      TextUp(done);
      var d, last := Text(Up(done)), done[|done| - 1];
      Regroup(d, last, rest);
      assert forall k | 0 <= k < |d| :: d[k] == Text(done)[k];
    }
  }

  lemma Regroup(d: string, last: string, rest: string)
    ensures d + "/" + last + "/" + ".." + rest == d + "/" + last + ("/.." + rest)
    ensures d + "/" + last + "/" + ".." + rest == d + ("/" + last + "/..") + rest
  {
  }

  /** The contents of the buffer when ".." is cut out, in terms of the text that will stay. */
  lemma BackContents(cp: array<char>, sp: nat, p: nat, slash: bool, done: seq<string>, rest: string)
    requires Split(cp, sp + 1, p, slash, done, "..", rest)
    ensures var d, m := Text(Up(done)), Gone(done);
            && sp == |Text(done)| && p == |d| + |m| && (sp == 0 <==> done == []) && (d == [] <==> Up(done) == [])
            && (slash <==> rest != []) && Buf(cp, if slash then (d + m + rest)[p := NUL] else d + m)
            && p < cp.Length && cp[p] == NUL && Tail(rest) && NUL !in d && NUL !in rest && NUL !in d + rest
            && Components(Up(done)) && (done == [] ==> d == [])
            && (done != [] ==>
                  && sp == |d| + 1 + |done[|done| - 1]| && '/' !in done[|done| - 1]
                  && Buf(cp, d + "/" + done[|done| - 1] + ("/.." + CutRest(rest))))
  {
    hide Text, Buf, Components;
    TextEmpty(done);
    TextEmpty(Up(done));
    SplitParts(done, "..", rest);
    BackText(done, rest);
    var d, s := Text(Up(done)), Text(done) + "/" + ".." + rest;
    NulParts(d, rest);
    assert rest == [] ==> d + Gone(done) + rest == d + Gone(done);
    CutCell(cp, p, s, slash);
    if done != [] {
      var cut := CutRest(rest);
      BackText(done, cut);
      assert (Text(done) + "/" + ".." + rest)[|Text(done)| + 3..] == rest;
      assert slash ==> s[p := NUL] == Text(done) + "/" + ".." + cut;
      assert Buf(cp, d + "/" + done[|done| - 1] + ("/.." + cut));
    }
  }

  /** The rest as it is while its slash is overwritten. */
  function CutRest(rest: string): string {
    if rest == [] then [] else rest[0 := NUL]
  }

  lemma CutCell(cp: array<char>, p: nat, s: string, slash: bool)
    requires p <= |s| && (slash <==> p < |s|) && Buf(cp, if slash then s[p := NUL] else s)
    ensures p < cp.Length && cp[p] == NUL
  {
  }

  /** The component is "..", and what is before it is not a link: the last name goes. */
  method BackCase(cp: array<char>, sp0: nat, p0: nat, slash: bool, ghost done: seq<string>, ghost rest: string)
    returns (p: nat)
    requires Split(cp, sp0 + 1, p0, slash, done, "..", rest)
    modifies cp
    ensures After(cp, p, Up(done), rest)
  {
    hide Text, Up, Gone, Components, CutRest, Split;
    BackContents(cp, sp0, p0, slash, done, rest);
    ghost var d := Text(Up(done));
    p := p0;
    var sp := sp0;
    if sp != 0 {
      sp := BackToSlash(cp, sp, d, done[|done| - 1], "/.." + CutRest(rest));
    }
    if slash {
      Join(cp, sp + 1, p, d, Gone(done), rest);
      p := sp;
    } else {
      EndAt(cp, sp, p, d, Gone(done));
    }
  }

  /** The path ends at sp, or after the slash of the root. */
  method EndAt(cp: array<char>, sp0: nat, p: nat, ghost d: string, ghost m: string)
    requires Buf(cp, d + m) && sp0 == |d| && m != [] && m[0] == '/' && p < cp.Length && cp[p] == NUL
    modifies cp
    ensures Buf(cp, if d == [] then "/" else d) && cp[p] == NUL
  {
    var sp := sp0;
    if sp == 0 {
      sp := sp + 1;
    }
    cp[sp] := NUL;
  }

  lemma NulParts(a: string, b: string)
    requires NUL !in a && NUL !in b
    ensures NUL !in a + b
  {
  }

  // ---------------------------------------------------------------- links

  /** What the loop goes on with when the text t of a link has replaced a name. */
  function LinkTail(t: string, rest: string): string {
    (if Absolute(t) then t else "/" + t) + rest
  }

  lemma LinkTailComps(t: string, rest: string)
    requires Tail(rest)
    ensures Comps(LinkTail(t, rest)) == Comps(t) + Comps(rest)
    ensures Tail(LinkTail(t, rest)) && LinkTail(t, rest) != []
    ensures NUL !in t && NUL !in rest ==> NUL !in LinkTail(t, rest)
  {
    CompsAppend(t, rest);
    if !Absolute(t) {
      assert ("/" + t + rest)[1..] == t + rest;
    }
  }

  /** The buffer is replaced: the text of the link takes the place of the name before p. */
  method Expand(cp: array<char>, p: nat, mlink: string, ghost q: seq<string>, ghost c: string, ghost rest: string)
    returns (newcp: array<char>, np: nat)
    requires Buf(cp, Text(q) + "/" + c + rest) && p == |Text(q)| + 1 + |c| && '/' !in c && c != []
    requires Tail(rest) && NUL !in Text(q) + "/" + c + rest && NUL !in mlink && Components(q)
    modifies cp
    ensures fresh(newcp) && Here(newcp, np, LinkBase(q, mlink), LinkTail(mlink, rest))
  {
    hide Text, LinkTail;
    ghost var d, s := Text(q), Text(q) + "/" + c + rest;
    SplitParts(q, c, rest);
    LinkTailComps(mlink, rest);
    assert s[p..] == rest;
    var after := StringAt(cp, p, s);
    if mlink == [] || mlink[0] != '/' {
      var sp := BackToSlash(cp, p, d, c, rest);
      sp := sp + 1;
      cp[sp] := NUL;
      assert cp[..sp] == d + "/";
      newcp := Concat(cp[..sp], mlink, after);
      np := sp - 1;
      LinkText(q, mlink, rest);
      NulParts(d, LinkTail(mlink, rest));
    } else {
      newcp := Concat([], mlink, after);
      np := 0;
      LinkText([], mlink, rest);
    }
  }

  /** A new buffer, just long enough for the three texts. */
  method Concat(a: string, b: string, c: string) returns (cp: array<char>)
    ensures fresh(cp) && Buf(cp, a + b + c)
  {
    cp := new char[|a| + |b| + |c| + 1];
    CopyTo(cp, 0, a, []);
    CopyTo(cp, |a|, b, a);
    CopyTo(cp, |a| + |b|, c, a + b);
  }

  lemma LinkText(q: seq<string>, t: string, rest: string)
    ensures Text(q) + LinkTail(t, rest) == Text(q) + (if Absolute(t) then "" else "/") + t + rest
    ensures Text([]) == [] && [] + LinkTail(t, rest) == LinkTail(t, rest)
    ensures Absolute(t) ==> LinkTail(t, rest) == [] + t + rest
  {
    hide Text;
    TextEmpty([]);
    assert "/" + t + rest == "/" + (t + rest);
  }

  // ---------------------------------------------------------------- the loop

  /** How far the rewriting has come. */
  datatype State = State(done: seq<string>, tail: string, k: nat, over: bool)

  function Goal(rl: Readlink, chase: bool, st: State): Option<seq<string>> {
    Rewrite(rl, chase, st.done, Comps(st.tail), st.k)
  }

  ghost predicate Shows(cp: array<char>, p: nat, st: State)
    reads cp
  {
    && (if st.over then Ended(cp, p, st.done) && st.tail == [] else Here(cp, p, st.done, st.tail))
    && Components(st.done)
  }

  /** Whether the path at the end of s is a link. */
  method AReadlink(cp: array<char>, rl: Readlink, ghost s: string) returns (link: Option<string>)
    requires Buf(cp, s) && NUL !in s
    ensures link == rl(s)
  {
    assert s[0..] == s;
    var path := StringAt(cp, 0, s);
    return rl(path);
  }

  lemma RewriteLink(rl: Readlink, chase: bool, done: seq<string>, rest: string, k: nat)
    requires done != [] && rl(Text(done)).Some?
    requires Rewrite(rl, chase, done, [".."] + Comps(rest), k).Some? && Tail(rest)
    ensures var t := rl(Text(done)).value;
            k > 0 && Rewrite(rl, chase, done, [".."] + Comps(rest), k)
                  == Rewrite(rl, chase, LinkBase(Up(done), t), Comps(LinkTail(t, "/.." + rest)), k - 1)
  {
    hide Comps, Text;
    LinkTailComps(rl(Text(done)).value, "/.." + rest);
    DotDotComps(rest);
  }

  lemma DotDotComps(rest: string)
    requires Tail(rest)
    ensures Comps("/.." + rest) == [".."] + Comps(rest)
  {
    CompsAppend("/..", rest);
    assert "/.."[1..] == "..";
    OneComponent("..");
  }

  lemma RewriteBack(rl: Readlink, chase: bool, done: seq<string>, rest: string, k: nat)
    requires done == [] || rl(Text(done)).None?
    ensures Rewrite(rl, chase, done, [".."] + Comps(rest), k) == Rewrite(rl, chase, Up(done), Comps(rest), k)
  {
    hide Text, Comps;
    assert ([".."] + Comps(rest))[1..] == Comps(rest);
  }

  /** The slashes are put back and the link is expanded before "..". */
  method LinkBack(cp: array<char>, sp: nat, p0: nat, slash: bool, mlink: string, ghost done: seq<string>,
                  ghost rest: string)
    returns (ncp: array<char>, p: nat)
    requires var s := Text(done) + "/" + ".." + rest;
             && Components(done) && done != [] && NUL !in s && NUL !in mlink && Tail(rest)
             && sp == |Text(done)| && p0 == sp + 3 && (slash <==> rest != []) && |s| < cp.Length && cp[|s|] == NUL
             && forall k | 0 <= k < |s| && k != sp && k != p0 :: cp[k] == s[k]
    modifies cp
    ensures fresh(ncp) && Here(ncp, p, LinkBase(Up(done), mlink), LinkTail(mlink, "/.." + rest))
  {
    hide Text, Comps, LinkTail;
    ghost var s := Text(done) + "/" + ".." + rest;
    if slash {
      cp[p0] := '/';
    }
    cp[sp] := '/';
    assert Buf(cp, s);
    BackText(done, rest);
    ncp, p := Expand(cp, sp, mlink, Up(done), done[|done| - 1], "/.." + rest);
  }

  /** The component is "..". */
  method DotDotCase(cp: array<char>, sp0: nat, p0: nat, slash: bool, rl: Readlink, ghost chase: bool,
                    ghost c: string, ghost rest: string, ghost st: State)
    returns (ncp: array<char>, p: nat, ghost next: State)
    requires c == ".." && Split(cp, sp0, p0, slash, st.done, c, rest) && NulFree(rl)
    requires Rewrite(rl, chase, st.done, [".."] + Comps(rest), st.k).Some?
    modifies cp
    ensures (ncp == cp || fresh(ncp)) && Shows(ncp, p, next)
    ensures Rewrite(rl, chase, st.done, [".."] + Comps(rest), st.k) == Goal(rl, chase, next)
    ensures next.k < st.k || (next.k == st.k && next.tail == rest && (next.over <==> rest == []))
  {
    hide Text, Comps, LinkTail, Rewrite;
    ghost var done := st.done;
    SplitParts(done, c, rest);
    TextEmpty(done);
    var sp := sp0 - 1;
    cp[sp] := NUL;  // now the buffer is the path of what may be a link
    var tlink := AReadlink(cp, rl, Text(done));
    if sp != 0 && tlink.Some? {
      ncp, p := LinkBack(cp, sp, p0, slash, tlink.value, done, rest);
      RewriteLink(rl, chase, done, rest, st.k);
      next := State(LinkBase(Up(done), tlink.value), LinkTail(tlink.value, "/.." + rest), st.k - 1, false);
    } else {
      cp[sp] := '/';
      ncp := cp;
      p := BackCase(cp, sp, p0, slash, done, rest);
      RewriteBack(rl, chase, done, rest, st.k);
      next := State(Up(done), rest, st.k, rest == []);
    }
  }

  /** The component is a name. */
  method NameCase(cp: array<char>, sp: nat, p0: nat, slash: bool, rl: Readlink, chase: bool,
                  ghost c: string, ghost rest: string, ghost st: State)
    returns (ncp: array<char>, p: nat, ghost next: State)
    requires Name(c) && Split(cp, sp, p0, slash, st.done, c, rest) && NulFree(rl)
    requires Rewrite(rl, chase, st.done, [c] + Comps(rest), st.k).Some?
    modifies cp
    ensures (ncp == cp || fresh(ncp)) && Shows(ncp, p, next)
    ensures Rewrite(rl, chase, st.done, [c] + Comps(rest), st.k) == Goal(rl, chase, next)
    ensures next.k < st.k || (next.k == st.k && next.tail == rest)
  {
    hide Text, Comps, LinkTail;
    ghost var done := st.done;
    ghost var s := Text(done) + "/" + c + rest;
    SplitParts(done, c, rest);
    TextMore(done, c);
    LinkBaseText(done, c, rest);
    assert ([c] + Comps(rest))[1..] == Comps(rest);
    ncp, p := cp, p0;
    if chase {
      var tlink := AReadlink(cp, rl, Text(done + [c]));
      if tlink.Some? {
        var mlink := tlink.value;
        if slash {
          cp[p] := '/';
        }
        assert Buf(cp, s);
        ncp, p := Expand(cp, p, mlink, done, c, rest);
        LinkTailComps(mlink, rest);
        next := State(LinkBase(done, mlink), LinkTail(mlink, rest), st.k - 1, false);
        return;
      }
    }
    if slash {
      cp[p] := '/';
    }
    next := State(done + [c], rest, st.k, false);
  }

  lemma LinkBaseText(done: seq<string>, c: string, rest: string)
    requires Components(done) && Component(c)
    ensures Components(done + [c]) && NUL !in Text(done) + "/" + c + rest ==> NUL !in Text(done) + "/" + c
  {
  }

  /** What a component is, as the code tests it. */
  method Classify(cp: array<char>, sp: nat, ghost p: nat, ghost slash: bool, ghost done: seq<string>, ghost c: string,
                  ghost rest: string)
    returns (empty: bool, dot: bool, dotdot: bool)
    requires Split(cp, sp, p, slash, done, c, rest)
    ensures empty <==> c == []
    ensures !empty ==> (dot <==> c == ".")
    ensures !empty && !dot ==> (dotdot <==> c == "..")
  {
    SplitParts(done, c, rest);
    CellsOf(cp, sp, p, slash, done, c, rest);
    hide Text, Split;
    empty := cp[sp] == NUL;
    dot := !empty && cp[sp] == '.' && cp[sp + 1] == NUL;
    dotdot := !empty && cp[sp] == '.' && cp[sp + 1] == '.' && cp[sp + 2] == NUL;
  }

  lemma CellsOf(cp: array<char>, sp: nat, p: nat, slash: bool, done: seq<string>, c: string, rest: string)
    requires Split(cp, sp, p, slash, done, c, rest)
    ensures sp + |c| < cp.Length && cp[sp + |c|] == NUL && forall k | 0 <= k < |c| :: cp[sp + k] == c[k]
  {
    hide Text;
    var s := Text(done) + "/" + c + rest;
    assert forall k | 0 <= k < |c| :: s[sp + k] == c[k];
  }

  lemma RewriteDot(rl: Readlink, chase: bool, done: seq<string>, rest: string, k: nat)
    ensures Rewrite(rl, chase, done, ["."] + Comps(rest), k) == Rewrite(rl, chase, done, Comps(rest), k)
  {
    hide Text, Comps;
    assert (["."] + Comps(rest))[1..] == Comps(rest);
  }

  /** One round of the loop. */
  method Round(cp: array<char>, p0: nat, rl: Readlink, chase: bool, ghost st: State)
    returns (ncp: array<char>, p: nat, ghost next: State)
    requires Shows(cp, p0, st) && !st.over && st.tail != [] && NulFree(rl) && Goal(rl, chase, st).Some?
    modifies cp
    ensures (ncp == cp || fresh(ncp)) && Shows(ncp, p, next) && Goal(rl, chase, next) == Goal(rl, chase, st)
    ensures next.k < st.k || (next.k == st.k && |next.tail| < |st.tail|)
  {
    hide Text, Comps, Rewrite, Split;
    ghost var c, rest;
    var sp, slash;
    sp, p, slash, c, rest := NextComponent(cp, p0, st.done, st.tail);
    ncp := cp;
    NamedComponent(cp, sp, p, slash, st.done, c, rest);
    var empty, dot, dotdot := Classify(cp, sp, p, slash, st.done, c, rest);
    if empty {
      EmptyCase(cp, sp, p, st.done);
      assert [] + Comps(rest) == Comps(rest);
      next := State(st.done, [], st.k, true);
    } else if dot {
      p := DotCase(cp, sp, p, slash, st.done, rest);
      RewriteDot(rl, chase, st.done, rest, st.k);
      next := State(st.done, rest, st.k, rest == []);
    } else if dotdot {
      ncp, p, next := DotDotCase(cp, sp, p, slash, rl, chase, c, rest, st);
    } else {
      ncp, p, next := NameCase(cp, sp, p, slash, rl, chase, c, rest, st);
    }
  }

  lemma NamedComponent(cp: array<char>, sp: nat, p: nat, slash: bool, done: seq<string>, c: string, rest: string)
    requires Split(cp, sp, p, slash, done, c, rest)
    ensures Name(c) <==> c != [] && c != "." && c != ".."
    ensures c == [] ==> rest == [] && !slash
  {
  }

  /** The loop of dcanon_internal. p is after the part of the path that is already canonical; a
      relative path starts again from the working directory cwd. */
  method RewritePath(cp0: array<char>, p0: nat, cwd: string, rl: Readlink, chase: bool,
                        ghost s: string, ghost done: seq<string>, ghost tail: string, ghost k: nat)
    returns (cp: array<char>, ghost out: seq<string>)
    requires Buf(cp0, s) && NUL !in s && NUL !in cwd && Absolute(cwd) && NulFree(rl)
    requires Absolute(s) ==> s == Text(done) + tail && Here(cp0, p0, done, tail)
    requires if Absolute(s) then Rewrite(rl, chase, done, Comps(tail), k).Some?
             else Rewrite(rl, chase, [], Comps(cwd + "/" + s), k).Some?
    modifies cp0
    ensures Some(out) == if Absolute(s) then Rewrite(rl, chase, done, Comps(tail), k)
                         else Rewrite(rl, chase, [], Comps(cwd + "/" + s), k)
    ensures Buf(cp, Final(out)) && NUL !in Final(out) && Components(out)
  {
    hide Comps, Rewrite, Text, Ended;
    cp := cp0;
    var p: nat := p0;
    ghost var st := State(done, tail, k, false);
    if cp[0] != '/' {
      st := State([], cwd + "/" + s, k, false);
      TextEmpty([]);
      assert [] + st.tail == st.tail;
      NulParts(cwd + "/", s);
      assert s[0..] == s;
      var path := StringAt(cp, 0, s);
      cp := Concat(cwd, "/", path);
      p := 0;
    }
    ghost var goal := Goal(rl, chase, st);
    TailAt(cp, p, st);
    while cp[p] != NUL
      invariant (cp == cp0 || fresh(cp)) && p < cp.Length
      invariant Shows(cp, p, st) && Goal(rl, chase, st) == goal && goal.Some?
      invariant (cp[p] == NUL <==> st.over || st.tail == [])
      decreases st.k, |st.tail|
    {
      cp, p, st := Round(cp, p, rl, chase, st);
      TailAt(cp, p, st);
    }
    RewriteEnds(rl, chase, st.done, st.k);
    FinalText(cp, p, st);
    out := st.done;
  }

  // ---------------------------------------------------------------- the home directory

  /** stat: what identifies the file that a path leads to. */
  type Stat = string -> Option<Id>

  /** The path is the home directory or, by its text, below it. */
  predicate Below(home: string, s: string) {
    |home| <= |s| && s[..|home|] == home && (|s| == |home| || s[|home|] == '/')
  }

  /** How many of the first m components lead to the home directory, the longest such path first; 0 if
      none does before one cannot be found. */
  function HomeAt(node: Option<Id>, stat: Stat, out: seq<string>, m: nat): (r: nat)
    requires m <= |out|
    ensures r <= m
    decreases m
  {
    if m == 0 || stat(Text(out[..m])).None? then 0
    else if stat(Text(out[..m])) == node then m
    else HomeAt(node, stat, out, m - 1)
  }

  /** The path with the name of the home directory in front, if that is where its beginning leads. */
  function HomeText(home: string, node: Option<Id>, stat: Stat, out: seq<string>): string {
    if !Absolute(home) || Below(home, Final(out)) then Final(out)
    else if out == [] then if stat("/").Some? && stat("/") == node then home else "/"
    else if HomeAt(node, stat, out, |out|) > 0 then home + Text(out[HomeAt(node, stat, out, |out|)..])
    else Final(out)
  }

  /** How the text of a canonical path looks: it starts with a slash, no two slashes are adjacent, and only that
      of the root ends with one. */
  lemma CanonicalText(out: seq<string>)
    requires Names(out)
    ensures var s := Final(out);
            && s != [] && s[0] == '/' && (out != [] ==> s[|s| - 1] != '/') && (out == [] ==> s == "/")
            && forall k | 0 <= k < |s| - 1 :: s[k] == '/' ==> s[k + 1] != '/'
  {
    if out != [] {
      NoAdjacent(out);
    }
  }

  lemma {:induction false} NoAdjacent(out: seq<string>)
    requires Names(out) && out != []
    ensures var s := Text(out);
            && |s| > 1 && s[0] == '/' && s[|s| - 1] != '/'
            && forall k | 0 <= k < |s| - 1 :: s[k] == '/' ==> s[k + 1] != '/'
    decreases |out|
  {
    var a, c := out[..|out| - 1], out[|out| - 1];
    var s, t := Text(out), Text(a);
    assert Name(c);
    assert s == t + "/" + c;
    assert s[|s| - 1] == c[|c| - 1] && c[|c| - 1] in c;
    if a != [] {
      NoAdjacent(a);
    }
    forall k | 0 <= k < |s| - 1 ensures s[k] == '/' ==> s[k + 1] != '/' {
      if k + 1 > |t| {
        assert s[k + 1] == c[k - |t|] && c[k - |t|] in c;
      } else if k + 1 < |t| {
        assert s[k] == t[k] && s[k + 1] == t[k + 1];
      }
    }
  }

  /** What becomes of a path: a part of it that leads to the home directory, the longest one, is replaced by the
      name of that directory. */
  lemma HomeIsNamed(home: string, node: Option<Id>, stat: Stat, out: seq<string>, m: nat)
    requires Absolute(home) && !Below(home, Final(out)) && 0 < m <= |out|
    requires node.Some? && stat(Text(out[..m])) == node
    requires forall j | m < j <= |out| :: stat(Text(out[..j])).Some? && stat(Text(out[..j])) != node
    ensures HomeText(home, node, stat, out) == home + Text(out[m..])
  {
    hide Text;
    HomeReached(node, stat, out, m, |out|);
  }

  lemma {:induction false} HomeReached(node: Option<Id>, stat: Stat, out: seq<string>, m: nat, n: nat)
    requires 0 < m <= n <= |out| && node.Some? && stat(Text(out[..m])) == node
    requires forall j | m < j <= n :: stat(Text(out[..j])).Some? && stat(Text(out[..j])) != node
    ensures HomeAt(node, stat, out, n) == m
    decreases n
  {
    hide Text;
    if m < n {
      HomeReached(node, stat, out, m, n - 1);
    }
  }

  /** Every other path stays: one that has the name of the home directory in front already, and one no part of
      which leads there. */
  lemma HomeNotNamed(home: string, node: Option<Id>, stat: Stat, out: seq<string>, hs: seq<string>)
    ensures hs != [] && home == Text(hs) && |hs| <= |out| && out[..|hs|] == hs ==>
              HomeText(home, node, stat, out) == Text(out)
    ensures home == [] || home[0] != '/' ==> HomeText(home, node, stat, out) == Final(out)
    ensures out != [] && (forall j | 0 < j <= |out| :: stat(Text(out[..j])).None? || stat(Text(out[..j])) != node) ==>
              HomeText(home, node, stat, out) == Text(out)
  {
    hide Text, HomeAt;
    if hs != [] && home == Text(hs) && |hs| <= |out| && out[..|hs|] == hs {
      TextSplit(out, |hs|);
      TextStarts(out[|hs|..]);
      assert out != [] && Below(home, Text(out));
    }
    if out != [] && (forall j | 0 < j <= |out| :: stat(Text(out[..j])).None? || stat(Text(out[..j])) != node) {
      HomeNowhere(node, stat, out, |out|);
    }
  }

  lemma {:induction false} HomeNowhere(node: Option<Id>, stat: Stat, out: seq<string>, n: nat)
    requires n <= |out| && forall j | 0 < j <= n :: stat(Text(out[..j])).None? || stat(Text(out[..j])) != node
    ensures HomeAt(node, stat, out, n) == 0
    decreases n
  {
    hide Text;
    if n > 0 {
      HomeNowhere(node, stat, out, n - 1);
    }
  }

  lemma {:induction false} TextSplit(out: seq<string>, m: nat)
    requires m <= |out|
    ensures Text(out) == Text(out[..m]) + Text(out[m..])
  {
    if m == |out| {
      assert out[..m] == out && out[m..] == [];
    } else {
      var a := out[..|out| - 1];
      TextSplit(a, m);
      assert a[..m] == out[..m] && out[m..][..|out| - m - 1] == a[m..];
    }
  }

  /** The last part of dcanon_internal. node is what was found out about the home directory. */
  method FixHome(cp: array<char>, home: string, node: Option<Id>, stat: Stat, ghost out: seq<string>)
    returns (ncp: array<char>)
    requires Buf(cp, Final(out)) && NUL !in Final(out) && Components(out) && NUL !in home
    ensures (ncp == cp || fresh(ncp)) && Buf(ncp, HomeText(home, node, stat, out))
  {
    hide Text, Components, HomeAt;
    assert Final(out)[0..] == Final(out);
    var path := StringAt(cp, 0, Final(out));
    ncp := cp;
    if home != [] && home[0] == '/' && !Below(home, path) {
      TextEmpty(out);
      var e := HomeEnd(path, node, stat, out);
      HomeFound(home, node, stat, out, e);
      if e > 0 {
        ncp := Concat(home, path[e..], []);
        assert home + path[e..] + [] == home + path[e..];
      }
    }
  }

  /** The end of the home directory in the path is e, or e is 0. */
  ghost predicate EndsAt(node: Option<Id>, stat: Stat, out: seq<string>, e: nat) {
    if out == [] then e == if stat("/").Some? && stat("/") == node then 1 else 0
    else e == |Text(out[..HomeAt(node, stat, out, |out|)])|
  }

  lemma HomeFound(home: string, node: Option<Id>, stat: Stat, out: seq<string>, e: nat)
    requires EndsAt(node, stat, out, e) && Components(out)
    ensures e <= |Final(out)|
    ensures Absolute(home) && !Below(home, Final(out)) ==>
              HomeText(home, node, stat, out) == if e > 0 then home + Final(out)[e..] else Final(out)
  {
    hide Text, HomeAt;
    TextEmpty(out);
    if out != [] {
      var m := HomeAt(node, stat, out, |out|);
      HomeBound(node, stat, out, |out|);
      TextSplit(out, m);
      TextEmpty(out[..m]);
      assert Text(out)[|Text(out[..m])|..] == Text(out[m..]);
    } else {
      assert home + "/"[1..] == home;
    }
  }

  lemma HomeBound(node: Option<Id>, stat: Stat, out: seq<string>, m: nat)
    requires m <= |out|
    ensures HomeAt(node, stat, out, m) <= m
  {
  }

  /** The path is cut at its last slash until it leads to the home directory. */
  method HomeEnd(path: string, node: Option<Id>, stat: Stat, ghost out: seq<string>) returns (e: nat)
    requires path == Final(out) && NUL !in path && Components(out)
    ensures e <= |path| && EndsAt(node, stat, out, e)
  {
    hide Text, HomeAt;
    var copy := Concat(path, [], []);
    assert path + [] + [] == path;
    ghost var m := |out|;
    assert out[..m] == out;
    e := |path|;
    TextEmpty(out);
    while e > 0
      invariant m <= |out| && e <= |path|
      invariant if out == [] then
                  && path == "/" && Buf(copy, path[..e])
                  && (e == 0 ==> EndsAt(node, stat, out, 0))
                else
                  && e == |Text(out[..m])| && Buf(copy, Text(out[..m])) && NUL !in Text(out[..m])
                  && (e == 0 <==> m == 0)
      invariant out != [] ==> HomeAt(node, stat, out, |out|) == HomeAt(node, stat, out, m)
      decreases e
    {
      ghost var s := if out == [] then path else Text(out[..m]);
      assert path[..|path|] == path;
      assert s[0..] == s;
      var p2 := StringAt(copy, 0, s);
      var found := stat(p2);
      if out != [] {
        HomeStep(node, stat, out, m);
      }
      if found.None? || found == node {
        HomeHere(node, stat, out, m, found);
        return if found.None? then 0 else e;
      }
      ghost var d, c := "", "";
      if out != [] {
        LastPart(out, m);
        d, c, m := Text(out[..m - 1]), out[m - 1], m - 1;
        TextEmpty(out[..m]);
      }
      assert d + "/" + c + [] == s;
      e := BackToSlash(copy, e, d, c, []);
      copy[e] := NUL;
    }
    if out != [] {
      HomeNone(node, stat, out);
    }
  }

  lemma HomeStep(node: Option<Id>, stat: Stat, out: seq<string>, m: nat)
    requires 0 < m <= |out|
    ensures HomeAt(node, stat, out, m)
         == if stat(Text(out[..m])).None? then 0
            else if stat(Text(out[..m])) == node then m else HomeAt(node, stat, out, m - 1)
  {
    hide Text;
  }

  lemma HomeHere(node: Option<Id>, stat: Stat, out: seq<string>, m: nat, found: Option<Id>)
    requires m <= |out| && (found.None? || found == node)
    requires out == [] ==> found == stat("/")
    requires out != [] ==> HomeAt(node, stat, out, |out|) == if found.None? then 0 else m
    ensures EndsAt(node, stat, out, if found.None? then 0 else if out == [] then 1 else |Text(out[..m])|)
  {
    hide HomeAt;
    assert out[..0] == [];
  }

  lemma HomeNone(node: Option<Id>, stat: Stat, out: seq<string>)
    requires out != [] && HomeAt(node, stat, out, |out|) == HomeAt(node, stat, out, 0)
    ensures EndsAt(node, stat, out, 0)
  {
    assert out[..0] == [];
  }

  lemma LastPart(out: seq<string>, m: nat)
    requires 0 < m <= |out| && Components(out)
    ensures Text(out[..m]) == Text(out[..m - 1]) + "/" + out[m - 1] && '/' !in out[m - 1]
    ensures NUL !in Text(out[..m]) ==> NUL !in Text(out[..m - 1])
  {
    hide Text;
    assert out[..m] == out[..m - 1] + [out[m - 1]];
    TextMore(out[..m - 1], out[m - 1]);
    var d, s := Text(out[..m - 1]), Text(out[..m]);
    assert forall k | 0 <= k < |d| :: d[k] == s[k];
  }

  /** dcanon_internal */
  method DcanonInternal(cp0: array<char>, p0: nat, cwd: string, rl: Readlink, chase: bool, home: string,
                        node: Option<Id>, stat: Stat, ghost s: string, ghost done: seq<string>, ghost tail: string,
                        ghost k: nat)
    returns (cp: array<char>, ghost out: seq<string>)
    requires Buf(cp0, s) && NUL !in s && NUL !in cwd && Absolute(cwd) && NulFree(rl) && NUL !in home
    requires Absolute(s) ==> s == Text(done) + tail && Here(cp0, p0, done, tail)
    requires if Absolute(s) then Rewrite(rl, chase, done, Comps(tail), k).Some?
             else Rewrite(rl, chase, [], Comps(cwd + "/" + s), k).Some?
    modifies cp0
    ensures Some(out) == if Absolute(s) then Rewrite(rl, chase, done, Comps(tail), k)
                         else Rewrite(rl, chase, [], Comps(cwd + "/" + s), k)
    ensures Buf(cp, HomeText(home, node, stat, out))
  {
    hide Comps, Rewrite, Text, HomeText;
    cp, out := RewritePath(cp0, p0, cwd, rl, chase, s, done, tail, k);
    cp := FixHome(cp, home, node, stat, out);
  }

  /** stat tells the truth about a tree: it identifies the node that a path leads to. */
  ghost predicate TrueStat(fs: Fs, stat: Stat) {
    forall s: string, n: Id :: stat(s) == Some(n) <==> Leads(fs, Comps(s), n)
  }

  /** Paths to one directory are as good as each other in front of anything. */
  lemma SameNode(fs: Fs, a: seq<string>, b: seq<string>, d: Id)
    requires Leads(fs, a, d) && Leads(fs, b, d)
    ensures Same(fs, a, b)
  {
    hide Leads;
    forall x: seq<string>, n: Id ensures Leads(fs, a + x, n) <==> Leads(fs, b + x, n) {
      if Leads(fs, a + x, n) {
        LeadsFrom(fs, a, b, x, d, n);
      }
      if Leads(fs, b + x, n) {
        LeadsFrom(fs, b, a, x, d, n);
      }
    }
  }

  lemma LeadsFrom(fs: Fs, a: seq<string>, b: seq<string>, x: seq<string>, d: Id, n: Id)
    requires Leads(fs, a, d) && Leads(fs, b, d) && Leads(fs, a + x, n)
    ensures Leads(fs, b + x, n)
  {
    hide Walk;
    var j: nat :| Resolves(fs, a + x, j, n);
    WalkAppend(fs, fs.root, a, x, j);
    OneEnd(fs, a, d, j);
    var left := Walk(fs, fs.root, a, j).value.1;
    var k: nat :| Resolves(fs, b, k, d);
    var more := Walk(fs, fs.root, b, k).value.1;
    WalkMore(fs, fs.root, b, k, k + left);
    WalkAppend(fs, fs.root, b, x, k + left);
    WalkMore(fs, d, x, left, more + left);
    assert Resolves(fs, b + x, k + left, n);
  }

  /** Putting the name of the home directory in front leads to the same place, provided that what is
      remembered of the home directory is what stat says now. */
  lemma HomeKeepsPlace(fs: Fs, home: string, stat: Stat, out: seq<string>, n: Id)
    requires TrueStat(fs, stat) && Components(out)
    ensures Leads(fs, Comps(HomeText(home, stat(home), stat, out)), n) <==> Leads(fs, out, n)
  {
    hide Leads, Text, Comps, HomeAt;
    CompsText(out);
    RootComps();
    TextEmpty(out);
    if Absolute(home) && !Below(home, Final(out)) {
      if out == [] {
        if stat("/").Some? && stat("/") == stat(home) {
          SameNode(fs, Comps(home), [], stat(home).value);
          assert Comps(home) + [] == Comps(home) && out + [] == out;
        }
      } else {
        var m := HomeAt(stat(home), stat, out, |out|);
        HomeBound(stat(home), stat, out, |out|);
        if m > 0 {
          HomeThere(stat(home), stat, out, |out|);
          HomeComps(home, out, m);
          SameNode(fs, Comps(home), out[..m], stat(home).value);
          assert out[..m] + out[m..] == out;
        }
      }
    }
  }

  lemma {:induction false} HomeThere(node: Option<Id>, stat: Stat, out: seq<string>, m: nat)
    requires m <= |out| && HomeAt(node, stat, out, m) > 0
    ensures node.Some? && HomeAt(node, stat, out, m) <= |out| && stat(Text(out[..HomeAt(node, stat, out, m)])) == node
    decreases m
  {
    if stat(Text(out[..m])) != node {
      HomeThere(node, stat, out, m - 1);
    }
  }

  lemma RootComps()
    ensures Comps("/") == [] && Comps([]) == []
  {
    assert "/"[1..] == "";
  }

  lemma HomeComps(home: string, out: seq<string>, m: nat)
    requires m <= |out| && Components(out)
    ensures Comps(home + Text(out[m..])) == Comps(home) + out[m..] && Comps(Text(out[..m])) == out[..m]
  {
    hide Comps;
    CompsText(out[..m]);
    CompsText(out[m..]);
    TextStarts(out[m..]);
    CompsAppend(home, Text(out[m..]));
  }

  lemma {:induction false} TextStarts(p: seq<string>)
    ensures Text(p) != [] ==> Text(p)[0] == '/'
  {
    if p != [] {
      TextStarts(p[..|p| - 1]);
    }
  }

  /** The loop goes on as long as there is a tail. */
  lemma TailAt(cp: array<char>, p: nat, st: State)
    requires Shows(cp, p, st)
    ensures p < cp.Length && (cp[p] == NUL <==> st.over || st.tail == [])
  {
    hide Text;
    var s := Text(st.done) + st.tail;
    assert !st.over && st.tail != [] ==> s[p] == st.tail[0];
  }

  lemma RewriteEnds(rl: Readlink, chase: bool, done: seq<string>, k: nat)
    ensures Comps([]) == [] && Rewrite(rl, chase, done, [], k) == Some(done)
  {
  }

  lemma FinalText(cp: array<char>, p: nat, st: State)
    requires Shows(cp, p, st) && (st.over || st.tail == [])
    ensures Buf(cp, Final(st.done)) && NUL !in Final(st.done) && st.tail == []
  {
    hide Text;
    assert Text(st.done) + [] == Text(st.done);
  }

  /** An absolute path that resolves is rewritten to a canonical path to the same place, and the
      rewriting ends. */
  lemma SamePlace(fs: Fs, rl: Readlink, chase: bool, s: string, k: nat, n: Id)
    requires Tree(fs) && Faithful(fs, rl) && Resolves(fs, Comps(s), k, n)
    ensures Rewrite(rl, chase, [], Comps(s), k).Some?
    ensures var out := Rewrite(rl, chase, [], Comps(s), k).value;
            && Names(out) && Comps(Final(out)) == out && Resolves(fs, Comps(Final(out)), k, n)
            && (chase ==> LinkFree(rl, out))
  {
    CompsAreComponents(s);
    assert [] + Comps(s) == Comps(s);
    RewriteResolves(fs, rl, chase, [], Comps(s), k, n);
    RewriteCanonical(rl, chase, [], Comps(s), k);
    CompsText(Rewrite(rl, chase, [], Comps(s), k).value);
    assert "/"[1..] == "";
  }

  /** For any absolute path of which every "." and ".." stands in a directory, and with chase every
      link leads somewhere: the rewriting ends, and the path leads to a node if and only if the one
      that it becomes does, even to none. */
  lemma SamePlaceExactly(fs: Fs, rl: Readlink, chase: bool, home: string, stat: Stat, s: string) returns (k: nat)
    requires Tree(fs) && Faithful(fs, rl) && TrueStat(fs, stat) && Grounded(fs, chase, [], Comps(s))
    ensures Rewrite(rl, chase, [], Comps(s), k).Some?
    ensures var out := Rewrite(rl, chase, [], Comps(s), k).value;
            && Comps(Final(out)) == out
            && forall n :: Leads(fs, Comps(s), n) <==> Leads(fs, Comps(HomeText(home, stat(home), stat, out)), n)
  {
    hide Tree, Faithful, Grounded, Leads, Rewrite, HomeText;
    CompsAreComponents(s);
    k := GroundedEnds(fs, rl, chase, Comps(s));
    var out := Rewrite(rl, chase, [], Comps(s), k).value;
    RewriteCanonicalNames(rl, chase, Comps(s), k);
    FinalComps(out);
    forall n ensures Leads(fs, Comps(s), n) <==> Leads(fs, Comps(HomeText(home, stat(home), stat, out)), n) {
      RewriteExact(fs, rl, chase, Comps(s), k, n);
      HomeKeepsPlace(fs, home, stat, out, n);
    }
  }

  lemma FinalComps(out: seq<string>)
    requires Names(out)
    ensures Comps(Final(out)) == out
  {
    CompsText(out);
    assert "/"[1..] == "";
  }
}
