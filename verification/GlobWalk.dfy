/** The walk over the directory tree (glob2 and glob3, glob.c): the paths that are found are
    exactly the existing ones that match the pattern segment by segment. */
module GlobWalk {
  import opened Basics
  import opened GlobPattern

  /** The file system and the flags: lstat, whether it finds a directory, the names in a directory
      that can be opened, GLOB_DOT, and whether an error there ends the walk. */
  datatype Env = Env(exists_: string -> bool, isdir: string -> bool, readdir: string -> Option<seq<string>>,
                     globdot: bool, abend: string -> bool)

  // ---------------------------------------------------------------- segments

  /** The tokens before the first slash. */
  function SegLen(ts: seq<Tok>): (n: nat)
    ensures n <= |ts| && (forall k | 0 <= k < n :: ts[k] != Char('/')) && (n < |ts| ==> ts[n] == Char('/'))
  {
    if ts == [] || ts[0] == Char('/') then 0 else 1 + SegLen(ts[1..])
  }

  function NameLen(s: string): (n: nat)
    ensures n <= |s| && (forall k | 0 <= k < n :: s[k] != '/') && (n < |s| ==> s[n] == '/')
  {
    if s == [] || s[0] == '/' then 0 else 1 + NameLen(s[1..])
  }

  predicate Literal(seg: seq<Tok>) {
    forall k | 0 <= k < |seg| :: seg[k].Char?
  }

  function Chars(seg: seq<Tok>): string
    requires Literal(seg)
  {
    seq(|seg|, k requires 0 <= k < |seg| => seg[k].c)
  }

  /** A dot at the start of a name is matched only by a dot; with GLOB_DOT by anything, except
      in the names . and .. . */
  predicate DotRule(seg: seq<Tok>, name: string, globdot: bool) {
    name != [] && name[0] == '.' && !(seg != [] && seg[0] == Char('.')) ==> globdot && name != "." && name != ".."
  }

  /** The name of one directory entry matches a segment. */
  ghost predicate SegMatches(seg: seq<Tok>, name: string, globdot: bool) {
    name != [] && '/' !in name && DotRule(seg, name, globdot) && Matches(seg, name, true)
  }

  /** The text of a path matches the pattern: slashes match slashes, and what is between them
      matches segment by segment. */
  ghost predicate PathMatches(ts: seq<Tok>, s: string, globdot: bool)
    decreases |ts|
  {
    if ts == [] then s == []
    else if ts[0] == Char('/') then s != [] && s[0] == '/' && PathMatches(ts[1..], s[1..], globdot)
    else
      var n, m := SegLen(ts), NameLen(s);
      SegMatches(ts[..n], s[..m], globdot) && PathMatches(ts[n..], s[m..], globdot)
  }

  // ---------------------------------------------------------------- the paths in order

  /** What is found below path for the tokens that are left, in the order of the directories. */
  ghost function Paths(env: Env, path: string, ts: seq<Tok>): seq<string>
    decreases |ts|, 2, 0
  {
    if ts == [] then if env.exists_(path) then [path] else []
    else if ts[0] == Char('/') then Paths(env, path + "/", ts[1..])
    else
      var n := SegLen(ts);
      if Literal(ts[..n]) then Paths(env, path + Chars(ts[..n]), ts[n..])
      else if (path != [] && !env.isdir(path)) || env.readdir(path).None? then []
      else Each(env, path, env.readdir(path).value, ts)
  }

  ghost function Each(env: Env, path: string, names: seq<string>, ts: seq<Tok>): seq<string>
    requires SegLen(ts) > 0
    decreases |ts|, 1, |names|
  {
    if names == [] then []
    else Via(env, path, names[0], ts) + Each(env, path, names[1..], ts)
  }

  ghost function Via(env: Env, path: string, name: string, ts: seq<Tok>): seq<string>
    requires SegLen(ts) > 0
    decreases |ts|, 0, 0
  {
    var n := SegLen(ts);
    if SegMatches(ts[..n], name, env.globdot) then Paths(env, path + name, ts[n..]) else []
  }

  // ---------------------------------------------------------------- exactly the matching paths

  predicate AtName(path: string) {
    path == [] || path[|path| - 1] == '/'
  }

  /** A listing has proper names, each once; whatever exists is listed, in a directory that can
      be opened. */
  ghost predicate Consistent(env: Env) {
    && (forall d | env.readdir(d).Some? ::
          && (forall i | 0 <= i < |env.readdir(d).value| ::
                env.readdir(d).value[i] != [] && '/' !in env.readdir(d).value[i])
          && (forall i, j | 0 <= i < j < |env.readdir(d).value| :: env.readdir(d).value[i] != env.readdir(d).value[j]))
    && forall d, n, rest |
         AtName(d) && n != [] && '/' !in n && (rest == [] || rest[0] == '/') && env.exists_(d + n + rest) ::
         (d == [] || env.isdir(d)) && env.readdir(d).Some? && n in env.readdir(d).value
  }

  predicate StartsWith(q: string, path: string) {
    |path| <= |q| && q[..|path|] == path
  }

  /** q is below path, exists, and matches there. */
  ghost predicate Wanted(env: Env, path: string, ts: seq<Tok>, q: string) {
    StartsWith(q, path) && env.exists_(q) && PathMatches(ts, q[|path|..], env.globdot)
  }

  lemma StartsWithMore(q: string, path: string, n: string)
    ensures StartsWith(q, path + n) <==> StartsWith(q, path) && StartsWith(q[|path|..], n)
    ensures StartsWith(q, path + n) ==> q[|path + n|..] == q[|path|..][|n|..]
  {
    if StartsWith(q, path) && StartsWith(q[|path|..], n) {
      assert q == path + q[|path|..];
      assert q[|path|..] == n + q[|path|..][|n|..];
      assert q == (path + n) + q[|path|..][|n|..];
    }
    if StartsWith(q, path + n) {
      assert q[..|path|] == (path + n)[..|path|] == path;
      assert q[|path|..][..|n|] == q[..|path + n|][|path|..] == n;
    }
  }

  lemma NameLenIs(s: string, n: string)
    requires StartsWith(s, n) && '/' !in n && (|s| == |n| || s[|n|] == '/')
    ensures NameLen(s) == |n|
  {
    if n != [] {
      assert s[0] == n[0] && s[1..][..|n| - 1] == n[1..];
      NameLenIs(s[1..], n[1..]);
    }
  }

  /** What comes after a segment begins with a slash, if there is anything. */
  lemma RestMatches(ts: seq<Tok>, s: string, globdot: bool)
    requires ts == [] || ts[0] == Char('/')
    ensures PathMatches(ts, s, globdot) ==> s == [] || s[0] == '/'
  {
  }

  lemma {:induction false} LiteralMatches(seg: seq<Tok>, name: string)
    requires Literal(seg)
    ensures Matches(seg, name, true) <==> name == Chars(seg)
  {
    if seg != [] {
      if name != [] {
        LiteralMatches(seg[1..], name[1..]);
        assert Chars(seg) == [seg[0].c] + Chars(seg[1..]);
        assert name == [name[0]] + name[1..];
      }
    }
  }

  /** Taking a name n off for the first segment. */
  lemma SegmentStep(ts: seq<Tok>, s: string, n: string, globdot: bool)
    requires ts != [] && ts[0] != Char('/') && '/' !in n && n != []
    ensures var k := SegLen(ts);
            StartsWith(s, n) && PathMatches(ts[k..], s[|n|..], globdot) && SegMatches(ts[..k], n, globdot)
            <==> PathMatches(ts, s, globdot) && s[..NameLen(s)] == n
  {
    var k := SegLen(ts);
    if StartsWith(s, n) && PathMatches(ts[k..], s[|n|..], globdot) {
      RestMatches(ts[k..], s[|n|..], globdot);
      assert |s| > |n| ==> s[|n|..][0] == s[|n|];
      NameLenIs(s, n);
    }
  }

  /** The paths that are found below path are the wanted ones. */
  lemma {:induction false} PathsAreWanted(env: Env, path: string, ts: seq<Tok>, q: string)
    requires Consistent(env) && (AtName(path) || ts == [] || ts[0] == Char('/'))
    ensures q in Paths(env, path, ts) <==> Wanted(env, path, ts, q)
    decreases |ts|, 2, 0
  {
    hide Consistent, Matches, DotRule;
    if ts == [] {
      assert StartsWith(q, path) && q[|path|..] == [] ==> q == path;
      assert path[|path|..] == [] && path[..|path|] == path;
    } else if ts[0] == Char('/') {
      StartsWithMore(q, path, "/");
      PathsAreWanted(env, path + "/", ts[1..], q);
      SlashStep(q, path);
    } else {
      var n := SegLen(ts);
      if Literal(ts[..n]) {
        LiteralWanted(env, path, ts, q);
      } else {
        MetaWanted(env, path, ts, q);
      }
    }
  }

  lemma SlashStep(q: string, path: string)
    ensures StartsWith(q, path) ==>
              (StartsWith(q[|path|..], "/") <==> q[|path|..] != [] && q[|path|..][0] == '/')
  {
  }

  lemma {:induction false} LiteralWanted(env: Env, path: string, ts: seq<Tok>, q: string)
    requires Consistent(env) && AtName(path) && ts != [] && ts[0] != Char('/') && Literal(ts[..SegLen(ts)])
    ensures q in Paths(env, path, ts) <==> Wanted(env, path, ts, q)
    decreases |ts|, 1, 0
  {
    hide Consistent, Matches, PathMatches;
    var n := SegLen(ts);
    var seg, lit := ts[..n], Chars(ts[..n]);
    PathsAreWanted(env, path + lit, ts[n..], q);
    StartsWithMore(q, path, lit);
    LiteralName(ts);
    LiteralMatches(seg, lit);
    if StartsWith(q, path) {
      var s := q[|path|..];
      SegmentStep(ts, s, lit, env.globdot);
      FirstName(ts, s, env.globdot);
      LiteralMatches(seg, s[..NameLen(s)]);
    }
  }

  /** The text of a literal segment is a name, and keeps the rule for dots. */
  lemma LiteralName(ts: seq<Tok>)
    requires ts != [] && ts[0] != Char('/') && Literal(ts[..SegLen(ts)])
    ensures var seg := ts[..SegLen(ts)];
            forall globdot :: Chars(seg) != [] && '/' !in Chars(seg) && DotRule(seg, Chars(seg), globdot)
  {
    var seg := ts[..SegLen(ts)];
    forall k | 0 <= k < |seg| ensures Chars(seg)[k] != '/' {
      assert seg[k] in seg;
    }
    assert seg[0] == Char(Chars(seg)[0]);
  }

  lemma FirstName(ts: seq<Tok>, s: string, globdot: bool)
    requires ts != [] && ts[0] != Char('/')
    ensures PathMatches(ts, s, globdot) ==>
              && SegMatches(ts[..SegLen(ts)], s[..NameLen(s)], globdot)
              && PathMatches(ts[SegLen(ts)..], s[NameLen(s)..], globdot)
  {
  }

  lemma {:induction false} MetaWanted(env: Env, path: string, ts: seq<Tok>, q: string)
    requires Consistent(env) && AtName(path) && ts != [] && ts[0] != Char('/') && !Literal(ts[..SegLen(ts)])
    ensures q in Paths(env, path, ts) <==> Wanted(env, path, ts, q)
    decreases |ts|, 1, 0
  {
    hide Matches, PathMatches, SegMatches, Each, Consistent;
    if Wanted(env, path, ts, q) {
      Listed(env, path, ts, q);
    }
    if (path == [] || env.isdir(path)) && env.readdir(path).Some? {
      var names := env.readdir(path).value;
      ProperNames(env, path);
      EachIsWanted(env, path, names, ts, q);
    }
  }

  lemma ProperNames(env: Env, path: string)
    requires Consistent(env) && env.readdir(path).Some?
    ensures var names := env.readdir(path).value;
            && (forall i | 0 <= i < |names| :: names[i] != [] && '/' !in names[i])
            && (forall i, j | 0 <= i < j < |names| :: names[i] != names[j])
  {
  }

  /** The first name of a wanted path is listed. */
  lemma Listed(env: Env, path: string, ts: seq<Tok>, q: string)
    requires Consistent(env) && AtName(path) && ts != [] && ts[0] != Char('/') && Wanted(env, path, ts, q)
    ensures var name := q[|path|..][..NameLen(q[|path|..])];
            (path == [] || env.isdir(path)) && env.readdir(path).Some? && name in env.readdir(path).value
  {
    hide Matches, PathMatches, Consistent;
    var s := q[|path|..];
    var m := NameLen(s);
    FirstName(ts, s, env.globdot);
    var name, rest := s[..m], s[m..];
    assert q == path + name + rest;
    WhatExistsIsListed(env, path, name, rest);
  }

  lemma WhatExistsIsListed(env: Env, d: string, n: string, rest: string)
    requires Consistent(env) && AtName(d) && n != [] && '/' !in n && (rest == [] || rest[0] == '/')
    requires env.exists_(d + n + rest)
    ensures (d == [] || env.isdir(d)) && env.readdir(d).Some? && n in env.readdir(d).value
  {
  }

  /** What the entries of a directory lead to. */
  lemma {:induction false} EachIsWanted(env: Env, path: string, names: seq<string>, ts: seq<Tok>, q: string)
    requires Consistent(env) && AtName(path) && ts != [] && ts[0] != Char('/')
    requires forall i | 0 <= i < |names| :: names[i] != [] && '/' !in names[i]
    ensures q in Each(env, path, names, ts) <==>
            Wanted(env, path, ts, q) && q[|path|..][..NameLen(q[|path|..])] in names
    decreases |ts|, 0, |names|
  {
    hide Matches, PathMatches, SegMatches, Consistent, Paths, Via;
    if names != [] {
      OneIsWanted(env, path, names[0], ts, q);
      EachIsWanted(env, path, names[1..], ts, q);
    }
  }

  lemma {:induction false} OneIsWanted(env: Env, path: string, name: string, ts: seq<Tok>, q: string)
    requires Consistent(env) && AtName(path) && ts != [] && ts[0] != Char('/') && name != [] && '/' !in name
    ensures q in Via(env, path, name, ts) <==>
            Wanted(env, path, ts, q) && q[|path|..][..NameLen(q[|path|..])] == name
    decreases |ts|, 0, 0
  {
    hide Matches, PathMatches, SegMatches, Consistent, Paths;
    var n := SegLen(ts);
    PathsAreWanted(env, path + name, ts[n..], q);
    StartsWithMore(q, path, name);
    if StartsWith(q, path) {
      SegmentStep(ts, q[|path|..], name, env.globdot);
    }
  }

  // ---------------------------------------------------------------- runs of stars

  /** The first segment of the reduced pattern is the reduced first segment, and so is the rest. */
  predicate Splits(ts: seq<Tok>) {
    var n, c := SegLen(ts), Collapse(ts);
    c[..SegLen(c)] == Collapse(ts[..n]) && c[SegLen(c)..] == Collapse(ts[n..])
  }

  /** Reducing runs of stars goes segment by segment. */
  lemma {:induction false} CollapseSplits(ts: seq<Tok>)
    ensures Splits(ts) && (Collapse(ts) == [] <==> ts == []) && (ts != [] ==> Collapse(ts)[0] == ts[0])
  {
    hide Collapse, SegLen, Splits;
    CollapseStep(ts);
    if ts == [] || ts[0] == Char('/') {
      NothingSplits(ts);
    } else {
      CollapseSplits(ts[1..]);
      if DoubleStar(ts) {
        StarsSplit(ts);
      } else {
        OneSplits(ts);
      }
    }
  }

  lemma NothingSplits(ts: seq<Tok>)
    requires ts == [] || ts[0] == Char('/')
    ensures Splits(ts)
  {
    hide Collapse, SegLen;
    CollapseStep(ts);
    CollapseStep([]);
    SegLenStep(ts);
    SegLenStep(Collapse(ts));
    assert ts[..0] == [] && ts[0..] == ts && Collapse(ts)[..0] == [] && Collapse(ts)[0..] == Collapse(ts);
  }

  lemma StarsSplit(ts: seq<Tok>)
    requires DoubleStar(ts) && Splits(ts[1..])
    ensures Splits(ts)
  {
    hide Collapse, SegLen;
    var n := SegLen(ts);
    SegLenStep(ts);
    SegLenStep(ts[1..]);
    CollapseStep(ts);
    CollapseStep(ts[..n]);
    assert ts[..n][1..] == ts[1..][..n - 1] && ts[n..] == ts[1..][n - 1..];
  }

  lemma OneSplits(ts: seq<Tok>)
    requires ts != [] && ts[0] != Char('/') && !DoubleStar(ts) && Splits(ts[1..])
    ensures Splits(ts)
  {
    hide Collapse, SegLen;
    var n := SegLen(ts);
    SegLenStep(ts);
    CollapseStep(ts);
    CollapseStep(ts[..n]);
    SegLenStep(Collapse(ts));
    assert ts[..n][1..] == ts[1..][..n - 1] && ts[n..] == ts[1..][n - 1..];
    OneAhead(ts[0], Collapse(ts[1..]), SegLen(Collapse(ts[1..])));
  }

  predicate DoubleStar(ts: seq<Tok>) {
    |ts| > 1 && ts[0] == Star && ts[1] == Star
  }

  lemma CollapseStep(ts: seq<Tok>)
    ensures if ts == [] then Collapse(ts) == []
            else if DoubleStar(ts) then Collapse(ts) == Collapse(ts[1..])
            else Collapse(ts) == [ts[0]] + Collapse(ts[1..]) && Collapse(ts)[1..] == Collapse(ts[1..])
  {
  }

  lemma SegLenStep(ts: seq<Tok>)
    ensures SegLen(ts) == if ts == [] || ts[0] == Char('/') then 0 else 1 + SegLen(ts[1..])
  {
  }

  lemma OneAhead(t: Tok, c: seq<Tok>, m: nat)
    requires m <= |c|
    ensures ([t] + c)[..1 + m] == [t] + c[..m] && ([t] + c)[1 + m..] == c[m..]
  {
  }

  lemma SlashAgain(ts: seq<Tok>)
    requires ts != [] && ts[0] == Char('/')
    ensures Collapse(ts) == [Char('/')] + Collapse(ts[1..])
  {
  }

  /** The same paths match. */
  lemma {:induction false} CollapseKeepsPaths(ts: seq<Tok>, s: string, globdot: bool)
    ensures PathMatches(Collapse(ts), s, globdot) <==> PathMatches(ts, s, globdot)
    decreases |ts|
  {
    hide Matches, Collapse;
    CollapseSplits(ts);
    if ts == [] {
    } else if ts[0] == Char('/') {
      SlashAgain(ts);
      if s != [] {
        CollapseKeepsPaths(ts[1..], s[1..], globdot);
      }
    } else {
      var n, m := SegLen(ts), NameLen(s);
      CollapseKeepsPaths(ts[n..], s[m..], globdot);
      CollapseKeepsNames(ts[..n], s[..m], globdot);
    }
  }

  lemma CollapseKeepsNames(seg: seq<Tok>, name: string, globdot: bool)
    ensures SegMatches(Collapse(seg), name, globdot) <==> SegMatches(seg, name, globdot)
  {
    hide Collapse;
    CollapseSplits(seg);
    CollapsePreserves(seg, name, true);
  }

  /** And the walk finds the same paths in the same order. */
  lemma {:induction false} CollapseKeepsWalk(env: Env, path: string, ts: seq<Tok>)
    ensures Paths(env, path, Collapse(ts)) == Paths(env, path, ts)
    decreases |ts|, 1, 0
  {
    hide Collapse, Each;
    CollapseSplits(ts);
    if ts == [] {
    } else if ts[0] == Char('/') {
      SlashAgain(ts);
      CollapseKeepsWalk(env, path + "/", ts[1..]);
    } else {
      var n := SegLen(ts);
      CollapseKeepsLiteral(ts[..n]);
      if Literal(ts[..n]) {
        CollapseKeepsWalk(env, path + Chars(ts[..n]), ts[n..]);
      } else if (path == [] || env.isdir(path)) && env.readdir(path).Some? {
        CollapseKeepsEach(env, path, env.readdir(path).value, ts);
      }
    }
  }

  lemma {:induction false} CollapseKeepsLiteral(seg: seq<Tok>)
    ensures Literal(Collapse(seg)) <==> Literal(seg)
    ensures Literal(seg) ==> Collapse(seg) == seg
  {
    if seg != [] {
      CollapseKeepsLiteral(seg[1..]);
      LiteralHead(seg);
      LiteralHead(Collapse(seg));
      assert seg == [seg[0]] + seg[1..];
    }
  }

  lemma LiteralHead(seg: seq<Tok>)
    ensures seg != [] ==> (Literal(seg) <==> seg[0].Char? && Literal(seg[1..]))
  {
    assert forall k | 1 <= k < |seg| :: seg[k] == seg[1..][k - 1];
  }

  lemma {:induction false} CollapseKeepsEach(env: Env, path: string, names: seq<string>, ts: seq<Tok>)
    requires SegLen(ts) > 0 && SegLen(Collapse(ts)) > 0
    ensures Each(env, path, names, Collapse(ts)) == Each(env, path, names, ts)
    decreases |ts|, 0, |names|
  {
    hide Collapse, Paths;
    if names != [] {
      CollapseSplits(ts);
      CollapseKeepsNames(ts[..SegLen(ts)], names[0], env.globdot);
      CollapseKeepsWalk(env, path + names[0], ts[SegLen(ts)..]);
      CollapseKeepsEach(env, path, names[1..], ts);
    }
  }

  // ---------------------------------------------------------------- each once

  lemma OnceAppend(a: seq<string>, b: seq<string>)
    requires EachOnce(a) && EachOnce(b) && forall x | x in a :: x !in b
    ensures EachOnce(a + b)
  {
    var c := a + b;
    forall i, j | 0 <= i < j < |c| ensures c[i] != c[j] {
      if i < |a| <= j {
        assert c[i] in a && c[j] in b;
      }
    }
  }

  lemma {:induction false} PathsOnce(env: Env, path: string, ts: seq<Tok>)
    requires Consistent(env) && (AtName(path) || ts == [] || ts[0] == Char('/'))
    ensures EachOnce(Paths(env, path, ts))
    decreases |ts|, 2, 0
  {
    hide Consistent, SegMatches;
    if ts == [] {
    } else if ts[0] == Char('/') {
      PathsOnce(env, path + "/", ts[1..]);
    } else {
      var n := SegLen(ts);
      if Literal(ts[..n]) {
        PathsOnce(env, path + Chars(ts[..n]), ts[n..]);
      } else if (path == [] || env.isdir(path)) && env.readdir(path).Some? {
        ProperNames(env, path);
        ListedOnce(env, path, env.readdir(path).value, ts);
      }
    }
  }

  lemma {:induction false} ListedOnce(env: Env, path: string, names: seq<string>, ts: seq<Tok>)
    requires Consistent(env) && AtName(path) && ts != [] && ts[0] != Char('/')
    requires forall i | 0 <= i < |names| :: names[i] != [] && '/' !in names[i]
    requires forall i, j | 0 <= i < j < |names| :: names[i] != names[j]
    ensures EachOnce(Each(env, path, names, ts))
    decreases |ts|, 1, |names|
  {
    hide Consistent, SegMatches, Paths;
    if names != [] {
      if SegMatches(ts[..SegLen(ts)], names[0], env.globdot) {
        PathsOnce(env, path + names[0], ts[SegLen(ts)..]);
      }
      ListedOnce(env, path, names[1..], ts);
      var a, b := Via(env, path, names[0], ts), Each(env, path, names[1..], ts);
      forall x | x in a ensures x !in b {
        OneIsWanted(env, path, names[0], ts, x);
        EachIsWanted(env, path, names[1..], ts, x);
      }
      OnceAppend(a, b);
    }
  }

  /** For a pattern, from nothing on: the existing paths that match, each once. */
  lemma ExactlyTheMatchingPaths(env: Env, ts: seq<Tok>)
    requires Consistent(env)
    ensures EachOnce(Paths(env, [], ts))
    ensures forall q :: q in Paths(env, [], ts) <==> env.exists_(q) && PathMatches(ts, q, env.globdot)
  {
    PathsOnce(env, [], ts);
    forall q ensures q in Paths(env, [], ts) <==> env.exists_(q) && PathMatches(ts, q, env.globdot) {
      PathsAreWanted(env, [], ts, q);
      assert q[0..] == q && q[..0] == [];
    }
  }
}
