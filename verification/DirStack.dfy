/** The commands on the directory stack (sh.dir.c), as operations on the names from the current
    directory on, and as they relink the ring. */
module DirStack {
  import opened Basics
  import opened Numbers
  import opened DirRing

  datatype Failure =
    | Usage | TooMany | TooFew | NoHome | CantChange | Deep
    | NoDir | Empty | BadDir | System | NotFound | BadNumber

  datatype Result = Done | Fail(f: Failure)

  /** What a command reports, and the stack after it. */
  datatype Outcome = Outcome(result: Result, stack: seq<string>)

  /** What the commands take from the shell and the system: chdir tells whether it succeeds, and
      follow (dfollow) gives the name of the directory that a path leads to; owd is the previous
      directory, and followOld is for it. */
  datatype Env = Env(home: Option<string>, owd: string, chdir: string -> bool, follow: string -> Option<string>,
                     followOld: string -> Option<string>,
                     octal: bool, cdtohome: bool, pushdtohome: bool, dextract: bool, dunique: bool)

  // ---------------------------------------------------------------- on names

  datatype Number = NotNumber | Wrong | Number(n: nat)

  /** An argument of the form +n. */
  function Numbered(cp: string, octal: bool): (r: Number)
    ensures r.Number? ==> r.n > 0
  {
    if cp == "" || cp[0] != '+' || !Numeral(cp[1..], 10) then NotNumber
    else
      match Getn(cp[1..], octal)
      case Bad(_) => Wrong
      case Got(i) => if i <= 0 then NotNumber else Number(i)
  }

  function Cd(s: seq<string>, arg: Option<string>, env: Env): (r: Outcome)
    requires s != []
    ensures r.stack != []
  {
    match arg
    case None =>
      if !env.cdtohome then Outcome(Fail(TooFew), s)
      else if env.home.None? then Outcome(Fail(NoHome), s)
      else if !env.chdir(env.home.value) then Outcome(Fail(CantChange), s)
      else Outcome(Done, [env.home.value] + s[1..])
    case Some(cp) =>
      match Numbered(cp, env.octal)
      case Wrong => Outcome(Fail(BadNumber), s)
      case Number(n) =>
        if n >= |s| then Outcome(Fail(Deep), s)
        else if !env.chdir(s[n]) then Outcome(Fail(System), s)
        else Outcome(Done, s[n..] + s[1..n])
      case NotNumber =>
        if env.follow(cp).None? then Outcome(Fail(NotFound), s) else Outcome(Done, [env.follow(cp).value] + s[1..])
  }

  function Pushd(s: seq<string>, arg: Option<string>, env: Env): (r: Outcome)
    requires s != []
    ensures r.stack != []
  {
    match arg
    case None =>
      if env.pushdtohome then
        if env.home.None? then Outcome(Fail(NoHome), s)
        else if !env.chdir(env.home.value) then Outcome(Fail(CantChange), s)
        else if env.follow(env.home.value).None? then Outcome(Fail(NotFound), s)
        else Outcome(Done, [env.follow(env.home.value).value] + s)
      else if |s| == 1 then Outcome(Fail(NoDir), s)
      else if !env.chdir(s[1]) then Outcome(Fail(System), s)
      else Outcome(Done, [s[1], s[0]] + s[2..])
    case Some(cp) =>
      match Numbered(cp, env.octal)
      case Wrong => Outcome(Fail(BadNumber), s)
      case Number(n) =>
        if n >= |s| then Outcome(Fail(Deep), s)
        else if !env.chdir(s[n]) then Outcome(Fail(System), s)
        else if env.dextract then Outcome(Done, [s[n]] + s[..n] + s[n + 1..])
        else Outcome(Done, s[n..] + s[..n])
      case NotNumber =>
        if env.follow(cp).None? then Outcome(Fail(NotFound), s) else Outcome(Done, [env.follow(cp).value] + s)
  }

  function Popd(s: seq<string>, arg: Option<string>, env: Env): (r: Outcome)
    requires s != []
    ensures r.stack != []
  {
    var n := if arg.None? then Number(0) else Numbered(arg.value, env.octal);
    match n
    case Wrong => Outcome(Fail(BadNumber), s)
    case NotNumber => Outcome(Fail(BadDir), s)
    case Number(n) =>
      if n >= |s| then Outcome(Fail(Deep), s)
      else if |s| == 1 then Outcome(Fail(Empty), s)
      else if n == 0 && !env.chdir(s[1]) then Outcome(Fail(System), s)
      else Outcome(Done, Without(s, n))
  }

  // ---------------------------------------------------------------- arguments

  datatype Args = BadUsage | Args(isOld: bool, rest: seq<string>)

  predicate Flags(w: string) {
    forall k | 1 <= k < |w| :: w[k] in "plvn"
  }

  /** What is left of the arguments behind options: "-" stands for the previous directory, and nothing may
      come after it. */
  function Skipped(v: seq<string>, isOld: bool): Args {
    if v == [] || v[0] == "" || v[0][0] != '-' then LastOnly(v, isOld)
    else if v[0] == "-" then Skipped(v[1..], true)
    else if v[0] == "--" then LastOnly(v[1..], isOld)
    else if Flags(v[0]) then Skipped(v[1..], isOld)
    else BadUsage
  }

  function LastOnly(v: seq<string>, isOld: bool): Args {
    if v != [] && isOld then BadUsage else Args(isOld, v)
  }

  /** The argument of a command, and what following it means; or what is wrong. */
  datatype Request = Declined(f: Failure) | Request(arg: Option<string>, env: Env)

  function Asked(v: seq<string>, env: Env): Request {
    match Skipped(v, false)
    case BadUsage => Declined(Usage)
    case Args(isOld, rest) =>
      if isOld then Request(Some(env.owd), env.(follow := env.followOld))
      else if |rest| > 1 then Declined(TooMany)
      else Request(if rest == [] then None else Some(rest[0]), env)
  }

  /** cd, pushd and popd with the words behind them. */
  function CdWords(s: seq<string>, v: seq<string>, env: Env): (r: Outcome)
    requires s != []
    ensures r.stack != []
  {
    match Asked(v, env) case Declined(f) => Outcome(Fail(f), s) case Request(arg, e) => Cd(s, arg, e)
  }

  function PushdWords(s: seq<string>, v: seq<string>, env: Env): (r: Outcome)
    requires s != []
    ensures r.stack != []
  {
    match Asked(v, env) case Declined(f) => Outcome(Fail(f), s) case Request(arg, e) => Pushd(s, arg, e)
  }

  function PopdWords(s: seq<string>, v: seq<string>, env: Env): (r: Outcome)
    requires s != []
    ensures r.stack != []
  {
    match Asked(v, env) case Declined(f) => Outcome(Fail(f), s) case Request(arg, e) => Popd(s, arg, e)
  }

  /** skipargs, but for what the flags mean for printing. */
  method Skipargs(v: seq<string>) returns (r: Args)
    ensures r == Skipped(v, false)
  {
    var n, isOld := 0, false;
    assert v[0..] == v;
    while n < |v| && v[n] != "" && v[n][0] == '-'
      invariant n <= |v| && Skipped(v[n..], isOld) == Skipped(v, false)
    {
      assert v[n..][0] == v[n] && v[n..][1..] == v[n + 1..];
      if |v[n]| == 1 {
        isOld := true;
      } else if v[n][1] == '-' && |v[n]| == 2 {
        n := n + 1;
        return if n < |v| && isOld then BadUsage else Args(isOld, v[n..]);
      } else {
        var known := KnownFlags(v[n]);
        if !known {
          return BadUsage;
        }
      }
      n := n + 1;
    }
    if n < |v| && isOld {
      return BadUsage;
    }
    return Args(isOld, v[n..]);
  }

  method KnownFlags(w: string) returns (known: bool)
    ensures known == Flags(w)
  {
    var k := 1;
    while k < |w|
      invariant 1 <= k && forall i | 1 <= i < k && i < |w| :: w[i] in "plvn"
    {
      if w[k] !in "plvn" {
        return false;
      }
      k := k + 1;
    }
    return true;
  }

  method Ask(v: seq<string>, env: Env) returns (r: Request)
    ensures r == Asked(v, env)
  {
    var args := Skipargs(v);
    match args
    case BadUsage => return Declined(Usage);
    case Args(isOld, rest) =>
      if isOld {
        return Request(Some(env.owd), env.(follow := env.followOld));
      }
      if |rest| > 1 {
        return Declined(TooMany);
      }
      return Request(if rest == [] then None else Some(rest[0]), env);
  }

  // ---------------------------------------------------------------- what the words say

  /** +n is the number n; a word without a plus sign, or with something besides digits behind it, is none. */
  lemma PlusNumber(n: nat, octal: bool)
    requires n > 0
    ensures Numbered("+" + Putn(n), octal) == Number(n)
  {
    hide Numeral, Digits;
    assert ("+" + Putn(n))[1..] == Digits(n);
    DigitsNumeral(n);
    PutnGetn(n, octal);
  }

  lemma NoNumber(cp: string, octal: bool)
    requires cp == "" || cp[0] != '+' || exists k :: 1 <= k < |cp| && !IsDigit(cp[k])
    ensures Numbered(cp, octal) == NotNumber
  {
    if cp != "" && cp[0] == '+' {
      var k :| 1 <= k < |cp| && !IsDigit(cp[k]);
      assert cp[1..][k - 1] == cp[k];
    }
  }

  /** A word that is no option is the argument. */
  lemma OneWord(w: string, env: Env)
    requires w == "" || w[0] != '-'
    ensures Asked([w], env) == Request(Some(w), env)
  {
  }

  /** The words of a command: none, an option in front of others, an argument behind "--", "-" for the previous
      directory, two arguments, and something behind "-". */
  lemma WordsAsked(w: string, v: seq<string>, env: Env)
    ensures Asked([], env) == Request(None, env)
    ensures |w| > 1 && w[0] == '-' && w != "--" ==>
              Asked([w] + v, env) == if Flags(w) then Asked(v, env) else Declined(Usage)
    ensures Asked(["--", w], env) == Request(Some(w), env)
    ensures Asked(["-"], env) == Request(Some(env.owd), env.(follow := env.followOld))
    ensures (w == "" || w[0] != '-') && |v| > 0 ==> Asked([w] + v, env) == Declined(TooMany)
    ensures (w == "" || w[0] != '-') ==> Asked(["-", w], env) == Declined(Usage)
  {
    assert ([w] + v)[1..] == v && ["--", w][1..] == [w] && ["-", w][1..] == [w] && ["-"][1..] == [];
    assert w == "" || w[0] != '-' ==> Skipped([w], true) == BadUsage;
  }

  /** cd +n takes the directory at n to the front, and the one that was there goes. */
  lemma CdPlus(s: seq<string>, n: nat, env: Env)
    requires s != [] && n > 0
    ensures CdWords(s, ["+" + Putn(n)], env) ==
            if n >= |s| then Outcome(Fail(Deep), s)
            else if !env.chdir(s[n]) then Outcome(Fail(System), s)
            else Outcome(Done, s[n..] + s[1..n])
  {
    hide Numbered, Putn, Asked;
    OneWord("+" + Putn(n), env);
    PlusNumber(n, env.octal);
  }

  /** pushd +n turns the stack until the directory at n is in front, or with dextract moves it there. */
  lemma PushdPlus(s: seq<string>, n: nat, env: Env)
    requires s != [] && n > 0
    ensures PushdWords(s, ["+" + Putn(n)], env) ==
            if n >= |s| then Outcome(Fail(Deep), s)
            else if !env.chdir(s[n]) then Outcome(Fail(System), s)
            else Outcome(Done, if env.dextract then [s[n]] + s[..n] + s[n + 1..] else s[n..] + s[..n])
  {
    hide Numbered, Putn, Asked;
    OneWord("+" + Putn(n), env);
    PlusNumber(n, env.octal);
  }

  /** popd +n drops the directory at n. */
  lemma PopdPlus(s: seq<string>, n: nat, env: Env)
    requires s != [] && n > 0
    ensures PopdWords(s, ["+" + Putn(n)], env) ==
            if n >= |s| then Outcome(Fail(Deep), s) else Outcome(Done, s[..n] + s[n + 1..])
  {
    hide Numbered, Putn, Asked;
    OneWord("+" + Putn(n), env);
    PlusNumber(n, env.octal);
  }

  // ---------------------------------------------------------------- no directory twice

  /** With dunique, one other directory of the same name as the new current one goes. */
  predicate DropsSame(s: seq<string>, t: seq<string>)
    requires s != []
  {
    if s[0] in s[1..] then exists k | 1 <= k < |s| && s[k] == s[0] :: t == Without(s, k) else t == s
  }

  /** What is left on the stack when a command would give out: with dunique a double is dropped. */
  predicate Ends(out: Outcome, env: Env, r: Result, t: seq<string>)
    requires out.stack != []
  {
    r == out.result && if env.dunique && r.Done? then DropsSame(out.stack, t) else t == out.stack
  }

  /** With dunique set no directory comes to be on the stack twice. */
  lemma StaysUnique(s: seq<string>, arg: Option<string>, env: Env, t: seq<string>)
    requires s != [] && EachOnce(s) && env.dunique
    ensures Ends(Cd(s, arg, env), env, Cd(s, arg, env).result, t) ==> EachOnce(t)
    ensures Ends(Pushd(s, arg, env), env, Pushd(s, arg, env).result, t) ==> EachOnce(t)
    ensures Ends(Popd(s, arg, env), env, Popd(s, arg, env).result, t) ==> EachOnce(t)
  {
    hide EachOnce, Cd, Pushd, Popd;
    CdOnce(s, arg, env);
    PushdOnce(s, arg, env);
    PopdOnce(s, arg, env);
    Heights(s, arg, env);
    EndsOnce(Cd(s, arg, env), env, t);
    EndsOnce(Pushd(s, arg, env), env, t);
    EndsOnce(Popd(s, arg, env), env, t);
  }

  lemma EndsOnce(out: Outcome, env: Env, t: seq<string>)
    requires out.stack != [] && EachOnce(out.stack[1..]) && (out.result.Fail? ==> EachOnce(out.stack)) && env.dunique
    ensures Ends(out, env, out.result, t) ==> EachOnce(t)
  {
    hide DropsSame, EachOnce;
    if DropsSame(out.stack, t) {
      DropOnce(out.stack, t);
    }
  }

  lemma OnceTail(s: seq<string>)
    ensures s != [] && EachOnce(s) ==> EachOnce(s[1..])
  {
  }

  lemma DropOnce(s: seq<string>, t: seq<string>)
    requires s != [] && EachOnce(s[1..]) && DropsSame(s, t)
    ensures EachOnce(t)
  {
    hide EachOnce;
    if s[0] in s[1..] {
      var k :| 1 <= k < |s| && s[k] == s[0] && t == Without(s, k);
      assert t == [s[0]] + Without(s[1..], k - 1);
      WithoutOnce(s[1..], k - 1);
      ConsOnce(s[0], Without(s[1..], k - 1));
    } else {
      ConsOnce(s[0], s[1..]);
      assert t == [s[0]] + s[1..];
    }
  }

  lemma WithoutOnce(r: seq<string>, k: nat)
    requires k < |r| && EachOnce(r)
    ensures EachOnce(Without(r, k)) && r[k] !in Without(r, k)
  {
    var w := Without(r, k);
    assert forall i | 0 <= i < |w| :: w[i] == r[if i < k then i else i + 1];
  }

  lemma ConsOnce(x: string, r: seq<string>)
    requires EachOnce(r) && x !in r
    ensures EachOnce([x] + r)
  {
  }

  lemma CdOnce(s: seq<string>, arg: Option<string>, env: Env)
    requires s != [] && EachOnce(s)
    ensures Cd(s, arg, env).stack != [] && EachOnce(Cd(s, arg, env).stack[1..])
  {
    hide Numbered;
    var t := Cd(s, arg, env).stack;
    if t != s && |t| == |s| && t[1..] == s[1..] {
      OnceTail(s);
    } else if t != s {
      var n := Numbered(arg.value, env.octal).n;
      assert forall i | 0 <= i < |t| :: t[i] == s[if n + i < |s| then n + i else n + i - |s| + 1];
    }
  }

  lemma PushdOnce(s: seq<string>, arg: Option<string>, env: Env)
    requires s != [] && EachOnce(s)
    ensures Pushd(s, arg, env).stack != [] && EachOnce(Pushd(s, arg, env).stack[1..])
  {
    hide Numbered, EachOnce;
    var t := Pushd(s, arg, env).stack;
    if t == s {
    } else if |t| > |s| {
      assert t[1..] == s;
    } else if arg.None? {
      assert t == [s[1]] + s[..1] + s[2..];
      MovedOnce(s, 1);
      OnceTail(t);
    } else {
      var n := Numbered(arg.value, env.octal).n;
      if env.dextract {
        MovedOnce(s, n);
      } else {
        TurnedOnce(s, n);
      }
      OnceTail(t);
    }
    OnceTail(s);
  }

  lemma MovedOnce(s: seq<string>, n: nat)
    requires n < |s| && EachOnce(s)
    ensures EachOnce([s[n]] + s[..n] + s[n + 1..])
  {
    hide EachOnce;
    WithoutOnce(s, n);
    ConsOnce(s[n], Without(s, n));
    assert [s[n]] + s[..n] + s[n + 1..] == [s[n]] + Without(s, n);
  }

  lemma TurnedOnce(s: seq<string>, n: nat)
    requires n <= |s| && EachOnce(s)
    ensures EachOnce(s[n..] + s[..n])
  {
    var t := s[n..] + s[..n];
    assert forall i | 0 <= i < |t| :: t[i] == s[if n + i < |s| then n + i else n + i - |s|];
  }

  lemma PopdOnce(s: seq<string>, arg: Option<string>, env: Env)
    requires s != [] && EachOnce(s)
    ensures Popd(s, arg, env).stack != [] && EachOnce(Popd(s, arg, env).stack[1..])
  {
    hide Numbered;
    var t := Popd(s, arg, env).stack;
    if t != s {
      var n := if arg.None? then 0 else Numbered(arg.value, env.octal).n;
      assert forall i | 0 <= i < |t| :: t[i] == s[if i < n then i else i + 1];
    }
  }

  /** Bare pushd twice changes nothing. */
  lemma PushdTwice(s: seq<string>, env: Env)
    requires |s| > 1 && !env.pushdtohome && env.chdir(s[0]) && env.chdir(s[1])
    ensures Pushd(s, None, env).result.Done? && Pushd(Pushd(s, None, env).stack, None, env) == Outcome(Done, s)
  {
    var t := Pushd(s, None, env).stack;
    assert t[2..] == s[2..];
    assert [s[0], s[1]] + s[2..] == s;
  }

  /** popd takes back a push of a new directory. */
  lemma PopdAfterPushd(s: seq<string>, cp: string, env: Env)
    requires s != [] && Numbered(cp, env.octal).NotNumber? && env.follow(cp).Some? && env.chdir(s[0])
    ensures Popd(Pushd(s, Some(cp), env).stack, None, env) == Outcome(Done, s)
  {
    var t := [env.follow(cp).value] + s;
    assert Without(t, 0) == s;
  }

  /** Rotating by n and then by what is left changes nothing. */
  lemma RotateBack(s: seq<string>, n: nat, env: Env)
    requires 0 < n < |s| && !env.dextract && forall d :: env.chdir(d)
    ensures PushdWords(PushdWords(s, ["+" + Putn(n)], env).stack, ["+" + Putn(|s| - n)], env) == Outcome(Done, s)
  {
    hide PushdWords, Putn;
    var t := s[n..] + s[..n];
    PushdPlus(s, n, env);
    PushdPlus(t, |s| - n, env);
    assert t[|s| - n..] == s[..n] && t[..|s| - n] == s[n..];
    assert s[..n] + s[n..] == s;
  }

  /** A command that fails leaves the stack alone; none empties it; cd keeps or lowers its height,
      and the directories on it are those that were there and at most a new one. */
  lemma Heights(s: seq<string>, arg: Option<string>, env: Env)
    requires s != []
    ensures Cd(s, arg, env).result.Fail? ==> Cd(s, arg, env).stack == s
    ensures Pushd(s, arg, env).result.Fail? ==> Pushd(s, arg, env).stack == s
    ensures Popd(s, arg, env).result.Fail? ==> Popd(s, arg, env).stack == s
    ensures |Cd(s, arg, env).stack| == |s| || |Cd(s, arg, env).stack| == |s| - 1 > 0
    ensures |Pushd(s, arg, env).stack| == |s| || |Pushd(s, arg, env).stack| == |s| + 1
    ensures Popd(s, arg, env).result.Done? ==> |Popd(s, arg, env).stack| == |s| - 1 > 0
  {
    hide Cd, Pushd, Popd;
    CdHeight(s, arg, env);
    PushdHeight(s, arg, env);
    PopdHeight(s, arg, env);
  }

  lemma CdHeight(s: seq<string>, arg: Option<string>, env: Env)
    requires s != []
    ensures Cd(s, arg, env).result.Fail? ==> Cd(s, arg, env).stack == s
    ensures |Cd(s, arg, env).stack| == |s| || |Cd(s, arg, env).stack| == |s| - 1 > 0
  {
    hide Numeral, Getn;
  }

  lemma PushdHeight(s: seq<string>, arg: Option<string>, env: Env)
    requires s != []
    ensures Pushd(s, arg, env).result.Fail? ==> Pushd(s, arg, env).stack == s
    ensures |Pushd(s, arg, env).stack| == |s| || |Pushd(s, arg, env).stack| == |s| + 1
  {
    hide Numeral, Getn;
  }

  lemma PopdHeight(s: seq<string>, arg: Option<string>, env: Env)
    requires s != []
    ensures Popd(s, arg, env).result.Fail? ==> Popd(s, arg, env).stack == s
    ensures Popd(s, arg, env).result.Done? ==> |Popd(s, arg, env).stack| == |s| - 1 > 0
  {
    hide Numeral, Getn;
  }

  // ---------------------------------------------------------------- saving and restoring

  datatype Line = CdLine(name: string) | PushdLine(name: string)

  /** What recdirs writes for the last n names. */
  function Lines(s: seq<string>, n: nat): seq<Line>
    requires n <= |s|
  {
    if n == 0 then [] else if n == 1 then [CdLine(s[|s| - 1])] else Lines(s, n - 1) + [PushdLine(s[|s| - n])]
  }

  /** How many names are saved: with savedirs set to n there are n + 1. */
  function Saved(s: seq<string>, savedirs: Option<nat>): nat {
    if savedirs.None? || savedirs.value >= |s| then |s| else savedirs.value + 1
  }

  function Replay(lines: seq<Line>, s: seq<string>, env: Env): (r: seq<string>)
    requires s != []
    ensures r != []
  {
    if lines == [] then s
    else
      var t := Replay(lines[..|lines| - 1], s, env);
      Heights(t, Some(lines[|lines| - 1].name), env);
      match lines[|lines| - 1]
      case CdLine(name) => Cd(t, Some(name), env).stack
      case PushdLine(name) => Pushd(t, Some(name), env).stack
  }

  /** The directories can be gone to under their own names. */
  predicate Reachable(s: seq<string>, env: Env) {
    forall k | 0 <= k < |s| :: Numbered(s[k], env.octal).NotNumber? && env.follow(s[k]) == Some(s[k])
  }

  /** Replaying the last n lines in a shell with one directory rebuilds that part of the stack. */
  lemma {:induction false} ReplayRebuilds(s: seq<string>, n: nat, d: string, env: Env)
    requires 0 < n <= |s| && Reachable(s, env)
    ensures Replay(Lines(s, n), [d], env) == s[|s| - n..]
  {
    hide Numbered, Cd, Pushd;
    var lines, last, k := Lines(s, n), s[|s| - n], n - 1;
    if n == 1 {
      assert lines == [CdLine(last)] && lines[..0] == [];
      CdThere([d], last, env);
      assert s[|s| - n..] == [last];
    } else {
      ReplayRebuilds(s, k, d, env);
      assert lines[..|lines| - 1] == Lines(s, k);
      PushdThere(s[|s| - k..], last, env);
      assert s[|s| - n..] == [last] + s[|s| - k..];
    }
  }

  /** The commands that are written, with a directory that can be gone to. */
  lemma CdThere(s: seq<string>, name: string, env: Env)
    requires s != [] && Numbered(name, env.octal).NotNumber? && env.follow(name) == Some(name)
    ensures Cd(s, Some(name), env).stack == [name] + s[1..]
  {
  }

  lemma PushdThere(s: seq<string>, name: string, env: Env)
    requires s != [] && Numbered(name, env.octal).NotNumber? && env.follow(name) == Some(name)
    ensures Pushd(s, Some(name), env).stack == [name] + s
  {
  }

  /** Without a limit the whole stack comes back; with savedirs set to n, the n + 1 names at its
      bottom. */
  lemma SavedStackComesBack(s: seq<string>, savedirs: Option<nat>, d: string, env: Env)
    requires s != [] && Reachable(s, env)
    ensures Replay(Lines(s, Saved(s, savedirs)), [d], env)
         == match savedirs
            case None => s
            case Some(n) => if n + 1 < |s| then s[|s| - (n + 1)..] else s
  {
    hide Lines, Replay;
    ReplayRebuilds(s, Saved(s, savedirs), d, env);
    assert s[0..] == s;
  }

  // ---------------------------------------------------------------- on the ring

  lemma NamesOne(m: Memory, p: Ptr)
    ensures Names(m, [p]) == if p == HEAD || p !in m then [] else [m[p].name]
  {
    assert [p][1..] == [];
  }

  /** Where an entry is, in the ring and on the stack. */
  ghost predicate Splits(m: Memory, o: seq<Ptr>, a: seq<Ptr>, p: Ptr, b: seq<Ptr>) {
    o == a + ([p] + b) && p != HEAD && p in m
  }

  lemma SplitNames(m: Memory, o: seq<Ptr>, a: seq<Ptr>, p: Ptr, b: seq<Ptr>)
    requires Splits(m, o, a, p, b)
    ensures Names(m, o) == Names(m, a) + [m[p].name] + Names(m, b)
    ensures var s, n := Names(m, o), |Names(m, a)|;
            n < |s| && s[..n] == Names(m, a) && s[n] == m[p].name && s[n + 1..] == Names(m, b)
  {
    NamesAppend(m, a, [p] + b);
    NamesAppend(m, [p], b);
    NamesOne(m, p);
  }

  lemma SameEnds(o: seq<Ptr>, a: seq<Ptr>, p: Ptr, b: seq<Ptr>)
    requires o == a + ([p] + b)
    ensures o == (a + [p]) + b && (b != [] ==> o == (a + [p]) + ([b[0]] + b[1..]))
  {
  }

  /** The entry after p in the order of di_prev. */
  lemma PrevIs(m: Memory, o: seq<Ptr>, a: seq<Ptr>, p: Ptr, b: seq<Ptr>)
    requires Circular(m, o) && o == a + ([p] + b)
    ensures p in m && m[p].prev in m && m[p].prev == if b == [] then o[0] else b[0]
  {
    SameEnds(o, a, p, b);
    assert (a + [p])[|a + [p]| - 1] == p;
    if b != [] {
      ChainAppend(m, a + [p], b);
    }
  }

  /** The next directory on the stack: the head is passed over. */
  method NextDirectory(mem: Memory, p: Ptr, ghost o: seq<Ptr>, ghost a: seq<Ptr>, ghost b: seq<Ptr>)
    returns (q: Ptr, ghost a': seq<Ptr>, ghost b': seq<Ptr>)
    requires Circular(mem, o) && Splits(mem, o, a, p, b) && o[0] != HEAD
    ensures if q == o[0] then Names(mem, b) == []
            else Splits(mem, o, a', q, b') && |Names(mem, a')| == |Names(mem, a)| + 1
  {
    hide Names, Circular;
    PrevIs(mem, o, a, p, b);
    SameEnds(o, a, p, b);
    NamesAppend(mem, a, [p]);
    NamesOne(mem, p);
    InRing(mem, o);
    q := mem[p].prev;
    a', b' := a + [p], if b == [] then [] else b[1..];
    NamesOfNone(mem);
    if q == HEAD {
      OnlyHead(mem, b);
      OnlyOnce(mem, o, a + [p], HEAD, b[1..]);
      PrevIs(mem, o, a + [p], HEAD, b[1..]);
      SameEnds(o, a + [p], HEAD, b[1..]);
      NamesAppend(mem, a + [p], [HEAD]);
      NamesOne(mem, HEAD);
      q := mem[q].prev;
      a', b' := a + [p] + [HEAD], if |b| == 1 then [] else b[2..];
      assert |b| > 1 ==> b[1..][1..] == b[2..];
    }
    NotFirst(mem, o, a', q, b');
  }

  lemma InRing(m: Memory, o: seq<Ptr>)
    requires Circular(m, o)
    ensures o != [] && forall i | 0 <= i < |o| :: o[i] in m
    ensures m[o[0]].next == o[|o| - 1]
  {
  }

  lemma NamesOfNone(m: Memory)
    ensures Names(m, []) == []
  {
  }

  lemma OnlyHead(m: Memory, b: seq<Ptr>)
    ensures |b| == 1 && b[0] == HEAD ==> Names(m, b) == []
  {
  }

  lemma OnlyOnce(m: Memory, o: seq<Ptr>, a: seq<Ptr>, p: Ptr, b: seq<Ptr>)
    requires Circular(m, o) && o == a + ([p] + b)
    ensures p !in a && p !in b
  {
    assert o[|a|] == p;
    assert forall i | 0 <= i < |a| :: a[i] == o[i];
    assert forall i | 0 <= i < |b| :: b[i] == o[|a| + 1 + i];
  }

  lemma NotFirst(m: Memory, o: seq<Ptr>, a: seq<Ptr>, p: Ptr, b: seq<Ptr>)
    requires Circular(m, o)
    ensures o == a + ([p] + b) && a != [] ==> p != o[0]
  {
    if o == a + ([p] + b) {
      assert o[|a|] == p;
    }
  }

  // ---------------------------------------------------------------- the code

  datatype Found = NoNumber | TooDeep | NotNumeric | Entry(p: Ptr)

  class Dirs {
    var mem: Memory
    var dcwd: Ptr
    var unused: Ptr

    /** The ring is o, from the current directory on; its entries are all that is allocated. */
    ghost predicate Valid(o: seq<Ptr>)
      reads this
    {
      && Circular(mem, o) && o[0] == dcwd != HEAD && HEAD in o
      && (forall p | p in mem :: p in o && p < unused)
    }

    ghost function Stack(o: seq<Ptr>): seq<string>
      requires Valid(o)
      reads this
    {
      Names(mem, o)
    }

    constructor (name: string)
      ensures Valid([1, HEAD]) && Stack([1, HEAD]) == [name]
    {
      mem := map[HEAD := Directory("", 1, 1), 1 := Directory(name, HEAD, HEAD)];
      dcwd, unused := 1, 2;
      new;
      assert [1, HEAD][1..] == [HEAD] && [HEAD][1..] == [];
      ChainOne(mem, HEAD);
      assert Joined(mem, 1, HEAD) && Joined(mem, HEAD, 1);
      NamesOne(mem, HEAD);
    }

    /** dfind: the n-th directory from the current one. */
    method Dfind(cp: string, octal: bool, ghost o: seq<Ptr>) returns (r: Found, ghost a: seq<Ptr>, ghost b: seq<Ptr>)
      requires Valid(o)
      ensures match Numbered(cp, octal)
              case NotNumber => r == NoNumber
              case Wrong => r == NotNumeric
              case Number(n) =>
                if n >= |Stack(o)| then r == TooDeep
                else r.Entry? && Splits(mem, o, a, r.p, b) && |Names(mem, a)| == n && a != []
    {
      a, b := [], [];
      hide Names, Circular, Chain, Numeral, Getn;
      if cp == "" || cp[0] != '+' {
        return NoNumber, [], [];
      }
      var ep := 1;
      while ep < |cp| && IsDigit(cp[ep])
        invariant 1 <= ep <= |cp| && forall k | 1 <= k < ep :: IsDigit(cp[k])
      {
        ep := ep + 1;
      }
      DigitsBehind(cp, ep);
      if ep < |cp| {
        return NoNumber, [], [];
      }
      var i := GetN(cp[1..], octal);
      match i
      case Bad(_) => return NotNumeric, [], [];
      case Got(n) =>
        if n <= 0 {
          return NoNumber, [], [];
        }
        r, a, b := Walk(n, o);
    }

    lemma DigitsBehind(cp: string, ep: nat)
      requires 1 <= ep <= |cp| && (forall k | 1 <= k < ep :: IsDigit(cp[k])) && (ep < |cp| ==> !IsDigit(cp[ep]))
      ensures Numeral(cp[1..], 10) <==> ep == |cp|
    {
      if ep < |cp| {
        assert cp[1..][ep - 1] == cp[ep];
      }
    }

    method Walk(n: nat, ghost o: seq<Ptr>) returns (r: Found, ghost a: seq<Ptr>, ghost b: seq<Ptr>)
      requires Valid(o) && n > 0
      ensures if n >= |Stack(o)| then r == TooDeep
              else r.Entry? && Splits(mem, o, a, r.p, b) && |Names(mem, a)| == n && a != []
    {
      hide Names, Circular;
      var dp, i := dcwd, n;
      InRing(mem, o);
      a, b := [], o[1..];
      NamesOfNone(mem);
      assert o == [] + ([dp] + b);
      while i != 0
        invariant 0 <= i <= n && Splits(mem, o, a, dp, b) && |Names(mem, a)| == n - i && (i < n ==> a != [])
        decreases i
      {
        SplitNames(mem, o, a, dp, b);
        dp, a, b := NextDirectory(mem, dp, o, a, b);
        if dp == dcwd {
          return TooDeep, [], [];
        }
        i := i - 1;
        assert a != [] by {
          if a == [] {
            NamesOfNone(mem);
            assert false;
          }
        }
      }
      SplitNames(mem, o, a, dp, b);
      r := Entry(dp);
    }

    /** A new entry, not in the ring yet. */
    method New(name: string, ghost o: seq<Ptr>) returns (p: Ptr)
      requires Valid(o)
      modifies this`mem, this`unused
      ensures p == old(unused) && unused == p + 1 && p !in old(mem) && p != HEAD && p !in o
      ensures mem == old(mem)[p := Directory(name, HEAD, HEAD)]
      ensures Circular(mem, o) && Names(mem, o) == Names(old(mem), o)
    {
      p := unused;
      unused := unused + 1;
      mem := mem[p := Directory(name, HEAD, HEAD)];
      ChainSame(old(mem), mem, o);
      NamesSame(old(mem), mem, o);
    }

    /** A new directory on top of the others. */
    method PushNew(name: string, ghost o: seq<Ptr>) returns (ghost o': seq<Ptr>)
      requires Valid(o)
      modifies this
      ensures Valid(o') && Stack(o') == [name] + old(Stack(o))
    {
      hide Names, Circular, Chain;
      InRing(mem, o);
      var dp := New(name, o);
      InRing(mem, o);
      LinkFirst(mem, o, dp);
      ghost var linked := Linked(mem, dp, dcwd);
      mem := mem[dp := mem[dp].(prev := dcwd)];
      mem := mem[dp := mem[dp].(next := mem[dcwd].next)];
      mem := mem[dcwd := mem[dcwd].(next := dp)];
      mem := mem[mem[dp].next := mem[mem[dp].next].(prev := dp)];
      assert mem == linked;
      dcwd := dp;
      o' := [dp] + o;
    }

    /** dp is taken out of the ring: its neighbours are joined. */
    method Unlink(dp: Ptr, ghost a: seq<Ptr>, ghost b: seq<Ptr>)
      requires Circular(mem, a + ([dp] + b)) && a + b != []
      modifies this`mem
      ensures Circular(mem, a + b) && Names(mem, a + b) == Names(old(mem), a) + Names(old(mem), b)
      ensures mem.Keys == old(mem.Keys) && dp in mem && mem[dp].name == old(mem)[dp].name
      ensures forall p | p in mem :: mem[p].name == old(mem)[p].name
    {
      UnlinkAt(mem, a, dp, b);
      ghost var unlinked := Unlinked(mem, dp);
      mem := mem[mem[dp].prev := mem[mem[dp].prev].(next := mem[dp].next)];
      mem := mem[mem[dp].next := mem[mem[dp].next].(prev := mem[dp].prev)];
      SelfApart(old(mem), a, dp, b);
      assert mem == unlinked;
    }

    /** dp, which is out of the ring, is put between dcwd and what di_next leads to from it. */
    method Link(dp: Ptr, ghost o: seq<Ptr>)
      requires Circular(mem, o) && o[0] == dcwd && dp in mem && dp !in o && dp != HEAD
      modifies this`mem
      ensures Circular(mem, [dp] + o) && Names(mem, [dp] + o) == [old(mem)[dp].name] + Names(old(mem), o)
      ensures mem.Keys == old(mem.Keys)
    {
      hide Names, Circular, Chain;
      InRing(mem, o);
      LinkFirst(mem, o, dp);
      ghost var linked := Linked(mem, dp, dcwd);
      mem := mem[dp := mem[dp].(next := mem[dcwd].next)];
      mem := mem[dp := mem[dp].(prev := dcwd)];
      mem := mem[mem[dcwd].next := mem[mem[dcwd].next].(prev := dp)];
      mem := mem[dcwd := mem[dcwd].(next := dp)];
      assert mem == linked;
    }

    /** dfree, where no process holds the directory. */
    method Dfree(dp: Ptr, ghost o: seq<Ptr>)
      requires Circular(mem, o) && dp !in o
      modifies this`mem
      ensures mem == old(mem) - {dp} && Circular(mem, o) && Names(mem, o) == Names(old(mem), o)
    {
      mem := mem - {dp};
      ChainSame(old(mem), mem, o);
      NamesSame(old(mem), mem, o);
    }

    /** dp, a new entry, is put in the place of the current directory. */
    method Replace(dp: Ptr, ghost b: seq<Ptr>)
      requires Circular(mem, [dcwd] + b) && b != [] && dp in mem && dp !in [dcwd] + b && dp != HEAD
      modifies this`mem
      ensures Circular(mem, [dp] + b) && Names(mem, [dp] + b) == [old(mem)[dp].name] + Names(old(mem), b)
      ensures mem.Keys == old(mem.Keys)
    {
      hide Names, Circular, Chain;
      ReplaceFirst(mem, dcwd, b, dp);
      ghost var replaced := Replaced(mem, dp, dcwd);
      mem := mem[dp := mem[dp].(next := mem[dcwd].next)];
      mem := mem[dp := mem[dp].(prev := mem[dcwd].prev)];
      mem := mem[mem[dp].prev := mem[mem[dp].prev].(next := dp)];
      mem := mem[mem[dp].next := mem[mem[dp].next].(prev := dp)];
      assert mem == replaced;
    }

    /** cd to a new directory: it takes the place of the current one. */
    method CdNew(name: string, ghost o: seq<Ptr>) returns (ghost o': seq<Ptr>)
      requires Valid(o)
      modifies this
      ensures Valid(o') && Stack(o') == [name] + old(Stack(o))[1..]
    {
      hide Names, Circular, Chain;
      ghost var b := FirstAndRest(mem, o);
      var dp := New(name, o);
      SameRest(old(mem), mem, dcwd, b);
      Replace(dp, b);
      o' := [dp] + b;
      Dfree(dcwd, o');
      dcwd := dp;
    }

    /** The current directory is taken out of the ring and freed. */
    method DropCurrent(ghost rest: seq<Ptr>)
      requires Circular(mem, [dcwd] + rest) && rest != [] && dcwd !in rest
      modifies this`mem
      ensures Circular(mem, rest) && Names(mem, rest) == Names(old(mem), rest)
      ensures mem.Keys == old(mem.Keys) - {dcwd} && forall p | p in mem :: mem[p].name == old(mem)[p].name
    {
      hide Names, Circular, Chain;
      assert [] + ([dcwd] + rest) == [dcwd] + rest && [] + rest == rest;
      Unlink(dcwd, [], rest);
      NamesOfNone(old(mem));
      Dfree(dcwd, rest);
    }

    /** cd +n: the current directory goes, and dp becomes the current one. */
    method CdEntry(dp: Ptr, ghost o: seq<Ptr>, ghost a: seq<Ptr>, ghost b: seq<Ptr>) returns (ghost o': seq<Ptr>)
      requires Valid(o) && Splits(mem, o, a, dp, b) && a != []
      modifies this
      ensures Valid(o')
      ensures Stack(o') == [old(mem)[dp].name] + Names(old(mem), b) + Names(old(mem), a[1..])
    {
      hide Names, Circular, Chain;
      ghost var a1, tail := a[1..], [dp] + b;
      ghost var rest := FirstAndRest(mem, o);
      assert rest == a1 + tail;
      Members(a1, tail);
      DropCurrent(a1 + tail);
      InRing(mem, a1 + tail);
      Rotated(mem, a1, tail);
      Parts(old(mem), mem, a1, tail);
      NamesAppend(old(mem), [dp], b);
      NamesOne(old(mem), dp);
      o' := tail + a1;
      dcwd := dp;
    }

    /** The ring is turned: dp becomes the current directory. */
    method RotateTo(dp: Ptr, ghost o: seq<Ptr>, ghost a: seq<Ptr>, ghost b: seq<Ptr>) returns (ghost o': seq<Ptr>)
      requires Valid(o) && Splits(mem, o, a, dp, b)
      modifies this`dcwd
      ensures Valid(o') && Stack(o') == [mem[dp].name] + Names(mem, b) + Names(mem, a)
    {
      hide Names, Circular, Chain;
      Members(a, [dp] + b);
      Rotated(mem, a, [dp] + b);
      NamesFirst(mem, dp, b);
      o' := ([dp] + b) + a;
      dcwd := dp;
    }

    /** dp is taken from where it is and put on top (bare pushd, and dextract). */
    method Extract(dp: Ptr, ghost o: seq<Ptr>, ghost a: seq<Ptr>, ghost b: seq<Ptr>) returns (ghost o': seq<Ptr>)
      requires Valid(o) && Splits(mem, o, a, dp, b) && a != []
      modifies this
      ensures Valid(o') && Stack(o') == [old(mem)[dp].name] + (Names(old(mem), a) + Names(old(mem), b))
    {
      hide Names, Circular, Chain;
      OnlyOnce(mem, o, a, dp, b);
      Unlink(dp, a, b);
      InRing(mem, a + b);
      Link(dp, a + b);
      o' := [dp] + (a + b);
      dcwd := dp;
    }

    /** popd +n: dp goes, and the current directory stays. */
    method PopEntry(dp: Ptr, ghost o: seq<Ptr>, ghost a: seq<Ptr>, ghost b: seq<Ptr>) returns (ghost o': seq<Ptr>)
      requires Valid(o) && Splits(mem, o, a, dp, b) && a != []
      modifies this
      ensures Valid(o') && Stack(o') == Names(old(mem), a) + Names(old(mem), b)
    {
      hide Names, Circular, Chain;
      OnlyOnce(mem, o, a, dp, b);
      Unlink(dp, a, b);
      Dfree(dp, a + b);
      o' := a + b;
    }

    /** The directory after the current one, if there is another. */
    method Second(ghost o: seq<Ptr>) returns (dp: Ptr, ghost a: seq<Ptr>, ghost b: seq<Ptr>)
      requires Valid(o)
      ensures dp == dcwd <==> |Stack(o)| == 1
      ensures dp != dcwd ==> Splits(mem, o, a, dp, b) && a != [] && Names(mem, a) == Stack(o)[..1]
                             && Names(mem, a[1..]) == []
    {
      hide Names, Circular, Chain;
      ghost var rest := FirstAndRest(mem, o);
      assert [] + ([dcwd] + rest) == o;
      NamesOfNone(mem);
      dp, a, b := NextDirectory(mem, dcwd, o, [], rest);
      if dp != dcwd {
        SplitNames(mem, o, a, dp, b);
        InRing(mem, o);
        AtFront(o, a, dp, b);
        NamesFirst(mem, dcwd, a[1..]);
        assert [dcwd] + a[1..] == a;
      }
    }

    /** The part of dnewcwd for dunique, once the current directory is set: another entry of the same
        name is looked for from the head on, and taken out. */
    method Dnewcwd(env: Env, ghost o: seq<Ptr>) returns (ghost o': seq<Ptr>)
      requires Valid(o)
      modifies this
      ensures Valid(o') && old(Stack(o)) != [] && Ends(Outcome(Done, old(Stack(o))), env, Done, Stack(o'))
    {
      hide Names, Circular, Chain, DropsSame;
      StackNotEmpty(o);
      o' := o;
      if env.dunique {
        var dn := SameName(o);
        if dn != HEAD {
          ghost var a, b := SplitAt(mem, o, dn);
          SplitNames(mem, o, a, dn, b);
          TailNames(o, a, dn, b);
          OnlyOnce(mem, o, a, dn, b);
          ghost var rest := FirstAndRest(mem, o);
          DropsOne(Stack(o), |Names(mem, a)|);
          o' := PopEntry(dn, o, a, b);
        } else {
          NoneDropped(Stack(o));
        }
      }
    }

    /** The first entry from the head on that has the name of the current directory and is another, or
        the head. */
    method SameName(ghost o: seq<Ptr>) returns (dn: Ptr)
      requires Valid(o)
      ensures if dn == HEAD then Stack(o) != [] && Stack(o)[0] !in Stack(o)[1..]
              else dn in o && dn in mem && dn != dcwd && dcwd in mem && mem[dn].name == mem[dcwd].name
    {
      hide Names, Circular, Chain;
      ghost var h := FromHead(mem, o);
      StackNotEmpty(o);
      ghost var i := 1;
      HeadBegins(mem, h);
      dn := mem[HEAD].prev;
      while dn != HEAD
        invariant 1 <= i <= |h| && dn == if i < |h| then h[i] else HEAD
        invariant dn == HEAD ==> i == |h|
        invariant forall j | 1 <= j < i :: Another(mem, h[j], dcwd)
        decreases |h| - i
      {
        HeadStep(mem, h, i);
        if dn != dcwd && mem[dn].name == mem[dcwd].name {
          return;
        }
        dn, i := mem[dn].prev, i + 1;
      }
      NoOtherName(mem, o, h);
    }

    /** dochngd, with the words of the command. */
    method Dochngd(v: seq<string>, env: Env, ghost o: seq<Ptr>) returns (r: Result, ghost o': seq<Ptr>)
      requires Valid(o)
      modifies this
      ensures Valid(o') && old(Stack(o)) != []
      ensures Ends(CdWords(old(Stack(o)), v, env), env, r, Stack(o'))
    {
      hide Names, Circular, Chain, Valid, DropsSame, Cd;
      StackNotEmpty(o);
      var asked := Ask(v, env);
      match asked
      case Declined(f) => r, o' := Fail(f), o;
      case Request(arg, e) => r, o' := ChangeTo(arg, e, o);
    }

    /** dochngd, once it is known what is asked for. */
    method ChangeTo(arg: Option<string>, env: Env, ghost o: seq<Ptr>) returns (r: Result, ghost o': seq<Ptr>)
      requires Valid(o)
      modifies this
      ensures Valid(o') && old(Stack(o)) != [] && Ends(Cd(old(Stack(o)), arg, env), env, r, Stack(o'))
    {
      hide Names, Circular, Chain, Numbered, Valid, DropsSame;
      StackNotEmpty(o);
      o' := o;
      if arg.None? {
        if !env.cdtohome {
          return Fail(TooFew), o;
        }
        if env.home.None? {
          return Fail(NoHome), o;
        }
        if !env.chdir(env.home.value) {
          return Fail(CantChange), o;
        }
        o' := CdNew(env.home.value, o);
        o' := Dnewcwd(env, o');
        return Done, o';
      }
      var f;
      ghost var a, b;
      f, a, b := Dfind(arg.value, env.octal, o);
      match f
      case NotNumeric => return Fail(BadNumber), o;
      case TooDeep => return Fail(Deep), o;
      case Entry(dp) =>
        SplitNames(mem, o, a, dp, b);
        if !env.chdir(mem[dp].name) {
          return Fail(System), o;
        }
        TailNames(o, a, dp, b);
        o' := CdEntry(dp, o, a, b);
        o' := Dnewcwd(env, o');
        return Done, o';
      case NoNumber =>
        var name := env.follow(arg.value);
        if name.None? {
          return Fail(NotFound), o;
        }
        o' := CdNew(name.value, o);
        o' := Dnewcwd(env, o');
        return Done, o';
    }

    lemma StackNotEmpty(o: seq<Ptr>)
      requires Valid(o)
      ensures Stack(o) != [] && dcwd in mem
    {
      var b := FirstAndRest(mem, o);
    }

    /** The names around the n-th directory, as parts of the stack. */
    lemma TailNames(o: seq<Ptr>, a: seq<Ptr>, dp: Ptr, b: seq<Ptr>)
      requires Valid(o) && Splits(mem, o, a, dp, b) && a != []
      ensures var s, n := Stack(o), |Names(mem, a)|;
              && 0 < n < |s| && s[n..] == [mem[dp].name] + Names(mem, b)
              && s[1..n] == Names(mem, a[1..]) && s[..n] == Names(mem, a)
    {
      hide Names, Circular, Chain;
      SplitNames(mem, o, a, dp, b);
      InRing(mem, o);
      AtFront(o, a, dp, b);
      NamesFirst(mem, dcwd, a[1..]);
      assert [dcwd] + a[1..] == a;
      assert Names(mem, a)[1..] == Names(mem, a[1..]);
    }

    /** dopushd, with the words of the command. */
    method Dopushd(v: seq<string>, env: Env, ghost o: seq<Ptr>) returns (r: Result, ghost o': seq<Ptr>)
      requires Valid(o)
      modifies this
      ensures Valid(o') && old(Stack(o)) != []
      ensures Ends(PushdWords(old(Stack(o)), v, env), env, r, Stack(o'))
    {
      hide Names, Circular, Chain, Valid, DropsSame, Pushd;
      StackNotEmpty(o);
      var asked := Ask(v, env);
      match asked
      case Declined(f) => r, o' := Fail(f), o;
      case Request(arg, e) => r, o' := PushTo(arg, e, o);
    }

    /** dopushd, once it is known what is asked for. */
    method PushTo(arg: Option<string>, env: Env, ghost o: seq<Ptr>) returns (r: Result, ghost o': seq<Ptr>)
      requires Valid(o)
      modifies this
      ensures Valid(o') && old(Stack(o)) != [] && Ends(Pushd(old(Stack(o)), arg, env), env, r, Stack(o'))
    {
      hide Names, Circular, Chain, Numbered, Valid, DropsSame;
      StackNotEmpty(o);
      o' := o;
      var f;
      ghost var a, b;
      if arg.None? {
        if env.pushdtohome {
          if env.home.None? {
            return Fail(NoHome), o;
          }
          if !env.chdir(env.home.value) {
            return Fail(CantChange), o;
          }
          var name := env.follow(env.home.value);
          if name.None? {
            return Fail(NotFound), o;
          }
          o' := PushNew(name.value, o);
          o' := Dnewcwd(env, o');
          return Done, o';
        }
        r, o' := Exchange(env, o);
        return;
      }
      f, a, b := Dfind(arg.value, env.octal, o);
      match f
      case NotNumeric => return Fail(BadNumber), o;
      case TooDeep => return Fail(Deep), o;
      case Entry(dp) =>
        r, o' := PushdEntry(dp, env, o, a, b);
        return;
      case NoNumber =>
        var name := env.follow(arg.value);
        if name.None? {
          return Fail(NotFound), o;
        }
        o' := PushNew(name.value, o);
        o' := Dnewcwd(env, o');
        return Done, o';
    }

    /** pushd +n */
    method PushdEntry(dp: Ptr, env: Env, ghost o: seq<Ptr>, ghost a: seq<Ptr>, ghost b: seq<Ptr>)
      returns (r: Result, ghost o': seq<Ptr>)
      requires Valid(o) && Splits(mem, o, a, dp, b) && a != []
      modifies this
      ensures Valid(o')
      ensures var s, n := old(Stack(o)), |Names(old(mem), a)|;
              && 0 < n < |s|
              && Ends(if !env.chdir(s[n]) then Outcome(Fail(System), s)
                      else if env.dextract then Outcome(Done, [s[n]] + s[..n] + s[n + 1..])
                      else Outcome(Done, s[n..] + s[..n]), env, r, Stack(o'))
    {
      hide Names, Circular, Chain, Valid, DropsSame;
      SplitNames(mem, o, a, dp, b);
      TailNames(o, a, dp, b);
      if !env.chdir(mem[dp].name) {
        return Fail(System), o;
      }
      ghost var s, n := Stack(o), |Names(mem, a)|;
      if env.dextract {
        assert [s[n]] + (s[..n] + s[n + 1..]) == [s[n]] + s[..n] + s[n + 1..];
        o' := Extract(dp, o, a, b);
      } else {
        o' := RotateTo(dp, o, a, b);
      }
      o' := Dnewcwd(env, o');
      r := Done;
    }

    /** pushd without an argument exchanges the top two. */
    method Exchange(env: Env, ghost o: seq<Ptr>) returns (r: Result, ghost o': seq<Ptr>)
      requires Valid(o) && !env.pushdtohome
      modifies this
      ensures Valid(o') && old(Stack(o)) != [] && Ends(Pushd(old(Stack(o)), None, env), env, r, Stack(o'))
    {
      hide Names, Circular, Chain, Valid;
      StackNotEmpty(o);
      var dp;
      ghost var a, b;
      dp, a, b := Second(o);
      if dp == dcwd {
        return Fail(NoDir), o;
      }
      SplitNames(mem, o, a, dp, b);
      if !env.chdir(mem[dp].name) {
        return Fail(System), o;
      }
      ghost var s := Stack(o);
      assert [s[1]] + (s[..1] + s[2..]) == [s[1], s[0]] + s[2..];
      o' := Extract(dp, o, a, b);
      o' := Dnewcwd(env, o');
      r := Done;
    }

    /** dopopd, with the words of the command. */
    method Dopopd(v: seq<string>, env: Env, ghost o: seq<Ptr>) returns (r: Result, ghost o': seq<Ptr>)
      requires Valid(o)
      modifies this
      ensures Valid(o') && old(Stack(o)) != []
      ensures if Skipped(v, false) == Args(false, []) then Ends(PopdWords(old(Stack(o)), v, env), env, r, Stack(o'))
              else Outcome(r, Stack(o')) == PopdWords(old(Stack(o)), v, env)
    {
      hide Names, Circular, Chain, Valid, DropsSame, Popd;
      StackNotEmpty(o);
      var asked := Ask(v, env);
      match asked
      case Declined(f) => r, o' := Fail(f), o;
      case Request(arg, e) => r, o' := PopTo(arg, e, o);
    }

    /** dopopd, once it is known what is asked for. */
    method PopTo(arg: Option<string>, env: Env, ghost o: seq<Ptr>) returns (r: Result, ghost o': seq<Ptr>)
      requires Valid(o)
      modifies this
      ensures Valid(o') && old(Stack(o)) != []
      ensures if arg.None? then Ends(Popd(old(Stack(o)), arg, env), env, r, Stack(o'))
              else Outcome(r, Stack(o')) == Popd(old(Stack(o)), arg, env)
    {
      hide Names, Circular, Chain, Numbered, Valid, DropsSame;
      StackNotEmpty(o);
      o' := o;
      if arg.None? {
        r, o' := PopCurrent(env, o);
        return;
      }
      var f;
      ghost var a, b;
      f, a, b := Dfind(arg.value, env.octal, o);
      match f
      case NotNumeric => return Fail(BadNumber), o;
      case TooDeep => return Fail(Deep), o;
      case NoNumber => return Fail(BadDir), o;
      case Entry(dp) =>
        SplitNames(mem, o, a, dp, b);
        TailNames(o, a, dp, b);
        o' := PopEntry(dp, o, a, b);
        return Done, o';
    }

    /** popd without an argument; the test of the code is whether both neighbours are the head. */
    method PopCurrent(env: Env, ghost o: seq<Ptr>) returns (r: Result, ghost o': seq<Ptr>)
      requires Valid(o)
      modifies this
      ensures Valid(o') && old(Stack(o)) != [] && Ends(Popd(old(Stack(o)), None, env), env, r, Stack(o'))
    {
      hide Names, Circular, Chain, Valid;
      StackNotEmpty(o);
      var p;
      ghost var a, b;
      p, a, b := Second(o);
      Alone(o);
      if mem[dcwd].prev == HEAD && mem[dcwd].next == HEAD {
        return Fail(Empty), o;
      }
      SplitNames(mem, o, a, p, b);
      if !env.chdir(mem[p].name) {
        return Fail(System), o;
      }
      ghost var s := Stack(o);
      assert [s[1]] + s[2..] + [] == Without(s, 0);
      o' := CdEntry(p, o, a, b);
      o' := Dnewcwd(env, o');
      r := Done;
    }

    /** Both neighbours of the current directory are the head exactly when it is the only one. */
    lemma Alone(o: seq<Ptr>)
      requires Valid(o)
      ensures dcwd in mem && (mem[dcwd].prev == HEAD && mem[dcwd].next == HEAD <==> |Stack(o)| == 1)
    {
      AloneInRing(mem, o);
    }

    /** getstakd: the n-th directory, or the last one. */
    method Getstakd(cnt: int, ghost o: seq<Ptr>) returns (r: Option<string>)
      requires Valid(o)
      ensures var s := Stack(o);
              && s != []
              && r == if cnt < 0 then Some(s[|s| - 1]) else if cnt < |s| then Some(s[cnt]) else None
    {
      hide Names, Circular, Chain;
      StackNotEmpty(o);
      if cnt < 0 {
        var dp := mem[dcwd].next;
        LastName(mem, o);
        if dp == HEAD {
          dp := mem[dp].next;
        }
        return Some(mem[dp].name);
      }
      if cnt == 0 {
        ghost var b := FirstAndRest(mem, o);
        return Some(mem[dcwd].name);
      }
      var f;
      ghost var a, b;
      f, a, b := Walk(cnt, o);
      if f.Entry? {
        SplitNames(mem, o, a, f.p, b);
        return Some(mem[f.p].name);
      }
      return None;
    }

    /** recdirs: the commands that are written, from the bottom of the stack on. savedirs is the
        limit, if there is one. */
    method Recdirs(savedirs: Option<nat>, ghost o: seq<Ptr>) returns (lines: seq<Line>)
      requires Valid(o)
      ensures Stack(o) != [] && lines == Lines(Stack(o), Saved(Stack(o), savedirs))
    {
      hide Names, Circular, Chain, Lines, Written;
      StackNotEmpty(o);
      InRing(mem, o);
      lines := [];
      var cdflag, num := false, if savedirs.Some? then savedirs.value else 0;
      var dp := mem[dcwd].next;
      ghost var t: nat, s := |o| - 1, Stack(o);
      NoLines(s, mem, o);
      assert o == o[..t] + [dp];
      while true
        invariant t < |o| && dp == o[t] && Written(mem, o, t + 1, s, lines)
        invariant cdflag == (lines != []) && (savedirs.Some? ==> num == savedirs.value - |lines| && num >= 0)
        decreases t
      {
        InRing(mem, o);
        OneMoreLine(mem, o, t, s, lines);
        if dp != HEAD {
          if !cdflag {
            cdflag := true;
            lines := lines + [CdLine(mem[dp].name)];
          } else {
            lines := lines + [PushdLine(mem[dp].name)];
          }
          if savedirs.Some? {
            if num == 0 {
              LinesSoFar(mem, o, t, s, lines);
              return;
            }
            num := num - 1;
          }
        }
        NextIs(mem, o, t);
        dp := mem[dp].next;
        if dp == mem[dcwd].next {
          break;
        }
        t := t - 1;
      }
      LinesSoFar(mem, o, t, s, lines);
    }
  }

  lemma DropsOne(s: seq<string>, k: nat)
    requires 1 <= k < |s| && s[k] == s[0]
    ensures DropsSame(s, Without(s, k)) && Without(s, k) == s[..k] + s[k + 1..]
  {
    assert s[1..][k - 1] == s[0];
  }

  lemma NoneDropped(s: seq<string>)
    requires s != [] && s[0] !in s[1..]
    ensures DropsSame(s, s)
  {
  }

  lemma SplitAt(m: Memory, o: seq<Ptr>, p: Ptr) returns (a: seq<Ptr>, b: seq<Ptr>)
    requires Circular(m, o) && p in o && p != HEAD && p != o[0]
    ensures Splits(m, o, a, p, b) && a != []
  {
    var k :| 0 <= k < |o| && o[k] == p;
    a, b := o[..k], o[k + 1..];
    assert o == a + ([p] + b);
  }

  /** The ring from its head on. */
  lemma FromHead(m: Memory, o: seq<Ptr>) returns (h: seq<Ptr>)
    requires Circular(m, o) && HEAD in o
    ensures Circular(m, h) && h != [] && h[0] == HEAD && forall p :: p in h <==> p in o
  {
    var k :| 0 <= k < |o| && o[k] == HEAD;
    var a, b := o[..k], o[k..];
    assert o == a + b;
    Rotated(m, a, b);
    Members(a, b);
    h := b + a;
  }

  /** The entry is p, or does not have its name. */
  predicate Another(m: Memory, q: Ptr, p: Ptr) {
    q == p || (q in m && p in m && m[q].name != m[p].name)
  }

  lemma HeadBegins(m: Memory, h: seq<Ptr>)
    requires Circular(m, h) && h[0] == HEAD
    ensures HEAD in m && m[HEAD].prev == (if |h| > 1 then h[1] else HEAD) && (|h| > 1 ==> h[1] != HEAD)
  {
    assert h == [] + ([HEAD] + h[1..]);
    PrevIs(m, h, [], HEAD, h[1..]);
  }

  lemma HeadStep(m: Memory, h: seq<Ptr>, i: nat)
    requires Circular(m, h) && h[0] == HEAD && 1 <= i < |h|
    ensures h[i] in m && m[h[i]].prev == (if i + 1 < |h| then h[i + 1] else HEAD)
    ensures i + 1 < |h| ==> h[i + 1] != HEAD
  {
    hide Chain;
    assert h == h[..i] + ([h[i]] + h[i + 1..]);
    PrevIs(m, h, h[..i], h[i], h[i + 1..]);
  }

  lemma NoOtherName(m: Memory, o: seq<Ptr>, h: seq<Ptr>)
    requires Circular(m, o) && o[0] != HEAD && HEAD in o && h != [] && h[0] == HEAD && forall p :: p in h <==> p in o
    requires forall j | 1 <= j < |h| :: Another(m, h[j], o[0])
    ensures Names(m, o) != [] && Names(m, o)[0] !in Names(m, o)[1..]
  {
    hide Names, Circular;
    var b := FirstAndRest(m, o);
    forall x | x in Names(m, b) ensures x != m[o[0]].name {
      var p := NamedIn(m, b, x);
      assert p in h;
      var j :| 0 <= j < |h| && h[j] == p;
      assert Another(m, h[j], o[0]);
    }
  }

  lemma {:induction false} NamedIn(m: Memory, o: seq<Ptr>, x: string) returns (p: Ptr)
    requires x in Names(m, o)
    ensures p in o && p != HEAD && p in m && m[p].name == x
  {
    if o[0] != HEAD && o[0] in m && m[o[0]].name == x {
      p := o[0];
    } else {
      p := NamedIn(m, o[1..], x);
    }
  }

  lemma AtFront(o: seq<Ptr>, a: seq<Ptr>, p: Ptr, b: seq<Ptr>)
    requires o == a + ([p] + b) && a != []
    ensures o[0] == a[0]
  {
  }

  lemma AloneInRing(m: Memory, o: seq<Ptr>)
    requires Circular(m, o) && o[0] != HEAD && HEAD in o
    ensures o[0] in m && (m[o[0]].prev == HEAD && m[o[0]].next == HEAD <==> |Names(m, o)| == 1)
  {
    hide Names, Circular, Chain;
    var b := FirstAndRest(m, o);
    if |b| == 1 {
      InRing(m, o);
      assert [] + ([o[0]] + b) == o;
      PrevIs(m, o, [], o[0], b);
      OnlyHead(m, b);
    } else {
      HeadAndMore(m, o, b);
    }
  }

  lemma HeadAndMore(m: Memory, o: seq<Ptr>, b: seq<Ptr>)
    requires Circular(m, o) && b == o[1..] && |b| > 1
    ensures o[0] in m && !(m[o[0]].prev == HEAD && m[o[0]].next == HEAD) && Names(m, b) != []
  {
    hide Names;
    InRing(m, o);
    assert [] + ([o[0]] + b) == o;
    PrevIs(m, o, [], o[0], b);
    assert b[0] == o[1] && b[1] == o[2] && o[|o| - 1] != o[1] && o[1] != o[2];
    SomeName(m, b);
  }

  lemma SomeName(m: Memory, b: seq<Ptr>)
    requires |b| > 1 && b[0] in m && b[1] in m && b[0] != b[1]
    ensures Names(m, b) != []
  {
    if b[0] == HEAD {
      assert b[1..][0] == b[1];
      assert Names(m, b[1..]) != [];
    }
  }

  /** The last name on the stack, found from the current directory the other way round. */
  lemma LastName(m: Memory, o: seq<Ptr>)
    requires Circular(m, o) && o[0] != HEAD && HEAD in o
    ensures var p := m[o[0]].next; var q := if p == HEAD && p in m then m[p].next else p;
            p in m && q in m && Names(m, o) != [] && Names(m, o)[|Names(m, o)| - 1] == m[q].name
  {
    hide Names, Circular, Chain;
    InRing(m, o);
    var n := |o| - 1;
    var init, p := o[..n], o[n];
    assert o == init + [p];
    NamesAppend(m, init, [p]);
    NamesOne(m, p);
    if p == HEAD {
      var j, q := init[..n - 1], init[n - 1];
      assert init == j + [q] && q == o[n - 1];
      assert o == j + ([q] + [HEAD]);
      OnlyOnce(m, o, j, q, [HEAD]);
      JoinedNext(m, j, q);
      NamesAppend(m, j, [q]);
      NamesOne(m, q);
    }
  }

  lemma JoinedNext(m: Memory, j: seq<Ptr>, q: Ptr)
    requires Circular(m, j + ([q] + [HEAD]))
    ensures HEAD in m && m[HEAD].next == q
  {
    assert j + ([q] + [HEAD]) == (j + [q]) + [HEAD];
    ChainAppend(m, j + [q], [HEAD]);
  }

  /** What has been written is for the names from position t of the ring on. */
  ghost predicate Written(m: Memory, o: seq<Ptr>, t: nat, s: seq<string>, lines: seq<Line>)
    requires t <= |o|
  {
    && s == Names(m, o[..t]) + Names(m, o[t..])
    && lines == Lines(s, |Names(m, o[t..])|) && |lines| == |Names(m, o[t..])|
  }

  lemma NoLines(s: seq<string>, m: Memory, o: seq<Ptr>)
    requires s == Names(m, o)
    ensures Written(m, o, |o|, s, [])
  {
    assert o[..|o|] == o && o[|o|..] == [];
  }

  lemma OneMoreLine(m: Memory, o: seq<Ptr>, t: nat, s: seq<string>, lines: seq<Line>)
    requires t < |o| && o[t] in m && Written(m, o, t + 1, s, lines)
    ensures Written(m, o, t, s,
                    if o[t] == HEAD then lines
                    else lines + [if lines == [] then CdLine(m[o[t]].name) else PushdLine(m[o[t]].name)])
  {
    hide Names;
    var p := o[t];
    assert o[..t + 1] == o[..t] + [p] && o[t..] == [p] + o[t + 1..];
    NamesAppend(m, o[..t], [p]);
    NamesAppend(m, [p], o[t + 1..]);
    NamesOne(m, p);
    if p == HEAD {
      assert Names(m, o[..t]) + [] == Names(m, o[..t]) && [] + Names(m, o[t + 1..]) == Names(m, o[t + 1..]);
    } else {
      var n := |Names(m, o[t..])|;
      assert s[|s| - n] == m[p].name;
    }
  }

  lemma LinesSoFar(m: Memory, o: seq<Ptr>, t: nat, s: seq<string>, lines: seq<Line>)
    requires t < |o| && Written(m, o, t, s, lines)
    ensures |lines| <= |s| && lines == Lines(s, |lines|)
    ensures t == 0 ==> |lines| == |s|
  {
    assert o[..0] == [] && o[0..] == o;
  }

  /** di_next goes through the ring from its end to its start. */
  lemma NextIs(m: Memory, o: seq<Ptr>, t: nat)
    requires Circular(m, o) && t < |o|
    ensures o[t] in m && m[o[t]].next == if t > 0 then o[t - 1] else o[|o| - 1]
    ensures t > 0 ==> o[t - 1] != o[|o| - 1]
  {
    if t > 0 {
      assert o == o[..t] + o[t..];
      ChainAppend(m, o[..t], o[t..]);
    }
  }

  /** The ring from the current directory on, as that and the rest. */
  lemma FirstAndRest(m: Memory, o: seq<Ptr>) returns (b: seq<Ptr>)
    requires Circular(m, o) && o[0] != HEAD && HEAD in o
    ensures b == o[1..] && b != [] && o == [o[0]] + b && o[0] !in b && Names(m, o) == [m[o[0]].name] + Names(m, b)
    ensures Names(m, o)[1..] == Names(m, b) && HEAD in b
    ensures o[0] in m && forall i | 0 <= i < |b| :: b[i] in m
  {
    hide Circular, Names;
    InRing(m, o);
    b := o[1..];
    assert [] + ([o[0]] + b) == o;
    OnlyOnce(m, o, [], o[0], b);
    NamesFirst(m, o[0], b);
  }

  lemma Members(a: seq<Ptr>, b: seq<Ptr>)
    ensures forall x :: x in a + b <==> x in b + a
    ensures (a + b) != [] && b != [] ==> (b + a)[0] == b[0]
  {
  }

  /** The names of the rest are not changed by a new entry. */
  lemma SameRest(m: Memory, m': Memory, p: Ptr, b: seq<Ptr>)
    requires Names(m', [p] + b) == Names(m, [p] + b) && p in m && p in m' && p != HEAD && m[p].name == m'[p].name
    ensures Names(m', b) == Names(m, b)
  {
    NamesFirst(m, p, b);
    NamesFirst(m', p, b);
    hide Names;
    assert Names(m, b) == ([m[p].name] + Names(m, b))[1..];
    assert Names(m', b) == ([m'[p].name] + Names(m', b))[1..];
  }

  lemma SelfApart(m: Memory, a: seq<Ptr>, p: Ptr, b: seq<Ptr>)
    requires Circular(m, a + ([p] + b)) && a + b != []
    ensures p in m && m[p].prev in m && m[p].next in m && m[p].prev != p && m[p].next != p
  {
    Rotated(m, a, [p] + b);
    assert ([p] + b) + a == [p] + (b + a);
    UnlinkFirst(m, p, b + a);
    Apart(m, [p], b + a);
  }

  /** The names of parts, when those of the whole are the same. */
  lemma Parts(m: Memory, m': Memory, a: seq<Ptr>, b: seq<Ptr>)
    requires forall i | 0 <= i < |a + b| ::
               (a + b)[i] in m && (a + b)[i] in m' && m[(a + b)[i]].name == m'[(a + b)[i]].name
    ensures Names(m', a) == Names(m, a) && Names(m', b) == Names(m, b)
  {
    assert forall i | 0 <= i < |a| :: a[i] == (a + b)[i];
    assert forall i | 0 <= i < |b| :: b[i] == (a + b)[|a| + i];
    NamesSame(m, m', a);
    NamesSame(m, m', b);
  }
}
