/** The expression evaluator (sh.exp.c): a tower of precedence levels over a cursor into a list
    of words. Level 0 is exp0, 1 to 5 are exp1, exp2x, exp2a, exp2b and exp2c, 6 and 7 are exp3
    and exp3a, 8 to 10 are exp4 to exp6. Levels up to 5 give numbers, the others words. */
module Exp {
  import opened Numbers

  datatype Val = N(n: int) | S(s: string)

  datatype Res = Ok(v: Val, pos: nat) | Err(e: Error)

  datatype Op = Or | And | BitOr | BitXor | BitAnd | Eq | Ne | EqMatch | NeMatch
    | Lt | Le | Gt | Ge | Shl | Shr | Add | Sub | Mul | Div | Mod

  // ---------------------------------------------------------------- words

  datatype Class = AddOp | MulOp | EqOp | RelOp | RestOp

  const ANYOP := {AddOp, MulOp, EqOp, RelOp, RestOp}
  const EQEQ := 1
  const GTR := 2
  const LSS := 4
  const NOTEQ := 6
  const EQMATCH := 7
  const NOTEQMATCH := 8

  /** isa: whether the word at q, or the end of the list, is an operator of the kinds in what. */
  function Isa(v: seq<string>, q: nat, what: set<Class>): int
    requires q <= |v|
  {
    if q == |v| then if RestOp in what then 1 else 0
    else if v[q] == "" then 0
    else if |v[q]| == 1 && AddOp in what && v[q][0] in "+-" then 1
    else if |v[q]| == 1 && MulOp in what && v[q][0] in "*/%" then 1
    else if |v[q]| == 1 && RestOp in what && v[q][0] in "()!~^\"" then 1
    else if |v[q]| == 2 && RestOp in what && (v[q] == "|&" || v[q] == "<<" || v[q] == ">>") then 1
    else if v[q] == "==" && EqOp in what then EQEQ
    else if v[q] == "=~" && EqOp in what then EQMATCH
    else if v[q] == "!=" && EqOp in what then NOTEQ
    else if v[q] == "!~" && EqOp in what then NOTEQMATCH
    else if RelOp in what && v[q][0] == '<' then LSS
    else if RelOp in what && v[q][0] == '>' then GTR
    else 0
  }

  datatype MaybeOp = NoOp | AnOp(op: Op, next: nat)

  /** The operator of a level at q, and the position after it. */
  function OpAt(l: nat, v: seq<string>, q: nat): (r: MaybeOp)
    requires q <= |v| && l < 10
    ensures r.AnOp? ==> q < r.next <= |v|
  {
    if q == |v| then NoOp
    else if l == 0 then if v[q] == "||" then AnOp(Or, q + 1) else NoOp
    else if l == 1 then if v[q] == "&&" then AnOp(And, q + 1) else NoOp
    else if l == 2 then if v[q] == "|" then AnOp(BitOr, q + 1) else NoOp
    else if l == 3 then if v[q] == "^" then AnOp(BitXor, q + 1) else NoOp
    else if l == 4 then if v[q] == "&" then AnOp(BitAnd, q + 1) else NoOp
    else if l == 5 then EqualityAt(v[q], q)
    else if l == 6 then RelationAt(v, q)
    else if l == 7 then ShiftAt(v[q], q)
    else if l == 8 then if v[q] == "+" then AnOp(Add, q + 1) else if v[q] == "-" then AnOp(Sub, q + 1) else NoOp
    else if v[q] == "*" then AnOp(Mul, q + 1)
    else if v[q] == "/" then AnOp(Div, q + 1)
    else if v[q] == "%" then AnOp(Mod, q + 1)
    else NoOp
  }

  function EqualityAt(w: string, q: nat): MaybeOp {
    if w == "==" then AnOp(Eq, q + 1)
    else if w == "!=" then AnOp(Ne, q + 1)
    else if w == "=~" then AnOp(EqMatch, q + 1)
    else if w == "!~" then AnOp(NeMatch, q + 1)
    else NoOp
  }

  /** Any word that starts with < or >; an equals sign is a word of its own. */
  function RelationAt(v: seq<string>, q: nat): MaybeOp
    requires q < |v|
  {
    if v[q] == "" || (v[q][0] != '<' && v[q][0] != '>') then NoOp
    else if q + 1 < |v| && v[q + 1] == "=" then AnOp(if v[q][0] == '<' then Le else Ge, q + 2)
    else AnOp(if v[q][0] == '<' then Lt else Gt, q + 1)
  }

  function ShiftAt(w: string, q: nat): MaybeOp {
    if |w| > 1 && w[0] == w[1] && (w[0] == '<' || w[0] == '>')
    then AnOp(if w[0] == '<' then Shl else Shr, q + 1) else NoOp
  }

  // ---------------------------------------------------------------- operators

  /** What an expression asks of the rest of the shell: whether a leading zero means octal, whether a
      word matches a pattern, what a word expands to as a file name, whether a file exists, the
      value of a file test, and whether a command succeeds. */
  datatype Env = Env(octal: bool, gmatch: (string, string) -> Out<bool>, globone: string -> Out<string>,
                     exists_: string -> bool, filetest: (string, string) -> Out<string>, command: seq<string> -> bool)

  /** The flags of ignore: TEXP_IGNORE and TEXP_NOGLOB. */
  datatype Mode = Mode(ign: bool, noglob: bool)

  /** The flags for the right operand. || and && pass on TEXP_IGNORE only. */
  function ModeAfter(m: Mode, op: Op, p1: Val): Mode {
    if op == Or || op == And then Mode(m.ign || Skips(op, p1), false)
    else if op == EqMatch || op == NeMatch then m.(noglob := true)
    else m
  }

  function Truth(b: bool): int { if b then 1 else 0 }

  /** The operators on numbers. The two on patterns have no value of this kind. */
  function Arith(op: Op, a: int, b: int): Out<int> {
    match op
    case Add => Got(a + b)
    case Sub => Got(a - b)
    case Mul => Got(a * b)
    case Div => if b == 0 then Bad(Div0) else Got(Quotient(a, b))
    case Mod => if b == 0 then Bad(Mod0) else Got(Remainder(a, b))
    case Shl => Got(if b < 0 then 0 else a * Pow2(b))
    case Shr => Got(if b < 0 then 0 else a / Pow2(b))
    case Lt => Got(Truth(a < b))
    case Le => Got(Truth(a <= b))
    case Gt => Got(Truth(a > b))
    case Ge => Got(Truth(a >= b))
    case Eq => Got(Truth(a == b))
    case Ne => Got(Truth(a != b))
    case Or => Got(Truth(a != 0 || b != 0))
    case And => Got(Truth(a != 0 && b != 0))
    case BitOr => Got(Bitwise((x, y) => x || y, a, b))
    case BitXor => Got(Bitwise((x, y) => x != y, a, b))
    case BitAnd => Got(Bitwise((x, y) => x && y, a, b))
    case _ => Got(0)
  }

  /** The operand on the right is only parsed. */
  predicate Skips(op: Op, p1: Val) {
    p1.N? && ((op == Or && p1.n != 0) || (op == And && p1.n == 0))
  }

  /** The value of an operator on words, as the right operand is read before the left one where
      it is looked at first. When only parsing, a number that depends on the level. */
  function OnWords(op: Op, p1: string, p2: string, ign: bool, oct: bool): Out<Val> {
    if ign && op !in {Shl, Shr} then
      Got(S(Putn(match op case Lt => LSS case Le => LSS + 1 case Gt => GTR case Ge => GTR + 1 case _ => 0)))
    else
      var (x, y) := if op in {Div, Mod} then (p2, p1) else (p1, p2);
      if Egetn(x, oct).Bad? then Bad(Egetn(x, oct).e)
      else if op == Div && Egetn(x, oct).v == 0 then Bad(Div0)
      else if op == Mod && Egetn(x, oct).v == 0 then Bad(Mod0)
      else if Egetn(y, oct).Bad? then Bad(Egetn(y, oct).e)
      else
        match Arith(op, Egetn(p1, oct).v, Egetn(p2, oct).v)
        case Bad(e) => Bad(e)
        case Got(i) => Got(S(Putn(i)))
  }

  /** The value of an operator of level l; exp0 has its right operand in 32 bits. */
  function Combine(l: nat, op: Op, p1: Val, p2: Val, m: Mode, env: Env): Out<Val>
    requires l < 10 && (if l < 5 then p1.N? && p2.N? else p1.S? && p2.S?)
  {
    if l == 0 then Got(if m.ign then p1 else N(Truth(p1.n != 0 || Int32(p2.n) != 0)))
    else if l < 5 then if m.ign || Arith(op, p1.n, p2.n).Bad? then Got(p1) else Got(N(Arith(op, p1.n, p2.n).v))
    else if l == 5 then Equality(op, p1.s, p2.s, m.ign, env)
    else OnWords(op, p1.s, p2.s, m.ign, env.octal)
  }

  /** The value of an operator of exp2c; when only parsing, the operator's number. */
  function Equality(op: Op, p1: string, p2: string, ign: bool, env: Env): (r: Out<Val>)
    ensures r.Got? ==> r.v.N?
  {
    if ign then Got(N(match op case Eq => EQEQ case Ne => NOTEQ case EqMatch => EQMATCH case _ => NOTEQMATCH))
    else if op == Eq || op == Ne then Got(N(Truth((p1 == p2) == (op == Eq))))
    else
      match env.gmatch(p1, p2)
      case Bad(e) => Bad(e)
      case Got(b) => Got(N(Truth(b == (op == EqMatch))))
  }

  predicate Kind(l: nat, v: Val) {
    if l <= 5 then v.N? else v.S?
  }

  // ---------------------------------------------------------------- what the levels do

  /** What level l makes of the words at pos. */
  function Level(l: nat, v: seq<string>, pos: nat, m: Mode, env: Env): (r: Res)
    requires l <= 10 && pos <= |v|
    ensures r.Ok? ==> pos <= r.pos <= |v| && Kind(l, r.v)
    decreases |v| - pos, 2 * (10 - l) + 1
  {
    if l == 10 then Unary(v, pos, m, env)
    else
      match Level(l + 1, v, pos, m, env)
      case Err(e) => Err(e)
      case Ok(p1, q) => Rest(l, p1, v, q, m, env)
  }

  /** What level l makes of the words at q after an operand. On the right of =~ and !~ a product is cut
      short: its operator is the value. */
  function Rest(l: nat, p1: Val, v: seq<string>, q: nat, m: Mode, env: Env): (r: Res)
    requires l < 10 && q <= |v| && (if l < 5 then p1.N? else p1.S?)
    ensures r.Ok? ==> q <= r.pos <= |v| && Kind(l, r.v)
    decreases |v| - q, 2 * (10 - l)
  {
    match OpAt(l, v, q)
    case NoOp => Done(l, p1, q, env.octal)
    case AnOp(op, next) =>
      if l == 9 && m.noglob then Ok(S(v[q]), next) else
      match Level(l + 1, v, next, ModeAfter(m, op, p1), env)
      case Err(e) => Err(e)
      case Ok(p2, q2) =>
        match Combine(l, op, p1, p2, m, env)
        case Bad(e) => Err(e)
        case Got(x) => if l == 5 || l == 7 then CombinedKind(l, op, p1, p2, m, env); Ok(x, q2)
                       else CombinedKind(l, op, p1, p2, m, env); Rest(l, x, v, q2, m, env)
  }

  lemma CombinedKind(l: nat, op: Op, p1: Val, p2: Val, m: Mode, env: Env)
    requires l < 10 && (if l < 5 then p1.N? && p2.N? else p1.S? && p2.S?)
    ensures Combine(l, op, p1, p2, m, env).Got? ==> Kind(l, Combine(l, op, p1, p2, m, env).v)
  {
  }

  /** Without an operator the operand is the result; exp2c turns it into a number. */
  function Done(l: nat, p1: Val, q: nat, oct: bool): (r: Res)
    requires l < 10 && (if l < 5 then p1.N? else p1.S?)
    ensures r.Ok? ==> r.pos == q && Kind(l, r.v)
  {
    if l != 5 then Ok(p1, q)
    else
      match Egetn(p1.s, oct)
      case Bad(e) => Err(e)
      case Got(n) => Ok(N(n), q)
  }

  const FILETESTS := "erwxfdzoplstSXLbcugkmK"
  const FILEVALS := "ZAMCDIUGNFPL"

  predicate FileTest(w: string) {
    |w| > 1 && w[0] == '-' && (w[1] in FILETESTS || w[1] in FILEVALS)
  }

  /** Past the characters of w from k on that are in set. */
  function Past(w: string, k: nat, chars: string): (r: nat)
    requires k <= |w|
    ensures k <= r <= |w|
    decreases |w| - k
  {
    if k < |w| && w[k] in chars then Past(w, k + 1, chars) else k
  }

  /** The word is a file test of a known form: tests, and perhaps a value at the end. */
  predicate Inquiry(w: string)
    requires FileTest(w)
  {
    var t := Past(w, 1, FILETESTS);
    var k := if t == |w| && w[t - 1] == 'L' then t - 1 else t;
    if k < |w| && w[k] in FILEVALS then
      var e := if w[k] == 'P' then Past(w, k + 1, "01234567") else k + 1;
      (if w[k] in "AMCUGP" && w[e..] == ":" then e + 1 else e) == |w|
    else k == |w| && k != 1
  }

  /** filetest; w is the test, and the file's name is at q. */
  function TestAt(w: string, v: seq<string>, q: nat, m: Mode, env: Env): (r: Res)
    requires FileTest(w) && q <= |v|
    ensures r.Ok? ==> q < r.pos <= |v| && r.v.S?
  {
    if !Inquiry(w) then Err(FileInquiry)
    else if q == |v| || (Isa(v, q, ANYOP) != 0 && !env.exists_(v[q])) then Err(FileName)
    else if m.ign then Ok(S(""), q + 1)
    else
      match if m.noglob then Got(v[q]) else env.globone(v[q])
      case Bad(e) => Err(e)
      case Got(name) =>
        match env.filetest(w, name)
        case Bad(e) => Err(e)
        case Got(r) => Ok(S(r), q + 1)
  }

  /** The position of the closing brace, or the end of the list. */
  function BraceAt(v: seq<string>, q: nat): (r: nat)
    requires q <= |v|
    ensures q <= r <= |v| && (r < |v| ==> v[r] == "}")
    decreases |v| - q
  {
    if q == |v| || v[q] == "}" then q else BraceAt(v, q + 1)
  }

  /** The command in braces whose first word is at q. */
  function CommandAt(v: seq<string>, q: nat, m: Mode, env: Env): (r: Res)
    requires q <= |v|
    ensures r.Ok? ==> q < r.pos <= |v| && r.v.S?
  {
    var e := BraceAt(v, q);
    if e == |v| then Err(MissingBrace)
    else Ok(S(if m.ign then "" else Putn(Truth(env.command(v[q..e])))), e + 1)
  }

  function Unary(v: seq<string>, pos: nat, m: Mode, env: Env): (r: Res)
    requires pos <= |v|
    ensures r.Ok? ==> pos <= r.pos <= |v| && r.v.S?
    decreases |v| - pos, 0
  {
    if pos == |v| then Err(Expression)
    else if v[pos] == "!" || v[pos] == "~" then
      match Unary(v, pos + 1, m, env)
      case Err(e) => Err(e)
      case Ok(cp, q) =>
        match Egetn(cp.s, env.octal)
        case Bad(e) => Err(e)
        case Got(i) => Ok(S(Putn(if v[pos] == "!" then Truth(i == 0) else -i - 1)), q)
    else if v[pos] == "(" then
      match Level(0, v, pos + 1, m, env)
      case Err(e) => Err(e)
      case Ok(ccode, q) =>
        if q == |v| || v[q] == "" || v[q][0] != ')' then Err(Expression) else Ok(S(Putn(ccode.n)), q + 1)
    else if v[pos] == "{" then CommandAt(v, pos + 1, m, env)
    else if Isa(v, pos, ANYOP) != 0 then Ok(S(""), pos)
    else if FileTest(v[pos]) then TestAt(v[pos], v, pos + 1, m, env)
    else if m.noglob then Ok(S(v[pos]), pos + 1)
    else
      match env.globone(v[pos])
      case Bad(e) => Err(e)
      case Got(w) => Ok(S(w), pos + 1)
  }

  // ---------------------------------------------------------------- the code

  /** The loops of exp0 to exp2b: an operand has been read, and p1 is the value so far. */
  ghost predicate Loop(l: nat, v: seq<string>, pos: nat, m: Mode, env: Env, p1: Val, q: nat) {
    && l < 10 && pos <= q <= |v| && (if l < 5 then p1.N? else p1.S?)
    && Level(l, v, pos, m, env) == Rest(l, p1, v, q, m, env)
  }

  lemma LoopBegins(l: nat, v: seq<string>, pos: nat, m: Mode, env: Env)
    requires l < 10 && pos <= |v|
    ensures match Level(l + 1, v, pos, m, env)
            case Err(e) => Level(l, v, pos, m, env) == Err(e)
            case Ok(p1, q) => Loop(l, v, pos, m, env, p1, q)
  {
  }

  lemma LoopEnds(l: nat, v: seq<string>, pos: nat, m: Mode, env: Env, p1: Val, q: nat)
    requires Loop(l, v, pos, m, env, p1, q) && OpAt(l, v, q).NoOp?
    ensures Level(l, v, pos, m, env) == Done(l, p1, q, env.octal)
  {
  }

  /** What an operator of level l and its right operand do. */
  lemma LoopGoesOn(l: nat, v: seq<string>, pos: nat, m: Mode, env: Env, p1: Val, q: nat)
    requires Loop(l, v, pos, m, env, p1, q) && OpAt(l, v, q).AnOp?
    ensures var (op, next) := (OpAt(l, v, q).op, OpAt(l, v, q).next);
            if l == 9 && m.noglob then Level(l, v, pos, m, env) == Ok(S(v[q]), next)
            else
              match Level(l + 1, v, next, ModeAfter(m, op, p1), env)
              case Err(e) => Level(l, v, pos, m, env) == Err(e)
              case Ok(p2, q2) =>
                match Combine(l, op, p1, p2, m, env)
                case Bad(e) => Level(l, v, pos, m, env) == Err(e)
                case Got(x) => if l == 5 || l == 7 then Level(l, v, pos, m, env) == Ok(x, q2)
                               else Loop(l, v, pos, m, env, x, q2)
  {
    var (op, next) := (OpAt(l, v, q).op, OpAt(l, v, q).next);
    if !(l == 9 && m.noglob) {
      match Level(l + 1, v, next, ModeAfter(m, op, p1), env)
      case Err(e) =>
      case Ok(p2, q2) => CombinedKind(l, op, p1, p2, m, env);
    }
  }

  method Exp0(v: seq<string>, pos: nat, m: Mode, env: Env) returns (r: Res)
    requires pos <= |v|
    ensures r == Level(0, v, pos, m, env)
    decreases |v| - pos, 21
  {
    hide Level, Rest, Arith, Done, Int32;
    LoopBegins(0, v, pos, m, env);
    r := Exp1(v, pos, m, env);
    if r.Err? { return; }
    var p1, q := r.v.n, r.pos;
    while q < |v| && v[q] == "||"
      invariant Loop(0, v, pos, m, env, N(p1), q)
      decreases |v| - q
    {
      LoopGoesOn(0, v, pos, m, env, N(p1), q);
      q := q + 1;
      r := Exp1(v, q, Mode(m.ign || p1 != 0, false), env);
      if r.Err? { return; }
      var p2 := Int32(r.v.n);
      q := r.pos;
      if !m.ign {
        p1 := Truth(p1 != 0 || p2 != 0);
      }
    }
    LoopEnds(0, v, pos, m, env, N(p1), q);
    r := Done(0, N(p1), q, env.octal);
    DoneIs(0, N(p1), q, env.octal);
  }

  lemma DoneIs(l: nat, p1: Val, q: nat, oct: bool)
    requires l < 10 && l != 5 && (if l < 5 then p1.N? else p1.S?)
    ensures Done(l, p1, q, oct) == Ok(p1, q)
  {
  }

  method Exp1(v: seq<string>, pos: nat, m: Mode, env: Env) returns (r: Res)
    requires pos <= |v|
    ensures r == Level(1, v, pos, m, env)
    decreases |v| - pos, 19
  {
    hide Level, Rest, Done;
    LoopBegins(1, v, pos, m, env);
    r := Exp2x(v, pos, m, env);
    if r.Err? { return; }
    var p1, q := r.v.n, r.pos;
    while q < |v| && v[q] == "&&"
      invariant Loop(1, v, pos, m, env, N(p1), q)
      decreases |v| - q
    {
      LoopGoesOn(1, v, pos, m, env, N(p1), q);
      q := q + 1;
      r := Exp2x(v, q, Mode(m.ign || p1 == 0, false), env);
      if r.Err? { return; }
      q := r.pos;
      if !m.ign {
        p1 := Truth(p1 != 0 && r.v.n != 0);
      }
    }
    LoopEnds(1, v, pos, m, env, N(p1), q);
    DoneIs(1, N(p1), q, env.octal);
    r := Ok(N(p1), q);
  }

  method Exp2x(v: seq<string>, pos: nat, m: Mode, env: Env) returns (r: Res)
    requires pos <= |v|
    ensures r == Level(2, v, pos, m, env)
    decreases |v| - pos, 17
  {
    hide Level, Rest, Done, Bitwise;
    LoopBegins(2, v, pos, m, env);
    r := Exp2a(v, pos, m, env);
    if r.Err? { return; }
    var p1, q := r.v.n, r.pos;
    while q < |v| && v[q] == "|"
      invariant Loop(2, v, pos, m, env, N(p1), q)
      decreases |v| - q
    {
      LoopGoesOn(2, v, pos, m, env, N(p1), q);
      q := q + 1;
      r := Exp2a(v, q, m, env);
      if r.Err? { return; }
      q := r.pos;
      if !m.ign {
        p1 := Arith(BitOr, p1, r.v.n).v;
      }
    }
    LoopEnds(2, v, pos, m, env, N(p1), q);
    DoneIs(2, N(p1), q, env.octal);
    r := Ok(N(p1), q);
  }

  method Exp2a(v: seq<string>, pos: nat, m: Mode, env: Env) returns (r: Res)
    requires pos <= |v|
    ensures r == Level(3, v, pos, m, env)
    decreases |v| - pos, 15
  {
    hide Level, Rest, Done, Bitwise;
    LoopBegins(3, v, pos, m, env);
    r := Exp2b(v, pos, m, env);
    if r.Err? { return; }
    var p1, q := r.v.n, r.pos;
    while q < |v| && v[q] == "^"
      invariant Loop(3, v, pos, m, env, N(p1), q)
      decreases |v| - q
    {
      LoopGoesOn(3, v, pos, m, env, N(p1), q);
      q := q + 1;
      r := Exp2b(v, q, m, env);
      if r.Err? { return; }
      q := r.pos;
      if !m.ign {
        p1 := Arith(BitXor, p1, r.v.n).v;
      }
    }
    LoopEnds(3, v, pos, m, env, N(p1), q);
    DoneIs(3, N(p1), q, env.octal);
    r := Ok(N(p1), q);
  }

  method Exp2b(v: seq<string>, pos: nat, m: Mode, env: Env) returns (r: Res)
    requires pos <= |v|
    ensures r == Level(4, v, pos, m, env)
    decreases |v| - pos, 13
  {
    hide Level, Rest, Done, Bitwise;
    LoopBegins(4, v, pos, m, env);
    r := Exp2c(v, pos, m, env);
    if r.Err? { return; }
    var p1, q := r.v.n, r.pos;
    while q < |v| && v[q] == "&"
      invariant Loop(4, v, pos, m, env, N(p1), q)
      decreases |v| - q
    {
      LoopGoesOn(4, v, pos, m, env, N(p1), q);
      q := q + 1;
      r := Exp2c(v, q, m, env);
      if r.Err? { return; }
      q := r.pos;
      if !m.ign {
        p1 := Arith(BitAnd, p1, r.v.n).v;
      }
    }
    LoopEnds(4, v, pos, m, env, N(p1), q);
    DoneIs(4, N(p1), q, env.octal);
    r := Ok(N(p1), q);
  }

  lemma IsaEquality(v: seq<string>, q: nat)
    requires q <= |v|
    ensures var i := Isa(v, q, {EqOp});
            match OpAt(5, v, q)
            case NoOp => i == 0
            case AnOp(op, next) =>
              next == q + 1 && op in {Eq, Ne, EqMatch, NeMatch}
              && i == match op case Eq => EQEQ case Ne => NOTEQ case EqMatch => EQMATCH case _ => NOTEQMATCH
  {
  }

  lemma IsaRelation(v: seq<string>, q: nat)
    requires q <= |v|
    ensures var i := Isa(v, q, {RelOp});
            match OpAt(6, v, q)
            case NoOp => i == 0
            case AnOp(op, next) =>
              && (next == q + 2 <==> q + 1 < |v| && v[q + 1] == "=") && (next == q + 1 || next == q + 2)
              && i == (if op == Lt || op == Le then LSS else GTR)
              && (op == Le || op == Ge <==> next == q + 2) && op in {Lt, Le, Gt, Ge}
  {
  }

  lemma IsaSums(v: seq<string>, q: nat)
    requires q <= |v|
    ensures Isa(v, q, {AddOp}) != 0 <==> OpAt(8, v, q).AnOp?
    ensures Isa(v, q, {MulOp}) != 0 <==> OpAt(9, v, q).AnOp?
    ensures OpAt(8, v, q).AnOp? ==>
              OpAt(8, v, q) == AnOp(if v[q][0] == '+' then Add else Sub, q + 1) && v[q] != ""
    ensures OpAt(9, v, q).AnOp? ==>
              v[q] != ""
              && OpAt(9, v, q) == AnOp(if v[q][0] == '*' then Mul else if v[q][0] == '/' then Div else Mod, q + 1)
  {
  }

  method Exp2c(v: seq<string>, pos: nat, m: Mode, env: Env) returns (r: Res)
    requires pos <= |v|
    ensures r == Level(5, v, pos, m, env)
    decreases |v| - pos, 11
  {
    hide Level, Rest, Egetn, Isa, OpAt;
    LoopBegins(5, v, pos, m, env);
    r := Exp3(v, pos, m, env);
    if r.Err? { return; }
    var p1, q := r.v.s, r.pos;
    IsaEquality(v, q);
    var i := Isa(v, q, {EqOp});
    if i != 0 {
      LoopGoesOn(5, v, pos, m, env, S(p1), q);
      ghost var op := OpAt(5, v, q).op;
      q := q + 1;
      var mode := m;
      if i == EQMATCH || i == NOTEQMATCH {
        mode := m.(noglob := true);
      }
      r := Exp3(v, q, mode, env);
      if r.Err? { return; }
      var value := Compare(i, p1, r.v.s, m.ign, env);
      return if value.Bad? then Err(value.e) else Ok(N(value.v), r.pos);
    }
    LoopEnds(5, v, pos, m, env, S(p1), q);
    var n := Egetn(p1, env.octal);
    r := if n.Bad? then Err(n.e) else Ok(N(n.v), q);
  }

  /** The switch of exp2c. */
  method Compare(i: int, p1: string, p2: string, ign: bool, env: Env) returns (r: Out<int>)
    requires i in {EQEQ, NOTEQ, EQMATCH, NOTEQMATCH}
    ensures var o := if i == EQEQ then Eq else if i == NOTEQ then Ne else if i == EQMATCH then EqMatch else NeMatch;
            Equality(o, p1, p2, ign, env) == if r.Bad? then Bad(r.e) else Got(N(r.v))
  {
    if ign {
      return Got(i);
    }
    if i == EQEQ || i == NOTEQ {
      return Got(if i == EQEQ then Truth(p1 == p2) else Truth(p1 != p2));
    }
    var b := env.gmatch(p1, p2);
    return if b.Bad? then Bad(b.e) else Got(if i == EQMATCH then Truth(b.v) else Truth(!b.v));
  }

  method Exp3(v: seq<string>, pos: nat, m: Mode, env: Env) returns (r: Res)
    requires pos <= |v|
    ensures r == Level(6, v, pos, m, env)
    decreases |v| - pos, 9
  {
    hide Level, Rest, Isa, OpAt, Putn, Combine;
    LoopBegins(6, v, pos, m, env);
    r := Exp3a(v, pos, m, env);
    if r.Err? { return; }
    var p1, q := r.v.s, r.pos;
    while true
      invariant Loop(6, v, pos, m, env, S(p1), q)
      decreases |v| - q
    {
      IsaRelation(v, q);
      var i := Isa(v, q, {RelOp});
      if i == 0 {
        break;
      }
      LoopGoesOn(6, v, pos, m, env, S(p1), q);
      ghost var op := OpAt(6, v, q).op;
      q := q + 1;
      if q < |v| && v[q] == "=" {
        i, q := i + 1, q + 1;
      }
      r := Exp3a(v, q, m, env);
      if r.Err? { return; }
      q := r.pos;
      var value := Relation(i, p1, r.v.s, m, env);
      if value.Bad? {
        return Err(value.e);
      }
      p1 := Putn(value.v);
    }
    LoopEnds(6, v, pos, m, env, S(p1), q);
    r := Ok(S(p1), q);
  }

  /** The switch of exp3; when only parsing the value is the operator's number. */
  method Relation(i: int, p1: string, p2: string, m: Mode, env: Env) returns (r: Out<int>)
    requires i in {GTR, GTR + 1, LSS, LSS + 1}
    ensures var o := if i == GTR then Gt else if i == GTR + 1 then Ge else if i == LSS then Lt else Le;
            Combine(6, o, S(p1), S(p2), m, env) == if r.Bad? then Bad(r.e) else Got(S(Putn(r.v)))
  {
    hide Egetn, Putn;
    if m.ign {
      return Got(i);
    }
    var a, b := Egetn(p1, env.octal), Egetn(p2, env.octal);
    if a.Bad? {
      return a;
    }
    if b.Bad? {
      return b;
    }
    return Got(if i == GTR then Truth(a.v > b.v) else if i == GTR + 1 then Truth(a.v >= b.v)
               else if i == LSS then Truth(a.v < b.v) else Truth(a.v <= b.v));
  }

  method Exp3a(v: seq<string>, pos: nat, m: Mode, env: Env) returns (r: Res)
    requires pos <= |v|
    ensures r == Level(7, v, pos, m, env)
    decreases |v| - pos, 7
  {
    hide Level, Rest, Putn, Combine;
    LoopBegins(7, v, pos, m, env);
    r := Exp4(v, pos, m, env);
    if r.Err? { return; }
    var p1, q := r.v.s, r.pos;
    if q < |v| && |v[q]| > 1 && (v[q][0] == '<' || v[q][0] == '>') && v[q][0] == v[q][1] {
      LoopGoesOn(7, v, pos, m, env, S(p1), q);
      var left := v[q][0] == '<';
      r := Exp4(v, q + 1, m, env);
      if r.Err? { return; }
      var i := ShiftBy(left, p1, r.v.s, m, env);
      return if i.Bad? then Err(i.e) else Ok(S(Putn(i.v)), r.pos);
    }
    LoopEnds(7, v, pos, m, env, S(p1), q);
    r := Ok(S(p1), q);
  }

  /** The shift of exp3a, which is computed even when only parsing. */
  method ShiftBy(left: bool, p1: string, p2: string, ghost m: Mode, env: Env) returns (r: Out<int>)
    ensures Combine(7, if left then Shl else Shr, S(p1), S(p2), m, env)
         == if r.Bad? then Bad(r.e) else Got(S(Putn(r.v)))
  {
    hide Egetn, Putn;
    var a, b := Egetn(p1, env.octal), Egetn(p2, env.octal);
    if a.Bad? {
      return a;
    }
    if b.Bad? {
      return b;
    }
    return Arith(if left then Shl else Shr, a.v, b.v);
  }

  method Exp4(v: seq<string>, pos: nat, m: Mode, env: Env) returns (r: Res)
    requires pos <= |v|
    ensures r == Level(8, v, pos, m, env)
    decreases |v| - pos, 5
  {
    hide Level, Rest, Isa, OpAt, Putn, Combine;
    LoopBegins(8, v, pos, m, env);
    r := Exp5(v, pos, m, env);
    if r.Err? { return; }
    var p1, q := r.v.s, r.pos;
    IsaSums(v, q);
    while Isa(v, q, {AddOp}) != 0
      invariant Loop(8, v, pos, m, env, S(p1), q)
      decreases |v| - q
    {
      IsaSums(v, q);
      LoopGoesOn(8, v, pos, m, env, S(p1), q);
      var op := v[q];
      q := q + 1;
      r := Exp5(v, q, m, env);
      if r.Err? { return; }
      q := r.pos;
      var i := Sum(op[0], p1, r.v.s, m, env);
      if i.Bad? {
        return Err(i.e);
      }
      p1 := Putn(i.v);
    }
    IsaSums(v, q);
    LoopEnds(8, v, pos, m, env, S(p1), q);
    r := Ok(S(p1), q);
  }

  /** The switch of exp4; when only parsing the value stays 0. */
  method Sum(op: char, p1: string, p2: string, m: Mode, env: Env) returns (r: Out<int>)
    ensures Combine(8, if op == '+' then Add else Sub, S(p1), S(p2), m, env)
         == if r.Bad? then Bad(r.e) else Got(S(Putn(r.v)))
  {
    hide Egetn, Putn;
    if m.ign {
      return Got(0);
    }
    var a, b := Egetn(p1, env.octal), Egetn(p2, env.octal);
    if a.Bad? {
      return a;
    }
    if b.Bad? {
      return b;
    }
    return Got(if op == '+' then a.v + b.v else a.v - b.v);
  }

  method Exp5(v: seq<string>, pos: nat, m: Mode, env: Env) returns (r: Res)
    requires pos <= |v|
    ensures r == Level(9, v, pos, m, env)
    decreases |v| - pos, 3
  {
    hide Level, Rest, Isa, OpAt, Putn, Combine, Unary;
    LoopBegins(9, v, pos, m, env);
    r := Exp6(v, pos, m, env);
    SpecTop(v, pos, m, env);
    if r.Err? { return; }
    var p1, q := r.v.s, r.pos;
    IsaSums(v, q);
    while Isa(v, q, {MulOp}) != 0
      invariant Loop(9, v, pos, m, env, S(p1), q)
      decreases |v| - q
    {
      IsaSums(v, q);
      LoopGoesOn(9, v, pos, m, env, S(p1), q);
      var op := v[q];
      q := q + 1;
      if m.noglob {
        return Ok(S(op), q);
      }
      SpecTop(v, q, m, env);
      r := Exp6(v, q, m, env);
      if r.Err? { return; }
      q := r.pos;
      var i := Product(op[0], p1, r.v.s, m, env);
      if i.Bad? {
        return Err(i.e);
      }
      p1 := Putn(i.v);
    }
    IsaSums(v, q);
    LoopEnds(9, v, pos, m, env, S(p1), q);
    r := Ok(S(p1), q);
  }

  lemma SpecTop(v: seq<string>, pos: nat, m: Mode, env: Env)
    requires pos <= |v|
    ensures Level(10, v, pos, m, env) == Unary(v, pos, m, env)
  {
  }

  /** The switch of exp5; when only parsing the value stays 0. */
  method Product(op: char, p1: string, p2: string, m: Mode, env: Env) returns (r: Out<int>)
    ensures var o := if op == '*' then Mul else if op == '/' then Div else Mod;
            Combine(9, o, S(p1), S(p2), m, env) == if r.Bad? then Bad(r.e) else Got(S(Putn(r.v)))
  {
    hide Egetn, Putn, Quotient, Remainder;
    if m.ign {
      return Got(0);
    }
    var a, b := Egetn(p1, env.octal), Egetn(p2, env.octal);
    if op == '*' {
      return if a.Bad? then a else if b.Bad? then b else Got(a.v * b.v);
    }
    if b.Bad? {
      return b;
    }
    if b.v == 0 {
      return Bad(if op == '/' then Div0 else Mod0);
    }
    if a.Bad? {
      return a;
    }
    return Got(if op == '/' then Quotient(a.v, b.v) else Remainder(a.v, b.v));
  }

  method Exp6(v: seq<string>, pos: nat, m: Mode, env: Env) returns (r: Res)
    requires pos <= |v|
    ensures r == Unary(v, pos, m, env)
    decreases |v| - pos, 1
  {
    hide Level, Egetn, Isa, Putn, FileTest, TestAt, CommandAt;
    if pos == |v| {
      return Err(Expression);
    }
    if v[pos] == "!" || v[pos] == "~" {
      r := Exp6(v, pos + 1, m, env);
      if r.Err? { return; }
      var i := Egetn(r.v.s, env.octal);
      if i.Bad? {
        return Err(i.e);
      }
      return Ok(S(Putn(if v[pos] == "!" then Truth(i.v == 0) else -i.v - 1)), r.pos);
    }
    if v[pos] == "(" {
      r := Exp0(v, pos + 1, m, env);
      if r.Err? { return; }
      if r.pos == |v| || v[r.pos] == "" || v[r.pos][0] != ')' {
        return Err(Expression);
      }
      return Ok(S(Putn(r.v.n)), r.pos + 1);
    }
    if v[pos] == "{" {
      r := InBraces(v, pos + 1, m, env);
      return;
    }
    if Isa(v, pos, ANYOP) != 0 {
      return Ok(S(""), pos);
    }
    if FileTest(v[pos]) {
      r := Filetest(v[pos], v, pos + 1, m, env);
      return;
    }
    if m.noglob {
      return Ok(S(v[pos]), pos + 1);
    }
    var w := env.globone(v[pos]);
    return if w.Bad? then Err(w.e) else Ok(S(w.v), pos + 1);
  }

  /** The part of exp6 for a command; its words are found, and not run when only parsing. */
  method InBraces(v: seq<string>, pos: nat, m: Mode, env: Env) returns (r: Res)
    requires pos <= |v|
    ensures r == CommandAt(v, pos, m, env)
  {
    hide Putn;
    var q := pos;
    while true
      invariant pos <= q <= |v| && BraceAt(v, q) == BraceAt(v, pos)
      decreases |v| - q
    {
      if q == |v| {
        return Err(MissingBrace);
      }
      q := q + 1;
      if v[q - 1] == "}" {
        break;
      }
    }
    if m.ign {
      return Ok(S(""), q);
    }
    return Ok(S(Putn(Truth(env.command(v[pos..q - 1])))), q);
  }

  /** filetest, up to the tests themselves. */
  method Filetest(w: string, v: seq<string>, q: nat, m: Mode, env: Env) returns (r: Res)
    requires FileTest(w) && q <= |v|
    ensures r == TestAt(w, v, q, m, env)
  {
    hide Isa;
    var known := CheckInquiry(w);
    if !known {
      return Err(FileInquiry);
    }
    if q == |v| || (Isa(v, q, ANYOP) != 0 && !env.exists_(v[q])) {
      return Err(FileName);
    }
    if m.ign {
      return Ok(S(""), q + 1);
    }
    var name := if m.noglob then Got(v[q]) else env.globone(v[q]);
    if name.Bad? {
      return Err(name.e);
    }
    var value := env.filetest(w, name.v);
    return if value.Bad? then Err(value.e) else Ok(S(value.v), q + 1);
  }

  method CheckInquiry(w: string) returns (known: bool)
    requires FileTest(w)
    ensures known == Inquiry(w)
  {
    var ft := SkipPast(w, 1, FILETESTS);
    if ft == |w| && w[ft - 1] == 'L' {
      ft := ft - 1;
    }
    if ft < |w| && w[ft] in FILEVALS {
      var valtest := w[ft];
      ft := ft + 1;
      if valtest == 'P' {
        ft := SkipPast(w, ft, "01234567");
      }
      if w[ft..] == ":" && valtest in "AMCUGP" {
        ft := ft + 1;
      }
    }
    return ft == |w| && ft != 1;
  }

  method SkipPast(w: string, k0: nat, chars: string) returns (k: nat)
    requires k0 <= |w|
    ensures k == Past(w, k0, chars)
  {
    k := k0;
    while k < |w| && w[k] in chars
      invariant k0 <= k <= |w| && Past(w, k, chars) == Past(w, k0, chars)
    {
      k := k + 1;
    }
  }
}
