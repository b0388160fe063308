/** Expression trees, their text with as few parentheses as possible, and their lazy value; what
    the evaluator makes of that text. */
module ExpTrees {
  import opened Numbers
  import opened Exp
  import opened OpMeaning

  datatype Tree = Num(n: int) | Not(t: Tree) | Complement(t: Tree) | Bin(op: Op, left: Tree, right: Tree)

  predicate Modelled(t: Tree) {
    match t
    case Num(_) => true
    case Not(u) => Modelled(u)
    case Complement(u) => Modelled(u)
    case Bin(op, a, b) => op !in {EqMatch, NeMatch} && Modelled(a) && Modelled(b)
  }

  /** File name expansion leaves numbers alone. */
  ghost predicate Plain(env: Env) {
    forall n :: env.globone(Putn(n)) == Got(Putn(n))
  }

  // ---------------------------------------------------------------- text

  function Prec(op: Op): (l: nat)
    ensures l < 10
  {
    match op
    case Or => 0
    case And => 1
    case BitOr => 2
    case BitXor => 3
    case BitAnd => 4
    case Eq => 5
    case Ne => 5
    case EqMatch => 5
    case NeMatch => 5
    case Lt => 6
    case Le => 6
    case Gt => 6
    case Ge => 6
    case Shl => 7
    case Shr => 7
    case Add => 8
    case Sub => 8
    case _ => 9
  }

  function Words(op: Op): (r: seq<string>)
    ensures |r| > 0
  {
    match op
    case Or => ["||"]
    case And => ["&&"]
    case BitOr => ["|"]
    case BitXor => ["^"]
    case BitAnd => ["&"]
    case Eq => ["=="]
    case Ne => ["!="]
    case EqMatch => ["=~"]
    case NeMatch => ["!~"]
    case Lt => ["<"]
    case Le => ["<", "="]
    case Gt => [">"]
    case Ge => [">", "="]
    case Shl => ["<<"]
    case Shr => [">>"]
    case Add => ["+"]
    case Sub => ["-"]
    case Mul => ["*"]
    case Div => ["/"]
    case Mod => ["%"]
  }

  function LevelOf(t: Tree): nat {
    if t.Bin? then Prec(t.op) else 10
  }

  /** Operators that stand alone at their level: comparison for equality, and shifts. */
  predicate Single(l: nat) {
    l == 5 || l == 7
  }

  /** The words of a tree where an operand of level l is wanted. */
  function Show(t: Tree, l: nat): (r: seq<string>)
    ensures |r| > 0
    decreases t, if LevelOf(t) < l then 1 else 0
  {
    if LevelOf(t) < l then ["("] + Show(t, 0) + [")"]
    else
      match t
      case Num(n) => [Putn(n)]
      case Not(u) => ["!"] + Show(u, 10)
      case Complement(u) => ["~"] + Show(u, 10)
      case Bin(op, a, b) => Show(a, LeftLevel(op)) + Words(op) + Show(b, Prec(op) + 1)
  }

  function LeftLevel(op: Op): (l: nat)
    ensures l <= 10
  {
    if Single(Prec(op)) then Prec(op) + 1 else Prec(op)
  }

  // ---------------------------------------------------------------- value

  /** The value of a tree: the right operand of || and && counts only if the left one does not
      decide. With narrow set, the right operand of || is looked at in 32 bits. */
  ghost function Eval(t: Tree, narrow: bool): Out<int> {
    match t
    case Num(n) => Got(n)
    case Not(u) => (match Eval(u, narrow) case Bad(e) => Bad(e) case Got(i) => Got(if i == 0 then 1 else 0))
    case Complement(u) => (match Eval(u, narrow) case Bad(e) => Bad(e) case Got(i) => Got(-i - 1))
    case Bin(op, a, b) =>
      match Eval(a, narrow)
      case Bad(e) => Bad(e)
      case Got(x) =>
        if op == Or && x != 0 then Got(1)
        else if op == And && x == 0 then Got(0)
        else
          match Eval(b, narrow)
          case Bad(e) => Bad(e)
          case Got(y) => Meaning(op, x, if op == Or && narrow then Int32(y) else y)
  }

  // ---------------------------------------------------------------- words at a position

  predicate At(v: seq<string>, pos: nat, words: seq<string>) {
    pos + |words| <= |v| && v[pos..pos + |words|] == words
  }

  lemma AtSplit(v: seq<string>, pos: nat, a: seq<string>, b: seq<string>)
    requires At(v, pos, a + b)
    ensures At(v, pos, a) && At(v, pos + |a|, b)
  {
    var w := v[pos..pos + |a + b|];
    assert v[pos..pos + |a|] == w[..|a|] == a;
    assert v[pos + |a|..pos + |a| + |b|] == w[|a|..] == b;
  }

  lemma AtOne(v: seq<string>, pos: nat, w: string)
    requires At(v, pos, [w])
    ensures pos < |v| && v[pos] == w
  {
    assert v[pos] == v[pos..pos + 1][0];
  }

  /** No operator of level l or above is at q. */
  predicate Stops(v: seq<string>, q: nat, l: nat)
    requires q <= |v|
  {
    forall m | l <= m < 10 :: OpAt(m, v, q).NoOp?
  }

  predicate StartsOperand(v: seq<string>, q: nat) {
    q < |v| && v[q] != "="
  }

  lemma ShowBin(t: Tree, l: nat)
    requires t.Bin? && LevelOf(t) >= l
    ensures Show(t, l) == Show(t.left, LeftLevel(t.op)) + (Words(t.op) + Show(t.right, Prec(t.op) + 1))
  {
    hide Words, LeftLevel;
    Assoc(Show(t.left, LeftLevel(t.op)), Words(t.op), Show(t.right, Prec(t.op) + 1));
  }

  lemma Assoc(a: seq<string>, b: seq<string>, c: seq<string>)
    ensures a + (b + c) == (a + b) + c
  {
  }

  /** The text in parentheses. */
  lemma ShowParens(t: Tree, l: nat)
    requires LevelOf(t) < l
    ensures Show(t, l) == ["("] + (Show(t, 0) + [")"])
  {
    Assoc(["("], Show(t, 0), [")"]);
  }

  lemma {:induction false} ShowStarts(t: Tree, l: nat, v: seq<string>, pos: nat)
    requires At(v, pos, Show(t, l))
    ensures StartsOperand(v, pos)
    decreases t, if LevelOf(t) < l then 1 else 0
  {
    hide At, Putn, Words, LeftLevel;
    if LevelOf(t) < l {
      ShowParens(t, l);
      FirstWord(v, pos, "(", Show(t, 0) + [")"], Show(t, l));
    } else {
      match t
      case Num(n) =>
        AtOne(v, pos, Putn(n));
        PutnNotOperator(n);
      case Not(u) => FirstWord(v, pos, "!", Show(u, 10), Show(t, l));
      case Complement(u) => FirstWord(v, pos, "~", Show(u, 10), Show(t, l));
      case Bin(op, a, b) =>
        ShowBin(t, l);
        AtSplit(v, pos, Show(a, LeftLevel(op)), Words(op) + Show(b, Prec(op) + 1));
        ShowStarts(a, LeftLevel(op), v, pos);
    }
  }

  lemma FirstWord(v: seq<string>, pos: nat, w: string, rest: seq<string>, all: seq<string>)
    requires At(v, pos, all) && all == [w] + rest
    ensures At(v, pos, [w]) && At(v, pos + 1, rest) && pos < |v| && v[pos] == w
  {
    AtSplit(v, pos, [w], rest);
    AtOne(v, pos, w);
  }

  predicate NumberWord(w: string) {
    w != "" && (IsDigit(w[0]) || (|w| > 1 && w[0] == '-' && IsDigit(w[1])))
  }

  lemma PutnNotOperator(n: int)
    ensures NumberWord(Putn(n)) && Putn(n) != "="
  {
    hide Digits;
    if n < 0 {
      assert Putn(n)[1] == Digits(-n)[0];
    }
  }

  /** A number is an operand. */
  lemma NumberRead(v: seq<string>, pos: nat, ign: bool, env: Env)
    requires pos < |v| && NumberWord(v[pos]) && env.globone(v[pos]) == Got(v[pos])
    ensures Unary(v, pos, Mode(ign, false), env) == Ok(S(v[pos]), pos + 1)
  {
    hide Level, Isa, TestAt, CommandAt, FileTest;
    NumberIsOperand(v, pos);
  }

  lemma NumberIsOperand(v: seq<string>, pos: nat)
    requires pos < |v| && NumberWord(v[pos])
    ensures Isa(v, pos, ANYOP) == 0 && !FileTest(v[pos])
    ensures v[pos] != "!" && v[pos] != "~" && v[pos] != "(" && v[pos] != "{"
  {
    assert FILETESTS == "erwxfdzoplstSXLbcugkmK" && FILEVALS == "ZAMCDIUGNFPL";
  }

  /** The words of an operator are read as that operator, and as none of a higher level. */
  lemma OperatorRead(op: Op, v: seq<string>, q: nat)
    requires At(v, q, Words(op)) && StartsOperand(v, q + |Words(op)|)
    ensures OpAt(Prec(op), v, q) == AnOp(op, q + |Words(op)|)
    ensures Stops(v, q, Prec(op) + 1)
  {
    if op == Le || op == Ge {
      FirstWord(v, q, Words(op)[0], ["="], Words(op));
      AtOne(v, q + 1, "=");
    } else {
      AtOne(v, q, Words(op)[0]);
    }
  }

  // ---------------------------------------------------------------- what is read

  function InLoop(l: nat, n: int): Val {
    if l < 5 then N(n) else S(Putn(n))
  }

  predicate Fit(l: nat, x: Val, env: Env) {
    if l < 5 then x.N? else x.S? && Egetn(x.s, env.octal).Got?
  }

  /** Level l, started at pos, gives the value o and stops at end; when only parsing, something
      numeric. */
  predicate Reads(l: nat, v: seq<string>, pos: nat, ign: bool, env: Env, o: Out<int>, end: nat)
    requires l <= 10 && pos <= |v|
  {
    var r := Level(l, v, pos, Mode(ign, false), env);
    if ign then r.Ok? && r.pos == end && (r.v.S? ==> Egetn(r.v.s, env.octal).Got?)
    else if o.Bad? then r == Err(o.e)
    else r == Ok(if l <= 5 then N(o.v) else S(Putn(o.v)), end)
  }

  /** The same, before level l has looked for its operators at end. */
  ghost predicate Leads(l: nat, v: seq<string>, pos: nat, ign: bool, env: Env, o: Out<int>, end: nat)
    requires l < 10 && pos <= |v| && end <= |v|
  {
    var r := Level(l, v, pos, Mode(ign, false), env);
    if ign then exists x :: Fit(l, x, env) && r == Rest(l, x, v, end, Mode(ign, false), env)
    else if o.Bad? then r == Err(o.e)
    else r == Rest(l, InLoop(l, o.v), v, end, Mode(ign, false), env)
  }

  lemma LeadsFromHigher(l: nat, v: seq<string>, pos: nat, ign: bool, env: Env, o: Out<int>, end: nat)
    requires l < 10 && pos <= |v| && end <= |v| && Reads(l + 1, v, pos, ign, env, o, end)
    ensures Leads(l, v, pos, ign, env, o, end)
  {
    hide Rest, Putn;
    if ign {
      var x := Level(l + 1, v, pos, Mode(ign, false), env).v;
      assert Fit(l, x, env) && Level(l, v, pos, Mode(ign, false), env) == Rest(l, x, v, end, Mode(ign, false), env);
    }
  }

  lemma ReadsFromLeads(l: nat, v: seq<string>, pos: nat, ign: bool, env: Env, o: Out<int>, end: nat)
    requires l < 10 && pos <= |v| && end <= |v| && Leads(l, v, pos, ign, env, o, end)
    requires OpAt(l, v, end).NoOp?
    ensures Reads(l, v, pos, ign, env, o, end)
  {
    hide Level, Putn, Egetn;
    if ign {
      var x :| Fit(l, x, env) && Level(l, v, pos, Mode(ign, false), env) == Rest(l, x, v, end, Mode(ign, false), env);
      assert Rest(l, x, v, end, Mode(ign, false), env) == Done(l, x, end, env.octal);
    } else if o.Got? {
      PutnEgetn(o.v, env.octal);
      assert Rest(l, InLoop(l, o.v), v, end, Mode(ign, false), env) == Done(l, InLoop(l, o.v), end, env.octal);
    }
  }

  /** The value of an operator whose operands have been read. */
  ghost function Both(op: Op, x: Out<int>, y: Out<int>): Out<int> {
    if x.Bad? then x
    else if op == Or && x.v != 0 then Got(1)
    else if op == And && x.v == 0 then Got(0)
    else if y.Bad? then y
    else Meaning(op, x.v, if op == Or then Int32(y.v) else y.v)
  }

  lemma CombineParsed(l: nat, op: Op, p1: Val, p2: Val, ign: bool, env: Env)
    requires ign && l == Prec(op) && Fit(l, p1, env) && Kind(l + 1, p2) && (p2.S? ==> Egetn(p2.s, env.octal).Got?)
    requires op !in {EqMatch, NeMatch}
    ensures Combine(l, op, p1, p2, Mode(ign, false), env).Got?
    ensures var c := Combine(l, op, p1, p2, Mode(ign, false), env).v;
            Kind(l, c) && (c.S? ==> Egetn(c.s, env.octal).Got?)
  {
    hide Egetn, Putn, Bitwise;
    CombinedKind(l, op, p1, p2, Mode(ign, false), env);
    if l >= 6 {
      var c := Combine(l, op, p1, p2, Mode(ign, false), env);
      ParsedNumber(op, p1.s, p2.s, env);
    }
  }

  lemma ParsedNumber(op: Op, p1: string, p2: string, env: Env)
    requires Prec(op) >= 6 && Egetn(p1, env.octal).Got? && Egetn(p2, env.octal).Got?
    ensures var c := OnWords(op, p1, p2, true, env.octal); c.Got? && c.v.S? && Egetn(c.v.s, env.octal).Got?
  {
    hide Egetn, Putn, Bitwise;
    var n :| OnWords(op, p1, p2, true, env.octal) == Got(S(Putn(n)));
    PutnEgetn(n, env.octal);
  }

  /** The operators compute what they stand for. */
  lemma CombineValue(op: Op, a: int, b: int, env: Env)
    requires op !in {EqMatch, NeMatch}
    ensures var l := Prec(op);
            var p2 := if l < 5 then N(b) else S(Putn(b));
            var i := Meaning(op, a, if op == Or then Int32(b) else b);
            Combine(l, op, InLoop(l, a), p2, Mode(false, false), env)
            == if i.Bad? then Bad(i.e) else Got(if l <= 5 then N(i.v) else S(Putn(i.v)))
  {
    hide Egetn, Putn, Bitwise, Int32, Pow2, Quotient, Remainder, Meaning, Computes;
    ArithIsMeaning(op, a, if op == Or then Int32(b) else b);
    PutnEgetn(a, env.octal);
    PutnEgetn(b, env.octal);
    PutnInjective(a, b);
  }

  /** When the left operand decides, what is parsed on the right does not count. */
  lemma CombineSkipped(op: Op, a: int, p2: Val, env: Env)
    requires Prec(op) < 5 && p2.N? && Skips(op, N(a))
    ensures Combine(Prec(op), op, N(a), p2, Mode(false, false), env) == Got(N(if op == Or then 1 else 0))
  {
  }

  /** What level l does when its operator is next: the value, or after an operator that may be
      repeated, the value so far. */
  ghost predicate Applied(l: nat, v: seq<string>, pos: nat, ign: bool, env: Env, o: Out<int>, end: nat)
    requires l < 10 && pos <= |v| && end <= |v|
  {
    if Single(l) then Reads(l, v, pos, ign, env, o, end) else Leads(l, v, pos, ign, env, o, end)
  }

  lemma OperatorApplied(op: Op, v: seq<string>, pos: nat, mid: nat, next: nat, end: nat, ign: bool, env: Env,
                        x: Out<int>, y: Out<int>)
    requires op !in {EqMatch, NeMatch} && pos <= mid < next <= end <= |v|
    requires Leads(Prec(op), v, pos, ign, env, x, mid) && OpAt(Prec(op), v, mid) == AnOp(op, next)
    requires Reads(Prec(op) + 1, v, next, true, env, y, end) && Reads(Prec(op) + 1, v, next, false, env, y, end)
    ensures Applied(Prec(op), v, pos, ign, env, Both(op, x, y), end)
  {
    var l := Prec(op);
    if ign {
      var p1 :| Fit(l, p1, env)
        && Level(l, v, pos, Mode(ign, false), env) == Rest(l, p1, v, mid, Mode(ign, false), env);
      ParsedApplied(op, v, pos, mid, next, end, env, p1);
    } else if x.Got? {
      ValueApplied(op, v, pos, mid, next, end, env, x.v, y);
    }
  }

  lemma ParsedApplied(op: Op, v: seq<string>, pos: nat, mid: nat, next: nat, end: nat, env: Env, p1: Val)
    requires op !in {EqMatch, NeMatch} && pos <= mid < next <= end <= |v|
    requires Fit(Prec(op), p1, env)
             && Level(Prec(op), v, pos, Mode(true, false), env) == Rest(Prec(op), p1, v, mid, Mode(true, false), env)
    requires OpAt(Prec(op), v, mid) == AnOp(op, next)
    requires var r := Level(Prec(op) + 1, v, next, Mode(true, false), env);
             r.Ok? && r.pos == end && (r.v.S? ==> Egetn(r.v.s, env.octal).Got?)
    ensures Applied(Prec(op), v, pos, true, env, Got(0), end)
  {
    hide Level, Egetn, OpAt, Combine;
    var l, p2 := Prec(op), Level(Prec(op) + 1, v, next, Mode(true, false), env).v;
    CombineParsed(l, op, p1, p2, true, env);
    var c := Combine(l, op, p1, p2, Mode(true, false), env).v;
    if Single(l) {
      assert Level(l, v, pos, Mode(true, false), env) == Ok(c, end);
    } else {
      assert Fit(l, c, env) && Level(l, v, pos, Mode(true, false), env) == Rest(l, c, v, end, Mode(true, false), env);
    }
  }

  lemma ValueApplied(op: Op, v: seq<string>, pos: nat, mid: nat, next: nat, end: nat, env: Env, a: int, y: Out<int>)
    requires op !in {EqMatch, NeMatch} && pos <= mid < next <= end <= |v|
    requires Level(Prec(op), v, pos, Mode(false, false), env)
          == Rest(Prec(op), InLoop(Prec(op), a), v, mid, Mode(false, false), env)
    requires OpAt(Prec(op), v, mid) == AnOp(op, next)
    requires Reads(Prec(op) + 1, v, next, true, env, y, end) && Reads(Prec(op) + 1, v, next, false, env, y, end)
    ensures Applied(Prec(op), v, pos, false, env, Both(op, Got(a), y), end)
  {
    hide Level, Egetn, OpAt, Combine, Putn, Meaning, Int32;
    var l, p1 := Prec(op), InLoop(Prec(op), a);
    if Skips(op, p1) {
      CombineSkipped(op, a, Level(l + 1, v, next, Mode(true, false), env).v, env);
    } else if y.Got? {
      CombineValue(op, a, y.v, env);
    }
  }

  // ---------------------------------------------------------------- the text of a tree is read as the tree

  /** A closing parenthesis or the end of the list stops every level. */
  lemma ParenStops(v: seq<string>, q: nat)
    requires q <= |v| && (q == |v| || v[q] == ")")
    ensures Stops(v, q, 0)
  {
  }

  /** Where an operand of level l is wanted, the words of t are read as t, if no operator of that
      level or a higher one comes next. */
  lemma {:induction false} ShowIsRead(t: Tree, l: nat, v: seq<string>, pos: nat, end: nat, ign: bool, env: Env)
    requires Plain(env) && Modelled(t) && l <= 10 && At(v, pos, Show(t, l)) && end == pos + |Show(t, l)|
             && Stops(v, end, l)
    ensures Reads(l, v, pos, ign, env, Eval(t, true), end)
    decreases t, if LevelOf(t) < l then 1 else 0, 10 - l, 1
  {
    hide Show, Eval, Reads, Stops, OpAt;
    if l == 10 {
      OperandIsRead(t, v, pos, end, ign, env);
    } else if LevelOf(t) == l && Single(l) {
      StopHere(v, end, l);
      BinIsRead(t, v, pos, end, ign, env);
    } else {
      StopHere(v, end, l);
      ShowLeads(t, l, v, pos, end, ign, env);
      ReadsFromLeads(l, v, pos, ign, env, Eval(t, true), end);
    }
  }

  lemma StopHere(v: seq<string>, q: nat, l: nat)
    requires q <= |v| && l < 10 && Stops(v, q, l)
    ensures OpAt(l, v, q).NoOp? && Stops(v, q, l + 1)
  {
  }

  /** The same, when an operator of level l itself may come next. */
  lemma {:induction false} ShowLeads(t: Tree, l: nat, v: seq<string>, pos: nat, end: nat, ign: bool, env: Env)
    requires Plain(env) && Modelled(t) && l < 10 && At(v, pos, Show(t, l)) && end == pos + |Show(t, l)|
             && Stops(v, end, l + 1)
    requires LevelOf(t) == l ==> !Single(l)
    ensures Leads(l, v, pos, ign, env, Eval(t, true), end)
    decreases t, if LevelOf(t) < l then 1 else 0, 10 - l, 0
  {
    hide Eval, Reads, Leads, Stops, OpAt;
    if LevelOf(t) == l {
      BinIsRead(t, v, pos, end, ign, env);
    } else {
      SameText(t, l);
      ShowIsRead(t, l + 1, v, pos, end, ign, env);
      LeadsFromHigher(l, v, pos, ign, env, Eval(t, true), end);
    }
  }

  lemma SameText(t: Tree, l: nat)
    requires LevelOf(t) != l && l < 10
    ensures Show(t, l) == Show(t, l + 1)
  {
  }

  /** An operator with its operands, at its own level. */
  lemma {:induction false} BinIsRead(t: Tree, v: seq<string>, pos: nat, end: nat, ign: bool, env: Env)
    requires Plain(env) && Modelled(t) && t.Bin? && At(v, pos, Show(t, Prec(t.op)))
             && end == pos + |Show(t, Prec(t.op))|
    requires Stops(v, end, Prec(t.op) + 1)
    ensures Applied(Prec(t.op), v, pos, ign, env, Eval(t, true), end)
    decreases t, 0, 0, 0
  {
    hide Show, Eval, Reads, Leads, Applied, Stops, OpAt, At, Words;
    var op, l, a, b := t.op, Prec(t.op), t.left, t.right;
    ShowBin(t, l);
    AtSplit(v, pos, Show(a, LeftLevel(op)), Words(op) + Show(b, l + 1));
    var mid := pos + |Show(a, LeftLevel(op))|;
    AtSplit(v, mid, Words(op), Show(b, l + 1));
    var next := mid + |Words(op)|;
    ShowStarts(b, l + 1, v, next);
    OperatorRead(op, v, mid);
    if Single(l) {
      ShowIsRead(a, l + 1, v, pos, mid, ign, env);
      LeadsFromHigher(l, v, pos, ign, env, Eval(a, true), mid);
    } else {
      ShowLeads(a, l, v, pos, mid, ign, env);
    }
    ShowIsRead(b, l + 1, v, next, end, true, env);
    ShowIsRead(b, l + 1, v, next, end, false, env);
    AtEnds(v, pos, t);
    OperatorApplied(op, v, pos, mid, next, end, ign, env, Eval(a, true), Eval(b, true));
    EvalBoth(t);
  }

  lemma AtEnds(v: seq<string>, pos: nat, t: Tree)
    requires At(v, pos, Show(t, if t.Bin? then Prec(t.op) else 0))
    ensures pos + |Show(t, if t.Bin? then Prec(t.op) else 0)| <= |v|
  {
  }

  lemma EvalBoth(t: Tree)
    requires t.Bin?
    ensures Eval(t, true) == Both(t.op, Eval(t.left, true), Eval(t.right, true))
  {
    hide Meaning, Int32;
  }

  /** A number, a unary operator with its operand, or a tree in parentheses. */
  lemma {:induction false} OperandIsRead(t: Tree, v: seq<string>, pos: nat, end: nat, ign: bool, env: Env)
    requires Plain(env) && Modelled(t) && At(v, pos, Show(t, 10)) && end == pos + |Show(t, 10)| && Stops(v, end, 10)
    ensures Reads(10, v, pos, ign, env, Eval(t, true), end)
    decreases t, if LevelOf(t) < 10 then 1 else 0, 0, 0
  {
    hide Stops, OpAt, Putn, Egetn, At, Isa, FileTest;
    if t.Bin? {
      ShowParens(t, 10);
      FirstWord(v, pos, "(", Show(t, 0) + [")"], Show(t, 10));
      AtSplit(v, pos + 1, Show(t, 0), [")"]);
      var close := pos + 1 + |Show(t, 0)|;
      AtOne(v, close, ")");
      ParenStops(v, close);
      ShowIsRead(t, 0, v, pos + 1, close, ign, env);
      ParensRead(v, pos, close, ign, env, Eval(t, true));
    } else if t.Num? {
      AtOne(v, pos, Putn(t.n));
      PutnNotOperator(t.n);
      NumberRead(v, pos, ign, env);
      PutnEgetn(t.n, env.octal);
    } else {
      var word := if t.Not? then "!" else "~";
      FirstWord(v, pos, word, Show(t.t, 10), Show(t, 10));
      NothingAbove(v, end);
      ShowIsRead(t.t, 10, v, pos + 1, end, ign, env);
      UnaryRead(v, pos, end, ign, env, Eval(t.t, true));
    }
  }

  lemma NothingAbove(v: seq<string>, q: nat)
    requires q <= |v|
    ensures Stops(v, q, 10)
  {
  }

  lemma ParensRead(v: seq<string>, pos: nat, close: nat, ign: bool, env: Env, o: Out<int>)
    requires pos < close < |v| && v[pos] == "(" && v[close] == ")" && Reads(0, v, pos + 1, ign, env, o, close)
    ensures Reads(10, v, pos, ign, env, o, close + 1)
  {
    hide Putn, Egetn, Isa, FileTest;
    var r := Level(0, v, pos + 1, Mode(ign, false), env);
    assert Level(10, v, pos, Mode(ign, false), env) == Unary(v, pos, Mode(ign, false), env);
    if r.Ok? {
      PutnEgetn(r.v.n, env.octal);
    }
  }

  lemma UnaryRead(v: seq<string>, pos: nat, end: nat, ign: bool, env: Env, o: Out<int>)
    requires pos < end <= |v| && (v[pos] == "!" || v[pos] == "~") && Reads(10, v, pos + 1, ign, env, o, end)
    ensures var value := if o.Bad? then o else Got(if v[pos] != "!" then -o.v - 1 else if o.v == 0 then 1 else 0);
            Reads(10, v, pos, ign, env, value, end)
  {
    hide Putn, Egetn, Isa, FileTest;
    assert Level(10, v, pos, Mode(ign, false), env) == Unary(v, pos, Mode(ign, false), env);
    assert Level(10, v, pos + 1, Mode(ign, false), env) == Unary(v, pos + 1, Mode(ign, false), env);
    var r := Unary(v, pos + 1, Mode(ign, false), env);
    if !ign && o.Got? {
      PutnEgetn(o.v, env.octal);
    }
    if r.Ok? && Egetn(r.v.s, env.octal).Got? {
      var i := Egetn(r.v.s, env.octal).v;
      PutnEgetn(if v[pos] == "!" then Truth(i == 0) else -i - 1, env.octal);
    }
  }

  /** exp0 on the text of a tree: the whole list is consumed, and the outcome is the tree's. */
  lemma EvaluatesTree(t: Tree, env: Env)
    requires Plain(env) && Modelled(t)
    ensures Level(0, Show(t, 0), 0, Mode(false, false), env)
         == match Eval(t, true)
            case Got(n) => Ok(N(n), |Show(t, 0)|)
            case Bad(e) => Err(e)
  {
    var v := Show(t, 0);
    assert v[0..|v|] == v;
    ParenStops(v, |v|);
    ShowIsRead(t, 0, v, 0, |v|, false, env);
  }

  // ---------------------------------------------------------------- words

  /** No operator, parenthesis, brace or file test. */
  predicate Ordinary(w: string) {
    Isa([w], 0, ANYOP) == 0 && !FileTest(w) && w !in {"!", "~", "(", "{"}
  }

  /** Such a word is an operand, expanded as a file name unless that is off. */
  lemma WordIsOperand(v: seq<string>, pos: nat, m: Mode, env: Env, w: string)
    requires pos < |v| && Ordinary(v[pos]) && (if m.noglob then w == v[pos] else env.globone(v[pos]) == Got(w))
    requires Stops(v, pos + 1, 6)
    ensures Level(6, v, pos, m, env) == Ok(S(w), pos + 1)
  {
    hide OpAt, FileTest, Combine;
    assert Isa(v, pos, ANYOP) == Isa([v[pos]], 0, ANYOP);
    assert Level(10, v, pos, m, env) == Unary(v, pos, m, env) == Ok(S(w), pos + 1);
    var l := 9;
    while l >= 6
      invariant 5 <= l <= 9 && Level(l + 1, v, pos, m, env) == Ok(S(w), pos + 1)
    {
      assert OpAt(l, v, pos + 1).NoOp?;
      assert Rest(l, S(w), v, pos + 1, m, env) == Ok(S(w), pos + 1);
      l := l - 1;
    }
  }

  /** == and != compare words as they are; =~ and !~ match the word on the left with the pattern on the right,
      which is not expanded. */
  lemma WordsCompared(a: string, op: string, b: string, env: Env, x: string, y: string)
    requires Ordinary(a) && Ordinary(b) && env.globone(a) == Got(x) && op in {"==", "!=", "=~", "!~"}
    requires op == "==" || op == "!=" ==> env.globone(b) == Got(y)
    ensures var r := Level(5, [a, op, b], 0, Mode(false, false), env);
            match op
            case "==" => r == Ok(N(if x == y then 1 else 0), 3)
            case "!=" => r == Ok(N(if x != y then 1 else 0), 3)
            case _ =>
              match env.gmatch(x, b)
              case Bad(e) => r == Err(e)
              case Got(hit) => r == Ok(N(if hit == (op == "=~") then 1 else 0), 3)
  {
    hide Isa, FileTest, Level, OpAt, Combine;
    var v, m := [a, op, b], Mode(false, false);
    var o := if op == "==" then Eq else if op == "!=" then Ne else if op == "=~" then EqMatch else NeMatch;
    var p2 := if op == "==" || op == "!=" then y else b;
    NoneAfter(v);
    WordIsOperand(v, 0, m, env, x);
    WordIsOperand(v, 2, ModeAfter(m, o, S(x)), env, p2);
    EqualityStep(v, o, m, env, x, p2);
  }

  lemma EqualityStep(v: seq<string>, o: Op, m: Mode, env: Env, x: string, p2: string)
    requires |v| == 3 && OpAt(5, v, 1) == AnOp(o, 2) && Level(6, v, 0, m, env) == Ok(S(x), 1)
    requires Level(6, v, 2, ModeAfter(m, o, S(x)), env) == Ok(S(p2), 3)
    ensures Level(5, v, 0, m, env)
         == match Equality(o, x, p2, m.ign, env) case Bad(e) => Err(e) case Got(r) => Ok(r, 3)
  {
    hide OpAt, Equality, ModeAfter;
    assert Level(5, v, 0, m, env) == Rest(5, S(x), v, 1, m, env);
  }

  lemma NoneAfter(v: seq<string>)
    requires |v| == 3 && v[1] in {"==", "!=", "=~", "!~"}
    ensures Stops(v, 1, 6) && Stops(v, 3, 6)
    ensures OpAt(5, v, 1)
         == AnOp(match v[1] case "==" => Eq case "!=" => Ne case "=~" => EqMatch case _ => NeMatch, 2)
  {
  }

  /** A file test is made with the name behind it, which is expanded. */
  lemma TestsFile(w: string, name: string, env: Env, x: string)
    requires FileTest(w) && Inquiry(w) && Isa([w], 0, ANYOP) == 0 && Ordinary(name) && env.globone(name) == Got(x)
    ensures Unary([w, name], 0, Mode(false, false), env)
         == match env.filetest(w, x) case Bad(e) => Err(e) case Got(r) => Ok(S(r), 2)
  {
    hide FileTest, Inquiry, Isa;
    var v := [w, name];
    SameWord(v, 0);
    SameWord(v, 1);
    TestNotOperator(w);
  }

  lemma SameWord(v: seq<string>, q: nat)
    requires q < |v|
    ensures Isa(v, q, ANYOP) == Isa([v[q]], 0, ANYOP)
  {
  }

  /** A command in braces gives 1 if it succeeds and 0 if not. */
  lemma RunsCommand(command: seq<string>, env: Env)
    requires "}" !in command
    ensures Unary(["{"] + command + ["}"], 0, Mode(false, false), env)
         == Ok(S(if env.command(command) then "1" else "0"), |command| + 2)
    ensures Unary(["{"] + command, 0, Mode(false, false), env) == Err(MissingBrace)
  {
    hide Unary, Putn, BraceAt;
    var v, u := ["{"] + command, ["{"] + command + ["}"];
    BraceFound(u, 1, |command| + 1);
    BraceFound(v, 1, |command| + 1);
    BraceOpens(u, env);
    BraceOpens(v, env);
    assert u[1..|command| + 1] == command;
    OneDigitPut();
  }

  lemma BraceOpens(v: seq<string>, env: Env)
    requires v != [] && v[0] == "{"
    ensures Unary(v, 0, Mode(false, false), env) == CommandAt(v, 1, Mode(false, false), env)
  {
    hide Isa, FileTest, CommandAt;
  }

  lemma OneDigitPut()
    ensures Putn(1) == "1" && Putn(0) == "0"
  {
  }

  lemma TestNotOperator(w: string)
    requires FileTest(w)
    ensures w != "!" && w != "~" && w != "(" && w != "{"
  {
  }

  lemma {:induction false} BraceFound(v: seq<string>, q: nat, e: nat)
    requires q <= e <= |v| && (e < |v| ==> v[e] == "}") && forall k | q <= k < e :: v[k] != "}"
    ensures BraceAt(v, q) == e
    decreases e - q
  {
    if q < e {
      BraceFound(v, q + 1, e);
    }
  }

  // ---------------------------------------------------------------- 32 bits

  /** The right operand counts. */
  predicate NeedsRight(op: Op, left: Out<int>) {
    left.Got? && !(op == Or && left.v != 0) && !(op == And && left.v == 0)
  }

  /** No right operand of || that counts is a multiple of 2^32 other than 0. */
  ghost predicate Fits32(t: Tree) {
    match t
    case Num(_) => true
    case Not(u) => Fits32(u)
    case Complement(u) => Fits32(u)
    case Bin(op, a, b) =>
      && Fits32(a)
      && (NeedsRight(op, Eval(a, false)) ==>
            Fits32(b) && (op == Or && Eval(b, false).Got? ==> !LostIn32(Eval(b, false).v)))
  }

  /** Every part that is evaluated has the same value with 32 bits and without. */
  ghost predicate SameThroughout(t: Tree) {
    && Eval(t, true) == Eval(t, false)
    && match t
       case Num(_) => true
       case Not(u) => SameThroughout(u)
       case Complement(u) => SameThroughout(u)
       case Bin(op, a, b) => SameThroughout(a) && (NeedsRight(op, Eval(a, false)) ==> SameThroughout(b))
  }

  predicate LostIn32(n: int) {
    n != 0 && n % 0x1_0000_0000 == 0
  }

  /** With operands like that, and only with them, every value on the way is that of mathematical ||. */
  lemma {:induction false} Fits32Exactly(t: Tree)
    ensures Fits32(t) <==> SameThroughout(t)
  {
    hide Meaning, Int32;
    match t
    case Num(_) =>
    case Not(u) => Fits32Exactly(u);
    case Complement(u) => Fits32Exactly(u);
    case Bin(op, a, b) =>
      Fits32Exactly(a);
      Fits32Exactly(b);
      if op == Or && Eval(a, false).Got? && Eval(b, false).Got? {
        OrIn32(Eval(a, false).v, Eval(b, false).v);
      }
  }

  /** For one || the two agree exactly when the left operand decides or the right one survives. */
  lemma OrIn32(x: int, y: int)
    ensures Meaning(Or, x, Int32(y)) == Meaning(Or, x, y) <==> x != 0 || !LostIn32(y)
  {
    Int32Zero(y);
  }

  /** The whole of it, for trees without such operands. */
  lemma EvaluatesLazily(t: Tree, env: Env)
    requires Plain(env) && Modelled(t) && Fits32(t)
    ensures Level(0, Show(t, 0), 0, Mode(false, false), env)
         == match Eval(t, false)
            case Got(n) => Ok(N(n), |Show(t, 0)|)
            case Bad(e) => Err(e)
  {
    EvaluatesTree(t, env);
    Fits32Exactly(t);
  }

  /** 0 || 4294967296 is 0. */
  lemma OrLosesHighBits(env: Env)
    requires Plain(env)
    ensures var t := Bin(Or, Num(0), Num(0x1_0000_0000));
            Eval(t, false) == Got(1) && Level(0, Show(t, 0), 0, Mode(false, false), env) == Ok(N(0), |Show(t, 0)|)
  {
    EvaluatesTree(Bin(Or, Num(0), Num(0x1_0000_0000)), env);
  }
}
