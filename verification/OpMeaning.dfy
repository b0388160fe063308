/** What the operators of expressions mean, in terms of the numbers themselves: sums and relations, division with
    a remainder, powers of two, and the bits of two's complement. */
module OpMeaning {
  import opened Numbers
  import opened Exp

  /** Bit k of a number in two's complement. */
  predicate Bit(a: int, k: nat)
    decreases k
  {
    if k == 0 then a % 2 == 1 else Bit(a / 2, k - 1)
  }

  /** q times b and r more is a: the remainder is smaller than b and does not have another sign than a. */
  predicate Divides(a: int, b: int, q: int, r: int) {
    && a == q * b + r && -Magnitude(b) < r < Magnitude(b) && (a >= 0 ==> r >= 0) && (a <= 0 ==> r <= 0)
  }

  function Magnitude(b: int): int { if b >= 0 then b else -b }

  /** o is what the operator makes of a and b. A shift by a negative number is 0. */
  ghost predicate Computes(op: Op, a: int, b: int, o: Out<int>) {
    match op
    case Add => o == Got(a + b)
    case Sub => o == Got(a - b)
    case Mul => o == Got(a * b)
    case Div => if b == 0 then o == Bad(Div0) else o.Got? && exists r :: Divides(a, b, o.v, r)
    case Mod => if b == 0 then o == Bad(Mod0) else o.Got? && exists q :: Divides(a, b, q, o.v)
    case Shl => o == if b < 0 then Got(0) else Got(a * Power(2, b))
    case Shr => o.Got? && if b < 0 then o.v == 0 else o.v * Power(2, b) <= a < (o.v + 1) * Power(2, b)
    case Lt => o == if a < b then Got(1) else Got(0)
    case Le => o == if a <= b then Got(1) else Got(0)
    case Gt => o == if a > b then Got(1) else Got(0)
    case Ge => o == if a >= b then Got(1) else Got(0)
    case Eq => o == if a == b then Got(1) else Got(0)
    case Ne => o == if a != b then Got(1) else Got(0)
    case Or => o == if a == 0 && b == 0 then Got(0) else Got(1)
    case And => o == if a == 0 || b == 0 then Got(0) else Got(1)
    case BitOr => o.Got? && forall k: nat :: Bit(o.v, k) <==> Bit(a, k) || Bit(b, k)
    case BitXor => o.Got? && forall k: nat :: Bit(o.v, k) <==> Bit(a, k) != Bit(b, k)
    case BitAnd => o.Got? && forall k: nat :: Bit(o.v, k) <==> Bit(a, k) && Bit(b, k)
    case _ => o == Got(0)
  }

  /** The value of an operator on numbers. */
  ghost function Meaning(op: Op, a: int, b: int): (o: Out<int>)
    ensures Computes(op, a, b, o)
  {
    ArithComputes(op, a, b);
    var o :| Computes(op, a, b, o);
    o
  }

  /** The evaluator computes what the operators mean. */
  lemma ArithIsMeaning(op: Op, a: int, b: int)
    ensures Arith(op, a, b) == Meaning(op, a, b)
  {
    hide Arith, Computes;
    ArithComputes(op, a, b);
    ComputesOnce(op, a, b, Arith(op, a, b), Meaning(op, a, b));
  }

  // ---------------------------------------------------------------- what the evaluator computes

  lemma ArithComputes(op: Op, a: int, b: int)
    ensures Computes(op, a, b, Arith(op, a, b))
  {
    hide Bitwise, Bit, Quotient, Remainder, Divides, Pow2, Power;
    match op
    case Div =>
      if b != 0 {
        QuotientDivides(a, b);
      }
    case Mod =>
      if b != 0 {
        QuotientDivides(a, b);
      }
    case Shl =>
      if b >= 0 {
        PowersOfTwo(b);
      }
    case Shr =>
      if b >= 0 {
        PowersOfTwo(b);
        FloorDivides(a, Pow2(b));
      }
    case BitOr => BitwiseBits((x, y) => x || y, a, b);
    case BitXor => BitwiseBits((x, y) => x != y, a, b);
    case BitAnd => BitwiseBits((x, y) => x && y, a, b);
    case _ =>
  }

  lemma QuotientDivides(a: int, b: int)
    requires b != 0
    ensures Divides(a, b, Quotient(a, b), Remainder(a, b))
  {
    Euclid(if a >= 0 then a else -a, b);
    NegativeTimes(-a / b, b);
  }

  lemma Euclid(c: int, b: int)
    requires b != 0
    ensures c == (c / b) * b + c % b && 0 <= c % b < Magnitude(b)
  {
  }

  lemma NegativeTimes(x: int, b: int)
    ensures -x * b == -(x * b)
  {
  }

  lemma {:induction false} PowersOfTwo(n: nat)
    ensures Pow2(n) == Power(2, n)
  {
    if n > 0 {
      PowersOfTwo(n - 1);
    }
  }

  lemma FloorDivides(a: int, m: nat)
    requires m > 0
    ensures (a / m) * m <= a < (a / m + 1) * m
  {
    assert a == (a / m) * m + a % m;
  }

  lemma BitwiseBits(f: (bool, bool) -> bool, a: int, b: int)
    ensures forall k: nat :: Bit(Bitwise(f, a, b), k) <==> f(Bit(a, k), Bit(b, k))
  {
    forall k: nat ensures Bit(Bitwise(f, a, b), k) <==> f(Bit(a, k), Bit(b, k)) {
      BitwiseBit(f, a, b, k);
    }
  }

  lemma {:induction false} BitwiseBit(f: (bool, bool) -> bool, a: int, b: int, k: nat)
    ensures Bit(Bitwise(f, a, b), k) <==> f(Bit(a, k), Bit(b, k))
    decreases k
  {
    if Size(a) == 0 && Size(b) == 0 {
      SignBits(k);
    } else {
      var x, c := Bitwise(f, Half(a), Half(b)), if f(a % 2 == 1, b % 2 == 1) then 1 else 0;
      var n := 2 * x + c;
      assert n % 2 == c && n / 2 == x;
      if k > 0 {
        BitwiseBit(f, Half(a), Half(b), k - 1);
      }
    }
  }

  lemma {:induction false} SignBits(k: nat)
    ensures Bit(-1, k) && !Bit(0, k)
  {
    if k > 0 {
      SignBits(k - 1);
    }
  }

  // ---------------------------------------------------------------- only one value

  lemma ComputesOnce(op: Op, a: int, b: int, o: Out<int>, p: Out<int>)
    requires Computes(op, a, b, o) && Computes(op, a, b, p)
    ensures o == p
  {
    hide Bit, Divides, Power;
    match op
    case Div =>
      if b != 0 {
        var r :| Divides(a, b, o.v, r);
        var s :| Divides(a, b, p.v, s);
        DividesOnce(a, b, o.v, r, p.v, s);
      }
    case Mod =>
      if b != 0 {
        var q :| Divides(a, b, q, o.v);
        var t :| Divides(a, b, t, p.v);
        DividesOnce(a, b, q, o.v, t, p.v);
      }
    case Shr =>
      if b >= 0 {
        PowersOfTwo(b);
        FloorOnce(a, Power(2, b), o.v, p.v);
      }
    case BitOr => BitsDecide(o.v, p.v);
    case BitXor => BitsDecide(o.v, p.v);
    case BitAnd => BitsDecide(o.v, p.v);
    case _ =>
  }

  lemma DividesOnce(a: int, b: int, q: int, r: int, t: int, s: int)
    requires b != 0 && Divides(a, b, q, r) && Divides(a, b, t, s)
    ensures q == t && r == s
  {
    assert (q - t) * b == q * b - t * b;
    SmallMultiple(q - t, b);
  }

  /** A multiple of b that is smaller than b is 0. */
  lemma SmallMultiple(m: int, b: int)
    requires -Magnitude(b) < m * b < Magnitude(b)
    ensures m == 0
  {
    if m >= 1 {
      AtLeast(m, b);
    } else if m <= -1 {
      AtLeast(-m, b);
      NegativeTimes(m, b);
    }
  }

  lemma AtLeast(m: int, b: int)
    requires m >= 1
    ensures if b >= 0 then m * b >= b else m * b <= b
  {
    assert m * b == b + (m - 1) * b;
  }

  lemma FloorOnce(a: int, m: nat, x: int, y: int)
    requires m > 0 && x * m <= a < (x + 1) * m && y * m <= a < (y + 1) * m
    ensures x == y
  {
    if x < y {
      Below(x, y, m);
    } else if y < x {
      Below(y, x, m);
    }
  }

  lemma Below(x: int, y: int, m: nat)
    requires x < y
    ensures (x + 1) * m <= y * m
  {
  }

  /** Numbers with the same bits are the same. */
  lemma {:induction false} BitsDecide(x: int, y: int)
    requires forall k: nat :: Bit(x, k) <==> Bit(y, k)
    ensures x == y
    decreases Size(x) + Size(y)
  {
    assert Bit(x, 0) <==> Bit(y, 0);
    if Size(x) + Size(y) > 0 {
      forall k: nat ensures Bit(x / 2, k) <==> Bit(y / 2, k) {
        assert Bit(x, k + 1) <==> Bit(y, k + 1);
      }
      BitsDecide(x / 2, y / 2);
    }
  }

  /** What ~ does to the bits. */
  lemma {:induction false} ComplementBits(a: int, k: nat)
    ensures Bit(-a - 1, k) <==> !Bit(a, k)
    decreases k
  {
    assert (-a - 1) / 2 == -(a / 2) - 1 && ((-a - 1) % 2 == 1 <==> a % 2 == 0);
    if k > 0 {
      ComplementBits(a / 2, k - 1);
    }
  }
}
