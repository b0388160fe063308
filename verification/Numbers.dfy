/** Numbers as words (putn and getn, sh.set.c; egetn, sh.exp.c), and bit operations on integers. */
module Numbers {
  datatype Error = Expression | BadNum | Div0 | Mod0 | MissingBrace | FileInquiry | FileName | Refused(message: string)

  datatype Out<T> = Got(v: T) | Bad(e: Error)

  predicate IsDigit(c: char) {
    '0' <= c <= '9'
  }

  function DigitChar(d: nat): char
    requires d < 10
  {
    '0' + d as char
  }

  /** putn1 */
  function Digits(n: nat): (s: string)
    ensures s != [] && IsDigit(s[0])
  {
    (if n > 9 then Digits(n / 10) else []) + [DigitChar(n % 10)]
  }

  /** The text of a number. */
  function Putn(n: int): string {
    if n < 0 then "-" + Digits(-n) else Digits(n)
  }

  predicate Numeral(s: string, base: nat) {
    forall k | 0 <= k < |s| :: IsDigit(s[k]) && (base == 8 ==> s[k] < '8')
  }

  function NumeralValue(s: string, base: nat): (n: nat)
    requires Numeral(s, base)
  {
    if s == [] then 0
    else NumeralValue(s[..|s| - 1], base) * base + (s[|s| - 1] - '0') as nat
  }

  function Unsigned(s: string): string {
    var t := if |s| > 1 && s[0] == '+' then s[1..] else s;
    if t != [] && t[0] == '-' then t[1..] else t
  }

  predicate Negative(s: string) {
    var t := if |s| > 1 && s[0] == '+' then s[1..] else s;
    t != [] && t[0] == '-'
  }

  function Base(u: string, octal: bool): nat {
    if |u| > 1 && u[0] == '0' && octal then 8 else 10
  }

  /** The number that a word stands for. */
  function Getn(s: string, octal: bool): Out<int> {
    var u := Unsigned(s);
    if Negative(s) && (u == [] || !IsDigit(u[0])) then Bad(BadNum)
    else if !Numeral(u, Base(u, octal)) then Bad(BadNum)
    else
      var n: int := NumeralValue(u, Base(u, octal));
      Got(if Negative(s) then -n else n)
  }

  /** getn: the sign, the base, and then the digits one by one. */
  method GetN(s: string, octal: bool) returns (r: Out<int>)
    ensures r == Getn(s, octal)
  {
    hide Numeral, NumeralValue, IsDigit;
    var cp := 0;
    if |s| > 1 && s[0] == '+' {
      cp := cp + 1;
    }
    assert s[0..] == s;
    var sign := cp < |s| && s[cp] == '-';
    if sign {
      cp := cp + 1;
      if cp == |s| || !IsDigit(s[cp]) {
        return Bad(BadNum);
      }
    }
    assert s[cp..] == Unsigned(s);
    var base := if cp + 1 < |s| && s[cp] == '0' && octal then 8 else 10;
    r := GetDigits(s, cp, base);
    if r.Got? && sign {
      r := Got(-r.v);
    }
  }

  method GetDigits(s: string, cp0: nat, base: nat) returns (r: Out<int>)
    requires cp0 <= |s|
    ensures r == if Numeral(s[cp0..], base) then Got(NumeralValue(s[cp0..], base)) else Bad(BadNum)
  {
    hide Numeral, NumeralValue;
    ghost var u := s[cp0..];
    var cp, n: int := cp0, 0;
    SuffixCells(s, cp, u);
    NumeralNone(u, base);
    while cp < |s| && IsDigit(s[cp])
      invariant cp0 <= cp <= |s| && Numeral(u[..cp - cp0], base) && n == NumeralValue(u[..cp - cp0], base)
    {
      NumeralMore(u, cp - cp0, base);
      if base == 8 && s[cp] >= '8' {
        return Bad(BadNum);
      }
      n := n * base + (s[cp] - '0') as int;
      cp := cp + 1;
    }
    if cp < |s| {
      NumeralMore(u, cp - cp0, base);
      return Bad(BadNum);
    }
    assert u[..|u|] == u;
    return Got(n);
  }

  lemma SuffixCells(s: string, cp: nat, u: string)
    requires cp <= |s| && s[cp..] == u
    ensures |u| == |s| - cp && forall k | cp <= k < |s| :: s[k] == u[k - cp]
  {
  }

  lemma NumeralNone(u: string, base: nat)
    ensures Numeral(u[..0], base) && NumeralValue(u[..0], base) == 0
  {
  }

  /** One more digit. */
  lemma NumeralMore(u: string, k: nat, base: nat)
    requires k < |u| && Numeral(u[..k], base)
    ensures if IsDigit(u[k]) && (base == 8 ==> u[k] < '8') then
              Numeral(u[..k + 1], base)
              && NumeralValue(u[..k + 1], base) == NumeralValue(u[..k], base) * base + (u[k] - '0') as int
            else !Numeral(u, base)
  {
    assert u[..k + 1][..k] == u[..k];
    assert forall j | 0 <= j < k :: u[j] == u[..k][j];
  }

  lemma {:induction false} DigitsNumeral(n: nat)
    ensures Numeral(Digits(n), 10) && NumeralValue(Digits(n), 10) == n
    ensures |Digits(n)| > 1 ==> Digits(n)[0] != '0'
    ensures |Digits(n)| == 1 <==> n <= 9
    ensures n > 0 ==> Digits(n)[0] != '0'
  {
    hide DigitChar, IsDigit, Numeral, NumeralValue;
    DigitBack(n % 10);
    if n > 9 {
      DigitsNumeral(n / 10);
      DigitAppended(Digits(n / 10), DigitChar(n % 10));
    } else {
      assert Digits(n) == [DigitChar(n)];
      OneDigit(DigitChar(n));
    }
  }

  lemma OneDigit(c: char)
    requires IsDigit(c)
    ensures Numeral([c], 10) && NumeralValue([c], 10) == (c - '0') as nat
  {
    assert [c][..0] == [];
  }

  lemma DigitAppended(t: string, c: char)
    requires Numeral(t, 10) && IsDigit(c)
    ensures Numeral(t + [c], 10) && NumeralValue(t + [c], 10) == NumeralValue(t, 10) * 10 + (c - '0') as nat
  {
    assert (t + [c])[..|t|] == t;
  }

  lemma DigitBack(d: nat)
    requires d < 10
    ensures var c := DigitChar(d); IsDigit(c) && (c - '0') as nat == d && (c == '0' <==> d == 0)
  {
  }

  function Power(base: nat, n: nat): nat {
    if n == 0 then 1 else base * Power(base, n - 1)
  }

  /** A digit counts for what its place says. */
  lemma {:induction false} NumeralPlaces(s: string, base: nat)
    requires s != [] && Numeral(s, base)
    ensures Numeral(s[1..], base)
    ensures NumeralValue(s, base) == (s[0] - '0') as nat * Power(base, |s| - 1) + NumeralValue(s[1..], base)
    decreases |s|
  {
    if |s| > 1 {
      var t, c := s[..|s| - 1], (s[|s| - 1] - '0') as nat;
      NumeralPlaces(t, base);
      assert t[1..] == s[1..][..|s| - 2];
      var d, m := (s[0] - '0') as nat, Power(base, |s| - 2);
      assert (d * m + NumeralValue(t[1..], base)) * base + c
          == d * (base * m) + (NumeralValue(t[1..], base) * base + c) by {
        Distributed(d, m, NumeralValue(t[1..], base), base);
      }
    } else {
      assert s[..0] == [] && s[1..] == [];
    }
  }

  lemma Distributed(d: nat, m: nat, x: nat, base: nat)
    ensures (d * m + x) * base == d * (base * m) + x * base
  {
    assert d * m * base == d * (base * m);
  }

  predicate AllDigits(u: string) {
    forall k | 0 <= k < |u| :: IsDigit(u[k])
  }

  /** What words of digits stand for, with and without signs: decimal numbers, and octal ones when these are
      known by a leading zero; an eight or nine in one of those is an error. Other words are errors, but for
      the empty one. */
  lemma GetnMeaning(u: string, octal: bool)
    requires u != [] && AllDigits(u)
    ensures !(octal && u[0] == '0') ==> Numeral(u, 10) && Getn(u, octal) == Got(NumeralValue(u, 10))
    ensures octal && u[0] == '0' && |u| > 1 ==>
              if exists k :: 0 <= k < |u| && u[k] >= '8' then Getn(u, octal) == Bad(BadNum)
              else Numeral(u, 8) && Getn(u, octal) == Got(NumeralValue(u, 8))
    ensures Getn("+" + u, octal) == Getn(u, octal)
    ensures Getn("-" + u, octal) == match Getn(u, octal) case Got(n) => Got(-n) case Bad(e) => Bad(e)
  {
    hide NumeralValue;
    assert ("+" + u)[1..] == u && ("-" + u)[1..] == u;
    assert Negative("-" + u) && !Negative("+" + u) && !Negative(u);
  }

  /** A word with anything else than digits in it, but for the signs in front, is no number. */
  lemma GetnRefuses(s: string, octal: bool)
    ensures s != [] && Getn(s, octal).Got? ==> Unsigned(s) != [] && AllDigits(Unsigned(s))
    ensures Getn([], octal) == Got(0)
  {
    assert NumeralValue([], 10) == 0;
  }

  /** Reading what was written gives the number back, whether or not a leading zero means octal. */
  lemma PutnGetn(n: int, octal: bool)
    ensures Getn(Putn(n), octal) == Got(n)
  {
    hide Numeral, NumeralValue, Digits;
    var d := Digits(if n < 0 then -n else n);
    DigitsNumeral(if n < 0 then -n else n);
    if n < 0 {
      assert ("-" + d)[1..] == d;
    }
  }

  /** Different numbers are written differently. */
  lemma PutnInjective(a: int, b: int)
    ensures Putn(a) == Putn(b) <==> a == b
  {
    PutnGetn(a, false);
    PutnGetn(b, false);
  }

  /** egetn: a word that does not look like a number is an error; the empty word is zero. */
  function Egetn(s: string, octal: bool): Out<int> {
    if s != [] && s[0] != '-' && !IsDigit(s[0]) then Bad(Expression) else Getn(s, octal)
  }

  lemma PutnEgetn(n: int, octal: bool)
    ensures Egetn(Putn(n), octal) == Got(n)
  {
    PutnGetn(n, octal);
  }

  // ---------------------------------------------------------------- bits

  function Half(a: int): int { a / 2 }

  function Size(a: int): nat { if a >= 0 then a else -a - 1 }

  /** The bits of a and b, in two's complement, combined one by one. */
  function Bitwise(f: (bool, bool) -> bool, a: int, b: int): int
    decreases Size(a) + Size(b)
  {
    if Size(a) == 0 && Size(b) == 0 then if f(a < 0, b < 0) then -1 else 0
    else 2 * Bitwise(f, Half(a), Half(b)) + if f(a % 2 == 1, b % 2 == 1) then 1 else 0
  }

  function Pow2(n: nat): (r: nat)
    ensures r > 0
  {
    if n == 0 then 1 else 2 * Pow2(n - 1)
  }

  /** Division that rounds towards zero, and its remainder. */
  function Quotient(a: int, b: int): int
    requires b != 0
  {
    if a >= 0 then a / b else -(-a / b)
  }

  function Remainder(a: int, b: int): int
    requires b != 0
  {
    a - Quotient(a, b) * b
  }

  /** A value as a 32-bit signed integer. */
  function Int32(n: int): int {
    (n + 0x8000_0000) % 0x1_0000_0000 - 0x8000_0000
  }

  lemma Int32Zero(n: int)
    ensures Int32(n) == 0 <==> n % 0x1_0000_0000 == 0
  {
  }
}
