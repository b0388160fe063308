/** Writing and reading escaped strings (unparsestring and parseescape, ed.xmap.c; parsestring,
    tc.bind.c). Characters are codes; the classes are those of ASCII. */
module Escape {
  const NUL := '\0'

  function At(s: string, i: nat): char {
    if i < |s| then s[i] else NUL
  }

  // ---------------------------------------------------------------- writing

  predicate Iscntrl(c: char) { c < ' ' || c == 127 as char }

  predicate Isprint(c: char) { ' ' <= c < 127 as char }

  function OctalDigit(n: nat): char
    requires n < 8
  {
    '0' + n as char
  }

  /** How one character is written. */
  function Written(c: char): (r: string)
    requires c < 256 as char
    ensures 0 < |r| <= 4
  {
    var n := c as int;
    if Iscntrl(c) then ['^', if n == 127 then '?' else c + '@']
    else if c == '^' || c == '\\' then ['\\', c]
    else if Isprint(c) then [c]
    else ['\\', OctalDigit(n / 64), OctalDigit(n / 8 % 8), OctalDigit(n % 8)]
  }

  function Body(s: string): string
    requires forall k | 0 <= k < |s| :: s[k] < 256 as char
  {
    if s == [] then [] else Body(s[..|s| - 1]) + Written(s[|s| - 1])
  }

  /** Text at the start of a buffer. */
  ghost predicate Starts(buf: array<char>, s: string)
    reads buf
  {
    |s| <= buf.Length && forall k | 0 <= k < |s| :: buf[k] == s[k]
  }

  method Append(buf: array<char>, b: nat, t: string, ghost s: string)
    requires Starts(buf, s) && b == |s| && b + |t| <= buf.Length
    modifies buf
    ensures Starts(buf, s + t)
  {
    var k := 0;
    while k < |t|
      invariant k <= |t| && Starts(buf, s + t[..k])
    {
      buf[b + k] := t[k];
      k := k + 1;
    }
    assert t[..k] == t;
  }

  lemma BodySize(s: string, l: nat)
    requires l <= |s| && forall k | 0 <= k < |s| :: s[k] < 256 as char
    ensures |Body(s[..l])| <= 4 * l
  {
    if l > 0 {
      BodySize(s, l - 1);
      assert s[..l][..l - 1] == s[..l - 1];
    }
  }

  lemma BodyMore(s: string, l: nat)
    requires l < |s| && forall k | 0 <= k < |s| :: s[k] < 256 as char
    ensures Body(s[..l + 1]) == Body(s[..l]) + Written(s[l])
  {
    assert s[..l + 1][..l] == s[..l];
  }

  /** unparsestring: the buffer that was allocated is long enough. */
  method UnparseString(str: string, sep: string) returns (buf: array<char>, ghost text: string)
    requires forall k | 0 <= k < |str| :: str[k] < 256 as char
    ensures text == (if |sep| > 0 then [sep[0]] else []) + Body(str) + (if |sep| > 1 then [sep[1]] else [])
    ensures Starts(buf, text + [NUL]) && buf.Length == 4 * (|str| + 1)
  {
    hide Body, Written;
    buf := new char[(|str| + 1) * 4];
    var b := 0;
    text := [];
    if |sep| > 0 {
      buf[b] := sep[0];
      b := b + 1;
      text := [sep[0]];
    }
    ghost var front := text;
    BodyNone(str);
    var l := 0;
    while l < |str|
      invariant l <= |str| && b == |text| && Starts(buf, text) && text == front + Body(str[..l])
    {
      var p := str[l];
      BodyMore(str, l);
      BodySize(str, l);
      Append(buf, b, Written(p), text);
      text := text + Written(p);
      b := b + |Written(p)|;
      l := l + 1;
    }
    BodySize(str, l);
    assert str[..l] == str;
    if |sep| > 1 {
      Append(buf, b, [sep[1]], text);
      text := text + [sep[1]];
      b := b + 1;
    }
    Append(buf, b, [NUL], text);
  }

  lemma BodyNone(s: string)
    requires forall k | 0 <= k < |s| :: s[k] < 256 as char
    ensures Body(s[..0]) == []
  {
  }

  // ---------------------------------------------------------------- reading

  datatype Parsed = Code(n: nat) | CharErr | CharEof

  predicate Octal(c: char) { '0' <= c <= '7' }

  predicate Isxdigit(c: char) {
    '0' <= c <= '9' || 'a' <= c <= 'f' || 'A' <= c <= 'F'
  }

  function HexValue(c: char): nat
    requires Isxdigit(c)
  {
    if c <= '9' then (c - '0') as nat else if c <= 'F' then 10 + (c - 'A') as nat else 10 + (c - 'a') as nat
  }

  predicate OkControl(c: char) {
    'a' <= c <= 'z' || 'A' <= c <= 'Z' || c in "@^_?\\|[{]}"
  }

  /** c & 0237 */
  function Masked(n: nat): nat {
    n % 32 + n / 128 % 2 * 128
  }

  function HandleControl(c: char): nat {
    if c == '?' then 127 else Masked(c as nat)
  }

  /** The end of a run of at most l hexadecimal digits. */
  function HexEnd(s: string, p: nat, l: nat): (r: nat)
    ensures p <= r <= p + l
    ensures l > 0 && Isxdigit(At(s, p)) ==> r > p
    decreases l
  {
    if l > 0 && Isxdigit(At(s, p)) then HexEnd(s, p + 1, l - 1) else p
  }

  function HexNumber(s: string, p: nat, e: nat): nat
    requires p <= e && forall k | p <= k < e :: Isxdigit(At(s, k))
    decreases e
  {
    if p == e then 0 else HexNumber(s, p, e - 1) * 16 + HexValue(At(s, e - 1))
  }

  lemma {:induction false} HexRun(s: string, p: nat, l: nat)
    ensures forall k | p <= k < HexEnd(s, p, l) :: Isxdigit(At(s, k))
    ensures HexEnd(s, p, l) < p + l ==> !Isxdigit(At(s, HexEnd(s, p, l)))
    decreases l
  {
    if l > 0 && Isxdigit(At(s, p)) {
      HexRun(s, p + 1, l - 1);
    }
  }

  /** A run of hexadecimal digits, and where it ends. */
  function Hex(s: string, p: nat, l: nat): (nat, nat) {
    HexRun(s, p, l);
    (HexNumber(s, p, HexEnd(s, p, l)), HexEnd(s, p, l))
  }

  function OctEnd(s: string, p: nat, l: nat): (r: nat)
    ensures p <= r <= p + l
    ensures forall k | p <= k < r :: Octal(At(s, k))
    decreases l
  {
    if l > 0 && Octal(At(s, p)) then OctEnd(s, p + 1, l - 1) else p
  }

  function OctNumber(s: string, p: nat, e: nat): nat
    requires p <= e && forall k | p <= k < e :: Octal(At(s, k))
    decreases e
  {
    if p == e then 0 else assert Octal(At(s, e - 1)); OctNumber(s, p, e - 1) * 8 + (At(s, e - 1) - '0') as nat
  }

  /** The value of the escape at p, and the position of its last character. */
  function ParseEscapeAt(s: string, p: nat, e: bool): (r: (Parsed, nat))
    requires p < |s| && NUL !in s
    ensures r.0.Code? ==> p <= r.1 < |s|
  {
    if p + 1 == |s| then (CharErr, p)
    else if s[p] == '\\' then AfterBackslash(s, p + 1, e)
    else if s[p] == '^' && OkControl(s[p + 1]) then (Code(HandleControl(s[p + 1])), p + 1)
    else (Code(s[p] as nat), p)
  }

  function Simple(c: char): nat {
    match c
    case 'a' => 7
    case 'b' => 8
    case 'e' => 27
    case 'f' => 12
    case 'n' => 10
    case 'r' => 13
    case 't' => 9
    case 'v' => 11
    case '\\' => 92
    case _ => 0
  }

  /** p is after the backslash. */
  function AfterBackslash(s: string, p: nat, e: bool): (r: (Parsed, nat))
    requires 0 < p < |s| && NUL !in s
    ensures r.0.Code? ==> p - 1 <= r.1 < |s|
  {
    var c := s[p];
    if Simple(c) != 0 then (Code(Simple(c)), p)
    else if c == 'c' then
      if At(s, p + 1) == '\\' then
        if At(s, p + 2) == '\\' then (Code(Masked(92)), p + 2) else (CharErr, p + 2)
      else if OkControl(At(s, p + 1)) then (Code(HandleControl(At(s, p + 1))), p + 1)
      else if e then (CharErr, p + 1) else (CharEof, p)
    else if c == 'x' && At(s, p + 1) == '{' && Isxdigit(At(s, p + 2)) then
      var (n, q) := Hex(s, p + 2, 8);
      if At(s, q) == '}' then (Code(n), q) else (Code(92), p - 1)
    else if c == 'x' && Isxdigit(At(s, p + 1)) then HexInText(s, p + 1, 2)
    else if (c == 'u' || c == 'U') && Isxdigit(At(s, p + 1)) then HexInText(s, p + 1, if c == 'u' then 4 else 8)
    else if c == 'x' || c == 'u' || c == 'U' then (Code(92), p - 1)
    else if Octal(c) then
      var q := OctEnd(s, p, 3);
      var n := OctNumber(s, p, q);
      InText(s, p, q);
      if n > 255 then (CharErr, q) else (Code(n), q - 1)
    else if e then (Code(c as nat), p) else (Code(92), p - 1)
  }

  function HexInText(s: string, p: nat, l: nat): (r: (Parsed, nat))
    requires p < |s| && Isxdigit(s[p]) && l > 0
    ensures r.0.Code? && p <= r.1 < |s|
  {
    HexRun(s, p, l);
    assert Isxdigit(At(s, HexEnd(s, p, l) - 1));
    (Code(Hex(s, p, l).0), Hex(s, p, l).1 - 1)
  }

  lemma InText(s: string, p: nat, q: nat)
    requires p <= q && forall k | p <= k < q :: Octal(At(s, k))
    ensures p < q ==> q <= |s|
  {
    if p < q {
      assert Octal(At(s, q - 1));
    }
  }

  /** parse_hex_range: the value of the digits, and the position of the last one. */
  method ParseHexRange(s: string, p0: nat, l: nat) returns (r: nat, p: nat)
    requires p0 < |s| && Isxdigit(s[p0]) && l > 0
    ensures (r, p + 1) == Hex(s, p0, l)
  {
    r, p := 0, p0;
    var ui := 0;
    while ui < l && Isxdigit(At(s, p))
      invariant ui <= l && p == p0 + ui && HexEnd(s, p0, l) == HexEnd(s, p, l - ui)
      invariant forall k | p0 <= k < p :: Isxdigit(At(s, k))
      invariant r == HexNumber(s, p0, p)
    {
      r := r * 16 + HexValue(At(s, p));
      p, ui := p + 1, ui + 1;
    }
    HexRun(s, p0, l);
    p := p - 1;
  }

  /** The digits of \nnn: the value, and the position after them. */
  method ParseOctal(s: string, p0: nat) returns (val: nat, p: nat)
    requires p0 < |s|
    ensures p == OctEnd(s, p0, 3) && val == OctNumber(s, p0, p)
  {
    var cnt := 0;
    val, p := 0, p0;
    while cnt < 3
      invariant cnt <= 3 && p == p0 + cnt && OctEnd(s, p0, 3) == OctEnd(s, p, 3 - cnt)
      invariant (forall k | p0 <= k < p :: Octal(At(s, k))) && val == OctNumber(s, p0, p)
    {
      var ch := At(s, p);
      if !Octal(ch) {
        break;
      }
      val := val * 8 + (ch - '0') as nat;
      p, cnt := p + 1, cnt + 1;
    }
  }

  /** parseescape: the value, and the position of the last character of the escape. */
  method ParseEscape(s: string, p0: nat, e: bool) returns (c: Parsed, p: nat)
    requires p0 < |s| && NUL !in s
    ensures (c, p) == ParseEscapeAt(s, p0, e)
  {
    hide HexNumber, HexEnd, OctNumber, OctEnd, HexInText;
    p := p0;
    if At(s, p + 1) == NUL {
      return CharErr, p;
    }
    if s[p] == '\\' {
      p := p + 1;
      if Simple(s[p]) != 0 {
        c := Code(Simple(s[p]));
      } else if s[p] == 'c' {
        p := p + 1;
        if At(s, p) == '\\' {
          p := p + 1;
          if At(s, p) != '\\' {
            return CharErr, p;
          }
          c := Code(Masked(92));
        } else if OkControl(At(s, p)) {
          c := Code(HandleControl(At(s, p)));
        } else if e {
          return CharErr, p;
        } else {
          return CharEof, p - 1;
        }
      } else if s[p] == 'x' || s[p] == 'u' || s[p] == 'U' {
        c, p := ParseNumeric(s, p);
      } else if Octal(s[p]) {
        var val;
        InText(s, p, OctEnd(s, p, 3));
        val, p := ParseOctal(s, p);
        if val > 255 {
          return CharErr, p;
        }
        c := Code(val);
        p := p - 1;
      } else {
        if !e {
          p := p - 1;
        }
        c := Code(s[p] as nat);
      }
    } else if s[p] == '^' && OkControl(At(s, p + 1)) {
      p := p + 1;
      c := Code(HandleControl(s[p]));
    } else {
      c := Code(s[p] as nat);
    }
  }

  /** The cases x, u and U of parseescape. */
  method ParseNumeric(s: string, p0: nat) returns (c: Parsed, p: nat)
    requires 0 < p0 < |s| && NUL !in s && (s[p0] == 'x' || s[p0] == 'u' || s[p0] == 'U')
    ensures forall e :: (c, p) == AfterBackslash(s, p0, e)
  {
    hide HexNumber, HexEnd, OctNumber, OctEnd, HexInText;
    p := p0 + 1;
    var n;
    if s[p0] == 'x' && At(s, p) == '{' && Isxdigit(At(s, p + 1)) {
      p := p + 1;
      n, p := ParseHexRange(s, p, 8);
      c := Code(n);
      if At(s, p + 1) != '}' {
        return Code(92), p0 - 1;
      }
      p := p + 1;
    } else if Isxdigit(At(s, p)) {
      HexIs(s, p, if s[p0] == 'x' then 2 else if s[p0] == 'u' then 4 else 8);
      n, p := ParseHexRange(s, p, if s[p0] == 'x' then 2 else if s[p0] == 'u' then 4 else 8);
      c := Code(n);
    } else {
      c, p := Code(92), p - 2;
    }
  }

  lemma HexIs(s: string, p: nat, l: nat)
    requires p < |s| && Isxdigit(s[p]) && l > 0
    ensures Hex(s, p, l).1 > 0 && HexInText(s, p, l) == (Code(Hex(s, p, l).0), Hex(s, p, l).1 - 1)
  {
  }

  // ---------------------------------------------------------------- what the escapes stand for

  /** The escapes with a letter, and the backslash. */
  lemma NamedEscapes(s: string, p: nat, e: bool)
    requires p + 1 < |s| && NUL !in s && s[p] == '\\'
    ensures s[p + 1] == 'a' ==> ParseEscapeAt(s, p, e) == (Code(0x07), p + 1)
    ensures s[p + 1] == 'b' ==> ParseEscapeAt(s, p, e) == (Code(0x08), p + 1)
    ensures s[p + 1] == 't' ==> ParseEscapeAt(s, p, e) == (Code(0x09), p + 1)
    ensures s[p + 1] == 'n' ==> ParseEscapeAt(s, p, e) == (Code(0x0a), p + 1)
    ensures s[p + 1] == 'v' ==> ParseEscapeAt(s, p, e) == (Code(0x0b), p + 1)
    ensures s[p + 1] == 'f' ==> ParseEscapeAt(s, p, e) == (Code(0x0c), p + 1)
    ensures s[p + 1] == 'r' ==> ParseEscapeAt(s, p, e) == (Code(0x0d), p + 1)
    ensures s[p + 1] == 'e' ==> ParseEscapeAt(s, p, e) == (Code(0x1b), p + 1)
    ensures s[p + 1] == '\\' ==> ParseEscapeAt(s, p, e) == (Code(0x5c), p + 1)
    ensures s[p + 1] !in "abtnvfre\\cxuU01234567" ==>
              ParseEscapeAt(s, p, e) == if e then (Code(s[p + 1] as nat), p + 1) else (Code(0x5c), p)
  {
    hide OctEnd, OctNumber, HexEnd, HexNumber, HexInText;
    assert Octal(s[p + 1]) ==> s[p + 1] in "01234567" by {
      if Octal(s[p + 1]) {
        var d := (s[p + 1] - '0') as int;
        assert "01234567"[d] == s[p + 1];
      }
    }
  }

  /** ^X and \cX, for the characters from @ on and the question mark: the code with only the last five bits. */
  lemma ControlEscapes(s: string, p: nat, e: bool, x: char)
    requires NUL !in s && ('@' <= x <= '_' || 'a' <= x <= 'z' || x == '?')
    requires (p + 1 < |s| && s[p] == '^' && s[p + 1] == x && x != '\\')
          || (p + 2 < |s| && s[p] == '\\' && s[p + 1] == 'c' && s[p + 2] == x && x != '\\')
          || (p + 3 < |s| && s[p] == '\\' && s[p + 1] == 'c' && s[p + 2] == '\\' && s[p + 3] == x == '\\')
    ensures ParseEscapeAt(s, p, e).0
         == Code(if x == '?' then 0x7f else if x <= '_' then x as int - 64 else x as int - 96)
  {
    hide OctEnd, OctNumber, HexEnd, HexNumber, HexInText;
    assert x <= '_' && x != '?' ==> Masked(x as nat) == x as int - 64;
    assert x > '_' ==> Masked(x as nat) == x as int - 96;
    if '@' <= x <= '_' {
      OkControls(x);
    }
  }

  lemma OkControls(x: char)
    requires '@' <= x <= '_'
    ensures OkControl(x)
  {
    if 'Z' < x {
      assert "[\\]^_"[(x - '[') as int] == x;
    }
  }

  /** Three octal digits: their value, if it is one of eight bits; and the digits end where another character
      comes. */
  lemma OctalEscapes(s: string, p: nat, e: bool)
    requires p + 1 < |s| && NUL !in s && s[p] == '\\' && Octal(s[p + 1])
    ensures var d1, d2, d3 := (s[p + 1] - '0') as int, At(s, p + 2), At(s, p + 3);
            if !Octal(d2) then ParseEscapeAt(s, p, e) == (Code(d1), p + 1)
            else
              var n2 := 8 * d1 + (d2 - '0') as int;
              if !Octal(d3) then ParseEscapeAt(s, p, e) == (Code(n2), p + 2)
              else
                var n3 := 8 * n2 + (d3 - '0') as int;
                if n3 < 256 then ParseEscapeAt(s, p, e) == (Code(n3), p + 3)
                else ParseEscapeAt(s, p, e) == (CharErr, p + 4)
  {
    hide HexEnd, HexNumber, HexInText;
    var q := p + 1;
    assert OctEnd(s, q, 3) == OctEnd(s, q + 1, 2);
    assert OctNumber(s, q, q) == 0 && OctNumber(s, q, q + 1) == (s[q] - '0') as int;
    if Octal(At(s, q + 1)) {
      assert OctEnd(s, q + 1, 2) == OctEnd(s, q + 2, 1);
      assert OctNumber(s, q, q + 2) == 8 * (s[q] - '0') as int + (At(s, q + 1) - '0') as int;
      if Octal(At(s, q + 2)) {
        assert OctEnd(s, q + 2, 1) == q + 3;
        assert OctNumber(s, q, q + 3) == 8 * OctNumber(s, q, q + 2) + (At(s, q + 2) - '0') as int;
      }
    }
  }

  lemma HexDigits(c: char)
    requires Isxdigit(c)
    ensures HexValue(c) < 16
    ensures c == "0123456789abcdef"[HexValue(c)] || c == "0123456789ABCDEF"[HexValue(c)]
  {
  }

  function Power16(n: nat): nat { if n == 0 then 1 else 16 * Power16(n - 1) }

  /** A hexadecimal digit counts for what its place says. */
  lemma {:induction false} HexPlaces(s: string, p: nat, e: nat)
    requires p < e && forall k | p <= k < e :: Isxdigit(At(s, k))
    ensures HexNumber(s, p, e) == HexValue(At(s, p)) * Power16(e - p - 1) + HexNumber(s, p + 1, e)
    decreases e
  {
    hide HexValue;
    if p + 1 < e {
      HexPlaces(s, p, e - 1);
    }
  }

  /** The value and the end of an escape with hexadecimal digits: as many of them as there are, up to two, four
      or eight, and between braces up to eight. */
  lemma HexEscapes(s: string, p: nat, e: bool, q: nat)
    requires p + 2 < q <= |s| && NUL !in s && s[p] == '\\' && s[p + 1] in "xuU"
    requires var l := if s[p + 1] == 'x' then 2 else if s[p + 1] == 'u' then 4 else 8;
             q <= p + 2 + l && (q < p + 2 + l ==> !Isxdigit(At(s, q)))
    requires forall k | p + 2 <= k < q :: Isxdigit(At(s, k))
    ensures ParseEscapeAt(s, p, e) == (Code(HexNumber(s, p + 2, q)), q - 1)
  {
    hide OctEnd, OctNumber, HexNumber;
    assert Isxdigit(At(s, p + 2));
    HexEndIs(s, p + 2, if s[p + 1] == 'x' then 2 else if s[p + 1] == 'u' then 4 else 8, q);
  }

  lemma {:induction false} HexEndIs(s: string, p: nat, l: nat, q: nat)
    requires p <= q <= p + l && (forall k | p <= k < q :: Isxdigit(At(s, k)))
    requires q < p + l ==> !Isxdigit(At(s, q))
    ensures HexEnd(s, p, l) == q
    decreases l
  {
    if p < q {
      HexEndIs(s, p + 1, l - 1, q);
    }
  }

  lemma BracedHexEscapes(s: string, p: nat, e: bool, q: nat)
    requires p + 3 < q <= p + 11 && q < |s| && NUL !in s && s[p] == '\\' && s[p + 1] == 'x' && s[p + 2] == '{'
    requires s[q] == '}' && forall k | p + 3 <= k < q :: Isxdigit(At(s, k))
    ensures ParseEscapeAt(s, p, e) == (Code(HexNumber(s, p + 3, q)), q)
  {
    hide OctEnd, OctNumber, HexNumber, HexInText;
    assert Isxdigit(At(s, p + 3));
    HexEndIs(s, p + 3, 8, q);
  }

  /** How characters are written: those that print as they are, but for the two that mean something; control
      characters with a caret; the others in octal. */
  lemma WrittenMeaning(c: char)
    requires c < 256 as char
    ensures ' ' <= c <= '~' && c != '^' && c != '\\' ==> Written(c) == [c]
    ensures c == '^' || c == '\\' ==> Written(c) == ['\\', c]
    ensures c < ' ' ==> |Written(c)| == 2 && Written(c)[0] == '^' && Written(c)[1] as int == c as int + 64
    ensures c as int == 127 ==> Written(c) == "^?"
    ensures c as int > 127 ==>
              var w := Written(c);
              && |w| == 4 && w[0] == '\\' && Octal(w[1]) && Octal(w[2]) && Octal(w[3])
              && 64 * (w[1] - '0') as int + 8 * (w[2] - '0') as int + (w[3] - '0') as int == c as int
  {
  }

  // ---------------------------------------------------------------- reading a string

  datatype Decoded = Failed | Text(s: seq<nat>)

  /** What parsestring makes of a text from p on. */
  function Decode(s: string, p: nat): Decoded
    requires p <= |s| && NUL !in s
    decreases |s| - p
  {
    if p == |s| then Text([])
    else if s[p] == '\\' || s[p] == '^' then
      var (c, q) := ParseEscapeAt(s, p, true);
      match c
      case CharErr => Failed
      case CharEof => Failed
      case Code(n) => Cons(n, Decode(s, q + 1))
    else Cons(s[p] as nat, Decode(s, p + 1))
  }

  function Cons(n: nat, d: Decoded): Decoded {
    if d.Failed? then d else Text([n] + d.s)
  }

  lemma NoEof(s: string, p: nat)
    requires p < |s| && NUL !in s
    ensures ParseEscapeAt(s, p, true).0 != CharEof
  {
    hide HexEnd, HexNumber, OctEnd, OctNumber;
  }

  function Prepend(a: seq<nat>, d: Decoded): Decoded {
    if d.Failed? then d else Text(a + d.s)
  }

  /** parsestring: the empty string is refused. */
  method ParseString(s: string) returns (r: Decoded)
    requires NUL !in s
    ensures r == if s == [] then Failed else Decode(s, 0)
  {
    hide ParseEscapeAt;
    if s == [] {
      return Failed;
    }
    var p, b: seq<nat> := 0, [];
    assert Decode(s, 0) == Prepend(b, Decode(s, p));
    while p < |s|
      invariant p <= |s| && Decode(s, 0) == Prepend(b, Decode(s, p))
    {
      ghost var p1 := p;
      var es;
      if s[p] == '\\' || s[p] == '^' {
        NoEof(s, p);
        es, p := ParseEscape(s, p, true);
        if es == CharErr {
          return Failed;
        }
      } else {
        es := Code(s[p] as nat);
      }
      p := p + 1;
      PrependCons(b, es.n, Decode(s, p));
      b := b + [es.n];
    }
    r := Text(b);
    assert b + [] == b;
  }

  lemma PrependCons(b: seq<nat>, n: nat, d: Decoded)
    ensures Prepend(b, Cons(n, d)) == Prepend(b + [n], d)
  {
    if d.Text? {
      assert b + ([n] + d.s) == (b + [n]) + d.s;
    }
  }

  // ---------------------------------------------------------------- round trip

  function Codes(s: string): seq<nat> {
    seq(|s|, i requires 0 <= i < |s| => s[i] as nat)
  }

  lemma WrittenNoNul(c: char)
    requires c < 256 as char
    ensures NUL !in Written(c)
  {
  }

  lemma {:induction false} BodyNoNul(s: string)
    requires forall k | 0 <= k < |s| :: s[k] < 256 as char
    ensures NUL !in Body(s)
  {
    if s != [] {
      BodyNoNul(s[..|s| - 1]);
      WrittenNoNul(s[|s| - 1]);
    }
  }

  /** One written character is read back in one step. */
  lemma ReadsBack(c: char, s: string, p: nat)
    requires c < 256 as char && NUL !in s
    requires p + |Written(c)| <= |s| && s[p..p + |Written(c)|] == Written(c)
    ensures Decode(s, p) == Cons(c as nat, Decode(s, p + |Written(c)|))
  {
    hide ParseEscapeAt;
    var w := Written(c);
    assert forall k | 0 <= k < |w| :: s[p + k] == s[p..p + |w|][k] == w[k];
    if |w| == 4 {
      OctalReadsBack(c, s, p);
    } else if |w| == 2 {
      assert s[p] == w[0] && s[p + 1] == w[1];
      TwoReadBack(c, s, p);
    }
  }

  lemma TwoReadBack(c: char, s: string, p: nat)
    requires c < 256 as char && NUL !in s && p + 2 <= |s| && |Written(c)| == 2
    requires s[p] == Written(c)[0] && s[p + 1] == Written(c)[1]
    ensures ParseEscapeAt(s, p, true) == (Code(c as nat), p + 1)
  {
    hide HexEnd, HexNumber, OctEnd, OctNumber, HexInText;
  }

  lemma OctalReadsBack(c: char, s: string, p: nat)
    requires c < 256 as char && NUL !in s && p + 4 <= |s| && s[p] == '\\'
    requires var n := c as int;
             && s[p + 1] == OctalDigit(n / 64) && s[p + 2] == OctalDigit(n / 8 % 8) && s[p + 3] == OctalDigit(n % 8)
    ensures ParseEscapeAt(s, p, true) == (Code(c as nat), p + 3)
  {
    assert OctEnd(s, p + 1, 3) == OctEnd(s, p + 2, 2) == OctEnd(s, p + 3, 1) == OctEnd(s, p + 4, 0) == p + 4;
    assert OctNumber(s, p + 1, p + 1) == 0;
    assert OctNumber(s, p + 1, p + 2) == c as int / 64;
    assert OctNumber(s, p + 1, p + 3) == c as int / 8;
    assert OctNumber(s, p + 1, p + 4) == c as int;
  }

  /** The text of s from character l on. */
  lemma {:induction false} DecodesFrom(s: string, l: nat)
    requires (forall k | 0 <= k < |s| :: s[k] < 256 as char) && l <= |s| && NUL !in Body(s)
    requires |Body(s[..l])| <= |Body(s)|
    ensures Decode(Body(s), |Body(s[..l])|) == Text(Codes(s[l..]))
    decreases |s| - l
  {
    hide Body, Written, ParseEscapeAt;
    assert s[..|s|] == s;
    if l == |s| {
      assert Codes(s[l..]) == [];
    } else {
      BodyMore(s, l);
      BodyPrefix(s, l + 1);
      BodyPrefix(s, l);
      var a, w := |Body(s[..l])|, Written(s[l]);
      assert Body(s)[a..a + |w|] == w;
      ReadsBack(s[l], Body(s), a);
      DecodesFrom(s, l + 1);
      assert Codes(s[l..]) == [s[l] as nat] + Codes(s[l + 1..]);
    }
  }

  lemma {:induction false} BodyPrefix(s: string, l: nat)
    requires l <= |s| && forall k | 0 <= k < |s| :: s[k] < 256 as char
    ensures |Body(s[..l])| <= |Body(s)| && Body(s)[..|Body(s[..l])|] == Body(s[..l])
    decreases |s| - l
  {
    hide Written;
    if l < |s| {
      BodyPrefix(s, l + 1);
      BodyMore(s, l);
      hide Body;
      Prefixes(Body(s), Body(s[..l + 1]), Body(s[..l]));
    } else {
      assert s[..l] == s;
    }
  }

  lemma Prefixes(a: string, b: string, c: string)
    requires |c| <= |b| <= |a| && a[..|b|] == b && b[..|c|] == c
    ensures a[..|c|] == c
  {
  }

  /** What unparsestring writes, without the separators, parsestring reads back. */
  lemma RoundTrip(s: string)
    requires forall k | 0 <= k < |s| :: s[k] < 256 as char
    ensures NUL !in Body(s) && Decode(Body(s), 0) == Text(Codes(s))
  {
    BodyNoNul(s);
    assert s[..0] == [] && s[0..] == s;
    DecodesFrom(s, 0);
  }
}
