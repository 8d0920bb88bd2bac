/** Decimal numerals: how CastUtil prints an integer and reads one back. */
module Decimal {
  import opened Text

  predicate IsDigit(c: char) { '0' <= c <= '9' }

  predicate AllDigits(s: string) { forall i :: 0 <= i < |s| ==> IsDigit(s[i]) }

  function Digit(d: nat): (c: char)
    requires d < 10
    ensures IsDigit(c) && DigitVal(c) == d
  {
    '0' + d as char
  }

  function DigitVal(c: char): (d: nat)
    requires IsDigit(c)
    ensures d < 10
  {
    c as int - '0' as int
  }

  function Pow10(n: nat): (p: nat)
    ensures p >= 1
  {
    if n == 0 then 1 else 10 * Pow10(n - 1)
  }

  lemma {:induction false} Pow10Add(a: nat, b: nat)
    ensures Pow10(a + b) == Pow10(a) * Pow10(b)
  {
    if a > 0 {
      Pow10Add(a - 1, b);
      assert Pow10(a + b) == 10 * Pow10(a + b - 1);
      assert 10 * (Pow10(a - 1) * Pow10(b)) == (10 * Pow10(a - 1)) * Pow10(b);
    }
  }

  // ---------------------------------------------------------------- printing

  function ToStr(n: nat): (s: string)
    ensures |s| >= 1 && AllDigits(s)
    ensures s[0] == '0' <==> n == 0
    ensures n == 0 ==> s == "0"
  {
    if n < 10 then [Digit(n)] else ToStr(n / 10) + [Digit(n % 10)]
  }

  function IntToStr(n: int): string {
    if n < 0 then "-" + ToStr(-n) else ToStr(n)
  }

  // ---------------------------------------------------------------- reading

  function DigitsVal(s: string): nat
    requires AllDigits(s)
  {
    if s == "" then 0 else 10 * DigitsVal(s[..|s| - 1]) + DigitVal(s[|s| - 1])
  }

  lemma {:induction false} ToStrVal(n: nat)
    ensures DigitsVal(ToStr(n)) == n
  {
    var s := ToStr(n);
    if n >= 10 {
      ToStrVal(n / 10);
      assert s[..|s| - 1] == ToStr(n / 10);
    } else {
      assert s[..0] == "";
    }
  }

  /** A numeral without leading zeros is the one `ToStr` prints for its value. */
  lemma {:induction false} ValToStr(s: string)
    requires s != "" && AllDigits(s) && (s[0] == '0' ==> |s| == 1)
    ensures ToStr(DigitsVal(s)) == s
    decreases |s|
  {
    var t := s[..|s| - 1];
    if |s| > 1 {
      ValToStr(t);
      assert DigitsVal(t) > 0;
      assert DigitsVal(s) / 10 == DigitsVal(t) && DigitsVal(s) % 10 == DigitVal(s[|s| - 1]);
      assert s == t + [s[|s| - 1]];
    }
  }

  lemma {:induction false} DigitsValConcat(a: string, b: string)
    requires AllDigits(a) && AllDigits(b)
    ensures AllDigits(a + b)
    ensures DigitsVal(a + b) == DigitsVal(a) * Pow10(|b|) + DigitsVal(b)
    decreases |b|
  {
    if b == "" {
      assert a + b == a;
    } else {
      var t, c := b[..|b| - 1], b[|b| - 1];
      DigitsValConcat(a, t);
      LastOfConcat(a, b);
      DigitsValLast(a + b);
      DigitsValLast(b);
      ShiftByTen(DigitsVal(a), Pow10(|t|), DigitsVal(t), DigitVal(c));
    }
  }

  lemma LastOfConcat(a: string, b: string)
    requires b != ""
    ensures (a + b)[..|a + b| - 1] == a + b[..|b| - 1] && (a + b)[|a + b| - 1] == b[|b| - 1]
  {}

  lemma DigitsValLast(s: string)
    requires s != "" && IsDigit(s[|s| - 1]) && AllDigits(s[..|s| - 1])
    ensures AllDigits(s) && DigitsVal(s) == 10 * DigitsVal(s[..|s| - 1]) + DigitVal(s[|s| - 1])
  {
    forall i | 0 <= i < |s| ensures IsDigit(s[i]) {
      if i < |s| - 1 { assert s[..|s| - 1][i] == s[i]; }
    }
  }

  lemma ShiftByTen(x: int, p: int, y: int, d: int)
    ensures 10 * (x * p + y) + d == x * (10 * p) + (10 * y + d)
  {}

  lemma {:induction false} DigitsValBound(s: string)
    requires AllDigits(s)
    ensures DigitsVal(s) < Pow10(|s|)
    ensures s != "" && s[0] != '0' ==> DigitsVal(s) >= Pow10(|s| - 1)
    decreases |s|
  {
    if s != "" {
      DigitsValBound(s[..|s| - 1]);
    }
  }

  function Zeros(n: nat): (z: string)
    ensures |z| == n && AllDigits(z)
    ensures forall i :: 0 <= i < n ==> z[i] == '0'
  {
    seq(n, _ => '0')
  }

  lemma {:induction false} ZerosVal(n: nat)
    ensures DigitsVal(Zeros(n)) == 0
  {
    if n > 0 {
      ZerosVal(n - 1);
      assert Zeros(n)[..n - 1] == Zeros(n - 1);
    }
  }

  // ---------------------------------------------------------------- lexical_cast<int>

  predicate IsSpace(c: char) { c == ' ' || '\t' <= c <= '\r' }

  function SkipSpaces(s: string): string {
    if s != "" && IsSpace(s[0]) then SkipSpaces(s[1..]) else s
  }

  /** The characters before the first NUL, which is all that c_str() hands to strtol. */
  function CStr(s: string): string {
    if s == "" || s[0] == '\0' then "" else [s[0]] + CStr(s[1..])
  }

  /** strtol in base 10, refused unless it consumes the whole string; an empty string reads 0. */
  function CastInt(s: string): Result<int> {
    var c := CStr(s);
    if c == "" then Ok(0)
    else
      var t := SkipSpaces(c);
      var body := if t != "" && t[0] in "+-" then t[1..] else t;
      if body == "" || !AllDigits(body) then Throw(BAD_INT)
      else Ok(if t[0] == '-' then -(DigitsVal(body) as int) else DigitsVal(body))
  }

  lemma {:induction false} CStrWhole(s: string)
    requires forall i :: 0 <= i < |s| ==> s[i] != '\0'
    ensures CStr(s) == s
  {
    if s != "" { CStrWhole(s[1..]); }
  }

  lemma CastDigits(s: string)
    requires s != "" && AllDigits(s)
    ensures CastInt(s) == Ok(DigitsVal(s))
  {
    CStrWhole(s);
  }

  lemma CastMinusDigits(s: string)
    requires s != "" && AllDigits(s)
    ensures CastInt("-" + s) == Ok(0 - DigitsVal(s))
  {
    CStrWhole("-" + s);
    assert ("-" + s)[1..] == s;
  }

  /** Reading what was printed, for every integer. */
  lemma CastPrinted(n: int)
    ensures CastInt(IntToStr(n)) == Ok(n)
  {
    if n < 0 {
      ToStrVal(-n);
      CastMinusDigits(ToStr(-n));
    } else {
      ToStrVal(n);
      CastDigits(ToStr(n));
    }
  }

  /** A second minus sign makes the numeral unreadable. */
  lemma CastDoubleMinus(s: string)
    requires AllDigits(s)
    ensures CastInt("--" + s) == Throw(BAD_INT)
  {
    var t := "--" + s;
    CStrWhole(t);
    assert t[1..] == "-" + s;
    assert t[1..][0] == '-';
  }

  // ---------------------------------------------------------------- which texts are read, and as what

  lemma DigitIs(d: nat)
    requires d < 10
    ensures Digit(d) == "0123456789"[d] && DigitVal("0123456789"[d]) == d
  {}

  lemma {:induction false} CStrCut(c: string, rest: string)
    requires forall i :: 0 <= i < |c| ==> c[i] != '\0'
    ensures CStr(c + ("\0" + rest)) == c
  {
    var s := c + ("\0" + rest);
    if c == "" {
      assert s[0] == '\0';
    } else {
      CStrCut(c[1..], rest);
      assert s[1..] == c[1..] + ("\0" + rest);
    }
  }

  predicate Blank(s: string) { forall i :: 0 <= i < |s| ==> s[i] == ' ' || 9 <= s[i] as int <= 13 }

  lemma {:induction false} SpacesSkipped(blank: string, rest: string)
    requires Blank(blank) && (rest == "" || !(rest[0] == ' ' || 9 <= rest[0] as int <= 13))
    ensures SkipSpaces(blank + rest) == rest
  {
    var s := blank + rest;
    if blank == "" {
      assert s == rest;
    } else {
      SpacesSkipped(blank[1..], rest);
      assert s[1..] == blank[1..] + rest;
    }
  }

  lemma {:induction false} SpacesTaken(s: string) returns (blank: string)
    ensures Blank(blank) && s == blank + SkipSpaces(s)
    ensures var t := SkipSpaces(s); t == "" || !(t[0] == ' ' || 9 <= t[0] as int <= 13)
  {
    if s != "" && IsSpace(s[0]) {
      var rest := SpacesTaken(s[1..]);
      blank := [s[0]] + rest;
    } else {
      blank := "";
    }
  }

  /** A numeral as strtol takes it: blanks, one sign or none, digits. */
  predicate Numeral(s: string, blank: string, sign: string, digits: string, n: int) {
    && s == blank + sign + digits && Blank(blank) && digits != "" && AllDigits(digits)
    && ((sign == "-" && n == 0 - DigitsVal(digits)) || ((sign == "" || sign == "+") && n == DigitsVal(digits)))
  }

  /** The cast reads every numeral as its value, ... */
  lemma CastNumeral(s: string, blank: string, sign: string, digits: string, n: int)
    requires Numeral(s, blank, sign, digits, n)
    ensures CastInt(s) == Ok(n)
  {
    var t := sign + digits;
    assert s == blank + t;
    SignFirst(sign, digits);
    NumeralHasNoNul(s, blank, sign, digits);
    CStrWhole(s);
    SpacesSkipped(blank, t);
  }

  lemma SignFirst(sign: string, digits: string)
    requires digits != "" && AllDigits(digits) && (sign == "" || sign == "+" || sign == "-")
    ensures var t := sign + digits;
      t != "" && !(t[0] == ' ' || 9 <= t[0] as int <= 13) && (t[0] in "+-" <==> sign != "")
      && (sign != "" ==> t[1..] == digits && [t[0]] == sign) && (sign == "" ==> t == digits)
  {
    assert IsDigit(digits[0]);
  }

  lemma NumeralHasNoNul(s: string, blank: string, sign: string, digits: string)
    requires s == blank + sign + digits && Blank(blank) && AllDigits(digits) && (sign == "" || sign == "+" || sign == "-")
    ensures forall i :: 0 <= i < |s| ==> s[i] != '\0'
  {}

  lemma SignTaken(t: string) returns (sign: string, digits: string)
    requires t != ""
    ensures t == sign + digits && sign == (if t[0] in "+-" then [t[0]] else "") && digits == if t[0] in "+-" then t[1..] else t
  {
    if t[0] in "+-" {
      sign, digits := t[..1], t[1..];
    } else {
      sign, digits := "", t;
    }
  }

  lemma CastIsNumeral(s: string) returns (blank: string, sign: string, digits: string)
    requires (forall i :: 0 <= i < |s| ==> s[i] != '\0') && s != "" && CastInt(s).Ok?
    ensures Numeral(s, blank, sign, digits, CastInt(s).value)
  {
    CStrWhole(s);
    blank := SpacesTaken(s);
    sign, digits := SignTaken(SkipSpaces(s));
  }

  /** ... the empty text as 0, and nothing else. */
  lemma CastExactly(s: string, n: int)
    requires forall i :: 0 <= i < |s| ==> s[i] != '\0'
    ensures CastInt(s) == Ok(n) <==> (s == "" && n == 0) || exists blank, sign, digits :: Numeral(s, blank, sign, digits, n)
    ensures CastInt(s).Throw? ==> CastInt(s) == Throw("Conversion exception - string to int")
  {
    if exists blank, sign, digits :: Numeral(s, blank, sign, digits, n) {
      var blank, sign, digits :| Numeral(s, blank, sign, digits, n);
      CastNumeral(s, blank, sign, digits, n);
    }
    if CastInt(s) == Ok(n) && s != "" {
      var blank, sign, digits := CastIsNumeral(s);
    }
  }

  /** What stands behind a NUL is not looked at. */
  lemma CastCut(c: string, rest: string)
    requires forall i :: 0 <= i < |c| ==> c[i] != '\0'
    ensures CastInt(c + ("\0" + rest)) == CastInt(c)
  {
    CStrCut(c, rest);
    CStrWhole(c);
  }
}
