/** CppInterpreter::handleAssignment<int>: a list of tokens rewritten, one operator at a time, by three
    precedence passes until a single token is left. */
module Interpreter {
  import opened Text
  import opened Decimal
  import C = Calendar

  // ---------------------------------------------------------------- tokens

  predicate IsOperator(t: string) { t == "/" || t == "*" || t == "+" || t == "-" }

  /** A numeral, with a minus sign only in front of a number below zero. */
  predicate Literal(t: string) {
    t != "" && (AllDigits(t) || (t[0] == '-' && t[1..] != "" && AllDigits(t[1..]) && DigitsVal(t[1..]) > 0))
  }

  function Value(t: string): int
    requires Literal(t)
  {
    if AllDigits(t) then DigitsVal(t) else 0 - DigitsVal(t[1..])
  }

  /** operand (operator operand)* */
  predicate WellFormed(opr: seq<string>) {
    opr != [] && Literal(opr[0])
    && (|opr| > 1 ==> |opr| > 2 && IsOperator(opr[1]) && WellFormed(opr[2..]))
  }

  lemma LiteralCasts(t: string)
    requires Literal(t)
    ensures CastInt(t) == Ok(Value(t))
    ensures CastInt("-" + t) == if Value(t) >= 0 then Ok(0 - Value(t)) else Throw(BAD_INT)
    ensures !IsOperator(t)
  {
    NotAnOperator(t);
    if AllDigits(t) {
      DigitsLiteralCasts(t);
      NegatedLiteralCasts(t);
    } else {
      MinusLiteralCasts(t, t[1..]);
    }
  }

  lemma NotAnOperator(t: string)
    requires Literal(t)
    ensures !IsOperator(t)
  {
    if AllDigits(t) { assert IsDigit(t[0]); }
  }

  lemma DigitsLiteralCasts(t: string)
    requires Literal(t) && AllDigits(t)
    ensures CastInt(t) == Ok(Value(t)) && Value(t) >= 0
  {
    CastDigits(t);
  }

  lemma NegatedLiteralCasts(t: string)
    requires Literal(t) && AllDigits(t)
    ensures CastInt("-" + t) == Ok(0 - Value(t))
  {
    CastMinusDigits(t);
  }

  lemma MinusLiteralCasts(t: string, digits: string)
    requires Literal(t) && !AllDigits(t) && digits == t[1..]
    ensures CastInt(t) == Ok(Value(t)) && Value(t) < 0
    ensures CastInt("-" + t) == Throw(BAD_INT)
  {
    assert t == "-" + digits;
    assert "-" + t == "--" + digits;
    CastMinusDigits(digits);
    CastDoubleMinus(digits);
  }

  lemma PrintedIsLiteral(n: int)
    ensures Literal(IntToStr(n)) && Value(IntToStr(n)) == n
  {
    if n < 0 { MinusIsLiteral(IntToStr(n), ToStr(-n), -n); } else { ToStrVal(n); }
  }

  lemma MinusIsLiteral(t: string, digits: string, k: nat)
    requires t == "-" + digits && digits == ToStr(k) && k > 0
    ensures Literal(t) && Value(t) == 0 - k
  {
    assert t[1..] == digits && t[0] == '-';
    ToStrVal(k);
  }

  /** C++ division of ints: truncation toward zero. */
  function TruncDiv(a: int, b: int): int {
    if b == 0 then 0 else if b > 0 then C.Quot(a, b) else C.Quot(-a, -b)
  }

  /** The quotient rounded toward zero: the remainder is smaller than the divisor and not of the other
      sign than the dividend. */
  predicate IsQuotient(a: int, b: int, q: int) { IsRemainder(a, b, a - b * q) }

  predicate IsRemainder(a: int, b: int, r: int) {
    (if r < 0 then -r else r) < (if b < 0 then -b else b) && (r == 0 || (r < 0 && a < 0) || (r > 0 && a > 0))
  }

  /** Two numbers whose multiples by `b` differ by less than `b` are the same. */
  lemma SameMultiple(b: int, p: int, q: int)
    requires b > 0 && -b < b * p - b * q < b
    ensures p == q
  {
    if p > q { AtLeastOnce(b, p - q); } else if q > p { AtLeastOnce(b, q - p); }
  }

  lemma AtLeastOnce(b: int, d: int)
    requires b > 0 && d >= 1
    ensures b * d >= b
  {}

  lemma QuotientUnique(a: int, b: int, p: int, q: int)
    requires b != 0 && IsQuotient(a, b, p) && IsQuotient(a, b, q)
    ensures p == q
  {
    if b > 0 { SameMultiple(b, p, q); } else { SameMultiple(-b, p, q); }
  }

  lemma QuotIsQuotient(a: int, b: int)
    requires b > 0
    ensures IsQuotient(a, b, C.Quot(a, b))
  {
    var k, m := Divided(if a < 0 then -a else a, b);
    SignedQuotient(a, b, k, m, C.Quot(a, b));
  }

  lemma Divided(n: nat, b: int) returns (k: nat, m: nat)
    requires b > 0
    ensures k == n / b && n == b * k + m && m < b && m <= n
  {
    k, m := n / b, n % b;
    ProductNonNegative(b, k);
  }

  lemma ProductNonNegative(b: nat, k: nat)
    ensures b * k >= 0
  {}

  lemma SignedQuotient(a: int, b: int, k: int, m: int, q: int)
    requires 0 <= m < b && q == (if a < 0 then -k else k)
    requires (if a < 0 then -a else a) == b * k + m && m <= (if a < 0 then -a else a)
    ensures IsQuotient(a, b, q)
  {
    NegatedProduct(k, b);
  }

  lemma QuotientFlips(a: int, b: int, q: int)
    requires IsQuotient(-a, -b, q)
    ensures IsQuotient(a, b, q)
  {
    NegatedProduct(b, q);
    RemainderFlips(a, b, a - b * q);
  }

  lemma NegatedProduct(b: int, q: int)
    ensures (-b) * q == -(b * q)
  {}

  lemma RemainderFlips(a: int, b: int, r: int)
    requires IsRemainder(-a, -b, -r)
    ensures IsRemainder(a, b, r)
  {}

  lemma TruncDivIs(a: int, b: int)
    requires b != 0
    ensures IsQuotient(a, b, TruncDiv(a, b))
  {
    if b > 0 {
      QuotIsQuotient(a, b);
    } else {
      QuotIsQuotient(-a, -b);
      QuotientFlips(a, b, TruncDiv(a, b));
    }
  }

  /** The division of the code yields the quotient rounded toward zero and no other number. */
  lemma TruncDivExactly(a: int, b: int, q: int)
    requires b != 0
    ensures TruncDiv(a, b) == q <==> IsQuotient(a, b, q)
  {
    TruncDivIs(a, b);
    if IsQuotient(a, b, q) { QuotientUnique(a, b, q, TruncDiv(a, b)); }
  }

  /** The one quotient, for the reading of an expression; 0 stands where there is none. */
  ghost function Quotient(a: int, b: int): (q: int)
    ensures b != 0 ==> IsQuotient(a, b, q)
  {
    if b == 0 then 0
    else
      TruncDivIs(a, b);
      var q :| IsQuotient(a, b, q);
      q
  }

  // ---------------------------------------------------------------- what an expression means

  /** One left-to-right reading with three levels: `quot` collects a chain of divisions, `prod` the
      finished factors of a product, `sum` the finished terms. `ok` falls when a term below zero is
      to be subtracted. */
  datatype Reading = Reading(sum: int, minus: bool, prod: int, quot: int, ok: bool) {
    function Term(): int { prod * quot }
    function Total(): int { if minus then sum - Term() else sum + Term() }
    predicate Fine() { ok && (minus ==> Term() >= 0) }
  }

  ghost function Read(st: Reading, op: string, v: int): Reading {
    if op == "/" then st.(quot := Quotient(st.quot, v))
    else if op == "*" then st.(prod := st.prod * st.quot, quot := v)
    else Reading(st.Total(), op == "-", 1, v, st.Fine())
  }

  function Second(opr: seq<string>): (s: string)
    requires WellFormed(opr) && |opr| > 1
    ensures s == opr[2] && Literal(s)
  {
    assert WellFormed(opr[2..]);
    opr[2..][0]
  }

  /** Reads an expression that stands behind the operator `op`. */
  ghost function ReadAll(st: Reading, op: string, opr: seq<string>): Reading
    requires WellFormed(opr)
    decreases |opr|
  {
    var next := Read(st, op, Value(opr[0]));
    if |opr| == 1 then next else ReadAll(next, opr[1], opr[2..])
  }

  const START := Reading(0, false, 0, 0, true)

  /** The reading of a whole expression: its first operand counts as added. */
  ghost function Meaning(opr: seq<string>): Reading
    requires WellFormed(opr)
  {
    ReadAll(START, "+", opr)
  }

  /** The value of an expression under the code's own precedence: `/` binds tighter than `*`, which
      binds tighter than `+` and `-`; all of them group to the left. */
  ghost function ValueOf(opr: seq<string>): int
    requires WellFormed(opr)
  {
    Meaning(opr).Total()
  }

  /** No term below zero is subtracted. */
  ghost predicate Subtractable(opr: seq<string>)
    requires WellFormed(opr)
  {
    Meaning(opr).Fine()
  }

  predicate ZeroDivisor(opr: seq<string>)
    requires WellFormed(opr)
  {
    |opr| > 1 && ((opr[1] == "/" && Value(Second(opr)) == 0) || ZeroDivisor(opr[2..]))
  }

  // ---------------------------------------------------------------- the passes

  datatype Level = Division | Multiplication | Addition

  predicate Of(level: Level, t: string) {
    match level
    case Division => t == "/"
    case Multiplication => t == "*"
    case Addition => t == "+" || t == "-"
  }

  const SIGFPE := "integer division by zero"

  /** What an operator makes of two numbers; a minus sign has gone into the second one. */
  function Applied(op: string, a: int, b: int): Result<string> {
    if op == "/" then (if b == 0 then Throw(SIGFPE) else Ok(IntToStr(TruncDiv(a, b))))
    else if op == "*" then Ok(IntToStr(a * b))
    else Ok(IntToStr(a + b))
  }

  /** The token that replaces `l op r`. A subtraction adds the cast of the operand with a minus put
      in front of it. */
  function Compute(op: string, l: string, r: string): Result<string> {
    var a :- CastInt(l);
    var b :- CastInt(if op == "-" then "-" + r else r);
    Applied(op, a, b)
  }

  function FirstOf(opr: seq<string>, level: Level): (i: nat)
    ensures i <= |opr|
    ensures i < |opr| ==> Of(level, opr[i])
    ensures forall j :: 0 <= j < i ==> !Of(level, opr[j])
  {
    if opr == [] then 0
    else if Of(level, opr[0]) then 0
    else
      var i := FirstOf(opr[1..], level);
      assert forall j :: 0 < j < i + 1 ==> opr[j] == opr[1..][j - 1];
      i + 1
  }

  function Rewritten(opr: seq<string>, i: nat, f: string): seq<string>
    requires 0 < i < |opr| - 1
  {
    opr[..i - 1] + [f] + opr[i + 2..]
  }

  /** The token for the leftmost operator of the level and its operands. */
  function Replacement(opr: seq<string>, level: Level): (f: Result<string>)
    ensures f.Ok? ==> 0 < FirstOf(opr, level) < |opr| - 1
  {
    var i := FirstOf(opr, level);
    if 0 < i < |opr| - 1 then Compute(opr[i], opr[i - 1], opr[i + 1]) else Throw(OUT_OF_RANGE)
  }

  /** One precedence pass: rewrite at the leftmost operator of the level until there is none. */
  function PassAll(opr: seq<string>, level: Level): Result<seq<string>>
    decreases |opr|
  {
    var i := FirstOf(opr, level);
    if i == |opr| then Ok(opr)
    else
      var f :- Replacement(opr, level);
      PassAll(Rewritten(opr, i, f), level)
  }

  function Reduced(opr: seq<string>): Result<string>
    requires WellFormed(opr)
  {
    var o1 :- PassAll(opr, Division);
    var o2 :- PassAll(o1, Multiplication);
    var o3 :- PassAll(o2, Addition);
    if o3 == [] then Throw(OUT_OF_RANGE) else Ok(o3[0])
  }

  method PushRange(temp: seq<string>, opr: seq<string>, lo: nat, hi: nat) returns (r: seq<string>)
    requires lo <= hi <= |opr|
    ensures r == temp + opr[lo..hi]
  {
    r := temp;
    for k := lo to hi
      invariant r == temp + opr[lo..k]
    {
      r := r + [opr[k]];
    }
  }

  /** The three loops that build `temp` around a rewritten operator. */
  method Splice(opr: seq<string>, i: nat, f: string) returns (temp: seq<string>)
    requires 0 < i < |opr| - 1
    ensures temp == Rewritten(opr, i, f)
  {
    temp := PushRange([], opr, 0, i - 1);
    temp := temp + [f];
    temp := PushRange(temp, opr, i + 2, |opr|);
    assert opr[0..i - 1] == opr[..i - 1] && opr[i + 2..|opr|] == opr[i + 2..];
  }

  /** The inner `for` of a pass: builds `temp` at the first operator found and ignores the rest. */
  method Scan(opr: seq<string>, level: Level) returns (r: Result<bool>, temp: seq<string>)
    ensures var f := Replacement(opr, level);
      if FirstOf(opr, level) == |opr| then r == Ok(false)
      else if f.Throw? then r == Throw(f.message)
      else r == Ok(true) && 0 < FirstOf(opr, level) < |opr| - 1 && temp == Rewritten(opr, FirstOf(opr, level), f.value)
  {
    var continu := false;
    temp := [];
    ghost var first, f0 := FirstOf(opr, level), Replacement(opr, level);
    for i := 0 to |opr|
      invariant continu <==> first < i
      invariant continu ==> 0 < first < |opr| - 1 && f0.Ok? && temp == Rewritten(opr, first, f0.value)
      invariant !continu ==> temp == []
    {
      if Of(level, opr[i]) && !continu {
        if i == 0 || i + 1 == |opr| { return Throw(OUT_OF_RANGE), []; }
        var f := Compute(opr[i], opr[i - 1], opr[i + 1]);
        assert i == first && f == f0;
        if f.Throw? { return Throw(f.message), []; }
        temp := Splice(opr, i, f.value);
        continu := true;
      }
    }
    r := Ok(continu);
  }

  /** One `while(1)` of handleAssignment. */
  method Pass(tokens: seq<string>, level: Level) returns (r: Result<seq<string>>)
    ensures r == PassAll(tokens, level)
  {
    var opr := tokens;
    while true
      invariant PassAll(opr, level) == PassAll(tokens, level)
      decreases |opr|
    {
      var scanned, temp := Scan(opr, level);
      var continu :- scanned;
      if !continu { break; }
      opr := temp;
    }
    return Ok(opr);
  }

  // ---------------------------------------------------------------- one rewrite

  /** No operator of the level is left. */
  predicate Lacks(opr: seq<string>, level: Level)
    requires WellFormed(opr)
  {
    |opr| > 1 ==> !Of(level, opr[1]) && Lacks(opr[2..], level)
  }

  /** On an expression the search moves from operator to operator. */
  lemma FirstOfSteps(opr: seq<string>, level: Level)
    requires WellFormed(opr)
    ensures FirstOf(opr, level) == if |opr| == 1 then 1 else if Of(level, opr[1]) then 1 else 2 + FirstOf(opr[2..], level)
  {
    NotAnOperator(opr[0]);
    if |opr| > 1 { assert opr[1..][0] == opr[1] && opr[1..][1..] == opr[2..]; }
  }

  lemma {:induction false} FirstOfLacks(opr: seq<string>, level: Level)
    requires WellFormed(opr)
    ensures var i := FirstOf(opr, level);
      (i == |opr| <==> Lacks(opr, level)) && (i < |opr| ==> 0 < i < |opr| - 1 && Literal(opr[i - 1]) && Literal(opr[i + 1]))
    decreases |opr|
  {
    FirstOfSteps(opr, level);
    if |opr| > 1 { FirstOfLacks(opr[2..], level); }
  }

  lemma RewrittenSteps(opr: seq<string>, i: nat, f: string)
    requires 0 < i < |opr| - 1
    ensures i == 1 ==> Rewritten(opr, i, f) == [f] + opr[3..]
    ensures i >= 3 ==> var r := Rewritten(opr, i, f);
      r[0] == opr[0] && r[1] == opr[1] && r[2..] == Rewritten(opr[2..], i - 2, f)
  {}

  lemma RewriteFirst(opr: seq<string>, f: string)
    requires WellFormed(opr) && |opr| > 1 && Literal(f)
    ensures var r := Rewritten(opr, 1, f);
      && WellFormed(r) && |r| == |opr| - 2 && r[0] == f
      && (|opr| > 3 ==> r[1] == opr[3] && r[2..] == opr[4..])
  {
    RewrittenSteps(opr, 1, f);
    var r, rest := Rewritten(opr, 1, f), opr[2..];
    if |opr| > 3 {
      assert rest[1] == opr[3] && rest[2..] == opr[4..];
      assert r[1] == opr[3] && r[2..] == opr[4..];
      assert WellFormed(rest);
    }
  }

  /** Leftmost division: the rewritten expression has the very same reading. */
  lemma {:induction false} DivisionRewrite(st: Reading, op: string, opr: seq<string>, i: nat, f: string)
    requires WellFormed(opr) && op != "/" && i == FirstOf(opr, Division) < |opr| - 1 && i > 0
    requires Literal(opr[i - 1]) && Literal(opr[i + 1]) && Literal(f)
    requires Value(opr[i + 1]) != 0 && IsQuotient(Value(opr[i - 1]), Value(opr[i + 1]), Value(f))
    ensures var r := Rewritten(opr, i, f);
      WellFormed(r) && ReadAll(st, op, r) == ReadAll(st, op, opr) && (ZeroDivisor(r) <==> ZeroDivisor(opr))
    decreases |opr|
  {
    FirstOfSteps(opr, Division);
    RewrittenSteps(opr, i, f);
    if i == 1 {
      RewriteFirst(opr, f);
      assert opr[2..][0] == opr[2];
      QuotientUnique(Value(opr[0]), Value(opr[2]), Value(f), Quotient(Value(opr[0]), Value(opr[2])));
      if |opr| > 3 { assert opr[2..][1] == opr[3] && opr[2..][2..] == opr[4..]; }
    } else {
      DivisionRewrite(Read(st, op, Value(opr[0])), opr[1], opr[2..], i - 2, f);
    }
  }

  predicate SameProduct(a: Reading, b: Reading) {
    a.sum == b.sum && a.minus == b.minus && a.ok == b.ok && a.Term() == b.Term()
  }

  predicate SameTotal(a: Reading, b: Reading) { a.Total() == b.Total() && a.Fine() == b.Fine() }

  /** What an expression comes to depends only on the product before it, or, when it starts with an
      addition, only on the total before it. */
  lemma ProductDecides(a: Reading, b: Reading, op: string, opr: seq<string>)
    requires WellFormed(opr) && op != "/" && SameProduct(a, b)
    ensures SameTotal(ReadAll(a, op, opr), ReadAll(b, op, opr))
  {
    assert Read(a, op, Value(opr[0])) == Read(b, op, Value(opr[0]));
  }

  lemma TotalDecides(a: Reading, b: Reading, op: string, opr: seq<string>)
    requires WellFormed(opr) && Of(Addition, op) && SameTotal(a, b)
    ensures SameTotal(ReadAll(a, op, opr), ReadAll(b, op, opr))
  {
    assert Read(a, op, Value(opr[0])) == Read(b, op, Value(opr[0]));
  }

  /** The rest of an expression behind its first two operands. */
  lemma AfterFirst(st: Reading, op: string, opr: seq<string>, f: string)
    requires WellFormed(opr) && |opr| > 1 && Literal(f) && WellFormed(Rewritten(opr, 1, f))
    ensures var before := Read(Read(st, op, Value(opr[0])), opr[1], Value(Second(opr))); var after := Read(st, op, Value(f));
      && (|opr| == 3 ==> ReadAll(st, op, opr) == before && ReadAll(st, op, Rewritten(opr, 1, f)) == after)
      && (|opr| > 3 ==>
            && |opr| > 4 && WellFormed(opr[4..]) && IsOperator(opr[3])
            && ReadAll(st, op, opr) == ReadAll(before, opr[3], opr[4..])
            && ReadAll(st, op, Rewritten(opr, 1, f)) == ReadAll(after, opr[3], opr[4..]))
  {
    RewriteFirst(opr, f);
    var rest := opr[2..];
    assert WellFormed(rest);
    if |opr| > 3 { assert rest[1] == opr[3] && rest[2..] == opr[4..]; }
  }

  /** Leftmost multiplication, divisions done: the same value, and subtractable or not as before. */
  lemma {:induction false} MultiplicationRewrite(st: Reading, op: string, opr: seq<string>, i: nat, f: string)
    requires WellFormed(opr) && Of(Addition, op) && Lacks(opr, Division) && i == FirstOf(opr, Multiplication) < |opr| - 1 && i > 0
    requires Literal(opr[i - 1]) && Literal(opr[i + 1]) && Literal(f) && Value(f) == Value(opr[i - 1]) * Value(opr[i + 1])
    ensures var r := Rewritten(opr, i, f);
      WellFormed(r) && Lacks(r, Division) && SameTotal(ReadAll(st, op, r), ReadAll(st, op, opr))
    decreases |opr|
  {
    FirstOfSteps(opr, Multiplication);
    RewrittenSteps(opr, i, f);
    var r := Rewritten(opr, i, f);
    if i == 1 {
      RewriteFirst(opr, f);
      AfterFirst(st, op, opr, f);
      var before, after := Read(Read(st, op, Value(opr[0])), "*", Value(Second(opr))), Read(st, op, Value(f));
      assert SameProduct(before, after);
      if |opr| > 3 {
        LacksTail(opr, Division);
        ProductDecides(before, after, opr[3], opr[4..]);
      }
    } else {
      MultiplicationRewrite(Read(st, op, Value(opr[0])), opr[1], opr[2..], i - 2, f);
    }
  }

  lemma LacksTail(opr: seq<string>, level: Level)
    requires WellFormed(opr) && |opr| > 3 && Lacks(opr, level)
    ensures !Of(level, opr[3]) && WellFormed(opr[4..]) && Lacks(opr[4..], level)
  {
    var rest := opr[2..];
    assert WellFormed(rest) && Lacks(rest, level);
    assert rest[1] == opr[3] && rest[2..] == opr[4..];
  }

  // ---------------------------------------------------------------- the passes on expressions

  /** What one operator computes from two literals. */
  function Outcome(op: string, a: int, b: int): Result<string> {
    if op != "-" then Applied(op, a, b) else if b < 0 then Throw(BAD_INT) else Applied(op, a, 0 - b)
  }

  lemma ComputeIs(op: string, x: string, y: string)
    requires Literal(x) && Literal(y) && IsOperator(op)
    ensures Compute(op, x, y) == Outcome(op, Value(x), Value(y))
  {
    LiteralCasts(x);
    LiteralCasts(y);
  }

  lemma PassStep(opr: seq<string>, level: Level, i: nat)
    requires i == FirstOf(opr, level) && 0 < i < |opr| - 1 && Literal(opr[i - 1]) && Literal(opr[i + 1]) && IsOperator(opr[i])
    ensures var o := Outcome(opr[i], Value(opr[i - 1]), Value(opr[i + 1]));
      PassAll(opr, level) == if o.Ok? then PassAll(Rewritten(opr, i, o.value), level) else Throw(o.message)
  {
    ComputeIs(opr[i], opr[i - 1], opr[i + 1]);
  }

  /** The division pass ends without divisions and with the same reading, unless some divisor is zero. */
  lemma {:induction false} DivisionPass(opr: seq<string>)
    requires WellFormed(opr)
    ensures match PassAll(opr, Division)
      case Throw(e) => ZeroDivisor(opr) && e == SIGFPE
      case Ok(o) => !ZeroDivisor(opr) && WellFormed(o) && Lacks(o, Division) && Meaning(o) == Meaning(opr)
                    && (|opr| > 1 && |o| == 1 ==> o == [IntToStr(Value(o[0]))])
    decreases |opr|
  {
    var i := FirstOf(opr, Division);
    FirstOfLacks(opr, Division);
    if i == |opr| {
      NoDivisionNoZero(opr);
    } else {
      var x, y := opr[i - 1], opr[i + 1];
      PassStep(opr, Division, i);
      if Value(y) == 0 {
        ZeroFound(opr, i);
      } else {
        var v := TruncDiv(Value(x), Value(y));
        PrintedIsLiteral(v);
        TruncDivIs(Value(x), Value(y));
        DivisionRewrite(START, "+", opr, i, IntToStr(v));
        DivisionPass(Rewritten(opr, i, IntToStr(v)));
        SinglePass(opr, i, v, Division);
      }
    }
  }

  lemma {:induction false} NoDivisionNoZero(opr: seq<string>)
    requires WellFormed(opr) && Lacks(opr, Division)
    ensures !ZeroDivisor(opr)
    decreases |opr|
  {
    if |opr| > 1 { NoDivisionNoZero(opr[2..]); }
  }

  lemma {:induction false} ZeroFound(opr: seq<string>, i: nat)
    requires WellFormed(opr) && i == FirstOf(opr, Division) < |opr| - 1 && Literal(opr[i + 1]) && Value(opr[i + 1]) == 0
    ensures ZeroDivisor(opr)
    decreases |opr|
  {
    FirstOfSteps(opr, Division);
    if i != 1 { ZeroFound(opr[2..], i - 2); }
  }

  /** The multiplication pass always succeeds and keeps the value. */
  lemma {:induction false} MultiplicationPass(opr: seq<string>)
    requires WellFormed(opr) && Lacks(opr, Division)
    ensures var r := PassAll(opr, Multiplication);
      && r.Ok? && WellFormed(r.value) && Lacks(r.value, Division) && Lacks(r.value, Multiplication)
      && SameTotal(Meaning(r.value), Meaning(opr))
      && (|opr| > 1 && |r.value| == 1 ==> r.value == [IntToStr(Value(r.value[0]))])
    decreases |opr|
  {
    var i := FirstOf(opr, Multiplication);
    FirstOfLacks(opr, Multiplication);
    if i < |opr| {
      var x, y := opr[i - 1], opr[i + 1];
      PassStep(opr, Multiplication, i);
      var v := Value(x) * Value(y);
      PrintedIsLiteral(v);
      MultiplicationRewrite(START, "+", opr, i, IntToStr(v));
      MultiplicationPass(Rewritten(opr, i, IntToStr(v)));
      SinglePass(opr, i, v, Multiplication);
    }
  }

  /** A rewrite down to one token leaves a printed number, which no further pass touches. */
  lemma SinglePass(opr: seq<string>, i: nat, v: int, level: Level)
    requires 0 < i < |opr| - 1
    ensures var r := Rewritten(opr, i, IntToStr(v));
      |r| == 1 ==> r == [IntToStr(v)] && Literal(r[0]) && Value(r[0]) == v && PassAll(r, level) == Ok(r)
  {
    PrintedIsLiteral(v);
    FirstOfSteps([IntToStr(v)], level);
  }

  /** Once a term below zero has been subtracted nothing makes up for it. */
  lemma {:induction false} NotFineStays(a: Reading, op: string, opr: seq<string>)
    requires WellFormed(opr) && Of(Addition, op) && Lacks(opr, Division) && Lacks(opr, Multiplication) && !a.Fine()
    ensures !ReadAll(a, op, opr).Fine()
    decreases |opr|
  {
    if |opr| > 1 { NotFineStays(Read(a, op, Value(opr[0])), opr[1], opr[2..]); }
  }

  /** The last pass adds up from the left, and stumbles exactly over a term below zero that is to be
      subtracted. */
  lemma {:induction false} AdditionPass(opr: seq<string>)
    requires WellFormed(opr) && Lacks(opr, Division) && Lacks(opr, Multiplication)
    ensures PassAll(opr, Addition)
         == if !Subtractable(opr) then Throw(BAD_INT)
            else if |opr| == 1 then Ok(opr)
            else Ok([IntToStr(ValueOf(opr))])
    decreases |opr|
  {
    if |opr| == 1 {
      FirstOfSteps(opr, Addition);
      SingleMeaning(opr);
    } else if opr[1] == "-" && Value(Second(opr)) < 0 {
      AdditionStumbles(opr);
      SubtractsNegative(opr);
    } else {
      var x, y := Value(opr[0]), Value(Second(opr));
      var v := if opr[1] == "-" then x - y else x + y;
      AdditionGoesOn(opr, v);
      AdditionStep(opr, v);
      AdditionPass(Rewritten(opr, 1, IntToStr(v)));
    }
  }

  /** The last pass works on the first operator. */
  lemma AdditionAtFirst(opr: seq<string>)
    requires WellFormed(opr) && Lacks(opr, Division) && Lacks(opr, Multiplication) && |opr| > 1
    ensures var o := Outcome(opr[1], Value(opr[0]), Value(Second(opr)));
      PassAll(opr, Addition) == if o.Ok? then PassAll(Rewritten(opr, 1, o.value), Addition) else Throw(o.message)
  {
    FirstAddition(opr);
    PassStep(opr, Addition, 1);
  }

  lemma FirstAddition(opr: seq<string>)
    requires WellFormed(opr) && Lacks(opr, Division) && Lacks(opr, Multiplication) && |opr| > 1
    ensures |opr| >= 3 && Literal(opr[0]) && Literal(opr[2]) && IsOperator(opr[1]) && FirstOf(opr, Addition) == 1
  {
    var s := Second(opr);
    FirstOfSteps(opr, Addition);
  }

  lemma AdditionStumbles(opr: seq<string>)
    requires WellFormed(opr) && Lacks(opr, Division) && Lacks(opr, Multiplication) && |opr| > 1
    requires opr[1] == "-" && Value(Second(opr)) < 0
    ensures PassAll(opr, Addition) == Throw(BAD_INT)
  {
    AdditionAtFirst(opr);
  }

  lemma AdditionGoesOn(opr: seq<string>, v: int)
    requires WellFormed(opr) && Lacks(opr, Division) && Lacks(opr, Multiplication) && |opr| > 1
    requires var x, y := Value(opr[0]), Value(Second(opr));
      (opr[1] == "-" && y >= 0 && v == x - y) || (opr[1] == "+" && v == x + y)
    ensures PassAll(opr, Addition) == PassAll(Rewritten(opr, 1, IntToStr(v)), Addition)
  {
    OutcomeOfAddition(opr[1], Value(opr[0]), Value(Second(opr)), v);
    AdditionAtFirst(opr);
  }

  lemma OutcomeOfAddition(op: string, x: int, y: int, v: int)
    requires (op == "-" && y >= 0 && v == x - y) || (op == "+" && v == x + y)
    ensures Outcome(op, x, y) == Ok(IntToStr(v))
  {
    assert op == "-" ==> x + (0 - y) == v;
  }

  lemma SubtractsNegative(opr: seq<string>)
    requires WellFormed(opr) && Lacks(opr, Division) && Lacks(opr, Multiplication) && |opr| > 1
    requires opr[1] == "-" && Value(Second(opr)) < 0
    ensures !Subtractable(opr)
  {
    var first := Read(START, "+", Value(opr[0]));
    var st := Read(first, "-", Value(Second(opr)));
    assert st.Term() == Value(Second(opr)) && !st.Fine();
    var rest := opr[2..];
    assert WellFormed(rest) && Meaning(opr) == ReadAll(first, "-", rest);
    if |opr| > 3 {
      LacksTail(opr, Division);
      LacksTail(opr, Multiplication);
      AdditionOnly(opr);
      assert WellFormed(rest) && rest[1] == opr[3] && rest[2..] == opr[4..];
      NotFineStays(st, opr[3], opr[4..]);
    }
  }

  lemma AdditionStep(opr: seq<string>, v: int)
    requires WellFormed(opr) && Lacks(opr, Division) && Lacks(opr, Multiplication) && |opr| > 1
    requires var x, y := Value(opr[0]), Value(Second(opr));
      (opr[1] == "-" && y >= 0 && v == x - y) || (opr[1] == "+" && v == x + y)
    ensures var r := Rewritten(opr, 1, IntToStr(v));
      && WellFormed(r) && Lacks(r, Division) && Lacks(r, Multiplication) && |r| == |opr| - 2
      && ValueOf(r) == ValueOf(opr) && (Subtractable(r) <==> Subtractable(opr))
      && (|opr| == 3 ==> ValueOf(opr) == v && r == [IntToStr(v)])
  {
    var f := IntToStr(v);
    PrintedIsLiteral(v);
    RewriteFirst(opr, f);
    AfterFirst(START, "+", opr, f);
    var before, after := Read(Read(START, "+", Value(opr[0])), opr[1], Value(Second(opr))), Read(START, "+", v);
    FirstSum(Value(opr[0]), opr[1], Value(Second(opr)), v);
    if |opr| > 3 {
      LacksTail(opr, Division);
      LacksTail(opr, Multiplication);
      AdditionOnly(opr);
      TotalDecides(before, after, opr[3], opr[4..]);
    }
  }

  lemma FirstSum(x: int, op: string, y: int, v: int)
    requires (op == "-" && y >= 0 && v == x - y) || (op == "+" && v == x + y)
    ensures SameTotal(Read(Read(START, "+", x), op, y), Read(START, "+", v))
    ensures Read(START, "+", v) == Reading(0, false, 1, v, true)
    ensures Read(Read(START, "+", x), op, y).Total() == v
  {
    assert Read(START, "+", x) == Reading(0, false, 1, x, true);
  }

  lemma AdditionOnly(opr: seq<string>)
    requires WellFormed(opr) && |opr| > 3 && Lacks(opr, Division) && Lacks(opr, Multiplication)
    ensures Of(Addition, opr[3])
  {
    LacksTail(opr, Division);
    LacksTail(opr, Multiplication);
    var rest := opr[2..];
    assert WellFormed(rest) && rest[1] == opr[3];
  }

  lemma SingleMeaning(opr: seq<string>)
    requires WellFormed(opr) && |opr| == 1
    ensures Meaning(opr) == Reading(0, false, 1, Value(opr[0]), true) && ValueOf(opr) == Value(opr[0]) && Subtractable(opr)
  {}

  // ---------------------------------------------------------------- expressions without signs

  predicate NonNegative(opr: seq<string>)
    requires WellFormed(opr)
  {
    Value(opr[0]) >= 0 && (|opr| > 1 ==> NonNegative(opr[2..]))
  }

  lemma ScaledNegative(b: int, q: int)
    requires b > 0
    ensures q <= -1 ==> b * q <= 0 - b
  {}

  lemma NonNegativeOps(a: int, b: int)
    requires a >= 0 && b >= 0
    ensures a * b >= 0 && Quotient(a, b) >= 0
  {
    if b > 0 { ScaledNegative(b, Quotient(a, b)); }
  }

  /** With literals from zero up, every term stays at or above zero: only the running total, which is
      always the first operand of the last pass, can become negative. */
  lemma {:induction false} NonNegativeReads(st: Reading, op: string, opr: seq<string>)
    requires WellFormed(opr) && NonNegative(opr) && st.ok && st.prod >= 0 && st.quot >= 0
    ensures var r := ReadAll(st, op, opr); r.ok && r.prod >= 0 && r.quot >= 0 && r.Fine()
    decreases |opr|
  {
    NonNegativeOps(st.prod, st.quot);
    NonNegativeOps(st.quot, Value(opr[0]));
    var next := Read(st, op, Value(opr[0]));
    NonNegativeOps(next.prod, next.quot);
    if |opr| > 1 { NonNegativeReads(next, opr[1], opr[2..]); }
  }

  lemma NonNegativeSubtracts(opr: seq<string>)
    requires WellFormed(opr) && NonNegative(opr)
    ensures Subtractable(opr)
  {
    NonNegativeReads(START, "+", opr);
  }

  // ---------------------------------------------------------------- the whole reduction

  /** On every well-formed expression the reduction ends, and it yields the value of the expression;
      or a divisor is zero; or, and only then, a term below zero is to be subtracted and the cast of
      the operand with a second minus sign fails. */
  lemma ReducedIsValue(opr: seq<string>)
    requires WellFormed(opr)
    ensures Reduced(opr)
         == if ZeroDivisor(opr) then Throw(SIGFPE)
            else if !Subtractable(opr) then Throw(BAD_INT)
            else if |opr| == 1 then Ok(opr[0])
            else Ok(IntToStr(ValueOf(opr)))
  {
    DivisionPass(opr);
    if !ZeroDivisor(opr) {
      var o1 := PassAll(opr, Division).value;
      MultiplicationPass(o1);
      var o2 := PassAll(o1, Multiplication).value;
      AdditionPass(o2);
      if |opr| > 1 && |o2| == 1 {
        SingleMeaning(o2);
        if |o1| == 1 { FirstOfSteps(o1, Multiplication); }
      }
    }
  }

  lemma OneReading(a: int, b: int)
    ensures var st := Reading(0, false, 1, a, true);
      && Read(st, "*", b).Fine() && Read(st, "*", b).Total() == a * b
      && Read(st, "+", b).Fine() && Read(st, "+", b).Total() == a + b
      && (Read(st, "-", b).Fine() <==> b >= 0) && Read(st, "-", b).Total() == a - b
  {}

  /** One operator between two literals: the product and the sum, always. */
  lemma ProductExactly(l: string, r: string, q: int)
    requires Literal(l) && Literal(r)
    ensures Reduced([l, "*", r]) == Ok(IntToStr(q)) <==> q == Value(l) * Value(r)
  {
    ThreeTokens(l, "*", r);
    OneReading(Value(l), Value(r));
    PrintedApart(q, Value(l) * Value(r));
  }

  lemma SumExactly(l: string, r: string, q: int)
    requires Literal(l) && Literal(r)
    ensures Reduced([l, "+", r]) == Ok(IntToStr(q)) <==> q == Value(l) + Value(r)
  {
    ThreeTokens(l, "+", r);
    OneReading(Value(l), Value(r));
    PrintedApart(q, Value(l) + Value(r));
  }

  /** The difference, unless the second literal is below zero. */
  lemma DifferenceExactly(l: string, r: string, q: int)
    requires Literal(l) && Literal(r)
    ensures Reduced([l, "-", r]) == Ok(IntToStr(q)) <==> Value(r) >= 0 && q == Value(l) - Value(r)
    ensures Value(r) < 0 ==> Reduced([l, "-", r]) == Throw("Conversion exception - string to int")
  {
    ThreeTokens(l, "-", r);
    OneReading(Value(l), Value(r));
    PrintedApart(q, Value(l) - Value(r));
  }

  /** 7 / 2 is 3, -7 / 2 is -3: between two literals the quotient rounded toward zero, and no other number. */
  lemma DivisionExactly(l: string, r: string, q: int)
    requires Literal(l) && Literal(r) && Value(r) != 0
    ensures var a, b := Value(l), Value(r); var m := a - b * q;
      Reduced([l, "/", r]) == Ok(IntToStr(q)) <==>
        (if m < 0 then -m else m) < (if b < 0 then -b else b) && (m == 0 || (m < 0 && a < 0) || (m > 0 && a > 0))
  {
    var p := Quotient(Value(l), Value(r));
    ThreeTokens(l, "/", r);
    PrintedApart(q, p);
    if IsQuotient(Value(l), Value(r), q) { QuotientUnique(Value(l), Value(r), p, q); }
  }

  lemma ThreeTokens(l: string, op: string, r: string)
    requires Literal(l) && Literal(r) && IsOperator(op)
    ensures var opr := [l, op, r]; var st := Read(Reading(0, false, 1, Value(l), true), op, Value(r));
      WellFormed(opr)
      && Reduced(opr) == if op == "/" && Value(r) == 0 then Throw(SIGFPE) else if !st.Fine() then Throw(BAD_INT) else Ok(IntToStr(st.Total()))
  {
    var opr := [l, op, r];
    assert opr[2..] == [r];
    assert WellFormed([r]);
    ReducedIsValue(opr);
    assert Meaning(opr) == ReadAll(Read(START, "+", Value(l)), op, [r]);
  }

  lemma PrintedApart(p: int, q: int)
    ensures IntToStr(p) == IntToStr(q) <==> p == q
  {
    PrintedIsLiteral(p);
    PrintedIsLiteral(q);
  }

  lemma {:induction false} ReducedShrinks(opr: seq<string>)
    requires WellFormed(opr) && |opr| > 1
    ensures var r1 := PassAll(opr, Division);
      r1.Ok? ==>
        var r2 := PassAll(r1.value, Multiplication);
        r2.Ok? ==>
          var r3 := PassAll(r2.value, Addition);
          r3.Ok? ==> |r3.value| == 1
  {
    DivisionPass(opr);
    if PassAll(opr, Division).Ok? {
      var o1 := PassAll(opr, Division).value;
      MultiplicationPass(o1);
      AdditionPass(PassAll(o1, Multiplication).value);
    }
  }

  /** handleAssignment<int>: passes are repeated while more than one token is left. */
  method HandleAssignment(tokens: seq<string>) returns (r: Result<string>)
    requires WellFormed(tokens)
    ensures r == Reduced(tokens)
  {
    var opr := tokens;
    if |tokens| == 1 { ReducedIsValue(tokens); }
    while |opr| > 1
      invariant opr == tokens || (opr != [] && |opr| == 1 && Reduced(tokens) == Ok(opr[0]))
      decreases |opr|
    {
      ReducedShrinks(tokens);
      var p1 := Pass(opr, Division);
      opr :- p1;
      var p2 := Pass(opr, Multiplication);
      opr :- p2;
      var p3 := Pass(opr, Addition);
      opr :- p3;
    }
    return Ok(opr[0]);
  }
}
