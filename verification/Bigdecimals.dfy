/** The Bigdecimal class of Bigdecimal.cpp: a whole number in limbs, scaled by a count of fraction
    digits. */
module Bigdecimals {
  import opened Text
  import opened Decimal
  import opened Limbs
  import B = Bigints

  datatype Scaled = Scaled(parts: seq<int>, isPositive: bool, decimalDigits: nat, decimalStartsAt: nat)

  const BAD_VALUE := "Invalid Bigdecimal value"

  function StripTail(s: string): (t: string)
    ensures |t| <= |s|
  {
    if s != "" && s[|s| - 1] == '0' then StripTail(s[..|s| - 1]) else s
  }

  // ---------------------------------------------------------------- create

  function Limbed(digits: string, isPositive: bool, decimalDigits: nat, decimalStartsAt: nat): Result<Scaled> {
    match B.Chunks(digits)
    case Throw(_) => Throw(BAD_VALUE)
    case Ok(parts) =>
      if parts == [] then Throw(OUT_OF_RANGE)
      else
        var n := B.Zeroed(B.Number(B.DropTopZero(parts), isPositive));
        Ok(Scaled(n.parts, n.isPositive, decimalDigits, decimalStartsAt))
  }

  /** The rest of create, once the sign and the leading zeros are off. */
  function Read(sig: string, isPositive: bool): Result<Scaled> {
    if sig == "" then Ok(Scaled([0], true, 0, 0))
    else
      var dot := Find(sig, ".");
      if dot == -1 then Limbed(sig, isPositive, 0, 0)
      else if dot != B.LastIndexOf(sig, '.') then Throw("Invalid decimal Number")
      else Limbed(StripTail(ReplaceFirst(sig, ".", "")), isPositive, |sig| - dot - 1, dot)
  }

  /** create: what the constructor makes of a text. */
  function Created(value: string): Result<Scaled> {
    var temp := B.Trim(value);
    var minusSign := B.LastIndexOf(temp, '-');
    if minusSign > 0 then Throw("Invalid -")
    else Read(B.StripZeros(if minusSign == 0 then temp[1..] else temp), minusSign != 0)
  }

  // ---------------------------------------------------------------- toString

  function Sign(isPositive: bool): string { if isPositive then "" else "-" }

  /** A point put into a text, counted from its end; too short a text is refused. */
  function PointFromEnd(build: string, digits: nat): Result<string> {
    if |build| < digits then Throw(OUT_OF_RANGE)
    else Ok(build[..|build| - digits] + "." + build[|build| - digits..])
  }

  function PointAt(build: string, at: nat): Result<string> {
    if |build| < at then Throw(OUT_OF_RANGE) else Ok(build[..at] + "." + build[at..])
  }

  function Printed(x: Scaled): Result<string> {
    if x.parts == [] then Ok("0")
    else
      var build := Sign(x.isPositive) + B.PrintLimbs(x.parts);
      if x.decimalDigits > 0 then PointFromEnd(StripTail(build), x.decimalDigits)
      else if x.decimalStartsAt > 0 then PointAt(build, x.decimalStartsAt)
      else Ok(build)
  }

  // ---------------------------------------------------------------- what create refuses

  predicate TwoPoints(t: string) { exists i, j :: 0 <= i < j < |t| && t[i] == '.' && t[j] == '.' }

  lemma TwoPointsIs(t: string)
    ensures Find(t, ".") != -1 && Find(t, ".") != B.LastIndexOf(t, '.') <==> TwoPoints(t)
  {
    NotFoundChar(t, '.');
    var i, j := Find(t, "."), B.LastIndexOf(t, '.');
    if i != -1 {
      forall k | 0 <= k < i ensures t[k] != '.' { assert t[..i][k] == t[k]; }
    }
  }

  lemma {:induction false} PointsBehindZeros(t: string)
    ensures TwoPoints(B.StripZeros(t)) <==> TwoPoints(t)
  {
    if t != "" && t[0] == '0' {
      PointsBehindZeros(t[1..]);
      PointsBehind(t);
    }
  }

  lemma PointsBehind(t: string)
    requires t != "" && t[0] != '.'
    ensures TwoPoints(t[1..]) <==> TwoPoints(t)
  {
    if TwoPoints(t) {
      var i, j :| 0 <= i < j < |t| && t[i] == '.' && t[j] == '.';
      assert t[1..][i - 1] == '.' && t[1..][j - 1] == '.';
    }
    if TwoPoints(t[1..]) {
      var i, j :| 0 <= i < j < |t[1..]| && t[1..][i] == '.' && t[1..][j] == '.';
      assert t[i + 1] == '.' && t[j + 1] == '.';
    }
  }

  lemma LimbedRefuses(digits: string, isPositive: bool, dd: nat, ds: nat)
    ensures var r := Limbed(digits, isPositive, dd, ds);
      r.Throw? ==> r == Throw("Invalid Bigdecimal value") || r == Throw("std::out_of_range")
  {}

  lemma ReadRefuses(sig: string, isPositive: bool)
    ensures var r := Read(sig, isPositive);
      && (r == Throw("Invalid decimal Number") <==> TwoPoints(sig))
      && (r.Throw? && !TwoPoints(sig) ==> r == Throw("Invalid Bigdecimal value") || r == Throw("std::out_of_range"))
  {
    TwoPointsIs(sig);
    var dot := Find(sig, ".");
    if sig != "" {
      if dot == -1 {
        LimbedRefuses(sig, isPositive, 0, 0);
      } else {
        LimbedRefuses(StripTail(ReplaceFirst(sig, ".", "")), isPositive, |sig| - dot - 1, dot);
      }
    }
  }

  /** create refuses a minus sign behind the front and, failing that, a second point, each with its own
      message and nothing else with it. */
  lemma CreateRefuses(value: string)
    ensures var t, r := B.Trim(value), Created(value);
      && (r == Throw("Invalid -") <==> B.LateMinus(t))
      && (r == Throw("Invalid decimal Number") <==> !B.LateMinus(t) && TwoPoints(t))
      && (r.Throw? && !B.LateMinus(t) && !TwoPoints(t) ==>
            r == Throw("Invalid Bigdecimal value") || r == Throw("std::out_of_range"))
  {
    var t := B.Trim(value);
    var m := B.LastIndexOf(t, '-');
    B.LateMinusIs(t);
    var body := if m == 0 then t[1..] else t;
    if m == 0 { PointsBehind(t); }
    PointsBehindZeros(body);
    ReadRefuses(B.StripZeros(body), m != 0);
  }

  // ---------------------------------------------------------------- zeros at either end

  lemma {:induction false} StripTailPrefix(s: string)
    ensures var t := StripTail(s);
      && |t| <= |s| && t == s[..|t|] && (t != "" ==> t[|t| - 1] != '0')
      && (t == s <==> s == "" || s[|s| - 1] != '0')
    decreases |s|
  {
    if s != "" && s[|s| - 1] == '0' {
      StripTailPrefix(s[..|s| - 1]);
    } else {
      assert s[..|s|] == s;
    }
  }

  /** Taking zeros off the end makes a positive value smaller; only zeros leave nothing. */
  lemma {:induction false} StripTailLess(s: string)
    requires AllDigits(s)
    ensures var t := StripTail(s);
      && AllDigits(t) && DigitsVal(t) <= DigitsVal(s)
      && (t == "" <==> DigitsVal(s) == 0)
      && (t != "" && t != s ==> DigitsVal(t) < DigitsVal(s))
    decreases |s|
  {
    if s != "" && s[|s| - 1] == '0' {
      StripTailLess(s[..|s| - 1]);
    }
  }

  lemma StripTailExact(s: string)
    requires AllDigits(s) && StripTail(s) != ""
    ensures AllDigits(StripTail(s)) && (DigitsVal(StripTail(s)) == DigitsVal(s) <==> s[|s| - 1] != '0')
  {
    StripTailPrefix(s);
    StripTailLess(s);
  }

  lemma DigitsValPositive(t: string)
    requires AllDigits(t) && t != "" && t[|t| - 1] != '0'
    ensures DigitsVal(t) > 0
  {}

  // ---------------------------------------------------------------- limbs of numerals with leading zeros

  /** How many of `n` digits fall to the top limb. */
  function TopLength(n: nat): (k: nat)
    requires n > 0
    ensures 1 <= k <= NUM_LENGTH && k <= n
  {
    if n > NUM_LENGTH then TopLength(n - NUM_LENGTH) else n
  }

  /** The limbs a numeral falls into, leading zeros and all. */
  function DigitLimbs(t: string): (parts: seq<int>)
    requires AllDigits(t) && t != ""
    ensures parts != []
  {
    if |t| > NUM_LENGTH then [DigitsVal(t[|t| - NUM_LENGTH..])] + DigitLimbs(t[..|t| - NUM_LENGTH]) else [DigitsVal(t)]
  }

  lemma SmallLimb(t: string)
    requires AllDigits(t) && 1 <= |t| <= 8
    ensures CastInt(t) == Ok(DigitsVal(t)) && 0 <= DigitsVal(t) <= NUM_MAX
  {
    DigitsValBound(t);
    B.PowUpToEight(|t|);
    CastDigits(t);
  }

  lemma {:induction false} ChunksAreLimbs(t: string)
    requires AllDigits(t) && t != ""
    ensures B.Chunks(t) == Ok(DigitLimbs(t))
    decreases |t|
  {
    if |t| > NUM_LENGTH {
      ChunksAreLimbs(t[..|t| - NUM_LENGTH]);
      SmallLimb(t[|t| - NUM_LENGTH..]);
    } else {
      SmallLimb(t);
    }
  }

  lemma {:induction false} DigitLimbsValue(t: string)
    requires AllDigits(t) && t != ""
    ensures InRange(DigitLimbs(t)) && Val(DigitLimbs(t)) == DigitsVal(t)
    decreases |t|
  {
    if |t| > NUM_LENGTH {
      var hi, lo := t[..|t| - NUM_LENGTH], t[|t| - NUM_LENGTH..];
      assert t == hi + lo;
      DigitLimbsValue(hi);
      LowLimb(hi, lo);
      ValCons(DigitsVal(lo), DigitLimbs(hi));
    } else {
      SmallLimb(t);
      B.SingleLimb([DigitsVal(t)]);
    }
  }

  lemma LowLimb(hi: string, lo: string)
    requires AllDigits(hi) && AllDigits(lo) && |lo| == 8
    ensures 0 <= DigitsVal(lo) <= NUM_MAX
    ensures AllDigits(hi + lo) && DigitsVal(hi + lo) == DigitsVal(lo) + BASE * DigitsVal(hi)
  {
    SmallLimb(lo);
    DigitsValConcat(hi, lo);
    B.Pow10Eight();
  }

  /** The length of a numeral fixes the number of its limbs and the digits of the top one. */
  lemma {:induction false} DigitLimbsTop(t: string)
    requires AllDigits(t) && t != ""
    ensures |t| == NUM_LENGTH * (|DigitLimbs(t)| - 1) + TopLength(|t|)
    ensures DigitLimbs(t)[|DigitLimbs(t)| - 1] == DigitsVal(t[..TopLength(|t|)])
    decreases |t|
  {
    if |t| > NUM_LENGTH {
      var hi := t[..|t| - NUM_LENGTH];
      DigitLimbsTop(hi);
      assert hi[..TopLength(|hi|)] == t[..TopLength(|t|)];
    } else {
      assert t[..|t|] == t;
    }
  }

  lemma {:induction false} PrintLimbsAny(parts: seq<int>)
    requires parts != [] && InRange(parts)
    ensures var s := B.PrintLimbs(parts); AllDigits(s) && s != "" && DigitsVal(s) == Val(parts)
    decreases |parts|
  {
    if |parts| == 1 {
      ToStrVal(parts[0]);
      B.SingleLimb(parts);
    } else {
      PrintLimbsAny(parts[1..]);
      var hi, lo := B.PrintLimbs(parts[1..]), B.Pad8(parts[0]);
      B.Pad8Digits(parts[0]);
      DigitsValConcat(hi, lo);
      B.Pow10Eight();
    }
  }

  lemma {:induction false} PrintLimbsLength(parts: seq<int>)
    requires parts != [] && InRange(parts)
    ensures |B.PrintLimbs(parts)| == NUM_LENGTH * (|parts| - 1) + |ToStr(parts[|parts| - 1])|
    decreases |parts|
  {
    if |parts| > 1 {
      PrintLimbsLength(parts[1..]);
      B.Pad8Digits(parts[0]);
    }
  }

  lemma LeadingZeroBound(t: string)
    requires AllDigits(t) && t != "" && t[0] == '0'
    ensures DigitsVal(t) < Pow10(|t| - 1)
  {
    assert t == "0" + t[1..] && AllDigits(t[1..]);
    DigitsValConcat("0", t[1..]);
    assert DigitsVal("0") == 0;
    DigitsValBound(t[1..]);
  }

  /** The top limb of a numeral with leading zeros is zero or prints shorter than its digits. */
  lemma ShortTop(t: string)
    requires AllDigits(t) && t != "" && t[0] == '0'
    ensures DigitsVal(t) == 0 || |ToStr(DigitsVal(t))| < |t|
  {
    LeadingZeroBound(t);
    if |t| > 1 { B.ToStrLength(DigitsVal(t), |t| - 1); }
  }

  lemma LimbLength(x: int)
    requires 0 <= x <= NUM_MAX
    ensures |ToStr(x)| <= 8
  {
    B.Pow10Eight();
    B.ToStrLength(x, 8);
  }

  lemma DroppedValue(parts: seq<int>)
    requires parts != [] && InRange(parts) && Val(parts) > 0
    ensures var p := B.DropTopZero(parts); p != [] && InRange(p) && Val(p) == Val(parts)
  {
    ValTop(parts);
  }

  /** A numeral with leading zeros prints shorter than it was. */
  lemma DroppedLength(d: string)
    requires AllDigits(d) && d != "" && d[0] == '0' && DigitsVal(d) > 0
    ensures Kept(d) != [] && |B.PrintLimbs(Kept(d))| < |d|
  {
    DigitLimbsValue(d);
    DigitLimbsTop(d);
    var p, k := Kept(d), TopLength(|d|);
    DroppedValue(DigitLimbs(d));
    ShortTop(d[..k]);
    PrintLimbsLength(p);
    LimbLength(p[|p| - 1]);
  }

  /** The limbs create keeps. */
  function Kept(d: string): seq<int>
    requires AllDigits(d) && d != ""
  {
    B.DropTopZero(DigitLimbs(d))
  }

  lemma KeptValue(d: string, isPositive: bool)
    requires AllDigits(d) && d != "" && d[|d| - 1] != '0'
    ensures var p := Kept(d);
      p != [] && InRange(p) && Val(p) == DigitsVal(d) > 0 && B.Zeroed(B.Number(p, isPositive)) == B.Number(p, isPositive)
  {
    DigitsValPositive(d);
    DigitLimbsValue(d);
    DroppedValue(DigitLimbs(d));
    B.AllZero(Kept(d));
  }

  /** A numeral with no trailing zero becomes a number of its value. */
  lemma LimbedIs(d: string, isPositive: bool, dd: nat, ds: nat)
    requires AllDigits(d) && d != "" && d[|d| - 1] != '0'
    ensures Limbed(d, isPositive, dd, ds) == Ok(Scaled(Kept(d), isPositive, dd, ds))
  {
    ChunksAreLimbs(d);
    KeptValue(d, isPositive);
  }

  /** And how it prints: unchanged without leading zeros, shorter with them. */
  lemma KeptPrint(d: string)
    requires AllDigits(d) && d != "" && d[|d| - 1] != '0'
    ensures Kept(d) != []
    ensures var p := B.PrintLimbs(Kept(d)); AllDigits(p) && p != "" && (if d[0] != '0' then p == d else |p| < |d|)
  {
    KeptValue(d, true);
    PrintLimbsAny(Kept(d));
    if d[0] != '0' { KeptWhole(d); } else { DroppedLength(d); }
  }

  lemma KeptWhole(d: string)
    requires AllDigits(d) && d != "" && d[0] != '0' && Kept(d) != [] && InRange(Kept(d))
    ensures B.PrintLimbs(Kept(d)) == d
  {
    ChunksAreLimbs(d);
    B.ChunksValue(d);
    B.PrintLimbsValue(Kept(d));
    ValToStr(d);
    ValToStr(B.PrintLimbs(Kept(d)));
  }

  // ---------------------------------------------------------------- reading a text

  /** An optional minus, digits, a point and digits. */
  function Pointed(neg: bool, whole: string, frac: string): string { B.Signed(neg, whole) + "." + frac }

  lemma {:induction false} StripZerosBefore(whole: string, rest: string)
    requires AllDigits(whole) && rest != "" && rest[0] != '0'
    ensures B.StripZeros(whole + rest) == B.StripZeros(whole) + rest
    decreases |whole|
  {
    if whole != "" && whole[0] == '0' {
      StripZerosBefore(whole[1..], rest);
      assert (whole + rest)[1..] == whole[1..] + rest;
    } else if whole == "" {
      assert whole + rest == rest;
    }
  }

  /** The only point of a text is its first and its last. */
  lemma OnlyPoint(s: string, k: nat)
    requires k < |s| && s[k] == '.' && forall i :: 0 <= i < |s| && i != k ==> s[i] != '.'
    ensures Find(s, ".") == k == B.LastIndexOf(s, '.')
  {
    assert s[k..k + 1] == ".";
    forall i | 0 <= i < k ensures !MatchAt(s, ".", i) { assert s[i..i + 1][0] == s[i]; }
    FindIs(s, ".", k);
  }

  lemma NoPoint(s: string)
    requires AllDigits(s)
    ensures Find(s, ".") == -1
  {
    forall i | 0 <= i <= |s| ensures !MatchAt(s, ".", i) {
      if i < |s| { assert s[i..i + 1][0] == s[i]; }
    }
  }

  lemma PointAmongDigits(j: string, frac: string)
    requires AllDigits(j) && AllDigits(frac)
    ensures var s := j + "." + frac; s[|j|] == '.' && forall i :: 0 <= i < |s| && i != |j| ==> s[i] != '.'
  {
    var s := j + "." + frac;
    forall i | 0 <= i < |s| && i != |j| ensures s[i] != '.' {
      assert IsDigit(if i < |j| then j[i] else frac[i - |j| - 1]);
    }
  }

  lemma PointGone(j: string, frac: string)
    ensures var s := j + "." + frac; s[..|j|] + "" + s[|j| + 1..] == j + frac
  {}

  lemma ReadPointed(j: string, frac: string, isPositive: bool)
    requires AllDigits(j) && AllDigits(frac)
    ensures var d := StripTail(j + frac);
      AllDigits(d) && Read(j + "." + frac, isPositive) ==
        if d == "" then Throw(OUT_OF_RANGE) else Ok(Scaled(Kept(d), isPositive, |frac|, |j|))
  {
    PointAmongDigits(j, frac);
    OnlyPoint(j + "." + frac, |j|);
    PointGone(j, frac);
    StripTailLess(j + frac);
    StripTailPrefix(j + frac);
    var d := StripTail(j + frac);
    assert Read(j + "." + frac, isPositive) == Limbed(d, isPositive, |frac|, |j|);
    if d != "" { LimbedIs(d, isPositive, |frac|, |j|); }
  }

  lemma PointedEnds(neg: bool, whole: string, frac: string)
    requires AllDigits(whole) && AllDigits(frac)
    ensures var s := Pointed(neg, whole, frac);
      B.Trim(s) == s && B.LastIndexOf(s, '-') == if neg then 0 else -1
    ensures neg ==> Pointed(neg, whole, frac)[1..] == whole + "." + frac
    ensures !neg ==> Pointed(neg, whole, frac) == whole + "." + frac
  {
    var s := Pointed(neg, whole, frac);
    var t := whole + "." + frac;
    assert s == (if neg then "-" else "") + t;
    forall i | 0 <= i < |t| ensures t[i] != '-' && t[i] != ' ' {
      assert i != |whole| ==> IsDigit(if i < |whole| then whole[i] else frac[i - |whole| - 1]);
    }
    B.TrimNothing(s);
  }

  lemma CreatedReads(neg: bool, whole: string, frac: string)
    requires AllDigits(whole) && AllDigits(frac)
    ensures Created(Pointed(neg, whole, frac)) == Read(B.StripZeros(whole) + "." + frac, !neg)
  {
    PointedEnds(neg, whole, frac);
    StripZerosBefore(whole, "." + frac);
    Regrouped(whole, frac);
    Regrouped(B.StripZeros(whole), frac);
  }

  /** A text with a point: the digits without leading and trailing zeros, scaled by the number of digits
      that stood behind the point. */
  lemma CreatedPointed(neg: bool, whole: string, frac: string)
    requires AllDigits(whole) && AllDigits(frac)
    ensures var j := B.StripZeros(whole); var d := StripTail(j + frac);
      && AllDigits(d)
      && Created(Pointed(neg, whole, frac)) ==
        if d == "" then Throw(OUT_OF_RANGE) else Ok(Scaled(Kept(d), !neg, |frac|, |j|))
  {
    CreatedReads(neg, whole, frac);
    B.StripZerosDigits(whole);
    ReadPointed(B.StripZeros(whole), frac, !neg);
  }

  lemma Regrouped(j: string, frac: string)
    ensures j + ("." + frac) == j + "." + frac
  {}

  lemma ReadWhole(sig: string, isPositive: bool)
    requires AllDigits(sig) && sig != "" && sig[0] != '0'
    ensures B.Chunks(sig).Ok? && Read(sig, isPositive) ==
      var n := B.Zeroed(B.Number(B.DropTopZero(B.Chunks(sig).value), isPositive)); Ok(Scaled(n.parts, n.isPositive, 0, 0))
  {
    NoPoint(sig);
    B.ChunksValue(sig);
  }

  /** A text without a point is read as Bigint reads it. */
  lemma CreatedWhole(neg: bool, whole: string)
    requires AllDigits(whole) && whole != ""
    ensures var r, b := Created(B.Signed(neg, whole)), B.Created(B.Signed(neg, whole));
      b.Ok? && r == Ok(Scaled(b.value.parts, b.value.isPositive, 0, 0))
  {
    B.CreatedValue(neg, whole);
    B.CreatedSteps(neg, whole);
    B.TrimSigned(neg, whole);
    var s := B.Signed(neg, whole);
    assert (if neg then s[1..] else s) == whole;
    var sig := B.StripZeros(whole);
    B.StripZerosDigits(whole);
    assert Created(s) == Read(sig, !neg);
    if sig != "" { ReadWhole(sig, !neg); }
  }

  // ---------------------------------------------------------------- reading and printing

  /** No zeros at either end; and with no digit behind the point, no minus. */
  predicate Canonical(neg: bool, whole: string, frac: string) {
    var d := whole + frac;
    d != "" && d[0] != '0' && d[|d| - 1] != '0' && (frac == "" ==> !neg)
  }

  lemma {:induction false} StripZerosShape(s: string)
    ensures var t := B.StripZeros(s);
      |t| <= |s| && t == s[|s| - |t|..] && (|t| == |s| <==> t == s) && (t == s <==> s == "" || s[0] != '0')
  {
    if s != "" && s[0] == '0' {
      StripZerosShape(s[1..]);
      assert s[1..][|s| - 1 - |B.StripZeros(s)|..] == s[|s| - |B.StripZeros(s)|..];
    }
  }

  /** The digits that survive create are fewer than the text has, unless there is no zero at its ends. */
  lemma Survivors(whole: string, frac: string)
    requires AllDigits(whole) && AllDigits(frac) && whole + frac != ""
    ensures var w := whole + frac; var d := StripTail(B.StripZeros(whole) + frac);
      && |d| <= |w|
      && (w[0] != '0' && w[|w| - 1] != '0' ==> B.StripZeros(whole) == whole && d == w)
      && (|d| == |w| ==> d == w && w[|w| - 1] != '0' && (whole != "" ==> w[0] != '0'))
  {
    StripZerosShape(whole);
    StripTailPrefix(B.StripZeros(whole) + frac);
  }

  lemma CanonicalPrints(neg: bool, whole: string, frac: string)
    requires AllDigits(whole) && AllDigits(frac) && Canonical(neg, whole, frac)
    ensures var r := Created(Pointed(neg, whole, frac)); r.Ok? && Printed(r.value) == Ok(Pointed(neg, whole, frac))
  {
    var d := whole + frac;
    CreatedPointed(neg, whole, frac);
    Survivors(whole, frac);
    KeptPrint(d);
    PrintsPointed(Scaled(Kept(d), !neg, |frac|, |whole|), neg, whole, frac);
  }

  lemma PrintsPointed(x: Scaled, neg: bool, whole: string, frac: string)
    requires AllDigits(whole) && AllDigits(frac) && Canonical(neg, whole, frac)
    requires x.parts != [] && B.PrintLimbs(x.parts) == whole + frac
    requires x.isPositive == !neg && x.decimalDigits == |frac| && x.decimalStartsAt == |whole|
    ensures Printed(x) == Ok(Pointed(neg, whole, frac))
  {
    if frac == "" { PrintsBarePoint(x, whole); } else { PrintsFraction(x, neg, whole, frac); }
  }

  lemma PrintsBarePoint(x: Scaled, whole: string)
    requires whole != "" && x.parts != [] && B.PrintLimbs(x.parts) == whole + ""
    requires x.isPositive && x.decimalDigits == 0 && x.decimalStartsAt == |whole|
    ensures Printed(x) == Ok(Pointed(false, whole, ""))
  {
    var build := "" + (whole + "");
    assert build == whole == B.Signed(false, whole);
    assert build[..|whole|] == whole && build[|whole|..] == "";
  }

  lemma PrintsFraction(x: Scaled, neg: bool, whole: string, frac: string)
    requires frac != "" && frac[|frac| - 1] != '0'
    requires x.parts != [] && B.PrintLimbs(x.parts) == whole + frac && x.isPositive == !neg && x.decimalDigits == |frac|
    ensures Printed(x) == Ok(Pointed(neg, whole, frac))
  {
    var build := Sign(!neg) + (whole + frac);
    StripTailPrefix(build);
    CutAtPoint(Sign(!neg), whole, frac);
    assert B.Signed(neg, whole) == Sign(!neg) + whole;
  }

  lemma CutAtPoint(sign: string, whole: string, frac: string)
    ensures var b := sign + (whole + frac);
      b[..|b| - |frac|] == sign + whole && b[|b| - |frac|..] == frac && (frac != "" ==> b[|b| - 1] == frac[|frac| - 1])
  {}

  lemma PrintedLength(x: Scaled)
    requires x.parts != [] && Printed(x).Ok?
    ensures |Printed(x).value| <= |Sign(x.isPositive)| + |B.PrintLimbs(x.parts)| + 1
  {}

  lemma OnlyCanonicalPrints(neg: bool, whole: string, frac: string)
    requires AllDigits(whole) && AllDigits(frac) && !Canonical(neg, whole, frac)
    ensures var r := Created(Pointed(neg, whole, frac)); r.Ok? ==> Printed(r.value) != Ok(Pointed(neg, whole, frac))
  {
    var j := B.StripZeros(whole);
    var d := StripTail(j + frac);
    CreatedPointed(neg, whole, frac);
    StripZerosShape(whole);
    StripTailPrefix(j + frac);
    if d != "" {
      Survivors(whole, frac);
      KeptPrint(d);
      var x := Scaled(Kept(d), !neg, |frac|, |j|);
      if |B.PrintLimbs(x.parts)| < |whole| + |frac| {
        PrintsShorter(x, neg, whole, frac);
      } else {
        MinusBeforePoint(whole, x);
      }
    }
  }

  lemma PrintsShorter(x: Scaled, neg: bool, whole: string, frac: string)
    requires x.parts != [] && x.isPositive == !neg && |B.PrintLimbs(x.parts)| < |whole| + |frac|
    ensures Printed(x) != Ok(Pointed(neg, whole, frac))
  {
    if Printed(x).Ok? { PrintedLength(x); }
  }

  lemma MinusBeforePoint(whole: string, x: Scaled)
    requires AllDigits(whole) && whole != ""
    requires x.parts != [] && !x.isPositive && x.decimalDigits == 0 && x.decimalStartsAt == |whole| && B.PrintLimbs(x.parts) == whole
    ensures Printed(x) != Ok(Pointed(true, whole, ""))
  {
    var build := "-" + whole;
    assert (build[..|whole|] + "." + build[|whole|..])[|whole|] == '.';
    assert Pointed(true, whole, "")[|whole|] == whole[|whole| - 1];
    assert IsDigit(whole[|whole| - 1]);
  }

  /** Printing what was read from a text with a point gives the text back just when it is canonical. */
  lemma PointedRoundTrip(neg: bool, whole: string, frac: string)
    requires AllDigits(whole) && AllDigits(frac)
    ensures var r := Created(Pointed(neg, whole, frac));
      (r.Ok? && Printed(r.value) == Ok(Pointed(neg, whole, frac))) <==> Canonical(neg, whole, frac)
  {
    if Canonical(neg, whole, frac) { CanonicalPrints(neg, whole, frac); } else { OnlyCanonicalPrints(neg, whole, frac); }
  }

  /** Without a point: just when there is no zero in front, or the text is "0". */
  lemma WholeRoundTrip(neg: bool, whole: string)
    requires AllDigits(whole) && whole != ""
    ensures var r := Created(B.Signed(neg, whole));
      (r.Ok? && Printed(r.value) == Ok(B.Signed(neg, whole))) <==> (whole[0] != '0' || (whole == "0" && !neg))
  {
    CreatedWhole(neg, whole);
    B.PrintAfterParse(neg, whole);
    B.CreatedValue(neg, whole);
    PrintsWhole(B.Created(B.Signed(neg, whole)).value);
    CanonicalNumeral(neg, whole);
  }

  lemma PrintsWhole(n: B.Number)
    ensures Printed(Scaled(n.parts, n.isPositive, 0, 0)) == Ok(B.Printed(n))
  {}

  lemma CanonicalNumeral(neg: bool, whole: string)
    requires AllDigits(whole) && whole != ""
    ensures IntToStr(if neg then 0 - DigitsVal(whole) else DigitsVal(whole)) == B.Signed(neg, whole) <==>
      whole[0] != '0' || (whole == "0" && !neg)
  {
    NumeralIsItself(whole);
    if neg {
      MinusNumeral(whole, DigitsVal(whole), ToStr(DigitsVal(whole)));
    } else {
      PlusNumeral(whole, DigitsVal(whole));
    }
  }

  lemma PlusNumeral(whole: string, v: nat)
    ensures IntToStr(v) == B.Signed(false, whole) <==> ToStr(v) == whole
  {
    assert B.Signed(false, whole) == whole;
  }

  lemma MinusNumeral(whole: string, v: nat, t: string)
    requires t == ToStr(v)
    ensures IntToStr(0 - v) == B.Signed(true, whole) <==> v > 0 && t == whole
  {
    if v > 0 { MinusPrinted(v); }
    MinusSame(IntToStr(0 - v), t, B.Signed(true, whole), whole);
  }

  lemma MinusPrinted(v: nat)
    requires v > 0
    ensures IntToStr(0 - v) == "-" + ToStr(v)
  {}

  lemma MinusSame(a: string, t: string, b: string, whole: string)
    requires b == "-" + whole && a != ""
    ensures a == "-" + t ==> (a == b <==> t == whole)
    ensures a[0] != '-' ==> a != b
  {
    assert ("-" + whole)[1..] == whole && ("-" + t)[1..] == t;
  }

  lemma NumeralIsItself(whole: string)
    requires AllDigits(whole) && whole != ""
    ensures ToStr(DigitsVal(whole)) == whole <==> whole[0] != '0' || whole == "0"
    ensures whole == "0" ==> DigitsVal(whole) == 0
    ensures whole[0] != '0' ==> DigitsVal(whole) > 0
  {
    DigitsValBound(whole);
    if whole[0] != '0' || whole == "0" { ValToStr(whole); }
  }

  /** A text with a point is read as its own value, at its own scale, just when its last digit is not a
      zero; it is refused when all its digits are zeros. */
  lemma CreatedExactly(neg: bool, whole: string, frac: string)
    requires AllDigits(whole) && AllDigits(frac)
    ensures AllDigits(whole + frac)
    ensures var r, w := Created(Pointed(neg, whole, frac)), whole + frac;
      && (r.Ok? <==> DigitsVal(w) > 0)
      && (r.Ok? ==> (r.value.decimalDigits == |frac| && Val(r.value.parts) == DigitsVal(w) <==> w[|w| - 1] != '0'))
  {
    var j := B.StripZeros(whole);
    CreatedPointed(neg, whole, frac);
    B.StripZerosDigits(whole);
    DigitsValConcat(whole, frac);
    DigitsValConcat(j, frac);
    StripTailLess(j + frac);
    StripTailPrefix(j + frac);
    SameEnd(whole, frac);
    if StripTail(j + frac) != "" {
      StripTailExact(j + frac);
      KeptValue(StripTail(j + frac), !neg);
    }
  }

  lemma SameEnd(whole: string, frac: string)
    ensures var s, w := B.StripZeros(whole) + frac, whole + frac; s != "" ==> s[|s| - 1] == w[|w| - 1]
  {
    StripZerosShape(whole);
  }

  // ---------------------------------------------------------------- what a number shows

  /** The text is a numeral of value `v` with `scale` digits behind its point; at scale 0 the point may be
      left out. */
  ghost predicate Shows(t: string, neg: bool, v: int, scale: nat) {
    exists whole: string, frac: string :: ShownAs(t, neg, whole, frac, v, scale)
  }

  predicate ShownAs(t: string, neg: bool, whole: string, frac: string, v: int, scale: nat) {
    && AllDigits(whole + frac) && whole + frac != "" && |frac| == scale && DigitsVal(whole + frac) == v
    && (t == Pointed(neg, whole, frac) || (scale == 0 && t == B.Signed(neg, whole)))
  }

  /** The numbers toString shows at their own value and scale: with digits behind the point, no zero at the
      end and enough digits; else no point to place, or its place right behind the digits. */
  predicate Printable(x: Scaled)
    requires x.parts != []
  {
    if x.decimalDigits > 0 then Val(x.parts) % 10 != 0 && |B.PrintLimbs(x.parts)| >= x.decimalDigits
    else x.decimalStartsAt == 0 || x.decimalStartsAt == |Sign(x.isPositive)| + |B.PrintLimbs(x.parts)|
  }

  /** The digits an operand prints. */
  function Digits(x: Scaled): string
    requires x.parts != []
  {
    if x.decimalDigits > 0 then StripTail(B.PrintLimbs(x.parts)) else B.PrintLimbs(x.parts)
  }

  /** What toString makes of the sign and those digits. */
  function Placed(build: string, dd: nat, ds: nat): Result<string> {
    if dd > 0 then PointFromEnd(build, dd) else if ds > 0 then PointAt(build, ds) else Ok(build)
  }

  lemma PrintedIsPlaced(x: Scaled)
    requires x.parts != []
    ensures Printed(x) == Placed(Sign(x.isPositive) + Digits(x), x.decimalDigits, x.decimalStartsAt)
  {
    if x.decimalDigits > 0 { StripTailBehind(Sign(x.isPositive), B.PrintLimbs(x.parts)); }
  }

  lemma {:induction false} StripTailBehind(sign: string, p: string)
    requires sign == "" || sign[|sign| - 1] != '0'
    ensures StripTail(sign + p) == sign + StripTail(p)
    decreases |p|
  {
    if p == "" {
      assert sign + p == sign;
    } else {
      LastOfConcat(sign, p);
      if p[|p| - 1] == '0' { StripTailBehind(sign, p[..|p| - 1]); }
    }
  }

  lemma NoPointInSigned(sign: string, digits: string)
    requires (sign == "" || sign == "-") && AllDigits(digits)
    ensures forall i :: 0 <= i < |sign + digits| ==> (sign + digits)[i] != '.'
  {
    forall i | 0 <= i < |sign + digits| ensures (sign + digits)[i] != '.' {
      if i >= |sign| { assert IsDigit(digits[i - |sign|]); }
    }
  }

  lemma StrippedValue(p: string)
    requires AllDigits(p) && p != ""
    ensures var q := StripTail(p);
      && AllDigits(q) && DigitsVal(q) <= DigitsVal(p)
      && (q == "" <==> DigitsVal(p) == 0)
      && (DigitsVal(p) > 0 ==> DigitsVal(q) > 0 && (DigitsVal(q) == DigitsVal(p) <==> DigitsVal(p) % 10 != 0))
  {
    StripTailLess(p);
    StripTailPrefix(p);
    LastDigitTells(p);
    if StripTail(p) != "" { DigitsValPositive(StripTail(p)); }
  }

  lemma LastDigitTells(p: string)
    requires AllDigits(p) && p != ""
    ensures p[|p| - 1] == '0' <==> DigitsVal(p) % 10 == 0
  {
    assert DigitsVal(p) == 10 * DigitsVal(p[..|p| - 1]) + DigitVal(p[|p| - 1]);
  }

  /** A point `k` characters in shows the digits when no character behind it is missing or is a sign. */
  lemma PointShows(neg: bool, q: string, scale: nat)
    requires AllDigits(q) && q != "" && scale <= |q|
    ensures var b := B.Signed(neg, q); Shows(b[..|b| - scale] + "." + b[|b| - scale..], neg, DigitsVal(q), scale)
  {
    var b, whole, frac := B.Signed(neg, q), q[..|q| - scale], q[|q| - scale..];
    assert whole + frac == q;
    SignedCut(neg, q, |q| - scale);
    assert ShownAs(b[..|b| - scale] + "." + b[|b| - scale..], neg, whole, frac, DigitsVal(q), scale);
  }

  lemma SignedCut(neg: bool, q: string, k: nat)
    requires k <= |q|
    ensures var b := B.Signed(neg, q); var n := |b| - (|q| - k);
      b[..n] == B.Signed(neg, q[..k]) && b[n..] == q[k..]
  {}

  lemma BareShows(neg: bool, q: string)
    requires AllDigits(q) && q != ""
    ensures Shows(B.Signed(neg, q), neg, DigitsVal(q), 0)
  {
    assert q + "" == q;
    assert ShownAs(B.Signed(neg, q), neg, q, "", DigitsVal(q), 0);
  }

  /** A text with a point put in shows nothing but the digits it was put between, and only so that all
      characters behind it are digits. */
  lemma PointShowsOnly(neg: bool, q: string, k: nat, whole: string, frac: string, v: int, scale: nat)
    requires AllDigits(q) && k <= |B.Signed(neg, q)|
    requires var b := B.Signed(neg, q); ShownAs(b[..k] + "." + b[k..], neg, whole, frac, v, scale)
    ensures k == |B.Signed(neg, q)| - scale && scale <= |q| && q != "" && v == DigitsVal(q)
  {
    var b := B.Signed(neg, q);
    PartsAreDigits(whole, frac);
    PointPlace(neg, q, k);
    NoPointInSigned(Sign(!neg), whole);
    PointStands(b, k, k);
    if b[..k] + "." + b[k..] == Pointed(neg, whole, frac) {
      PointPlace(neg, whole + frac, |B.Signed(neg, whole)|);
      SignedCut(neg, whole + frac, |whole|);
      assert (whole + frac)[..|whole|] == whole && (whole + frac)[|whole|..] == frac;
      OnePoint(b, k, B.Signed(neg, whole + frac), |B.Signed(neg, whole)|, b[..k] + "." + b[k..]);
      SignOff(neg, q, whole + frac);
    }
  }

  lemma PartsAreDigits(whole: string, frac: string)
    requires AllDigits(whole + frac)
    ensures AllDigits(whole) && AllDigits(frac)
  {
    forall i | 0 <= i < |whole| ensures IsDigit(whole[i]) { assert (whole + frac)[i] == whole[i]; }
    forall i | 0 <= i < |frac| ensures IsDigit(frac[i]) { assert (whole + frac)[|whole| + i] == frac[i]; }
  }

  lemma PointPlace(neg: bool, q: string, k: nat)
    requires AllDigits(q) && k <= |B.Signed(neg, q)|
    ensures forall i :: 0 <= i < |B.Signed(neg, q)| ==> B.Signed(neg, q)[i] != '.'
  {
    NoPointInSigned(Sign(!neg), q);
  }

  lemma PointStands(b: string, k: nat, i: nat)
    requires k <= |b|
    ensures var s := b[..k] + "." + b[k..]; s[k] == '.' && (i < k ==> s[i] == b[i])
  {}

  /** Two texts without points are the same when a point put into each makes the same text. */
  lemma OnePoint(b: string, k: nat, c: string, n: nat, s: string)
    requires k <= |b| && n <= |c| && s == b[..k] + "." + b[k..] == c[..n] + "." + c[n..]
    requires forall i :: 0 <= i < |b| ==> b[i] != '.'
    requires forall i :: 0 <= i < |c| ==> c[i] != '.'
    ensures k == n && b == c
  {
    PointStands(b, k, n);
    PointStands(c, n, k);
    assert b[..k] == s[..k] && b[k..] == s[k + 1..] && c[..k] == s[..k] && c[k..] == s[k + 1..];
    assert b == b[..k] + b[k..] && c == c[..k] + c[k..];
  }

  lemma SignOff(neg: bool, q: string, w: string)
    requires B.Signed(neg, q) == B.Signed(neg, w)
    ensures q == w
  {
    var b, c := B.Signed(neg, q), B.Signed(neg, w);
    assert q == b[if neg then 1 else 0..] && w == c[if neg then 1 else 0..];
  }

  /** What a printed number shows, for any value: its digits without the zeros printing drops. */
  lemma ShowsOnlyDigits(x: Scaled, v: int)
    requires x.parts != [] && InRange(x.parts) && Printed(x).Ok?
    requires Shows(Printed(x).value, !x.isPositive, v, x.decimalDigits)
    ensures var q := Digits(x);
      && AllDigits(q) && q != "" && v == DigitsVal(q) && x.decimalDigits <= |q|
      && (x.decimalDigits == 0 ==> x.decimalStartsAt == 0 || x.decimalStartsAt == |Sign(x.isPositive)| + |q|)
  {
    var q := Digits(x);
    PrintLimbsAny(x.parts);
    StrippedDigits(B.PrintLimbs(x.parts));
    PrintedIsPlaced(x);
    var t := Printed(x).value;
    var whole, frac :| ShownAs(t, !x.isPositive, whole, frac, v, x.decimalDigits);
    if x.decimalDigits > 0 {
      PointShowsOnly(!x.isPositive, q, |B.Signed(!x.isPositive, q)| - x.decimalDigits, whole, frac, v, x.decimalDigits);
    } else if x.decimalStartsAt > 0 {
      PointShowsOnly(!x.isPositive, q, x.decimalStartsAt, whole, frac, v, 0);
    } else {
      NoPointShowsOnly(!x.isPositive, q, whole, frac, v);
    }
  }

  lemma StrippedDigits(p: string)
    requires AllDigits(p)
    ensures AllDigits(StripTail(p))
  {
    StripTailLess(p);
  }

  lemma NoPointShowsOnly(neg: bool, q: string, whole: string, frac: string, v: int)
    requires AllDigits(q) && ShownAs(B.Signed(neg, q), neg, whole, frac, v, 0)
    ensures q != "" && v == DigitsVal(q)
  {
    PartsAreDigits(whole, frac);
    assert whole + frac == whole;
    PointPlace(neg, q, 0);
    assert Pointed(neg, whole, frac)[|B.Signed(neg, whole)|] == '.';
    if B.Signed(neg, q) == B.Signed(neg, whole) { SignOff(neg, q, whole); }
  }

  /** A number prints as its own value at its own scale exactly when it is printable, and never as more. */
  lemma PrintsExactly(x: Scaled)
    requires x.parts != [] && InRange(x.parts)
    ensures (Printed(x).Ok? && Shows(Printed(x).value, !x.isPositive, Val(x.parts), x.decimalDigits)) <==> Printable(x)
  {
    if Printable(x) { PrintableShows(x); }
    if Printed(x).Ok? && Shows(Printed(x).value, !x.isPositive, Val(x.parts), x.decimalDigits) {
      ShowsOnlyDigits(x, Val(x.parts));
      DigitsKept(x);
    }
  }

  lemma PrintableShows(x: Scaled)
    requires x.parts != [] && InRange(x.parts) && Printable(x)
    ensures Printed(x).Ok? && Shows(Printed(x).value, !x.isPositive, Val(x.parts), x.decimalDigits)
  {
    var p := B.PrintLimbs(x.parts);
    PrintLimbsAny(x.parts);
    DigitsKept(x);
    PrintedIsPlaced(x);
    if x.decimalDigits > 0 || x.decimalStartsAt > 0 {
      PointShows(!x.isPositive, p, x.decimalDigits);
    } else {
      BareShows(!x.isPositive, p);
    }
  }

  /** The digits printed make up the value just when no zero is dropped. */
  lemma DigitsKept(x: Scaled)
    requires x.parts != [] && InRange(x.parts)
    ensures var p, q := B.PrintLimbs(x.parts), Digits(x);
      && AllDigits(q) && DigitsVal(q) <= Val(x.parts)
      && (x.decimalDigits > 0 && q != "" ==> (DigitsVal(q) == Val(x.parts) <==> Val(x.parts) % 10 != 0))
      && (x.decimalDigits == 0 || Val(x.parts) % 10 != 0 ==> q == p)
  {
    var p := B.PrintLimbs(x.parts);
    PrintLimbsAny(x.parts);
    StrippedValue(p);
    StripTailPrefix(p);
    LastDigitTells(p);
  }

  // ---------------------------------------------------------------- add

  /** What create makes and add keeps: limbs in range, and zero only with a plus. */
  predicate WellFormed(x: Scaled) { x.parts != [] && InRange(x.parts) && (Val(x.parts) == 0 ==> x.isPositive) }

  function Max(a: nat, b: nat): nat { if a > b then a else b }

  /** A printed operand, padded by some zeros and stripped of its point. */
  function Aligned(printed: string, pad: nat): string { ReplaceFirst(printed + Zeros(pad), ".", "") }

  /** Printing a scaled number drops the zeros its digits end in. */
  predicate LosesZeros(x: Scaled) { x.decimalDigits > 0 && Val(x.parts) % 10 == 0 }

  /** Taking the point out again. */
  lemma PointRemoved(b: string, k: nat, z: string)
    requires k <= |b| && forall i :: 0 <= i < |b| ==> b[i] != '.'
    ensures ReplaceFirst(b[..k] + "." + b[k..] + z, ".", "") == b + z
  {
    var s := b[..k] + "." + b[k..] + z;
    assert s[k] == '.' && s[k..k + 1] == ".";
    forall i | 0 <= i < k ensures !MatchAt(s, ".", i) { assert s[i..i + 1][0] == b[i]; }
    FindIs(s, ".", k);
    assert s[..k] + "" + s[k + 1..] == b + z;
  }

  lemma NothingRemoved(b: string)
    requires forall i :: 0 <= i < |b| ==> b[i] != '.'
    ensures ReplaceFirst(b, ".", "") == b
  {
    forall i | 0 <= i <= |b| ensures !MatchAt(b, ".", i) {
      if i < |b| { assert b[i..i + 1][0] == b[i]; }
    }
    assert Find(b, ".") == -1;
  }

  /** What an operand that prints comes to: digits of no more than its value, and of exactly its value just
      when it loses no zeros. */
  lemma PrintedDigits(x: Scaled)
    requires WellFormed(x) && Printed(x).Ok?
    ensures var q := Digits(x);
      && AllDigits(q) && q != "" && DigitsVal(q) <= Val(x.parts)
      && (DigitsVal(q) == Val(x.parts) <==> !LosesZeros(x))
      && (Val(x.parts) > 0 ==> DigitsVal(q) > 0)
  {
    PrintLimbsAny(x.parts);
    StrippedValue(B.PrintLimbs(x.parts));
    if x.decimalDigits > 0 && Val(x.parts) == 0 { ZeroIsRefused(x); }
  }

  /** Zero with fraction digits does not print. */
  lemma ZeroIsRefused(x: Scaled)
    requires WellFormed(x) && x.decimalDigits > 0 && Val(x.parts) == 0
    ensures Printed(x).Throw?
  {
    var p := B.PrintLimbs(x.parts);
    PrintLimbsAny(x.parts);
    StripTailLess(p);
    assert Sign(true) + p == p;
  }

  lemma AlignedText(x: Scaled, pad: nat)
    requires WellFormed(x) && Printed(x).Ok?
    ensures Aligned(Printed(x).value, pad) == Sign(x.isPositive) + Digits(x) + Zeros(pad)
  {
    var b := Sign(x.isPositive) + Digits(x);
    PrintedDigits(x);
    NoPointInSigned(Sign(x.isPositive), Digits(x));
    if x.decimalDigits > 0 {
      StripTailBehind(Sign(x.isPositive), B.PrintLimbs(x.parts));
      AlignedAt(Printed(x).value, pad, b, |b| - x.decimalDigits);
    } else if x.decimalStartsAt > 0 {
      AlignedAt(Printed(x).value, pad, b, x.decimalStartsAt);
    } else {
      NothingRemoved(b + Zeros(pad));
    }
  }

  lemma AlignedAt(printed: string, pad: nat, b: string, k: nat)
    requires k <= |b| && forall i :: 0 <= i < |b| ==> b[i] != '.'
    requires printed == b[..k] + "." + b[k..]
    ensures Aligned(printed, pad) == b + Zeros(pad)
  {
    PointRemoved(b, k, Zeros(pad));
  }

  /** The limbs of a natural number. */
  function LimbsOf(v: nat): seq<int> { if v < BASE then [v] else [v % BASE] + LimbsOf(v / BASE) }

  lemma {:induction false} LimbsOfValue(v: nat)
    ensures Normal(LimbsOf(v)) && Val(LimbsOf(v)) == v
  {
    if v < BASE {
      B.SingleLimb([v]);
    } else {
      LimbsOfValue(v / BASE);
      ValCons(v % BASE, LimbsOf(v / BASE));
      NonZeroTop(LimbsOf(v / BASE));
    }
  }

  lemma NonZeroTop(parts: seq<int>)
    requires Normal(parts) && Val(parts) > 0
    ensures parts[|parts| - 1] != 0
  {
    if |parts| == 1 { B.SingleLimb(parts); }
  }

  /** A number without the zeros it ends in. */
  function WithoutZeros(v: nat): nat { if v > 0 && v % 10 == 0 then WithoutZeros(v / 10) else v }

  lemma {:induction false} WithoutZerosLess(v: nat)
    ensures WithoutZeros(v) <= v && (WithoutZeros(v) == v <==> v == 0 || v % 10 != 0)
  {
    if v > 0 && v % 10 == 0 { WithoutZerosLess(v / 10); }
  }

  lemma {:induction false} StripTailWithoutZeros(p: string)
    requires AllDigits(p)
    ensures AllDigits(StripTail(p)) && DigitsVal(StripTail(p)) == WithoutZeros(DigitsVal(p))
    decreases |p|
  {
    if p != "" {
      var t := p[..|p| - 1];
      LastDigitTells(p);
      if p[|p| - 1] == '0' {
        StripTailWithoutZeros(t);
        assert DigitsVal(p) == 10 * DigitsVal(t);
      }
    }
  }

  /** The value of the digits that toString shows. */
  function Shown(x: Scaled): nat
    requires WellFormed(x)
  {
    ValBound(x.parts);
    if x.decimalDigits > 0 then WithoutZeros(Val(x.parts)) else Val(x.parts)
  }

  lemma DigitsShown(x: Scaled)
    requires WellFormed(x)
    ensures AllDigits(Digits(x)) && DigitsVal(Digits(x)) == Shown(x)
  {
    PrintLimbsAny(x.parts);
    StripTailWithoutZeros(B.PrintLimbs(x.parts));
  }

  /** Zeros appended to a number. */
  function Shift(v: nat, n: nat): nat {
    MulNonNegative(v, Pow10(n));
    v * Pow10(n)
  }

  lemma MulNonNegative(a: nat, b: nat)
    ensures a * b >= 0
  {}

  /** Aligned and read back, an operand is the value it shows, shifted by the padding. */
  lemma AlignedOperand(x: Scaled, pad: nat)
    requires WellFormed(x) && Printed(x).Ok?
    ensures B.Created(Aligned(Printed(x).value, pad)) == Ok(B.Number(LimbsOf(Shift(Shown(x), pad)), x.isPositive))
  {
    var q := Digits(x);
    PrintedDigits(x);
    DigitsShown(x);
    AlignedText(x, pad);
    ShiftedValue(q, pad);
    SignedConcat(x.isPositive, q, Zeros(pad));
    CreatedLimbs(!x.isPositive, q + Zeros(pad));
  }

  lemma SignedConcat(isPositive: bool, q: string, z: string)
    ensures Sign(isPositive) + q + z == B.Signed(!isPositive, q + z)
  {}

  lemma CreatedLimbs(neg: bool, t: string)
    requires AllDigits(t) && t != "" && (neg ==> DigitsVal(t) > 0)
    ensures B.Created(B.Signed(neg, t)) == Ok(B.Number(LimbsOf(DigitsVal(t)), !neg))
  {
    B.CreatedValue(neg, t);
    LimbsOfValue(DigitsVal(t));
    var n := B.Created(B.Signed(neg, t)).value;
    ValBound(n.parts);
    NormalUnique(n.parts, LimbsOf(DigitsVal(t)));
  }

  lemma ShiftedValue(q: string, n: nat)
    requires AllDigits(q)
    ensures AllDigits(q + Zeros(n)) && DigitsVal(q + Zeros(n)) == Shift(DigitsVal(q), n)
    ensures DigitsVal(q) > 0 ==> DigitsVal(q + Zeros(n)) > 0
  {
    DigitsValConcat(q, Zeros(n));
    ZerosVal(n);
    if DigitsVal(q) > 0 { MulAtLeast(DigitsVal(q), Pow10(n)); }
  }

  /** An operand's shown value at a common scale. */
  function AtScale(x: Scaled, m: nat): nat
    requires WellFormed(x) && x.decimalDigits <= m
  {
    Shift(Shown(x), m - x.decimalDigits)
  }

  /** Same-sign addition: the shown values at the finer scale, added limb by limb. The position of the
      point is left as it was. */
  function Summed(x: Scaled, y: Scaled): Result<Scaled>
    requires WellFormed(x) && WellFormed(y)
  {
    var m := Max(x.decimalDigits, y.decimalDigits);
    var _ :- Printed(x);
    var _ :- Printed(y);
    Ok(x.(parts := AddLimbs(LimbsOf(AtScale(x, m)), LimbsOf(AtScale(y, m)), false), decimalDigits := m))
  }

  /** The sum of the shown values needs more limbs than either of them has. */
  predicate Carries(x: Scaled, y: Scaled)
    requires WellFormed(x) && WellFormed(y)
  {
    var m := Max(x.decimalDigits, y.decimalDigits);
    AtScale(x, m) + AtScale(y, m) >= Pow(Longer(LimbsOf(AtScale(x, m)), LimbsOf(AtScale(y, m))))
  }

  /** The sum of two values at a common scale. */
  function ExactSum(x: Scaled, y: Scaled): int {
    var m := Max(x.decimalDigits, y.decimalDigits);
    Val(x.parts) * Pow10(m - x.decimalDigits) + Val(y.parts) * Pow10(m - y.decimalDigits)
  }

  lemma ScaleMonotone(q: int, v: int, p: int)
    requires q <= v && p >= 1
    ensures q * p <= v * p && (q * p == v * p <==> q == v)
  {
    MulMonotone(p, q, v);
    if q < v { MulMonotone(p, q + 1, v); }
  }

  /** What an operand comes to at the common scale: no more than its value, and that much just when it
      loses no zeros. */
  lemma ScaleBelow(x: Scaled, m: nat)
    requires WellFormed(x) && Printed(x).Ok? && x.decimalDigits <= m
    ensures var w := Val(x.parts) * Pow10(m - x.decimalDigits);
      AtScale(x, m) <= w && (AtScale(x, m) == w <==> !LosesZeros(x))
  {
    ValBound(x.parts);
    WithoutZerosLess(Val(x.parts));
    if x.decimalDigits > 0 && Val(x.parts) == 0 { ZeroIsRefused(x); }
    ScaleMonotone(Shown(x), Val(x.parts), Pow10(m - x.decimalDigits));
  }

  lemma SumOfLimbs(a: nat, b: nat)
    ensures var r := AddLimbs(LimbsOf(a), LimbsOf(b), false);
      InRange(r) && Val(r) <= a + b && (Val(r) == a + b <==> a + b < Pow(Longer(LimbsOf(a), LimbsOf(b))))
  {
    LimbsOfValue(a);
    LimbsOfValue(b);
    SumModulo(LimbsOf(a), LimbsOf(b));
    AddValue(LimbsOf(a), LimbsOf(b), false);
  }

  /** Same-sign addition throws just when an operand does not print; else its result stands at the larger
      scale, and is the exact sum just when neither operand's digits end in a zero behind the point and
      the aligned addition has no outgoing carry. */
  lemma AddExactly(x: Scaled, y: Scaled)
    requires WellFormed(x) && WellFormed(y)
    ensures Summed(x, y).Ok? <==> Printed(x).Ok? && Printed(y).Ok?
    ensures Summed(x, y).Ok? ==>
      var r := Summed(x, y).value;
      && r.isPositive == x.isPositive && InRange(r.parts)
      && r.decimalDigits == Max(x.decimalDigits, y.decimalDigits) && r.decimalStartsAt == x.decimalStartsAt
      && Val(r.parts) <= ExactSum(x, y)
      && (Val(r.parts) == ExactSum(x, y) <==> !LosesZeros(x) && !LosesZeros(y) && !Carries(x, y))
  {
    if Printed(x).Ok? && Printed(y).Ok? {
      var m := Max(x.decimalDigits, y.decimalDigits);
      ShownSum(x, y, m);
      SumOfLimbs(AtScale(x, m), AtScale(y, m));
    }
  }

  /** Whether a sum that loses nothing can be shown: with digits behind the point, it does not end in a
      zero and has digits enough; else the first operand places no point, or right behind its digits. */
  predicate SumShows(x: Scaled, y: Scaled) {
    var m, t := Max(x.decimalDigits, y.decimalDigits), IntToStr(ExactSum(x, y));
    if m > 0 then ExactSum(x, y) % 10 != 0 && |t| >= m
    else x.decimalStartsAt == 0 || x.decimalStartsAt == |Sign(x.isPositive)| + |t|
  }

  /** The sum of two numbers prints as their exact sum, at the larger scale, just when neither operand
      loses zeros, no carry is lost, and that sum can be shown. */
  lemma SumPrintsExactly(x: Scaled, y: Scaled)
    requires WellFormed(x) && WellFormed(y) && Summed(x, y).Ok?
    ensures var r := Summed(x, y).value;
      && r.parts != []
      && ((Printed(r).Ok? && Shows(Printed(r).value, !r.isPositive, ExactSum(x, y), r.decimalDigits)) <==>
          !LosesZeros(x) && !LosesZeros(y) && !Carries(x, y) && SumShows(x, y))
  {
    var r, v := Summed(x, y).value, ExactSum(x, y);
    AddExactly(x, y);
    SumHasLimbs(x, y);
    PrintsExactly(r);
    if Printed(r).Ok? && Shows(Printed(r).value, !r.isPositive, v, r.decimalDigits) {
      ShowsOnlyDigits(r, v);
      DigitsKept(r);
    }
    if !LosesZeros(x) && !LosesZeros(y) && !Carries(x, y) { SumNumeral(x, y); }
  }

  /** A sum that loses nothing has the numeral of the exact sum for its digits. */
  lemma SumNumeral(x: Scaled, y: Scaled)
    requires WellFormed(x) && WellFormed(y) && Summed(x, y).Ok?
    requires !LosesZeros(x) && !LosesZeros(y) && !Carries(x, y)
    ensures var r := Summed(x, y).value;
      r.parts != [] && Val(r.parts) == ExactSum(x, y) && B.PrintLimbs(r.parts) == IntToStr(ExactSum(x, y))
  {
    var m := Max(x.decimalDigits, y.decimalDigits);
    AddExactly(x, y);
    NormalSum(AtScale(x, m), AtScale(y, m));
    var n := B.Number(Summed(x, y).value.parts, true);
    B.PrintedIsNumeral(n);
    assert "" + B.PrintLimbs(n.parts) == B.PrintLimbs(n.parts);
  }

  /** Without an outgoing carry the limbs of a sum are in normal form. */
  lemma NormalSum(a: nat, b: nat)
    requires a + b < Pow(Longer(LimbsOf(a), LimbsOf(b)))
    ensures Normal(AddLimbs(LimbsOf(a), LimbsOf(b), false))
  {
    var f, s := LimbsOf(a), LimbsOf(b);
    var r := AddLimbs(f, s, false);
    LimbsOfValue(a);
    LimbsOfValue(b);
    SumModulo(f, s);
    if |f| >= |s| { LargerIsNormal(f, r); } else { LargerIsNormal(s, r); }
  }

  lemma LargerIsNormal(f: seq<int>, r: seq<int>)
    requires Normal(f) && InRange(r) && |r| == |f| && Val(r) >= Val(f)
    ensures Normal(r)
  {
    NormalLength(f);
    if |r| > 1 {
      ValTop(r);
      ValBound(r[..|r| - 1]);
    }
  }

  lemma SumHasLimbs(x: Scaled, y: Scaled)
    requires WellFormed(x) && WellFormed(y) && Summed(x, y).Ok?
    ensures Summed(x, y).value.parts != []
  {
    var m := Max(x.decimalDigits, y.decimalDigits);
    LimbsOfValue(AtScale(x, m));
    LimbsOfValue(AtScale(y, m));
    AddShape(LimbsOf(AtScale(x, m)), LimbsOf(AtScale(y, m)), false);
  }

  /** 0.5 and 0.5 make 1.0, which prints as ".1": the zero is dropped and its place with it. */
  lemma HalfAndHalf(x: Scaled)
    requires x == Scaled([5], true, 1, 0)
    ensures WellFormed(x) && Summed(x, x) == Ok(Scaled([10], true, 1, 0)) && Printed(Scaled([10], true, 1, 0)) == Ok(".1")
  {
    HalvesSum(x);
    TenPrints(Scaled([10], true, 1, 0), "10");
  }

  lemma HalvesSum(x: Scaled)
    requires x == Scaled([5], true, 1, 0)
    ensures WellFormed(x) && Summed(x, x) == Ok(x.(parts := [10]))
  {
    OneLimbPrints(5, "5");
    SmallSum(x, x, 5, 5);
  }

  lemma TenPrints(x: Scaled, t: string)
    requires x == Scaled([10], true, 1, 0) && t == "10"
    ensures Printed(x) == Ok(".1")
  {
    ToStrStep(1, 10, "1", t);
    OneLimbPrints(10, t);
    assert StripTail("1") == "1";
    assert t[..1] == "1" && StripTail(t) == "1" && "" + t == t;
    assert "1"[..0] + "." + "1"[0..] == ".1";
  }

  /** "12." and "988." make 1000, which prints as "10.00": the point keeps the place it had in the first. */
  lemma PointStaysBehind(x: Scaled, y: Scaled)
    requires x == Scaled([12], true, 0, 2) && y == Scaled([988], true, 0, 3)
    ensures WellFormed(x) && WellFormed(y)
    ensures Summed(x, y) == Ok(Scaled([1000], true, 0, 2)) && Printed(Scaled([1000], true, 0, 2)) == Ok("10.00")
  {
    TwelveAnd988(x, y);
    ThousandPrints(Scaled([1000], true, 0, 2), "1000");
  }

  lemma TwelveAnd988(x: Scaled, y: Scaled)
    requires x == Scaled([12], true, 0, 2) && y == Scaled([988], true, 0, 3)
    ensures WellFormed(x) && WellFormed(y) && Summed(x, y) == Ok(x.(parts := [1000]))
  {
    ToStrStep(1, 12, "1", "12");
    ToStrStep(9, 98, "9", "98");
    ToStrStep(98, 988, "98", "988");
    OneLimbPrints(12, "12");
    OneLimbPrints(988, "988");
    SmallSum(x, y, 12, 988);
  }

  lemma ThousandPrints(x: Scaled, t: string)
    requires x == Scaled([1000], true, 0, 2) && t == "1000"
    ensures Printed(x) == Ok("10.00")
  {
    ToStrStep(1, 10, "1", "10");
    ToStrStep(10, 100, "10", "100");
    ToStrStep(100, 1000, "100", t);
    OneLimbPrints(1000, t);
    assert "" + t == t;
    assert t[..2] + "." + t[2..] == "10.00";
  }

  lemma ToStrStep(a: nat, n: nat, s: string, t: string)
    requires a == n / 10 && n >= 10 && t == s + [Digit(n % 10)]
    requires if a < 10 then s == [Digit(a)] else ToStr(a) == s
    ensures ToStr(n) == t
  {}

  lemma OneLimbPrints(n: nat, t: string)
    requires n < BASE && ToStr(n) == t
    ensures InRange([n]) && Val([n]) == n && B.PrintLimbs([n]) == t
  {
    B.SingleLimb([n]);
  }

  lemma SmallSum(x: Scaled, y: Scaled, a: nat, b: nat)
    requires x.parts == [a] && y.parts == [b] && x.isPositive && y.isPositive && x.decimalDigits == y.decimalDigits
    requires InRange(x.parts) && InRange(y.parts) && Val(x.parts) == a && Val(y.parts) == b
    requires Printable(x) && Printable(y) && a + b < BASE
    ensures WellFormed(x) && WellFormed(y) && Summed(x, y) == Ok(x.(parts := [a + b]))
  {
    PrintableShows(x);
    PrintableShows(y);
    WithoutZerosLess(a);
    WithoutZerosLess(b);
    assert Pow10(0) == 1;
    assert Shift(a, 0) == a && Shift(b, 0) == b;
    assert AddLimbs([a], [b], false) == [a + b];
  }

  lemma ShownSum(x: Scaled, y: Scaled, m: nat)
    requires WellFormed(x) && WellFormed(y) && Printed(x).Ok? && Printed(y).Ok?
    requires m == Max(x.decimalDigits, y.decimalDigits)
    ensures var a := AtScale(x, m) + AtScale(y, m);
      a <= ExactSum(x, y) && (a == ExactSum(x, y) <==> !LosesZeros(x) && !LosesZeros(y))
  {
    ScaleBelow(x, m);
    ScaleBelow(y, m);
  }

  /** A text with a point, or one without. */
  function NumberText(neg: bool, whole: string, frac: string, point: bool): string {
    if point then Pointed(neg, whole, frac) else B.Signed(neg, whole)
  }

  /** The texts that reading and printing give back. */
  predicate CanonicalText(neg: bool, whole: string, frac: string, point: bool) {
    && AllDigits(whole) && AllDigits(frac)
    && if point then Canonical(neg, whole, frac)
       else frac == "" && whole != "" && (whole[0] != '0' || (whole == "0" && !neg))
  }

  /** What is read from a canonical text is well formed, prints, and loses no zeros. */
  lemma CanonicalIsSound(neg: bool, whole: string, frac: string, point: bool) returns (x: Scaled)
    requires CanonicalText(neg, whole, frac, point)
    ensures Created(NumberText(neg, whole, frac, point)) == Ok(x)
    ensures WellFormed(x) && Printed(x).Ok? && !LosesZeros(x)
    ensures x.isPositive == !neg && x.decimalDigits == |frac| && x.decimalStartsAt == if point then |whole| else 0
    ensures AllDigits(whole + frac) && Val(x.parts) == DigitsVal(whole + frac)
  {
    if point {
      x := PointedIsSound(neg, whole, frac);
    } else {
      x := WholeIsSound(neg, whole);
    }
    assert !point ==> whole + frac == whole;
  }

  lemma PointedIsSound(neg: bool, whole: string, frac: string) returns (x: Scaled)
    requires AllDigits(whole) && AllDigits(frac) && Canonical(neg, whole, frac)
    ensures Created(Pointed(neg, whole, frac)) == Ok(x)
    ensures WellFormed(x) && Printed(x).Ok? && !LosesZeros(x)
    ensures x.isPositive == !neg && x.decimalDigits == |frac| && x.decimalStartsAt == |whole|
    ensures AllDigits(whole + frac) && Val(x.parts) == DigitsVal(whole + frac)
  {
    var d := whole + frac;
    CanonicalPrints(neg, whole, frac);
    CreatedPointed(neg, whole, frac);
    Survivors(whole, frac);
    KeptValue(d, !neg);
    LastDigitTells(d);
    x := Created(Pointed(neg, whole, frac)).value;
  }

  lemma WholeIsSound(neg: bool, whole: string) returns (x: Scaled)
    requires AllDigits(whole) && whole != "" && (whole[0] != '0' || (whole == "0" && !neg))
    ensures Created(B.Signed(neg, whole)) == Ok(x)
    ensures WellFormed(x) && Printed(x).Ok? && !LosesZeros(x)
    ensures x.isPositive == !neg && x.decimalDigits == x.decimalStartsAt == 0 && Val(x.parts) == DigitsVal(whole)
  {
    CreatedWhole(neg, whole);
    B.CreatedValue(neg, whole);
    x := Created(B.Signed(neg, whole)).value;
    ValBound(x.parts);
    NumeralIsItself(whole);
  }

  /** Adding two canonical texts of the same sign gives their sum, at the finer of their scales, just when
      the aligned addition has no outgoing carry; and that is what it prints just when it can be shown. */
  lemma AddTexts(neg: bool, whole1: string, frac1: string, point1: bool, whole2: string, frac2: string, point2: bool)
    returns (x: Scaled, y: Scaled)
    requires CanonicalText(neg, whole1, frac1, point1) && CanonicalText(neg, whole2, frac2, point2)
    ensures Created(NumberText(neg, whole1, frac1, point1)) == Ok(x)
    ensures Created(NumberText(neg, whole2, frac2, point2)) == Ok(y)
    ensures AllDigits(whole1 + frac1) && AllDigits(whole2 + frac2)
    ensures WellFormed(x) && WellFormed(y) && x.isPositive == y.isPositive == !neg
    ensures x.decimalDigits == |frac1| && Val(x.parts) == DigitsVal(whole1 + frac1)
    ensures x.decimalStartsAt == if point1 then |whole1| else 0
    ensures y.decimalDigits == |frac2| && Val(y.parts) == DigitsVal(whole2 + frac2)
    ensures Summed(x, y).Ok? && Summed(x, y).value.parts != []
    ensures var r := Summed(x, y).value;
      && (Val(r.parts) == ExactSum(x, y) <==> !Carries(x, y))
      && ((Printed(r).Ok? && Shows(Printed(r).value, neg, ExactSum(x, y), Max(|frac1|, |frac2|))) <==>
          !Carries(x, y) && SumShows(x, y))
  {
    x := CanonicalIsSound(neg, whole1, frac1, point1);
    y := CanonicalIsSound(neg, whole2, frac2, point2);
    AddExactly(x, y);
    SumPrintsExactly(x, y);
  }

  // ---------------------------------------------------------------- the class

  class Bigdecimal {
    var parts: seq<int>
    var isPositive: bool
    var decimalDigits: nat
    var decimalStartsAt: nat

    constructor ()
      ensures View() == Scaled([0], true, 0, 0)
    {
      isPositive := true;
      parts := [0];
      decimalDigits := 0;
      decimalStartsAt := 0;
    }

    function View(): Scaled
      reads this
    {
      Scaled(parts, isPositive, decimalDigits, decimalStartsAt)
    }

    /** create: on failure an exception leaves the constructor and there is no object. */
    method Create(value: string) returns (r: Result<()>)
      modifies this
      ensures match Created(value)
        case Ok(x) => r.Ok? && View() == x
        case Throw(e) => r == Throw(e)
    {
      isPositive := true;
      parts := [];
      var temp := B.Trim(value);
      var minusSign := B.LastIndexOf(temp, '-');
      if minusSign > 0 { return Throw("Invalid -"); }
      if minusSign == 0 {
        isPositive := false;
        temp := temp[1..];
      }
      temp := B.StripZeros(temp);
      decimalStartsAt := 0;
      decimalDigits := 0;
      if temp == "" {
        isPositive := true;
        parts := [0];
        return Ok(());
      }
      var dot := Find(temp, ".");
      if dot != -1 {
        if dot != B.LastIndexOf(temp, '.') { return Throw("Invalid decimal Number"); }
        decimalDigits := |temp| - dot - 1;
        decimalStartsAt := dot;
        temp := StripTail(ReplaceFirst(temp, ".", ""));
      }
      var limbs := B.Bigint.CutLimbs(temp);
      if limbs.Throw? { return Throw(BAD_VALUE); }
      parts := limbs.value;
      if parts == [] { return Throw(OUT_OF_RANGE); }
      if parts[|parts| - 1] == 0 {
        parts := parts[..|parts| - 1];
      }
      CheckAndSetIfZero();
      return Ok(());
    }

    method CheckAndSetIfZero()
      modifies this
      ensures B.Number(parts, isPositive) == B.Zeroed(B.Number(old(parts), old(isPositive)))
      ensures decimalDigits == old(decimalDigits) && decimalStartsAt == old(decimalStartsAt)
    {
      var flag := B.Bigint.AnyPositive(parts);
      if !flag || |parts| == 0 {
        parts := [0];
        isPositive := true;
      }
    }

    /** toString of a value. */
    static method Print(x: Scaled) returns (r: Result<string>)
      ensures r == Printed(x)
    {
      if x.parts == [] { return Ok("0"); }
      var build := Sign(x.isPositive);
      var digits := B.Bigint.PrintReversed(x.parts);
      build := build + digits;
      if x.decimalDigits > 0 {
        build := StripTail(build);
        r := PointFromEnd(build, x.decimalDigits);
      } else if x.decimalStartsAt > 0 {
        r := PointAt(build, x.decimalStartsAt);
      } else {
        r := Ok(build);
      }
    }

    method ToString() returns (r: Result<string>)
      ensures r == Printed(View())
    {
      r := Print(View());
    }

    /** The padding loops of add. */
    static method Pad(s: string, n: nat) returns (t: string)
      ensures t == s + Zeros(n)
    {
      t := s;
      for j := 0 to n
        invariant t == s + Zeros(j)
      {
        ZerosStep(s, j);
        t := t + "0";
      }
    }

    /** The whole numbers of two texts, added. */
    static method AddTexts(fval: string, sval: string, ghost f: B.Number, ghost s: B.Number)
      returns (parts: seq<int>, isPositive: bool)
      requires B.Created(fval) == Ok(f) && B.Created(sval) == Ok(s)
      requires f.isPositive == s.isPositive && InRange(f.parts) && InRange(s.parts)
      ensures B.Number(parts, isPositive) == B.Added(f, s)
    {
      var fnum := new B.Bigint();
      var snum := new B.Bigint();
      var made := fnum.Create(fval);
      made := snum.Create(sval);
      fnum.Add(snum.View());
      parts, isPositive := fnum.parts, fnum.isPositive;
    }

    /** An operand's text, ready for Bigint. */
    static method Align(x: Scaled, printed: string, m: nat) returns (t: string, ghost n: B.Number)
      requires WellFormed(x) && Printed(x) == Ok(printed) && x.decimalDigits <= m
      ensures B.Created(t) == Ok(n) && InRange(n.parts)
      ensures n == B.Number(LimbsOf(AtScale(x, m)), x.isPositive)
    {
      t := Pad(printed, m - x.decimalDigits);
      t := ReplaceFirst(t, ".", "");
      AlignedOperand(x, m - x.decimalDigits);
      LimbsOfValue(AtScale(x, m));
      n := B.Number(LimbsOf(AtScale(x, m)), x.isPositive);
    }

    /** The body of add on values. */
    static method Sum(x: Scaled, y: Scaled) returns (r: Result<Scaled>)
      requires WellFormed(x) && WellFormed(y) && x.isPositive == y.isPositive
      ensures r == Summed(x, y)
    {
      var printed := Print(x);
      var fval :- printed;
      printed := Print(y);
      var sval :- printed;
      var maxdecdigits := Max(x.decimalDigits, y.decimalDigits);
      ghost var f, s;
      fval, f := Align(x, fval, maxdecdigits);
      sval, s := Align(y, sval, maxdecdigits);
      LimbsOfValue(AtScale(x, maxdecdigits));
      LimbsOfValue(AtScale(y, maxdecdigits));
      var parts, isPositive := AddTexts(fval, sval, f, s);
      return Ok(Scaled(parts, isPositive, maxdecdigits, x.decimalStartsAt));
    }

    method Add(number: Scaled) returns (r: Result<()>)
      requires WellFormed(View()) && WellFormed(number) && isPositive == number.isPositive
      modifies this
      ensures match Summed(old(View()), number)
        case Ok(x) => r.Ok? && View() == x
        case Throw(e) => r == Throw(e) && View() == old(View())
    {
      var sum := Sum(View(), number);
      var x :- sum;
      parts, isPositive, decimalDigits := x.parts, x.isPositive, x.decimalDigits;
      return Ok(());
    }
  }

  lemma ZerosStep(s: string, j: nat)
    ensures s + Zeros(j + 1) == s + Zeros(j) + "0"
  {}
}
