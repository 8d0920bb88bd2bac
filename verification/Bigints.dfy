/** The Bigint class of Bigint.cpp: decimal parsing and printing, and the operations on limbs with
    the sign bookkeeping around them. */
module Bigints {
  import opened Text
  import opened Decimal
  import opened Limbs

  datatype Number = Number(parts: seq<int>, isPositive: bool) {
    function Signed(): int { if isPositive then Val(parts) else 0 - Val(parts) }

    /** No leading zero limb, and zero only with a plus. */
    predicate Normalized() { Normal(parts) && (Val(parts) == 0 ==> isPositive) }
  }

  // ---------------------------------------------------------------- compare, add, subtract

  function Top(n: Number): int
    requires n.parts != []
  {
    n.parts[|n.parts| - 1]
  }

  /** compare: the signs, else the number of limbs, else the top limbs, and nothing below them. */
  function Compare(a: Number, b: Number): int
    requires a.parts != [] && b.parts != []
  {
    if a.isPositive == b.isPositive then
      if |a.parts| == |b.parts| then
        if Top(a) == Top(b) then 0 else if Top(a) > Top(b) then 1 else -1
      else if |a.parts| > |b.parts| then 1
      else -1
    else if a.isPositive then 1
    else -1
  }

  function Zeroed(n: Number): Number {
    if forall i :: 0 <= i < |n.parts| ==> n.parts[i] <= 0 then Number([0], true) else n
  }

  function Added(a: Number, b: Number): Number
    requires a.isPositive == b.isPositive
  {
    if a.parts != [] && b.parts != [] then a.(parts := AddLimbs(a.parts, b.parts, false)) else a
  }

  function Subtracted(a: Number, b: Number): Number
    requires a.isPositive == b.isPositive
  {
    if a.parts == [] || b.parts == [] then a
    else
      var c := Compare(a, b);
      var r := Zeroed(a.(parts := if c >= 0 then SubLimbs(a.parts, b.parts, false) else SubLimbs(b.parts, a.parts, false)));
      if c < 0 then r.(isPositive := false) else r
  }

  lemma {:induction false} AllZero(parts: seq<int>)
    requires InRange(parts)
    ensures (forall i :: 0 <= i < |parts| ==> parts[i] <= 0) <==> Val(parts) == 0
  {
    if parts != [] {
      AllZero(parts[1..]);
      ValBound(parts[1..]);
      if Val(parts) == 0 {
        forall i | 0 <= i < |parts| ensures parts[i] <= 0 { if i > 0 { assert parts[i] == parts[1..][i - 1]; } }
      } else if forall i :: 0 <= i < |parts| ==> parts[i] <= 0 {
        forall i | 0 <= i < |parts| - 1 ensures parts[1..][i] <= 0 { assert parts[1..][i] == parts[i + 1]; }
      }
    }
  }

  lemma ZeroedValue(n: Number)
    requires InRange(n.parts)
    ensures var z := Zeroed(n);
      && InRange(z.parts) && Val(z.parts) == Val(n.parts) && z.parts != []
      && z.isPositive == (n.isPositive || Val(n.parts) == 0)
  {
    AllZero(n.parts);
  }

  /** More limbs, or as many and a larger top limb, means a larger magnitude. */
  lemma LargerByShape(a: seq<int>, b: seq<int>)
    requires Normal(a) && Normal(b)
    requires |a| > |b| || (|a| == |b| && a[|a| - 1] > b[|b| - 1])
    ensures Val(a) > Val(b)
  {
    ValBound(b);
    if |a| > |b| {
      NormalLength(a);
      PowGrows(|b|, |a| - 1);
    } else {
      var n := |a| - 1;
      ValTop(a);
      ValTop(b);
      ValBound(a[..n]);
      ValBound(b[..n]);
      MulMonotone(Pow(n), b[n] + 1, a[n]);
    }
  }

  lemma {:induction false} PowGrows(m: nat, n: nat)
    requires m <= n
    ensures Pow(m) <= Pow(n)
    decreases n - m
  {
    if m < n {
      PowGrows(m + 1, n);
      MulAtLeast(BASE, Pow(m));
    }
  }

  /** Whether `compare` ranks two numbers as their values. */
  predicate RanksRight(a: Number, b: Number)
    requires a.parts != [] && b.parts != []
  {
    var c := Compare(a, b);
    (c < 0 <==> a.Signed() < b.Signed()) && (c == 0 <==> a.Signed() == b.Signed())
  }

  /** `compare` is right exactly between different signs, on equal numbers, and on positive numbers
      that differ in limb count or top limb. */
  lemma CompareExactly(a: Number, b: Number)
    requires a.Normalized() && b.Normalized()
    ensures RanksRight(a, b) <==>
      a.isPositive != b.isPositive || a == b || (a.isPositive && (|a.parts| != |b.parts| || Top(a) != Top(b)))
  {
    ValBound(a.parts);
    ValBound(b.parts);
    if a.isPositive == b.isPositive {
      var c := Compare(a, b);
      if c > 0 { LargerByShape(a.parts, b.parts); }
      if c < 0 { LargerByShape(b.parts, a.parts); }
      if Val(a.parts) == Val(b.parts) { NormalUnique(a.parts, b.parts); }
    }
  }

  /** A magnitude without the limbs below the `n`-th. */
  lemma HeadOf(parts: seq<int>, n: nat)
    requires Normal(parts) && |parts| <= n + 1
    ensures Val(parts) / Pow(n) == (if |parts| == n + 1 then parts[n] else 0)
    ensures |parts| == n + 1 && n > 0 ==> Val(parts) / Pow(n) >= 1
  {
    ValBound(parts);
    if |parts| == n + 1 {
      ValTop(parts);
      ValBound(parts[..n]);
      HeadLimb(Val(parts[..n]), parts[n], Pow(n));
    } else {
      PowGrows(|parts|, n);
      HeadLimb(Val(parts), 0, Pow(n));
    }
  }

  lemma HeadLimb(low: int, top: int, p: int)
    requires 0 <= low < p
    ensures (low + top * p) / p == top && (low + p * top) / p == top
  {
    var x := low + top * p;
    var d := x / p - top;
    assert x == p * (x / p) + x % p;
    assert p * d == low - x % p;
    if d >= 1 { MulMonotone(p, 1, d); } else if d <= -1 { MulMonotone(p, d, -1); }
  }

  /** What `compare` says: of two signs the plus; of like signs, both of them minus as well, the larger
      magnitude, but seen only from the top limb of the longer number on. */
  lemma CompareHeads(a: Number, b: Number)
    requires a.Normalized() && b.Normalized()
    ensures var n := (if |a.parts| > |b.parts| then |a.parts| else |b.parts|) - 1;
      var x, y := Val(a.parts) / Pow(n), Val(b.parts) / Pow(n);
      Compare(a, b) == if a.isPositive && !b.isPositive then 1 else if !a.isPositive && b.isPositive then -1
                       else if x > y then 1 else if x < y then -1 else 0
  {
    var n := (if |a.parts| > |b.parts| then |a.parts| else |b.parts|) - 1;
    HeadOf(a.parts, n);
    HeadOf(b.parts, n);
  }

  /** Same-sign subtraction on limbs: the difference of the magnitudes modulo the limb count of the
      operand that `compare` does not rank smaller. */
  lemma SubtractedModulo(a: Number, b: Number)
    requires a.isPositive == b.isPositive && a.Normalized() && b.Normalized()
    ensures var r := Subtracted(a, b); var (f, s) := if Compare(a, b) >= 0 then (a, b) else (b, a);
      && InRange(r.parts)
      && Val(r.parts) == (Val(f.parts) - Val(s.parts)) % Pow(|f.parts|)
      && (Val(r.parts) == Val(f.parts) - Val(s.parts) <==> Val(f.parts) >= Val(s.parts))
      && (r.isPositive <==> Compare(a, b) >= 0 && (a.isPositive || Val(r.parts) == 0))
  {
    var (f, s) := if Compare(a, b) >= 0 then (a, b) else (b, a);
    DifferenceModulo(f.parts, s.parts);
    ZeroedValue(a.(parts := SubLimbs(f.parts, s.parts, false)));
  }

  /** Same-sign subtraction is exact, sign included: for positive numbers except between two with the
      same limb count and top limb of which the first is smaller; for negative numbers just when the
      first has the larger or equal magnitude. */
  lemma SubtractExactly(a: Number, b: Number)
    requires a.isPositive == b.isPositive && a.Normalized() && b.Normalized()
    ensures Subtracted(a, b).Signed() == a.Signed() - b.Signed() <==>
      if a.isPositive then !(|a.parts| == |b.parts| && Top(a) == Top(b) && Val(a.parts) < Val(b.parts))
      else Val(a.parts) >= Val(b.parts)
  {
    SubtractedModulo(a, b);
    var r := Subtracted(a, b);
    ValBound(r.parts);
    var c := Compare(a, b);
    if c > 0 { LargerByShape(a.parts, b.parts); }
    if c < 0 { LargerByShape(b.parts, a.parts); }
    if c == 0 && Val(a.parts) < Val(b.parts) { WrapsPositive(a.parts, b.parts); }
  }

  lemma WrapsPositive(f: seq<int>, s: seq<int>)
    requires InRange(f) && InRange(s) && |f| == |s| && Val(f) < Val(s)
    ensures (Val(f) - Val(s)) % Pow(|f|) == Val(f) - Val(s) + Pow(|f|) > 0
  {
    ValBound(f);
    ValBound(s);
    SubModulus(Val(f) - Val(s) + Pow(|f|), Pow(|f|));
  }

  // ---------------------------------------------------------------- runs of additions

  function AddAll(a: Number, terms: seq<Number>): Number
    requires forall t :: t in terms ==> t.isPositive == a.isPositive
    decreases |terms|
  {
    if terms == [] then a
    else
      assert forall t :: t in terms[1..] ==> t in terms;
      AddAll(Added(a, terms[0]), terms[1..])
  }

  function Sum(terms: seq<Number>): int {
    if terms == [] then 0 else Val(terms[0].parts) + Sum(terms[1..])
  }

  lemma {:induction false} PowDivides(m: nat, n: nat) returns (k: int)
    requires m <= n
    ensures Pow(n) == k * Pow(m)
    decreases n
  {
    if m == n {
      k := 1;
    } else {
      k := PowDivides(m, n - 1);
      assert BASE * (k * Pow(m)) == (BASE * k) * Pow(m);
      k := BASE * k;
    }
  }

  /** What a run of same-sign additions loses is a multiple of 10^8 to the initial number of limbs. */
  lemma {:induction false} AddAllLoses(a: Number, terms: seq<Number>) returns (k: int)
    requires a.parts != [] && InRange(a.parts)
    requires forall t :: t in terms ==> t.isPositive == a.isPositive && t.parts != [] && InRange(t.parts)
    ensures var r := AddAll(a, terms);
      && InRange(r.parts) && |r.parts| >= |a.parts| && r.isPositive == a.isPositive
      && Val(a.parts) + Sum(terms) - Val(r.parts) == k * Pow(|a.parts|)
    decreases |terms|
  {
    if terms == [] {
      k := 0;
    } else {
      var b := terms[0];
      var c := Added(a, b);
      AddShape(a.parts, b.parts, false);
      AddValue(a.parts, b.parts, false);
      assert forall t :: t in terms[1..] ==> t in terms;
      var k1 := AddAllLoses(c, terms[1..]);
      var k2 := PowDivides(|a.parts|, |c.parts|);
      var out := Bit(CarryOut(a.parts, b.parts, false));
      Reassociate(k1, out, k2, Pow(|a.parts|));
      k := (k1 + out) * k2;
    }
  }

  lemma Reassociate(x: int, o: int, y: int, p: int)
    ensures x * (y * p) + o * (y * p) == ((x + o) * y) * p
  {}

  /** Over any run of same-sign additions the limbs stay in range, their number never falls, and the
      magnitude stays congruent to the true sum modulo 10^8 to the initial number of limbs. */
  lemma AddAllModulo(a: Number, terms: seq<Number>)
    requires a.parts != [] && InRange(a.parts)
    requires forall t :: t in terms ==> t.isPositive == a.isPositive && t.parts != [] && InRange(t.parts)
    ensures var r := AddAll(a, terms);
      && InRange(r.parts) && |r.parts| >= |a.parts| && r.isPositive == a.isPositive
      && Val(r.parts) % Pow(|a.parts|) == (Val(a.parts) + Sum(terms)) % Pow(|a.parts|)
  {
    var k := AddAllLoses(a, terms);
    ModShift(Val(AddAll(a, terms).parts), k, Pow(|a.parts|));
  }

  lemma ModShift(v: int, k: int, p: nat)
    requires p > 0
    ensures (v + k * p) % p == v % p
  {
    var w := v + k * p;
    assert v == p * (v / p) + v % p && w == p * (w / p) + w % p;
    var d := w / p - v / p - k;
    assert p * d == v % p - w % p;
    MulMonotone(p, d, -1);
    MulMonotone(p, 1, d);
  }

  // ---------------------------------------------------------------- parsing

  function TrimLeft(s: string): string { if s != "" && s[0] == ' ' then TrimLeft(s[1..]) else s }

  function TrimRight(s: string): string { if s != "" && s[|s| - 1] == ' ' then TrimRight(s[..|s| - 1]) else s }

  /** trimCopy of a text with nothing but spaces around it; a text of spaces alone stays as it is. */
  function Trim(s: string): string { if TrimLeft(s) == "" then s else TrimRight(TrimLeft(s)) }

  /** find_last_of for one character; -1 stands for npos. */
  function LastIndexOf(s: string, c: char): (r: int)
    ensures -1 <= r < |s|
    ensures r == -1 ==> forall i :: 0 <= i < |s| ==> s[i] != c
    ensures r >= 0 ==> s[r] == c && forall i :: r < i < |s| ==> s[i] != c
  {
    if s == "" then -1 else if s[|s| - 1] == c then |s| - 1 else LastIndexOf(s[..|s| - 1], c)
  }

  function StripZeros(s: string): string { if s != "" && s[0] == '0' then StripZeros(s[1..]) else s }

  const BAD_VALUE := "Invalid Bigint value"

  function CastLimb(s: string): Result<int> {
    match CastInt(s)
    case Ok(x) => Ok(x)
    case Throw(_) => Throw(BAD_VALUE)
  }

  /** The numeral cut into limbs of eight characters from the right. */
  function Chunks(t: string): Result<seq<int>> {
    if |t| > NUM_LENGTH then
      var x :- CastLimb(t[|t| - NUM_LENGTH..]);
      var rest :- Chunks(t[..|t| - NUM_LENGTH]);
      Ok([x] + rest)
    else if |t| > 0 then
      var x :- CastLimb(t);
      Ok([x])
    else Ok([])
  }

  function DropTopZero(parts: seq<int>): seq<int> {
    if parts != [] && parts[|parts| - 1] == 0 then parts[..|parts| - 1] else parts
  }

  /** create: what the constructor makes of a text. */
  function Created(value: string): Result<Number> {
    var temp := Trim(value);
    var minusSign := LastIndexOf(temp, '-');
    if minusSign > 0 then Throw("Invalid -")
    else
      var sig := StripZeros(if minusSign == 0 then temp[1..] else temp);
      if sig == "" then Ok(Number([0], true))
      else
        var parts :- Chunks(sig);
        Ok(Zeroed(Number(DropTopZero(parts), minusSign != 0)))
  }

  function Spaces(n: nat): (s: string)
    ensures |s| == n && forall i :: 0 <= i < n ==> s[i] == ' '
  {
    seq(n, _ => ' ')
  }

  lemma {:induction false} LeftTrimmed(n: nat, t: string)
    requires t == "" || t[0] != ' '
    ensures TrimLeft(Spaces(n) + t) == t
  {
    if n == 0 {
      assert Spaces(0) + t == t;
    } else {
      LeftTrimmed(n - 1, t);
      assert (Spaces(n) + t)[1..] == Spaces(n - 1) + t;
    }
  }

  lemma {:induction false} RightTrimmed(t: string, n: nat)
    requires t != "" && t[|t| - 1] != ' '
    ensures TrimRight(t + Spaces(n)) == t
  {
    var s := t + Spaces(n);
    if n == 0 {
      assert s == t;
    } else {
      RightTrimmed(t, n - 1);
      assert s[..|s| - 1] == t + Spaces(n - 1);
    }
  }

  /** Spaces around a text are cut off, and a text of spaces alone stays. */
  lemma TrimExactly(l: nat, t: string, r: nat)
    requires t != "" && t[0] != ' ' && t[|t| - 1] != ' '
    ensures Trim(Spaces(l) + t + Spaces(r)) == t
    ensures Trim(Spaces(l)) == Spaces(l)
  {
    LeftTrimmed(l, t + Spaces(r));
    assert Spaces(l) + (t + Spaces(r)) == Spaces(l) + t + Spaces(r);
    RightTrimmed(t, r);
    LeftTrimmed(l, "");
    assert Spaces(l) + "" == Spaces(l);
  }

  /** Spaces around a number make no difference. */
  lemma CreatedPadded(l: nat, t: string, r: nat)
    requires t != "" && t[0] != ' ' && t[|t| - 1] != ' '
    ensures Created(Spaces(l) + t + Spaces(r)) == Created(t)
  {
    TrimExactly(l, t, r);
    TrimExactly(0, t, 0);
    assert Spaces(0) + t + Spaces(0) == t;
  }

  /** A minus sign somewhere else than in front. */
  predicate LateMinus(t: string) { exists i :: 0 < i < |t| && t[i] == '-' }

  lemma LateMinusIs(t: string)
    ensures LastIndexOf(t, '-') > 0 <==> LateMinus(t)
    ensures LastIndexOf(t, '-') == 0 <==> t != "" && t[0] == '-' && !LateMinus(t)
  {}

  lemma {:induction false} ChunksRefuse(t: string)
    ensures Chunks(t).Throw? ==> Chunks(t) == Throw("Invalid Bigint value")
    decreases |t|
  {
    if |t| > NUM_LENGTH { ChunksRefuse(t[..|t| - NUM_LENGTH]); }
  }

  /** create refuses a minus sign behind the front, and nothing else, with that message. */
  lemma MinusRefused(value: string)
    ensures Created(value) == Throw("Invalid -") <==> LateMinus(Trim(value))
    ensures Created(value).Throw? && !LateMinus(Trim(value)) ==> Created(value) == Throw("Invalid Bigint value")
  {
    var t := Trim(value);
    var m := LastIndexOf(t, '-');
    LateMinusIs(t);
    ChunksRefuse(StripZeros(if m == 0 then t[1..] else t));
  }

  /** A character that stands in no numeral. */
  predicate Foreign(c: char) { !IsDigit(c) && c != ' ' && !(9 <= c as int <= 13) && c != '+' && c != '-' && c != '\0' }

  lemma ForeignFails(s: string, k: nat)
    requires (forall i :: 0 <= i < |s| ==> s[i] != '\0') && k < |s| && Foreign(s[k])
    ensures CastInt(s).Throw?
  {
    if CastInt(s).Ok? {
      var blank, sign, digits := CastIsNumeral(s);
      assert s == blank + sign + digits;
      NumeralCharacters(s, blank, sign, digits, k);
    }
  }

  lemma NumeralCharacters(s: string, blank: string, sign: string, digits: string, k: nat)
    requires s == blank + sign + digits && Blank(blank) && AllDigits(digits) && (sign == "" || sign == "+" || sign == "-") && k < |s|
    ensures !Foreign(s[k])
  {
    assert k >= |blank| + |sign| ==> s[k] == digits[k - |blank| - |sign|];
  }

  lemma ForeignTail(t: string, n: nat, k: nat)
    requires (forall i :: 0 <= i < |t| ==> t[i] != '\0') && n <= k < |t| && Foreign(t[k])
    ensures CastInt(t[n..]).Throw?
  {
    ForeignFails(t[n..], k - n);
  }

  lemma {:induction false} ForeignChunk(t: string, k: nat)
    requires (forall i :: 0 <= i < |t| ==> t[i] != '\0') && k < |t| && Foreign(t[k])
    ensures Chunks(t) == Throw("Invalid Bigint value")
    decreases |t|
  {
    var n := |t| - NUM_LENGTH;
    if n > 0 {
      if k >= n { ForeignTail(t, n, k); } else { ForeignChunk(t[..n], k); }
      ChunksRefuse(t[..n]);
    } else {
      ForeignFails(t, k);
    }
  }

  lemma {:induction false} StripZerosKeeps(s: string, k: nat) returns (j: nat)
    requires k < |s| && s[k] != '0'
    ensures j < |StripZeros(s)| && StripZeros(s)[j] == s[k]
    ensures forall i :: 0 <= i < |StripZeros(s)| ==> StripZeros(s)[i] in s
  {
    if s[0] == '0' { j := StripZerosKeeps(s[1..], k - 1); } else { j := k; }
  }

  /** A text with a character that stands in no numeral is refused. */
  lemma ForeignRefused(neg: bool, body: string, k: nat)
    requires forall i :: 0 <= i < |body| ==> body[i] != '\0' && body[i] != '-'
    requires body != "" && body[0] != ' ' && body[|body| - 1] != ' ' && k < |body| && Foreign(body[k])
    ensures Created(Signed(neg, body)) == Throw("Invalid Bigint value")
  {
    var t := Signed(neg, body);
    TrimExactly(0, t, 0);
    assert Spaces(0) + t + Spaces(0) == t;
    LateMinusIs(t);
    assert neg ==> t[0] == '-' && t[1..] == body;
    assert !neg ==> t == body;
    var j := StripZerosKeeps(body, k);
    ForeignChunk(StripZeros(body), j);
  }

  lemma {:induction false} StripZerosDigits(s: string)
    requires AllDigits(s)
    ensures var t := StripZeros(s); AllDigits(t) && DigitsVal(t) == DigitsVal(s) && (t != "" ==> t[0] != '0')
    decreases |s|
  {
    if s != "" && s[0] == '0' {
      StripZerosDigits(s[1..]);
      DigitsValConcat("0", s[1..]);
      assert s == "0" + s[1..];
      assert DigitsVal("0") == 0;
    }
  }

  lemma Pow10Eight()
    ensures Pow10(8) == BASE
  {
    assert Pow10(4) == 10000;
    Pow10Add(4, 4);
  }

  /** Cutting into limbs keeps the value, and a numeral without leading zeros has no zero top limb. */
  lemma {:induction false} ChunksValue(t: string)
    requires AllDigits(t) && t != "" && t[0] != '0'
    ensures var r := Chunks(t); r.Ok? && Normal(r.value) && r.value[|r.value| - 1] != 0 && Val(r.value) == DigitsVal(t)
    decreases |t|
  {
    Pow10Eight();
    if |t| > NUM_LENGTH {
      var hi, lo := t[..|t| - NUM_LENGTH], t[|t| - NUM_LENGTH..];
      assert t == hi + lo;
      ChunksValue(hi);
      DigitsValConcat(hi, lo);
      DigitsValBound(lo);
      CastDigits(lo);
      ValCons(DigitsVal(lo), Chunks(hi).value);
    } else {
      DigitsValBound(t);
      PowUpToEight(|t|);
      CastDigits(t);
      TopDigit(t);
    }
  }

  lemma {:induction false} PowUpToEight(n: nat)
    requires n <= 8
    ensures Pow10(n) <= BASE
  {
    Pow10Eight();
    Pow10Add(n, 8 - n);
    MulAtLeast(Pow10(8 - n), Pow10(n));
  }

  lemma TopDigit(t: string)
    requires AllDigits(t) && t != "" && t[0] != '0'
    ensures DigitsVal(t) > 0
  {
    DigitsValBound(t);
  }

  /** The text of a signed number: an optional minus and digits. */
  function Signed(neg: bool, digits: string): string { (if neg then "-" else "") + digits }

  lemma TrimSigned(neg: bool, digits: string)
    requires AllDigits(digits) && digits != ""
    ensures Trim(Signed(neg, digits)) == Signed(neg, digits)
    ensures LastIndexOf(Signed(neg, digits), '-') == if neg then 0 else -1
  {
    var s := Signed(neg, digits);
    assert s[|s| - 1] == digits[|digits| - 1] && s[0] == (if neg then '-' else digits[0]);
    forall i | 1 <= i < |s| ensures s[i] != '-' { assert IsDigit(digits[if neg then i - 1 else i]); }
    TrimNothing(s);
  }

  lemma TrimNothing(s: string)
    requires s != "" && s[0] != ' ' && s[|s| - 1] != ' '
    ensures Trim(s) == s
  {}

  /** Every numeral parses, to the normalized number of its value. */
  lemma CreatedValue(neg: bool, digits: string)
    requires AllDigits(digits) && digits != ""
    ensures var r := Created(Signed(neg, digits));
      r.Ok? && r.value.Normalized() && r.value.Signed() == if neg then 0 - DigitsVal(digits) else DigitsVal(digits)
  {
    var sig := StripZeros(digits);
    StripZerosDigits(digits);
    CreatedSteps(neg, digits);
    if sig == "" {
      ZeroNumber();
      assert Created(Signed(neg, digits)) == Ok(Number([0], true));
      assert DigitsVal(digits) == 0;
    } else {
      ChunksValue(sig);
      TopDigit(sig);
      var n := Number(Chunks(sig).value, !neg);
      KeptWhole(n);
      assert Created(Signed(neg, digits)) == Ok(n);
    }
  }

  lemma ZeroNumber()
    ensures Number([0], true).Normalized() && Number([0], true).Signed() == 0
  {
    assert Val([0]) == 0;
  }

  lemma KeptWhole(n: Number)
    requires Normal(n.parts) && n.parts[|n.parts| - 1] != 0 && Val(n.parts) > 0
    ensures DropTopZero(n.parts) == n.parts && Zeroed(n) == n && n.Normalized()
  {
    AllZero(n.parts);
  }

  lemma CreatedSteps(neg: bool, digits: string)
    requires AllDigits(digits) && digits != ""
    ensures var sig := StripZeros(digits);
      Created(Signed(neg, digits)) ==
        if sig == "" then Ok(Number([0], true))
        else if Chunks(sig).Ok? then Ok(Zeroed(Number(DropTopZero(Chunks(sig).value), !neg)))
        else Throw(Chunks(sig).message)
  {
    TrimSigned(neg, digits);
    var s := Signed(neg, digits);
    assert (if neg then s[1..] else s) == digits;
  }

  // ---------------------------------------------------------------- printing

  function Pad8(x: int): string {
    var t := IntToStr(x);
    (if |t| < NUM_LENGTH then Zeros(NUM_LENGTH - |t|) else "") + t
  }

  function PrintLimbs(parts: seq<int>): string
    requires parts != []
  {
    if |parts| == 1 then IntToStr(parts[0]) else PrintLimbs(parts[1..]) + Pad8(parts[0])
  }

  /** toString */
  function Printed(n: Number): string {
    if n.parts == [] then "0" else (if n.isPositive then "" else "-") + PrintLimbs(n.parts)
  }

  lemma PrintStep(parts: seq<int>, k: nat)
    requires k + 1 < |parts|
    ensures PrintLimbs(parts[k..]) == PrintLimbs(parts[k + 1..]) + Pad8(parts[k])
  {
    assert parts[k..][1..] == parts[k + 1..];
  }

  lemma {:induction false} ToStrLength(n: nat, k: nat)
    requires n < Pow10(k) && k >= 1
    ensures |ToStr(n)| <= k
  {
    if n >= 10 { ToStrLength(n / 10, k - 1); }
  }

  lemma Pad8Digits(x: int)
    requires 0 <= x <= NUM_MAX
    ensures AllDigits(Pad8(x)) && |Pad8(x)| == 8 && DigitsVal(Pad8(x)) == x
  {
    Pow10Eight();
    ToStrLength(x, 8);
    ToStrVal(x);
    PaddedValue(ToStr(x), 8 - |ToStr(x)|);
    PadIs(x, ToStr(x));
  }

  lemma PaddedValue(t: string, n: nat)
    requires AllDigits(t)
    ensures var s := Zeros(n) + t; AllDigits(s) && |s| == n + |t| && DigitsVal(s) == DigitsVal(t)
  {
    DigitsValConcat(Zeros(n), t);
    ZerosVal(n);
  }

  lemma PadIs(x: nat, t: string)
    requires t == ToStr(x) && |t| <= 8
    ensures Pad8(x) == Zeros(8 - |t|) + t
  {
    if |t| == 8 { assert Zeros(0) + t == t; }
  }

  lemma {:induction false} PrintLimbsValue(parts: seq<int>)
    requires Normal(parts)
    ensures var s := PrintLimbs(parts); AllDigits(s) && s != "" && DigitsVal(s) == Val(parts) && (s[0] == '0' ==> |s| == 1)
    decreases |parts|
  {
    if |parts| == 1 {
      ToStrVal(parts[0]);
    } else {
      PrintLimbsValue(parts[1..]);
      var hi, lo := PrintLimbs(parts[1..]), Pad8(parts[0]);
      Pad8Digits(parts[0]);
      DigitsValConcat(hi, lo);
      Pow10Eight();
      ZeroHigh(parts[1..]);
      assert DigitsVal("0") == 0 && hi != "0";
    }
  }

  lemma ZeroHigh(parts: seq<int>)
    requires Normal(parts) && parts[|parts| - 1] != 0
    ensures Val(parts) > 0
  {
    NormalLength(parts);
    if |parts| > 1 { assert Val(parts) >= Pow(|parts| - 1); }
  }

  /** A normalized number prints as the canonical numeral of its value. */
  lemma PrintedIsNumeral(n: Number)
    requires n.Normalized()
    ensures Printed(n) == IntToStr(n.Signed())
  {
    var t := PrintLimbs(n.parts);
    PrintLimbsValue(n.parts);
    ValBound(n.parts);
    assert t == ToStr(Val(n.parts)) by { ValToStr(t); }
    if n.isPositive { assert "" + t == t; } else { assert n.Signed() < 0 && 0 - n.Signed() == Val(n.parts); }
  }

  /** Printing what was parsed is the canonical form of the text: no leading zeros, no "-0". */
  lemma PrintAfterParse(neg: bool, digits: string)
    requires AllDigits(digits) && digits != ""
    ensures var r := Created(Signed(neg, digits));
      r.Ok? && Printed(r.value) == IntToStr(if neg then 0 - DigitsVal(digits) else DigitsVal(digits))
  {
    CreatedValue(neg, digits);
    PrintedIsNumeral(Created(Signed(neg, digits)).value);
  }

  /** Parsing what was printed gives the number back. */
  lemma ParseAfterPrint(n: Number)
    requires n.Normalized()
    ensures Created(Printed(n)) == Ok(n)
  {
    PrintLimbsValue(n.parts);
    var digits := PrintLimbs(n.parts);
    CreatedValue(!n.isPositive, digits);
    var m := Created(Printed(n)).value;
    assert Printed(n) == Signed(!n.isPositive, digits);
    ValBound(n.parts);
    ValBound(m.parts);
    assert Val(m.parts) == Val(n.parts) && m.isPositive == n.isPositive;
    NormalUnique(m.parts, n.parts);
  }

  // ---------------------------------------------------------------- multiplication of single limbs

  function Abs(x: int): nat { if x < 0 then 0 - x else x }

  /** What `multiply` takes a character for: a digit for its value, a minus sign for -3. */
  function Mult(c: char): int { c as int - '0' as int }

  /** One line of the schoolbook multiplication, as a numeral. */
  function Line(m: nat, mult: int, position: nat): string { IntToStr(m * mult) + Zeros(position) }

  lemma LineValue(m: nat, mult: int, position: nat)
    ensures var r := Created(Line(m, mult, position));
      r.Ok? && Normal(r.value.parts) && Val(r.value.parts) == m * Abs(mult) * Pow10(position)
  {
    ShiftedNumeral(m * mult, position);
    AbsProduct(m, mult);
  }

  lemma AbsProduct(m: nat, x: int)
    ensures Abs(m * x) == m * Abs(x)
  {}

  lemma ShiftedNumeral(x: int, position: nat)
    ensures var r := Created(IntToStr(x) + Zeros(position));
      r.Ok? && Normal(r.value.parts) && Val(r.value.parts) == Abs(x) * Pow10(position)
  {
    ShiftedDigits(Abs(x), position);
    ShiftedText(x, position);
    var digits := ToStr(Abs(x)) + Zeros(position);
    CreatedValue(x < 0, digits);
    Magnitude(Created(Signed(x < 0, digits)).value);
  }

  lemma ShiftedDigits(n: nat, position: nat)
    ensures var t := ToStr(n) + Zeros(position); AllDigits(t) && t != "" && DigitsVal(t) == n * Pow10(position)
  {
    ToStrVal(n);
    ZerosVal(position);
    DigitsValConcat(ToStr(n), Zeros(position));
  }

  lemma ShiftedText(x: int, position: nat)
    ensures IntToStr(x) + Zeros(position) == Signed(x < 0, ToStr(Abs(x)) + Zeros(position))
  {
    JoinsBehindSign(x < 0, ToStr(Abs(x)), Zeros(position));
  }

  lemma JoinsBehindSign(neg: bool, t: string, z: string)
    ensures Signed(neg, t) + z == Signed(neg, t + z) && Signed(false, t) == t
  {}

  lemma Magnitude(n: Number)
    requires Normal(n.parts)
    ensures Val(n.parts) == Abs(n.Signed())
  {
    ValBound(n.parts);
  }

  function LineParts(m: nat, mult: int, position: nat): (parts: seq<int>)
    ensures Normal(parts)
  {
    LineValue(m, mult, position);
    Created(Line(m, mult, position)).value.parts
  }

  lemma LineIs(m: nat, mult: int, position: nat)
    ensures Val(LineParts(m, mult, position)) == m * Abs(mult) * Pow10(position)
  {
    LineValue(m, mult, position);
  }

  /** The lines for the characters from the last to the first, added up one after the other. */
  function AddLines(m: nat, s: string, position: nat, acc: seq<int>): seq<int>
    decreases |s|
  {
    if s == "" then acc
    else
      var n := |s| - 1;
      AddLines(m, s[..n], position + 1, AddLimbs(acc, LineParts(m, Mult(s[n]), position), false))
  }

  /** The number the lines take the characters for. */
  function Weight(s: string): nat {
    if s == "" then 0 else 10 * Weight(s[..|s| - 1]) + Abs(Mult(s[|s| - 1]))
  }

  /** Characters with a weight below ten: digits, and the minus sign. */
  predicate Weighs(s: string) { forall i :: 0 <= i < |s| ==> Abs(Mult(s[i])) <= 9 }

  lemma {:induction false} WeightOfDigits(s: string)
    requires AllDigits(s)
    ensures Weighs(s) && Weight(s) == DigitsVal(s)
  {
    if s != "" { WeightOfDigits(s[..|s| - 1]); }
  }

  lemma {:induction false} WeightOfMinus(digits: string)
    requires AllDigits(digits)
    ensures var s := "-" + digits; Weighs(s) && Weight(s) == 3 * Pow10(|digits|) + DigitsVal(digits)
  {
    var s := "-" + digits;
    if digits == "" {
      assert s[..0] == "";
    } else {
      var n := |digits| - 1;
      WeightOfMinus(digits[..n]);
      assert s[..n + 1] == "-" + digits[..n];
      assert s[n + 1] == digits[n];
    }
  }

  /** The limbs of a normal number that is known in size. */
  lemma LimbCount(parts: seq<int>)
    requires Normal(parts) && Val(parts) < BASE * BASE
    ensures |parts| == if Val(parts) < BASE then 1 else 2
  {
    assert Pow(1) == BASE && Pow(2) == BASE * BASE;
    if |parts| > 2 { PowGrows(2, |parts| - 1); }
    NormalLength(parts);
    ValBound(parts);
  }

  /** Adding a number of one or two limbs: exact but for a carry out of two single limbs. */
  lemma OneAddition(acc: seq<int>, line: seq<int>)
    requires InRange(acc) && Normal(line) && 1 <= |acc| <= 2 && Val(acc) + Val(line) < BASE * BASE
    ensures var r := AddLimbs(acc, line, false); var single := |acc| == 1 && Val(line) < BASE;
      && InRange(r) && |r| == (if single then 1 else 2)
      && Val(r) == Val(acc) + Val(line) - (if single && Val(acc) + Val(line) >= BASE then BASE else 0)
  {
    ValBound(acc);
    ValBound(line);
    LimbCount(line);
    AddShape(acc, line, false);
    AddValue(acc, line, false);
    assert Pow(1) == BASE && Pow(2) == BASE * BASE;
    ValBound(AddLimbs(acc, line, false));
  }

  /** Once there are two limbs, or every further line has two or none, nothing is lost. */
  lemma {:induction false} WideLines(m: nat, s: string, position: nat, acc: seq<int>)
    requires InRange(acc) && 1 <= |acc| <= 2 && (|acc| == 2 || m * Pow10(position) >= BASE)
    requires Val(acc) + m * Weight(s) * Pow10(position) < BASE * BASE
    ensures Val(AddLines(m, s, position, acc)) == Val(acc) + m * Weight(s) * Pow10(position)
    decreases |s|
  {
    if s != "" {
      var n := |s| - 1;
      var d, high, p := Abs(Mult(s[n])), Weight(s[..n]), Pow10(position);
      var line := LineParts(m, Mult(s[n]), position);
      LineIs(m, Mult(s[n]), position);
      LinesSplit(m, high, d, Weight(s), p, Pow10(position + 1));
      WideStep(m, d, p, acc, line);
      WideLines(m, s[..n], position + 1, AddLimbs(acc, line, false));
    }
  }

  lemma LinesSplit(m: nat, high: nat, d: nat, all: nat, p: nat, q: nat)
    requires all == 10 * high + d && q == 10 * p
    ensures m * d * p + m * high * q == m * all * p && m * high * q >= 0
  {
    var x := m * p;
    assert m * d * p == x * d && m * high * q == x * (10 * high) && m * all * p == x * all;
    assert x * all == x * (10 * high) + x * d;
  }

  lemma WideStep(m: nat, d: nat, p: nat, acc: seq<int>, line: seq<int>)
    requires InRange(acc) && 1 <= |acc| <= 2 && (|acc| == 2 || m * p >= BASE)
    requires Normal(line) && Val(line) == m * d * p && Val(acc) + Val(line) < BASE * BASE
    ensures var r := AddLimbs(acc, line, false);
      && InRange(r) && 1 <= |r| <= 2 && (|r| == 2 || m * (10 * p) >= BASE)
      && Val(r) == Val(acc) + m * d * p
  {
    ValBound(acc);
    OneAddition(acc, line);
    NoneOrMore(m, d, p);
    assert Pow(1) == BASE;
  }

  lemma NoneOrMore(m: nat, d: nat, p: nat)
    ensures if d == 0 then m * d * p == 0 else m * d * p >= m * p
    ensures m * (10 * p) >= m * p
  {
    MulMonotone(m, 1, d);
    MulMonotone(p, m, m * d);
    MulMonotone(m, p, 10 * p);
  }

  /** The product with the last `p` + 1 digits of `y` no longer fits in one limb. */
  predicate Reaches(m: nat, y: nat, p: nat) { m * (y % Pow10(p + 1)) >= BASE }

  ghost predicate FitsBefore(m: nat, y: nat, p: nat) { forall q: nat :: q < p ==> !Reaches(m, y, q) }

  /** ... and with fewer digits it does. */
  ghost predicate FirstReach(m: nat, y: nat, p: nat) {
    Reaches(m, y, p) && FitsBefore(m, y, p)
  }

  function DigitAt(y: nat, p: nat): nat { y / Pow10(p) % 10 }

  /** Multiplying the limb `m` by the digits of `y` loses a carry: where the partial product first
      outgrows a limb, the line added there does not by itself. */
  ghost predicate LosesCarry(m: nat, y: nat) {
    exists p: nat :: FirstReach(m, y, p) && m * DigitAt(y, p) * Pow10(p) < BASE
  }

  lemma FirstDecides(m: nat, y: nat, p: nat)
    requires FirstReach(m, y, p)
    ensures LosesCarry(m, y) <==> m * DigitAt(y, p) * Pow10(p) < BASE
  {
    forall q: nat | FirstReach(m, y, q) ensures q == p {}
  }

  lemma NeverReached(m: nat, y: nat)
    requires m * y < BASE
    ensures !LosesCarry(m, y)
  {
    forall p: nat ensures !Reaches(m, y, p) {
      MulMonotone(m, y % Pow10(p + 1), y);
      RemainderAtMost(y, Pow10(p + 1));
    }
  }

  lemma RemainderAtMost(y: nat, q: nat)
    requires q > 0
    ensures y % q <= y
  {}

  /** The digit at a position, and the digits up to it. */
  lemma DigitSplit(y: nat, w: nat, high: nat, d: nat, low: nat, position: nat)
    requires d <= 9 && w == 10 * high + d && low < Pow10(position) && y == w * Pow10(position) + low
    ensures y % Pow10(position) == low && DigitAt(y, position) == d
    ensures y % Pow10(position + 1) == d * Pow10(position) + low
    ensures y == high * Pow10(position + 1) + (d * Pow10(position) + low)
    ensures 0 <= d * Pow10(position) + low < Pow10(position + 1) && high * Pow10(position + 1) >= 0
  {
    var p, q := Pow10(position), Pow10(position + 1);
    DivisionIs(y, p, w, low);
    DigitOfTen(high, d);
    UpperPart(high, d, low, p, q);
    DivisionIs(y, q, high, d * p + low);
  }

  lemma DigitOfTen(high: nat, d: nat)
    requires d <= 9
    ensures (10 * high + d) % 10 == d
  {}

  lemma UpperPart(high: nat, d: nat, low: nat, p: nat, q: nat)
    requires d <= 9 && low < p && q == 10 * p
    ensures (10 * high + d) * p + low == high * q + (d * p + low) && 0 <= d * p + low < q
  {
    MulMonotone(p, d, 9);
    assert (10 * high + d) * p == high * (10 * p) + d * p;
  }

  lemma DivisionIs(y: int, p: int, k: int, r: int)
    requires p > 0 && 0 <= r < p && y == k * p + r
    ensures y / p == k && y % p == r
  {
    var e := y / p - k;
    assert y == p * (y / p) + y % p;
    assert p * e == r - y % p;
    if e >= 1 { MulMonotone(p, 1, e); }
    if e <= -1 { MulMonotone(p, e, -1); }
  }

  /** The sum of the lines is the product, less 10^8 where a carry is lost. */
  lemma {:induction false} LinesExactly(m: nat, s: string, position: nat, y: nat, low: nat, acc: seq<int>)
    requires m < BASE && y < BASE && Weighs(s) && low < Pow10(position) && y == Weight(s) * Pow10(position) + low
    requires InRange(acc) && |acc| == 1 && Val(acc) == m * low && FitsBefore(m, y, position)
    ensures Val(AddLines(m, s, position, acc)) == m * y - (if LosesCarry(m, y) then BASE else 0)
    decreases |s|
  {
    if s == "" {
      NoLines(m, y, low, acc);
    } else {
      var next, r := OneLine(m, s, position, y, low, acc);
      RestOfLines(m, s, position, acc, r);
      var rest := s[..|s| - 1];
      WeighsStill(s);
      if m * next < BASE {
        LinesExactly(m, rest, position + 1, y, next, r);
      } else {
        LastLines(m, rest, position + 1, y, Weight(rest), next, r);
      }
    }
  }

  lemma RestOfLines(m: nat, s: string, position: nat, acc: seq<int>, r: seq<int>)
    requires s != "" && r == AddLimbs(acc, LineParts(m, Mult(s[|s| - 1]), position), false)
    ensures AddLines(m, s, position, acc) == AddLines(m, s[..|s| - 1], position + 1, r)
  {}

  lemma WeighsStill(s: string)
    requires s != "" && Weighs(s)
    ensures Weighs(s[..|s| - 1])
  {}

  /** The first line of the rest: the sum fits in a limb, or this is where the product outgrows one. */
  lemma OneLine(m: nat, s: string, position: nat, y: nat, low: nat, acc: seq<int>) returns (next: nat, r: seq<int>)
    requires m < BASE && y < BASE && Weighs(s) && low < Pow10(position) && y == Weight(s) * Pow10(position) + low
    requires InRange(acc) && |acc| == 1 && Val(acc) == m * low && FitsBefore(m, y, position) && s != ""
    ensures var n := |s| - 1;
      && r == AddLimbs(acc, LineParts(m, Mult(s[n]), position), false) && InRange(r)
      && next < Pow10(position + 1) && y == Weight(s[..n]) * Pow10(position + 1) + next
      && if m * next < BASE then |r| == 1 && Val(r) == m * next && FitsBefore(m, y, position + 1)
         else 1 <= |r| <= 2 && Val(r) == m * next - (if LosesCarry(m, y) then BASE else 0)
  {
    var n := |s| - 1;
    var d, high := Abs(Mult(s[n])), Weight(s[..n]);
    var line := LineParts(m, Mult(s[n]), position);
    LineIs(m, Mult(s[n]), position);
    DigitSplit(y, Weight(s), high, d, low, position);
    next := d * Pow10(position) + low;
    NextProduct(m, d, low, Pow10(position), next);
    r := AddLimbs(acc, line, false);
    NextLine(m, y, next, high * Pow10(position + 1), acc, line);
    ReachedHere(m, y, position, next, Val(line));
  }

  lemma ReachedHere(m: nat, y: nat, position: nat, next: nat, added: int)
    requires FitsBefore(m, y, position) && y % Pow10(position + 1) == next
    requires added == m * DigitAt(y, position) * Pow10(position)
    ensures if m * next < BASE then FitsBefore(m, y, position + 1) else LosesCarry(m, y) <==> added < BASE
  {
    if m * next >= BASE { FirstDecides(m, y, position); }
  }

  lemma NoLines(m: nat, y: nat, low: nat, acc: seq<int>)
    requires InRange(acc) && |acc| == 1 && Val(acc) == m * low && y == low
    ensures Val(acc) == m * y - (if LosesCarry(m, y) then BASE else 0)
  {
    ValBound(acc);
    assert Pow(1) == BASE;
    NeverReached(m, y);
  }

  lemma NextProduct(m: nat, d: nat, low: nat, p: nat, next: nat)
    requires next == d * p + low
    ensures m * next == m * d * p + m * low
  {
    assert m * (d * p) == m * d * p;
  }

  lemma NextLine(m: nat, y: nat, next: int, upper: int, acc: seq<int>, line: seq<int>)
    requires m < BASE && y < BASE && y == upper + next && upper >= 0 && next >= 0 && m * next == Val(line) + Val(acc)
    requires InRange(acc) && |acc| == 1 && Normal(line)
    ensures var r := AddLimbs(acc, line, false);
      && InRange(r) && |r| == (if Val(line) < BASE then 1 else 2)
      && Val(r) == m * next - (if Val(line) < BASE && m * next >= BASE then BASE else 0)
      && (m * next < BASE ==> Val(line) < BASE)
  {
    ValBound(acc);
    ProductFits(m, next);
    OneAddition(acc, line);
  }

  lemma ProductFits(m: nat, y: nat)
    requires m < BASE && y < BASE
    ensures m * y < BASE * BASE
  {
    MulMonotone(m, y, BASE);
    MulMonotone(BASE, m, BASE - 1);
  }

  /** The lines behind the one at which the product outgrew a limb. */
  lemma LastLines(m: nat, s: string, position: nat, y: nat, high: nat, next: nat, acc: seq<int>)
    requires m < BASE && y < BASE && high == Weight(s) && y == high * Pow10(position) + next && next < Pow10(position)
    requires m * next >= BASE && InRange(acc) && 1 <= |acc| <= 2 && m * next - BASE <= Val(acc) <= m * next
    ensures Val(AddLines(m, s, position, acc)) == Val(acc) + m * y - m * next
  {
    var p := Pow10(position);
    NextProduct(m, high, next, p, y);
    ProductFits(m, y);
    MulMonotone(m, next, p);
    WideLines(m, s, position, acc);
  }

  lemma ProductOfLines(m: nat, s: string)
    requires m < BASE && Weighs(s) && Weight(s) < BASE
    ensures Val(AddLines(m, s, 0, [0])) == m * Weight(s) - (if LosesCarry(m, Weight(s)) then BASE else 0)
  {
    SingleLimb([0]);
    LinesExactly(m, s, 0, Weight(s), 0, [0]);
  }

  lemma SingleLimb(parts: seq<int>)
    requires |parts| == 1
    ensures Val(parts) == parts[0]
  {}

  predicate OneLimb(n: Number) { |n.parts| == 1 && n.Normalized() }

  /** The numeral `multiply` takes its digits from: the one that is not longer, without its first
      character when the argument is negative. */
  function DigitsOf(a: Number, b: Number): string
    requires OneLimb(a) && OneLimb(b)
  {
    PrintLimbsValue(a.parts);
    var t := if |Printed(a)| > |Printed(b)| then Printed(b) else Printed(a);
    if !b.isPositive then t[1..] else t
  }

  /** multiply on numbers of one limb. */
  function Multiplied(a: Number, b: Number): Number
    requires OneLimb(a) && OneLimb(b)
  {
    var m := if |Printed(a)| > |Printed(b)| then a.parts[0] else b.parts[0];
    Number(AddLines(m, DigitsOf(a, b), 0, [0]), a.isPositive == b.isPositive)
  }

  lemma MultipliedIs(a: Number, b: Number, m: int, s: string, parts: seq<int>, isPositive: bool)
    requires OneLimb(a) && OneLimb(b) && s == DigitsOf(a, b)
    requires m == if |Printed(a)| > |Printed(b)| then a.parts[0] else b.parts[0]
    requires m >= 0 && parts == AddLines(m, s, 0, [0]) && isPositive == (a.isPositive == b.isPositive)
    ensures Number(parts, isPositive) == Multiplied(a, b)
  {}

  /** The sign that is dropped is that of the argument: right when the digits are the argument's, or
      both have it or neither. */
  predicate SignsAgree(a: Number, b: Number) {
    a.isPositive == b.isPositive || |Printed(a)| > |Printed(b)|
  }

  lemma OneLimbPrint(n: Number)
    requires OneLimb(n)
    ensures var t := PrintLimbs(n.parts); var x := n.parts[0];
      && AllDigits(t) && 1 <= |t| <= 8 && DigitsVal(t) == x && 0 <= x < BASE && Val(n.parts) == x
      && Printed(n) == (if n.isPositive then "" else "-") + t
      && (x > 0 ==> x >= Pow10(|t| - 1)) && (x == 0 ==> |t| == 1 && n.isPositive)
  {
    var t := PrintLimbs(n.parts);
    PrintLimbsValue(n.parts);
    SingleLimb(n.parts);
    DigitsValBound(t);
    Pow10Eight();
    ToStrLength(n.parts[0], 8);
  }

  /** The number the digits are taken for. */
  lemma DigitsWeigh(a: Number, b: Number)
    requires OneLimb(a) && OneLimb(b)
    ensures var w := Weight(DigitsOf(a, b)); var x := a.parts[0];
      && Weighs(DigitsOf(a, b)) && w < BASE
      && (|Printed(a)| > |Printed(b)| ==> w == b.parts[0])
      && (|Printed(a)| <= |Printed(b)| && a.isPositive == b.isPositive ==> w == x)
      && (|Printed(a)| <= |Printed(b)| && !a.isPositive && b.isPositive ==> w == 3 * Pow10(|PrintLimbs(a.parts)|) + x)
      && (|Printed(a)| <= |Printed(b)| && a.isPositive && !b.isPositive ==> if x == 0 then w == 0 else w < x)
  {
    OneLimbPrint(a);
    OneLimbPrint(b);
    var s, t := PrintLimbs(a.parts), PrintLimbs(b.parts);
    if |Printed(a)| > |Printed(b)| {
      PrintedDigits(b, t);
    } else if a.isPositive == b.isPositive {
      PrintedDigits(a, s);
    } else if b.isPositive {
      MinusWeight(Printed(a), s);
    } else {
      TailWeight(Printed(a), s);
    }
  }

  lemma MinusWeight(text: string, s: string)
    requires text == "-" + s && AllDigits(s) && |s| <= 7
    ensures Weighs(text) && Weight(text) == 3 * Pow10(|s|) + DigitsVal(s) < BASE
  {
    WeightOfMinus(s);
    DigitsValBound(s);
    Pow10AtMost(|s|, 7);
    Pow10Seven();
  }

  lemma Pow10Seven()
    ensures Pow10(6) == 1000000 && Pow10(7) == 10000000
  {
    assert Pow10(3) == 1000 && Pow10(4) == 10000;
    Pow10Add(3, 3);
    Pow10Add(4, 3);
  }

  lemma TailWeight(text: string, s: string)
    requires text == "" + s && AllDigits(s) && s != "" && DigitsVal(s) < BASE
    requires DigitsVal(s) >= Pow10(|s| - 1) || |s| == 1
    ensures var w := Weight(text[1..]); Weighs(text[1..]) && w < BASE && if DigitsVal(s) == 0 then w == 0 else w < DigitsVal(s)
  {
    assert text == s;
    WeightOfDigits(s[1..]);
    DigitsValBound(s[1..]);
    if |s| == 1 { assert s[1..] == ""; }
  }

  lemma PrintedDigits(n: Number, t: string)
    requires Printed(n) == (if n.isPositive then "" else "-") + t && AllDigits(t)
    ensures (if !n.isPositive then Printed(n)[1..] else Printed(n)) == t
    ensures Weighs(t) && Weight(t) == DigitsVal(t)
  {
    WeightOfDigits(t);
  }

  lemma {:induction false} Pow10AtMost(k: nat, n: nat)
    requires k <= n
    ensures Pow10(k) <= Pow10(n)
  {
    if k < n { Pow10AtMost(k, n - 1); }
  }

  /** The product of two one-limb numbers is exact just when a factor is zero, or no carry is lost and
      the sign is taken off the right numeral; a lost carry takes exactly 10^8 off. */
  lemma MultiplyExactly(a: Number, b: Number)
    requires OneLimb(a) && OneLimb(b)
    ensures var x, y := a.parts[0], b.parts[0];
      && (Multiplied(a, b).Signed() == a.Signed() * b.Signed() <==> x == 0 || y == 0 || (SignsAgree(a, b) && !Loses(a, b)))
      && (SignsAgree(a, b) ==> Val(Multiplied(a, b).parts) == x * y - (if Loses(a, b) then BASE else 0))
  {
    var p, lost := MultipliedMagnitude(a, b);
    SignedProduct(a, b);
    Verdict(a.parts[0] * b.parts[0], p, Val(Multiplied(a, b).parts), SignsAgree(a, b), lost);
  }

  /** Whether a carry is lost between the numeral that is not longer and the limb of the other. */
  ghost predicate Loses(a: Number, b: Number)
    requires OneLimb(a) && OneLimb(b)
  {
    if |Printed(a)| > |Printed(b)| then LosesCarry(a.parts[0], b.parts[0]) else LosesCarry(b.parts[0], a.parts[0])
  }

  lemma Verdict(q: int, p: int, v: int, agree: bool, lost: bool)
    requires v == p - (if lost then BASE else 0)
    requires agree ==> p == q
    requires !agree ==> if q == 0 then p == 0 && !lost else p != q && p - BASE != q
    requires q == 0 && agree ==> !lost
    ensures v == q <==> q == 0 || (agree && !lost)
  {}

  /** The product that the lines stand for, before a carry is lost. */
  lemma MultipliedMagnitude(a: Number, b: Number) returns (p: int, lost: bool)
    requires OneLimb(a) && OneLimb(b)
    ensures var q := a.parts[0] * b.parts[0];
      && Val(Multiplied(a, b).parts) == p - (if lost then BASE else 0)
      && (SignsAgree(a, b) ==> p == q && lost == Loses(a, b) && (q == 0 ==> !lost))
      && (!SignsAgree(a, b) ==> if q == 0 then p == 0 && !lost else p != q && p - BASE != q)
  {
    var x, y := a.parts[0], b.parts[0];
    OneLimbPrint(a);
    OneLimbPrint(b);
    DigitsWeigh(a, b);
    var w := Weight(DigitsOf(a, b));
    var m := if |Printed(a)| > |Printed(b)| then x else y;
    ProductOfLines(m, DigitsOf(a, b));
    p, lost := m * w, LosesCarry(m, w);
    if p < BASE { NeverReached(m, w); }
    if SignsAgree(a, b) {
      Commute(x, y);
    } else {
      MisreadProduct(a, b, x, y, w);
    }
  }

  lemma MisreadProduct(a: Number, b: Number, x: nat, y: nat, w: nat)
    requires OneLimb(a) && OneLimb(b) && !SignsAgree(a, b) && x == a.parts[0] && y == b.parts[0] && w == Weight(DigitsOf(a, b))
    ensures if x * y == 0 then y * w == 0 else y * w != x * y && y * w - BASE != x * y
  {
    OneLimbPrint(a);
    OneLimbPrint(b);
    DigitsWeigh(a, b);
    if !a.isPositive {
      TooMuch(x, y, Pow10(|PrintLimbs(a.parts)|), w);
    } else {
      TooLittle(x, y, w);
    }
  }

  lemma Commute(x: int, y: int)
    ensures x * y == y * x
  {}

  lemma SignedProduct(a: Number, b: Number)
    requires OneLimb(a) && OneLimb(b)
    ensures var q := a.parts[0] * b.parts[0];
      && a.Signed() * b.Signed() == (if a.isPositive == b.isPositive then q else 0 - q)
      && (q == 0 <==> a.parts[0] == 0 || b.parts[0] == 0)
  {
    SingleLimb(a.parts);
    SingleLimb(b.parts);
  }

  lemma TooMuch(x: nat, y: nat, p: nat, w: nat)
    requires w == 3 * p + x && y > 0 && p > 0 && x > 0
    ensures x * y != 0 && y * w != x * y && y * w - BASE != x * y
  {
    var t := y * p;
    MulMonotone(y, 1, p);
    MulMonotone(y, 1, x);
    assert y * w == 3 * t + x * y by { assert y * (3 * p) == 3 * t; }
  }

  lemma TooLittle(x: nat, y: nat, w: nat)
    requires y > 0 && if x == 0 then w == 0 else w < x
    ensures if x * y == 0 then y * w == 0 else y * w != x * y && y * w - BASE != x * y
  {
    if x > 0 { MulMonotone(y, w, x - 1); }
  }

  /** 8000000 times 13 is printed as 4000000: 24000000 fits in a limb and so does 80000000, not the sum. */
  lemma LostCarryExample(a: Number, b: Number)
    requires a == Number([8000000], true) && b == Number([13], true)
    ensures OneLimb(a) && OneLimb(b) && Multiplied(a, b).Signed() == 4000000
  {
    Pow10Seven();
    assert Pow10(1) == 10 && Pow10(2) == 100;
    ShortNumeral(a, 7);
    ShortNumeral(b, 2);
    ThirteenLoses(8000000);
    MultiplyExactly(a, b);
  }

  lemma ThirteenLoses(m: nat)
    requires 8000000 <= m < 9000000
    ensures LosesCarry(m, 13)
  {
    assert Pow10(1) == 10 && Pow10(2) == 100 && Pow10(0) == 1;
    assert Reaches(m, 13, 1) && !Reaches(m, 13, 0);
    assert FirstReach(m, 13, 1);
    FirstDecides(m, 13, 1);
  }

  /** The length of the numeral of a positive limb. */
  lemma ShortNumeral(n: Number, k: nat)
    requires |n.parts| == 1 && n.parts[0] > 0 && 1 <= k <= 8 && Pow10(k - 1) <= n.parts[0] < Pow10(k) && n.parts[0] < BASE
    ensures OneLimb(n) && |PrintLimbs(n.parts)| == k
  {
    SingleLimb(n.parts);
    OneLimbPrint(n);
    ToStrLength(n.parts[0], k);
    var t := PrintLimbs(n.parts);
    DigitsValBound(t);
    if |t| < k { Pow10AtMost(|t|, k - 1); }
  }

  /** -5 times 12 is -420: the minus sign is taken for the digit -3, and its line for thirty times twelve. */
  lemma UnlikeSignsExample(a: Number, b: Number)
    requires a == Number([5], false) && b == Number([12], true)
    ensures OneLimb(a) && OneLimb(b) && Multiplied(a, b).Signed() == -420
  {
    assert Pow10(0) == 1 && Pow10(1) == 10 && Pow10(2) == 100;
    ShortNumeral(a, 1);
    ShortNumeral(b, 2);
    OneLimbPrint(a);
    OneLimbPrint(b);
    DigitsWeigh(a, b);
    ProductOfLines(12, DigitsOf(a, b));
    NeverReached(12, 35);
  }

  // ---------------------------------------------------------------- the class

  newtype int32 = x: int | -0x8000_0000 <= x < 0x8000_0000

  class Bigint {
    var parts: seq<int>
    var isPositive: bool

    constructor ()
      ensures View() == Number([0], true)
    {
      isPositive := true;
      parts := [0];
    }

    function View(): Number
      reads this
    {
      Number(parts, isPositive)
    }

    method CheckAndSetIfZero()
      modifies this
      ensures View() == Zeroed(old(View()))
    {
      var flag := AnyPositive(parts);
      if !flag || |parts| == 0 {
        parts := [0];
        isPositive := true;
      }
    }

    /** The search of checkAndSetIfZero, which stops at the first positive limb. */
    static method AnyPositive(parts: seq<int>) returns (flag: bool)
      ensures flag <==> exists i :: 0 <= i < |parts| && parts[i] > 0
    {
      for i := 0 to |parts|
        invariant forall k :: 0 <= k < i ==> parts[k] <= 0
      {
        if parts[i] > 0 { return true; }
      }
      return false;
    }

    /** create: on failure an exception leaves the constructor and there is no object. */
    method Create(value: string) returns (r: Result<()>)
      modifies this
      ensures match Created(value)
        case Ok(n) => r.Ok? && View() == n
        case Throw(e) => r == Throw(e)
    {
      isPositive := true;
      parts := [];
      var temp := Trim(value);
      var minusSign := LastIndexOf(temp, '-');
      if minusSign > 0 { return Throw("Invalid -"); }
      if minusSign == 0 {
        isPositive := false;
        temp := temp[1..];
      }
      temp := StripZeros(temp);
      if temp == "" {
        isPositive := true;
        parts := [0];
        return Ok(());
      }
      var limbs := CutLimbs(temp);
      parts :- limbs;
      if parts != [] && parts[|parts| - 1] == 0 {
        parts := parts[..|parts| - 1];
      }
      CheckAndSetIfZero();
      return Ok(());
    }

    /** The loop of create: eight characters at a time from the right, the rest as the top limb. */
    static method CutLimbs(sig: string) returns (r: Result<seq<int>>)
      ensures r == Chunks(sig)
    {
      var temp := sig;
      var limbs: seq<int> := [];
      if Chunks(sig).Ok? { assert [] + Chunks(sig).value == Chunks(sig).value; }
      while |temp| > NUM_LENGTH
        invariant Chunks(sig) == (match Chunks(temp) case Ok(rest) => Ok(limbs + rest) case Throw(e) => Throw(e))
        decreases |temp|
      {
        ghost var rest := Chunks(temp[..|temp| - NUM_LENGTH]);
        var x :- CastLimb(temp[|temp| - NUM_LENGTH..]);
        if rest.Ok? { ConcatAssoc(limbs, [x], rest.value); }
        temp := temp[..|temp| - NUM_LENGTH];
        limbs := limbs + [x];
      }
      if |temp| > 0 {
        var x :- CastLimb(temp);
        limbs := limbs + [x];
      } else {
        assert limbs + [] == limbs;
      }
      return Ok(limbs);
    }

    method ToString() returns (build: string)
      ensures build == Printed(View())
    {
      if parts == [] { return "0"; }
      build := if isPositive then "" else "-";
      var digits := PrintReversed(parts);
      build := build + digits;
    }

    /** The loop of toString over the reversed limbs: every limb but the first is padded to eight digits. */
    static method PrintReversed(parts: seq<int>) returns (build: string)
      requires parts != []
      ensures build == PrintLimbs(parts)
    {
      var n := |parts|;
      build := IntToStr(parts[n - 1]);
      assert parts[n - 1..] == [parts[n - 1]];
      for i := 1 to n
        invariant build == PrintLimbs(parts[n - i..])
      {
        PrintStep(parts, n - 1 - i);
        build := build + Pad8(parts[n - 1 - i]);
      }
      assert parts[0..] == parts;
    }

    /** internalAdd; the sum of two limbs and a carry stays within a 32-bit int. */
    method InternalAdd(number: Number)
      requires InRange(parts) && InRange(number.parts)
      modifies this
      ensures isPositive == old(isPositive)
      ensures parts == if old(parts) != [] && number.parts != [] then AddLimbs(old(parts), number.parts, false) else old(parts)
    {
      if |parts| > 0 && |number.parts| > 0 {
        parts := Ripple(parts, number.parts);
      }
    }

    /** One column of internalAdd, in 32-bit arithmetic. */
    static method AddDigits(a: int, b: int, carryOver: bool) returns (r: int, over: bool)
      requires 0 <= a <= NUM_MAX && 0 <= b <= NUM_MAX
      ensures var sum := a + b + Bit(carryOver); over == (sum > NUM_MAX) && r == sum - BASE * Bit(over)
    {
      var res: int32 := a as int32 + b as int32 + (if carryOver then 1 else 0);
      over := res > NUM_MAX as int32;
      if over {
        res := res - BASE as int32;
      }
      r := res as int;
    }

    /** The loop of internalAdd. */
    static method Ripple(a: seq<int>, b: seq<int>) returns (nparts: seq<int>)
      requires InRange(a) && InRange(b)
      ensures nparts == AddLimbs(a, b, false)
    {
      nparts := [];
      var eqprtssiz := if |a| < |b| then |b| else |a|;
      var carryOver := false;
      FromStart(a);
      FromStart(b);
      for i := 0 to eqprtssiz
        invariant AddOnto(nparts, From(a, i), From(b, i), carryOver) == AddOnto([], a, b, false)
      {
        FromStep(a, i);
        FromStep(b, i);
        LimbInRange(a, i);
        LimbInRange(b, i);
        var res: int;
        res, carryOver := AddDigits(LimbAt(a, i), LimbAt(b, i), carryOver);
        nparts := nparts + [res];
      }
      FromEnd(a, eqprtssiz);
      FromEnd(b, eqprtssiz);
      AddOntoIs([], a, b, false);
    }

    method Add(number: Number)
      requires isPositive == number.isPositive && InRange(parts) && InRange(number.parts)
      modifies this
      ensures View() == Added(old(View()), number)
    {
      InternalAdd(number);
    }

    method Subtract(number: Number)
      requires isPositive == number.isPositive && InRange(parts) && InRange(number.parts)
      modifies this
      ensures View() == Subtracted(old(View()), number)
    {
      if |parts| > 0 && |number.parts| > 0 {
        var compValue := Compare(View(), number);
        var fparts, sparts := parts, number.parts;
        if compValue < 0 {
          sparts := parts;
          fparts := number.parts;
        }
        parts := Borrow(fparts, sparts);
        CheckAndSetIfZero();
        if compValue < 0 {
          isPositive := false;
        }
      }
    }

    /** multiply, for factors of one limb each. */
    method Multiply(number: Number)
      requires OneLimb(View()) && OneLimb(number)
      modifies this
      ensures View() == Multiplied(old(View()), number)
    {
      ghost var a := View();
      var m, mstring := Factors(View(), number);
      parts := SumLines(m, mstring);
      isPositive := isPositive == number.isPositive;
      MultipliedIs(a, number, m, mstring, parts, isPositive);
    }

    /** Which operand supplies the limb and which the characters. */
    static method Factors(a: Number, number: Number) returns (m: int, mstring: string)
      requires OneLimb(a) && OneLimb(number)
      ensures m == (if |Printed(a)| > |Printed(number)| then a.parts[0] else number.parts[0]) && m >= 0
      ensures mstring == DigitsOf(a, number)
    {
      var fnvalue, snvalue := Printed(a), Printed(number);
      if |fnvalue| > |snvalue| {
        mstring := snvalue;
        m := a.parts[0];
      } else {
        mstring := fnvalue;
        m := number.parts[0];
      }
      mstring := if !number.isPositive then mstring[1..] else mstring;
    }

    /** The loop of multiply over the characters from the last to the first. */
    static method SumLines(m: nat, mstring: string) returns (mulResult: seq<int>)
      ensures mulResult == AddLines(m, mstring, 0, [0])
    {
      mulResult := [0];
      var position := 0;
      assert mstring[..|mstring|] == mstring;
      while position < |mstring|
        invariant position <= |mstring| && InRange(mulResult)
        invariant AddLines(m, mstring[..|mstring| - position], position, mulResult) == AddLines(m, mstring, 0, [0])
      {
        var i := |mstring| - position;
        assert mstring[..i][..i - 1] == mstring[..i - 1];
        var line := LineParts(m, Mult(mstring[i - 1]), position);
        AddShape(mulResult, line, false);
        mulResult := Ripple(mulResult, line);
        position := position + 1;
      }
    }

    /** One column of subtract, in 32-bit arithmetic; a borrow counts only where the first operand
        still has a limb. */
    static method SubDigits(present: bool, f: int, s: int, carryOver: bool) returns (r: int, under: bool)
      requires 0 <= f <= NUM_MAX && 0 <= s <= NUM_MAX
      ensures var diff := (if present then f - Bit(carryOver) else 0) - s; under == (diff < 0) && r == diff + BASE * Bit(under)
    {
      var borrowed: int32 := if carryOver then 1 else 0;
      var x: int32 := if present then f as int32 - borrowed else 0;
      var res: int32 := x - s as int32;
      under := res < 0;
      if under {
        res := BASE as int32 - s as int32 + x;
      }
      r := res as int;
    }

    /** The loop of subtract. */
    static method Borrow(fparts: seq<int>, sparts: seq<int>) returns (nparts: seq<int>)
      requires InRange(fparts) && InRange(sparts)
      ensures nparts == SubLimbs(fparts, sparts, false)
    {
      nparts := [];
      var eqprtssiz := if |fparts| < |sparts| then |sparts| else |fparts|;
      var carryOver := false;
      FromStart(fparts);
      FromStart(sparts);
      for i := 0 to eqprtssiz
        invariant SubOnto(nparts, From(fparts, i), From(sparts, i), carryOver) == SubOnto([], fparts, sparts, false)
      {
        FromStep(fparts, i);
        FromStep(sparts, i);
        LimbInRange(fparts, i);
        LimbInRange(sparts, i);
        var res: int;
        res, carryOver := SubDigits(|fparts| > i, LimbAt(fparts, i), LimbAt(sparts, i), carryOver);
        nparts := nparts + [res];
      }
      FromEnd(fparts, eqprtssiz);
      FromEnd(sparts, eqprtssiz);
      SubOntoIs([], fparts, sparts, false);
    }
  }

  /** The limbs from position `i` on. */
  function From(s: seq<int>, i: nat): seq<int> { if i <= |s| then s[i..] else [] }

  function LimbAt(s: seq<int>, i: nat): int { if |s| > i then s[i] else 0 }

  lemma LimbInRange(s: seq<int>, i: nat)
    requires InRange(s)
    ensures 0 <= LimbAt(s, i) <= NUM_MAX
  {}

  lemma FromEnd(s: seq<int>, i: nat)
    requires i >= |s|
    ensures From(s, i) == []
  {}

  lemma FromStart(s: seq<int>)
    ensures From(s, 0) == s
  {}

  lemma FromStep(s: seq<int>, i: nat)
    ensures Head(From(s, i)) == LimbAt(s, i)
    ensures Tail(From(s, i)) == From(s, i + 1)
    ensures From(s, i) == [] <==> i >= |s|
  {}

  /** AddLimbs with the finished limbs as an accumulator, as the loop computes it. */
  ghost function AddOnto(done: seq<int>, a: seq<int>, b: seq<int>, carry: bool): seq<int>
    decreases |a| + |b|
  {
    if a == [] && b == [] then done
    else
      var res := Head(a) + Head(b) + Bit(carry);
      AddOnto(done + [res - BASE * Bit(res > NUM_MAX)], Tail(a), Tail(b), res > NUM_MAX)
  }

  lemma {:induction false} AddOntoIs(done: seq<int>, a: seq<int>, b: seq<int>, carry: bool)
    ensures AddOnto(done, a, b, carry) == done + AddLimbs(a, b, carry)
    decreases |a| + |b|
  {
    if a != [] || b != [] {
      var res := Head(a) + Head(b) + Bit(carry);
      var limb := [res - BASE * Bit(res > NUM_MAX)];
      AddOntoIs(done + limb, Tail(a), Tail(b), res > NUM_MAX);
      Append(AddOnto(done, a, b, carry), AddLimbs(a, b, carry), done, limb, AddLimbs(Tail(a), Tail(b), res > NUM_MAX));
    }
  }

  /** SubLimbs with the finished limbs as an accumulator. */
  ghost function SubOnto(done: seq<int>, f: seq<int>, s: seq<int>, borrow: bool): seq<int>
    decreases |f| + |s|
  {
    if f == [] && s == [] then done
    else
      var res := (if f == [] then 0 else f[0] - Bit(borrow)) - Head(s);
      SubOnto(done + [res + BASE * Bit(res < 0)], Tail(f), Tail(s), res < 0)
  }

  lemma {:induction false} SubOntoIs(done: seq<int>, f: seq<int>, s: seq<int>, borrow: bool)
    ensures SubOnto(done, f, s, borrow) == done + SubLimbs(f, s, borrow)
    decreases |f| + |s|
  {
    if f != [] || s != [] {
      var res := (if f == [] then 0 else f[0] - Bit(borrow)) - Head(s);
      var limb := [res + BASE * Bit(res < 0)];
      SubOntoIs(done + limb, Tail(f), Tail(s), res < 0);
      Append(SubOnto(done, f, s, borrow), SubLimbs(f, s, borrow), done, limb, SubLimbs(Tail(f), Tail(s), res < 0));
    }
  }
}
