/** Numbers as limbs in base 10^8, least significant first: the loops of Bigint.cpp as functions, and
    the values they compute. */
module Limbs {
  import opened Decimal

  const NUM_LENGTH := 8
  const NUM_MAX := 99999999
  const BASE := 100000000

  function Pow(n: nat): (p: nat)
    ensures p >= 1
  {
    if n == 0 then 1 else BASE * Pow(n - 1)
  }

  function Val(parts: seq<int>): int {
    if parts == [] then 0 else parts[0] + BASE * Val(parts[1..])
  }

  predicate InRange(parts: seq<int>) { forall i :: 0 <= i < |parts| ==> 0 <= parts[i] <= NUM_MAX }

  /** At least one limb, and no leading zero limb in front of another. */
  predicate Normal(parts: seq<int>) {
    parts != [] && InRange(parts) && (|parts| > 1 ==> parts[|parts| - 1] != 0)
  }

  lemma {:induction false} ValBound(parts: seq<int>)
    requires InRange(parts)
    ensures 0 <= Val(parts) < Pow(|parts|)
  {
    if parts != [] { ValBound(parts[1..]); }
  }

  lemma {:induction false} ValTop(parts: seq<int>)
    requires InRange(parts) && parts != []
    ensures Val(parts) == Val(parts[..|parts| - 1]) + parts[|parts| - 1] * Pow(|parts| - 1)
  {
    if |parts| > 1 {
      ValTop(parts[1..]);
      assert parts[1..][..|parts| - 2] == parts[..|parts| - 1][1..];
      var t := parts[|parts| - 1];
      assert BASE * (t * Pow(|parts| - 2)) == t * Pow(|parts| - 1);
    } else {
      assert parts[..0] == [];
    }
  }

  /** The number of limbs of a normal number is fixed by its value. */
  lemma NormalLength(parts: seq<int>)
    requires Normal(parts)
    ensures |parts| > 1 ==> Val(parts) >= Pow(|parts| - 1)
  {
    if |parts| > 1 {
      ValTop(parts);
      ValBound(parts[..|parts| - 1]);
      MulAtLeast(parts[|parts| - 1], Pow(|parts| - 1));
    }
  }

  lemma MulAtLeast(t: int, p: int)
    requires t >= 1 && p >= 0
    ensures t * p >= p
  {}

  lemma {:induction false} NormalUnique(a: seq<int>, b: seq<int>)
    requires Normal(a) && Normal(b) && Val(a) == Val(b)
    ensures a == b
    decreases |a|
  {
    ValBound(a[1..]);
    ValBound(b[1..]);
    assert Val(a) == a[0] + BASE * Val(a[1..]) && Val(b) == b[0] + BASE * Val(b[1..]);
    assert a[0] == b[0] && Val(a[1..]) == Val(b[1..]);
    NormalLength(a);
    NormalLength(b);
    assert (|a| > 1 <==> Val(a) >= BASE) && (|b| > 1 <==> Val(b) >= BASE);
    if |a| > 1 {
      NormalUnique(a[1..], b[1..]);
      assert a == [a[0]] + a[1..] && b == [b[0]] + b[1..];
    }
  }

  // ---------------------------------------------------------------- addition

  function Tail(s: seq<int>): seq<int> { if s == [] then [] else s[1..] }

  function Head(s: seq<int>): int { if s == [] then 0 else s[0] }

  /** internalAdd: a ripple of carries over the longer operand; the last carry is dropped. */
  function AddLimbs(a: seq<int>, b: seq<int>, carry: bool): seq<int>
    decreases |a| + |b|
  {
    if a == [] && b == [] then []
    else
      var res := Head(a) + Head(b) + (if carry then 1 else 0);
      if res > NUM_MAX then [res - BASE] + AddLimbs(Tail(a), Tail(b), true)
      else [res] + AddLimbs(Tail(a), Tail(b), false)
  }

  /** The carry that is dropped in the end. */
  function CarryOut(a: seq<int>, b: seq<int>, carry: bool): bool
    decreases |a| + |b|
  {
    if a == [] && b == [] then carry
    else CarryOut(Tail(a), Tail(b), Head(a) + Head(b) + (if carry then 1 else 0) > NUM_MAX)
  }

  function Longer(a: seq<int>, b: seq<int>): nat { if |a| < |b| then |b| else |a| }

  function Bit(c: bool): int { if c then 1 else 0 }

  lemma ValHeadTail(s: seq<int>)
    ensures Val(s) == Head(s) + BASE * Val(Tail(s))
  {}

  lemma {:induction false} AddShape(a: seq<int>, b: seq<int>, carry: bool)
    requires InRange(a) && InRange(b)
    ensures var r := AddLimbs(a, b, carry); InRange(r) && |r| == Longer(a, b)
    decreases |a| + |b|
  {
    if a != [] || b != [] {
      AddShape(Tail(a), Tail(b), Head(a) + Head(b) + Bit(carry) > NUM_MAX);
    }
  }

  /** Sum, carry included: no more than the last carry is lost. */
  lemma {:induction false} AddValue(a: seq<int>, b: seq<int>, carry: bool)
    requires InRange(a) && InRange(b)
    ensures Val(AddLimbs(a, b, carry)) + Bit(CarryOut(a, b, carry)) * Pow(Longer(a, b)) == Val(a) + Val(b) + Bit(carry)
    decreases |a| + |b|
  {
    if a != [] || b != [] {
      var ta, tb := Tail(a), Tail(b);
      var res := Head(a) + Head(b) + Bit(carry);
      var over := res > NUM_MAX;
      var rest := AddLimbs(ta, tb, over);
      AddValue(ta, tb, over);
      assert Val(AddLimbs(a, b, carry)) == res - BASE * Bit(over) + BASE * Val(rest) by {
        ValCons(res - BASE * Bit(over), rest);
      }
      ValHeadTail(a);
      ValHeadTail(b);
      assert Longer(a, b) == Longer(ta, tb) + 1 && CarryOut(a, b, carry) == CarryOut(ta, tb, over);
      Shifted(Val(rest), Bit(CarryOut(ta, tb, over)), Pow(Longer(ta, tb)), Val(ta) + Val(tb) + Bit(over));
    }
  }

  lemma Shifted(v: int, out: int, p: int, w: int)
    requires v + out * p == w
    ensures BASE * v + out * (BASE * p) == BASE * w
  {}

  lemma ValCons(d: int, rest: seq<int>)
    ensures Val([d] + rest) == d + BASE * Val(rest)
  {
    assert ([d] + rest)[1..] == rest;
  }

  /** What `internalAdd` leaves: the sum modulo 10^8 to the number of limbs of the longer operand,
      exact just when it fits. */
  lemma SumModulo(a: seq<int>, b: seq<int>)
    requires InRange(a) && InRange(b)
    ensures var r := AddLimbs(a, b, false);
      && InRange(r) && |r| == Longer(a, b)
      && Val(r) == (Val(a) + Val(b)) % Pow(|r|)
      && (Val(r) == Val(a) + Val(b) <==> Val(a) + Val(b) < Pow(|r|))
  {
    AddShape(a, b, false);
    AddValue(a, b, false);
    var r := AddLimbs(a, b, false);
    ValBound(r);
    var out := Bit(CarryOut(a, b, false));
    ModIs(Val(r), out, Pow(|r|));
  }

  lemma ModIs(v: int, k: int, p: nat)
    requires p > 0 && 0 <= v < p && 0 <= k <= 1
    ensures (v + k * p) % p == v && (k == 0 <==> v + k * p < p)
  {
    if k == 1 { assert (v + p) / p == 1 && (v + p) % p == v by { AddModulus(v, p); } }
  }

  lemma MulMonotone(p: int, a: int, b: int)
    requires p >= 0
    ensures a <= b ==> p * a <= p * b
  {}

  lemma AddModulus(v: int, p: nat)
    requires p > 0 && 0 <= v < p
    ensures (v + p) / p == 1 && (v + p) % p == v
  {
    var q := (v + p) / p;
    assert v + p == p * q + (v + p) % p;
    MulMonotone(p, q, 0);
    MulMonotone(p, 2, q);
  }

  // ---------------------------------------------------------------- subtraction

  /** The borrow loop of `subtract`. Where the first operand has run out, a borrow is forgotten. */
  function SubLimbs(f: seq<int>, s: seq<int>, borrow: bool): seq<int>
    decreases |f| + |s|
  {
    if f == [] && s == [] then []
    else
      var x := if f == [] then 0 else f[0] - (if borrow then 1 else 0);
      var res := x - Head(s);
      if res < 0 then [BASE - Head(s) + x] + SubLimbs(Tail(f), Tail(s), true)
      else [res] + SubLimbs(Tail(f), Tail(s), false)
  }

  function BorrowOut(f: seq<int>, s: seq<int>, borrow: bool): bool
    decreases |f| + |s|
  {
    if f == [] && s == [] then borrow
    else BorrowOut(Tail(f), Tail(s), (if f == [] then 0 else f[0] - (if borrow then 1 else 0)) - Head(s) < 0)
  }

  lemma {:induction false} SubShape(f: seq<int>, s: seq<int>, borrow: bool)
    requires InRange(f) && InRange(s) && |f| >= |s|
    ensures var r := SubLimbs(f, s, borrow); InRange(r) && |r| == |f|
    decreases |f|
  {
    if f != [] { SubShape(Tail(f), Tail(s), f[0] - Bit(borrow) - Head(s) < 0); }
  }

  /** Difference, borrow included: no more than the last borrow is forgotten. */
  lemma {:induction false} SubValue(f: seq<int>, s: seq<int>, borrow: bool)
    requires InRange(f) && InRange(s) && |f| >= |s|
    ensures Val(SubLimbs(f, s, borrow)) - Bit(BorrowOut(f, s, borrow)) * Pow(|f|) == Val(f) - Val(s) - Bit(borrow)
    decreases |f|
  {
    if f != [] {
      var tf, ts := Tail(f), Tail(s);
      var res := f[0] - Bit(borrow) - Head(s);
      var under := res < 0;
      var rest := SubLimbs(tf, ts, under);
      SubValue(tf, ts, under);
      assert Val(SubLimbs(f, s, borrow)) == res + BASE * Bit(under) + BASE * Val(rest) by {
        ValCons(res + BASE * Bit(under), rest);
      }
      ValHeadTail(s);
      assert BorrowOut(f, s, borrow) == BorrowOut(tf, ts, under);
      Shifted(Val(rest), 0 - Bit(BorrowOut(tf, ts, under)), Pow(|tf|), Val(tf) - Val(ts) - Bit(under));
    }
  }

  /** What the loop leaves: the difference modulo 10^8 to the number of limbs, exact just when the
      first operand is not the smaller one. */
  lemma DifferenceModulo(f: seq<int>, s: seq<int>)
    requires InRange(f) && InRange(s) && |f| >= |s|
    ensures var r := SubLimbs(f, s, false);
      && InRange(r) && |r| == |f|
      && Val(r) == (Val(f) - Val(s)) % Pow(|f|)
      && (Val(r) == Val(f) - Val(s) <==> Val(f) >= Val(s))
  {
    SubShape(f, s, false);
    SubValue(f, s, false);
    var r := SubLimbs(f, s, false);
    ValBound(r);
    ModOfBorrow(Val(r), Bit(BorrowOut(f, s, false)), Pow(|f|));
  }

  lemma ModOfBorrow(v: int, k: int, p: nat)
    requires p > 0 && 0 <= v < p && 0 <= k <= 1
    ensures (v - k * p) % p == v && (k == 0 <==> v - k * p >= 0)
  {
    if k == 1 { SubModulus(v, p); }
  }

  lemma SubModulus(v: int, p: nat)
    requires p > 0 && 0 <= v < p
    ensures (v - p) % p == v
  {
    var q := (v - p) / p;
    assert v - p == p * q + (v - p) % p;
    MulMonotone(p, q, -2);
    MulMonotone(p, 0, q);
  }
}
