/** Multiplication that refuses to overflow, for any two's complement or unsigned integer type. */
module CheckedMultiply {

  /** A bounded integer type by its limits: two's complement, or unsigned. */
  datatype Type = Signed(max: int) | Unsigned(max: int)

  function Min(t: Type): int { if t.Signed? then -t.max - 1 else 0 }

  predicate Fits(t: Type, x: int) { Min(t) <= x <= t.max }

  function Abs(x: int): int { if x < 0 then -x else x }

  /** Division as the machine does it, toward zero. */
  function Truncated(x: int, y: int): int
    requires y > 0
  {
    if x >= 0 then x / y else -((-x) / y)
  }

  predicate OverflowCheck(t: Type, a: int, b: int)
    requires a != 0 && (t.Unsigned? ==> a > 0)
  {
    if t.Unsigned? then Truncated(t.max, a) < b
    else if (a > 0) == (b > 0) then Truncated(t.max, Abs(a)) < Abs(b)
    else Truncated(Min(t), Abs(a)) > -Abs(b)
  }

  lemma Monotone(a: int, x: int, y: int)
    requires a > 0 && x <= y
    ensures a * x <= a * y
  {
    var d := y - x;
    assert a * d >= 0;
    assert a * (x + d) == a * x + a * d;
  }

  /** A quotient lies below a number exactly when the number is too many divisors. */
  lemma QuotientBelow(limit: int, a: int, b: int)
    requires limit >= 0 && a > 0
    ensures limit / a < b <==> limit < a * b
  {
    var q := limit / a;
    var aq, next := a * q, a * (q + 1);
    assert aq <= limit < next && next == aq + a;
    if q < b { Monotone(a, q + 1, b); } else { Monotone(a, b, q); }
  }

  lemma ProductOfSizes(a: int, b: int)
    ensures Abs(a) * Abs(b) == Abs(a * b)
    ensures a != 0 && b != 0 ==> (a * b > 0 <==> (a > 0) == (b > 0)) && a * b != 0
  {
    if a < 0 && b < 0 {
      assert (-a) * (-b) == a * b;
    } else if a < 0 {
      assert (-a) * b == -(a * b);
    } else if b < 0 {
      assert a * (-b) == -(a * b);
    }
  }

  /** The division test is exact, for either sign, on every pair that reaches it. */
  lemma OverflowCheckExact(t: Type, a: int, b: int)
    requires t.max > 0 && Fits(t, a) && Fits(t, b) && a != 0 && b != 0
    ensures OverflowCheck(t, a, b) <==> !Fits(t, a * b)
  {
    ProductOfSizes(a, b);
    if t.Unsigned? {
      QuotientBelow(t.max, a, b);
    } else if (a > 0) == (b > 0) {
      QuotientBelow(t.max, Abs(a), Abs(b));
    } else {
      QuotientBelow(t.max + 1, Abs(a), Abs(b));
    }
  }

  /** The least value times anything but 0 and 1 does not fit. */
  lemma LeastTimes(t: Type, b: int)
    requires t.max > 0 && t.Signed? && b != 0 && b != 1
    ensures !Fits(t, Min(t) * b) && !Fits(t, b * Min(t))
  {
    var size := -Min(t);
    if b < 0 {
      Monotone(size, 1, -b);
      assert size * (-b) == Min(t) * b;
    } else {
      Monotone(size, 2, b);
      assert size * b == -(Min(t) * b);
    }
  }

  /** An argument passed by reference. */
  class Cell {
    var value: int

    constructor (v: int)
      ensures value == v
    {
      value := v;
    }
  }

  /** checked_multiply: true exactly when the product fits, and then it is stored. */
  method Multiply(t: Type, a: Cell, b: int) returns (ok: bool)
    requires t.max > 0 && Fits(t, a.value) && Fits(t, b)
    modifies a
    ensures ok <==> Fits(t, old(a.value) * b)
    ensures a.value == if ok then old(a.value) * b else old(a.value)
  {
    if a.value == 0 || b == 0 || a.value == 1 || b == 1 {
      a.value := a.value * b;
      return true;
    }
    if a.value == Min(t) || b == Min(t) {
      if a.value == Min(t) { LeastTimes(t, b); } else { LeastTimes(t, a.value); }
      return false;
    }
    OverflowCheckExact(t, a.value, b);
    if OverflowCheck(t, a.value, b) {
      return false;
    }
    a.value := a.value * b;
    return true;
  }
}
