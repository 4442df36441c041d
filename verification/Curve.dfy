/**
 * Arithmetic modulo the group order and the discrete-logarithm view of the curve.
 * A scalar is an integer in [0, n). The point k*G is represented by its class k, so that
 * 0 is the point at infinity. Which points have an odd Y coordinate is left open: it is an
 * arbitrary function that changes when a point is negated, which is all the curve promises.
 */
module Curve {
  import opened Bytes

  datatype Group = Group(n: nat, oddY: int -> bool)

  ghost predicate ValidGroup(g: Group)
  {
    && 3 <= g.n <= Pow256(32)
    && forall k :: 0 < k < g.n ==> g.oddY(g.n - k) != g.oddY(k)
  }

  /** A scalar that can serve as a secret key, and the class of a finite point. */
  predicate IsKey(g: Group, k: int) { 0 < k < g.n }

  predicate IsScalar(g: Group, k: int) { 0 <= k < g.n }

  function Add(g: Group, a: int, b: int): (r: int)
    requires g.n > 0
    ensures IsScalar(g, r)
  {
    (a + b) % g.n
  }

  function Mul(g: Group, a: int, b: int): (r: int)
    requires g.n > 0
    ensures IsScalar(g, r)
  {
    (a * b) % g.n
  }

  function Neg(g: Group, a: int): (r: int)
    requires g.n > 0
    ensures IsScalar(g, r)
  {
    (-a) % g.n
  }

  /** The point with the same X coordinate and an even Y coordinate, for a finite point. */
  function EvenY(g: Group, p: int): (r: int)
    requires IsKey(g, p)
    ensures IsKey(g, r)
  {
    if g.oddY(p) then g.n - p else p
  }

  lemma EvenYIsEven(g: Group, p: int)
    requires ValidGroup(g) && IsKey(g, p)
    ensures !g.oddY(EvenY(g, p)) && g.oddY(g.n - EvenY(g, p))
    ensures EvenY(g, p) == EvenY(g, g.n - p)
  {
    assert g.oddY(g.n - p) != g.oddY(p);
  }

  /** Adding two public keys: infinity is not a public key. */
  function Combine(g: Group, p: int, q: int): (r: Option<int>)
    requires g.n > 0
    ensures r.Some? ==> IsKey(g, r.value)
  {
    if Add(g, p, q) == 0 then None else Some(Add(g, p, q))
  }

  // ----- congruences ---------------------------------------------------------------------

  ghost predicate Cong(n: int, a: int, b: int)
    requires n > 0
  {
    a % n == b % n
  }

  lemma ModUnique(n: int, q: int, r: int)
    requires 0 <= r < n
    ensures (n * q + r) % n == r
  {
    var y := n * q + r;
    var d := q - y / n;
    assert n * d == y % n - r by {
      assert y == n * (y / n) + y % n;
      assert n * d == n * q - n * (y / n);
    }
    if d >= 1 {
      MulMonotone(n, 1, d);
    } else if d <= -1 {
      MulMonotone(n, d, -1);
    }
  }

  lemma MulMonotone(n: int, a: int, b: int)
    requires n > 0 && a <= b
    ensures n * a <= n * b
  {
    assert n * (b - a) >= 0;
    assert n * b == n * a + n * (b - a);
  }

  lemma CongShift(n: int, a: int, k: int)
    requires n > 0
    ensures Cong(n, a + n * k, a)
  {
    var q, r := a / n, a % n;
    assert a + n * k == n * (q + k) + r by {
      assert a == n * q + r;
      assert n * (q + k) == n * q + n * k;
    }
    ModUnique(n, q + k, r);
  }

  lemma CongDifference(n: int, a: int, b: int)
    requires n > 0 && Cong(n, a, b)
    ensures a == b + n * (a / n - b / n)
  {
    assert n * (a / n - b / n) == n * (a / n) - n * (b / n);
  }

  lemma CongAdd(n: int, a: int, a': int, b: int, b': int)
    requires n > 0 && Cong(n, a, a') && Cong(n, b, b')
    ensures Cong(n, a + b, a' + b')
  {
    CongDifference(n, a, a');
    CongDifference(n, b, b');
    var k, l := a / n - a' / n, b / n - b' / n;
    assert a + b == (a' + b') + n * (k + l) by {
      assert n * (k + l) == n * k + n * l;
    }
    CongShift(n, a' + b', k + l);
  }

  lemma CongScale(n: int, a: int, a': int, b: int)
    requires n > 0 && Cong(n, a, a')
    ensures Cong(n, a * b, a' * b)
  {
    CongDifference(n, a, a');
    var k := a / n - a' / n;
    assert a * b == a' * b + n * (k * b) by {
      Distribute(a', n * k, b);
      assert (n * k) * b == n * (k * b);
    }
    CongShift(n, a' * b, k * b);
  }

  lemma CongMul(n: int, a: int, a': int, b: int, b': int)
    requires n > 0 && Cong(n, a, a') && Cong(n, b, b')
    ensures Cong(n, a * b, a' * b')
  {
    CongScale(n, a, a', b);
    CongScale(n, b, b', a');
    assert b * a' == a' * b && b' * a' == a' * b';
  }

  lemma Distribute(a: int, b: int, c: int)
    ensures (a + b) * c == a * c + b * c
  {
  }

  lemma CongNeg(n: int, a: int, a': int)
    requires n > 0 && Cong(n, a, a')
    ensures Cong(n, -a, -a')
  {
    CongMul(n, a, a', -1, -1);
    assert a * -1 == -a && a' * -1 == -a';
  }

  lemma CongMod(n: int, a: int)
    requires n > 0
    ensures Cong(n, a % n, a)
  {
    ModUnique(n, 0, a % n);
  }

  lemma AddCong(g: Group, a: int, a0: int, b: int, b0: int)
    requires g.n > 0 && Cong(g.n, a, a0) && Cong(g.n, b, b0)
    ensures Cong(g.n, Add(g, a, b), a0 + b0)
  {
    CongAdd(g.n, a, a0, b, b0);
    CongMod(g.n, a + b);
  }

  lemma MulCong(g: Group, a: int, a0: int, b: int, b0: int)
    requires g.n > 0 && Cong(g.n, a, a0) && Cong(g.n, b, b0)
    ensures Cong(g.n, Mul(g, a, b), a0 * b0)
  {
    CongMul(g.n, a, a0, b, b0);
    CongMod(g.n, a * b);
  }

  lemma NegCong(g: Group, a: int, a0: int)
    requires g.n > 0 && Cong(g.n, a, a0)
    ensures Cong(g.n, Neg(g, a), -a0)
  {
    CongNeg(g.n, a, a0);
    CongMod(g.n, -a);
  }

  /** The two scalars of a congruence class that lie in [0, n) are the same. */
  lemma CongUnique(n: int, a: int, b: int)
    requires 0 <= a < n && 0 <= b < n && Cong(n, a, b)
    ensures a == b
  {
    ModUnique(n, 0, a);
    ModUnique(n, 0, b);
  }
}
