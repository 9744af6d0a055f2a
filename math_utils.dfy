/** Euclid's gcd and the lcm built on it (util/MathUtils). Java `long` is
    read as a mathematical integer, so `Math.abs(Long.MIN_VALUE)` and the
    overflow of `a * b` do not arise. */
module MathUtils {
  import opened Optional

  function Abs(x: int): nat
  {
    if x < 0 then -x else x
  }

  /** d divides n; 0 divides only 0. */
  predicate Divides(d: nat, n: int)
  {
    if d == 0 then n == 0 else n % d == 0
  }

  /** Euclid's recursion, the reference definition of the gcd loop. */
  function Euclid(a: nat, b: nat): nat
    decreases b
  {
    if b == 0 then a else Euclid(b, a % b)
  }

  /** `gcd`: the remainder loop on absolute values. The loop keeps the
      gcd of the pair (absA, absB), which is the gcd of the arguments. */
  method Gcd(a: int, b: int) returns (g: nat)
    ensures g == Euclid(Abs(a), Abs(b))
    ensures Divides(g, a) && Divides(g, b)
    ensures b == 0 ==> g == Abs(a)
  {
    var absA, absB := Abs(a), Abs(b);
    while absB != 0
      invariant Euclid(absA, absB) == Euclid(Abs(a), Abs(b))
      decreases absB
    {
      var temp := absB;
      absB := absA % absB;
      absA := temp;
    }
    g := absA;
    EuclidDivides(Abs(a), Abs(b));
    DividesAbs(g, a);
    DividesAbs(g, b);
  }

  /** |a·b| / gcd(a, b), the value `lcm` returns when it does not throw. */
  function LcmValue(a: int, b: int): int
  {
    var g := Euclid(Abs(a), Abs(b));
    if g == 0 then 0 else Abs(a * b) / g
  }

  /** `lcm`: |a·b| / gcd(a, b); the division by zero when both arguments are
      0 is the ArithmeticException, modelled as None. */
  method Lcm(a: int, b: int) returns (r: Option<int>)
    ensures r.None? <==> a == 0 && b == 0
    ensures r.Some? ==> r.value == LcmValue(a, b)
  {
    var g := Gcd(a, b);
    if g == 0 {
      EuclidZero(Abs(a), Abs(b));
      r := None;
    } else {
      r := Some(Abs(a * b) / g);
      EuclidZero(Abs(a), Abs(b));
    }
  }

  /** The lcm is a common multiple of both arguments, and lcm · gcd = |a·b|. */
  lemma LcmCommonMultiple(a: int, b: int)
    requires a != 0 || b != 0
    ensures Divides(Abs(a), LcmValue(a, b)) && Divides(Abs(b), LcmValue(a, b))
    ensures LcmValue(a, b) * Euclid(Abs(a), Abs(b)) == Abs(a * b)
  {
    AbsMul(a, b);
    EuclidZero(Abs(a), Abs(b));
    EuclidDivides(Abs(a), Abs(b));
    LcmIsCommonMultiple(Abs(a), Abs(b), Euclid(Abs(a), Abs(b)));
  }

  lemma AbsMul(a: int, b: int)
    ensures Abs(a * b) == Abs(a) * Abs(b)
  {
    if a < 0 && b < 0 {
      assert a * b == (-a) * (-b);
    } else if a < 0 {
      assert -(a * b) == (-a) * b;
    } else if b < 0 {
      assert -(a * b) == a * (-b);
    }
  }

  lemma DividesAbs(d: nat, x: int)
    requires Divides(d, Abs(x))
    ensures Divides(d, x)
  {
    if d > 0 && x < 0 {
      DividesLinear(d, 0, -x, -1);
    }
  }

  /** (d·q) % d == 0 and (d·q) / d == q for d > 0. */
  lemma MulDiv(d: nat, q: int)
    requires d > 0
    ensures (d * q) % d == 0 && (d * q) / d == q
  {
    var n := d * q;
    var k, r := n / d, n % d;
    assert n == d * k + r && 0 <= r < d;
    assert d * (q - k) == r by { MulSub(d, q, k); }
    OnlyZeroMultipleBelow(d, q - k);
  }

  lemma MulSub(d: int, x: int, y: int)
    ensures d * x - d * y == d * (x - y)
  {
  }

  lemma OnlyZeroMultipleBelow(d: nat, x: int)
    requires d > 0 && 0 <= d * x < d
    ensures x == 0
  {
  }

  /** A common divisor of x and y divides x + y·m. */
  lemma DividesLinear(d: nat, x: int, y: int, m: int)
    requires Divides(d, x) && Divides(d, y)
    ensures Divides(d, x + y * m)
  {
    if d > 0 {
      var qx, qy := x / d, y / d;
      assert x == d * qx;
      assert y == d * qy;
      assert x + y * m == d * (qx + qy * m);
      MulDiv(d, qx + qy * m);
    }
  }

  /** Euclid's result divides both arguments. */
  lemma {:induction false} EuclidDivides(a: nat, b: nat)
    ensures Divides(Euclid(a, b), a) && Divides(Euclid(a, b), b)
    decreases b
  {
    if b == 0 {
      if a > 0 { MulDiv(a, 1); }
    } else {
      var g := Euclid(a, b);
      EuclidDivides(b, a % b);
      assert a == a % b + b * (a / b);
      DividesLinear(g, a % b, b, a / b);
    }
  }

  /** Every common divisor of the arguments divides Euclid's result. */
  lemma {:induction false} EuclidGreatest(a: nat, b: nat, d: nat)
    requires Divides(d, a) && Divides(d, b)
    ensures Divides(d, Euclid(a, b))
    decreases b
  {
    if b > 0 {
      assert a % b == a + b * -(a / b);
      DividesLinear(d, a, b, -(a / b));
      EuclidGreatest(b, a % b, d);
    }
  }

  lemma {:induction false} EuclidZero(a: nat, b: nat)
    ensures Euclid(a, b) == 0 <==> a == 0 && b == 0
    decreases b
  {
    if b > 0 {
      EuclidZero(b, a % b);
    }
  }

  /** Bezout: Euclid's result is an integer combination of the arguments. */
  lemma {:induction false} Bezout(a: nat, b: nat) returns (s: int, t: int)
    ensures s * a + t * b == Euclid(a, b)
    decreases b
  {
    if b == 0 {
      s, t := 1, 0;
    } else {
      var s', t' := Bezout(b, a % b);
      var q := a / b;
      assert a % b == a - q * b;
      s, t := t', s' - t' * q;
      calc {
        s * a + t * b;
        t' * a + s' * b - t' * q * b;
        s' * b + t' * (a - q * b);
        s' * b + t' * (a % b);
      }
    }
  }

  lemma LcmIsCommonMultiple(a: nat, b: nat, g: nat)
    requires g > 0 && Divides(g, a) && Divides(g, b)
    ensures Divides(a, a * b / g) && Divides(b, a * b / g)
    ensures (a * b / g) * g == a * b
  {
    var ka, kb := a / g, b / g;
    assert a == g * ka && b == g * kb;
    var l := ka * b;
    assert a * b == g * l;
    MulDiv(g, l);
    assert l == a * kb by { MulAssoc(ka, g, kb); }
    if b > 0 { MulDiv(b, ka); }
    if a > 0 { MulDiv(a, kb); }
  }

  lemma MulAssoc(x: int, y: int, z: int)
    ensures x * (y * z) == (y * x) * z
  {
  }

  /** The lcm of two non-zero numbers divides every common multiple of them,
      so the value `lcm` computes is the least positive common multiple. */
  lemma LcmLeast(a: int, b: int, m: int)
    requires a != 0 && b != 0
    requires Divides(Abs(a), m) && Divides(Abs(b), m)
    ensures LcmValue(a, b) > 0 && Divides(LcmValue(a, b), m)
  {
    var g, l, s, t := LcmWitness(a, b);
    var ja := Quotient(Abs(a), m);
    var jb := Quotient(Abs(b), m);
    CombineMultiple(Abs(a), Abs(b), g, l, s, t, ja, jb, m);
    MulDiv(l, s * jb + t * ja);
  }

  lemma Quotient(d: nat, m: int) returns (k: int)
    requires d > 0 && Divides(d, m)
    ensures m == d * k
  {
    k := m / d;
  }

  /** The gcd g, the lcm l and Bezout coefficients s, t of |a| and |b|. */
  lemma LcmWitness(a: int, b: int) returns (g: int, l: int, s: int, t: int)
    requires a != 0 && b != 0
    ensures g > 0 && l > 0 && LcmValue(a, b) == l
    ensures s * Abs(a) + t * Abs(b) == g && Abs(a) * Abs(b) == g * l
  {
    AbsMul(a, b);
    var A, B := Abs(a), Abs(b);
    g := Euclid(A, B);
    EuclidZero(A, B);
    EuclidDivides(A, B);
    s, t := Bezout(A, B);
    var ka := Quotient(g, A);
    l := ka * B;
    assert A * B == g * l by { MulAssoc(B, g, ka); }
    MulDiv(g, l);
    assert l > 0 by { PosMul(ka, B); }
  }

  lemma PosMul(x: int, y: int)
    requires x > 0 && y > 0
    ensures x * y > 0
  {
  }

  /** From s·A + t·B = g and A·B = g·l, a common multiple m of A and B is a
      multiple of l. */
  lemma CombineMultiple(A: int, B: int, g: int, l: int, s: int, t: int, ja: int, jb: int, m: int)
    requires g > 0 && s * A + t * B == g && A * B == g * l
    requires m == A * ja && m == B * jb
    ensures m == l * (s * jb + t * ja)
  {
    var c := s * jb + t * ja;
    assert g * m == s * (A * m) + t * (B * m) by { Distrib(s, A, t, B, m); }
    assert A * m == (A * B) * jb by { MulAssoc(jb, A, B); }
    assert B * m == (A * B) * ja by { MulAssoc(ja, B, A); }
    assert s * ((A * B) * jb) + t * ((A * B) * ja) == (A * B) * c by { Factor(A * B, s, jb, t, ja); }
    assert (A * B) * c == g * (l * c) by { MulAssoc(c, g, l); }
    MulCancel(g, m, l * c);
  }

  lemma Distrib(s: int, x: int, t: int, y: int, m: int)
    ensures (s * x + t * y) * m == s * (x * m) + t * (y * m)
  {
  }

  lemma Factor(p: int, s: int, u: int, t: int, v: int)
    ensures s * (p * u) + t * (p * v) == p * (s * u + t * v)
  {
  }

  lemma MulCancel(g: int, x: int, y: int)
    requires g > 0 && g * x == g * y
    ensures x == y
  {
    MulDiv(g, x);
    MulDiv(g, y);
  }
}
