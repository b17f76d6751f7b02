/** Whole-number powers of reals: the model of `Math.pow` wherever the
    formulas raise a growth factor to a whole number of periods. */
module Powers {

  /** b raised to the n-th power. */
  function Pow(b: real, n: nat): real
  {
    if n == 0 then 1.0 else b * Pow(b, n - 1)
  }

  lemma {:induction false} PowAdd(b: real, m: nat, n: nat)
    ensures Pow(b, m + n) == Pow(b, m) * Pow(b, n)
  {
    if m > 0 {
      PowAdd(b, m - 1, n);
      calc {
        Pow(b, m + n);
        b * Pow(b, (m - 1) + n);
        b * (Pow(b, m - 1) * Pow(b, n));
        (b * Pow(b, m - 1)) * Pow(b, n);
      }
    }
  }

  lemma MulSucc(m: nat, n: nat)
    requires n > 0
    ensures m * n == m + m * (n - 1)
  {
  }

  lemma {:induction false} PowMul(b: real, m: nat, n: nat)
    ensures Pow(b, m * n) == Pow(Pow(b, m), n)
  {
    if n > 0 {
      var k := m * (n - 1);
      MulSucc(m, n);
      PowMul(b, m, n - 1);
      PowAdd(b, m, k);
      calc {
        Pow(b, m * n);
        Pow(b, m + k);
        Pow(b, m) * Pow(b, k);
        Pow(b, m) * Pow(Pow(b, m), n - 1);
        Pow(Pow(b, m), n);
      }
    }
  }

  lemma {:induction false} PowOne(n: nat)
    ensures Pow(1.0, n) == 1.0
  {
    if n > 0 {
      PowOne(n - 1);
    }
  }

  lemma {:induction false} PowPositive(b: real, n: nat)
    requires b > 0.0
    ensures Pow(b, n) > 0.0
  {
    if n > 0 {
      PowPositive(b, n - 1);
      assert b * Pow(b, n - 1) > 0.0;
    }
  }

  /** For b >= 1 the powers never decrease as the exponent grows. */
  lemma {:induction false} PowMonotone(b: real, m: nat, n: nat)
    requires b >= 1.0 && m <= n
    ensures 1.0 <= Pow(b, m) <= Pow(b, n)
  {
    if n > m {
      PowMonotone(b, m, n - 1);
      var p := Pow(b, n - 1);
      assert b * p >= p by {
        assert (b - 1.0) * p >= 0.0;
      }
    } else if m > 0 {
      PowMonotone(b, m - 1, m - 1);
      var p := Pow(b, m - 1);
      assert b * p >= p by {
        assert (b - 1.0) * p >= 0.0;
      }
    }
  }

  /** For b > 1 every positive power exceeds one. */
  lemma {:induction false} PowAboveOne(b: real, n: nat)
    requires b > 1.0 && n >= 1
    ensures Pow(b, n) > 1.0
  {
    PowMonotone(b, 0, n - 1);
    var p := Pow(b, n - 1);
    assert b * p > p by {
      assert (b - 1.0) * p > 0.0;
    }
  }

  lemma MulNonNegative(a: real, b: real)
    requires a >= 0.0 && b >= 0.0
    ensures a * b >= 0.0
  {
  }

  /** Bernoulli's inequality: (1 + x)^n >= 1 + n*x for x >= 0. */
  lemma {:induction false} Bernoulli(x: real, n: nat)
    requires x >= 0.0
    ensures Pow(1.0 + x, n) >= 1.0 + (n as real) * x
  {
    if n > 0 {
      Bernoulli(x, n - 1);
      var p := Pow(1.0 + x, n - 1);
      var k := (n - 1) as real;
      calc {
        Pow(1.0 + x, n);
        (1.0 + x) * p;
      >= { assert p - (1.0 + k * x) >= 0.0;
           MulNonNegative(1.0 + x, p - (1.0 + k * x)); }
        (1.0 + x) * (1.0 + k * x);
        1.0 + (k + 1.0) * x + k * x * x;
      >= { assert k * x * x >= 0.0; }
        1.0 + (k + 1.0) * x;
      }
    }
  }
}
