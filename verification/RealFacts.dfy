/** Products, quotients and powers of reals. Proofs elsewhere hide `Times` and use these laws. */
module RealFacts {

  function Times(x: real, y: real): real {
    x * y
  }

  function Abs(x: real): real {
    if x < 0.0 then -x else x
  }

  lemma Positive(x: real, y: real)
    requires x > 0.0 && y > 0.0
    ensures Times(x, y) > 0.0
  {
  }

  lemma Commutes(x: real, y: real)
    ensures Times(x, y) == Times(y, x)
  {
  }

  lemma Associates(x: real, y: real, z: real)
    ensures Times(Times(x, y), z) == Times(x, Times(y, z))
  {
  }

  lemma Distributes(x: real, y: real, z: real)
    ensures Times(x + y, z) == Times(x, z) + Times(y, z)
    ensures Times(x - y, z) == Times(x, z) - Times(y, z)
  {
  }

  lemma Units(x: real)
    ensures Times(0.0, x) == 0.0 && Times(1.0, x) == x
    ensures Times(x, 0.0) == 0.0 && Times(x, 1.0) == x
  {
  }

  lemma Grows(a: real, b: real, c: real)
    requires a <= b && c >= 0.0
    ensures Times(a, c) <= Times(b, c)
    ensures a < b && c > 0.0 ==> Times(a, c) < Times(b, c)
  {
    hide Times;
    Distributes(b, a, c);
    if a < b && c > 0.0 {
      Positive(b - a, c);
    } else if a == b {
    } else {
      Units(b);
      Units(a);
    }
  }

  /** A common positive factor cancels. */
  lemma Cancels(a: real, b: real, c: real)
    requires c > 0.0
    ensures Times(a, c) <= Times(b, c) <==> a <= b
    ensures Times(a, c) == Times(b, c) <==> a == b
  {
    hide Times;
    if a < b { Grows(a, b, c); }
    if b < a { Grows(b, a, c); }
  }

  lemma Quotient(x: real, y: real)
    requires y != 0.0
    ensures Times(x / y, y) == x
  {
  }

  lemma QuotientSign(x: real, y: real, q: real)
    requires y > 0.0 && Times(q, y) == x
    ensures x > 0.0 ==> q > 0.0
    ensures x < y ==> q < 1.0
  {
    hide Times;
    Units(y);
    Cancels(q, 0.0, y);
    Cancels(1.0, q, y);
  }

  lemma SquareIsPositive(d: real)
    requires d != 0.0
    ensures Times(d, d) > 0.0
  {
    hide Times;
    if d > 0.0 {
      Positive(d, d);
    } else {
      Positive(-d, -d);
      Distributes(0.0, d, -d);
      Distributes(0.0, d, d);
      Units(-d);
      Units(d);
      Commutes(d, -d);
    }
  }

  lemma SquareAboveTangent(s: real)
    ensures 2.0 * (s - 1.0) <= Times(s, s) - 1.0
    ensures 2.0 * (s - 1.0) == Times(s, s) - 1.0 ==> s == 1.0
  {
    hide Times;
    var d := s - 1.0;
    Distributes(s, 1.0, d);
    Commutes(s, d);
    Distributes(s, 1.0, s);
    Units(s);
    Units(d);
    if d != 0.0 {
      SquareIsPositive(d);
    }
  }

  function Pow(x: real, n: nat): real {
    if n == 0 then 1.0 else Times(x, Pow(x, n - 1))
  }

  lemma {:induction false} PowIsPositive(x: real, n: nat)
    requires x > 0.0
    ensures Pow(x, n) > 0.0
  {
    hide Times;
    if n > 0 {
      PowIsPositive(x, n - 1);
      Positive(x, Pow(x, n - 1));
    }
  }

  /** Powers keep order, strictly from the first on. */
  lemma {:induction false} PowGrows(x: real, y: real, n: nat)
    requires 0.0 <= x <= y
    ensures 0.0 <= Pow(x, n) <= Pow(y, n)
    ensures x < y && n > 0 ==> Pow(x, n) < Pow(y, n)
  {
    hide Times;
    if n > 0 {
      PowGrows(x, y, n - 1);
      var p, q := Pow(x, n - 1), Pow(y, n - 1);
      Units(p);
      Grows(0.0, x, p);
      Grows(p, q, x);
      Commutes(p, x);
      Commutes(q, x);
      Grows(x, y, q);
      if x < y {
        PowIsPositive(y, n - 1);
      }
    }
  }

  lemma {:induction false} PowSum(x: real, m: nat, n: nat)
    ensures Pow(x, m + n) == Times(Pow(x, m), Pow(x, n))
  {
    hide Times;
    if m == 0 {
      Units(Pow(x, n));
    } else {
      PowSum(x, m - 1, n);
      Associates(x, Pow(x, m - 1), Pow(x, n));
    }
  }

  lemma {:induction false} PowProduct(x: real, y: real, n: nat)
    ensures Pow(Times(x, y), n) == Times(Pow(x, n), Pow(y, n))
  {
    hide Times;
    if n == 0 {
      Units(1.0);
    } else {
      PowProduct(x, y, n - 1);
      var p, q := Pow(x, n - 1), Pow(y, n - 1);
      Associates(Times(x, y), p, q);
      Associates(x, y, p);
      Commutes(y, p);
      Associates(x, p, y);
      Associates(Times(x, p), y, q);
    }
  }
}
