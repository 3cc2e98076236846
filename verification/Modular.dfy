/** Remainders, for cyclic buffers of any size. */
module Modular {

  // Quotient and remainder are determined by the division equation.
  lemma DivModUnique(t: int, n: int, q: int, r: int)
    requires 0 < n && t == q * n + r && 0 <= r < n
    ensures t / n == q && t % n == r
  {
    var q', r' := t / n, t % n;
    assert (q - q') * n == r' - r;
    if q > q' {
      assert (q - q') * n >= n by { Scale(q - q', n); }
    } else if q < q' {
      assert (q' - q) * n >= n by { Scale(q' - q, n); }
    }
  }

  lemma Scale(k: int, n: int)
    requires k >= 1 && n > 0
    ensures k * n >= n
  {
  }

  lemma NextRound(t: int, n: int)
    requires 0 < n
    ensures (t + n) % n == t % n
  {
    DivModUnique(t + n, n, t / n + 1, t % n);
  }

  // Two numbers less than n apart share a remainder only if they are equal.
  lemma WindowApart(n: int, t: int, u: int)
    requires 0 < n && t < u < t + n
    ensures t % n != u % n
  {
    if t % n == u % n {
      DivModUnique(u - t, n, u / n - t / n, 0);
      DivModUnique(u - t, n, 0, u - t);
    }
  }

  // The index d steps after h in a cyclic buffer of n.
  function Pos(h: nat, d: nat, n: nat): nat {
    if h + d < n then h + d else h + d - n
  }

  // A sum of a remainder and a step below n wraps at most once.
  lemma Wrap(a: int, b: int, n: int)
    requires 0 <= a < n && 0 <= b < n
    ensures (a + b) % n == if a + b < n then a + b else a + b - n
  {
    if a + b < n {
      DivModUnique(a + b, n, 0, a + b);
    } else {
      DivModUnique(a + b, n, 1, a + b - n);
    }
  }

  lemma AddMod(a: int, b: int, n: int)
    requires 0 < n
    ensures (a % n + b) % n == (a + b) % n
  {
    DivModUnique(a + b, n, a / n + (a % n + b) / n, (a % n + b) % n);
  }

  // The number in [base, base + n) that agrees with pos modulo n.
  lemma FirstOfRound(base: int, pos: int, n: int) returns (t: int)
    requires 0 < n && base <= pos
    ensures base <= t < base + n && t % n == pos % n
    ensures t == pos || t + n <= pos
  {
    var d := pos - base;
    t := base + d % n;
    AddMod(d, base, n);
    if d >= n {
      QuotientPositive(d, n);
      Scale(d / n, n);
    } else {
      DivModUnique(d, n, 0, d);
    }
  }

  lemma QuotientPositive(d: int, n: int)
    requires 0 < n <= d
    ensures d / n >= 1
  {
  }

}
