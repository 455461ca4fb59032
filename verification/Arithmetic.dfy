/** Powers of two, and Euclidean division by variables in steps small enough for nonlinear arithmetic. */
module Arithmetic {
  function Pow2(n: nat): (r: nat)
    ensures r > 0
  {
    if n == 0 then 1 else 2 * Pow2(n - 1)
  }

  lemma {:induction false} Pow2Add(a: nat, b: nat)
    ensures Pow2(a + b) == Pow2(a) * Pow2(b)
  {
    if a > 0 {
      Pow2Add(a - 1, b);
      assert Pow2(a) * Pow2(b) == 2 * (Pow2(a - 1) * Pow2(b));
    }
  }

  lemma Distributes(a: int, b: int, d: int)
    ensures (a - b) * d == a * d - b * d
    ensures (a + b) * d == a * d + b * d
  {
  }

  lemma Regroups(a: int, b: int, c: int)
    ensures (a * b) * c == a * (b * c) == (a * c) * b
  {
  }

  lemma AtLeastOne(a: int, d: int)
    requires a >= 1 && d >= 0
    ensures a * d >= d
  {
    assert (a - 1) * d >= 0;
  }

  lemma Euclid(x: int, d: int)
    requires d > 0
    ensures x == (x / d) * d + x % d && 0 <= x % d < d
  {
  }

  /** The quotient and the remainder are the only ones. */
  lemma IsUnique(x: int, d: int, q: int, r: int)
    requires d > 0 && x == q * d + r && 0 <= r < d
    ensures x / d == q && x % d == r
  {
    var q', r' := x / d, x % d;
    Euclid(x, d);
    Distributes(q, q', d);
    if q > q' {
      AtLeastOne(q - q', d);
    } else if q < q' {
      Distributes(q', q, d);
      AtLeastOne(q' - q, d);
    }
  }

  /** Above a multiple of `p` that is below another one there is room for `p`. */
  lemma RoomAbove(s: int, n: int, p: int)
    requires p > 0 && s % p == 0 && s < n * p
    ensures s + p <= n * p
  {
    var q := s / p;
    Euclid(s, p);
    NoSmaller(q, n, p);
    Distributes(n, q, p);
    AtLeastOne(n - q, p);
  }

  lemma KeepsOrder(a: int, b: int, p: int)
    requires a <= b && p >= 0
    ensures a * p <= b * p
  {
    Distributes(b, a, p);
    assert (b - a) * p >= 0;
  }

  lemma NoSmaller(q: int, n: int, p: int)
    requires p > 0 && q * p < n * p
    ensures q < n
  {
    if q >= n {
      KeepsOrder(n, q, p);
    }
  }

  lemma DigitFits(l: int, m: int, p: int, low: int)
    requires 0 <= l < m && 0 <= low < p
    ensures 0 <= l * p + low < m * p
  {
    Distributes(m, l, p);
    AtLeastOne(m - l, p);
    assert l * p >= 0;
  }

  lemma Split(a: int, m: int, l: int, p: int, q: int, rest: int)
    ensures (a * m + l) * p == a * (m * p) + l * p
    ensures q * ((m * p) * rest) == (q * rest) * (m * p)
    ensures (a - q * rest) * (m * p) == a * (m * p) - (q * rest) * (m * p)
  {
    Distributes(a * m, -l, p);
    Regroups(a, m, p);
    Regroups(q, m * p, rest);
    Distributes(a, q * rest, m * p);
  }

  /** Multiplying modulo a word and filling up with `low` keeps the residue modulo a divisor of the word. */
  lemma ShiftedResidue(x: int, m: int, p: int, rest: int, word: int, low: int)
    requires m > 0 && p > 0 && word > 0 && (m * p) * rest == word && 0 <= low < p
    ensures m * p > 0 && ((x * p) % word + low) % (m * p) == (x % m) * p + low
  {
    var a, l, q, s := x / m, x % m, (x * p) / word, (x * p) % word;
    Euclid(x, m);
    Euclid(x * p, word);
    Split(a, m, l, p, q, rest);
    DigitFits(l, m, p, low);
    IsUnique(s + low, m * p, a - q * rest, l * p + low);
  }

  /** Dividing by `r` and reducing modulo `t` reads the upper part of a residue modulo `t * r`. */
  lemma UpperResidue(x: int, t: int, r: int, high: int, low: int)
    requires t > 0 && r > 0 && t * r > 0 && x % (t * r) == high * r + low
    requires 0 <= high < t && 0 <= low < r
    ensures (x / r) % t == high && x % r == low
  {
    var q := x / (t * r);
    Euclid(x, t * r);
    Regroups(q, t, r);
    Distributes(q * t, -high, r);
    assert x == (q * t + high) * r + low;
    IsUnique(x, r, q * t + high, low);
    IsUnique(q * t + high, t, q, high);
  }
}
