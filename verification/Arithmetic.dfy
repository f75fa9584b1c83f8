/** Powers of two, and the few facts about products, quotients, remainders and counts that
    the other modules rest on. */
module Arithmetic {

  function Pow2(n: nat): (r: nat)
    ensures r > 0
  {
    if n == 0 then 1 else 2 * Pow2(n - 1)
  }

  lemma MulAssoc(a: int, b: int, c: int)
    ensures a * (b * c) == (a * b) * c
  {
  }

  lemma {:induction false} Pow2Add(m: nat, n: nat)
    ensures Pow2(m + n) == Pow2(m) * Pow2(n)
  {
    if m > 0 {
      Pow2Add(m - 1, n);
      assert Pow2(m + n) == 2 * Pow2(m - 1 + n);
      MulAssoc(2, Pow2(m - 1), Pow2(n));
    }
  }

  lemma MulSum(a: int, b: int, c: int)
    ensures a * (b + c) == a * b + a * c
  {
  }

  lemma MulMono(a: nat, b: int, c: int)
    requires b <= c
    ensures a * b <= a * c
  {
    MulSum(a, b, c - b);
  }

  /** Quotient and remainder are determined by their defining equation. */
  lemma DivModUnique(x: int, d: nat, q: int, r: int)
    requires 0 <= r < d && x == d * q + r
    ensures x / d == q && x % d == r
  {
    var q' := x / d;
    assert x == d * q' + x % d;
    if q' < q {
      MulMono(d, q' + 1, q);
      MulSum(d, q', 1);
    } else if q < q' {
      MulMono(d, q + 1, q');
      MulSum(d, q, 1);
    }
  }

  lemma DivModEq(x: int, d: nat)
    requires d > 0
    ensures x == d * (x / d) + x % d && 0 <= x % d < d
  {
  }

  /** Two-digit division: q is the quotient of x by a*b. */
  lemma TwoDigits(x: int, a: nat, b: nat, y: int, q: int, s: int, r: int)
    requires 0 <= s < b && 0 <= r < a && y == b * q + s && x == a * y + r
    ensures a * s + r < a * b
    ensures x / (a * b) == q && x % (a * b) == a * s + r
  {
    MulSum(a, b * q, s);
    MulAssoc(a, b, q);
    MulMono(a, s, b - 1);
    MulSum(a, b, -1);
    DivModUnique(x, a * b, q, a * s + r);
  }

  lemma DivDiv(x: nat, a: nat, b: nat)
    requires a > 0 && b > 0
    ensures a * b > 0 && (x / a) / b == x / (a * b)
  {
    var y, r := x / a, x % a;
    var q, s := y / b, y % b;
    DivModEq(x, a);
    DivModEq(y, b);
    TwoDigits(x, a, b, y, q, s, r);
  }

  lemma ModDiv(y: nat, m: nat, n: nat)
    requires m > 0 && n > 0
    ensures m * n > 0 && (y % (m * n)) / m == (y / m) % n
  {
    var q, r := y / m, y % m;
    var u, v := q / n, q % n;
    DivModEq(y, m);
    DivModEq(q, n);
    TwoDigits(y, m, n, q, u, v, r);
    DivModUnique(m * v + r, m, v, r);
  }

  lemma ParityOfMod(z: nat, p: nat)
    requires p > 0
    ensures (z % (2 * p)) % 2 == z % 2
  {
    var q, r := z / (2 * p), z % (2 * p);
    DivModEq(z, 2 * p);
    MulAssoc(2, p, q);
  }

  /** Picking out bit m of a masked value: the mask is wide enough not to matter. */
  lemma MaskedBit(y: nat, m: nat, l: nat)
    ensures ((y % Pow2(m + l + 1)) / Pow2(m)) % 2 == (y / Pow2(m)) % 2
  {
    Pow2Add(m, l + 1);
    ModDiv(y, Pow2(m), Pow2(l + 1));
    ParityOfMod(y / Pow2(m), Pow2(l));
  }

  lemma ShiftShift(x: nat, s: nat, m: nat)
    ensures (x / Pow2(s)) / Pow2(m) == x / Pow2(s + m)
  {
    Pow2Add(s, m);
    DivDiv(x, Pow2(s), Pow2(m));
  }

  /** What is in a list at two places is in it at least twice. */
  lemma CountTwice<T>(l: seq<T>, i: nat, k: nat)
    requires i < k < |l| && l[i] == l[k]
    ensures multiset(l)[l[k]] >= 2
  {
    assert l == l[..k] + [l[k]] + l[k + 1..];
    assert l[..k][i] == l[k];
  }
}
