/** Division facts the solver needs spelled out. */
module Arith {
  lemma MulMono(m: nat, a: int, b: int)
    requires a <= b
    ensures m * a <= m * b
  {
  }

  lemma MulDist(m: int, a: int, b: int)
    ensures m * (a + b) == m * a + m * b
  {
  }

  lemma MulAssoc(a: int, b: int, c: int)
    ensures a * (b * c) == (a * b) * c
  {
  }

  /** Quotient and remainder are the only pair that adds up. */
  lemma DivUnique(v: int, m: nat, p: int, r: nat)
    requires v == m * p + r && r < m
    ensures v % m == r && v / m == p
  {
    var q, s := v / m, v % m;
    assert v == m * q + s;
    MulDist(m, q, 1);
    MulDist(m, p, 1);
    if q < p {
      MulMono(m, q + 1, p);
    } else if p < q {
      MulMono(m, p + 1, q);
    }
  }

  lemma ModSplit(v: nat, a: nat, b: nat)
    requires a > 0 && b > 0
    ensures a * b > 0
    ensures v % (a * b) == v % a + a * (v / a % b)
    ensures v / (a * b) == v / a / b
  {
    var q, r := v / a, v % a;
    var p, s := q / b, q % b;
    assert q == b * p + s;
    MulDist(a, b * p, s);
    MulAssoc(a, b, p);
    MulMono(a, s, b - 1);
    MulDist(a, b, -1);
    MulMono(a, 1, b);
    DivUnique(v, a * b, p, a * s + r);
  }

  /** 2 to the power `n`. */
  function Power(n: nat): (r: nat)
    ensures r > 0
  {
    if n == 0 then 1 else 2 * Power(n - 1)
  }
}
