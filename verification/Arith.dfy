/** Facts about products and quotients of variables. */
module Arith {
  lemma DivTimes(x: nat, d: nat)
    requires d > 0
    ensures x / d * d <= x
  {
  }

  lemma DivMod(x: nat, d: nat)
    requires d > 0
    ensures x == x / d * d + x % d && x % d < d
  {
  }

  lemma Commute(x: int, y: int)
    ensures x * y == y * x
  {
  }

  lemma MulMono(x: int, y: int, k: nat)
    requires x <= y
    ensures x * k <= y * k
  {
  }

  lemma DivModUnique(x: nat, d: nat, q: nat, r: nat)
    requires d > 0 && r < d && x == q * d + r
    ensures x / d == q && x % d == r
  {
    assert (x / d - q) * d == r - x % d;
    SmallMultiple(x / d - q, d);
  }

  lemma SmallMultiple(k: int, d: int)
    requires 0 < d && -d < k * d < d
    ensures k == 0
  {
    if k >= 1 { MulMono(1, k, d); }
    if k <= -1 { MulMono(k, -1, d); }
  }

  lemma MulCancel(d: nat, r: int, q: int)
    requires d * r < d * q
    ensures r < q
  {
  }

  lemma DivBelow(x: nat, d: nat, q: nat)
    requires d > 0 && x < d * q
    ensures x / d < q
  {
    assert d * (x / d) <= x < d * q;
    MulCancel(d, x / d, q);
  }

  lemma SplitBelow(q: nat, n: nat, d: nat)
    requires q < n * d
    ensures d > 0 && q / d < n && q % d < d && q == q / d * d + q % d
  {
    Commute(n, d);
    DivBelow(q, d, n);
    DivMod(q, d);
  }

  /** Dividing by 512 first. */
  lemma DivDiv512(x: nat, b: nat)
    requires b > 0
    ensures x / (512 * b) == x / 512 / b
  {
    var y := x / 512;
    var q, r := y / b, y % b;
    assert y == q * b + r;
    assert q * (512 * b) == 512 * (q * b);
    DivModUnique(x, 512 * b, q, 512 * r + x % 512);
  }

  function Div(x: nat, d: nat): nat
    requires d > 0
  {
    x / d
  }

  function Mod(x: nat, d: nat): nat
    requires d > 0
  {
    x % d
  }
}
