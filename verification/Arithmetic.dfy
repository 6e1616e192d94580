/** Integer powers and division facts shared by the page walk and the flat memories. */
module Arithmetic {

  function Min(a: int, b: int): int {
    if a < b then a else b
  }

  function Pow(base: nat, exponent: nat): nat {
    if exponent == 0 then 1 else base * Pow(base, exponent - 1)
  }

  /** `k` copies of `s`: a product the verifier meets as a sum. */
  function Times(k: nat, s: nat): nat {
    if k == 0 then 0 else Times(k - 1, s) + s
  }

  lemma TimesGap(i: nat, j: nat, s: nat)
    ensures i < j ==> Times(i, s) + s <= Times(j, s)
    decreases j
  {
    if i + 1 < j {
      TimesGap(i, j - 1, s);
    }
  }

  lemma {:induction false} TimesIsProduct(k: nat, s: nat)
    ensures Times(k, s) == k * s
  {
    if k > 0 {
      TimesIsProduct(k - 1, s);
      assert k * s == (k - 1) * s + s;
    }
  }

  /** Rounds the quotient up: the `ceil` of the source on positive operands. */
  function CeilDiv(a: nat, b: nat): nat
    requires b > 0
  {
    (a + b - 1) / b
  }

  lemma PowPositive(base: nat, exponent: nat)
    requires base > 0
    ensures Pow(base, exponent) > 0
  {
    if exponent > 0 {
      PowPositive(base, exponent - 1);
    }
  }

  lemma MulMonotone(a: nat, x: int, y: int)
    requires x <= y
    ensures a * x <= a * y
  {
  }

  lemma MulGap(a: nat, x: int, y: int)
    ensures x < y ==> a * x + a <= a * y
  {
    if x < y {
      MulMonotone(a, x + 1, y);
      assert a * (x + 1) == a * x + a;
    }
  }

  lemma DivModUnique(x: int, d: int, q: int, r: int)
    requires 0 <= r < d && x == d * q + r
    ensures x / d == q && x % d == r
  {
    var k := x / d;
    assert x == d * k + x % d;
    MulGap(d, q, k);
    MulGap(d, k, q);
  }

  lemma SmallModulo(x: nat, n: nat)
    requires x < n
    ensures x % n == x
  {
    DivModUnique(x, n, 0, x);
  }

  /** One step around a ring. */
  lemma NextAround(p: nat, n: nat)
    requires p < n
    ensures (p + 1) % n == if p + 1 < n then p + 1 else 0
  {
    if p + 1 < n {
      SmallModulo(p + 1, n);
    } else {
      DivModUnique(n, n, 1, 0);
    }
  }

  lemma DivMonotone(q: nat, r: nat, n: nat)
    requires n > 0 && q <= r
    ensures q / n <= r / n
  {
    assert q == n * (q / n) + q % n;
    assert r == n * (r / n) + r % n;
    MulGap(n, r / n, q / n);
  }

  /** Dividing twice is dividing once by the product. */
  lemma DivDiv(p: nat, a: nat, n: nat)
    requires a > 0 && n > 0
    ensures n * a > 0 && (p / a) / n == p / (n * a)
  {
    var x := p / a;
    var q := x / n;
    var r := (x % n) * a + p % a;
    assert x == n * q + x % n;
    assert p == a * x + p % a;
    assert p == (n * a) * q + r by {
      assert a * x == a * (n * q) + a * (x % n);
      assert a * (n * q) == (n * a) * q;
    }
    assert 0 <= r < n * a by {
      MulMonotone(a, x % n, n - 1);
      assert a * (n - 1) == n * a - a;
      assert a * (x % n) == (x % n) * a;
    }
    DivModUnique(p, n * a, q, r);
  }

  /** A quotient stays below `n` exactly when its dividend stays below `n * d`. */
  lemma DivBound(x: nat, d: nat, n: nat)
    requires d > 0
    ensures x / d < n <==> x < n * d
  {
    assert x == d * (x / d) + x % d;
    if x / d < n {
      MulMonotone(d, x / d + 1, n);
      assert d * (x / d + 1) == d * (x / d) + d;
      assert d * n == n * d;
    } else {
      MulMonotone(d, n, x / d);
      assert d * n == n * d;
    }
  }

  /** The parent of position `r` of a level is a position of the level above. */
  lemma ParentPosition(n: nat, level: nat, q: nat, r: nat)
    requires n > 0 && level > 0 && q < r < Pow(n, level)
    ensures q / n <= r / n < Pow(n, level - 1)
    ensures q / n == r / n ==> q % n < r % n
  {
    DivMonotone(q, r, n);
    DivBound(r, n, Pow(n, level - 1));
    assert n * Pow(n, level - 1) == Pow(n, level - 1) * n;
    assert q == n * (q / n) + q % n && r == n * (r / n) + r % n;
  }

  /** Dropping the leading digits of a number keeps its last digit and wraps the others. */
  lemma WrapDigits(p: nat, n: nat, a: nat)
    requires n > 0 && a > 0
    ensures n * a > 0 && (p % (n * a)) % n == p % n && (p % (n * a)) / n == (p / n) % a
  {
    var q := p / n;
    var low := n * (q % a) + p % n;
    assert q == a * (q / a) + q % a;
    assert p == n * q + p % n;
    assert n * (a * (q / a)) == (n * a) * (q / a);
    MulGap(n, q % a, a);
    DivModUnique(p, n * a, q / a, low);
    DivModUnique(low, n, q % a, p % n);
  }

  /** A frame and an offset inside it are determined by the address. */
  lemma PlaceUnique(f: nat, x: nat, g: nat, y: nat, n: nat)
    requires x < n && y < n && f * n + x == g * n + y
    ensures f == g && x == y
  {
    assert n * f == f * n && n * g == g * n;
    DivModUnique(f * n + x, n, f, x);
    DivModUnique(g * n + y, n, g, y);
  }

  /** `pages * unit` covers `size` exactly from the rounded-up quotient on. */
  lemma CeilDivLeast(a: nat, b: nat, n: nat)
    requires b > 0
    ensures CeilDiv(a, b) <= n <==> a <= n * b
  {
    var c := CeilDiv(a, b);
    DivBound(a + b - 1, b, n + 1);
    assert (n + 1) * b == n * b + b;
  }
}
