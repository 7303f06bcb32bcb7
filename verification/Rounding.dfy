/** Facts about products and floor quotients that the pricing proofs are built from. */
module Rounding {

  lemma MulLe(a: int, b: int, c: int)
    requires a <= b && 0 <= c
    ensures a * c <= b * c
  {
  }

  lemma CancelLe(a: int, b: int, c: int)
    requires 0 < c && a * c <= b * c
    ensures a <= b
  {
    if b < a {
      MulLe(b + 1, a, c);
    }
  }

  lemma CancelLt(a: int, b: int, c: int)
    requires 0 <= c && a * c < b * c
    ensures a < b
  {
    if b <= a {
      MulLe(b, a, c);
    }
  }

  lemma Strict(a: int, b: int, c: int)
    requires a < b && 0 < c
    ensures a * c < b * c
  {
  }

  lemma Commute(a: int, b: int)
    ensures a * b == b * a
  {
  }

  lemma Swap(a: int, b: int, c: int)
    ensures a * b * c == a * c * b
  {
  }

  lemma Regroup(a: int, b: int, c: int)
    ensures a * b * c == a * (c * b)
  {
  }

  lemma DistributeAdd(a: int, b: int, c: int)
    ensures (a + b) * c == a * c + b * c
  {
  }

  lemma DistributeSub(a: int, b: int, c: int)
    ensures (a - b) * c == a * c - b * c
  {
  }

  lemma Distribute(a: int, c: int)
    ensures (a + 1) * c == a * c + c
  {
  }

  /** The quotient `x / d` is the one integer `q` with `q * d <= x < (q + 1) * d`. */
  lemma FloorBounds(x: nat, d: int)
    requires 0 < d
    ensures 0 <= x / d && x / d * d <= x < (x / d + 1) * d
  {
    assert x == d * (x / d) + x % d;
  }

  lemma FloorUnique(x: nat, d: int, q: int)
    requires 0 < d && q * d <= x < (q + 1) * d
    ensures x / d == q
  {
    FloorBounds(x, d);
    CancelLt(q, x / d + 1, d);
    CancelLt(x / d, q + 1, d);
  }

  lemma FloorAtLeast(x: nat, d: int, q: int)
    requires 0 < d && q * d <= x
    ensures q <= x / d
  {
    FloorBounds(x, d);
    CancelLt(q, x / d + 1, d);
  }

  lemma FloorBelow(x: nat, d: int, q: int)
    requires 0 < d && x < q * d
    ensures x / d < q
  {
    FloorBounds(x, d);
    CancelLt(x / d, q, d);
  }

  lemma FloorMono(x: nat, y: nat, d: int)
    requires 0 < d && x <= y
    ensures x / d <= y / d
  {
    FloorBounds(x, d);
    FloorAtLeast(y, d, x / d);
  }

  /** Cross-multiplied fractions `a/b <= c/d <= e/f` chain. */
  lemma CrossTransitive(a: int, b: int, c: int, d: int, e: int, f: int)
    requires 0 <= a && 0 < b && 0 <= c && 0 < d && 0 <= e && 0 < f
    requires a * d <= c * b && c * f <= e * d
    ensures a * f <= e * b
  {
    calc <= {
      a * f * d;
      { assert a * f * d == a * d * f; MulLe(a * d, c * b, f); }
      c * b * f;
      { assert c * b * f == c * f * b; MulLe(c * f, e * d, b); }
      e * d * b;
    }
    assert e * d * b == e * b * d;
    CancelLe(a * f, e * b, d);
  }
}
