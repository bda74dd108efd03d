/** Multiplication, division and remainder facts. */
module Arith {
  lemma MulMono(a: int, b: int, c: int)
    requires a <= b && 0 <= c
    ensures a * c <= b * c
  {
  }

  lemma DivBelow(a: int, b: int, c: int)
    requires 0 < b
    ensures a / b < c <==> a < c * b
  {
    var q := a / b;
    assert q * b <= a < q * b + b;
    if q < c { MulMono(q + 1, c, b); assert (q + 1) * b == q * b + b; }
    else { MulMono(c, q, b); }
  }

  lemma DivBounds(a: int, b: int)
    requires 0 < b
    ensures a / b * b <= a < (a / b + 1) * b
  {
    assert (a / b + 1) * b == a / b * b + b;
  }

  lemma DivUnique(x: int, s: int, k: int)
    requires 0 < s && s * k <= x < s * k + s
    ensures x / s == k && x % s == x - s * k
  {
    assert s * k == k * s;
    assert (k + 1) * s == k * s + s;
    DivBelow(x, s, k);
    DivBelow(x, s, k + 1);
  }

  lemma DivAdd(q: int, b: int, s: int)
    requires 0 < s
    ensures (s * q + b) / s == q + b / s && (s * q + b) % s == b % s
  {
    var d := b / s;
    assert s * (q + d) == s * q + s * d;
    assert b == s * d + b % s;
    DivUnique(s * q + b, s, q + d);
  }
}
