/** Small facts about multiplication and Euclidean division that the
    solver does not find by itself. */
module Arith {

  lemma MulAtLeast(w: int, d: int)
    requires w > 0 && d >= 1
    ensures w * d >= w
  {
  }

  /** `a * (b + 1)` is `a * b + a`, in either factor order. */
  lemma MulSucc(a: nat, b: nat)
    ensures a * (b + 1) == a * b + a
    ensures (b + 1) * a == b * a + a
  {
  }

  /** Multiplication by a natural number is monotonic. */
  lemma MulMono(a: nat, b: nat, c: nat)
    requires a <= b
    ensures a * c <= b * c
  {
    var d: nat := b - a;
    assert b * c == a * c + d * c;
  }

  /** Euclidean division has a unique quotient and remainder. */
  lemma DivModUnique(k: int, w: int, q: int, m: int)
    requires w > 0 && 0 <= m < w && k == w * q + m
    ensures k / w == q && k % w == m
  {
    var q', m' := k / w, k % w;
    assert w * q' + m' == w * q + m;
    assert w * (q - q') == m' - m;
    if q > q' {
      MulAtLeast(w, q - q');
    } else if q < q' {
      MulAtLeast(w, q' - q);
    }
  }
}
