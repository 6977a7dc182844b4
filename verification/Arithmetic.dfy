/** Division with remainder. */
module Arithmetic {

  lemma Successor(w: nat, n: nat)
    requires n >= 1
    ensures if w % n == n - 1 then (w + 1) / n == w / n + 1 && (w + 1) % n == 0
            else (w + 1) / n == w / n && (w + 1) % n == w % n + 1
  {
    var q, r := w / n, w % n;
    assert w == q * n + r;
    if r == n - 1 {
      assert w + 1 == (q + 1) * n;
      DivModUnique(w + 1, n, q + 1, 0);
    } else {
      DivModUnique(w + 1, n, q, r + 1);
    }
  }

  lemma DivModUnique(x: nat, n: nat, q: nat, r: nat)
    requires n >= 1 && x == q * n + r && r < n
    ensures x / n == q && x % n == r
  {
    var q' := x / n;
    assert x == q' * n + x % n;
    MulStep(q', q, n);
    MulStep(q, q', n);
  }

  lemma MulStep(a: nat, b: nat, n: nat)
    ensures a < b ==> a * n + n <= b * n
  {
    if a < b {
      var d := b - a - 1;
      assert b * n == a * n + n + d * n;
    }
  }
}
