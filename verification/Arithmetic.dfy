/** Division rounded up and the few facts about multiples behind it. */
module Arithmetic {

  function Ceiling(n: nat, k: nat): nat
    requires k > 0
  {
    (n + k - 1) / k
  }

  lemma NextMultiple(n: nat, k: nat)
    ensures (n + 1) * k == n * k + k
  {}

  lemma WholeSteps(k: nat, a: nat, b: nat)
    ensures a < b ==> k * a + k <= k * b
  {
    if a < b {
      assert k * b == k * (a + 1) + k * (b - a - 1);
    }
  }

  lemma DivideOut(k: nat, m: nat, r: nat)
    requires r < k
    ensures (k * m + r) / k == m
  {
    var q := (k * m + r) / k;
    assert k * m + r == k * q + (k * m + r) % k;
    WholeSteps(k, q, m);
    WholeSteps(k, m, q);
  }

  /** m shares of k are enough for n and one share fewer is not. */
  lemma CeilingBounds(n: nat, k: nat, m: nat)
    requires k > 0 && n <= k * m && (m > 0 ==> n > k * (m - 1))
    ensures m == Ceiling(n, k)
  {
    if m > 0 {
      assert n + k - 1 == k * m + (n - k * (m - 1) - 1);
      DivideOut(k, m, n - k * (m - 1) - 1);
    } else {
      DivideOut(k, 0, k - 1);
    }
  }
}
