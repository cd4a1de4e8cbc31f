/** The few facts about multiplication and division that the solver needs to be told. */
module Arithmetic {

  lemma MulStep(d: int, n: nat)
    ensures d >= 1 ==> d * n >= n
    ensures d <= -1 ==> d * n + n <= 0
  {
    if d >= 1 {
      assert d * n == (d - 1) * n + n;
    } else if d <= -1 {
      assert d * n == (d + 1) * n - n;
    }
  }

  /** Quotient and remainder are determined by `a == q * n + r` with `r < n`. */
  lemma DivModUnique(a: int, n: nat, q: int, r: nat)
    requires r < n && a == q * n + r
    ensures a / n == q && a % n == r
  {
    var d := a / n - q;
    assert d * n == r - a % n;
    MulStep(d, n);
  }

  /** Counting to `k` on a clock with `n` hours. */
  ghost function Clock(k: nat, n: nat): (r: nat)
    requires n > 0
    ensures r < n
  {
    if k == 0 then 0
    else if Clock(k - 1, n) + 1 == n then 0 else Clock(k - 1, n) + 1
  }

  lemma {:induction false} ClockIsModulo(k: nat, n: nat)
    requires n > 0
    ensures Clock(k, n) == k % n
  {
    if k == 0 {
      DivModUnique(0, n, 0, 0);
    } else {
      ClockIsModulo(k - 1, n);
      var q := (k - 1) / n;
      if Clock(k, n) == 0 {
        assert k == (q + 1) * n + 0;
        DivModUnique(k, n, q + 1, 0);
      } else {
        DivModUnique(k, n, q, Clock(k, n));
      }
    }
  }
}
