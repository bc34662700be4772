/**
 * The circular index arithmetic of keyboard focus cycling. An index of -1 stands
 * for "no window focused", as `findIndex` reports it.
 */
module Cycling {

  /** The index `focusNextWindow` moves to: one further, wrapping to the front. */
  function NextIndex(current: int, n: nat): (r: nat)
    requires 0 < n && -1 <= current < n
    ensures r < n
    ensures current == -1 || current == n - 1 ==> r == 0
    ensures 0 <= current < n - 1 ==> r == current + 1
  {
    if current < n - 1 then current + 1 else 0
  }

  /** The index `focusPreviousWindow` moves to: one back, wrapping to the end; no focus selects the end. */
  function PrevIndex(current: int, n: nat): (r: nat)
    requires 0 < n && -1 <= current < n
    ensures r < n
    ensures current <= 0 ==> r == n - 1
    ensures 0 < current ==> r == current - 1
  {
    if current > 0 then current - 1 else n - 1
  }

  /** Moving back undoes moving forward, and the other way round. */
  lemma PrevUndoesNext(i: int, n: nat)
    requires 0 <= i < n
    ensures PrevIndex(NextIndex(i, n), n) == i
    ensures NextIndex(PrevIndex(i, n), n) == i
  {
  }

  /** The index reached after `k` forward moves from `i`. */
  function NextTimes(i: int, n: nat, k: nat): (r: int)
    requires 0 < n && -1 <= i < n
    ensures -1 <= r < n
    ensures k > 0 ==> 0 <= r
  {
    if k == 0 then i else NextIndex(NextTimes(i, n, k - 1), n)
  }

  /** Euclidean division is unique: a quotient and remainder in range give `%`. */
  lemma DivModUnique(a: int, n: int, q: int, r: int)
    requires 0 < n && a == q * n + r && 0 <= r < n
    ensures a % n == r
  {
    var d := a / n - q;
    assert d * n == r - a % n;
  }

  /** One step on from `m` moves the remainder one place on, wrapping from `n - 1` to `0`. */
  lemma ModSuccessor(m: nat, n: nat)
    requires 0 < n
    ensures (m + 1) % n == if m % n < n - 1 then m % n + 1 else 0
  {
    var q, r := m / n, m % n;
    assert m == q * n + r;
    if r < n - 1 {
      DivModUnique(m + 1, n, q, r + 1);
    } else {
      assert m + 1 == (q + 1) * n;
      DivModUnique(m + 1, n, q + 1, 0);
    }
  }

  /** From a focused index, `k` forward moves land `k` places further round the circle. */
  lemma {:induction false} NextTimesIsRotation(i: int, n: nat, k: nat)
    requires 0 <= i < n
    ensures NextTimes(i, n, k) == (i + k) % n
  {
    if k > 0 {
      NextTimesIsRotation(i, n, k - 1);
      ModSuccessor(i + k - 1, n);
    }
  }

  /** `n` forward moves from a focused index return to it. */
  lemma FullCycleReturns(i: int, n: nat)
    requires 0 <= i < n
    ensures NextTimes(i, n, n) == i
  {
    NextTimesIsRotation(i, n, n);
    DivModUnique(i + n, n, 1, i);
  }
}
