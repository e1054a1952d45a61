/**
 * A loop that visits a list in order, threading a state through the
 * iterations and emitting one value per item, as the upload handler and the
 * migration passes do. Anything proved here holds whatever the loop body is.
 */
module Fold {
  /**
   * The first `n` iterations of the loop over `items` from state `init`:
   * the values emitted, in order, and the state reached. `step(s, x, i)` is
   * iteration `i`, run on item `x` in state `s`.
   */
  function Scan<S, T, R>(step: (S, T, nat) -> (R, S), items: seq<T>, init: S, n: nat): (r: (seq<R>, S))
    requires n <= |items|
    ensures |r.0| == n
  {
    if n == 0 then ([], init)
    else
      var prev := Scan(step, items, init, n - 1);
      var next := step(prev.1, items[n - 1], n - 1);
      (prev.0 + [next.0], next.1)
  }

  /** Later iterations never change a value already emitted. */
  lemma {:induction false} ScanStable<S, T, R>(step: (S, T, nat) -> (R, S), items: seq<T>, init: S, k: nat, n: nat)
    requires k < n <= |items|
    ensures Scan(step, items, init, n).0[k] == Scan(step, items, init, k + 1).0[k]
  {
    if n > k + 1 {
      ScanStable(step, items, init, k, n - 1);
    }
  }

  /** The value emitted for item `k` is what iteration `k` makes of it in the state the earlier iterations left. */
  lemma {:induction false} ScanAt<S, T, R>(step: (S, T, nat) -> (R, S), items: seq<T>, init: S, k: nat)
    requires k < |items|
    ensures Scan(step, items, init, |items|).0[k] == step(Scan(step, items, init, k).1, items[k], k).0
  {
    ScanStable(step, items, init, k, |items|);
  }
}
