/** Notions shared by the components. */
module Basics {

  datatype Option<+T> = None | Some(value: T)

  newtype byte = x: int | 0 <= x < 256

  /** How many numbers 64 bits hold. */
  const TWO64: nat := 0x1_0000_0000_0000_0000

  // ----- Sliding windows -----

  /** The newest `k` entries, or all if there are fewer. */
  function LastOf<T>(xs: seq<T>, k: nat): seq<T> {
    if |xs| <= k then xs else xs[|xs| - k..]
  }

  /** A window after a push that drops the oldest entry when over `k`. */
  function Slid<T>(w: seq<T>, x: T, k: nat): (r: seq<T>)
    ensures r != [] || k == 0
  {
    if |w| + 1 > k then (w + [x])[1..] else w + [x]
  }

  /** Pushing onto the window and dropping the oldest keeps it the newest part of the whole. */
  lemma SlideWindow<T>(xs: seq<T>, x: T, k: nat)
    requires k >= 1
    ensures LastOf(xs + [x], k) == Slid(LastOf(xs, k), x, k)
    ensures |xs| + 1 >= k ==> LastOf(xs + [x], k)[0] == (xs + [x])[|xs| + 1 - k]
  {
  }
}
