/**
 * The random source of the engine, made explicit.
 *
 * The program draws from a thread-local generator; here every draw is taken
 * from a finite stream that the caller supplies. One `Draw` serves one
 * `gen_range` call (through `pick`) together with the `gen::<f64>` call that
 * may follow it (through `value`). A stream that has run out reads as
 * `Default` forever, so every consumer of draws is total.
 */
module Rng {

  datatype Draw = Draw(pick: int, value: real)

  /** What an exhausted stream yields: pick 1 selects `Var` in the tree generator. */
  const Default: Draw := Draw(1, 0.0)

  /** The next draw of the stream. */
  function Head(s: seq<Draw>): Draw {
    if |s| == 0 then Default else s[0]
  }

  /** The stream after `k` draws have been taken from it. */
  function Drop(s: seq<Draw>, k: nat): (rest: seq<Draw>)
    ensures |rest| <= |s|
    ensures |s| > 0 && k > 0 ==> |rest| < |s|
  {
    if k <= |s| then s[k..] else []
  }

  lemma DropNext(s: seq<Draw>, k: nat)
    ensures Drop(Drop(s, k), 1) == Drop(s, k + 1)
    ensures Head(Drop(s, k)) == (if k < |s| then s[k] else Default)
  {
    if k < |s| {
      assert s[k..][1..] == s[k + 1..];
    }
  }

  /** `gen_range(0..n)`: the pick of a draw reduced into `[0, n)`. */
  function GenRange(pick: int, n: int): (r: int)
    requires n > 0
    ensures 0 <= r < n
  {
    pick % n
  }
}
