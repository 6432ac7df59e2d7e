/**
 * Facts about multiplication, division and remainder by a positive width that
 * the solver does not find unaided: splitting a position into a block number
 * and an offset inside the block.
 */
module Arithmetic {

  /** Position r inside block q of a sequence made of blocks of width b. */
  function Offset(q: nat, b: nat, r: nat): nat
  {
    q * b + r
  }

  lemma MulMonotone(a: nat, b: nat, w: nat)
    requires a <= b
    ensures a * w <= b * w
  {
  }

  lemma {:induction false} MulAtLeast(w: int, d: int)
    requires w > 0 && d >= 1
    ensures w * d >= w
  {
    if d > 1 {
      MulAtLeast(w, d - 1);
      assert w * d == w * (d - 1) + w;
    }
  }

  lemma MulMagnitude(w: int, d: int)
    requires w > 0
    ensures d == 0 || w * d >= w || w * d <= -w
  {
    if d > 0 {
      MulAtLeast(w, d);
    } else if d < 0 {
      MulAtLeast(w, -d);
      assert w * d == -(w * -d);
    }
  }

  /** Adding one whole block does not change the offset. */
  lemma ModShift(x: nat, w: nat)
    requires w > 0
    ensures (x + w) % w == x % w
  {
    var q, q' := x / w, (x + w) / w;
    assert w * (q' - q - 1) == w * q' - w * q - w;
    MulMagnitude(w, q' - q - 1);
  }

  /** The offset of position s * w + k is k. */
  lemma {:induction false} ModOfSplit(s: nat, k: nat, w: nat)
    requires k < w
    ensures (s * w + k) % w == k
  {
    if s > 0 {
      ModOfSplit(s - 1, k, w);
      assert s * w + k == ((s - 1) * w + k) + w;
      ModShift((s - 1) * w + k, w);
    }
  }

  /** Position b lies in block r exactly when r * w <= b < r * w + w. */
  lemma BlockOf(b: nat, w: nat, r: nat)
    requires w > 0
    ensures r * w <= b < r * w + w <==> b / w == r
  {
    var q := b / w;
    assert b == q * w + b % w;
    if q < r {
      MulMonotone(q + 1, r, w);
    } else if q > r {
      MulMonotone(r + 1, q, w);
    }
  }

  /** Position s * w + k, with k < w, lies in block s. */
  lemma DivOfSplit(s: nat, k: nat, w: nat)
    requires k < w
    ensures (s * w + k) / w == s
  {
    BlockOf(s * w + k, w, s);
  }

  /** Block r of n blocks of width w ends inside the n * w positions. */
  lemma BlockFits(r: nat, n: nat, w: nat)
    requires r < n
    ensures r * w + w <= n * w
  {
    MulMonotone(r + 1, n, w);
  }
}
