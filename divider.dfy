/**
 * The resolution divider policy of the progressive scheduler (`get_divider`):
 * the power of two by which the image is first scaled down so that the first
 * pass stays within a pixel budget of `start_resolution` squared.
 */
module ResolutionDivider {
  import opened CInt

  /** The start resolutions the source's loop terminates on: the "unlimited"
      sentinel, or any non-zero value whose square is a C `int`. */
  predicate ValidStartResolution(startResolution: int)
  {
    startResolution == INT_MAX ||
    (startResolution != 0 && startResolution * startResolution <= INT_MAX)
  }

  /** One side of the image after `k` rounds of the loop's `max(1, x / 2)`. */
  function Halved(x: nat, k: nat): nat
  {
    if k == 0 then x else Max(1, x / Pow2(k))
  }

  /** After `k` halvings the scaled-down image fits in `budget` pixels. */
  predicate FitsAt(w: nat, h: nat, budget: nat, k: nat)
  {
    Halved(w, k) * Halved(h, k) <= budget
  }

  /** The number of doublings the loop of `get_divider` performs. */
  function Steps(w: nat, h: nat, budget: nat): nat
    requires budget >= 1
    decreases w + h
  {
    if w * h > budget then
      HalvingShrinks(w, h);
      1 + Steps(Max(1, w / 2), Max(1, h / 2), budget)
    else 0
  }

  /** The divider `get_divider(w, h, start_resolution)` returns. */
  function Divider(w: nat, h: nat, startResolution: int): nat
    requires ValidStartResolution(startResolution)
  {
    if startResolution == INT_MAX then 1
    else Pow2(Steps(w, h, startResolution * startResolution))
  }

  /** Halving both sides of an image of at least two pixels makes progress and
      never grows its area. */
  lemma HalvingShrinks(w: nat, h: nat)
    requires w * h >= 2
    ensures Max(1, w / 2) + Max(1, h / 2) < w + h
    ensures Max(1, w / 2) * Max(1, h / 2) <= w * h
  {
    var w', h' := Max(1, w / 2), Max(1, h / 2);
    if w <= 1 && h <= 1 {
      MulMonotone(w, h, 1);
      assert false;
    }
    assert 1 <= w' <= w && 1 <= h' <= h;
    MulMonotone(w', h', h);
    MulMonotone(h, w', w);
  }

  /** One more halving of an already halved side is the same as halving the
      original once more. */
  lemma HalvedStep(x: nat, k: nat)
    ensures Halved(Max(1, x / 2), k) == Halved(x, k + 1)
  {
    var p := Pow2(k);
    var p2 := Pow2(k + 1);
    assert p2 == 2 * p;
    if k > 0 {
      assert p >= 2 by { assert p == 2 * Pow2(k - 1); }
      if x >= 2 {
        var y := x / 2;
        assert Max(1, x / 2) == y;
        HalveThenDivide(x, p);
        assert y / p == x / p2;
      } else {
        DivUnique(1, p, 0, 1);
        DivUnique(x, p2, 0, x);
      }
    }
  }

  lemma FitsAtStep(w: nat, h: nat, budget: nat, j: nat)
    ensures FitsAt(Max(1, w / 2), Max(1, h / 2), budget, j) == FitsAt(w, h, budget, j + 1)
  {
    HalvedStep(w, j);
    HalvedStep(h, j);
  }

  /** `get_divider`'s count of doublings is the least number of halvings after
      which the image fits the budget. */
  lemma {:induction false} StepsIsLeastFit(w: nat, h: nat, budget: nat)
    requires budget >= 1
    ensures FitsAt(w, h, budget, Steps(w, h, budget))
    ensures forall j: nat :: j < Steps(w, h, budget) ==> !FitsAt(w, h, budget, j)
  {
    if w * h > budget {
      HalvingShrinks(w, h);
      var w', h' := Max(1, w / 2), Max(1, h / 2);
      StepsIsLeastFit(w', h', budget);
      var k := Steps(w', h', budget);
      assert Steps(w, h, budget) == 1 + k;
      FitsAtStep(w, h, budget, k);
      forall j: nat | j < 1 + k
        ensures !FitsAt(w, h, budget, j)
      {
        if j > 0 {
          FitsAtStep(w, h, budget, j - 1);
        } else {
          assert Halved(w, 0) * Halved(h, 0) == w * h;
        }
      }
    }
  }

  /** The divider is the least power of two at which the image, each side
      halved and clamped to 1 that many times, covers at most
      `start_resolution` squared pixels; with the unlimited sentinel it is 1. */
  lemma DividerIsLeastFittingPowerOfTwo(w: nat, h: nat, startResolution: int)
    requires ValidStartResolution(startResolution)
    ensures startResolution == INT_MAX ==> Divider(w, h, startResolution) == 1
    ensures startResolution != INT_MAX ==>
      exists k: nat :: Divider(w, h, startResolution) == Pow2(k)
        && FitsAt(w, h, startResolution * startResolution, k)
        && forall j: nat :: j < k ==> !FitsAt(w, h, startResolution * startResolution, j)
  {
    if startResolution != INT_MAX {
      var budget := startResolution * startResolution;
      StepsIsLeastFit(w, h, budget);
      var k := Steps(w, h, budget);
      assert Divider(w, h, startResolution) == Pow2(k);
    }
  }

  lemma DividerIsPowerOfTwo(w: nat, h: nat, startResolution: int)
    requires ValidStartResolution(startResolution)
    ensures PowerOfTwo(Divider(w, h, startResolution))
  {
    if startResolution != INT_MAX {
      Pow2IsPowerOfTwo(Steps(w, h, startResolution * startResolution));
    }
  }

  /** `get_divider(w, h, start_resolution)`. The bounds on `w * h` and on the
      square of the start resolution keep the source's `int` products exact. */
  method GetDivider(w0: int, h0: int, startResolution: int) returns (divider: int)
    requires 0 <= w0 && 0 <= h0 && w0 * h0 <= INT_MAX
    requires ValidStartResolution(startResolution)
    ensures divider == Divider(w0, h0, startResolution)
    ensures startResolution == INT_MAX ==> divider == 1
    ensures PowerOfTwo(divider)
  {
    var w, h := w0, h0;
    divider := 1;
    if startResolution != INT_MAX {
      var budget := startResolution * startResolution;
      ghost var k: nat := 0;
      while w * h > budget
        invariant 0 <= w && 0 <= h && w * h <= INT_MAX
        invariant divider == Pow2(k)
        invariant k + Steps(w, h, budget) == Steps(w0, h0, budget)
        decreases w + h
      {
        HalvingShrinks(w, h);
        w := Max(1, w / 2);
        h := Max(1, h / 2);
        divider := divider * 2;  // `divider <<= 1`
        k := k + 1;
      }
    }
    DividerIsPowerOfTwo(w0, h0, startResolution);
  }
}
