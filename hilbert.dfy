/**
 * `hilbert_index_to_pos(n, d)` of intern/cycles/render/tile.cpp (compiled
 * out): the cell of an `n` x `n` block, `n` a power of two, at which a
 * Hilbert curve through the block is after `d` steps. The loop consumes `d`
 * two bits at a time, lowest first; each pair picks a quadrant of the next
 * larger block and the orientation of the smaller block inside it. The
 * lemmas show that the curve stays inside the block and visits every cell
 * at most once.
 */
module Hilbert {
  import opened CInt
  import opened Tiles

  /** The block `[0, s) x [0, s)`. */
  predicate InBlock(p: Pos, s: int)
  {
    0 <= p.x < s && 0 <= p.y < s
  }

  /** `(d >> 1) & 1` and `(d ^ r.x) & 1` for `d >= 0`: the quadrant that the
      lowest two bits of `d` pick. */
  function QuadrantX(d: nat): nat
  {
    (d / 2) % 2
  }

  function QuadrantY(d: nat): nat
  {
    if d % 2 == QuadrantX(d) then 0 else 1
  }

  /** One pass of the loop at block size `s`: the position so far is turned
      into the orientation the quadrant asks for and moved into it. */
  function Step(s: int, d: nat, p: Pos): Pos
  {
    var rx, ry := QuadrantX(d), QuadrantY(d);
    var q := if ry == 0 then
               (if rx == 1 then Pos(s - 1 - p.y, s - 1 - p.x) else Pos(p.y, p.x))
             else p;
    Pos(q.x + rx * s, q.y + ry * s)
  }

  /** The passes of the loop from block size `s` on, with `d` already shifted
      for `s`. */
  function HilbertFrom(s: nat, n: int, d: nat, p: Pos): Pos
    requires s >= 1
    decreases n - s
  {
    if s >= n then p else HilbertFrom(2 * s, n, d / 4, Step(s, d, p))
  }

  /** `hilbert_index_to_pos(n, d)` for `d >= 0`. */
  method HilbertIndexToPos(n: int, d: nat) returns (p: Pos)
    ensures p == HilbertFrom(1, n, d, Pos(0, 0))
  {
    p := Pos(0, 0);
    var s: nat := 1;
    var e := d;
    while s < n
      invariant s >= 1
      invariant HilbertFrom(s, n, e, p) == HilbertFrom(1, n, d, Pos(0, 0))
      decreases n - s
    {
      var rx := (e / 2) % 2;
      var ry := if e % 2 == rx then 0 else 1;
      if ry == 0 {
        if rx == 1 {
          p := Pos(s - 1 - p.x, s - 1 - p.y);
        }
        p := Pos(p.y, p.x);
      }
      p := Pos(p.x + rx * s, p.y + ry * s);
      e := e / 4;
      s := 2 * s;
    }
  }

  /** A pass moves a position of the `s` block into the `2 s` block. */
  lemma StepInBlock(s: nat, d: nat, p: Pos)
    requires InBlock(p, s)
    ensures InBlock(Step(s, d, p), 2 * s)
  {
  }

  /** A pass forgets nothing: the quadrant it lands in gives back the lowest
      two bits of `d`, and the orientation inside the quadrant gives back the
      position. */
  lemma StepInjective(s: nat, d1: nat, d2: nat, p1: Pos, p2: Pos)
    requires InBlock(p1, s) && InBlock(p2, s)
    requires Step(s, d1, p1) == Step(s, d2, p2)
    ensures d1 % 4 == d2 % 4 && p1 == p2
  {
    var rx1, ry1, rx2, ry2 := QuadrantX(d1), QuadrantY(d1), QuadrantX(d2), QuadrantY(d2);
    assert rx1 == rx2 && ry1 == ry2;
    assert d1 % 4 == 2 * ((d1 / 2) % 2) + d1 % 2;
    assert d2 % 4 == 2 * ((d2 / 2) % 2) + d2 % 2;
  }

  lemma Pow2Add(a: nat, b: nat)
    ensures Pow2(a + b) == Pow2(a) * Pow2(b)
    decreases a
  {
    if a > 0 {
      Pow2Add(a - 1, b);
      MulAssociates(2, Pow2(a - 1), Pow2(b));
    }
  }

  /** The passes from block size `2^j` to `2^k` keep a position of the `2^j`
      block inside the `2^k` block. */
  lemma {:induction false} HilbertFromInBlock(j: nat, k: nat, d: nat, p: Pos)
    requires j <= k && InBlock(p, Pow2(j))
    ensures InBlock(HilbertFrom(Pow2(j), Pow2(k), d, p), Pow2(k))
    decreases k - j
  {
    if j < k {
      PowMonotone(j + 1, k);
      StepInBlock(Pow2(j), d, p);
      HilbertFromInBlock(j + 1, k, d / 4, Step(Pow2(j), d, p));
    }
  }

  /** The passes from block size `2^j` to `2^k` are one-to-one on the digits
      still to be consumed and the position reached so far. */
  lemma {:induction false} HilbertFromInjective(j: nat, k: nat, d1: nat, d2: nat, p1: Pos, p2: Pos)
    requires j <= k && InBlock(p1, Pow2(j)) && InBlock(p2, Pow2(j))
    requires d1 < Pow2(2 * (k - j)) && d2 < Pow2(2 * (k - j))
    requires HilbertFrom(Pow2(j), Pow2(k), d1, p1) == HilbertFrom(Pow2(j), Pow2(k), d2, p2)
    ensures d1 == d2 && p1 == p2
    decreases k - j
  {
    if j == k {
      assert Pow2(0) == 1;
    } else {
      PowMonotone(j + 1, k);
      var s := Pow2(j);
      StepInBlock(s, d1, p1);
      StepInBlock(s, d2, p2);
      assert Pow2(2 * (k - j)) == 4 * Pow2(2 * (k - (j + 1)));
      HilbertFromInjective(j + 1, k, d1 / 4, d2 / 4, Step(s, d1, p1), Step(s, d2, p2));
      StepInjective(s, d1, d2, p1, p2);
    }
  }

  lemma PowMonotone(a: nat, b: nat)
    requires a <= b
    ensures Pow2(a) <= Pow2(b)
    decreases b - a
  {
    if a < b {
      PowMonotone(a + 1, b);
    }
  }

  /** In an `n` x `n` block, `n == 2^k`, the curve's first `n * n` steps stay
      inside the block and no two of them reach the same cell. */
  lemma HilbertInjectiveIntoBlock(k: nat, d1: nat, d2: nat)
    requires d1 < Pow2(k) * Pow2(k) && d2 < Pow2(k) * Pow2(k)
    ensures InBlock(HilbertFrom(1, Pow2(k), d1, Pos(0, 0)), Pow2(k))
    ensures HilbertFrom(1, Pow2(k), d1, Pos(0, 0)) == HilbertFrom(1, Pow2(k), d2, Pos(0, 0)) ==> d1 == d2
  {
    assert Pow2(0) == 1;
    HilbertFromInBlock(0, k, d1, Pos(0, 0));
    Pow2Add(k, k);
    assert 2 * (k - 0) == k + k;
    if HilbertFrom(1, Pow2(k), d1, Pos(0, 0)) == HilbertFrom(1, Pow2(k), d2, Pos(0, 0)) {
      HilbertFromInjective(0, k, d1, d2, Pos(0, 0), Pos(0, 0));
    }
  }

  /** The 8 x 8 block `gen_tiles` uses for small tiles: the curve starts in
      the corner cell and climbs to its diagonal neighbour in two steps. */
  lemma HilbertBlockOfEightStart()
    ensures HilbertFrom(1, 8, 0, Pos(0, 0)) == Pos(0, 0)
    ensures HilbertFrom(1, 8, 1, Pos(0, 0)) == Pos(0, 1)
    ensures HilbertFrom(1, 8, 2, Pos(0, 0)) == Pos(1, 1)
  {
    assert HilbertFrom(8, 8, 0, Pos(0, 0)) == Pos(0, 0);
    assert HilbertFrom(4, 8, 0, Pos(0, 0)) == Pos(0, 0);
    assert HilbertFrom(2, 8, 0, Pos(0, 0)) == Pos(0, 0);
    assert HilbertFrom(8, 8, 0, Pos(0, 1)) == Pos(0, 1);
    assert Step(4, 0, Pos(1, 0)) == Pos(0, 1);
    assert HilbertFrom(4, 8, 0, Pos(1, 0)) == Pos(0, 1);
    assert Step(2, 0, Pos(0, 1)) == Pos(1, 0);
    assert HilbertFrom(2, 8, 0, Pos(0, 1)) == Pos(0, 1);
    assert Step(1, 1, Pos(0, 0)) == Pos(0, 1);
    assert HilbertFrom(8, 8, 0, Pos(1, 1)) == Pos(1, 1);
    assert HilbertFrom(4, 8, 0, Pos(1, 1)) == Pos(1, 1);
    assert HilbertFrom(2, 8, 0, Pos(1, 1)) == Pos(1, 1);
    assert Step(1, 2, Pos(0, 0)) == Pos(1, 1);
  }

  /** The last of the 64 steps in the 8 x 8 block ends in the other corner of
      the bottom row. */
  lemma HilbertBlockOfEightEnd()
    ensures HilbertFrom(1, 8, 63, Pos(0, 0)) == Pos(7, 0)
  {
    assert HilbertFrom(8, 8, 0, Pos(7, 0)) == Pos(7, 0);
    assert Step(4, 3, Pos(3, 0)) == Pos(7, 0);
    assert HilbertFrom(4, 8, 3, Pos(3, 0)) == Pos(7, 0);
    assert Step(2, 15, Pos(1, 0)) == Pos(3, 0);
    assert HilbertFrom(2, 8, 15, Pos(1, 0)) == Pos(7, 0);
    assert Step(1, 63, Pos(0, 0)) == Pos(1, 0);
  }
}
