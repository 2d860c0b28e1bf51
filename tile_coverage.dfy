/**
 * What the render queues `gen_tiles` (intern/cycles/render/tile.cpp,
 * compiled out) leaves hold: every generated tile exactly once. Sliced, the
 * queues taken one after the other are the tiles in generation order;
 * unsliced, each run may be reordered by the tile order, but no tile is lost
 * or queued twice.
 */
module TileCoverage {
  import opened CInt
  import opened Tiles
  import opened TileOrdering
  import opened TileQueues
  import opened TileDealing
  import opened TileGeneration

  /** The indices from `lo` up to, not including, `hi`. */
  function Between(lo: nat, hi: nat): seq<nat>
  {
    if lo <= hi then Range(lo, hi - lo) else []
  }

  lemma BetweenAppend(a: nat, b: nat, c: nat)
    requires a <= b <= c
    ensures Between(a, b) + Between(b, c) == Between(a, c)
  {
    assert Range(a, b - a) + Range(b, c - b) == Range(a, c - a);
  }

  /** Queues that hold consecutive runs of indices, one after the other,
      flatten from queue `j` on to the indices from run `j`'s start on. */
  lemma {:induction false} FlattenRunsInOrderFrom(qs: seq<seq<nat>>, starts: seq<nat>, j: nat)
    requires |starts| == |qs| + 1 && j <= |qs|
    requires forall i :: 0 <= i < |qs| ==> starts[i] <= starts[i + 1]
    requires forall i :: 0 <= i < |qs| ==> qs[i] == Between(starts[i], starts[i + 1])
    ensures starts[j] <= starts[|qs|]
    ensures Flatten(qs[j..]) == Between(starts[j], starts[|qs|])
    decreases |qs| - j
  {
    if j < |qs| {
      FlattenRunsInOrderFrom(qs, starts, j + 1);
      assert qs[j..] == [qs[j]] + qs[j + 1..];
      assert Flatten(qs[j..]) == qs[j] + Flatten(qs[j + 1..]);
      BetweenAppend(starts[j], starts[j + 1], starts[|qs|]);
    }
  }

  /** Queues that hold consecutive runs of indices, one after the other,
      flatten to all the indices of the runs. */
  lemma FlattenRunsInOrder(qs: seq<seq<nat>>, starts: seq<nat>)
    requires |starts| == |qs| + 1
    requires forall i :: 0 <= i < |qs| ==> starts[i] <= starts[i + 1]
    requires forall i :: 0 <= i < |qs| ==> qs[i] == Between(starts[i], starts[i + 1])
    ensures starts[0] <= starts[|qs|]
    ensures Flatten(qs) == Between(starts[0], starts[|qs|])
  {
    FlattenRunsInOrderFrom(qs, starts, 0);
    assert qs[0..] == qs;
  }

  /** Queues that hold the same indices one by one, from queue `j` on, hold
      the same indices altogether. */
  lemma {:induction false} FlattenSameMultisetsFrom(qs: seq<seq<nat>>, ps: seq<seq<nat>>, j: nat)
    requires |qs| == |ps| && j <= |qs|
    requires forall i :: 0 <= i < |qs| ==> multiset(qs[i]) == multiset(ps[i])
    ensures multiset(Flatten(qs[j..])) == multiset(Flatten(ps[j..]))
    decreases |qs| - j
  {
    if j < |qs| {
      FlattenSameMultisetsFrom(qs, ps, j + 1);
      assert qs[j..] == [qs[j]] + qs[j + 1..];
      assert ps[j..] == [ps[j]] + ps[j + 1..];
      assert Flatten(qs[j..]) == qs[j] + Flatten(qs[j + 1..]);
      assert Flatten(ps[j..]) == ps[j] + Flatten(ps[j + 1..]);
    }
  }

  /** Queues that hold the same indices one by one hold the same indices
      altogether. */
  lemma FlattenSameMultisets(qs: seq<seq<nat>>, ps: seq<seq<nat>>)
    requires |qs| == |ps|
    requires forall i :: 0 <= i < |qs| ==> multiset(qs[i]) == multiset(ps[i])
    ensures multiset(Flatten(qs)) == multiset(Flatten(ps))
  {
    FlattenSameMultisetsFrom(qs, ps, 0);
    assert qs[0..] == qs && ps[0..] == ps;
  }

  /** Queues that each hold, in some order, a run of consecutive indices,
      the runs one after the other, hold every index of the runs once. */
  lemma FlattenPermutedRuns(qs: seq<seq<nat>>, ps: seq<seq<nat>>, starts: seq<nat>)
    requires |qs| == |ps| && |starts| == |ps| + 1
    requires forall i :: 0 <= i < |ps| ==> starts[i] <= starts[i + 1]
    requires forall i :: 0 <= i < |ps| ==> ps[i] == Between(starts[i], starts[i + 1])
    requires forall i :: 0 <= i < |qs| ==> multiset(qs[i]) == multiset(ps[i])
    ensures multiset(Flatten(qs)) == multiset(Between(starts[0], starts[|ps|]))
  {
    FlattenSameMultisets(qs, ps);
    FlattenRunsInOrder(ps, starts);
  }

  /** Slice `s + 1` starts where slice `s` ends. */
  lemma SliceStartStep(c: Split, s: nat)
    requires SplitValid(c) && s < SliceNum(c)
    ensures SliceStart(c, s + 1) == SliceStart(c, s) + SliceCount(c, s)
  {
    assert GenSlices(c, s + 1) == GenSlices(c, s) + SliceTiles(c, s, |GenSlices(c, s)|);
  }

  /** The first `n` slices hold at least `n` slices of regular tile rows:
      the last slice is never lower than the others. */
  lemma {:induction false} SlicesCoverRegularRows(c: Split, n: nat)
    requires SplitValid(c) && n <= SliceNum(c)
    ensures TileW(c) * (RegularRows(c) * n) <= SliceStart(c, n)
  {
    if n > 0 {
      var w, rr, k := TileW(c), RegularRows(c), n - 1;
      SlicesCoverRegularRows(c, k);
      SliceStartStep(c, k);
      RowsAtLeastRegular(c, k);
      MulMonotone(w, rr, Rows(c, k));
      GrowBy(w, rr, k, SliceStart(c, k), Rows(c, k));
    }
  }

  /** One more summand of at least `w * a` on the right keeps `w * (a * k)`
      below it. */
  lemma GrowBy(w: nat, a: nat, k: nat, l: int, b: int)
    requires w * (a * k) <= l && w * a <= w * b
    ensures w * (a * (k + 1)) <= l + w * b
  {
    MulSucc(a, k);
    assert w * (a * k + a) == w * (a * k) + w * a;
  }

  /** Where each slice starts, and where the last one ends. */
  function SliceStarts(c: Split): (r: seq<nat>)
    requires SplitValid(c)
    ensures |r| == SliceNum(c) + 1 && r[0] == 0 && r[SliceNum(c)] == |GenSlices(c, SliceNum(c))|
    ensures forall i :: 0 <= i <= SliceNum(c) ==> r[i] == SliceStart(c, i)
  {
    seq(SliceNum(c) + 1, i requires 0 <= i <= SliceNum(c) => SliceStart(c, i))
  }

  /** The queue of each finished slice is the run between its start and the
      next slice's start. */
  lemma SliceRuns(c: Split, order: TileOrder, center: Pos, qs: seq<seq<nat>>, starts: seq<nat>)
    requires SplitValid(c) && c.sliced
    requires qs == FinalQueues(c, order, center, GenSlices(c, SliceNum(c)))
    requires starts == SliceStarts(c)
    ensures |qs| == SliceNum(c)
    ensures forall i :: 0 <= i < |qs| ==> starts[i] <= starts[i + 1]
    ensures forall i :: 0 <= i < |qs| ==> qs[i] == Between(starts[i], starts[i + 1])
  {
    var n := SliceNum(c);
    forall i | 0 <= i < n
      ensures starts[i] <= starts[i + 1] && qs[i] == Between(starts[i], starts[i + 1])
    {
      SliceStartStep(c, i);
      assert qs[i] == SliceQueue(c, i, n, 0);
    }
  }

  /** Sliced, the queues of the slices, one after the other, are the tiles
      in the order they are generated. */
  lemma SlicedQueuesInOrder(c: Split, order: TileOrder, center: Pos)
    requires SplitValid(c) && c.sliced
    ensures var tiles := GenSlices(c, SliceNum(c));
      Flatten(FinalQueues(c, order, center, tiles)) == Range(0, |tiles|)
  {
    var tiles := GenSlices(c, SliceNum(c));
    var qs := FinalQueues(c, order, center, tiles);
    var starts := SliceStarts(c);
    SliceRuns(c, order, center, qs, starts);
    FlattenRunsInOrder(qs, starts);
    assert Between(starts[0], starts[|qs|]) == Range(0, |tiles|);
  }

  /** The run dealt to the device whose first tile is `lo`. */
  function RunFrom(tiles: seq<Tile>, order: TileOrder, center: Pos, per: nat, count: nat, lo: nat): seq<nat>
    requires per >= 1 && count <= |tiles|
  {
    if count <= lo then []
    else
      var len := Min(per, count - lo);
      if len == per && order != BottomToTop then SortList(tiles, order, center, Range(lo, len))
      else Range(lo, len)
  }

  /** Device `d`'s queue is the run from `d * per`. */
  lemma DeviceQueueIsRun(tiles: seq<Tile>, order: TileOrder, center: Pos, per: nat, count: nat, d: nat)
    requires per >= 1 && count <= |tiles|
    ensures DeviceQueue(tiles, order, center, per, count, d) == RunFrom(tiles, order, center, per, count, BlockStart(per, d))
  {
    BlockStartIsProduct(per, d);
    assert d * per == BlockStart(per, d);
  }

  /** The run from `lo`, clipped to the `count` tiles there are, holds the
      indices from `min(lo, count)` up to `min(lo + per, count)`, reordered at
      most. */
  lemma RunHoldsRange(tiles: seq<Tile>, order: TileOrder, center: Pos, per: nat, count: nat, lo: nat)
    requires per >= 1 && count <= |tiles|
    ensures Min(lo, count) <= Min(lo + per, count)
    ensures multiset(RunFrom(tiles, order, center, per, count, lo)) == multiset(Between(Min(lo, count), Min(lo + per, count)))
  {
    if count > lo {
      var len := Min(per, count - lo);
      assert Min(lo + per, count) == lo + len;
      assert Between(lo, lo + len) == Range(lo, len);
    }
  }

  /** Device `d`'s queue holds, reordered at most, the tiles from the start
      of its run up to the start of the next, both clipped to `count`. */
  lemma DealtQueueAt(tiles: seq<Tile>, order: TileOrder, center: Pos, per: nat, count: nat, d: nat)
    requires per >= 1 && count <= |tiles|
    ensures Min(BlockStart(per, d), count) <= Min(BlockStart(per, d + 1), count)
    ensures multiset(DeviceQueue(tiles, order, center, per, count, d))
      == multiset(Between(Min(BlockStart(per, d), count), Min(BlockStart(per, d + 1), count)))
  {
    var lo := BlockStart(per, d);
    DeviceQueueIsRun(tiles, order, center, per, count, d);
    RunHoldsRange(tiles, order, center, per, count, lo);
    assert BlockStart(per, d + 1) == lo + per;
    var a, b := Min(lo, count), Min(lo + per, count);
    assert Min(BlockStart(per, d), count) == a && Min(BlockStart(per, d + 1), count) == b;
    assert multiset(DeviceQueue(tiles, order, center, per, count, d)) == multiset(Between(a, b));
  }

  /** Where each of the `num` runs starts, clipped to `count`, and where the
      last one ends. */
  function RunStarts(per: nat, count: nat, num: nat): (r: seq<nat>)
    requires count <= BlockStart(per, num)
    ensures |r| == num + 1 && r[0] == 0 && r[num] == count
    ensures forall d :: 0 <= d <= num ==> r[d] == Min(BlockStart(per, d), count)
  {
    seq(num + 1, d requires 0 <= d <= num => Min(BlockStart(per, d), count))
  }

  /** The runs between consecutive starts. */
  function RunsBetween(starts: seq<nat>): (r: seq<seq<nat>>)
    requires |starts| >= 1
    ensures |r| == |starts| - 1
    ensures forall i :: 0 <= i < |r| ==> r[i] == Between(starts[i], starts[i + 1])
  {
    seq(|starts| - 1, i requires 0 <= i < |starts| - 1 => Between(starts[i], starts[i + 1]))
  }

  /** The device queues `qs` hold, reordered at most, the runs `ps` between
      consecutive clipped run starts. */
  lemma DealtRuns(tiles: seq<Tile>, order: TileOrder, center: Pos, per: nat, count: nat, num: nat,
                  qs: seq<seq<nat>>, starts: seq<nat>, ps: seq<seq<nat>>)
    requires per >= 1 && count <= |tiles|
    requires qs == DeviceQueues(tiles, order, center, per, count, num)
    requires |starts| == num + 1 && forall d :: 0 <= d <= num ==> starts[d] == Min(BlockStart(per, d), count)
    requires |ps| == num && forall d :: 0 <= d < num ==> ps[d] == Between(starts[d], starts[d + 1])
    ensures |qs| == num
    ensures forall d :: 0 <= d < num ==> starts[d] <= starts[d + 1]
    ensures forall d :: 0 <= d < num ==> multiset(qs[d]) == multiset(ps[d])
  {
    forall d | 0 <= d < num
      ensures starts[d] <= starts[d + 1]
      ensures multiset(qs[d]) == multiset(ps[d])
    {
      DealtQueueAt(tiles, order, center, per, count, d);
      assert starts[d] == Min(BlockStart(per, d), count) && starts[d + 1] == Min(BlockStart(per, d + 1), count);
      assert qs[d] == DeviceQueue(tiles, order, center, per, count, d);
    }
  }

  /** Dealing `count` tiles to `num` devices, `per` each, with room for all
      of them (`qs` are the queues), puts every tile in exactly one device
      queue. */
  lemma DealtQueuesHoldEachOnce(tiles: seq<Tile>, order: TileOrder, center: Pos, per: nat, count: nat, num: nat,
                                qs: seq<seq<nat>>)
    requires per >= 1 && count <= |tiles| && count <= BlockStart(per, num)
    requires qs == DeviceQueues(tiles, order, center, per, count, num)
    ensures multiset(Flatten(qs)) == multiset(Range(0, count))
  {
    var starts := RunStarts(per, count, num);
    var ps := RunsBetween(starts);
    DealtRuns(tiles, order, center, per, count, num, qs, starts, ps);
    FlattenPermutedRuns(qs, ps, starts);
    assert Between(starts[0], starts[|ps|]) == Range(0, count);
  }

  /** Unsliced, every tile of the image is in exactly one device queue. */
  lemma UnslicedQueuesHoldEachOnce(c: Split, order: TileOrder, center: Pos)
    requires SplitValid(c) && !c.sliced
    ensures var tiles := GenSlices(c, SliceNum(c));
      SliceCount(c, 0) <= |tiles| &&
      multiset(Flatten(FinalQueues(c, order, center, tiles))) == multiset(Range(0, |tiles|))
  {
    var tiles := GenSlices(c, 1);
    var count, per, num := SliceCount(c, 0), PerDevice(c, 0), c.num;
    assert SliceNum(c) == 1 && GenSlices(c, 0) == [];
    assert tiles == SliceTiles(c, 0, 0);
    assert FinalQueues(c, order, center, tiles) == DeviceQueues(tiles, order, center, per, count, num);
    assert count <= BlockStart(per, num) by {
      BlockStartIsProduct(per, num);
      assert num * per == per * num;
    }
    DealtQueuesHoldEachOnce(tiles, order, center, per, count, num, DeviceQueues(tiles, order, center, per, count, num));
  }

  /** `gen_tiles` queues every tile it generates exactly once, and sliced in
      the order of generation: the `count` tiles it generates are `tiles`,
      and `queues` its render queues. */
  lemma GeneratedTilesQueuedOnce(c: Split, order: TileOrder, center: Pos, tiles: seq<Tile>, queues: seq<seq<nat>>, count: nat)
    requires SplitValid(c) && tiles == GenSlices(c, SliceNum(c)) && count == |tiles|
    requires !c.sliced ==> SliceCount(c, 0) <= |tiles|
    requires queues == FinalQueues(c, order, center, tiles)
    ensures multiset(Flatten(queues)) == multiset(Range(0, count))
    ensures c.sliced ==> Flatten(queues) == Range(0, count)
  {
    if c.sliced {
      SlicedQueuesInOrder(c, order, center);
    } else {
      UnslicedQueuesHoldEachOnce(c, order, center);
    }
  }
}
