/**
 * How the unsliced branch of `gen_tiles` (intern/cycles/render/tile.cpp,
 * compiled out) deals the tiles of the image to the device queues: in runs
 * of `tiles_per_device` consecutive tiles, the run of device `d` starting at
 * tile `d * tiles_per_device`, each run sorted by the tile order as soon as
 * it is full.
 */
module TileDealing {
  import opened CInt
  import opened Tiles
  import opened TileOrdering

  /** The indices `lo`, `lo + 1`, ... of `len` tiles. */
  function Range(lo: nat, len: nat): (r: seq<nat>)
    ensures |r| == len && forall i :: 0 <= i < len ==> r[i] == lo + i
  {
    seq(len, i requires 0 <= i < len => lo + i)
  }

  lemma RangeSnoc(lo: nat, len: nat)
    ensures Range(lo, len) + [lo + len] == Range(lo, len + 1)
  {
  }

  /** The render queue of device `d` once `count` tiles are dealt in runs of
      `per`: its run so far, sorted by the tile order once it is full. The
      tiles are generated bottom to top, so that order is left unsorted. */
  function DeviceQueue(tiles: seq<Tile>, order: TileOrder, center: Pos, per: nat, count: nat, d: nat): seq<nat>
    requires per >= 1 && count <= |tiles|
  {
    var lo := d * per;
    if count <= lo then []
    else
      var len := Min(per, count - lo);
      if len == per && order != BottomToTop then SortList(tiles, order, center, Range(lo, len))
      else Range(lo, len)
  }

  /** The queues of `num` devices once `count` tiles are dealt. */
  function DeviceQueues(tiles: seq<Tile>, order: TileOrder, center: Pos, per: nat, count: nat, num: nat): (r: seq<seq<nat>>)
    requires per >= 1 && count <= |tiles|
    ensures |r| == num
    ensures forall d :: 0 <= d < num ==> r[d] == DeviceQueue(tiles, order, center, per, count, d)
  {
    seq(num, d requires 0 <= d < num => DeviceQueue(tiles, order, center, per, count, d))
  }

  /** A position before the end of the tiles lies in a run below `num`. */
  lemma RunBelowNum(total: nat, num: nat, k: nat)
    requires num >= 1 && k < total
    ensures k / DivideUp(total, num) < num
  {
    var per := DivideUp(total, num);
    if k / per >= num {
      MulMonotone(per, num, k / per);
    }
  }

  /** A full run is not touched by dealing later tiles. */
  lemma FullRunStays(tiles: seq<Tile>, t: Tile, order: TileOrder, center: Pos, per: nat, k: nat, d: nat)
    requires per >= 1 && |tiles| == k && d * per + per <= k
    ensures DeviceQueue(tiles + [t], order, center, per, k + 1, d) == DeviceQueue(tiles, order, center, per, k, d)
  {
    SortListOfPrefix(tiles, [t], order, center, Range(d * per, per));
  }

  /** The run tile `k` is dealt to grows by `k`, and is sorted once full. */
  lemma CurrentRun(tiles: seq<Tile>, t: Tile, order: TileOrder, center: Pos, per: nat, num: nat,
                   k: nat, L: nat, lo: nat, r: nat, q: seq<seq<nat>>, q': seq<seq<nat>>)
    requires per >= 1 && |tiles| == k && lo == L * per && k == lo + r && r < per && L < num
    requires q == DeviceQueues(tiles, order, center, per, k, num)
    requires q' == DeviceQueues(tiles + [t], order, center, per, k + 1, num)
    ensures q[L] + [k] == Range(lo, r + 1) && AllBelow(q[L] + [k], k + 1)
    ensures q'[L] ==
      if r + 1 == per && order != BottomToTop then SortList(tiles + [t], order, center, q[L] + [k])
      else q[L] + [k]
  {
    RunSoFar(tiles, order, center, per, num, k, L, lo, r, q);
    QueueOf(tiles + [t], order, center, per, k + 1, num, q', L);
  }

  /** Before tile `k`, the `r`-th of run `L`, is dealt, the run's queue holds
      the run's first `r` tiles in order. */
  lemma RunSoFar(tiles: seq<Tile>, order: TileOrder, center: Pos, per: nat, num: nat,
                 k: nat, L: nat, lo: nat, r: nat, q: seq<seq<nat>>)
    requires per >= 1 && |tiles| == k && lo == L * per && k == lo + r && r < per && L < num
    requires q == DeviceQueues(tiles, order, center, per, k, num)
    ensures q[L] == Range(lo, r)
    ensures q[L] + [k] == Range(lo, r + 1) && AllBelow(q[L] + [k], k + 1)
  {
    QueueOf(tiles, order, center, per, k, num, q, L);
    RangeSnoc(lo, r);
  }

  /** Dealing tile `k` of run `L` leaves the queues of the other runs as
      they are. */
  lemma OtherRunsStay(tiles: seq<Tile>, t: Tile, order: TileOrder, center: Pos, per: nat, num: nat,
                      k: nat, L: nat, lo: nat, q: seq<seq<nat>>, q': seq<seq<nat>>)
    requires per >= 1 && |tiles| == k && lo == L * per && lo <= k < lo + per && L < num
    requires q == DeviceQueues(tiles, order, center, per, k, num)
    requires q' == DeviceQueues(tiles + [t], order, center, per, k + 1, num)
    ensures q' == q[L := q'[L]]
  {
    forall d | 0 <= d < num && d != L
      ensures q'[d] == q[d]
    {
      if d < L {
        MulMonotone(per, d + 1, L);
        assert per * (d + 1) == d * per + per;
        FullRunStays(tiles, t, order, center, per, k, d);
      } else {
        MulMonotone(per, L + 1, d);
        assert per * (L + 1) == lo + per;
        assert k + 1 <= d * per;
      }
    }
    UpdatedAt(q, q', L, q'[L]);
  }

  /** Dealing tile `k`, number `r` of run `L`, onto the run's queue `q[L]`,
      then sorting the run if it is full; the other queues stay. */
  lemma DealOne(tiles: seq<Tile>, t: Tile, order: TileOrder, center: Pos, per: nat, num: nat,
                k: nat, L: nat, r: nat, q: seq<seq<nat>>, q': seq<seq<nat>>)
    requires per >= 1 && |tiles| == k && k == L * per + r && r < per && k < per * num
    requires q == DeviceQueues(tiles, order, center, per, k, num)
    requires q' == DeviceQueues(tiles + [t], order, center, per, k + 1, num)
    ensures L < num
    ensures AllBelow(q[L] + [k], k + 1)
    ensures q'[L] == if r + 1 == per && order != BottomToTop then SortList(tiles + [t], order, center, q[L] + [k])
                     else q[L] + [k]
    ensures q' == q[L := q'[L]]
    ensures r + 1 == per ==> k + 1 == (L + 1) * per
  {
    RunBelow(per, num, k, L, r);
    var lo: nat := k - r;
    OtherRunsStay(tiles, t, order, center, per, num, k, L, lo, q, q');
    CurrentRun(tiles, t, order, center, per, num, k, L, lo, r, q, q');
    MulPred(L + 1, per);
  }

  /** Queue `d` of the dealt queues. */
  lemma QueueOf(tiles: seq<Tile>, order: TileOrder, center: Pos, per: nat, count: nat, num: nat, q: seq<seq<nat>>, d: nat)
    requires per >= 1 && count <= |tiles| && d < num
    requires q == DeviceQueues(tiles, order, center, per, count, num)
    ensures |q| == num && q[d] == DeviceQueue(tiles, order, center, per, count, d)
  {
  }

  /** A second update at the same position overrides the first. */
  lemma UpdateTwice<X>(q: seq<X>, L: nat, a: X, b: X)
    requires L < |q|
    ensures q[L := a][L := b] == q[L := b]
  {
    assert q[L := a][L := b][L] == b;
  }

  /** Two sequences that differ at most at `L` are an update of each other. */
  lemma UpdatedAt<X>(q: seq<X>, q': seq<X>, L: nat, v: X)
    requires |q'| == |q| && L < |q| && q'[L] == v
    requires forall d :: 0 <= d < |q| && d != L ==> q'[d] == q[d]
    ensures q' == q[L := v]
  {
  }

  /** The run a tile before `per * num` falls in is one of the `num` runs. */
  lemma RunBelow(per: nat, num: nat, k: nat, L: nat, r: nat)
    requires k == L * per + r && k < per * num
    ensures L < num
  {
    if L >= num {
      MulMonotone(per, num, L);
    }
  }
}
