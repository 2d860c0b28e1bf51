/**
 * The tile grid of the scheduler's tile layer (intern/cycles/render/tile.cpp,
 * compiled out): `get_neighbor_index`, `check_neighbor_state`, and what the
 * two neighbour loops of `finish_tile` do to the tiles and the denoising
 * queues. Each loop is given as a fold over the nine neighbours in the order
 * the source visits them, and the lemmas state the result without reference
 * to that order.
 */
module TileGrid {
  import opened CInt
  import opened Tiles
  import opened TileQueues

  /** The tile grid `get_neighbor_index` assumes: `tileW` tiles per row,
      `tileH` rows per slice, `sliceNum` slices, and `state.tile_stride`. */
  datatype Layout = Layout(tileW: nat, tileH: nat, sliceNum: nat, stride: int)

  predicate WellFormed(g: Layout)
  {
    g.tileW >= 1 && g.stride == g.tileW
  }

  /** The number of tiles in the rows `get_neighbor_index` admits. */
  function GridSize(g: Layout): nat
  {
    g.tileW * (g.tileH * g.sliceNum)
  }

  /** `state.tiles` holds at least every tile of the grid. */
  predicate Fits(g: Layout, count: nat)
  {
    WellFormed(g) && GridSize(g) <= count
  }

  /** The column and row offsets of the nine neighbours (4 is the tile itself). */
  const NeighborDx: seq<int> := [-1, 0, 1, -1, 0, 1, -1, 0, 1]
  const NeighborDy: seq<int> := [-1, -1, -1, 0, 0, 0, 1, 1, 1]

  /** Neighbour `k` sits in column `k % 3` and row `k / 3` of the 3 x 3 block. */
  lemma NeighborOffsets(k: nat)
    requires k < 9
    ensures k == 3 * (NeighborDy[k] + 1) + (NeighborDx[k] + 1)
    ensures NeighborDx[8 - k] == -NeighborDx[k] && NeighborDy[8 - k] == -NeighborDy[k]
  {
    if k == 0 {} else if k == 1 {} else if k == 2 {} else if k == 3 {}
    else if k == 4 {} else if k == 5 {} else if k == 6 {} else if k == 7 {}
  }

  /** Position `row * w + col` of a row-major grid of width `w`. */
  lemma GridCell(w: nat, rows: nat, row: int, col: int)
    requires 0 <= col < w && 0 <= row < rows
    ensures 0 <= row * w + col < w * rows
    ensures (row * w + col) / w == row && (row * w + col) % w == col
  {
    MulMonotone(w, row + 1, rows);
    assert w * (row + 1) == w * row + w;
    DivUnique(row * w + col, w, row, col);
  }

  /** A position of the grid lies in one of its rows. */
  lemma GridRow(g: Layout, index: nat)
    requires WellFormed(g) && index < GridSize(g)
    ensures index / g.tileW < g.tileH * g.sliceNum
  {
    var w, rows := g.tileW, g.tileH * g.sliceNum;
    if index / w >= rows {
      MulMonotone(w, rows, index / w);
    }
  }

  /** `get_neighbor_index(index, neighbor)`: the position of the tile at the
      neighbour's offset from `index` in the grid, or -1 when that offset
      leaves the grid. In a well-formed grid the result is a grid position in
      the neighbour's column and row. */
  function NeighborIndex(g: Layout, index: nat, neighbor: nat): (r: int)
    requires g.tileW >= 1 && neighbor < 9
    ensures WellFormed(g) ==> -1 <= r < GridSize(g)
    ensures WellFormed(g) && r >= 0 ==>
      && r % g.tileW == index % g.tileW + NeighborDx[neighbor]
      && r / g.tileW == index / g.tileW + NeighborDy[neighbor]
  {
    var nx := index % g.tileW + NeighborDx[neighbor];
    var ny := index / g.tileW + NeighborDy[neighbor];
    if nx < 0 || ny < 0 || nx >= g.tileW || ny >= g.tileH * g.sliceNum then -1
    else
      GridCell(g.tileW, g.tileH * g.sliceNum, ny, nx);
      ny * g.stride + nx
  }

  /** Neighbour 4 of a grid position is the position itself. */
  lemma NeighborCenter(g: Layout, index: nat)
    requires WellFormed(g) && index < GridSize(g)
    ensures NeighborIndex(g, index, 4) == index
  {
    GridRow(g, index);
    assert index == (index / g.tileW) * g.tileW + index % g.tileW;
  }

  /** The neighbourhood relation is symmetric: a grid position is the
      opposite neighbour of each of its neighbours. */
  lemma NeighborSymmetric(g: Layout, index: nat, neighbor: nat)
    requires WellFormed(g) && index < GridSize(g) && neighbor < 9
    requires NeighborIndex(g, index, neighbor) >= 0
    ensures NeighborIndex(g, NeighborIndex(g, index, neighbor), 8 - neighbor) == index
  {
    NeighborOffsets(neighbor);
    GridRow(g, index);
    assert index == (index / g.tileW) * g.tileW + index % g.tileW;
  }

  /** Different neighbours of a position are different tiles. */
  lemma NeighborsDistinct(g: Layout, index: nat, k1: nat, k2: nat)
    requires WellFormed(g) && k1 < 9 && k2 < 9 && k1 != k2
    requires NeighborIndex(g, index, k1) >= 0
    ensures NeighborIndex(g, index, k1) != NeighborIndex(g, index, k2)
  {
    NeighborOffsets(k1);
    NeighborOffsets(k2);
  }

  /** `j` is one of neighbours `from .. 8` of `index`. */
  predicate NearFrom(g: Layout, index: nat, from: nat, j: int)
    requires g.tileW >= 1
    decreases 9 - from
  {
    from < 9 && (NeighborIndex(g, index, from) == j || NearFrom(g, index, from + 1, j))
  }

  /** `j` is one of neighbours `from .. 8` of `index` other than neighbour 4. */
  predicate NearOtherFrom(g: Layout, index: nat, from: nat, j: int)
    requires g.tileW >= 1
    decreases 9 - from
  {
    from < 9 && ((from != 4 && NeighborIndex(g, index, from) == j) || NearOtherFrom(g, index, from + 1, j))
  }

  lemma {:induction false} NearFromIsSome(g: Layout, index: nat, from: nat, j: int)
    requires g.tileW >= 1
    ensures NearFrom(g, index, from, j) <==> exists k :: from <= k < 9 && NeighborIndex(g, index, k) == j
    ensures NearOtherFrom(g, index, from, j) <==> exists k :: from <= k < 9 && k != 4 && NeighborIndex(g, index, k) == j
    decreases 9 - from
  {
    if from < 9 {
      NearFromIsSome(g, index, from + 1, j);
    }
  }

  /** `j` is in the 3 x 3 neighbourhood of `index`. */
  ghost predicate InNeighborhood(g: Layout, index: nat, j: int)
    requires g.tileW >= 1
  {
    exists k :: 0 <= k < 9 && NeighborIndex(g, index, k) == j
  }

  /** Neighbour `neighbor` of `index` is outside the grid or has reached `m`. */
  predicate NeighborAtLeast(tiles: seq<Tile>, g: Layout, index: nat, neighbor: nat, m: TileState)
    requires Fits(g, |tiles|) && neighbor < 9
  {
    var n := NeighborIndex(g, index, neighbor);
    n < 0 || AtLeast(tiles[n].state, m)
  }

  /** `check_neighbor_state(index, min_state)`: `index` is a tile, and it and
      every tile of its neighbourhood inside the grid have reached `m`. */
  predicate NeighborhoodAtLeast(tiles: seq<Tile>, g: Layout, index: int, m: TileState)
    requires Fits(g, |tiles|) && index < |tiles|
  {
    && index >= 0
    && AtLeast(tiles[index].state, m)
    && forall neighbor :: 0 <= neighbor < 9 ==> NeighborAtLeast(tiles, g, index, neighbor, m)
  }

  /** Two tile sequences that agree on which tiles have reached `m`. */
  predicate SameReached(t1: seq<Tile>, t2: seq<Tile>, m: TileState)
  {
    |t1| == |t2| && forall j :: 0 <= j < |t1| ==> (AtLeast(t1[j].state, m) <==> AtLeast(t2[j].state, m))
  }

  /** The neighbourhood check depends only on which tiles have reached `m`. */
  lemma NeighborhoodDependsOnReached(t1: seq<Tile>, t2: seq<Tile>, g: Layout, index: int, m: TileState)
    requires Fits(g, |t1|) && SameReached(t1, t2, m) && index < |t1|
    ensures NeighborhoodAtLeast(t1, g, index, m) <==> NeighborhoodAtLeast(t2, g, index, m)
  {
    if index >= 0 {
      forall k | 0 <= k < 9
        ensures NeighborAtLeast(t1, g, index, k, m) <==> NeighborAtLeast(t2, g, index, k, m)
      {
      }
    }
  }

  /** Passes `neighbor .. 8` of `finish_tile`'s loop for a tile that has just
      been rendered: each neighbour whose own neighbourhood has been rendered
      becomes ready for denoising and joins its device's denoising queue. */
  function PromoteFrom(g: Layout, tiles: seq<Tile>, queues: seq<seq<nat>>, index: nat, neighbor: nat)
    : (r: (seq<Tile>, seq<seq<nat>>))
    requires Fits(g, |tiles|) && DevicesBelow(tiles, |queues|) && neighbor <= 9
    ensures SameSlots(tiles, r.0) && |r.1| == |queues|
    ensures QueuedBelow(queues, |tiles|) ==> QueuedBelow(r.1, |tiles|)
    decreases 9 - neighbor
  {
    if neighbor == 9 then (tiles, queues)
    else
      var n := NeighborIndex(g, index, neighbor);
      if NeighborhoodAtLeast(tiles, g, n, Rendered) then
        var dev := tiles[n].device;
        PromoteFrom(g, tiles[n := tiles[n].(state := Denoise)], queues[dev := queues[dev] + [n]], index, neighbor + 1)
      else
        PromoteFrom(g, tiles, queues, index, neighbor + 1)
  }

  /** The neighbours `neighbor .. 8` of `index` whose neighbourhood has been
      rendered, in the order `finish_tile` visits them. */
  function PromotedFrom(g: Layout, tiles: seq<Tile>, index: nat, neighbor: nat): (r: seq<nat>)
    requires Fits(g, |tiles|) && neighbor <= 9
    ensures forall k :: 0 <= k < |r| ==> r[k] < |tiles|
    ensures forall j :: 0 <= j < |tiles| ==>
      (j in r <==> NearFrom(g, index, neighbor, j) && NeighborhoodAtLeast(tiles, g, j, Rendered))
    decreases 9 - neighbor
  {
    if neighbor == 9 then []
    else
      var n := NeighborIndex(g, index, neighbor);
      (if NeighborhoodAtLeast(tiles, g, n, Rendered) then [n as nat] else []) + PromotedFrom(g, tiles, index, neighbor + 1)
  }

  /** Which neighbours are promoted depends only on which tiles have been rendered. */
  lemma {:induction false} PromotedFromDependsOnReached(g: Layout, t1: seq<Tile>, t2: seq<Tile>, index: nat, neighbor: nat)
    requires Fits(g, |t1|) && SameReached(t1, t2, Rendered) && neighbor <= 9
    ensures PromotedFrom(g, t1, index, neighbor) == PromotedFrom(g, t2, index, neighbor)
    decreases 9 - neighbor
  {
    if neighbor < 9 {
      NeighborhoodDependsOnReached(t1, t2, g, NeighborIndex(g, index, neighbor), Rendered);
      PromotedFromDependsOnReached(g, t1, t2, index, neighbor + 1);
    }
  }

  /** The tiles after passes `neighbor .. 8`: the promoted neighbours are
      ready for denoising, every other tile is as it was. */
  lemma {:induction false} PromoteFromTiles(g: Layout, tiles: seq<Tile>, queues: seq<seq<nat>>, index: nat, neighbor: nat)
    requires Fits(g, |tiles|) && DevicesBelow(tiles, |queues|) && neighbor <= 9
    ensures var r := PromoteFrom(g, tiles, queues, index, neighbor);
      forall j :: 0 <= j < |tiles| ==>
        r.0[j] == if NearFrom(g, index, neighbor, j) && NeighborhoodAtLeast(tiles, g, j, Rendered)
                  then tiles[j].(state := Denoise) else tiles[j]
    decreases 9 - neighbor
  {
    if neighbor < 9 {
      var n := NeighborIndex(g, index, neighbor);
      if NeighborhoodAtLeast(tiles, g, n, Rendered) {
        var dev := tiles[n].device;
        var t', q' := tiles[n := tiles[n].(state := Denoise)], queues[dev := queues[dev] + [n]];
        assert SameReached(tiles, t', Rendered);
        PromoteFromTiles(g, t', q', index, neighbor + 1);
        forall j | 0 <= j < |tiles|
          ensures NeighborhoodAtLeast(t', g, j, Rendered) <==> NeighborhoodAtLeast(tiles, g, j, Rendered)
        {
          NeighborhoodDependsOnReached(tiles, t', g, j, Rendered);
        }
      } else {
        PromoteFromTiles(g, tiles, queues, index, neighbor + 1);
      }
    }
  }

  /** The denoising queues after passes `neighbor .. 8`: each has gained the
      promoted neighbours of its device, in neighbour order. */
  lemma {:induction false} PromoteFromQueues(g: Layout, tiles: seq<Tile>, queues: seq<seq<nat>>, index: nat, neighbor: nat)
    requires Fits(g, |tiles|) && DevicesBelow(tiles, |queues|) && neighbor <= 9
    ensures var r := PromoteFrom(g, tiles, queues, index, neighbor);
      forall dev :: 0 <= dev < |queues| ==>
        r.1[dev] == queues[dev] + OnDevice(tiles, PromotedFrom(g, tiles, index, neighbor), dev)
    decreases 9 - neighbor
  {
    if neighbor < 9 {
      var n := NeighborIndex(g, index, neighbor);
      var rest := PromotedFrom(g, tiles, index, neighbor + 1);
      if NeighborhoodAtLeast(tiles, g, n, Rendered) {
        var d := tiles[n].device;
        var t', q' := tiles[n := tiles[n].(state := Denoise)], queues[d := queues[d] + [n]];
        assert SameReached(tiles, t', Rendered);
        assert SameDevices(tiles, t');
        PromoteFromQueues(g, t', q', index, neighbor + 1);
        PromotedFromDependsOnReached(g, tiles, t', index, neighbor + 1);
        assert PromotedFrom(g, tiles, index, neighbor) == [n as nat] + rest;
        forall dev | 0 <= dev < |queues|
          ensures q'[dev] + OnDevice(t', rest, dev) == queues[dev] + OnDevice(tiles, [n as nat] + rest, dev)
        {
          OnDeviceSameDevices(tiles, t', rest, dev);
          PushThenRest(tiles, queues, n, rest, dev);
        }
      } else {
        PromoteFromQueues(g, tiles, queues, index, neighbor + 1);
        assert PromotedFrom(g, tiles, index, neighbor) == rest;
      }
    }
  }

  /** Pushing `n` onto its device's queue and then the rest is pushing `[n] + rest`. */
  lemma PushThenRest(tiles: seq<Tile>, queues: seq<seq<nat>>, n: nat, rest: seq<nat>, dev: nat)
    requires n < |tiles| && tiles[n].device < |queues| && dev < |queues|
    requires forall k :: 0 <= k < |rest| ==> rest[k] < |tiles|
    ensures var d := tiles[n].device;
      queues[d := queues[d] + [n]][dev] + OnDevice(tiles, rest, dev) == queues[dev] + OnDevice(tiles, [n] + rest, dev)
  {
    OnDeviceCons(tiles, n, rest, dev);
    PushOnto(queues, tiles[n].device, dev, n, OnDevice(tiles, rest, dev));
  }

  /** Appending `n` to queue `d` and reading queue `dev`. */
  lemma PushOnto(queues: seq<seq<nat>>, d: nat, dev: nat, n: nat, tail: seq<nat>)
    requires d < |queues| && dev < |queues|
    ensures queues[d := queues[d] + [n]][dev] + tail == queues[dev] + ((if d == dev then [n] else []) + tail)
  {
    if d == dev {
      assert queues[d := queues[d] + [n]][dev] + tail == queues[dev] + ([n] + tail);
    }
  }

  /** `OnDevice` of a list starting with `n`. */
  lemma OnDeviceCons(tiles: seq<Tile>, n: nat, rest: seq<nat>, dev: nat)
    requires n < |tiles| && forall k :: 0 <= k < |rest| ==> rest[k] < |tiles|
    ensures OnDevice(tiles, [n] + rest, dev) == (if tiles[n].device == dev then [n] else []) + OnDevice(tiles, rest, dev)
  {
    var ns := [n] + rest;
    assert ns[0] == n && ns[1..] == rest;
  }

  /** Passes `neighbor .. 8` of `finish_tile`'s loop for a tile that has just
      been denoised: each neighbour whose own neighbourhood has been denoised
      is done. Outside progressive mode its buffers are deleted, except that
      the tile itself (neighbour 4) is only marked for deletion by the caller,
      since it still has to be written. */
  function ReleaseFrom(g: Layout, tiles: seq<Tile>, index: nat, neighbor: nat, progressive: bool, deleteTile: bool)
    : (r: (seq<Tile>, bool))
    requires Fits(g, |tiles|) && neighbor <= 9
    ensures SameSlots(tiles, r.0)
    decreases 9 - neighbor
  {
    if neighbor == 9 then (tiles, deleteTile)
    else
      var n := NeighborIndex(g, index, neighbor);
      if NeighborhoodAtLeast(tiles, g, n, Denoised) then
        var done := tiles[n := tiles[n].(state := Done)];
        if progressive then ReleaseFrom(g, done, index, neighbor + 1, progressive, deleteTile)
        else if neighbor == 4 then ReleaseFrom(g, done, index, neighbor + 1, progressive, true)
        else ReleaseFrom(g, done[n := done[n].(freed := true)], index, neighbor + 1, progressive, deleteTile)
      else
        ReleaseFrom(g, tiles, index, neighbor + 1, progressive, deleteTile)
  }

  /** The result of passes `neighbor .. 8`: the released neighbours are done,
      and outside progressive mode those other than neighbour 4 have lost
      their buffers; the tile is marked for deletion when neighbour 4 is
      released outside progressive mode. */
  lemma {:induction false} ReleaseFromResult(g: Layout, tiles: seq<Tile>, index: nat, neighbor: nat, progressive: bool, deleteTile: bool)
    requires Fits(g, |tiles|) && neighbor <= 9
    ensures var r := ReleaseFrom(g, tiles, index, neighbor, progressive, deleteTile);
      && (forall j :: 0 <= j < |tiles| ==>
            r.0[j] == if NearFrom(g, index, neighbor, j) && NeighborhoodAtLeast(tiles, g, j, Denoised)
                      then tiles[j].(state := Done, freed := tiles[j].freed || (!progressive && NearOtherFrom(g, index, neighbor, j)))
                      else tiles[j])
      && r.1 == (deleteTile || (!progressive && neighbor <= 4 && NeighborhoodAtLeast(tiles, g, NeighborIndex(g, index, 4), Denoised)))
    decreases 9 - neighbor
  {
    if neighbor < 9 {
      var n := NeighborIndex(g, index, neighbor);
      if NeighborhoodAtLeast(tiles, g, n, Denoised) {
        var done := tiles[n := tiles[n].(state := Done)];
        var t' := if progressive || neighbor == 4 then done else done[n := done[n].(freed := true)];
        var d' := deleteTile || (!progressive && neighbor == 4);
        assert ReleaseFrom(g, tiles, index, neighbor, progressive, deleteTile) == ReleaseFrom(g, t', index, neighbor + 1, progressive, d');
        assert SameReached(tiles, t', Denoised);
        ReleaseFromResult(g, t', index, neighbor + 1, progressive, d');
        forall j | 0 <= j < |tiles|
          ensures NeighborhoodAtLeast(t', g, j, Denoised) <==> NeighborhoodAtLeast(tiles, g, j, Denoised)
        {
          NeighborhoodDependsOnReached(tiles, t', g, j, Denoised);
        }
      } else {
        ReleaseFromResult(g, tiles, index, neighbor + 1, progressive, deleteTile);
      }
    }
  }

  /** `finish_tile` for a tile just rendered, with denoising scheduled: exactly
      the tiles of its neighbourhood whose own neighbourhood has been rendered
      become ready for denoising, and each of them joins the denoising queue
      of its own device, in neighbour order. */
  lemma PromoteExactly(g: Layout, tiles: seq<Tile>, queues: seq<seq<nat>>, index: nat)
    requires Fits(g, |tiles|) && DevicesBelow(tiles, |queues|)
    ensures var r := PromoteFrom(g, tiles, queues, index, 0);
      var promoted := PromotedFrom(g, tiles, index, 0);
      && (forall j :: 0 <= j < |tiles| ==>
            (j in promoted <==> InNeighborhood(g, index, j) && NeighborhoodAtLeast(tiles, g, j, Rendered)))
      && (forall j :: 0 <= j < |tiles| ==> r.0[j] == if j in promoted then tiles[j].(state := Denoise) else tiles[j])
      && (forall dev :: 0 <= dev < |queues| ==> r.1[dev] == queues[dev] + OnDevice(tiles, promoted, dev))
  {
    PromoteFromTiles(g, tiles, queues, index, 0);
    PromoteFromQueues(g, tiles, queues, index, 0);
    forall j | 0 <= j < |tiles|
      ensures NearFrom(g, index, 0, j) <==> InNeighborhood(g, index, j)
    {
      NearFromIsSome(g, index, 0, j);
    }
  }

  /** `finish_tile` for a tile of the grid just denoised: exactly the tiles of
      its neighbourhood whose own neighbourhood has been denoised are done;
      outside progressive mode every one of them but the tile itself loses its
      buffers, and the tile itself is marked for deletion if it is done. */
  lemma ReleaseExactly(g: Layout, tiles: seq<Tile>, index: nat, progressive: bool)
    requires Fits(g, |tiles|) && index < GridSize(g)
    ensures var r := ReleaseFrom(g, tiles, index, 0, progressive, false);
      && (forall j :: 0 <= j < |tiles| ==>
            r.0[j] == if InNeighborhood(g, index, j) && NeighborhoodAtLeast(tiles, g, j, Denoised)
                      then tiles[j].(state := Done, freed := tiles[j].freed || (!progressive && j != index))
                      else tiles[j])
      && r.1 == (!progressive && NeighborhoodAtLeast(tiles, g, index, Denoised))
  {
    ReleaseFromResult(g, tiles, index, 0, progressive, false);
    NeighborCenter(g, index);
    forall j | 0 <= j < |tiles|
      ensures NearFrom(g, index, 0, j) <==> InNeighborhood(g, index, j)
      ensures NearFrom(g, index, 0, j) ==> (NearOtherFrom(g, index, 0, j) <==> j != index)
    {
      NearFromIsSome(g, index, 0, j);
      if NearFrom(g, index, 0, j) {
        var k :| 0 <= k < 9 && NeighborIndex(g, index, k) == j;
        if j == index {
          forall k' | 0 <= k' < 9 && k' != 4
            ensures NeighborIndex(g, index, k') != j
          {
            NeighborsDistinct(g, index, 4, k');
          }
        } else {
          assert k != 4;
        }
      }
    }
  }
  /** A tile past the grid (`gen_tiles` makes some when the last slice has
      more tile rows than the regular slice height gives) is no grid position,
      not even its own neighbour 4: promoting or releasing any neighbourhood
      leaves it as it was, and finishing its own denoising never marks it for
      deletion. */
  lemma PastGridUntouched(g: Layout, tiles: seq<Tile>, queues: seq<seq<nat>>, index: nat, j: nat, progressive: bool)
    requires Fits(g, |tiles|) && DevicesBelow(tiles, |queues|) && GridSize(g) <= j < |tiles|
    ensures NeighborIndex(g, j, 4) == -1
    ensures PromoteFrom(g, tiles, queues, index, 0).0[j] == tiles[j]
    ensures ReleaseFrom(g, tiles, index, 0, progressive, false).0[j] == tiles[j]
    ensures !ReleaseFrom(g, tiles, j, 0, progressive, false).1
  {
    PastGridNoNeighbor(g, index, j);
    PromoteExactly(g, tiles, queues, index);
    ReleaseFromResult(g, tiles, index, 0, progressive, false);
    ReleaseFromResult(g, tiles, j, 0, progressive, false);
  }

  /** A position past the grid is no neighbour of any tile, and its own
      neighbour 4 is `-1`. */
  lemma PastGridNoNeighbor(g: Layout, index: nat, j: nat)
    requires WellFormed(g) && GridSize(g) <= j
    ensures NeighborIndex(g, j, 4) == -1
    ensures !InNeighborhood(g, index, j) && !NearFrom(g, index, 0, j)
  {
    NearFromIsSome(g, index, 0, j);
    var r := NeighborIndex(g, j, 4);
    DivMod(j, g.tileW);
    if r >= 0 {
      DivMod(r, g.tileW);
    }
  }
}
