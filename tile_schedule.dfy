/**
 * The tile layer of `TileManager` (intern/cycles/render/tile.cpp), which the
 * source compiles out with `#if 0`: the tiles of the current pass, the
 * per-device render and denoising queues, and the operations that fill,
 * drain and advance them. The class holds the fields only that layer has,
 * together with copies of the live fields it reads (`progressive`, `params`,
 * `state.resolution_divider`), which stay fixed while the tiles of a pass
 * exist.
 */
module TileSchedule {
  import opened CInt
  import opened Wrappers
  import opened Tiles
  import opened TileQueues
  import opened TileGrid
  import opened TileOrdering
  import opened TileDealing
  import opened TileGeneration
  import opened TileCoverage
  import Scheduler

  /** The configuration under which the tile geometry is defined. */
  predicate GeometryValid(p: Scheduler.BufferParams, divider: int, numDevices: int, tileSizeX: int, tileSizeY: int)
  {
    Scheduler.ValidParams(p) && divider >= 1 && numDevices >= 1 && tileSizeX >= 1 && tileSizeY >= 1
  }

  /** The grid `get_neighbor_index` computes from the image at the current
      divider: tiles per row, rows per slice, and one slice per device (at
      most one per image row) unless rendering in the background. */
  function NeighborLayout(p: Scheduler.BufferParams, divider: int, numDevices: int, background: bool,
                          tileSizeX: int, tileSizeY: int, stride: int): (g: Layout)
    requires GeometryValid(p, divider, numDevices, tileSizeX, tileSizeY)
    ensures g.tileW >= 1 && g.tileH >= 1 && g.sliceNum >= 1 && g.stride == stride
  {
    var imageW := Scheduler.Dim(p.width, divider);
    var imageH := Scheduler.Dim(p.height, divider);
    var num := Min(imageH, numDevices);
    var sliceNum := if !background then num else 1;
    var sliceH := imageH / sliceNum;
    var tileW := if tileSizeX >= imageW then 1 else DivideUp(imageW, tileSizeX);
    var tileH := if tileSizeY >= sliceH then 1 else DivideUp(sliceH, tileSizeY);
    Layout(tileW, tileH, sliceNum, stride)
  }

  /** The quantities `gen_tiles(!background)` cuts the image with. */
  function SplitFor(p: Scheduler.BufferParams, divider: int, numDevices: int, background: bool,
                    preserveTileDevice: bool, tileSizeX: int, tileSizeY: int, overlap: int): (c: Split)
    requires GeometryValid(p, divider, numDevices, tileSizeX, tileSizeY) && overlap >= 0
    ensures SplitValid(c) && c.sliced == !background
  {
    var imageH := Scheduler.Dim(p.height, divider);
    var num := if preserveTileDevice || !background then Min(imageH, numDevices) else 1;
    Split(Scheduler.Dim(p.width, divider), imageH, tileSizeX, tileSizeY, num, !background, overlap)
  }

  /** Slicing exactly when not in the background, as `set_tiles` does, the
      generated tiles cover the grid `get_neighbor_index` works on: that grid
      has the columns of the tiles, one slice per slice, and in each slice the
      tile rows of the regular slice height, which no slice is lower than. */
  lemma GeneratedTilesFitGrid(p: Scheduler.BufferParams, divider: int, numDevices: int, background: bool,
                              preserveTileDevice: bool, tileSizeX: int, tileSizeY: int, overlap: int)
    requires GeometryValid(p, divider, numDevices, tileSizeX, tileSizeY) && overlap >= 0
    ensures var c := SplitFor(p, divider, numDevices, background, preserveTileDevice, tileSizeX, tileSizeY, overlap);
      var g := NeighborLayout(p, divider, numDevices, background, tileSizeX, tileSizeY, TileW(c));
      && g == Layout(TileW(c), RegularRows(c), SliceNum(c), TileW(c))
      && Fits(g, |GenSlices(c, SliceNum(c))|)
  {
    var c := SplitFor(p, divider, numDevices, background, preserveTileDevice, tileSizeX, tileSizeY, overlap);
    SlicesCoverRegularRows(c, SliceNum(c));
  }

  /** A 1 x 5 image on two devices in 1 x 1 tiles, not in the background:
      the slices are 2 and 3 rows high, so `gen_tiles` makes five tiles while
      the grid of `get_neighbor_index` has four. The fifth tile lies past the
      grid: even as its own neighbour 4 it is `-1`. */
  lemma TailTileExample()
    ensures var p := Scheduler.BufferParams(1, 5, 0, 0, 1, 5);
      var c := SplitFor(p, 1, 2, false, false, 1, 1, 0);
      var g := NeighborLayout(p, 1, 2, false, 1, 1, TileW(c));
      && g == Layout(1, 2, 2, 1) && GridSize(g) == 4
      && |GenSlices(c, SliceNum(c))| == 5 && NeighborIndex(g, 4, 4) == -1
  {
    var p := Scheduler.BufferParams(1, 5, 0, 0, 1, 5);
    var c := SplitFor(p, 1, 2, false, false, 1, 1, 0);
    assert c == Split(1, 5, 1, 1, 2, true, 0);
    assert SliceCount(c, 0) == 2 && SliceCount(c, 1) == 3;
    assert |GenSlices(c, 1)| == 2;
  }

  /** In the grid of `TailTileExample`, tile 4 lies past the grid, yet its
      neighbour 1 is tile 3 in the last grid row. When tile 4 finishes
      rendering with denoising scheduled after tiles 0 to 3 are DONE (tile
      3's buffers deleted already), the promotion loop sets tile 3 back to
      DENOISE and queues it on its device again: `check_neighbor_state` only
      asks for states at least RENDERED, and tile 3's own neighbourhood does
      not contain tile 4. */
  lemma TailTileRepromotesNeighbor()
    ensures var g := Layout(1, 2, 2, 1);
      var done := Tile(0, 0, 0, 1, 1, 0, Done, false);
      var tiles := [done, done.(index := 1, y := 1), done.(index := 2, y := 2, device := 1),
                    done.(index := 3, y := 3, device := 1, freed := true), Tile(4, 0, 4, 1, 1, 1, Rendered, false)];
      var r := PromoteFrom(g, tiles, [[], []], 4, 0);
      && NeighborIndex(g, 4, 1) == 3
      && r.0[3] == tiles[3].(state := Denoise)
      && r.1 == [[], [3]]
  {
    var g := Layout(1, 2, 2, 1);
    var done := Tile(0, 0, 0, 1, 1, 0, Done, false);
    var tiles := [done, done.(index := 1, y := 1), done.(index := 2, y := 2, device := 1),
                  done.(index := 3, y := 3, device := 1, freed := true), Tile(4, 0, 4, 1, 1, 1, Rendered, false)];
    var t1 := tiles[3 := tiles[3].(state := Denoise)];
    assert NeighborIndex(g, 4, 1) == 3 && NeighborhoodAtLeast(tiles, g, 3, Rendered);
    var q: seq<seq<nat>> := [[], []];
    assert q[1] + [3] == [3];
    assert q[1 := [3]] == [[], [3]];
    assert PromoteFrom(g, tiles, [[], []], 4, 1) == PromoteFrom(g, t1, [[], [3]], 4, 2);
    assert PromoteFrom(g, t1, [[], [3]], 4, 5) == (t1, [[], [3]]);
  }

  /** The tiles with every state reset to `RENDER`. */
  function AllRender(tiles: seq<Tile>): (r: seq<Tile>)
    ensures |r| == |tiles|
    ensures forall i :: 0 <= i < |tiles| ==> r[i] == tiles[i].(state := Render)
  {
    seq(|tiles|, i requires 0 <= i < |tiles| => tiles[i].(state := Render))
  }

  /** Appending to each queue the indices of its device's tiles keeps every
      queued index a tile position. */
  lemma AppendOnDeviceKeepsBound(tiles: seq<Tile>, before: seq<seq<nat>>, after: seq<seq<nat>>)
    requires IndexedInPlace(tiles) && QueuedBelow(before, |tiles|) && |after| == |before|
    requires forall dev :: 0 <= dev < |after| ==> after[dev] == before[dev] + IndicesOnDevice(tiles, dev)
    ensures QueuedBelow(after, |tiles|)
  {
    forall dev, k | 0 <= dev < |after| && 0 <= k < |after[dev]|
      ensures after[dev][k] < |tiles|
    {
      if k >= |before[dev]| {
        assert after[dev][k] in IndicesOnDevice(tiles, dev);
      }
    }
  }

  class TileSchedule {
    var progressive: bool
    var params: Scheduler.BufferParams
    var resolutionDivider: int
    var tileSizeX: int
    var tileSizeY: int
    var tileOrder: TileOrder
    var numDevices: int
    var preserveTileDevice: bool
    var background: bool
    var scheduleDenoising: bool
    var sliceOverlap: int
    var tiles: seq<Tile>
    var tileStride: int
    var numTiles: int
    var renderTiles: seq<seq<nat>>
    var denoisingTiles: seq<seq<nat>>

    ghost predicate Valid()
      reads this
    {
      && GeometryValid(params, resolutionDivider, numDevices, tileSizeX, tileSizeY)
      && TilesValid(tiles, renderTiles, denoisingTiles)
    }

    /** The grid `get_neighbor_index` works on. */
    function Layout(): Layout
      reads this`params, this`resolutionDivider, this`numDevices, this`background
      reads this`tileSizeX, this`tileSizeY, this`tileStride
      requires GeometryValid(params, resolutionDivider, numDevices, tileSizeX, tileSizeY)
    {
      NeighborLayout(params, resolutionDivider, numDevices, background, tileSizeX, tileSizeY, tileStride)
    }

    /** The constructor's part for the tile layer: no tiles, no queues, and no
        denoising scheduled. */
    constructor (progressive: bool, params: Scheduler.BufferParams, resolutionDivider: int,
                 tileSizeX: int, tileSizeY: int, tileOrder: TileOrder, numDevices: int,
                 preserveTileDevice: bool, background: bool)
      requires GeometryValid(params, resolutionDivider, numDevices, tileSizeX, tileSizeY)
      ensures Valid()
      ensures this.progressive == progressive && this.params == params && this.resolutionDivider == resolutionDivider
      ensures this.tileSizeX == tileSizeX && this.tileSizeY == tileSizeY && this.tileOrder == tileOrder
      ensures this.numDevices == numDevices && this.preserveTileDevice == preserveTileDevice
      ensures this.background == background && !scheduleDenoising && sliceOverlap == 0
      ensures tiles == [] && renderTiles == [] && denoisingTiles == [] && numTiles == 0
    {
      this.progressive := progressive;
      this.params := params;
      this.resolutionDivider := resolutionDivider;
      this.tileSizeX := tileSizeX;
      this.tileSizeY := tileSizeY;
      this.tileOrder := tileOrder;
      this.numDevices := numDevices;
      this.preserveTileDevice := preserveTileDevice;
      this.background := background;
      scheduleDenoising := false;
      sliceOverlap := 0;
      tiles := [];
      tileStride := 0;
      numTiles := 0;
      renderTiles := [];
      denoisingTiles := [];
    }

    /** `device_free()`: drops every tile. Deleting the tiles' buffers first
        leaves no trace once the tiles are gone. */
    method DeviceFree()
      modifies this`tiles
      ensures tiles == []
    {
      tiles := [];
    }

    /** The part of `reset()` for the tile layer. */
    method ResetTiles()
      requires Valid()
      modifies this`tiles, this`numTiles, this`renderTiles, this`denoisingTiles
      ensures Valid()
      ensures numTiles == 0 && renderTiles == [] && denoisingTiles == [] && tiles == []
    {
      numTiles := 0;
      renderTiles := [];
      denoisingTiles := [];
      DeviceFree();
    }

    /** `check_neighbor_state(index, min_state)`. */
    method CheckNeighborState(index: int, minState: TileState) returns (b: bool)
      requires GeometryValid(params, resolutionDivider, numDevices, tileSizeX, tileSizeY)
      requires Fits(Layout(), |tiles|) && index < |tiles|
      ensures b == NeighborhoodAtLeast(tiles, Layout(), index, minState)
    {
      if index < 0 || Level(tiles[index].state) < Level(minState) {
        return false;
      }
      for neighbor := 0 to 9
        invariant forall k :: 0 <= k < neighbor ==> NeighborAtLeast(tiles, Layout(), index, k, minState)
      {
        var nindex := NeighborIndex(Layout(), index, neighbor);
        if nindex >= 0 && Level(tiles[nindex].state) < Level(minState) {
          assert !NeighborAtLeast(tiles, Layout(), index, neighbor, minState);
          return false;
        }
      }
      return true;
    }

    /** `finish_tile(index, need_denoise, delete_tile)`: advances the tile's
        state after a device has rendered or denoised it, and reports whether
        the tile is to be written (`write`) and deleted (`deleteTile`). A
        state other than `RENDER` or `DENOISE` is a failed assertion in the
        source. */
    method FinishTile(index: nat, needDenoise: bool) returns (write: bool, deleteTile: bool)
      requires Valid() && Fits(Layout(), |tiles|) && index < |tiles|
      requires tiles[index].state == Render || tiles[index].state == Denoise
      modifies this`tiles, this`denoisingTiles
      ensures Valid() && SameSlots(old(tiles), tiles)
      ensures old(tiles[index].state) == Render && !(scheduleDenoising && needDenoise) ==>
        && write && deleteTile == !progressive
        && tiles == old(tiles)[index := old(tiles[index]).(state := Done)]
        && denoisingTiles == old(denoisingTiles)
      ensures old(tiles[index].state) == Render && scheduleDenoising && needDenoise ==>
        && !write && !deleteTile
        && (tiles, denoisingTiles) ==
           PromoteFrom(Layout(), old(tiles)[index := old(tiles[index]).(state := Rendered)], old(denoisingTiles), index, 0)
      ensures old(tiles[index].state) == Denoise ==>
        && write && denoisingTiles == old(denoisingTiles)
        && (tiles, deleteTile) ==
           ReleaseFrom(Layout(), old(tiles)[index := old(tiles[index]).(state := Denoised)], index, 0, progressive, false)
    {
      deleteTile := false;
      match tiles[index].state {
        case Render =>
          if !(scheduleDenoising && needDenoise) {
            SameSlotsKeepValid(tiles, tiles[index := tiles[index].(state := Done)], renderTiles, denoisingTiles);
            tiles := tiles[index := tiles[index].(state := Done)];
            deleteTile := !progressive;
            return true, deleteTile;
          }
          SameSlotsKeepValid(tiles, tiles[index := tiles[index].(state := Rendered)], renderTiles, denoisingTiles);
          tiles := tiles[index := tiles[index].(state := Rendered)];
          PromoteNeighbors(index);
          return false, false;
        case Denoise =>
          SameSlotsKeepValid(tiles, tiles[index := tiles[index].(state := Denoised)], renderTiles, denoisingTiles);
          tiles := tiles[index := tiles[index].(state := Denoised)];
          deleteTile := ReleaseNeighbors(index);
          return true, deleteTile;
        case _ =>
          assert false;
      }
    }

    /** The neighbour loop of `finish_tile` once a tile is rendered: every
        neighbour (the tile itself included) whose neighbourhood is now
        rendered is queued for denoising on its device. */
    method PromoteNeighbors(index: nat)
      requires Valid() && Fits(Layout(), |tiles|) && index < |tiles|
      modifies this`tiles, this`denoisingTiles
      ensures Valid() && SameSlots(old(tiles), tiles)
      ensures (tiles, denoisingTiles) == PromoteFrom(Layout(), old(tiles), old(denoisingTiles), index, 0)
    {
      ghost var t0, q0, g := tiles, denoisingTiles, Layout();
      assert TilesValid(t0, renderTiles, q0);
      for neighbor := 0 to 9
        invariant SameSlots(t0, tiles) && DevicesBelow(tiles, |denoisingTiles|)
        invariant PromoteFrom(g, tiles, denoisingTiles, index, neighbor) == PromoteFrom(g, t0, q0, index, 0)
      {
        var nindex := NeighborIndex(Layout(), index, neighbor);
        var ready := CheckNeighborState(nindex, Rendered);
        if ready {
          tiles := tiles[nindex := tiles[nindex].(state := Denoise)];
          var device := tiles[nindex].device;
          denoisingTiles := denoisingTiles[device := denoisingTiles[device] + [nindex]];
        }
      }
      SameSlotsKeepValid(t0, tiles, renderTiles, q0);
    }

    /** The neighbour loop of `finish_tile` once a tile is denoised: every
        neighbour whose neighbourhood is now denoised is done, and, outside
        progressive rendering, its buffers are freed, the tile itself by the
        caller. */
    method ReleaseNeighbors(index: nat) returns (deleteTile: bool)
      requires Valid() && Fits(Layout(), |tiles|) && index < |tiles|
      modifies this`tiles
      ensures Valid() && SameSlots(old(tiles), tiles)
      ensures (tiles, deleteTile) == ReleaseFrom(Layout(), old(tiles), index, 0, progressive, false)
    {
      deleteTile := false;
      ghost var t0, q0, g := tiles, denoisingTiles, Layout();
      for neighbor := 0 to 9
        invariant SameSlots(t0, tiles) && denoisingTiles == q0
        invariant ReleaseFrom(g, tiles, index, neighbor, progressive, deleteTile)
          == ReleaseFrom(g, t0, index, 0, progressive, false)
      {
        var nindex := NeighborIndex(Layout(), index, neighbor);
        var released := CheckNeighborState(nindex, Denoised);
        if released {
          tiles := tiles[nindex := tiles[nindex].(state := Done)];
          if !progressive {
            if neighbor == 4 {
              deleteTile := true;
            } else {
              tiles := tiles[nindex := tiles[nindex].(freed := true)];
            }
          }
        }
      }
      SameSlotsKeepValid(t0, tiles, renderTiles, q0);
    }

    /** `next_tile(tile, device, tile_types)`: hands a device the next tile to
        denoise if it asks for one and one is queued, else the next tile to
        render if it asks for one and one is queued. The device keeps to its
        own queues when tiles are bound to devices and it is one of the
        rendering devices. */
    method NextTile(device: nat, wantDenoise: bool, wantPathTrace: bool) returns (tile: Option<nat>)
      requires Valid()
      modifies this`renderTiles, this`denoisingTiles
      ensures Valid()
      ensures tile.Some? ==> tile.value < |tiles|
      ensures var preserve := preserveTileDevice && device < numDevices;
        var dq, rq := PickQueue(old(denoisingTiles), device, preserve), PickQueue(old(renderTiles), device, preserve);
        if wantDenoise && dq.Some? then
          && tile == Some(old(denoisingTiles)[dq.value][0])
          && denoisingTiles == old(denoisingTiles)[dq.value := old(denoisingTiles)[dq.value][1..]]
          && renderTiles == old(renderTiles)
        else if wantPathTrace && rq.Some? then
          && tile == Some(old(renderTiles)[rq.value][0])
          && renderTiles == old(renderTiles)[rq.value := old(renderTiles)[rq.value][1..]]
          && denoisingTiles == old(denoisingTiles)
        else
          tile == None && renderTiles == old(renderTiles) && denoisingTiles == old(denoisingTiles)
    {
      var preserveDevice := preserveTileDevice && device < numDevices;
      if wantDenoise {
        var r, rest := PopFront(denoisingTiles, device, preserveDevice);
        if r.Some? {
          PopKeepsBound(denoisingTiles, device, preserveDevice, |tiles|);
          denoisingTiles := rest;
          return r;
        }
      }
      if wantPathTrace {
        var r, rest := PopFront(renderTiles, device, preserveDevice);
        if r.Some? {
          PopKeepsBound(renderTiles, device, preserveDevice, |tiles|);
          renderTiles := rest;
          return r;
        }
      }
      return None;
    }

    /** The quantities `gen_tiles(sliced)` cuts the image with. */
    function SplitOf(sliced: bool): (c: Split)
      reads this`params, this`resolutionDivider, this`numDevices, this`preserveTileDevice
      reads this`tileSizeX, this`tileSizeY, this`sliceOverlap
      requires GeometryValid(params, resolutionDivider, numDevices, tileSizeX, tileSizeY) && sliceOverlap >= 0
      ensures SplitValid(c)
    {
      var imageW := Scheduler.Dim(params.width, resolutionDivider);
      var imageH := Scheduler.Dim(params.height, resolutionDivider);
      var num := if preserveTileDevice || sliced then Min(imageH, numDevices) else 1;
      Split(imageW, imageH, tileSizeX, tileSizeY, num, sliced, sliceOverlap)
    }

    /** `gen_tiles(sliced)` outside the Hilbert-spiral order: drops the old
        tiles and queues, generates the tiles slice by slice and row by row,
        queues each on its slice's device (sliced) or deals them to the
        devices in runs of `tiles_per_device`, sorting each full run by the
        tile order (unsliced), and returns the number of tiles. */
    method GenTiles(sliced: bool) returns (count: int)
      requires Valid() && tileOrder != HilbertSpiral && sliceOverlap >= 0
      modifies this`tiles, this`renderTiles, this`denoisingTiles, this`tileStride
      ensures Valid()
      ensures var c := SplitOf(sliced);
        && tiles == GenSlices(c, SliceNum(c)) && count == |tiles|
        && renderTiles == FinalQueues(c, tileOrder, Pos(c.imageW / 2, c.imageH / 2), tiles)
        && denoisingTiles == seq(c.num, _ => []) && tileStride == TileW(c)
      ensures sliced == !background ==> Fits(Layout(), |tiles|)
    {
      // image_w, image_h and num as gen_tiles computes them
      var c := SplitOf(sliced);
      var imageW, imageH, num := c.imageW, c.imageH, c.num;
      var center := Pos(imageW / 2, imageH / 2);
      var sliceNum := if sliced then num else 1;
      var tileW := if tileSizeX >= imageW then 1 else DivideUp(imageW, tileSizeX);
      assert sliceNum == SliceNum(c) && tileW == TileW(c);

      DeviceFree();
      renderTiles := seq(num, _ => []);
      denoisingTiles := seq(num, _ => []);
      tileStride := tileW;
      count := GenSliceLoop(c, center, imageW, imageH, sliceNum, tileW, num);
      assert SplitOf(sliced) == c;
      if sliced == !background {
        assert c == SplitFor(params, resolutionDivider, numDevices, background, preserveTileDevice, tileSizeX, tileSizeY, sliceOverlap);
        GeneratedTilesFitGrid(params, resolutionDivider, numDevices, background, preserveTileDevice, tileSizeX, tileSizeY, sliceOverlap);
      }
    }

    /** The slice loop of `gen_tiles`, from empty tiles and queues: returns
        the number of tiles generated. */
    method GenSliceLoop(c: Split, center: Pos, imageW: int, imageH: int, sliceNum: nat, tileW: nat, num: nat)
      returns (idx: nat)
      requires SplitValid(c) && c.tileSizeX == tileSizeX && c.tileSizeY == tileSizeY
      requires c.overlap == sliceOverlap && c.imageW == imageW && c.imageH == imageH
      requires sliceNum == SliceNum(c) && tileW == TileW(c) && num == c.num
      requires tiles == [] && renderTiles == seq(num, _ => [])
      modifies this`tiles, this`renderTiles
      ensures tiles == GenSlices(c, SliceNum(c)) && idx == |tiles|
      ensures !c.sliced ==> SliceCount(c, 0) <= |tiles|
      ensures renderTiles == FinalQueues(c, tileOrder, center, tiles)
      ensures TilesValid(tiles, renderTiles, seq(num, _ => []))
    {
      QueuesAtStart(c, tileOrder, center);
      var tileList := 0;
      idx := 0;
      for slice := 0 to sliceNum
        invariant tiles == GenSlices(c, slice) && idx == |tiles|
        invariant renderTiles == QueuesAt(c, tileOrder, center, tiles, slice, 0)
        invariant c.sliced ==> tileList == slice
        invariant !c.sliced && slice == 0 ==> tileList == 0
      {
        idx, tileList := GenSlice(c, center, slice, imageW, imageH, sliceNum, tileW, num, idx, tileList);
      }
      GeneratedTilesValid(c, tileOrder, center);
    }

    /** The body of the slice loop of `gen_tiles`: the rows of tiles of slice
        `slice`, numbered on from `idx`, are appended to the tiles and queued. */
    method GenSlice(c: Split, center: Pos, slice: nat, imageW: int, imageH: int, sliceNum: nat, tileW: nat, num: nat,
                    idx: nat, tileList: nat) returns (idx': nat, tileList': nat)
      requires SplitValid(c) && slice < SliceNum(c) && c.tileSizeX == tileSizeX && c.tileSizeY == tileSizeY
      requires c.overlap == sliceOverlap && c.imageW == imageW && c.imageH == imageH
      requires sliceNum == SliceNum(c) && tileW == TileW(c) && num == c.num
      requires tiles == GenSlices(c, slice) && idx == |tiles|
      requires renderTiles == QueuesAt(c, tileOrder, center, tiles, slice, 0)
      requires c.sliced ==> tileList == slice
      requires !c.sliced ==> tileList == 0
      modifies this`tiles, this`renderTiles
      ensures tiles == GenSlices(c, slice + 1) && idx' == |tiles|
      ensures renderTiles == QueuesAt(c, tileOrder, center, tiles, slice + 1, 0)
      ensures c.sliced ==> tileList' == slice + 1
    {
      tileList' := tileList;
      idx' := idx;
      var sliceY := (imageH / sliceNum) * slice;
      var sliceH := if slice == sliceNum - 1 then imageH - slice * (imageH / sliceNum) else imageH / sliceNum;
      if sliceOverlap != 0 {
        var sliceYOffset := Max(sliceY - sliceOverlap, 0);
        sliceH := Min(sliceY + sliceH + sliceOverlap, imageH) - sliceYOffset;
        sliceY := sliceYOffset;
      }
      assert Span(sliceY, sliceH) == SliceSpan(c, slice);
      var tileH := if tileSizeY >= sliceH then 1 else DivideUp(sliceH, tileSizeY);
      var tilesPerDevice := DivideUp(tileW * tileH, num);
      assert tileH == Rows(c, slice) && tilesPerDevice == PerDevice(c, slice);
      assert SliceGeometry(c, slice, sliceY, sliceH, tileW, tileH, tilesPerDevice);
      idx', tileList' := TileRows(c, center, slice, sliceY, sliceH, tileW, tileH, tilesPerDevice, idx, tileList);
      SliceDone(c, tileOrder, center, tiles, tiles, slice);
      if c.sliced {
        tileList' := tileList' + 1;
      }
    }

    /** The two tile loops of `gen_tiles` over slice `slice`: row by row,
        left to right, each tile is appended and queued. */
    method TileRows(c: Split, center: Pos, slice: nat, sliceY: int, sliceH: int, tileW: nat, tileH: nat,
                    tilesPerDevice: nat, idx: nat, tileList: nat) returns (idx': nat, tileList': nat)
      requires SliceGeometry(c, slice, sliceY, sliceH, tileW, tileH, tilesPerDevice)
      requires c.tileSizeX == tileSizeX && c.tileSizeY == tileSizeY
      requires tiles == GenSlices(c, slice) && idx == |tiles|
      requires renderTiles == QueuesAt(c, tileOrder, center, tiles, slice, 0)
      requires c.sliced ==> tileList == slice
      requires !c.sliced ==> tileList == 0
      modifies this`tiles, this`renderTiles
      ensures tiles == GenSlices(c, slice + 1) && idx' == |tiles|
      ensures renderTiles == QueuesAt(c, tileOrder, center, tiles, slice, SliceCount(c, slice))
      ensures c.sliced ==> tileList' == slice
    {
      idx', tileList' := idx, tileList;
      var curDevice: nat, curTiles: nat := 0, 0;
      ghost var idx0, t0 := idx, tiles;
      ghost var k: nat := 0;
      ghost var count := SliceCount(c, slice);
      BlockStartIsProduct(tileW, tileH);
      assert count == BlockStart(tileW, tileH);
      for tileY := 0 to tileH
        invariant k == BlockStart(tileW, tileY) && idx' == idx0 + k
        invariant Emitted(c, tileOrder, center, slice, idx0, t0, k, tiles, renderTiles)
        invariant Counters(c, slice, tilesPerDevice, k, tileList', curDevice, curTiles)
      {
        BlockStartMonotone(tileW, tileY + 1, tileH);
        idx', tileList', curDevice, curTiles :=
          TileRow(c, center, slice, idx0, t0, k, idx', tileY, sliceY, sliceH, tileW, tileH,
                  tilesPerDevice, tileList', curDevice, curTiles);
        k := k + tileW;
      }
      SliceComplete(c, tileOrder, center, slice, idx0, t0, k, tiles, renderTiles);
    }

    /** The inner tile loop of `gen_tiles`: the tiles of row `tileY` of
        slice `slice`, left to right. */
    method TileRow(c: Split, center: Pos, slice: nat, ghost idx0: nat, ghost t0: seq<Tile>, ghost k0: nat, idx: nat,
                   tileY: nat, sliceY: int, sliceH: int, tileW: nat, tileH: nat,
                   tilesPerDevice: nat, tileList: nat, curDevice: nat, curTiles: nat)
      returns (idx': nat, tileList': nat, curDevice': nat, curTiles': nat)
      requires SliceGeometry(c, slice, sliceY, sliceH, tileW, tileH, tilesPerDevice)
      requires c.tileSizeX == tileSizeX && c.tileSizeY == tileSizeY
      requires tileY < tileH && k0 == BlockStart(tileW, tileY) && k0 + tileW <= SliceCount(c, slice) && idx == idx0 + k0
      requires Emitted(c, tileOrder, center, slice, idx0, t0, k0, tiles, renderTiles)
      requires Counters(c, slice, tilesPerDevice, k0, tileList, curDevice, curTiles)
      modifies this`tiles, this`renderTiles
      ensures idx' == idx0 + k0 + tileW
      ensures Emitted(c, tileOrder, center, slice, idx0, t0, k0 + tileW, tiles, renderTiles)
      ensures Counters(c, slice, tilesPerDevice, k0 + tileW, tileList', curDevice', curTiles')
    {
      idx', tileList', curDevice', curTiles' := idx, tileList, curDevice, curTiles;
      BlockStartIsProduct(tileW, tileY);
      ghost var k := k0;
      for tileX := 0 to tileW
        invariant k == k0 + tileX && idx' == idx0 + k
        invariant Emitted(c, tileOrder, center, slice, idx0, t0, k, tiles, renderTiles)
        invariant Counters(c, slice, tilesPerDevice, k, tileList', curDevice', curTiles')
      {
        tileList', curDevice', curTiles' :=
          EmitTile(c, center, slice, idx0, t0, k, idx', tileY, tileX, sliceY, sliceH, tileW, tileH,
                   tilesPerDevice, tileList', curDevice', curTiles');
        idx' := idx' + 1;
        k := k + 1;
      }
    }

    /** The body of the innermost loop of `gen_tiles`: tile `idx`, in column
        `tileX` and row `tileY` of slice `slice`, is appended to the tiles and
        to the current queue, and in the unsliced case the run counters
        advance and a full run is sorted. */
    method EmitTile(c: Split, center: Pos, slice: nat, ghost idx0: nat, ghost t0: seq<Tile>, ghost k: nat, idx: nat,
                    tileY: nat, tileX: nat, sliceY: int, sliceH: int, tileW: nat, tileH: nat,
                    tilesPerDevice: nat, tileList: nat, curDevice: nat, curTiles: nat)
      returns (tileList': nat, curDevice': nat, curTiles': nat)
      requires SliceGeometry(c, slice, sliceY, sliceH, tileW, tileH, tilesPerDevice)
      requires c.tileSizeX == tileSizeX && c.tileSizeY == tileSizeY
      requires tileX < tileW && tileY < tileH && k == tileY * tileW + tileX && idx == idx0 + k
      requires k < SliceCount(c, slice)
      requires Emitted(c, tileOrder, center, slice, idx0, t0, k, tiles, renderTiles)
      requires Counters(c, slice, tilesPerDevice, k, tileList, curDevice, curTiles)
      modifies this`tiles, this`renderTiles
      ensures Emitted(c, tileOrder, center, slice, idx0, t0, k + 1, tiles, renderTiles)
      ensures Counters(c, slice, tilesPerDevice, k + 1, tileList', curDevice', curTiles')
    {
      tileList', curDevice', curTiles' := tileList, curDevice, curTiles;
      var x := tileX * tileSizeX;
      var y := tileY * tileSizeY;
      var w := if tileX == tileW - 1 then c.imageW - x else tileSizeX;
      var h := if tileY == tileH - 1 then sliceH - y else tileSizeY;
      var t := Tile(idx, x, y + sliceY, w, h, if c.sliced then slice else curDevice, Render, false);
      TileAt(c, slice, idx0, tileY, tileX, if c.sliced then slice else curDevice, curTiles);
      if c.sliced {
        PushSliced(c, center, slice, idx0, t0, k, idx, tileList, t);
      } else {
        tileList', curDevice', curTiles' := PushUnsliced(c, center, slice, idx0, t0, k, idx, tilesPerDevice, tileList, curDevice, curTiles, t);
      }
    }

    /** The sliced branch of the tile loop: the tile joins the queue of its
        slice's device. */
    method PushSliced(c: Split, center: Pos, slice: nat, ghost idx0: nat, ghost t0: seq<Tile>, ghost k: nat, idx: nat,
                      tileList: nat, t: Tile)
      requires Emitted(c, tileOrder, center, slice, idx0, t0, k, tiles, renderTiles)
      requires c.sliced && tileList == slice && idx == idx0 + k && k < SliceCount(c, slice)
      requires t == GenTile(c, slice, idx0, k)
      modifies this`tiles, this`renderTiles
      ensures Emitted(c, tileOrder, center, slice, idx0, t0, k + 1, tiles, renderTiles)
    {
      EmitSliced(c, tileOrder, center, slice, idx0, t0, k, tiles, renderTiles, t);
      tiles := tiles + [t];
      renderTiles := renderTiles[tileList := renderTiles[tileList] + [idx]];
    }

    /** The unsliced branch of the tile loop: the tile joins the queue of the
        current device, and once that device has its share the queue is
        sorted and the next device's queue is filled. */
    method PushUnsliced(c: Split, center: Pos, slice: nat, ghost idx0: nat, ghost t0: seq<Tile>, ghost k: nat, idx: nat,
                        tilesPerDevice: nat, tileList: nat, curDevice: nat, curTiles: nat, t: Tile)
      returns (tileList': nat, curDevice': nat, curTiles': nat)
      requires Emitted(c, tileOrder, center, slice, idx0, t0, k, tiles, renderTiles)
      requires !c.sliced && idx == idx0 + k && k < SliceCount(c, slice) && tilesPerDevice == PerDevice(c, slice)
      requires Counters(c, slice, tilesPerDevice, k, tileList, curDevice, curTiles)
      requires t == GenTile(c, slice, idx0, k)
      modifies this`tiles, this`renderTiles
      ensures Emitted(c, tileOrder, center, slice, idx0, t0, k + 1, tiles, renderTiles)
      ensures Counters(c, slice, tilesPerDevice, k + 1, tileList', curDevice', curTiles')
    {
      UnslicedSlot(c, tileOrder, center, slice, idx0, t0, k, tiles, renderTiles, curDevice, curTiles);
      ghost var tiles0, queues0 := tiles, renderTiles;
      tiles := tiles + [t];
      renderTiles := renderTiles[tileList := renderTiles[tileList] + [idx]];
      tileList', curDevice', curTiles' := tileList, curDevice, curTiles + 1;
      assert tileList == curDevice && idx == k && |tiles| == k + 1;
      assert renderTiles[tileList] == queues0[curDevice] + [k];
      if curTiles' == tilesPerDevice {
        if tileOrder != BottomToTop {
          renderTiles := renderTiles[tileList := SortList(tiles, tileOrder, center, renderTiles[tileList])];
        }
        tileList' := tileList + 1;
        curTiles' := 0;
        curDevice' := curDevice + 1;
        assert BlockStart(tilesPerDevice, curDevice') == BlockStart(tilesPerDevice, curDevice) + tilesPerDevice;
      }
      UnslicedStep(c, tileOrder, center, slice, idx0, t0, k, tiles0, queues0, t, curDevice, curTiles, tiles, renderTiles);
    }

    /** `gen_render_tiles()`: every tile is to be rendered again, and joins
        the render queue of its device, in tile order. */
    method GenRenderTiles()
      requires Valid()
      modifies this`tiles, this`renderTiles
      ensures Valid()
      ensures tiles == AllRender(old(tiles))
      ensures |renderTiles| == old(|renderTiles|)
      ensures forall dev :: 0 <= dev < |renderTiles| ==>
        renderTiles[dev] == old(renderTiles[dev]) + IndicesOnDevice(old(tiles), dev)
    {
      ghost var t0, r0 := tiles, renderTiles;
      assert DevicesBelow(t0, |r0|);
      for i := 0 to |tiles|
        invariant |tiles| == |t0| && |renderTiles| == |r0|
        invariant forall j :: 0 <= j < |tiles| ==> tiles[j] == if j < i then t0[j].(state := Render) else t0[j]
        invariant forall dev :: 0 <= dev < |renderTiles| ==> renderTiles[dev] == r0[dev] + IndicesOnDevice(t0[..i], dev)
      {
        tiles := tiles[i := tiles[i].(state := Render)];
        var device := tiles[i].device;
        assert t0[..i + 1][..i] == t0[..i];
        renderTiles := renderTiles[device := renderTiles[device] + [tiles[i].index]];
      }
      assert t0[..|t0|] == t0;
      AppendOnDeviceKeepsBound(t0, r0, renderTiles);
    }

    /** `has_tiles()`: some tile is not done. */
    method HasTiles() returns (b: bool)
      ensures b <==> exists i :: 0 <= i < |tiles| && tiles[i].state != Done
    {
      for i := 0 to |tiles|
        invariant forall j :: 0 <= j < i ==> tiles[j].state == Done
      {
        if tiles[i].state != Done {
          return true;
        }
      }
      return false;
    }
  }
}
