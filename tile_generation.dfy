/**
 * What `gen_tiles` of intern/cycles/render/tile.cpp (compiled out) builds
 * outside its Hilbert-spiral branch: the image is cut into horizontal slices
 * (one per device when `sliced`, else a single one), each slice into rows of
 * tiles, and the tiles are numbered row by row, left to right, slice after
 * slice. A sliced image gives each slice to its own device; otherwise tiles
 * are dealt to the devices in runs of `tiles_per_device`, and each full run
 * is sorted by the tile order.
 */
module TileGeneration {
  import opened CInt
  import opened Tiles
  import opened TileQueues
  import opened TileOrdering
  import opened TileDealing
  import TileGrid

  /** The quantities `gen_tiles` cuts the image with: the image size at the
      current divider, the tile size, the number of device queues `num`,
      whether to slice, and `slice_overlap`. */
  datatype Split = Split(imageW: int, imageH: int, tileSizeX: int, tileSizeY: int, num: int, sliced: bool, overlap: int)

  /** The image and the tiles are at least a pixel, and there are at most as
      many queues as image rows. */
  predicate SplitValid(c: Split)
  {
    c.imageW >= 1 && c.imageH >= 1 && c.tileSizeX >= 1 && c.tileSizeY >= 1
    && 1 <= c.num <= c.imageH && c.overlap >= 0
  }

  function SliceNum(c: Split): (n: nat)
    requires SplitValid(c)
    ensures 1 <= n <= c.imageH
  {
    if c.sliced then c.num else 1
  }

  /** `tile_w`: tiles per row. The last column is the remainder. */
  function TileW(c: Split): (n: nat)
    requires SplitValid(c)
    ensures n >= 1
  {
    if c.tileSizeX >= c.imageW then 1 else DivideUp(c.imageW, c.tileSizeX)
  }

  /** The columns cover the image width, and the last one is not empty. */
  lemma TileWBounds(c: Split)
    requires SplitValid(c)
    ensures (TileW(c) - 1) * c.tileSizeX < c.imageW <= TileW(c) * c.tileSizeX
  {
  }

  /** A run of image rows: the first row and the number of rows. */
  datatype Span = Span(start: int, size: int)

  /** `image_h / slice_num`: the height of every slice but the last. */
  function SliceHeight(c: Split): (h: nat)
    requires SplitValid(c)
    ensures h >= 1 && SliceNum(c) * h <= c.imageH
  {
    c.imageH / SliceNum(c)
  }

  /** `slice_y` and `slice_h` of slice `s`: the last slice takes the rows
      left over, and a non-zero overlap widens every slice by that many rows
      on both sides, within the image. */
  function SliceSpan(c: Split, s: nat): (r: Span)
    requires SplitValid(c) && s < SliceNum(c)
    ensures 0 <= r.start && r.size >= 1 && r.start + r.size <= c.imageH
  {
    var n, u := SliceNum(c), SliceHeight(c);
    var y := u * s;
    var h := if s == n - 1 then c.imageH - s * u else u;
    MulMonotone(u, s + 1, n);
    assert u * (s + 1) == y + u;
    if c.overlap != 0 then
      var y0 := Max(y - c.overlap, 0);
      Span(y0, Min(y + h + c.overlap, c.imageH) - y0)
    else Span(y, h)
  }

  /** `tile_h` of slice `s`: rows of tiles in the slice. The last row is the
      remainder. */
  function Rows(c: Split, s: nat): (n: nat)
    requires SplitValid(c) && s < SliceNum(c)
    ensures n >= 1
  {
    var h := SliceSpan(c, s).size;
    if c.tileSizeY >= h then 1 else DivideUp(h, c.tileSizeY)
  }

  /** The rows of tiles cover the slice, and the last one is not empty. */
  lemma RowsBounds(c: Split, s: nat)
    requires SplitValid(c) && s < SliceNum(c)
    ensures (Rows(c, s) - 1) * c.tileSizeY < SliceSpan(c, s).size <= Rows(c, s) * c.tileSizeY
  {
  }

  /** The number of tiles of slice `s`. */
  function SliceCount(c: Split, s: nat): (n: nat)
    requires SplitValid(c) && s < SliceNum(c)
    ensures n >= 1
  {
    TileW(c) * Rows(c, s)
  }

  /** `tile_h` as `get_neighbor_index` computes it: the tile rows of a slice
      of the regular height `image_h / slice_num`. */
  function RegularRows(c: Split): (n: nat)
    requires SplitValid(c)
    ensures n >= 1
  {
    var u := SliceHeight(c);
    if c.tileSizeY >= u then 1 else DivideUp(u, c.tileSizeY)
  }

  /** No slice is lower than the regular height: the last one takes the rows
      left over, and the overlap only widens a slice. */
  lemma SliceAtLeastRegular(c: Split, s: nat)
    requires SplitValid(c) && s < SliceNum(c)
    ensures SliceHeight(c) <= SliceSpan(c, s).size
  {
    var n, u := SliceNum(c), SliceHeight(c);
    var y := u * s;
    var h := if s == n - 1 then c.imageH - s * u else u;
    MulMonotone(u, s + 1, n);
    MulSucc(u, s);
    assert y + u <= c.imageH;
    assert u <= h && y + h <= c.imageH;
  }

  /** Every slice has at least the regular number of tile rows. */
  lemma RowsAtLeastRegular(c: Split, s: nat)
    requires SplitValid(c) && s < SliceNum(c)
    ensures RegularRows(c) <= Rows(c, s)
  {
    SliceAtLeastRegular(c, s);
    var u, h := SliceHeight(c), SliceSpan(c, s).size;
    if c.tileSizeY < u {
      DivideUpMonotone(u, h, c.tileSizeY);
    }
  }

  /** `tiles_per_device` of slice `s`. */
  function PerDevice(c: Split, s: nat): (n: nat)
    requires SplitValid(c) && s < SliceNum(c)
    ensures n >= 1
  {
    DivideUp(SliceCount(c, s), c.num)
  }

  /** The first of `n` blocks of `w` tiles each: the tiles in the first `n`
      rows of a slice `w` tiles wide, or in the first `n` runs of `w`. */
  function BlockStart(w: nat, n: nat): nat
  {
    if n == 0 then 0 else BlockStart(w, n - 1) + w
  }

  lemma {:induction false} BlockStartIsProduct(w: nat, n: nat)
    ensures BlockStart(w, n) == n * w
  {
    if n > 0 {
      BlockStartIsProduct(w, n - 1);
      MulPred(n, w);
    }
  }

  lemma {:induction false} BlockStartMonotone(w: nat, a: nat, b: nat)
    requires a <= b
    ensures BlockStart(w, a) <= BlockStart(w, b)
    decreases b - a
  {
    if a < b {
      BlockStartMonotone(w, a, b - 1);
    }
  }

  /** The run of `per` tiles that tile `k` falls in. */
  function RunOf(k: nat, per: nat): nat
    requires per >= 1
  {
    k / per
  }

  /** Tile `k` of slice `s`, numbered `idx0 + k`: column `k % tile_w` and row
      `k / tile_w` of the slice. Unsliced, it belongs to run `k / tiles_per_device`. */
  function GenTile(c: Split, s: nat, idx0: nat, k: nat): Tile
    requires SplitValid(c) && s < SliceNum(c) && k < SliceCount(c, s)
  {
    var w, rows := TileW(c), Rows(c, s);
    var tx, ty := k % w, k / w;
    var x, y := tx * c.tileSizeX, ty * c.tileSizeY;
    var span := SliceSpan(c, s);
    Tile(idx0 + k, x, y + span.start,
         if tx == w - 1 then c.imageW - x else c.tileSizeX,
         if ty == rows - 1 then span.size - y else c.tileSizeY,
         if c.sliced then s else RunOf(k, PerDevice(c, s)),
         Render, false)
  }

  /** The tiles of slice `s` when the slice starts at `idx0`. */
  function SliceTiles(c: Split, s: nat, idx0: nat): (r: seq<Tile>)
    requires SplitValid(c) && s < SliceNum(c)
    ensures |r| == SliceCount(c, s)
    ensures forall k :: 0 <= k < |r| ==> r[k] == GenTile(c, s, idx0, k)
  {
    seq(SliceCount(c, s), k requires 0 <= k < SliceCount(c, s) => GenTile(c, s, idx0, k))
  }

  /** The first `k` tiles of slice `s`, in the order they are generated. */
  function SlicePrefix(c: Split, s: nat, idx0: nat, k: nat): (r: seq<Tile>)
    requires SplitValid(c) && s < SliceNum(c) && k <= SliceCount(c, s)
    ensures |r| == k
  {
    if k == 0 then [] else SlicePrefix(c, s, idx0, k - 1) + [GenTile(c, s, idx0, k - 1)]
  }

  lemma {:induction false} SlicePrefixIsSlice(c: Split, s: nat, idx0: nat, k: nat)
    requires SplitValid(c) && s < SliceNum(c) && k <= SliceCount(c, s)
    ensures SlicePrefix(c, s, idx0, k) == SliceTiles(c, s, idx0)[..k]
  {
    if k > 0 {
      SlicePrefixIsSlice(c, s, idx0, k - 1);
      assert SliceTiles(c, s, idx0)[..k] == SliceTiles(c, s, idx0)[..k - 1] + [SliceTiles(c, s, idx0)[k - 1]];
    }
  }

  /** The tile in column `tx` and row `ty` of slice `s`, as the loops of
      `gen_tiles` build it; unsliced, it is the `r`-th tile of run `device`. */
  lemma TileAt(c: Split, s: nat, idx0: nat, ty: nat, tx: nat, device: nat, r: nat)
    requires SplitValid(c) && s < SliceNum(c) && tx < TileW(c) && ty < Rows(c, s)
    requires c.sliced ==> device == s
    requires !c.sliced ==> ty * TileW(c) + tx == BlockStart(PerDevice(c, s), device) + r && r < PerDevice(c, s)
    ensures ty * TileW(c) + tx < SliceCount(c, s)
    ensures var x, y, span := tx * c.tileSizeX, ty * c.tileSizeY, SliceSpan(c, s);
      GenTile(c, s, idx0, ty * TileW(c) + tx) ==
        Tile(idx0 + ty * TileW(c) + tx, x, y + span.start,
             if tx == TileW(c) - 1 then c.imageW - x else c.tileSizeX,
             if ty == Rows(c, s) - 1 then span.size - y else c.tileSizeY,
             device, Render, false)
  {
    TileGrid.GridCell(TileW(c), Rows(c, s), ty, tx);
    if !c.sliced {
      BlockStartIsProduct(PerDevice(c, s), device);
      DivUnique(ty * TileW(c) + tx, PerDevice(c, s), device, r);
    }
  }

  /** The tiles of the first `n` slices, each slice numbered on from the
      previous one. Every tile sits at its own index. */
  function GenSlices(c: Split, n: nat): (r: seq<Tile>)
    requires SplitValid(c) && n <= SliceNum(c)
    ensures IndexedInPlace(r)
  {
    if n == 0 then []
    else
      var t := GenSlices(c, n - 1);
      t + SliceTiles(c, n - 1, |t|)
  }

  /** The index of the first tile of slice `s`. */
  function SliceStart(c: Split, s: nat): nat
    requires SplitValid(c) && s <= SliceNum(c)
  {
    |GenSlices(c, s)|
  }

  /** Sliced, the queue of slice `q` holds the slice's tiles in order: all of
      them once the slice is generated, the first `k` while it is. */
  function SliceQueue(c: Split, q: nat, slice: nat, k: nat): seq<nat>
    requires SplitValid(c) && q < SliceNum(c)
  {
    if q < slice then Range(SliceStart(c, q), SliceCount(c, q))
    else if q == slice then Range(SliceStart(c, q), k)
    else []
  }

  /** The render queues after the slices before `slice` and `k` tiles of
      slice `slice` are generated. */
  function QueuesAt(c: Split, order: TileOrder, center: Pos, tiles: seq<Tile>, slice: nat, k: nat): (r: seq<seq<nat>>)
    requires SplitValid(c) && slice <= SliceNum(c)
    requires !c.sliced ==> (if slice == 0 then k else SliceCount(c, 0)) <= |tiles|
    ensures |r| == c.num
  {
    if c.sliced then
      seq(c.num, q requires 0 <= q < c.num => SliceQueue(c, q, slice, k))
    else
      DeviceQueues(tiles, order, center, PerDevice(c, 0), if slice == 0 then k else SliceCount(c, 0), c.num)
  }

  /** Before the first tile every queue is empty. */
  lemma QueuesAtStart(c: Split, order: TileOrder, center: Pos)
    requires SplitValid(c)
    ensures QueuesAt(c, order, center, [], 0, 0) == seq(c.num, _ => [])
  {
    var q := QueuesAt(c, order, center, [], 0, 0);
    forall d | 0 <= d < c.num
      ensures q[d] == []
    {
      if !c.sliced {
        assert q[d] == DeviceQueue([], order, center, PerDevice(c, 0), 0, d);
      }
    }
  }

  /** The render queues `gen_tiles` leaves. */
  function FinalQueues(c: Split, order: TileOrder, center: Pos, tiles: seq<Tile>): seq<seq<nat>>
    requires SplitValid(c) && (!c.sliced ==> SliceCount(c, 0) <= |tiles|)
  {
    QueuesAt(c, order, center, tiles, SliceNum(c), 0)
  }

  /** The loop variables of slice `s` in `gen_tiles`: `slice_y`, `slice_h`,
      `tile_w`, `tile_h` and `tiles_per_device` as the slice defines them. */
  predicate SliceGeometry(c: Split, s: nat, sliceY: int, sliceH: int, tileW: nat, tileH: nat, per: nat)
  {
    && SplitValid(c) && s < SliceNum(c) && tileW == TileW(c) && tileH == Rows(c, s)
    && Span(sliceY, sliceH) == SliceSpan(c, s) && per == PerDevice(c, s)
  }

  /** The tiles and queues once the slices before `s` and the first `k`
      tiles of slice `s` are generated, the slice starting at tile `idx0`. */
  predicate Emitted(c: Split, order: TileOrder, center: Pos, s: nat, idx0: nat, t0: seq<Tile>, k: nat,
                    tiles: seq<Tile>, queues: seq<seq<nat>>)
  {
    && SplitValid(c) && s < SliceNum(c) && k <= SliceCount(c, s)
    && t0 == GenSlices(c, s) && idx0 == |t0|
    && tiles == t0 + SlicePrefix(c, s, idx0, k)
    && queues == QueuesAt(c, order, center, tiles, s, k)
  }

  /** The queue cursor and, unsliced, the run counters after `k` tiles of
      slice `s`: tile `k` is the `curTiles`-th of run `curDevice`. */
  predicate Counters(c: Split, s: nat, per: nat, k: nat, tileList: nat, curDevice: nat, curTiles: nat)
  {
    && (c.sliced ==> tileList == s)
    && (!c.sliced ==> k == BlockStart(per, curDevice) + curTiles && curTiles < per && tileList == curDevice)
  }

  /** Once all tiles of slice `s` are emitted, the tiles are those of the
      first `s + 1` slices. */
  lemma SliceComplete(c: Split, order: TileOrder, center: Pos, s: nat, idx0: nat, t0: seq<Tile>, k: nat,
                      tiles: seq<Tile>, queues: seq<seq<nat>>)
    requires Emitted(c, order, center, s, idx0, t0, k, tiles, queues) && k == SliceCount(c, s)
    ensures tiles == GenSlices(c, s + 1) && queues == QueuesAt(c, order, center, tiles, s, SliceCount(c, s))
  {
    SlicePrefixIsSlice(c, s, idx0, k);
    var st := SliceTiles(c, s, idx0);
    assert st[..k] == st;
    assert GenSlices(c, s + 1) == t0 + st;
  }

  /** Pushing tile `k` of sliced slice `s` onto the slice's queue. */
  lemma SlicedPush(c: Split, order: TileOrder, center: Pos, t1: seq<Tile>, t2: seq<Tile>, s: nat, k: nat)
    requires SplitValid(c) && c.sliced && s < SliceNum(c) && k < SliceCount(c, s)
    ensures var q := QueuesAt(c, order, center, t1, s, k);
      q[s := q[s] + [SliceStart(c, s) + k]] == QueuesAt(c, order, center, t2, s, k + 1)
  {
    var q, q' := QueuesAt(c, order, center, t1, s, k), QueuesAt(c, order, center, t2, s, k + 1);
    assert q[s] == SliceQueue(c, s, s, k);
    RangeSnoc(SliceStart(c, s), k);
    forall d | 0 <= d < c.num
      ensures q'[d] == q[s := q[s] + [SliceStart(c, s) + k]][d]
    {
      assert q'[d] == SliceQueue(c, d, s, k + 1);
      if d != s {
        assert q[d] == SliceQueue(c, d, s, k);
      }
    }
  }

  /** Unsliced, tile `k` is the `r`-th of run `L`, a run below the number of
      devices whose queue holds the run so far. */
  lemma UnslicedRun(c: Split, order: TileOrder, center: Pos, tiles: seq<Tile>, k: nat, L: nat, r: nat)
    requires SplitValid(c) && !c.sliced && |tiles| == k && k < SliceCount(c, 0)
    requires k == L * PerDevice(c, 0) + r && r < PerDevice(c, 0)
    ensures L < c.num
    ensures var q := QueuesAt(c, order, center, tiles, 0, k);
      q[L] + [k] == Range(k - r, r + 1) && AllBelow(q[L] + [k], k + 1)
  {
    PerDeviceCovers(c);
    UnslicedQueuesAt(c, order, center, tiles, k);
    RunBelow(PerDevice(c, 0), c.num, k, L, r);
    var lo: nat := k - r;
    RunSoFar(tiles, order, center, PerDevice(c, 0), c.num, k, L, lo, r, QueuesAt(c, order, center, tiles, 0, k));
  }

  /** Unsliced, tile `k`, the `r`-th of run `L`, joins the queue of run `L`,
      which is sorted by the tile order once it is full. */
  lemma UnslicedPush(c: Split, order: TileOrder, center: Pos, tiles: seq<Tile>, t: Tile, k: nat, L: nat, r: nat)
    requires SplitValid(c) && !c.sliced && |tiles| == k && k < SliceCount(c, 0)
    requires k == L * PerDevice(c, 0) + r && r < PerDevice(c, 0)
    ensures L < c.num
    ensures var q := QueuesAt(c, order, center, tiles, 0, k);
      var p := q[L := q[L] + [k]];
      QueuesAt(c, order, center, tiles + [t], 0, k + 1) ==
        if r + 1 == PerDevice(c, 0) && order != BottomToTop then p[L := SortList(tiles + [t], order, center, p[L])]
        else p
    ensures r + 1 == PerDevice(c, 0) ==> k + 1 == (L + 1) * PerDevice(c, 0)
  {
    PerDeviceCovers(c);
    UnslicedQueuesAt(c, order, center, tiles, k);
    UnslicedQueuesAt(c, order, center, tiles + [t], k + 1);
    var q, q' := QueuesAt(c, order, center, tiles, 0, k), QueuesAt(c, order, center, tiles + [t], 0, k + 1);
    DealOne(tiles, t, order, center, PerDevice(c, 0), c.num, k, L, r, q, q');
    PushThenSort(tiles + [t], order, center, q, q', L, k, r + 1 == PerDevice(c, 0) && order != BottomToTop);
  }

  /** Appending `k` to queue `L` and sorting it, written on the updated
      queue. */
  lemma PushThenSort(tiles: seq<Tile>, order: TileOrder, center: Pos, q: seq<seq<nat>>, q': seq<seq<nat>>,
                     L: nat, k: nat, full: bool)
    requires L < |q| && AllBelow(q[L] + [k], |tiles|)
    requires |q'| == |q| && q' == q[L := q'[L]]
    requires q'[L] == if full then SortList(tiles, order, center, q[L] + [k]) else q[L] + [k]
    ensures var p := q[L := q[L] + [k]];
      q' == if full then p[L := SortList(tiles, order, center, p[L])] else p
  {
    var p := q[L := q[L] + [k]];
    assert p[L] == q[L] + [k];
    if full {
      UpdateTwice(q, L, q[L] + [k], q'[L]);
    }
  }

  /** Unsliced, the queues while slice 0 is generated are the dealt runs. */
  lemma UnslicedQueuesAt(c: Split, order: TileOrder, center: Pos, tiles: seq<Tile>, k: nat)
    requires SplitValid(c) && !c.sliced && k <= SliceCount(c, 0) && k <= |tiles|
    ensures QueuesAt(c, order, center, tiles, 0, k) == DeviceQueues(tiles, order, center, PerDevice(c, 0), k, c.num)
  {
  }

  /** The runs of all devices together cover the image's tiles. */
  lemma PerDeviceCovers(c: Split)
    requires SplitValid(c) && !c.sliced
    ensures SliceCount(c, 0) <= PerDevice(c, 0) * c.num
  {
  }

  /** Sliced, tile `k` of slice `s` is appended to the tiles and to the
      slice's queue. */
  lemma EmitSliced(c: Split, order: TileOrder, center: Pos, s: nat, idx0: nat, t0: seq<Tile>, k: nat,
                   tiles: seq<Tile>, queues: seq<seq<nat>>, t: Tile)
    requires Emitted(c, order, center, s, idx0, t0, k, tiles, queues) && c.sliced && k < SliceCount(c, s)
    requires t == GenTile(c, s, idx0, k)
    ensures s < |queues|
    ensures Emitted(c, order, center, s, idx0, t0, k + 1, tiles + [t], queues[s := queues[s] + [idx0 + k]])
  {
    assert SlicePrefix(c, s, idx0, k + 1) == SlicePrefix(c, s, idx0, k) + [t];
    assert t0 + SlicePrefix(c, s, idx0, k + 1) == tiles + [t];
    assert idx0 == SliceStart(c, s);
    SlicedPush(c, order, center, tiles, tiles + [t], s, k);
  }

  /** Unsliced, tile `k`, the `r`-th of run `L`, is appended to the tiles and
      to the run's queue, which is sorted by the tile order once full. */
  lemma EmitUnsliced(c: Split, order: TileOrder, center: Pos, s: nat, idx0: nat, t0: seq<Tile>, k: nat,
                     tiles: seq<Tile>, queues: seq<seq<nat>>, t: Tile, L: nat, r: nat)
    requires Emitted(c, order, center, s, idx0, t0, k, tiles, queues) && !c.sliced && k < SliceCount(c, s)
    requires t == GenTile(c, s, idx0, k)
    requires k == BlockStart(PerDevice(c, s), L) + r && r < PerDevice(c, s)
    ensures idx0 == 0 && |tiles| == k
    ensures L < |queues| && AllBelow(queues[L] + [k], k + 1)
    ensures var p := queues[L := queues[L] + [k]];
      r + 1 == PerDevice(c, s) && order != BottomToTop ==>
        Emitted(c, order, center, s, idx0, t0, k + 1, tiles + [t], p[L := SortList(tiles + [t], order, center, p[L])])
    ensures var p := queues[L := queues[L] + [k]];
      !(r + 1 == PerDevice(c, s) && order != BottomToTop) ==> Emitted(c, order, center, s, idx0, t0, k + 1, tiles + [t], p)
  {
    assert s == 0 && idx0 == 0 && t0 == [];
    assert SlicePrefix(c, 0, 0, k + 1) == SlicePrefix(c, 0, 0, k) + [t];
    assert [] + SlicePrefix(c, 0, 0, k + 1) == tiles + [t];
    BlockStartIsProduct(PerDevice(c, 0), L);
    UnslicedRun(c, order, center, tiles, k, L, r);
    UnslicedPush(c, order, center, tiles, t, k, L, r);
  }

  /** Unsliced, the queue tile `k` joins exists and stays below the tile
      count once the tile is added. */
  lemma UnslicedSlot(c: Split, order: TileOrder, center: Pos, s: nat, idx0: nat, t0: seq<Tile>, k: nat,
                     tiles: seq<Tile>, queues: seq<seq<nat>>, L: nat, r: nat)
    requires Emitted(c, order, center, s, idx0, t0, k, tiles, queues) && !c.sliced && k < SliceCount(c, s)
    requires k == BlockStart(PerDevice(c, s), L) + r && r < PerDevice(c, s)
    ensures s == 0 && idx0 == 0 && |tiles| == k
    ensures L < |queues| && AllBelow(queues[L] + [k], k + 1)
  {
    assert s == 0 && idx0 == 0 && t0 == [];
    BlockStartIsProduct(PerDevice(c, 0), L);
    UnslicedRun(c, order, center, tiles, k, L, r);
  }

  /** `EmitUnsliced` stated on the queues after the push (and the sort that
      closes a full run). */
  lemma UnslicedStep(c: Split, order: TileOrder, center: Pos, s: nat, idx0: nat, t0: seq<Tile>, k: nat,
                     tiles: seq<Tile>, queues: seq<seq<nat>>, t: Tile, L: nat, r: nat,
                     tiles': seq<Tile>, queues': seq<seq<nat>>)
    requires Emitted(c, order, center, s, idx0, t0, k, tiles, queues) && !c.sliced && k < SliceCount(c, s)
    requires t == GenTile(c, s, idx0, k)
    requires k == BlockStart(PerDevice(c, s), L) + r && r < PerDevice(c, s)
    requires L < |queues| && |tiles| == k && AllBelow(queues[L] + [k], k + 1) && tiles' == tiles + [t]
    requires var p := queues[L := queues[L] + [k]];
      queues' == if r + 1 == PerDevice(c, s) && order != BottomToTop then p[L := SortList(tiles', order, center, p[L])] else p
    ensures Emitted(c, order, center, s, idx0, t0, k + 1, tiles', queues')
  {
    EmitUnsliced(c, order, center, s, idx0, t0, k, tiles, queues, t, L, r);
  }

  /** A finished slice: its queue is complete, and the next slice's queue is
      still empty. */
  lemma SliceDone(c: Split, order: TileOrder, center: Pos, t1: seq<Tile>, t2: seq<Tile>, s: nat)
    requires SplitValid(c) && s < SliceNum(c)
    requires !c.sliced ==> s == 0 && t1 == t2 && SliceCount(c, 0) <= |t1|
    ensures QueuesAt(c, order, center, t1, s, SliceCount(c, s)) == QueuesAt(c, order, center, t2, s + 1, 0)
  {
  }

  /** Once all tiles are dealt, every queue names only tiles. */
  lemma DealtQueuesBelow(tiles: seq<Tile>, order: TileOrder, center: Pos, per: nat, num: nat)
    requires per >= 1
    ensures QueuedBelow(DeviceQueues(tiles, order, center, per, |tiles|, num), |tiles|)
  {
    var q := DeviceQueues(tiles, order, center, per, |tiles|, num);
    forall d | 0 <= d < num
      ensures AllBelow(q[d], |tiles|)
    {
      assert q[d] == DeviceQueue(tiles, order, center, per, |tiles|, d);
    }
  }

  /** Every generated tile belongs to a device that has queues: sliced, its
      slice's; unsliced, its run's, and there are no more runs than devices. */
  lemma {:induction false} GenSlicesDevices(c: Split, n: nat)
    requires SplitValid(c) && n <= SliceNum(c)
    ensures DevicesBelow(GenSlices(c, n), c.num)
  {
    if n > 0 {
      GenSlicesDevices(c, n - 1);
      var t := GenSlices(c, n - 1);
      var r := GenSlices(c, n);
      forall j | 0 <= j < |r|
        ensures r[j].device < c.num
      {
        if j >= |t| {
          var k := j - |t|;
          assert r[j] == GenTile(c, n - 1, |t|, k);
          if !c.sliced {
            RunBelowNum(SliceCount(c, n - 1), c.num, k);
          }
        }
      }
    }
  }

  /** Slices start in order. */
  lemma {:induction false} SliceStartMonotone(c: Split, a: nat, b: nat)
    requires SplitValid(c) && a <= b <= SliceNum(c)
    ensures SliceStart(c, a) <= SliceStart(c, b)
    decreases b - a
  {
    if a < b {
      SliceStartMonotone(c, a + 1, b);
    }
  }

  /** Sliced, every queue names only generated tiles. */
  lemma SliceQueuesBelow(c: Split, order: TileOrder, center: Pos)
    requires SplitValid(c) && c.sliced
    ensures var tiles := GenSlices(c, SliceNum(c));
      QueuedBelow(FinalQueues(c, order, center, tiles), |tiles|)
  {
    var tiles := GenSlices(c, SliceNum(c));
    var q := FinalQueues(c, order, center, tiles);
    forall s, i | 0 <= s < |q| && 0 <= i < |q[s]|
      ensures q[s][i] < |tiles|
    {
      assert q[s] == Range(SliceStart(c, s), SliceCount(c, s));
      SliceStartMonotone(c, s + 1, SliceNum(c));
    }
  }

  /** The tiles and queues `gen_tiles` leaves satisfy the scheduler's
      invariant with `num` queues of each kind. */
  lemma GeneratedTilesValid(c: Split, order: TileOrder, center: Pos)
    requires SplitValid(c)
    ensures var tiles := GenSlices(c, SliceNum(c));
      !c.sliced ==> SliceCount(c, 0) <= |tiles|
    ensures var tiles := GenSlices(c, SliceNum(c));
      TilesValid(tiles, FinalQueues(c, order, center, tiles), seq(c.num, _ => []))
  {
    var tiles := GenSlices(c, SliceNum(c));
    GenSlicesDevices(c, SliceNum(c));
    if c.sliced {
      SliceQueuesBelow(c, order, center);
    } else {
      assert SliceNum(c) == 1 && GenSlices(c, 0) == [];
      assert tiles == SliceTiles(c, 0, 0);
      DealtQueuesBelow(tiles, order, center, PerDevice(c, 0), c.num);
    }
  }
}
