/**
 * The pixels of the tiles `gen_tiles` (intern/cycles/render/tile.cpp,
 * compiled out) generates: without slice overlap, every pixel of the image
 * lies in exactly one tile, and no tile reaches outside the image.
 *
 * The image is cut three times in the same way: into slices of
 * `image_h / slice_num` rows, each slice into rows of `tile_size.y`, and the
 * width into columns of `tile_size.x`. Each time the last piece takes what is
 * left over. `InCell` describes one such cut, and `InCellIff` finds the piece
 * a coordinate lies in.
 */
module TilePartition {
  import opened CInt
  import opened Tiles
  import opened TileGeneration
  import opened TileCoverage
  import TileGrid

  /** Pixel `(px, py)` lies in the tile's rectangle. */
  predicate Covers(t: Tile, px: int, py: int)
  {
    t.x <= px < t.x + t.w && t.y <= py < t.y + t.h
  }

  /** `v` lies in piece `k` of the `m` pieces cutting `[0, len)` into lengths
      of `d`, the last piece taking the rest. */
  predicate InCell(v: int, k: nat, d: nat, m: nat, len: int)
  {
    k * d <= v < k * d + (if k == m - 1 then len - k * d else d)
  }

  /** The piece a non-negative `v` falls in: `v / d`, or the last piece. */
  function CellOf(v: int, d: nat, m: nat): (k: nat)
    requires d >= 1 && m >= 1
    ensures k < m
  {
    if v < 0 then 0 else if v / d < m - 1 then v / d else m - 1
  }

  /** When the last piece is not empty, every `v` in `[0, len)` lies in
      exactly one piece, the one `CellOf` names, and nothing outside it lies
      in any. */
  lemma InCellIff(v: int, k: nat, d: nat, m: nat, len: int)
    requires d >= 1 && m >= 1 && (m - 1) * d < len && k < m
    ensures InCell(v, k, d, m, len) <==> 0 <= v < len && k == CellOf(v, d, m)
  {
    if InCell(v, k, d, m, len) {
      InCellIsCellOf(v, k, d, m, len);
    }
    if 0 <= v < len && k == CellOf(v, d, m) {
      CellOfIsInCell(v, d, m, len);
    }
  }

  /** A `v` in piece `k` is in `[0, len)`, and `CellOf` names `k`. */
  lemma InCellIsCellOf(v: int, k: nat, d: nat, m: nat, len: int)
    requires d >= 1 && m >= 1 && (m - 1) * d < len && k < m && InCell(v, k, d, m, len)
    ensures 0 <= v < len && k == CellOf(v, d, m)
  {
    MulMonotone(d, 0, k);
    var q := v / d;
    DivMod(v, d);
    if k < m - 1 {
      MulMonotone(d, k + 1, m - 1);
      DivUnique(v, d, k, v - k * d);
    } else if q < k {
      MulMonotone(d, q + 1, k);
    }
  }

  /** A `v` in `[0, len)` is in the piece `CellOf` names. */
  lemma CellOfIsInCell(v: int, d: nat, m: nat, len: int)
    requires d >= 1 && m >= 1 && (m - 1) * d < len && 0 <= v < len
    ensures InCell(v, CellOf(v, d, m), d, m, len)
  {
    var q := v / d;
    DivMod(v, d);
    if q >= m - 1 {
      MulMonotone(d, m - 1, q);
    }
  }

  /** The rectangle of tile `k` of slice `s`: column `k % tile_w` and row
      `k / tile_w` of the slice. */
  lemma GenTileRect(c: Split, s: nat, idx0: nat, k: nat)
    requires SplitValid(c) && s < SliceNum(c) && k < SliceCount(c, s)
    ensures var t, w, rows, span := GenTile(c, s, idx0, k), TileW(c), Rows(c, s), SliceSpan(c, s);
      var tx, ty := k % w, k / w;
      && t.x == tx * c.tileSizeX + 0
      && t.w == (if tx == w - 1 then c.imageW - tx * c.tileSizeX else c.tileSizeX)
      && t.y == ty * c.tileSizeY + span.start
      && t.h == (if ty == rows - 1 then span.size - ty * c.tileSizeY else c.tileSizeY)
  {
  }

  /** A tile of slice `s` in column `k % tile_w`, starting at `x` and `w`
      wide, spans the columns of piece `k % tile_w` of the image width. */
  lemma ColumnOf(c: Split, s: nat, k: nat, x: int, w: int, px: int)
    requires SplitValid(c) && s < SliceNum(c) && k < SliceCount(c, s)
    requires var tx := k % TileW(c);
      x == tx * c.tileSizeX + 0 && w == (if tx == TileW(c) - 1 then c.imageW - tx * c.tileSizeX else c.tileSizeX)
    ensures (x <= px < x + w) <==> 0 <= px < c.imageW && k % TileW(c) == CellOf(px, c.tileSizeX, TileW(c))
  {
    DivMod(k, TileW(c));
    TileWBounds(c);
    ShiftedCell(px, 0, k % TileW(c), c.tileSizeX, TileW(c), c.imageW, x, w);
  }

  /** A tile of slice `s` in row `k / tile_w`, starting at `y` and `h` high,
      spans the rows of piece `k / tile_w` of the slice. */
  lemma RowOf(c: Split, s: nat, k: nat, y: int, h: int, py: int)
    requires SplitValid(c) && s < SliceNum(c) && k < SliceCount(c, s)
    requires var ty, span := k / TileW(c), SliceSpan(c, s);
      y == ty * c.tileSizeY + span.start && h == (if ty == Rows(c, s) - 1 then span.size - ty * c.tileSizeY else c.tileSizeY)
    ensures var span := SliceSpan(c, s);
      (y <= py < y + h) <==>
        0 <= py - span.start < span.size && k / TileW(c) == CellOf(py - span.start, c.tileSizeY, Rows(c, s))
  {
    var span := SliceSpan(c, s);
    RowsBounds(c, s);
    GridRowCell(k, TileW(c), Rows(c, s), c.tileSizeY, span.start, span.size, y, h, py);
  }

  /** `ShiftedCell` for the row of index `k` in a grid `w` wide and `rows`
      high. */
  lemma GridRowCell(k: nat, w: nat, rows: nat, d: nat, base: int, len: int, y: int, h: int, v: int)
    requires w >= 1 && rows >= 1 && d >= 1 && k < w * rows && (rows - 1) * d < len
    requires y == (k / w) * d + base && h == (if k / w == rows - 1 then len - (k / w) * d else d)
    ensures (y <= v < y + h) <==> 0 <= v - base < len && k / w == CellOf(v - base, d, rows)
  {
    RowBelow(k, w, rows);
    ShiftedCell(v, base, k / w, d, rows, len, y, h);
  }

  /** The row of index `k` in a grid `w` wide and `rows` high is a row of the
      grid. */
  lemma RowBelow(k: nat, w: nat, rows: nat)
    requires w >= 1 && k < w * rows
    ensures k / w < rows
  {
    DivMod(k, w);
    MulMonotone(w, k / w + 1, rows);
  }

  /** `InCellIff` for piece `k` of a cut of `[base, base + len)`, the piece
      starting at `y` and `h` long. */
  lemma ShiftedCell(v: int, base: int, k: nat, d: nat, m: nat, len: int, y: int, h: int)
    requires d >= 1 && m >= 1 && (m - 1) * d < len && k < m
    requires y == k * d + base && h == (if k == m - 1 then len - k * d else d)
    ensures (y <= v < y + h) <==> 0 <= v - base < len && k == CellOf(v - base, d, m)
  {
    InCellIff(v - base, k, d, m, len);
  }

  /** Without overlap, slice `s` holds the image rows of piece `s` of the
      image height, cut into lengths of `image_h / slice_num`. */
  lemma SliceOf(c: Split, s: nat, py: int)
    requires SplitValid(c) && c.overlap == 0 && s < SliceNum(c)
    ensures SliceSpan(c, s).start == SliceHeight(c) * s
    ensures var span := SliceSpan(c, s);
      0 <= py - span.start < span.size <==> 0 <= py < c.imageH && s == CellOf(py, SliceHeight(c), SliceNum(c))
  {
    var n, u := SliceNum(c), SliceHeight(c);
    MulMonotone(u, n - 1, n);
    InCellIff(py, s, u, n, c.imageH);
  }

  /** Tile `k` of slice `s` holds a pixel exactly when the pixel is in the
      image, in slice `s`, and in the tile's row and column of that slice. */
  lemma GenTileCovers(c: Split, s: nat, idx0: nat, k: nat, px: int, py: int)
    requires SplitValid(c) && c.overlap == 0 && s < SliceNum(c) && k < SliceCount(c, s)
    ensures var n, u, w := SliceNum(c), SliceHeight(c), TileW(c);
      Covers(GenTile(c, s, idx0, k), px, py) <==>
        && 0 <= px < c.imageW && 0 <= py < c.imageH
        && s == CellOf(py, u, n)
        && k / w == CellOf(py - u * s, c.tileSizeY, Rows(c, s))
        && k % w == CellOf(px, c.tileSizeX, w)
  {
    var t := GenTile(c, s, idx0, k);
    GenTileRect(c, s, idx0, k);
    ColumnOf(c, s, k, t.x, t.w, px);
    RowOf(c, s, k, t.y, t.h, py);
    SliceOf(c, s, py);
  }

  /** The tiles of the first `m` slices begin the tiles of the first `n`. */
  lemma {:induction false} GenSlicesPrefix(c: Split, m: nat, n: nat)
    requires SplitValid(c) && m <= n <= SliceNum(c)
    ensures GenSlices(c, m) <= GenSlices(c, n)
    decreases n - m
  {
    if m < n {
      GenSlicesPrefix(c, m + 1, n);
      assert GenSlices(c, m + 1) == GenSlices(c, m) + SliceTiles(c, m, |GenSlices(c, m)|);
    }
  }

  /** Where tile `k` of slice `s` sits in the tiles of the first `n` slices. */
  lemma TileOfSlice(c: Split, n: nat, s: nat, k: nat)
    requires SplitValid(c) && s < n <= SliceNum(c) && k < SliceCount(c, s)
    ensures SliceStart(c, s) + k < SliceStart(c, n)
    ensures GenSlices(c, n)[SliceStart(c, s) + k] == SliceTiles(c, s, SliceStart(c, s))[k]
  {
    GenSlicesPrefix(c, s + 1, n);
    GenSlicesAt(c, s + 1, SliceStart(c, s) + k);
  }

  /** Tile `j` of the first `n` slices: one of the first `n - 1` slices, or
      of slice `n - 1`. */
  lemma GenSlicesAt(c: Split, n: nat, j: nat)
    requires SplitValid(c) && 0 < n <= SliceNum(c) && j < SliceStart(c, n)
    ensures SliceStart(c, n) == SliceStart(c, n - 1) + SliceCount(c, n - 1)
    ensures GenSlices(c, n)[j] ==
      if j < SliceStart(c, n - 1) then GenSlices(c, n - 1)[j]
      else SliceTiles(c, n - 1, SliceStart(c, n - 1))[j - SliceStart(c, n - 1)]
  {
  }

  /** The slice of the first `n` that tile `i` belongs to. */
  function SliceContaining(c: Split, n: nat, i: nat): (s: nat)
    requires SplitValid(c) && n <= SliceNum(c) && i < SliceStart(c, n)
    ensures s < n && SliceStart(c, s) <= i < SliceStart(c, s + 1)
  {
    SliceStartStep(c, n - 1);
    if i < SliceStart(c, n - 1) then SliceContaining(c, n - 1, i) else n - 1
  }

  /** The slice tile `i` of the first `n` slices belongs to, and its place
      in that slice. */
  lemma SliceOfIndex(c: Split, n: nat, i: nat) returns (s: nat)
    requires SplitValid(c) && n <= SliceNum(c) && i < SliceStart(c, n)
    ensures s < n && SliceStart(c, s) <= i < SliceStart(c, s) + SliceCount(c, s)
    ensures GenSlices(c, n)[i] == SliceTiles(c, s, SliceStart(c, s))[i - SliceStart(c, s)]
  {
    s := SliceContaining(c, n, i);
    SliceStartStep(c, s);
    TileOfSlice(c, n, s, i - SliceStart(c, s));
  }

  /** The index of the tile holding pixel `(px, py)`: its slice, then its
      row in the slice, then its column. */
  function PixelTile(c: Split, px: int, py: int): nat
    requires SplitValid(c)
  {
    var n, u, w := SliceNum(c), SliceHeight(c), TileW(c);
    var s := CellOf(py, u, n);
    SliceStart(c, s) + CellOf(py - u * s, c.tileSizeY, Rows(c, s)) * w + CellOf(px, c.tileSizeX, w)
  }

  /** A pixel of the image lies in the tile `PixelTile` names. */
  lemma PixelInItsTile(c: Split, px: int, py: int)
    requires SplitValid(c) && c.overlap == 0 && 0 <= px < c.imageW && 0 <= py < c.imageH
    ensures var tiles := GenSlices(c, SliceNum(c));
      PixelTile(c, px, py) < |tiles| && Covers(tiles[PixelTile(c, px, py)], px, py)
  {
    var n, u, w := SliceNum(c), SliceHeight(c), TileW(c);
    var s := CellOf(py, u, n);
    var ty, tx := CellOf(py - u * s, c.tileSizeY, Rows(c, s)), CellOf(px, c.tileSizeX, w);
    TileGrid.GridCell(w, Rows(c, s), ty, tx);
    var k := ty * w + tx;
    assert PixelTile(c, px, py) == SliceStart(c, s) + k;
    TileOfSlice(c, n, s, k);
    GenTileCovers(c, s, SliceStart(c, s), k, px, py);
  }

  /** A tile holding a pixel is the tile `PixelTile` names, and the pixel is
      in the image. */
  lemma OnlyItsTileHoldsPixel(c: Split, i: nat, px: int, py: int)
    requires SplitValid(c) && c.overlap == 0
    requires i < |GenSlices(c, SliceNum(c))| && Covers(GenSlices(c, SliceNum(c))[i], px, py)
    ensures 0 <= px < c.imageW && 0 <= py < c.imageH && i == PixelTile(c, px, py)
  {
    var n, u, w := SliceNum(c), SliceHeight(c), TileW(c);
    var s := SliceOfIndex(c, n, i);
    var k := i - SliceStart(c, s);
    GenTileCovers(c, s, SliceStart(c, s), k, px, py);
    DivMod(k, w);
    var ty, tx := k / w, k % w;
    assert k == ty * w + tx;
    assert PixelTile(c, px, py) == SliceStart(c, s) + ty * w + tx;
  }

  /** Without slice overlap the tiles `gen_tiles` generates partition the
      image: a pixel of the image lies in the tile `PixelTile` names, and any
      tile holding a pixel is that tile, the pixel being in the image. */
  lemma GeneratedTilesPartitionImage(c: Split, px: int, py: int)
    requires SplitValid(c) && c.overlap == 0
    ensures var tiles := GenSlices(c, SliceNum(c));
      && (0 <= px < c.imageW && 0 <= py < c.imageH ==>
            PixelTile(c, px, py) < |tiles| && Covers(tiles[PixelTile(c, px, py)], px, py))
      && (forall i :: 0 <= i < |tiles| && Covers(tiles[i], px, py) ==>
            0 <= px < c.imageW && 0 <= py < c.imageH && i == PixelTile(c, px, py))
  {
    if 0 <= px < c.imageW && 0 <= py < c.imageH {
      PixelInItsTile(c, px, py);
    }
    forall i | 0 <= i < |GenSlices(c, SliceNum(c))| && Covers(GenSlices(c, SliceNum(c))[i], px, py)
      ensures 0 <= px < c.imageW && 0 <= py < c.imageH && i == PixelTile(c, px, py)
    {
      OnlyItsTileHoldsPixel(c, i, px, py);
    }
  }
}
