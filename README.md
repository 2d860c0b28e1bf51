# Cycles tile scheduler and Blender's generational arena, in Dafny

This project models two sequential components of Blender and proves properties of them.

**The progressive tile scheduler of Cycles, `TileManager`** (intern/cycles/render/tile.cpp).
The compiled-in part is a small state machine over a handful of integer fields:

- `get_divider` picks the power-of-two resolution divider of the first pass;
- `reset` installs the start state of a render session;
- `set_samples` computes the progress denominator `total_pixel_samples`;
- `set_tiles` installs the buffer geometry at the current divider;
- `done` and `next` step through the session;
- `get_num_effective_samples` gives the samples per non-progressive step.

The class `Scheduler.TileManager` keeps the source's fields and updates them in place. Its methods are proved against the pure functions `ResetState`, `TotalPixelSamples`, `IsDone` and `Advance`. The module `SchedulerRuns` proves things about whole sessions:

- every `next()` makes progress, so the host's `while (next())` loop ends;
- in two common configurations, `total_pixel_samples` equals the pixel samples the session actually renders.

The same file has a larger tile layer that the source compiles out with `#if 0`. It is modelled as well, as the class `TileSchedule.TileSchedule`:

- the tile comparator and the stable list sort (`TileOrdering`);
- `hilbert_index_to_pos` (`Hilbert`);
- tile generation (`gen_tiles`, with its row-major tile grid and its per-device render queues; `TileGeneration`, `TileDealing`, `TileCoverage`);
- the 3x3 neighbourhood and the per-tile state machine of `finish_tile` (`TileGrid`);
- the per-device FIFO pop of `next_tile` (`TileQueues`);
- `gen_render_tiles`, `has_tiles` and `device_free`.

The main results about generation are `TileCoverage.GeneratedTilesQueuedOnce` and `TilePartition.GeneratedTilesPartitionImage`. The render queues together hold every generated tile exactly once, and when the image is sliced they hold the tiles in index order. Without slice overlap, which the source never sets, every pixel of the image lies in exactly one tile.

`get_neighbor_index` does not see the slices `gen_tiles` made. It assumes every slice has the tile rows of the regular height `image_h / slice_num`. The last slice takes the rows left over and can have more tile rows, and so can a slice widened by an overlap. The generated tiles therefore cover the neighbour grid (`TileSchedule.GeneratedTilesFitGrid`), but there can be tiles past it (`TileSchedule.TailTileExample`). Such a tile is nobody's neighbour, not even its own neighbour 4. With denoising scheduled, `finish_tile` leaves it RENDERED: it is never promoted to DENOISE, never released, and never marked for deletion (`TileGrid.PastGridUntouched`). It still has neighbours of its own: a tail tile in the first row past the grid sees the last grid row above it. So when it finishes rendering, the promotion loop runs over those tiles. The loop only asks that their neighbourhoods be at least RENDERED, and their neighbourhoods do not contain the tail tile. A neighbour that is already DENOISE, DENOISED or DONE, with its buffers possibly deleted, is therefore set back to DENOISE and queued for denoising again (`TileSchedule.TailTileRepromotesNeighbor`). The model reproduces all of this as the source has it.

**The generational arena, `blender::generational_arena::Arena`** (source/blender/blenlib/BLI_generational_arena.hh).
It is a growable vector of slots. Each slot is free (`EntryNoExist`, naming the next free slot) or occupied (`EntryExist`, holding a value and a generation). A free list is threaded through the free slots.

The class `GenerationalArena.Arena` keeps `data`, `next_free_head`, `generation` and `length`. A ghost sequence `free` lists the free list in order. The invariant `ArenaSlots.SlotsValid` states that:

- the free list is chained through `next_free`, ends in nullopt and has no repeats;
- it holds exactly the free slots;
- `length` is the number of occupied slots;
- no generation is newer than the arena's.

`reserve`, `try_insert` and `insert` keep this invariant. Every lookup that found a value before any of them still finds the same value afterwards.

Integers are unbounded in the model. Where the source's C `int` arithmetic could overflow (`w * h`, `start_resolution * start_resolution`), the inputs are bounded so that it does not. The one place where wrap-around matters, the `uint64_t` loop bound of `reserve`, is written out explicitly. C's truncating division is written out as `CInt.CDiv` where an operand can be negative (`full_x`, `full_y`).

## Model

| member | source | states |
|---|---|---|
| ResolutionDivider.GetDivider | intern/cycles/render/tile.cpp:147-159 | The halving loop returns `Divider(w, h, start_resolution)`: a power of two, and exactly 1 for the unlimited start resolution `INT_MAX` |
| ResolutionDivider.StepsIsLeastFit | intern/cycles/render/tile.cpp:150-156 | The number of doublings is the least k for which the image, halved k times and clamped to 1 per side, fits into `start_resolution` squared pixels |
| ResolutionDivider.DividerIsLeastFittingPowerOfTwo | intern/cycles/render/tile.cpp:147-159 | The divider is 2^k for that least fitting k, or 1 when the start resolution is unlimited |
| ResolutionDivider.DividerIsPowerOfTwo | intern/cycles/render/tile.cpp:147-159 | The divider is always a power of two, at least 1 |
| Scheduler.EffectiveSamples | intern/cycles/render/tile.cpp:644-647 | The samples of a step: the whole sample count without a sample range, else the range length; never negative |
| Scheduler.Dim | intern/cycles/render/tile.cpp:199-200 | `max(1, x / d)` is at least 1, is the quotient when `x >= d`, and is 1 when `x < d` |
| Scheduler.Geometry | intern/cycles/render/tile.cpp:402-419 | The buffer at a divider: width and height are `Dim` of the image sides; `full_width`/`full_height` are at least 1 and the quotient when it is positive; `full_x`/`full_y` are the quotient for a non-negative offset |
| Scheduler.FinalDivider | intern/cycles/render/tile.cpp:198-203 | The halving loop of `set_samples` stops at a divider between 1 and `pixel_size`, and at the start divider when that is already at most `pixel_size` |
| Scheduler.ResetState | intern/cycles/render/tile.cpp:161-182 | The state `reset` installs is well formed |
| Scheduler.Advance | intern/cycles/render/tile.cpp:608-642 | A step never goes below `pixel_size`, never raises the divider, either restarts the sample at 0 or increments it by one, and keeps `total_pixel_samples` |
| Scheduler.TileManager.constructor | intern/cycles/render/tile.cpp:91-127 | Stores the flags and sizes, sets `slice_overlap = 0` and the empty sample range, then resets with default buffer parameters and 0 samples |
| Scheduler.TileManager.Reset | intern/cycles/render/tile.cpp:161-182 | Stores the parameters and sample count; `sample == range_start_sample - 1`, `num_samples == 0`, `resolution_divider == get_divider(width, height, start_resolution)`, and the default buffer |
| Scheduler.TileManager.SetSamples | intern/cycles/render/tile.cpp:184-216 | The coarse-pass loop over halving dividers leaves `total_pixel_samples == TotalPixelSamples`: 0 for `INT_MAX` samples, else the coarse areas plus effective samples times the final area; nothing else changes |
| Scheduler.TileManager.SetTiles | intern/cycles/render/tile.cpp:402-419 | Only the buffer changes, to the geometry at the current divider; its width, height, full width and full height are at least 1 |
| Scheduler.TileManager.Done | intern/cycles/render/tile.cpp:588-594 | Holds iff the divider is `pixel_size` and `sample + num_samples` reaches the end sample (`num_samples`, or the end of the range) |
| Scheduler.TileManager.Next | intern/cycles/render/tile.cpp:608-642 | Returns false and changes nothing iff `done()`. A coarse progressive step sets sample 0, halves the divider (not below `pixel_size`, strictly smaller), uses one sample and installs the new geometry. Any other step increments the sample, sets the step's samples (1 / `num_samples` / range length) and the divider `pixel_size`, and installs the geometry only at `range_start_sample` |
| Scheduler.TileManager.GetNumEffectiveSamples | intern/cycles/render/tile.cpp:644-647 | `num_samples` without a sample range, the range length with one; never negative |
| SchedulerRuns.AdvanceMakesProgress | intern/cycles/render/tile.cpp:608-642 | Every successful `next()` brings the divider closer to `pixel_size` or, at `pixel_size`, the sample closer to the end: a session ends |
| SchedulerRuns.FinalDividerOfPowers | intern/cycles/render/tile.cpp:198-203 | With a power-of-two divider and pixel size, the halving loop stops exactly at `pixel_size` |
| SchedulerRuns.CoarsePhase | intern/cycles/render/tile.cpp:613-618 | From a coarse power-of-two divider, the rest of a progressive session renders one sample at every coarser divider, then `num_samples` full-resolution samples |
| SchedulerRuns.FullResolutionPhase | intern/cycles/render/tile.cpp:619-630 | At `pixel_size` with one sample per step, the remaining steps render `num_samples - 1 - sample` full-resolution images |
| SchedulerRuns.FirstStepAtPixelSize | intern/cycles/render/tile.cpp:619-633 | A progressive session starting at or below `pixel_size` renders `num_samples` full-resolution images |
| SchedulerRuns.ProgressiveEstimateIsExact | intern/cycles/render/tile.cpp:184-216 | Progressive, no sample range, power-of-two pixel size: `total_pixel_samples` equals the pixel samples rendered from `reset()` until `done()` |
| SchedulerRuns.NonProgressiveEstimateIsExact | intern/cycles/render/tile.cpp:184-216 | Non-progressive, first divider at most twice `pixel_size`: the single step renders exactly `total_pixel_samples` pixel samples |
| SchedulerRuns.ViewportSessionScenario | intern/cycles/render/tile.cpp:608-642 | A 64x64 session with start resolution 32 starts at divider 2, then takes exactly four steps (samples 0 to 3 at full resolution) until `done()`, and estimates 4 * 64 * 64 pixel samples |
| TileOrdering.PrecedesIsKeyOrder | intern/cycles/render/tile.cpp:35-56 | Each case of the comparator compares a two-part key of the tiles lexicographically |
| TileOrdering.PrecedesIsStrictWeakOrder | intern/cycles/render/tile.cpp:35-56 | The comparator is irreflexive and transitive, and incomparability is transitive: the strict weak order a list sort requires |
| TileOrdering.AxisOrdersAreTotal | intern/cycles/render/tile.cpp:45-55 | Every order other than `TILE_CENTER` ranks any two tiles at different corners |
| TileOrdering.Insert | intern/cycles/render/tile.cpp:375 | Inserting into a sorted queue keeps it sorted and adds exactly the one tile |
| TileOrdering.SortList | intern/cycles/render/tile.cpp:375 | The sorted queue is a permutation of the queue and is ordered by the comparator |
| TileOrdering.SortListOfPrefix | intern/cycles/render/tile.cpp:364-375 | Sorting a queue depends only on the tiles it names: tiles pushed later do not change it |
| Hilbert.HilbertIndexToPos | intern/cycles/render/tile.cpp:63-79 | The loop over doubling block sizes returns `HilbertFrom(1, n, d, (0, 0))` |
| Hilbert.StepInBlock | intern/cycles/render/tile.cpp:66-76 | One round maps a position inside an s-block into the 2s-block |
| Hilbert.StepInjective | intern/cycles/render/tile.cpp:66-76 | One round is injective in the quadrant digit and the position |
| Hilbert.HilbertFromInBlock | intern/cycles/render/tile.cpp:63-79 | Positions computed up to block size n lie inside the n-block |
| Hilbert.HilbertFromInjective | intern/cycles/render/tile.cpp:63-79 | Distinct indices below the block's area give distinct positions |
| Hilbert.HilbertInjectiveIntoBlock | intern/cycles/render/tile.cpp:63-79 | For n a power of two, the first n*n indices land inside the n x n block, and no two of them on the same cell |
| Hilbert.HilbertBlockOfEightStart | intern/cycles/render/tile.cpp:63-79 | In an 8x8 block the curve starts at (0,0), (0,1), (1,1) |
| Hilbert.HilbertBlockOfEightEnd | intern/cycles/render/tile.cpp:63-79 | In an 8x8 block the curve ends at (7,0) |
| TileGeneration.SliceNum | intern/cycles/render/tile.cpp:229-230 | The number of slices is between 1 and the image height |
| TileGeneration.TileW | intern/cycles/render/tile.cpp:231 | The number of tiles per row is at least 1 |
| TileGeneration.TileWBounds | intern/cycles/render/tile.cpp:231 | The tiles per row cover the image width, and no tile column is left entirely outside it |
| TileGeneration.SliceHeight | intern/cycles/render/tile.cpp:342-343 | The regular slice height is at least 1 and the slices fit into the image height |
| TileGeneration.SliceSpan | intern/cycles/render/tile.cpp:342-350 | Each slice, grown by the overlap, is a non-empty row span inside the image |
| TileGeneration.Rows | intern/cycles/render/tile.cpp:352 | A slice has at least one tile row |
| TileGeneration.RowsBounds | intern/cycles/render/tile.cpp:352 | The tile rows cover the slice height, and no tile row is entirely outside it |
| TileGeneration.SliceCount | intern/cycles/render/tile.cpp:352-354 | A slice has at least one tile |
| TileGeneration.RegularRows | intern/cycles/render/tile.cpp:439-443 | The tile rows per slice that `get_neighbor_index` assumes, from the regular slice height: at least 1 |
| TileGeneration.SliceAtLeastRegular | intern/cycles/render/tile.cpp:342-350 | No slice, the last one and overlapping ones included, is lower than `image_h / slice_num` |
| TileGeneration.RowsAtLeastRegular | intern/cycles/render/tile.cpp:342-352 | Every slice has at least the tile rows `get_neighbor_index` assumes |
| TileGeneration.PerDevice | intern/cycles/render/tile.cpp:354 | `tiles_per_device` is at least 1 |
| TileGeneration.PerDeviceCovers | intern/cycles/render/tile.cpp:354 | The per-device runs together cover all tiles of the slice |
| TileGeneration.TileAt | intern/cycles/render/tile.cpp:359-365 | The tile at row y and column x of a slice has index `idx`, corner `(x * size, y * size + slice_y)`, the remainder as size in the last column or row, the slice (sliced) or the run's device (unsliced) as device, and state RENDER |
| TileGeneration.SliceTiles | intern/cycles/render/tile.cpp:357-367 | A slice contributes one tile per grid cell, in row-major order |
| TileGeneration.GenSlices | intern/cycles/render/tile.cpp:340-389 | The generated tiles sit at their own index in `state.tiles` |
| TileGeneration.QueuesAt | intern/cycles/render/tile.cpp:366-385 | There is one render queue per device at every point of the generation |
| TileGeneration.SlicedPush | intern/cycles/render/tile.cpp:366 | Sliced: each new tile is appended to the current slice's queue only |
| TileGeneration.UnslicedRun | intern/cycles/render/tile.cpp:366-378 | Unsliced: the current device's queue is the run of indices dealt to it so far |
| TileGeneration.UnslicedPush | intern/cycles/render/tile.cpp:366-378 | Unsliced: a new tile is appended to the current device's queue, which is sorted (except bottom-to-top) once it holds `tiles_per_device` tiles |
| TileGeneration.GenSlicesDevices | intern/cycles/render/tile.cpp:364-365 | Every generated tile's device names one of the render queues |
| TileGeneration.GeneratedTilesValid | intern/cycles/render/tile.cpp:340-389 | After generation, the tiles, render queues and empty denoising queues satisfy the tile layer's invariant |
| TileDealing.DeviceQueues | intern/cycles/render/tile.cpp:366-378 | The unsliced queues after k tiles have one entry per device, the queue of device d being its dealt run |
| TileDealing.DealOne | intern/cycles/render/tile.cpp:366-378 | Dealing tile k changes only the queue of its run, appends k to it, and sorts it when the run is full; the run index stays below the number of queues |
| TileDealing.RunBelowNum | intern/cycles/render/tile.cpp:354-378 | With `divide_up(total, num)` tiles per device, the device counter stays below `num` |
| TileCoverage.SlicesCoverRegularRows | intern/cycles/render/tile.cpp:340-389 | The first n slices hold at least `tile_w * (tile_h * n)` tiles, with `tile_h` as `get_neighbor_index` computes it |
| TileCoverage.SlicedQueuesInOrder | intern/cycles/render/tile.cpp:364-385 | Sliced: the queues, one after the other, list the tile indices 0, 1, ... in order |
| TileCoverage.DealtQueuesHoldEachOnce | intern/cycles/render/tile.cpp:366-378 | Unsliced: the sorted runs together hold each index below the tile count exactly once |
| TileCoverage.UnslicedQueuesHoldEachOnce | intern/cycles/render/tile.cpp:340-389 | Unsliced: the final queues hold each generated tile exactly once |
| TileCoverage.GeneratedTilesQueuedOnce | intern/cycles/render/tile.cpp:222-389 | After `gen_tiles`, the render queues together hold every generated tile exactly once, and in index order when sliced |
| TilePartition.InCellIff | intern/cycles/render/tile.cpp:231 | Cutting `[0, len)` into pieces of `d` with the last piece taking the rest, a coordinate lies in piece k iff it is in `[0, len)` and k is `min(v / d, m - 1)` |
| TilePartition.ColumnOf | intern/cycles/render/tile.cpp:359-363 | A tile spans exactly the image columns of its column piece |
| TilePartition.RowOf | intern/cycles/render/tile.cpp:352-363 | A tile spans exactly the slice rows of its row piece |
| TilePartition.SliceOf | intern/cycles/render/tile.cpp:342-344 | Without overlap, a slice spans exactly the image rows of its piece of `image_h / slice_num` rows |
| TilePartition.GenTileCovers | intern/cycles/render/tile.cpp:342-363 | A generated tile holds a pixel iff the pixel is in the image and in the tile's slice, row and column |
| TilePartition.TileOfSlice | intern/cycles/render/tile.cpp:340-389 | Tile k of slice s is at index `slice_start + k` of the generated tiles |
| TilePartition.SliceOfIndex | intern/cycles/render/tile.cpp:340-389 | Every generated tile is tile `i - slice_start` of some slice holding index i |
| TilePartition.PixelInItsTile | intern/cycles/render/tile.cpp:340-389 | Without overlap, every pixel of the image lies in the generated tile `PixelTile` names |
| TilePartition.OnlyItsTileHoldsPixel | intern/cycles/render/tile.cpp:340-389 | Without overlap, a generated tile holding a pixel is that tile, and the pixel is in the image |
| TilePartition.GeneratedTilesPartitionImage | intern/cycles/render/tile.cpp:222-389 | Without overlap, the generated tiles partition the image: every image pixel lies in exactly one tile, and no tile reaches outside the image |
| TileQueues.FirstNonEmpty | intern/cycles/render/tile.cpp:536-550 | The scan finds the first non-empty queue from `from` on, or none iff all are empty |
| TileQueues.PickQueue | intern/cycles/render/tile.cpp:530-550 | With device preservation, only the device's own queue can be picked, iff it is non-empty; otherwise the first non-empty queue, none iff all are empty |
| TileQueues.PopFront | intern/cycles/render/tile.cpp:536-550 | Pops the front of the picked queue, or changes nothing when no queue is picked |
| TileQueues.PopHandsOutOne | intern/cycles/render/tile.cpp:547-548 | A pop removes exactly the tile it returns from the queued tiles |
| TileQueues.PopKeepsBound | intern/cycles/render/tile.cpp:547-553 | The popped index names a tile, and the queues still name tiles only |
| TileQueues.OnDevice | intern/cycles/render/tile.cpp:490 | Keeps exactly the indices of tiles owned by the device |
| TileQueues.IndicesOnDevice | intern/cycles/render/tile.cpp:395-398 | The indices of exactly the tiles owned by the device |
| TileGrid.NeighborIndex | intern/cycles/render/tile.cpp:422-450 | -1 for a neighbour outside the grid, else a cell of the grid whose column and row are those of the tile shifted by the neighbour's offset |
| TileGrid.NeighborCenter | intern/cycles/render/tile.cpp:422-450 | Neighbour 4 of a grid position is the position itself |
| TileGrid.PastGridNoNeighbor | intern/cycles/render/tile.cpp:444-449 | An index at or past `tile_w * tile_h * slice_num` is no tile's neighbour, and its own neighbour 4 is -1 |
| TileGrid.PastGridUntouched | intern/cycles/render/tile.cpp:483-518 | A tile past the grid is left as it was by every promotion and release loop, and finishing its denoising never reports `delete_tile` |
| TileGrid.NeighborSymmetric | intern/cycles/render/tile.cpp:422-450 | Neighbour `8 - k` of neighbour k is the tile back |
| TileGrid.NeighborsDistinct | intern/cycles/render/tile.cpp:422-450 | Two different in-grid neighbours are different tiles |
| TileGrid.NeighborhoodDependsOnReached | intern/cycles/render/tile.cpp:454-468 | `check_neighbor_state` depends only on which tiles have reached the state |
| TileGrid.PromoteFrom | intern/cycles/render/tile.cpp:486-492 | The promotion loop changes only tile states, keeps one denoising queue per device, and queues only tiles |
| TileGrid.PromotedFrom | intern/cycles/render/tile.cpp:486-492 | The loop promotes exactly the neighbours whose own neighbourhood is at least RENDERED |
| TileGrid.PromoteFromTiles | intern/cycles/render/tile.cpp:486-492 | Exactly those neighbours become DENOISE; every other tile is unchanged |
| TileGrid.PromoteFromQueues | intern/cycles/render/tile.cpp:486-492 | Each device's denoising queue gains exactly the promoted tiles it owns, in loop order |
| TileGrid.PromoteExactly | intern/cycles/render/tile.cpp:483-493 | The whole loop promotes exactly the tiles of the 3x3 neighbourhood that are RENDERED with their own neighbourhood, sets them to DENOISE and enqueues them on their owner's queue |
| TileGrid.ReleaseFrom | intern/cycles/render/tile.cpp:499-517 | The release loop changes tile states and buffers only |
| TileGrid.ReleaseFromResult | intern/cycles/render/tile.cpp:499-517 | Exactly the neighbours whose neighbourhood is DENOISED become DONE; outside progressive mode the others' buffers are deleted and the tile itself is marked for deletion |
| TileGrid.ReleaseExactly | intern/cycles/render/tile.cpp:496-518 | The whole loop sets to DONE exactly the tiles of the neighbourhood that are DENOISED with theirs, frees the buffers of those other than the tile (not progressive), and reports `delete_tile` iff the tile's own neighbourhood is DENOISED (not progressive) |
| TileSchedule.NeighborLayout | intern/cycles/render/tile.cpp:432-441 | The grid of `get_neighbor_index` has at least one tile per row, one row per slice and one slice, with the given stride |
| TileSchedule.AllRender | intern/cycles/render/tile.cpp:395-396 | Every tile is reset to RENDER, nothing else changes |
| TileSchedule.TileSchedule.constructor | intern/cycles/render/tile.cpp:91-127 | The tile layer starts with no tiles, no queues, no scheduled denoising and no slice overlap |
| TileSchedule.TileSchedule.DeviceFree | intern/cycles/render/tile.cpp:134-144 | Clears the tile list |
| TileSchedule.TileSchedule.ResetTiles | intern/cycles/render/tile.cpp:170-181 | `reset`'s compiled-out part: no tiles and no queues |
| TileSchedule.TileSchedule.CheckNeighborState | intern/cycles/render/tile.cpp:454-468 | True iff the index is a tile and it and every in-grid neighbour have reached `min_state` |
| TileSchedule.TileSchedule.FinishTile | intern/cycles/render/tile.cpp:472-524 | RENDER without scheduled denoising becomes DONE, returns true and deletes iff not progressive. RENDER with denoising becomes RENDERED, returns false, and the result is `PromoteFrom` over its neighbour indices. DENOISE becomes DENOISED, returns true, and the result is `ReleaseFrom` over them. A tile past the grid is never itself promoted or released, but it can promote its in-grid neighbours, even ones already past DENOISE |
| TileSchedule.TileSchedule.PromoteNeighbors | intern/cycles/render/tile.cpp:486-492 | The loop's result is `PromoteFrom` on the old tiles and queues |
| TileSchedule.TileSchedule.ReleaseNeighbors | intern/cycles/render/tile.cpp:499-517 | The loop's result is `ReleaseFrom` on the old tiles |
| TileSchedule.TileSchedule.NextTile | intern/cycles/render/tile.cpp:526-585 | A denoising request pops the picked denoising queue first; otherwise a path-trace request pops the picked render queue; otherwise nothing changes and no tile is returned. The returned index names a tile |
| TileSchedule.TileSchedule.GenTiles | intern/cycles/render/tile.cpp:222-389 | Installs the generated tiles, their final render queues, empty denoising queues and `tile_stride = tile_w`, and returns the tile count; sliced exactly when not in the background, the tiles cover the grid of `get_neighbor_index`; that these tiles partition the image is `TilePartition.GeneratedTilesPartitionImage` |
| TileSchedule.SplitFor | intern/cycles/render/tile.cpp:224-229 | The quantities `gen_tiles(!background)` cuts the image with are valid, and slice iff not in the background |
| TileSchedule.GeneratedTilesFitGrid | intern/cycles/render/tile.cpp:432-443 | For `gen_tiles(!background)`, the grid of `get_neighbor_index` has the tiles' columns, one slice per slice and the regular tile rows, and the generated tiles fill at least that grid |
| TileSchedule.TailTileExample | intern/cycles/render/tile.cpp:432-449 | A 1 x 5 image on two devices in 1 x 1 tiles: five tiles, a grid of four, and the fifth tile's neighbour 4 is -1 |
| TileSchedule.TailTileRepromotesNeighbor | intern/cycles/render/tile.cpp:483-493 | In that grid, with tiles 0 to 3 DONE, finishing the render of tail tile 4 sets tile 3 back to DENOISE and queues it on device 1 again |
| TileSchedule.TileSchedule.GenSliceLoop | intern/cycles/render/tile.cpp:340-387 | The slice loop produces all slices' tiles and the final queues |
| TileSchedule.TileSchedule.GenSlice | intern/cycles/render/tile.cpp:341-386 | One slice appends its tiles and advances the queues to the next slice |
| TileSchedule.TileSchedule.TileRows | intern/cycles/render/tile.cpp:357-382 | The row loop emits the whole slice |
| TileSchedule.TileSchedule.TileRow | intern/cycles/render/tile.cpp:358-381 | The column loop emits one row of tiles |
| TileSchedule.TileSchedule.EmitTile | intern/cycles/render/tile.cpp:359-380 | One body of the column loop emits the next tile and keeps the device counters in step |
| TileSchedule.TileSchedule.PushSliced | intern/cycles/render/tile.cpp:364-366 | Sliced: appends the tile and its index on the slice's queue |
| TileSchedule.TileSchedule.PushUnsliced | intern/cycles/render/tile.cpp:364-378 | Unsliced: appends the tile and its index on the current device's queue, sorts and moves on when the run is full |
| TileSchedule.TileSchedule.GenRenderTiles | intern/cycles/render/tile.cpp:392-399 | Every tile is set to RENDER and each device's queue gains the indices of its tiles |
| TileSchedule.TileSchedule.HasTiles | intern/cycles/render/tile.cpp:597-605 | True iff some tile is not DONE |
| ArenaSlots.Get | source/blender/blenlib/BLI_generational_arena.hh:239-265 | A value iff the index is in range, the slot is occupied and its generation matches; then it is the slot's value |
| ArenaSlots.GetNoGen | source/blender/blenlib/BLI_generational_arena.hh:267-285 | Nullopt iff the index is out of range; otherwise the slot |
| ArenaSlots.GetNoGenIndex | source/blender/blenlib/BLI_generational_arena.hh:287-301 | An index iff the slot is in range and occupied; then it carries the slot's generation |
| ArenaSlots.GetNoGenIndexMatchesGet | source/blender/blenlib/BLI_generational_arena.hh:239-301 | The index `get_no_gen_index` returns looks up the slot's value with `get`, and every index `get` accepts is the one `get_no_gen_index` returns |
| ArenaSlots.CountOccupiedFill | source/blender/blenlib/BLI_generational_arena.hh:203-213 | Filling a free slot adds exactly one occupied slot |
| ArenaSlots.GrownShape | source/blender/blenlib/BLI_generational_arena.hh:172-193 | A capacity below the size changes nothing; otherwise the size becomes `max(new_cap, size + 1)` by appending free slots only |
| ArenaSlots.ReserveKeepsInvariant | source/blender/blenlib/BLI_generational_arena.hh:178-193 | Growing keeps the arena invariant, with the new slots in order at the front of the free list |
| ArenaSlots.FillKeepsInvariant | source/blender/blenlib/BLI_generational_arena.hh:199-215 | The free head is a free slot; filling it keeps the invariant, with the free list's tail as the new list and one more occupied slot |
| ArenaSlots.GetStableUnderGrowth | source/blender/blenlib/BLI_generational_arena.hh:178-193 | Growing changes no successful lookup |
| ArenaSlots.GetStableUnderFill | source/blender/blenlib/BLI_generational_arena.hh:200-215 | Filling a free slot changes no successful lookup |
| ArenaSlots.NoFreeHeadIffFull | source/blender/blenlib/BLI_generational_arena.hh:199-216 | Under the invariant, `next_free_head` is nullopt iff every slot is occupied |
| GenerationalArena.AsWrittenReserveAgreesForPositiveCapacity | source/blender/blenlib/BLI_generational_arena.hh:188-191 | For every capacity above 0 the loop as written appends what the corrected reserve appends |
| GenerationalArena.AsWrittenReserveZeroOnEmptyArenaWraps | source/blender/blenlib/BLI_generational_arena.hh:186-191 | `reserve(0)` on an empty arena, reached from `Arena(0)` and from `insert` on an empty arena, would append 2^64 slots as written |
| GenerationalArena.ChainedSlots | source/blender/blenlib/BLI_generational_arena.hh:188-190 | The loop appends the free slots `start .. new_cap - 2`, each naming the next |
| GenerationalArena.Arena.constructor | source/blender/blenlib/BLI_generational_arena.hh:155 | An empty arena with no free head, generation 0 and length 0 |
| GenerationalArena.Arena.WithCapacity | source/blender/blenlib/BLI_generational_arena.hh:157-160 | With the corrected `reserve`: `max(size, 1)` slots, all free, free head 0 (for `size == 0` see Findings) |
| GenerationalArena.Arena.Reserve | source/blender/blenlib/BLI_generational_arena.hh:172-193 | Nothing changes below the size; otherwise the size becomes `max(new_cap, size + 1)`, the new slots are chained in order in front of the old free list and the head is the old size; lookups are kept |
| GenerationalArena.Arena.TryInsert | source/blender/blenlib/BLI_generational_arena.hh:197-217 | Nullopt iff the arena is full, changing nothing; else the head slot becomes occupied with the value and the current generation, the head moves to its `next_free`, the length grows by one and the returned index looks the value up; lookups are kept |
| GenerationalArena.Arena.Insert | source/blender/blenlib/BLI_generational_arena.hh:219-237 | Always returns an index that looks up the value, with the current generation; the length grows by one; lookups are kept; a full arena first grows to `max(2 * size, size + 1)` slots |

## Left out

- I/O, devices, locking and render buffers are not modelled. A tile's buffer deletion is a `freed` flag. `device_free` only clears the tile list, because the buffer deletes it does first are memory management.
- The scheduler's `TileManager` is split in two classes. `Scheduler.TileManager` has the compiled-in fields. `TileSchedule.TileSchedule` has the fields of the `#if 0` layer, plus copies of the live fields it reads (`progressive`, `params`, the divider), which stay fixed while a pass's tiles exist. So `reset`, `set_tiles` and `next` do not call the compiled-out `device_free`, `gen_tiles` and `gen_render_tiles`. Those are methods of the second class.
- The `#if 0` addition of `params.width * params.height` to `total_pixel_samples` when denoising is scheduled (intern/cycles/render/tile.cpp:210-214) is not modelled, since the live class has no `schedule_denoising`.
- C `int` overflow is excluded, not modelled. `ValidParams` bounds `width * height` by `INT_MAX`. `ValidStartResolution` bounds `start_resolution` squared the same way.
- ResolutionDivider.GetDivider: requires `start_resolution != 0`, because the source's loop never ends for 0 on a non-empty image.
- Scheduler.TileManager.constructor: requires `pixel_size >= 1` and `num_samples >= 0`. A zero pixel size divides by zero in `set_samples`.
- Scheduler.TileManager.Reset: requires non-negative image sizes. Negative widths are not modelled.
- The 64-bit `uint64_t` accumulation in `set_samples` is exact in the model. Under the size bounds it does not overflow.
- TileSchedule.TileSchedule.GenTiles: requires `tile_order != TILE_HILBERT_SPIRAL`. The Hilbert-spiral branch of `gen_tiles` (intern/cycles/render/tile.cpp:242-338) is not modelled. `hilbert_index_to_pos`, which it uses, is.
- TileSchedule.TileSchedule.constructor: requires `num_devices >= 1`, tile sizes of at least 1 and a divider of at least 1 (`GeometryValid`). In the source a zero tile size divides by zero in `gen_tiles` (intern/cycles/render/tile.cpp:231, 352), and zero devices do at line 354.
- TileSchedule.TileSchedule.GenTiles: requires `slice_overlap >= 0`. The source only ever sets it to 0. The pixel partition is proved for overlap 0 only, because overlapping slices share rows by design.
- TileSchedule.TileSchedule.FinishTile: requires the tile to be RENDER or DENOISE. For any other state the source's `default:` branch asserts.
- TileOrdering.Precedes: `TILE_CENTER` compares exact integer squared distances. The source compares `float2` dot products, which can round for very large images.
- TileOrdering.SortList: the permutation and the order are proved. Stability, which `std::list::sort` also gives, is not.
- `next_tile`'s `tile_types` bit mask is two booleans, and the returned `Tile *` is the tile's index.
- intern/cycles/render/tile.h is not part of this model. The order of `Tile::State` is taken as declared there: RENDER < RENDERED < DENOISE < DENOISED < DONE. The `Tile` constructor is taken to store its arguments.
- The loop bodies of `gen_tiles`, `finish_tile` and `next_tile` are split into helper methods (`GenSlice`, `TileRows`, `TileRow`, `EmitTile`, `PromoteNeighbors`, `ReleaseNeighbors`, `PopFront`). Each states its part of the loop.
- TileGeneration.TileW and TileGeneration.Rows: their contracts say only "at least 1". The bounds relating them to the image are the lemmas `TileWBounds` and `RowsBounds`.
- TileSchedule.TileSchedule.GenTiles: its contract gives the tiles and queues as functions. That the queues hold every tile exactly once is the lemma `TileCoverage.GeneratedTilesQueuedOnce` about those functions.
- ArenaSlots.Get: the source compares `index.generation` with the whole slot variant (source/blender/blenlib/BLI_generational_arena.hh:246, 260), which does not type-check. The model compares it with the occupied slot's generation, as the class comment at lines 47-51 describes, and it treats a free slot as no value.
- ArenaSlots.GetNoGen: returns the slot itself, free or occupied, as the source's reference to `data[index]` does.
- `remove` and generation bumping are described in the class comment but not implemented in the source, so they are not modelled. `generation` stays 0 throughout.
- GenerationalArena.Arena.constructor: `generation` and `length` start at 0. The source leaves them to default initialisation.
- Indices, generations and lengths are unbounded naturals, not `uint64_t`. Only the `new_cap - 1` wrap-around of `reserve` is modelled at 64 bits.
- The `InlineBufferCapacity` and `Allocator` template parameters, and `data.reserve`'s allocation, are memory layout and are not modelled.
- `Index::get_raw` is the pair of the datatype's fields.

## Findings

| source | as written | input that shows it | evidently intended | confidence | as-written member | corrected member |
|---|---|---|---|---|---|---|
| source/blender/blenlib/BLI_generational_arena.hh:188 | `reserve`'s loop bound `new_cap - 1` is computed in `uint64_t`, so `new_cap == 0` wraps to 2^64 - 1 | `insert(v)` on an empty arena: `try_insert` fails and `reserve(0 * 2)` runs the loop about 2^64 times (the authors' TODO at lines 226-227 names this case) | an empty arena grows by exactly one slot, like every other `reserve` at or above the size: `max(new_cap, size + 1)` slots | not executed | GenerationalArena.AsWrittenReserveZeroOnEmptyArenaWraps | GenerationalArena.Arena.Insert |
| source/blender/blenlib/BLI_generational_arena.hh:159 | `Arena(size)` calls `reserve(size)` on an empty arena, so the same wrap-around applies | `Arena(0)`: `reserve(0)` runs the loop about 2^64 times | an arena of `max(size, 1)` free slots, as for every other size | not executed | GenerationalArena.AsWrittenReserveZeroOnEmptyArenaWraps | GenerationalArena.Arena.WithCapacity |
