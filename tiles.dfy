/**
 * The tile records of the scheduler's tile layer (intern/cycles/render/tile.cpp,
 * compiled out with `#if 0`): the per-tile state machine, the tile record
 * itself, and the orders in which a device's tiles are handed out.
 */
module Tiles {

  /** `Tile::State`, in the order of its declaration: `finish_tile` and
      `check_neighbor_state` compare states with `<`. */
  datatype TileState = Render | Rendered | Denoise | Denoised | Done

  function Level(s: TileState): nat
  {
    match s
    case Render => 0
    case Rendered => 1
    case Denoise => 2
    case Denoised => 3
    case Done => 4
  }

  /** `!(s < m)`: the state has progressed at least as far as `m`. */
  predicate AtLeast(s: TileState, m: TileState)
  {
    Level(s) >= Level(m)
  }

  /** A `Tile`: its position in `state.tiles`, its pixel rectangle, the device
      whose queues hold it, its state, and whether its render buffers have
      been deleted. */
  datatype Tile = Tile(
    index: nat,
    x: int, y: int, w: int, h: int,
    device: nat,
    state: TileState,
    freed: bool)

  /** An `int2`: a pixel or tile position. */
  datatype Pos = Pos(x: int, y: int)

  /** `TileOrder`: the order in which each device's tiles are handed out. */
  datatype TileOrder = Center | RightToLeft | LeftToRight | TopToBottom | BottomToTop | HilbertSpiral
}
