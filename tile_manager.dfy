/**
 * The live part of the progressive tile scheduler, `TileManager` in
 * intern/cycles/render/tile.cpp: the resolution divider, the current sample
 * and the samples of the current step of a render session. The class keeps
 * the source's fields and updates them in place; the pure functions below
 * (`ResetState`, `IsDone`, `Advance`, `TotalPixelSamples`) are what its
 * methods are proved against, and the lemmas at the end are about them.
 */
module Scheduler {
  import opened CInt
  import opened ResolutionDivider

  /** The geometry fields of `BufferParams` the scheduler reads and writes. */
  datatype BufferParams = BufferParams(
    width: int, height: int,
    fullX: int, fullY: int,
    fullWidth: int, fullHeight: int)

  /** A default-constructed `BufferParams`: every size and offset zero. */
  const DefaultBufferParams := BufferParams(0, 0, 0, 0, 0, 0)

  /** Image sizes the model admits: non-negative, with an area that is a C `int`. */
  predicate ValidParams(p: BufferParams)
  {
    0 <= p.width && 0 <= p.height && p.width * p.height <= INT_MAX
  }

  /** The fields of `TileManager` that `next()` reads but never writes. */
  datatype Config = Config(
    progressive: bool,
    numSamples: int,
    startResolution: int,
    pixelSize: int,
    rangeStartSample: int,
    rangeNumSamples: int,
    params: BufferParams)

  predicate ValidConfig(c: Config)
  {
    && ValidParams(c.params)
    && ValidStartResolution(c.startResolution)
    && c.pixelSize >= 1
    && c.numSamples >= 0
    && c.rangeStartSample >= 0
    && c.rangeNumSamples >= -1
  }

  /** `TileManager::State`, restricted to its compiled-in fields. */
  datatype State = State(
    buffer: BufferParams,
    sample: int,
    numSamples: int,
    resolutionDivider: int,
    totalPixelSamples: int)

  predicate ValidState(s: State)
  {
    s.resolutionDivider >= 1 && s.numSamples >= 0 && s.buffer.width >= 0 && s.buffer.height >= 0
  }

  /** The sample at which the session ends (`end_sample` of `done()`). */
  function EndSample(c: Config): int
  {
    if c.rangeNumSamples == -1 then c.numSamples else c.rangeStartSample + c.rangeNumSamples
  }

  /** `get_num_effective_samples()`: the length of the sample range if one is
      set, else the whole sample count. Never negative, so its cast to
      `uint64_t` in `set_samples` is exact. */
  function EffectiveSamples(c: Config): (n: int)
    requires c.numSamples >= 0 && c.rangeNumSamples >= -1
    ensures n >= 0
    ensures c.rangeNumSamples == -1 ==> n == c.numSamples
    ensures c.rangeNumSamples != -1 ==> n == c.rangeNumSamples
  {
    if c.rangeNumSamples == -1 then c.numSamples else c.rangeNumSamples
  }

  /** One side of the image at a divider, clamped to at least one pixel. */
  function Dim(x: nat, divider: int): (r: int)
    requires divider >= 1
    ensures r >= 1
    ensures x >= divider ==> r * divider <= x < r * divider + divider
    ensures x < divider ==> r == 1
  {
    Max(1, x / divider)
  }

  /** `set_tiles()`: the buffer geometry of the image at a divider. */
  function Geometry(p: BufferParams, divider: int): (g: BufferParams)
    requires ValidParams(p) && divider >= 1
    ensures g.width >= 1 && g.height >= 1 && g.fullWidth >= 1 && g.fullHeight >= 1
    ensures g.width == Dim(p.width, divider) && g.height == Dim(p.height, divider)
    ensures p.fullWidth >= divider ==> g.fullWidth == p.fullWidth / divider
    ensures p.fullHeight >= divider ==> g.fullHeight == p.fullHeight / divider
    ensures p.fullX >= 0 ==> g.fullX == p.fullX / divider
    ensures p.fullY >= 0 ==> g.fullY == p.fullY / divider
  {
    BufferParams(
      Dim(p.width, divider), Dim(p.height, divider),
      CDiv(p.fullX, divider), CDiv(p.fullY, divider),
      Max(1, CDiv(p.fullWidth, divider)), Max(1, CDiv(p.fullHeight, divider)))
  }

  /** The pixel samples `set_samples` counts for the coarse steps: one sample
      per pixel at each divider of the halving chain above the pixel size. */
  function CoarsePixelSamples(w: nat, h: nat, divider: int, pixelSize: int): nat
    requires pixelSize >= 1
    decreases divider
  {
    if divider > pixelSize then
      Dim(w, divider) * Dim(h, divider) + CoarsePixelSamples(w, h, divider / 2, pixelSize)
    else 0
  }

  /** The divider `set_samples`' halving loop stops at. */
  function FinalDivider(divider: int, pixelSize: int): (d: int)
    requires divider >= 1 && pixelSize >= 1
    ensures 1 <= d <= pixelSize
    ensures divider <= pixelSize ==> d == divider
    ensures divider > pixelSize ==> pixelSize <= 2 * d
    decreases divider
  {
    if divider > pixelSize then FinalDivider(divider / 2, pixelSize) else divider
  }

  /** `state.total_pixel_samples` as `set_samples` computes it. */
  function TotalPixelSamples(c: Config): int
    requires ValidConfig(c)
  {
    if c.numSamples == INT_MAX then 0
    else
      var d0 := Max(Divider(c.params.width, c.params.height, c.startResolution) / 2, c.pixelSize);
      var d := FinalDivider(d0, c.pixelSize);
      CoarsePixelSamples(c.params.width, c.params.height, d0, c.pixelSize)
        + EffectiveSamples(c) * (Dim(c.params.width, d) * Dim(c.params.height, d))
  }

  /** The state `reset()` installs. */
  function ResetState(c: Config): (s: State)
    requires ValidConfig(c)
    ensures ValidState(s)
  {
    State(
      DefaultBufferParams,
      c.rangeStartSample - 1,
      0,
      Divider(c.params.width, c.params.height, c.startResolution),
      TotalPixelSamples(c))
  }

  /** `done()`. */
  predicate IsDone(c: Config, s: State)
  {
    s.resolutionDivider == c.pixelSize && s.sample + s.numSamples >= EndSample(c)
  }

  /** The state after a `next()` that returns true. */
  function Advance(c: Config, s: State): (r: State)
    requires ValidConfig(c) && ValidState(s)
    ensures ValidState(r)
    ensures r.resolutionDivider >= c.pixelSize
    ensures s.resolutionDivider >= c.pixelSize ==> r.resolutionDivider <= s.resolutionDivider
    ensures r.sample == 0 || r.sample == s.sample + 1
    ensures r.totalPixelSamples == s.totalPixelSamples
  {
    if c.progressive && s.resolutionDivider > c.pixelSize then
      var d := Max(s.resolutionDivider / 2, c.pixelSize);
      s.(sample := 0, resolutionDivider := d, numSamples := 1, buffer := Geometry(c.params, d))
    else
      var sample := s.sample + 1;
      s.(sample := sample,
         numSamples := if c.progressive then 1 else EffectiveSamples(c),
         resolutionDivider := c.pixelSize,
         buffer := if sample == c.rangeStartSample then Geometry(c.params, c.pixelSize) else s.buffer)
  }

  class TileManager {
    var progressive: bool
    var numSamples: int
    var startResolution: int
    var pixelSize: int
    var sliceOverlap: int
    var rangeStartSample: int
    var rangeNumSamples: int
    var params: BufferParams
    var state: State

    function Configuration(): Config
      reads this
    {
      Config(progressive, numSamples, startResolution, pixelSize,
             rangeStartSample, rangeNumSamples, params)
    }

    ghost predicate Valid()
      reads this
    {
      ValidConfig(Configuration()) && ValidState(state)
    }

    /** The constructor. Its call of `reset` with a default `BufferParams` and
        zero samples overwrites the sample count it was given. */
    constructor (progressive: bool, numSamples: int, startResolution: int, pixelSize: int)
      requires numSamples >= 0 && ValidStartResolution(startResolution) && pixelSize >= 1
      ensures Valid()
      ensures this.progressive == progressive && this.startResolution == startResolution
      ensures this.pixelSize == pixelSize && sliceOverlap == 0
      ensures rangeStartSample == 0 && rangeNumSamples == -1
      ensures params == DefaultBufferParams && this.numSamples == 0
      ensures state == ResetState(Configuration())
    {
      this.progressive := progressive;
      this.startResolution := startResolution;
      this.pixelSize := pixelSize;
      sliceOverlap := 0;
      this.numSamples := numSamples;
      rangeStartSample := 0;
      rangeNumSamples := -1;
      params := DefaultBufferParams;
      state := State(DefaultBufferParams, 0, 0, 1, 0);
      new;
      Reset(DefaultBufferParams, 0);
    }

    /** `reset(params, num_samples)`. */
    method Reset(p: BufferParams, n: int)
      requires Valid() && ValidParams(p) && n >= 0
      modifies this`params, this`numSamples, this`state
      ensures Valid()
      ensures params == p && numSamples == n
      ensures state == ResetState(Configuration())
      ensures state.sample == rangeStartSample - 1 && state.numSamples == 0
      ensures state.resolutionDivider == Divider(p.width, p.height, startResolution)
    {
      params := p;
      SetSamples(n);
      state := state.(buffer := DefaultBufferParams, sample := rangeStartSample - 1, numSamples := 0);
      var d := GetDivider(params.width, params.height, startResolution);
      state := state.(resolutionDivider := d);
    }

    /** `set_samples(num_samples)`. */
    method SetSamples(n: int)
      requires Valid() && n >= 0
      modifies this`numSamples, this`state
      ensures Valid()
      ensures numSamples == n
      ensures state == old(state).(totalPixelSamples := TotalPixelSamples(Configuration()))
      ensures n == INT_MAX ==> state.totalPixelSamples == 0
    {
      numSamples := n;
      if numSamples == INT_MAX {
        state := state.(totalPixelSamples := 0);
      } else {
        var pixelSamples := 0;
        var d := GetDivider(params.width, params.height, startResolution);
        var divider := Max(d / 2, pixelSize);
        ghost var d0 := divider;
        while divider > pixelSize
          invariant divider >= 1
          invariant pixelSamples + CoarsePixelSamples(params.width, params.height, divider, pixelSize)
            == CoarsePixelSamples(params.width, params.height, d0, pixelSize)
          invariant FinalDivider(divider, pixelSize) == FinalDivider(d0, pixelSize)
          decreases divider
        {
          var imageW := Max(1, params.width / divider);
          var imageH := Max(1, params.height / divider);
          pixelSamples := pixelSamples + imageW * imageH;
          divider := divider / 2;  // `divider >>= 1` on a positive int
        }
        var imageW := Max(1, params.width / divider);
        var imageH := Max(1, params.height / divider);
        var effective := GetNumEffectiveSamples();
        assert divider == FinalDivider(d0, pixelSize);
        MulAssociates(effective, imageW, imageH);
        state := state.(totalPixelSamples := pixelSamples + effective * imageW * imageH);
      }
    }

    /** `set_tiles()`: installs the buffer geometry of the current divider. */
    method SetTiles()
      requires Valid()
      modifies this`state
      ensures Valid()
      ensures state == old(state).(buffer := Geometry(params, state.resolutionDivider))
      ensures state.buffer.width >= 1 && state.buffer.height >= 1
      ensures state.buffer.fullWidth >= 1 && state.buffer.fullHeight >= 1
    {
      var resolution := state.resolutionDivider;
      var imageW := Max(1, params.width / resolution);
      var imageH := Max(1, params.height / resolution);
      var buffer := state.buffer.(width := imageW, height := imageH);
      buffer := buffer.(fullX := CDiv(params.fullX, resolution), fullY := CDiv(params.fullY, resolution));
      buffer := buffer.(fullWidth := Max(1, CDiv(params.fullWidth, resolution)),
                        fullHeight := Max(1, CDiv(params.fullHeight, resolution)));
      state := state.(buffer := buffer);
    }

    /** `done()`: the full resolution is reached and the current step takes the
        sample count to the end of the session. */
    predicate Done()
      reads this
      ensures Done() <==>
        state.resolutionDivider == pixelSize && state.sample + state.numSamples >= EndSample(Configuration())
    {
      IsDone(Configuration(), state)
    }

    /** `next()`. */
    method Next() returns (moved: bool)
      requires Valid()
      modifies this`state
      ensures Valid()
      ensures moved == !old(Done())
      ensures !moved ==> state == old(state)
      ensures moved ==> state == Advance(Configuration(), old(state))
      // the coarse step of a progressive session
      ensures moved && progressive && old(state.resolutionDivider) > pixelSize ==>
        && state.sample == 0
        && state.resolutionDivider == Max(old(state.resolutionDivider) / 2, pixelSize)
        && pixelSize <= state.resolutionDivider < old(state.resolutionDivider)
        && state.numSamples == 1
        && state.buffer == Geometry(params, state.resolutionDivider)
      // every other step
      ensures moved && !(progressive && old(state.resolutionDivider) > pixelSize) ==>
        && state.sample == old(state.sample) + 1
        && state.numSamples == (if progressive then 1
                                else if rangeNumSamples == -1 then numSamples
                                else rangeNumSamples)
        && state.resolutionDivider == pixelSize
        && state.buffer == (if state.sample == rangeStartSample then Geometry(params, pixelSize)
                            else old(state.buffer))
      ensures state.totalPixelSamples == old(state.totalPixelSamples)
    {
      if Done() {
        return false;
      }
      if progressive && state.resolutionDivider > pixelSize {
        state := state.(sample := 0);
        state := state.(resolutionDivider := Max(state.resolutionDivider / 2, pixelSize));
        state := state.(numSamples := 1);
        SetTiles();
      } else {
        state := state.(sample := state.sample + 1);
        if progressive {
          state := state.(numSamples := 1);
        } else if rangeNumSamples == -1 {
          state := state.(numSamples := numSamples);
        } else {
          state := state.(numSamples := rangeNumSamples);
        }
        state := state.(resolutionDivider := pixelSize);
        if state.sample == rangeStartSample {
          SetTiles();
        }
      }
      return true;
    }

    /** `get_num_effective_samples()`. */
    function GetNumEffectiveSamples(): (n: int)
      reads this
      requires Valid()
      ensures n >= 0
      ensures rangeNumSamples == -1 ==> n == numSamples
      ensures rangeNumSamples != -1 ==> n == rangeNumSamples
    {
      EffectiveSamples(Configuration())
    }
  }
}
