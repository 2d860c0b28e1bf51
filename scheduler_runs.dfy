/**
 * Properties of whole sessions of the live scheduler: from `reset()`, the
 * host calls `next()` until it returns false. Each step makes progress, so
 * the loop ends, and in two common configurations the progress denominator
 * `total_pixel_samples` is exactly the number of pixel samples rendered.
 */
module SchedulerRuns {
  import opened CInt
  import opened ResolutionDivider
  import opened Scheduler

  /** How far the divider is from the pixel size: 0 once it is reached. */
  function Rank(c: Config, divider: int): nat
  {
    if divider == c.pixelSize then 0 else 1 + Max(divider - c.pixelSize, 0)
  }

  /** Samples still to go before the end sample. */
  function Remaining(c: Config, s: State): nat
  {
    Max(EndSample(c) - s.sample, 0)
  }

  /** Every successful `next()` either brings the divider closer to the pixel
      size or, at the pixel size, moves the sample closer to the end: the
      host's `while (next())` loop terminates. */
  lemma AdvanceMakesProgress(c: Config, s: State)
    requires ValidConfig(c) && ValidState(s) && !IsDone(c, s)
    ensures var r := Advance(c, s);
      || Rank(c, r.resolutionDivider) < Rank(c, s.resolutionDivider)
      || (Rank(c, r.resolutionDivider) == Rank(c, s.resolutionDivider) == 0 && Remaining(c, r) < Remaining(c, s))
  {
  }

  /** The pixel samples of one step: the buffer area times the step's samples. */
  function StepPixelSamples(s: State): (n: nat)
    requires ValidState(s)
  {
    var area := s.buffer.width * s.buffer.height;
    assert area >= 0;
    area * s.numSamples
  }

  /** The pixel samples rendered from `s` until `done()`, summed over the
      steps `next()` takes. */
  ghost function RenderedPixelSamples(c: Config, s: State): nat
    requires ValidConfig(c) && ValidState(s)
    decreases Rank(c, s.resolutionDivider), Remaining(c, s)
  {
    if IsDone(c, s) then 0
    else
      var r := Advance(c, s);
      AdvanceMakesProgress(c, s);
      StepPixelSamples(r) + RenderedPixelSamples(c, r)
  }

  /** The image area at the pixel size. */
  function FinalArea(c: Config): nat
    requires ValidConfig(c)
  {
    Dim(c.params.width, c.pixelSize) * Dim(c.params.height, c.pixelSize)
  }

  /** The halving chain of two powers of two stops exactly at the pixel size. */
  lemma {:induction false} FinalDividerOfPowers(d: int, pixelSize: int)
    requires PowerOfTwo(d) && PowerOfTwo(pixelSize) && d >= pixelSize
    ensures FinalDivider(d, pixelSize) == pixelSize
    decreases d
  {
    if d > pixelSize {
      PowerOfTwoGap(d, pixelSize);
      FinalDividerOfPowers(d / 2, pixelSize);
    }
  }

  /** Progressive, no sample range, at the pixel size with one sample per
      step: the remaining steps render `num_samples - 1 - sample` more samples
      of the full-resolution image. */
  lemma {:induction false} FullResolutionPhase(c: Config, s: State)
    requires ValidConfig(c) && ValidState(s)
    requires c.progressive && c.rangeNumSamples == -1 && c.rangeStartSample == 0
    requires s.resolutionDivider == c.pixelSize && s.sample >= 0 && s.numSamples == 1
    requires s.buffer == Geometry(c.params, c.pixelSize)
    ensures RenderedPixelSamples(c, s) == Max(c.numSamples - 1 - s.sample, 0) * FinalArea(c)
    decreases c.numSamples - s.sample
  {
    if !IsDone(c, s) {
      var r := Advance(c, s);
      assert r == s.(sample := s.sample + 1);
      FullResolutionPhase(c, r);
      MulPred(c.numSamples - 1 - s.sample, FinalArea(c));
    }
  }

  /** Progressive, no sample range, at a power-of-two divider above the
      power-of-two pixel size: one sample at every coarser divider, then
      `num_samples` at full resolution. */
  lemma {:induction false} CoarsePhase(c: Config, s: State)
    requires ValidConfig(c) && ValidState(s)
    requires c.progressive && c.rangeNumSamples == -1 && c.rangeStartSample == 0 && c.numSamples >= 1
    requires PowerOfTwo(c.pixelSize) && PowerOfTwo(s.resolutionDivider)
    requires s.resolutionDivider > c.pixelSize
    ensures RenderedPixelSamples(c, s) ==
      CoarsePixelSamples(c.params.width, c.params.height, s.resolutionDivider / 2, c.pixelSize)
        + c.numSamples * FinalArea(c)
    decreases s.resolutionDivider
  {
    var w, h, ps := c.params.width, c.params.height, c.pixelSize;
    var d := s.resolutionDivider;
    PowerOfTwoGap(d, ps);
    var r := Advance(c, s);
    assert r.resolutionDivider == d / 2 && r.sample == 0 && r.numSamples == 1;
    assert r.buffer == Geometry(c.params, d / 2);
    var step := Dim(w, d / 2) * Dim(h, d / 2);
    assert StepPixelSamples(r) == step * 1 == step;
    assert !IsDone(c, s);
    assert RenderedPixelSamples(c, s) == step + RenderedPixelSamples(c, r);
    var n, a := c.numSamples, FinalArea(c);
    if d / 2 > ps {
      CoarsePhase(c, r);
      assert CoarsePixelSamples(w, h, d / 2, ps) == step + CoarsePixelSamples(w, h, d / 2 / 2, ps);
    } else {
      assert d / 2 == ps;
      assert step == a;
      FullResolutionPhase(c, r);
      assert RenderedPixelSamples(c, r) == (n - 1) * a;
      assert CoarsePixelSamples(w, h, d / 2, ps) == 0;
      MulPred(n, a);
    }
  }

  /** In a progressive session without a sample range, with a power-of-two
      pixel size and a finite sample count, `total_pixel_samples` is exactly
      the number of pixel samples rendered from `reset()` until `done()`. */
  lemma ProgressiveEstimateIsExact(c: Config)
    requires ValidConfig(c) && c.progressive && c.rangeNumSamples == -1 && c.rangeStartSample == 0
    requires PowerOfTwo(c.pixelSize) && 1 <= c.numSamples < INT_MAX
    ensures RenderedPixelSamples(c, ResetState(c)) == TotalPixelSamples(c)
  {
    var s := ResetState(c);
    var w, h, ps := c.params.width, c.params.height, c.pixelSize;
    var divider := s.resolutionDivider;
    DividerIsPowerOfTwo(w, h, c.startResolution);
    var d0 := Max(divider / 2, ps);
    var n, a := c.numSamples, FinalArea(c);
    assert EffectiveSamples(c) == n;
    if divider > ps {
      PowerOfTwoGap(divider, ps);
      assert PowerOfTwo(divider / 2);
      assert d0 == divider / 2;
      FinalDividerOfPowers(d0, ps);
      assert TotalPixelSamples(c) == CoarsePixelSamples(w, h, d0, ps) + n * a;
      CoarsePhase(c, s);
    } else {
      assert d0 == ps;
      assert FinalDivider(d0, ps) == ps;
      assert CoarsePixelSamples(w, h, d0, ps) == 0;
      assert TotalPixelSamples(c) == n * a;
      FirstStepAtPixelSize(c, s);
    }
  }

  /** A progressive session whose divider starts at or below the pixel size
      renders `num_samples` full-resolution samples. */
  lemma FirstStepAtPixelSize(c: Config, s: State)
    requires ValidConfig(c) && c.progressive && c.rangeNumSamples == -1 && c.rangeStartSample == 0
    requires 1 <= c.numSamples
    requires ValidState(s) && s.sample == -1 && s.numSamples == 0 && s.resolutionDivider <= c.pixelSize
    ensures RenderedPixelSamples(c, s) == c.numSamples * FinalArea(c)
  {
    var n, a := c.numSamples, FinalArea(c);
    assert !IsDone(c, s);
    var r := Advance(c, s);
    assert r.sample == 0 && r.numSamples == 1 && r.buffer == Geometry(c.params, c.pixelSize);
    assert StepPixelSamples(r) == a * 1 == a;
    assert RenderedPixelSamples(c, s) == a + RenderedPixelSamples(c, r);
    FullResolutionPhase(c, r);
    MulPred(n, a);
  }

  /** In a non-progressive session whose first pass is not coarser than twice
      the pixel size (for instance with the unlimited start resolution), the
      single step `next()` takes renders exactly `total_pixel_samples` pixel
      samples, with or without a sample range. */
  lemma NonProgressiveEstimateIsExact(c: Config)
    requires ValidConfig(c) && !c.progressive && c.numSamples < INT_MAX
    requires Divider(c.params.width, c.params.height, c.startResolution) / 2 <= c.pixelSize
    requires c.rangeNumSamples != -1 || c.rangeStartSample == 0
    ensures RenderedPixelSamples(c, ResetState(c)) == TotalPixelSamples(c)
  {
    var s := ResetState(c);
    var w, h, ps := c.params.width, c.params.height, c.pixelSize;
    var e, wd, ht := EffectiveSamples(c), Dim(w, ps), Dim(h, ps);
    var d0 := Max(s.resolutionDivider / 2, ps);
    assert d0 == ps;
    assert FinalDivider(d0, ps) == ps;
    assert CoarsePixelSamples(w, h, d0, ps) == 0;
    assert TotalPixelSamples(c) == e * (wd * ht);
    assert !IsDone(c, s);
    var r := Advance(c, s);
    assert r.sample == c.rangeStartSample && r.numSamples == e;
    assert r.buffer == Geometry(c.params, ps);
    assert IsDone(c, r);
    assert RenderedPixelSamples(c, r) == 0;
    assert StepPixelSamples(r) == (wd * ht) * e;
    assert RenderedPixelSamples(c, s) == StepPixelSamples(r);
    assert (wd * ht) * e == e * (wd * ht);
  }

  /** A 64 x 64 viewport session with start resolution 32, pixel size 1 and
      4 samples: the first pass uses divider 2, and after `reset()` it takes
      exactly four `next()` calls (samples 0, 1, 2, 3 at full resolution)
      until `done()`. */
  lemma ViewportSessionScenario()
    ensures var c := Config(true, 4, 32, 1, 0, -1, BufferParams(64, 64, 0, 0, 64, 64));
      && ValidConfig(c)
      && ResetState(c).resolutionDivider == 2
      && var s1 := Advance(c, ResetState(c));
      && s1.resolutionDivider == 1 && s1.sample == 0 && s1.numSamples == 1 && !IsDone(c, s1)
      && var s2 := Advance(c, s1);
      && s2.sample == 1 && !IsDone(c, s2)
      && var s3 := Advance(c, s2);
      && s3.sample == 2 && !IsDone(c, s3)
      && var s4 := Advance(c, s3);
      && s4.sample == 3 && IsDone(c, s4)
      && TotalPixelSamples(c) == 4 * 64 * 64
  {
    var c := Config(true, 4, 32, 1, 0, -1, BufferParams(64, 64, 0, 0, 64, 64));
    assert Steps(32, 32, 1024) == 0;
    assert Steps(64, 64, 1024) == 1;
    assert Divider(64, 64, 32) == 2;
  }
}
