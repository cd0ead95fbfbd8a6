/** The temporal clip sampler of `VideoFolder.__getitem__` (src/data_loader_gulpio.py):
    from a video's frames and the clip geometry it decides how many raw frames are
    needed, where the window starts, reads the strided window and pads a short read
    by repeating its last frame. Frames are an abstract type `R`; the random start
    offset of training is an explicit `draw` argument. */
module ClipSampler {
  import opened Outcome
  import PySlice

  /** `clip_size`, `nclips` and `step_size`, fixed for the lifetime of a dataset.
      An `nclips` of -1 (any value below 0) means "use every frame of the video". */
  datatype Geometry = Geometry(clipSize: int, nclips: int, stepSize: int) {

    /** `clip_size * nclips`: the number of frames the padding aims for. */
    function Target(): int {
      clipSize * nclips
    }

    /** Every extent is at least 1: a positive clip size, clip count and stride. */
    predicate Concrete() {
      clipSize >= 1 && nclips >= 1 && stepSize >= 1
    }
  }

  /** `num_frames_necessary`: the length of the raw-frame window to read. */
  function Required(g: Geometry, numFrames: nat): (r: int)
    ensures g.nclips > -1 ==> r == g.Target() * g.stepSize
    ensures g.nclips <= -1 ==> r == numFrames
    ensures g.Concrete() ==> r >= g.Target() >= 1 && r >= g.stepSize
  {
    if g.nclips > -1 then
      MulAtLeast(g.clipSize, g.nclips);
      MulAtLeast(g.clipSize * g.nclips, g.stepSize);
      g.clipSize * g.nclips * g.stepSize
    else
      numFrames
  }

  /** Products of two values that are at least 1 are at least each factor. */
  lemma MulAtLeast(a: int, b: int)
    ensures a >= 1 && b >= 1 ==> a * b >= a && a * b >= b
  {
    if a >= 1 && b >= 1 {
      assert a * b - a == a * (b - 1);
      assert a * b - b == (a - 1) * b;
    }
  }

  /** There are more frames than the window needs, so a start offset can be drawn. */
  predicate HasSlack(g: Geometry, numFrames: nat) {
    Required(g, numFrames) < numFrames
  }

  /** The draw is a value `np.random.randint(0, diff)` can return (its upper bound is
      exclusive), whenever the draw is made at all: in training with slack. */
  predicate DrawFits(g: Geometry, numFrames: nat, isVal: bool, draw: int) {
    isVal || !HasSlack(g, numFrames) || 0 <= draw < numFrames - Required(g, numFrames)
  }

  /** The start offset of the window: the draw in training with slack, else 0. */
  function Offset(g: Geometry, numFrames: nat, isVal: bool, draw: int): (offset: int)
    requires DrawFits(g, numFrames, isVal, draw)
    ensures offset >= 0
    ensures isVal || !HasSlack(g, numFrames) ==> offset == 0
    ensures !isVal && HasSlack(g, numFrames) ==> offset == draw
    ensures HasSlack(g, numFrames) ==> offset + Required(g, numFrames) < numFrames
    ensures numFrames >= 1 && Required(g, numFrames) >= 0 ==> offset < numFrames
  {
    if HasSlack(g, numFrames) && !isVal then draw else 0
  }

  /** The frames `gulp_directory[item.id, slice(offset, required + offset, step_size)]`
      returns: the strided read of the window, cut short at the end of the video. */
  function Fetched<R>(video: seq<R>, g: Geometry, isVal: bool, draw: int): (r: Result<seq<R>>)
    requires DrawFits(g, |video|, isVal, draw)
    ensures r.Err? <==> g.stepSize == 0
    ensures r.Ok? ==> forall x :: x in r.value ==> x in video
  {
    var offset := Offset(g, |video|, isVal, draw);
    PySlice.Slice(video, offset, Required(g, |video|) + offset, g.stepSize)
  }

  /** `frames.extend([frames[-1]] * (target - len(frames)))` when the read is short:
      the read is kept as a prefix and every added frame is its last frame. An empty
      short read has no last frame and raises IndexError. */
  function Pad<R>(frames: seq<R>, target: int): (r: Result<seq<R>>)
    ensures r.Err? <==> |frames| == 0 && target > 0
    ensures r.Err? ==> r.error == NoFrameToRepeat
    ensures target <= |frames| ==> r == Ok(frames)
    ensures r.Ok? ==> |r.value| == (if |frames| < target then target else |frames|)
    ensures r.Ok? ==> r.value[..|frames|] == frames
    ensures r.Ok? ==> forall k :: |frames| <= k < |r.value| ==> r.value[k] == frames[|frames| - 1]
  {
    if |frames| < target then
      if |frames| == 0 then Err(NoFrameToRepeat)
      else Ok(frames + seq(target - |frames|, _ => frames[|frames| - 1]))
    else
      Ok(frames)
  }

  /** The raw frames of one clip: the window read, padded up to `clip_size * nclips`. */
  function SampleFrames<R>(video: seq<R>, g: Geometry, isVal: bool, draw: int): (r: Result<seq<R>>)
    requires DrawFits(g, |video|, isVal, draw)
    ensures g.stepSize == 0 ==> r == Err(ZeroSliceStep)
    ensures r.Ok? ==> forall x :: x in r.value ==> x in video
  {
    var fetched :- Fetched(video, g, isVal, draw);
    Pad(fetched, g.Target())
  }

  function Min(a: int, b: int): int {
    if a < b then a else b
  }

  /** The video frame clip slot `t` shows when the window read `m` frames from `offset`. */
  function SlotFrame(offset: int, step: int, m: int, t: int): int {
    offset + Min(t, m - 1) * step
  }

  /** With a concrete geometry and a non-empty video, the read is never empty and never
      longer than `clip_size * nclips`; its k-th frame is the video's frame
      `offset + k*step_size`, and it holds every such frame below both the end of the
      window and the end of the video. */
  lemma FetchedWindow<R>(video: seq<R>, g: Geometry, isVal: bool, draw: int)
    requires g.Concrete() && |video| >= 1
    requires DrawFits(g, |video|, isVal, draw)
    ensures Fetched(video, g, isVal, draw).Ok?
    ensures var f := Fetched(video, g, isVal, draw).value;
      var offset := Offset(g, |video|, isVal, draw);
      var end := Min(offset + Required(g, |video|), |video|);
      && 1 <= |f| <= g.Target()
      && (forall k :: 0 <= k < |f| ==> offset + k * g.stepSize < end && f[k] == video[offset + k * g.stepSize])
      && offset + |f| * g.stepSize >= end
  {
    var n, step := |video|, g.stepSize;
    var required := Required(g, n);
    var offset := Offset(g, n, isVal, draw);
    var end := Min(offset + required, n);
    PySlice.SliceForward(video, offset, required + offset, step);
    var f := Fetched(video, g, isVal, draw).value;
    assert offset < end;
    assert offset + (|f| - 1) * step < end;
    PySlice.MulStrideMonotone(|f| - 1, g.Target(), step);
  }

  /** The padded clip has exactly `clip_size * nclips` frames: the read is its prefix
      and every slot after the read repeats the read's last frame. */
  lemma PaddedClip<R>(video: seq<R>, g: Geometry, isVal: bool, draw: int)
    requires g.Concrete() && |video| >= 1
    requires DrawFits(g, |video|, isVal, draw)
    ensures SampleFrames(video, g, isVal, draw).Ok?
    ensures var r := SampleFrames(video, g, isVal, draw).value;
      var f := Fetched(video, g, isVal, draw).value;
      && |r| == g.Target()
      && 1 <= |f| <= |r|
      && r[..|f|] == f
      && forall t :: |f| <= t < |r| ==> r[t] == f[|f| - 1]
  {
    FetchedWindow(video, g, isVal, draw);
  }

  /** Clip slot `t` shows the video's frame `offset + min(t, m - 1) * step_size`, `m`
      being the number of frames the window read. */
  lemma ClipSlots<R>(video: seq<R>, g: Geometry, isVal: bool, draw: int)
    requires g.Concrete() && |video| >= 1
    requires DrawFits(g, |video|, isVal, draw)
    ensures SampleFrames(video, g, isVal, draw).Ok?
    ensures var r := SampleFrames(video, g, isVal, draw).value;
      var m := |Fetched(video, g, isVal, draw).value|;
      var offset := Offset(g, |video|, isVal, draw);
      && |r| == g.Target()
      && forall t :: 0 <= t < |r| ==>
           0 <= SlotFrame(offset, g.stepSize, m, t) < |video|
           && r[t] == video[SlotFrame(offset, g.stepSize, m, t)]
  {
    FetchedWindow(video, g, isVal, draw);
    PaddedClip(video, g, isVal, draw);
    SlotsOfRead(video, Fetched(video, g, isVal, draw).value, SampleFrames(video, g, isVal, draw).value,
      Offset(g, |video|, isVal, draw), g.stepSize);
  }

  /** Slot arithmetic of `ClipSlots`, stated over the read `f` and the padded clip `r`. */
  lemma SlotsOfRead<R>(video: seq<R>, f: seq<R>, r: seq<R>, offset: int, step: int)
    requires 1 <= |f| <= |r|
    requires forall k :: 0 <= k < |f| ==> 0 <= offset + k * step < |video| && f[k] == video[offset + k * step]
    requires r[..|f|] == f
    requires forall t :: |f| <= t < |r| ==> r[t] == f[|f| - 1]
    ensures forall t :: 0 <= t < |r| ==>
      0 <= SlotFrame(offset, step, |f|, t) < |video|
      && r[t] == video[SlotFrame(offset, step, |f|, t)]
  {
  }

  /** When the whole window fits in the video (always so in training with slack, and in
      evaluation once the video has `num_frames_necessary` frames) nothing is padded:
      clip slot `t` is the video's frame `offset + t*step_size`. */
  lemma WindowInside<R>(video: seq<R>, g: Geometry, isVal: bool, draw: int)
    requires g.Concrete() && |video| >= 1
    requires DrawFits(g, |video|, isVal, draw)
    requires Offset(g, |video|, isVal, draw) + Required(g, |video|) <= |video|
    ensures SampleFrames(video, g, isVal, draw).Ok?
    ensures var r := SampleFrames(video, g, isVal, draw).value;
      var offset := Offset(g, |video|, isVal, draw);
      && |r| == g.Target()
      && r == Fetched(video, g, isVal, draw).value
      && forall t :: 0 <= t < |r| ==>
           offset + t * g.stepSize < |video| && r[t] == video[offset + t * g.stepSize]
  {
    FetchedWindow(video, g, isVal, draw);
    var f := Fetched(video, g, isVal, draw).value;
    var offset := Offset(g, |video|, isVal, draw);
    assert offset + |f| * g.stepSize >= offset + g.Target() * g.stepSize;
    PySlice.MulStrideMonotone(|f|, g.Target(), g.stepSize);
  }

  /** In training with slack the clip is read from inside the video and never shows
      its last frame: slot `t` is frame `offset + t*step_size`, below `num_frames - 1`.
      In evaluation the first slot is frame 0. */
  lemma WindowPlacement<R>(video: seq<R>, g: Geometry, isVal: bool, draw: int)
    requires g.Concrete() && |video| >= 1
    requires DrawFits(g, |video|, isVal, draw)
    ensures SampleFrames(video, g, isVal, draw).Ok?
    ensures var r := SampleFrames(video, g, isVal, draw).value;
      var offset := Offset(g, |video|, isVal, draw);
      && (!isVal && HasSlack(g, |video|) ==>
            forall t :: 0 <= t < |r| ==> offset + t * g.stepSize < |video| - 1 && r[t] == video[offset + t * g.stepSize])
      && (isVal ==> |r| >= 1 && r[0] == video[0])
  {
    ClipSlots(video, g, isVal, draw);
    var r := SampleFrames(video, g, isVal, draw).value;
    var offset := Offset(g, |video|, isVal, draw);
    if !isVal && HasSlack(g, |video|) {
      WindowInside(video, g, isVal, draw);
      FetchedWindow(video, g, isVal, draw);
      assert forall t :: 0 <= t < |r| ==> offset + t * g.stepSize < Min(offset + Required(g, |video|), |video|);
    }
    if isVal {
      assert SlotFrame(offset, g.stepSize, |Fetched(video, g, isVal, draw).value|, 0) == 0;
    }
  }

  /** Evaluation sampling ignores the draw: the same video always yields the same clip. */
  lemma EvalDeterministic<R>(video: seq<R>, g: Geometry, draw1: int, draw2: int)
    ensures DrawFits(g, |video|, true, draw1) && DrawFits(g, |video|, true, draw2)
    ensures SampleFrames(video, g, true, draw1) == SampleFrames(video, g, true, draw2)
  {
  }

  /** With `nclips` below 0 the whole video is read from frame 0 and nothing is padded:
      the clip is frames `0, step, 2*step, ...`, i.e. `ceil(num_frames / step_size)` of them. */
  lemma AllFrames<R>(video: seq<R>, g: Geometry, isVal: bool, draw: int)
    requires g.nclips <= -1 && g.clipSize >= 0 && g.stepSize >= 1
    ensures DrawFits(g, |video|, isVal, draw)
    ensures SampleFrames(video, g, isVal, draw).Ok?
    ensures var r := SampleFrames(video, g, isVal, draw).value;
      && (|r| - 1) * g.stepSize < |video| <= |r| * g.stepSize
      && forall k :: 0 <= k < |r| ==> k * g.stepSize < |video| && r[k] == video[k * g.stepSize]
  {
    assert Offset(g, |video|, isVal, draw) == 0;
    PySlice.SliceForward(video, 0, |video|, g.stepSize);
    var f := Fetched(video, g, isVal, draw).value;
    assert g.Target() <= 0 by {
      assert g.clipSize * g.nclips == -(g.clipSize * -g.nclips);
      MulNonNegative(g.clipSize, -g.nclips);
    }
    if |f| > 0 {
      assert 0 + (|f| - 1) * g.stepSize < |video|;
    } else {
      assert |video| <= 0;
    }
  }

  lemma MulNonNegative(a: int, b: int)
    requires a >= 0 && b >= 0
    ensures a * b >= 0
  {
  }

  /** Evaluation with clip_size 4, nclips 2, step_size 1 on a 40-frame video reads
      frames 0..7 and pads nothing. */
  lemma EvalLongVideo<R>(video: seq<R>)
    requires |video| == 40
    ensures SampleFrames(video, Geometry(4, 2, 1), true, 0) == Ok(video[..8])
  {
    var g := Geometry(4, 2, 1);
    assert g.Target() == 8 && Required(g, 40) == 8;
    assert Offset(g, 40, true, 0) == 0;
    WindowInside(video, g, true, 0);
    var r := SampleFrames(video, g, true, 0).value;
    assert |r| == 8;
    forall t | 0 <= t < 8
      ensures r[t] == video[..8][t]
    {
      assert r[t] == video[0 + t * 1];
    }
    assert r == video[..8];
  }

  /** The same geometry on a 5-frame video: the five frames, then three copies of the fifth. */
  lemma EvalShortVideo<R>(video: seq<R>)
    requires |video| == 5
    ensures SampleFrames(video, Geometry(4, 2, 1), true, 0) == Ok(video + [video[4], video[4], video[4]])
  {
    var g := Geometry(4, 2, 1);
    assert g.Target() == 8 && Required(g, 5) == 8;
    assert Offset(g, 5, true, 0) == 0;
    FetchedWindow(video, g, true, 0);
    PaddedClip(video, g, true, 0);
    var f := Fetched(video, g, true, 0).value;
    var r := SampleFrames(video, g, true, 0).value;
    assert |f| == 5 by {
      assert 0 + |f| * 1 >= Min(8, 5);
    }
    forall k | 0 <= k < 5
      ensures f[k] == video[k]
    {
      assert f[k] == video[0 + k * 1];
    }
    var expected := video + [video[4], video[4], video[4]];
    forall t | 0 <= t < 8
      ensures r[t] == expected[t]
    {
      if t < 5 {
        assert r[t] == r[..|f|][t];
      }
    }
    assert r == expected;
  }
}
