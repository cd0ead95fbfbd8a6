/** The `VideoFolder` dataset (src/data_loader_gulpio.py): `__len__` and `__getitem__`,
    which resolves a manifest row to its video and class index, samples a clip of raw
    frames, transforms each frame and assembles the (C, T, H, W) clip tensor.
    The gulp frame store is a map from video id to the video's frames (its metadata's
    `frame_info` list has one entry per frame); the per-frame transform is an opaque
    total function; the random start offset is the `draw` argument. */
module VideoFolder {
  import opened Outcome
  import PySlice
  import opened ClipSampler
  import opened ClipTensor

  /** One manifest row (`csv_data[i]`): a video id and its label text. */
  datatype Entry = Entry(id: string, labelName: string)

  /** The dataset's state after construction; it is read-only afterwards. */
  datatype Dataset<!R, E> = Dataset(
    csvData: seq<Entry>,                  // manifest rows, in dataset order
    classesDict: map<string, int>,        // label text -> class index
    videos: map<string, seq<R>>,          // video id -> its raw frames
    geometry: Geometry,                   // clip_size, nclips, step_size
    isVal: bool,                          // evaluation: no random offset
    transform: R -> Image<E>)             // the composed per-frame transform

  /** `__len__`: the number of manifest rows. */
  function Len<R, E>(ds: Dataset<R, E>): (n: nat)
    ensures forall i :: 0 <= i < n ==> PySlice.At(ds.csvData, i).Ok?
    ensures PySlice.At(ds.csvData, n).Err?
  {
    |ds.csvData|
  }

  /** `csv_data[index]`, then the video's frames and the row's class index, in the
      order the source looks them up. */
  function Locate<R, E>(ds: Dataset<R, E>, index: int): (r: Result<(seq<R>, int)>)
    ensures PySlice.At(ds.csvData, index).Err? ==> r == Err(IndexOutOfRange)
    ensures PySlice.At(ds.csvData, index).Ok? ==> var item := PySlice.At(ds.csvData, index).value;
      && (item.id !in ds.videos ==> r == Err(UnknownVideo))
      && (item.id in ds.videos && item.labelName !in ds.classesDict ==> r == Err(UnknownLabel))
      && (item.id in ds.videos && item.labelName in ds.classesDict ==>
            r == Ok((ds.videos[item.id], ds.classesDict[item.labelName])))
  {
    var item :- PySlice.At(ds.csvData, index);
    if item.id !in ds.videos then Err(UnknownVideo)
    else if item.labelName !in ds.classesDict then Err(UnknownLabel)
    else Ok((ds.videos[item.id], ds.classesDict[item.labelName]))
  }

  /** The offset draw is one `np.random.randint(0, diff)` could return, whenever
      `__getitem__` reaches the draw. */
  predicate DrawAllowed<R, E>(ds: Dataset<R, E>, index: int, draw: int) {
    match Locate(ds, index)
    case Err(_) => true
    case Ok((video, _)) => DrawFits(ds.geometry, |video|, ds.isVal, draw)
  }

  /** Apply the transform to each frame, in order. */
  function TransformAll<R, E>(f: R -> Image<E>, frames: seq<R>): (r: seq<Image<E>>)
    ensures |r| == |frames|
    ensures forall i :: 0 <= i < |frames| ==> r[i] == f(frames[i])
  {
    seq(|frames|, i requires 0 <= i < |frames| => f(frames[i]))
  }

  /** `__getitem__(index)`: the clip tensor and the class index of manifest row `index`. */
  function GetItem<R, E>(ds: Dataset<R, E>, index: int, draw: int): (r: Result<(Tensor4<E>, int)>)
    requires DrawAllowed(ds, index, draw)
    ensures r.Ok? ==> Locate(ds, index).Ok? && r.value.1 == Locate(ds, index).value.1
    ensures Locate(ds, index).Err? ==> r == Err(Locate(ds, index).error)
  {
    var located :- Locate(ds, index);
    var video := located.0;
    var frames :- SampleFrames(video, ds.geometry, ds.isVal, draw);
    var data :- Assemble(TransformAll(ds.transform, frames));
    Ok((data, located.1))
  }

  /** `__getitem__` raises IndexError from the manifest exactly when the index is outside
      `[-len(self), len(self))` (a Python list also accepts negative indices). */
  lemma IndexErrorIffOutOfRange<R, E>(ds: Dataset<R, E>, index: int, draw: int)
    requires DrawAllowed(ds, index, draw)
    ensures GetItem(ds, index, draw) == Err(IndexOutOfRange) <==> !(-(Len(ds) as int) <= index < Len(ds))
  {
  }

  /** A negative index in `[-len(self), 0)` serves the same row as `index + len(self)`. */
  lemma NegativeIndexAlias<R, E>(ds: Dataset<R, E>, index: int, draw: int)
    requires -(Len(ds) as int) <= index < 0
    ensures Locate(ds, index) == Locate(ds, index + Len(ds))
    ensures DrawAllowed(ds, index, draw) <==> DrawAllowed(ds, index + Len(ds), draw)
    ensures DrawAllowed(ds, index, draw) ==> GetItem(ds, index, draw) == GetItem(ds, index + Len(ds), draw)
  {
  }

  /** A manifest row whose video is missing from the store raises KeyError. */
  lemma UnknownVideoRaises<R, E>(ds: Dataset<R, E>, index: int, draw: int)
    requires 0 <= index < Len(ds) && ds.csvData[index].id !in ds.videos
    ensures DrawAllowed(ds, index, draw)
    ensures GetItem(ds, index, draw) == Err(UnknownVideo)
  {
  }

  /** Padding raw frames before the transform, as the source does, gives the same frames
      as transforming first and padding the transformed frames. */
  lemma PadCommutesWithTransform<R, E>(f: R -> Image<E>, frames: seq<R>, target: int)
    requires Pad(frames, target).Ok?
    ensures Pad(TransformAll(f, frames), target).Ok?
    ensures TransformAll(f, Pad(frames, target).value) == Pad(TransformAll(f, frames), target).value
  {
  }

  /** The conditions under which a manifest row yields a clip: a concrete geometry, a row
      inside the manifest whose video and label are known, a non-empty video, and a
      transform that maps each of its frames to a (c, h, w) tensor. */
  ghost predicate Servable<R, E>(ds: Dataset<R, E>, index: int, c: nat, h: nat, w: nat) {
    && ds.geometry.Concrete()
    && 0 <= index < Len(ds)
    && ds.csvData[index].id in ds.videos
    && ds.csvData[index].labelName in ds.classesDict
    && |ds.videos[ds.csvData[index].id]| >= 1
    && forall x :: x in ds.videos[ds.csvData[index].id] ==> IsImage(ds.transform(x), c, h, w)
  }

  /** Every servable row yields a clip of fixed shape (c, clip_size * nclips, h, w),
      whatever the video's length, together with the class index of the row's label. */
  lemma GetItemShape<R, E>(ds: Dataset<R, E>, index: int, draw: int, c: nat, h: nat, w: nat)
    requires Servable(ds, index, c, h, w)
    requires DrawAllowed(ds, index, draw)
    ensures GetItem(ds, index, draw).Ok?
    ensures IsTensor4(GetItem(ds, index, draw).value.0, c, ds.geometry.Target(), h, w)
    ensures GetItem(ds, index, draw).value.1 == ds.classesDict[ds.csvData[index].labelName]
  {
    var video := ds.videos[ds.csvData[index].id];
    PaddedClip(video, ds.geometry, ds.isVal, draw);
    var frames := SampleFrames(video, ds.geometry, ds.isVal, draw).value;
    var images := TransformAll(ds.transform, frames);
    forall t | 0 <= t < |images|
      ensures IsImage(images[t], c, h, w)
    {
      assert frames[t] in frames;
    }
    AssembleShape(images, c, h, w);
  }

  /** Entry [ch][t][i][j] of a served clip is entry [ch][i][j] of the transformed video
      frame that clip slot `t` samples: frame `offset + min(t, m - 1) * step_size`, where
      `m` frames were read from the window. */
  lemma GetItemContent<R, E>(ds: Dataset<R, E>, index: int, draw: int, c: nat, h: nat, w: nat)
    requires Servable(ds, index, c, h, w)
    requires DrawAllowed(ds, index, draw)
    ensures GetItem(ds, index, draw).Ok?
    ensures var video := ds.videos[ds.csvData[index].id];
      var g := ds.geometry;
      var offset := Offset(g, |video|, ds.isVal, draw);
      var m := |Fetched(video, g, ds.isVal, draw).value|;
      var data := GetItem(ds, index, draw).value.0;
      forall ch, t, i, j :: 0 <= ch < c && 0 <= t < g.Target() && 0 <= i < h && 0 <= j < w ==>
        0 <= SlotFrame(offset, g.stepSize, m, t) < |video|
        && data[ch][t][i][j] == ds.transform(video[SlotFrame(offset, g.stepSize, m, t)])[ch][i][j]
  {
    var video := ds.videos[ds.csvData[index].id];
    GetItemShape(ds, index, draw, c, h, w);
    ClipSlots(video, ds.geometry, ds.isVal, draw);
    var frames := SampleFrames(video, ds.geometry, ds.isVal, draw).value;
    var images := TransformAll(ds.transform, frames);
    forall t | 0 <= t < |images|
      ensures IsImage(images[t], c, h, w)
    {
      assert frames[t] in frames;
    }
    AssembleShape(images, c, h, w);
  }

  /** In evaluation `__getitem__` is deterministic: the draw is never consulted. */
  lemma EvalGetItemDeterministic<R, E>(ds: Dataset<R, E>, index: int, draw1: int, draw2: int)
    requires ds.isVal
    ensures DrawAllowed(ds, index, draw1) && DrawAllowed(ds, index, draw2)
    ensures GetItem(ds, index, draw1) == GetItem(ds, index, draw2)
  {
  }
}
