/** The tensor side of `VideoFolder.__getitem__` (src/data_loader_gulpio.py): the
    transformed frames are stacked along a new leading time axis (`torch.cat` of the
    unsqueezed frames) and the axes are then reordered by `permute(1, 0, 2, 3)`, which
    turns (T, C, H, W) into the (C, T, H, W) layout of the 3-D convolutional model.
    Tensors are nested sequences; pixel values are an abstract type `E`. */
module ClipTensor {
  import opened Outcome

  /** An (H, W) plane. */
  type Plane<E> = seq<seq<E>>

  /** One transformed frame: a (C, H, W) tensor. */
  type Image<E> = seq<Plane<E>>

  /** A 4-D tensor: (T, C, H, W) after stacking, (C, T, H, W) after permuting. */
  type Tensor4<E> = seq<seq<Plane<E>>>

  predicate IsPlane<E>(p: Plane<E>, h: nat, w: nat) {
    |p| == h && forall i :: 0 <= i < h ==> |p[i]| == w
  }

  predicate IsImage<E>(x: Image<E>, c: nat, h: nat, w: nat) {
    |x| == c && forall i :: 0 <= i < c ==> IsPlane(x[i], h, w)
  }

  predicate IsTensor4<E>(x: Tensor4<E>, a: nat, b: nat, h: nat, w: nat) {
    |x| == a && forall i :: 0 <= i < a ==> IsImage(x[i], b, h, w)
  }

  /** The (C, H, W) extents read off a frame's first entries (0 where there is none). */
  function ShapeOf<E>(x: Image<E>): (nat, nat, nat) {
    if |x| == 0 then (0, 0, 0)
    else if |x[0]| == 0 then (|x|, 0, 0)
    else (|x|, |x[0]|, |x[0][0]|)
  }

  /** Every frame of `frames` has the shape of the first. */
  predicate SameShapes<E>(frames: seq<Image<E>>)
    requires |frames| >= 1
  {
    var (c, h, w) := ShapeOf(frames[0]);
    forall t :: 0 <= t < |frames| ==> IsImage(frames[t], c, h, w)
  }

  /** `torch.cat` of the unsqueezed frames: an empty list and frames of differing shapes
      both raise; otherwise the stacked tensor's entry `t` is frame `t`. A frame with no
      channels or no rows carries no later extents, so those cannot differ here. */
  function Stack<E>(frames: seq<Image<E>>): (r: Result<Tensor4<E>>)
    ensures |frames| == 0 ==> r == Err(EmptyStack)
    ensures r.Err? ==> r.error == EmptyStack || r.error == ShapeMismatch
    ensures r.Ok? ==> r.value == frames && |frames| >= 1
    ensures r.Ok? ==> var (c, h, w) := ShapeOf(frames[0]); IsTensor4(r.value, |frames|, c, h, w)
  {
    if |frames| == 0 then Err(EmptyStack)
    else if SameShapes(frames) then Ok(frames)
    else Err(ShapeMismatch)
  }

  /** Frames that all have one shape (c, h, w) also all have the shape read off the first. */
  lemma ShapeOfUniform<E>(frames: seq<Image<E>>, c: nat, h: nat, w: nat)
    requires |frames| >= 1
    requires forall t :: 0 <= t < |frames| ==> IsImage(frames[t], c, h, w)
    ensures SameShapes(frames)
  {
  }

  /** Stacking succeeds exactly on a non-empty list of frames of one common shape, and
      the stacked tensor has shape (T, C, H, W). */
  lemma StackUniform<E>(frames: seq<Image<E>>, c: nat, h: nat, w: nat)
    requires |frames| >= 1
    requires forall t :: 0 <= t < |frames| ==> IsImage(frames[t], c, h, w)
    ensures Stack(frames) == Ok(frames)
    ensures IsTensor4(frames, |frames|, c, h, w)
  {
    ShapeOfUniform(frames, c, h, w);
  }

  /** The (T, C) prefix of the shape is rectangular: every time step has `|x[0]|` channels. */
  predicate Rectangular<E>(x: Tensor4<E>) {
    |x| >= 1 && forall t :: 0 <= t < |x| ==> |x[t]| == |x[0]|
  }

  /** `x.permute(1, 0, 2, 3)`: swaps the first two axes; each (H, W) plane moves as is. */
  function Permute<E>(x: Tensor4<E>): (r: Tensor4<E>)
    requires Rectangular(x)
    ensures |r| == |x[0]|
    ensures forall c :: 0 <= c < |r| ==> |r[c]| == |x|
    ensures forall c, t :: 0 <= c < |r| && 0 <= t < |x| ==> r[c][t] == x[t][c]
    ensures forall a, b, h, w :: IsTensor4(x, a, b, h, w) ==> IsTensor4(r, b, a, h, w)
  {
    seq(|x[0]|, c requires 0 <= c < |x[0]| => seq(|x|, t requires 0 <= t < |x| => x[t][c]))
  }

  /** Permuting twice restores the tensor, so no entry is lost or duplicated. */
  lemma PermuteInvolution<E>(x: Tensor4<E>)
    requires Rectangular(x) && |x[0]| >= 1
    ensures Rectangular(Permute(x))
    ensures Permute(Permute(x)) == x
  {
    var r := Permute(x);
    var back := Permute(r);
    assert |back| == |x|;
    forall t | 0 <= t < |x|
      ensures back[t] == x[t]
    {
      assert |back[t]| == |x[t]|;
    }
  }

  /** Stack then permute: a (C, T, H, W) tensor whose entry [c][t][i][j] is entry
      [c][i][j] of frame t. */
  function Assemble<E>(frames: seq<Image<E>>): (r: Result<Tensor4<E>>)
    ensures r.Err? <==> Stack(frames).Err?
    ensures r.Ok? ==> Rectangular(frames) && |r.value| == |frames[0]|
    ensures r.Ok? ==> forall c :: 0 <= c < |r.value| ==> |r.value[c]| == |frames|
    ensures r.Ok? ==> forall c, t :: 0 <= c < |r.value| && 0 <= t < |frames| ==> r.value[c][t] == frames[t][c]
  {
    var data :- Stack(frames);
    Ok(Permute(data))
  }

  /** Frames of one common shape (c, h, w) assemble into a (c, T, h, w) tensor. */
  lemma AssembleShape<E>(frames: seq<Image<E>>, c: nat, h: nat, w: nat)
    requires |frames| >= 1
    requires forall t :: 0 <= t < |frames| ==> IsImage(frames[t], c, h, w)
    ensures Assemble(frames).Ok?
    ensures IsTensor4(Assemble(frames).value, c, |frames|, h, w)
    ensures forall ch, t, i, j :: 0 <= ch < c && 0 <= t < |frames| && 0 <= i < h && 0 <= j < w ==>
      Assemble(frames).value[ch][t][i][j] == frames[t][ch][i][j]
  {
    StackUniform(frames, c, h, w);
  }
}
