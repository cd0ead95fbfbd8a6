# Gesture-Recognition clip loader, modelled in Dafny

This project models the data-loading core of a Jester hand-gesture classifier.

`VideoFolder` is a PyTorch dataset over videos stored in a gulp frame store. For each manifest row, `__getitem__` does the following:

- looks up the row's video and its class index;
- works out how many raw frames the clip geometry needs (`clip_size * nclips * step_size`, or the whole video when `nclips` is negative);
- picks a start offset, random in training and 0 in evaluation;
- reads the strided window with Python slice semantics;
- pads a short read by repeating its last frame;
- applies the per-frame transform;
- stacks the frames with `torch.cat` and permutes (T, C, H, W) into (C, T, H, W).

`__len__` is the size of the manifest.

The model also covers `getlable` from the evaluation driver. It maps class indices 1..27 to gesture names, falls back to "NO GESTURE", and prints an `OUTPUT - ` or `TARGET - ` line.

Modules:

- `Outcome`: `Result` and `Option`, plus `LoadError`. `LoadError` has one constructor per failure the model covers: IndexError at src/data_loader_gulpio.py lines 37 and 59, KeyError at lines 39 and 40, ValueError from the slice read at line 57, and `torch.cat`'s RuntimeError at line 67, once for an empty list and once for mismatched shapes.
- `PySlice`: Python list indexing and extended slicing. It follows CPython's bound adjustment for both signs of step.
- `ClipSampler`: the clip geometry, the required frame count, the offset, the window read and the padding.
- `ClipTensor`: tensors as nested sequences. `Stack` is `torch.cat` with its empty and shape-mismatch failures. `Permute` is `permute(1, 0, 2, 3)`.
- `VideoFolder`: the dataset, `Len`, `Locate` and `GetItem`.
- `GestureLabels`: the label display table.

The following are parameters of the model:

- Raw frames are an abstract type `R`.
- Pixel values are an abstract type `E`.
- The composed torchvision transform is a total function `R -> Image<E>` held by the dataset.
- The frame store is a map from video id to the video's frames. The length of that sequence is the length of the metadata's `frame_info` list.
- The value `np.random.randint(0, diff)` returns is the `draw` argument. The precondition `DrawFits` / `DrawAllowed` limits it to `0 <= draw < diff`, and only when the draw actually happens (training with slack).

The model follows the code literally on these points:

- **Offset range.** `np.random.randint`'s upper bound is exclusive, so a training offset lies in `[0, diff - 1]`, not `[0, diff]`. As a result, a training window with slack never reaches the video's last frame (`ClipSampler.WindowPlacement`).
- **Order of padding and transform.** The code pads raw frames and then transforms them, rather than padding transformed frames. For a pure transform the two agree (`VideoFolder.PadCommutesWithTransform`).
- **The "all frames" value of `nclips`.** The code treats every negative `nclips` as "all frames", not only -1.
- **Empty videos.** A video with no frames is not excluded. With a positive padding target and a non-zero step, the code raises IndexError at `frames[-1]`, and the model returns that error.
- **Manifest indexing.** `csv_data` is indexed like a Python list, so a negative index counts from the end.

## Model

| member | source | states |
|---|---|---|
| PySlice.At | src/data_loader_gulpio.py:37 | Indexing the manifest succeeds exactly for `-len <= index < len`. A negative index counts from the end. Any other index raises IndexError. |
| PySlice.AdjustBound | src/data_loader_gulpio.py:54-57 | A slice bound is clamped into the range a walk in the step's direction may use: `[0, n]` for a positive step, `[-1, n-1]` for a negative one. In-range bounds are kept, and negative in-range bounds count from the end. A bound below `-n` becomes 0 (positive step) or -1 (negative step). A bound at or past `n` becomes `n` (positive step) or `n-1` (negative step). |
| PySlice.Slice | src/data_loader_gulpio.py:54-57 | Reading the frame list with a slice raises ValueError exactly when the step is 0. Otherwise every element read comes from the list. |
| PySlice.Walk | src/data_loader_gulpio.py:54-57 | The slice loop `Slice` delegates to: every element it reads comes from the list. Its element-by-element content is stated by `PySlice.WalkAscending` and `PySlice.WalkDescending`. |
| PySlice.WalkAscending | src/data_loader_gulpio.py:54-57 | For `PySlice.Walk` with a positive stride, the k-th element read is `s[i + k*step]`. Every index read is below `stop`, and the first index not read has reached `stop`. |
| PySlice.WalkDescending | src/data_loader_gulpio.py:54-57 | For `PySlice.Walk`, this is the mirror image for a negative stride: indices `i + k*step` above `stop`, with the first skipped index at or below it. |
| PySlice.SliceForward | src/data_loader_gulpio.py:54-57 | For a positive step and non-negative bounds, the slice holds exactly the elements at `start + k*step`, in increasing order, that are below both `stop` and the list's length. |
| PySlice.SliceBackward | src/data_loader_gulpio.py:54-57 | For a negative step, the slice holds exactly the elements at `a + k*step` above the adjusted stop, starting from the adjusted start. |
| ClipSampler.Required | src/data_loader_gulpio.py:42-45 | The number of raw frames needed is `clip_size * nclips * step_size` for `nclips > -1`, and the video length otherwise. For a concrete geometry it is at least `clip_size * nclips >= 1` and at least `step_size`. |
| ClipSampler.Offset | src/data_loader_gulpio.py:46-52 | The offset is never negative. It is 0 in evaluation and whenever there is no slack. Otherwise it is the draw. With slack, `offset + required < num_frames`. |
| ClipSampler.WindowPlacement | src/data_loader_gulpio.py:46-60 | In training with slack, clip slot `t` is video frame `offset + t*step_size`, and that index is below `num_frames - 1`: the clip never shows the video's last frame. In evaluation the first clip slot is frame 0. |
| ClipSampler.Fetched | src/data_loader_gulpio.py:54-57 | The window read fails only for a zero step, and it returns only frames of the video. |
| ClipSampler.Pad | src/data_loader_gulpio.py:58-60 | Padding keeps the read as a prefix and fills up to `clip_size * nclips` with copies of the read's last frame. A read already at least that long is unchanged. An empty short read raises IndexError. |
| ClipSampler.SampleFrames | src/data_loader_gulpio.py:54-60 | A zero step fails with ValueError. Every frame of the sampled clip is a frame of the video. |
| ClipSampler.FetchedWindow | src/data_loader_gulpio.py:42-57 | For a concrete geometry and a non-empty video, the read holds between 1 and `clip_size * nclips` frames. Its k-th frame is video frame `offset + k*step_size`, and it holds every such frame below both the window's end and the video's end. |
| ClipSampler.PaddedClip | src/data_loader_gulpio.py:54-60 | The sampled clip has exactly `clip_size * nclips` frames. The read is its prefix, and every later slot repeats the read's last frame. |
| ClipSampler.ClipSlots | src/data_loader_gulpio.py:46-60 | Clip slot `t` is video frame `offset + min(t, m-1) * step_size`, where `m` is the number of frames read. |
| ClipSampler.WindowInside | src/data_loader_gulpio.py:46-60 | When the whole window fits in the video, nothing is padded and slot `t` is video frame `offset + t*step_size`. |
| ClipSampler.EvalDeterministic | src/data_loader_gulpio.py:46-52 | Evaluation sampling does not depend on the draw. |
| ClipSampler.AllFrames | src/data_loader_gulpio.py:42-60 | With negative `nclips` and `clip_size >= 0`, nothing is padded and the clip is frames `0, step, 2*step, ...`. It has `ceil(num_frames / step_size)` frames: `(len-1)*step < num_frames <= len*step`. |
| ClipSampler.EvalLongVideo | src/data_loader_gulpio.py:42-60 | In evaluation, geometry (4, 2, 1) on a 40-frame video gives frames 0..7. |
| ClipSampler.EvalShortVideo | src/data_loader_gulpio.py:42-60 | In evaluation, geometry (4, 2, 1) on a 5-frame video gives the 5 frames followed by 3 copies of the fifth. |
| ClipTensor.Stack | src/data_loader_gulpio.py:61-67 | `torch.cat` of no frames raises. Frames whose shapes differ raise, for shapes whose extents are all positive (see Left out). Otherwise the stacked tensor's entry `t` is frame `t`, with shape (T, C, H, W). |
| ClipTensor.StackUniform | src/data_loader_gulpio.py:61-67 | Any non-empty list of frames that share one shape (c, h, w) stacks without error into a (T, c, h, w) tensor. |
| ClipTensor.Permute | src/data_loader_gulpio.py:68 | `permute(1, 0, 2, 3)` swaps the first two axes. Entry `[c][t]` of the result is entry `[t][c]` of the input, and shape (a, b, h, w) becomes (b, a, h, w). |
| ClipTensor.PermuteInvolution | src/data_loader_gulpio.py:68 | Permuting twice gives back the original tensor. |
| ClipTensor.Assemble | src/data_loader_gulpio.py:66-68 | Stack then permute fails exactly when stacking fails. Otherwise the result is (C, T, ...) and its entry `[c][t]` is channel `c` of frame `t`. |
| ClipTensor.AssembleShape | src/data_loader_gulpio.py:61-68 | Frames of one shape (c, h, w) assemble into a (c, T, h, w) tensor. Its entry `[ch][t][i][j]` is entry `[ch][i][j]` of frame `t`. |
| VideoFolder.Len | src/data_loader_gulpio.py:72-73 | `__len__` is the first non-negative index at which indexing the manifest fails: every index in `[0, len)` reads a row, and index `len` raises IndexError. |
| VideoFolder.Locate | src/data_loader_gulpio.py:37-40 | The manifest lookup comes first and raises IndexError. Then an unknown video id raises KeyError, then an unknown label raises KeyError. Otherwise the result is the video's frames and the label's class index. |
| VideoFolder.TransformAll | src/data_loader_gulpio.py:61-64 | The transform is applied to each sampled frame once, in order: the result has as many images as there are frames, and image `i` is the transform of frame `i`. |
| VideoFolder.GetItem | src/data_loader_gulpio.py:36-70 | A successful call returns the class index that the row's label maps to. A lookup failure is returned unchanged. |
| VideoFolder.IndexErrorIffOutOfRange | src/data_loader_gulpio.py:36-73 | `__getitem__` raises the manifest IndexError exactly when the index is outside `[-len(self), len(self))`, where `len(self)` is `__len__`. |
| VideoFolder.NegativeIndexAlias | src/data_loader_gulpio.py:36-70 | An index in `[-len(self), 0)` locates the same row as `index + len(self)`, admits the same draws, and `__getitem__` returns the same result for both. |
| VideoFolder.UnknownVideoRaises | src/data_loader_gulpio.py:37-39 | A manifest row whose video id is missing from the store raises KeyError. |
| VideoFolder.PadCommutesWithTransform | src/data_loader_gulpio.py:58-64 | Padding raw frames and then transforming them gives the same frames as transforming first and padding the transformed frames. |
| VideoFolder.GetItemShape | src/data_loader_gulpio.py:36-70 | Every servable row yields a tensor of shape (c, clip_size * nclips, h, w), whatever the video's length. The row's label maps to the class index returned with it. |
| VideoFolder.GetItemContent | src/data_loader_gulpio.py:36-70 | Entry `[ch][t][i][j]` of the clip is entry `[ch][i][j]` of the transformed video frame `offset + min(t, m-1) * step_size`. |
| VideoFolder.EvalGetItemDeterministic | src/data_loader_gulpio.py:46-52 | In evaluation, two calls with the same index return the same result, whatever the draw. |
| GestureLabels.GestureName | src/test.py:137-167 | Index `i` in 1..27 shows the i-th table name. Every other index, including 0 and negative ones, shows "NO GESTURE". |
| GestureLabels.Printed | src/test.py:168-171 | `ipop == 0` prints `OUTPUT - <name> ` and `ipop == 1` prints `TARGET - <name> `. Any other `ipop` prints nothing, and at most one line is printed. |
| GestureLabels.GestureIndex | src/test.py:137-165 | Looking up a name in reverse gives an index in 1..27 whose table entry is that name. The lookup fails exactly when the name is not in the table. |
| GestureLabels.NamesDistinct | src/test.py:137-165 | The 27 names are pairwise distinct, and "NO GESTURE" is none of them. |
| GestureLabels.GestureRoundTrip | src/test.py:137-167 | Reverse lookup of the displayed name gives back the index for 1..27. It finds nothing for any other index. |
| GestureLabels.GestureNameInjective | src/test.py:137-167 | Distinct indices in 1..27 display distinct names, none of which is the default. |
| GestureLabels.PrintedRoundTrip | src/test.py:168-171 | A printed line can be read back into its role (prediction or target) and the gesture name it shows. |

## Left out

- Dataset construction (`VideoFolder.__init__`, `GulpDataset`, `GulpDirectory`): CSV parsing and opening the gulp directory are file I/O in libraries this model does not include (`data_parser` is not part of this model). The `Dataset` datatype is the state construction produces, and configuration errors at construction are not modelled.
- `np.random.randint`: replaced by the `draw` argument and its range precondition. Whether the draw is uniformly distributed cannot be stated here.
- The `transform=None` default (src/data_loader_gulpio.py:18): with no transform, calling it at line 63 raises TypeError. The model's transform is a total function `R -> Image<E>`, so that error cannot arise here.
- Exceptions raised inside the transform: the source lets them propagate from `__getitem__` unchanged. The model's transform cannot fail, so these are not modelled.
- The torchvision pipeline (`ToPILImage`, `CenterCrop`, `ToTensor`, `Normalize`): an opaque total function. Pixel values and floating point are not modelled. A random transform, which would give each padded copy its own crop, is outside the model because the function is pure.
- `torch.unsqueeze`, dtypes and devices: a stacked tensor is the sequence of its frames. A stack whose frames have zero channels is permuted to the empty sequence, so the T, H and W extents of such a (0, T, H, W) tensor are not recorded.
- The metadata returned alongside the frames by the gulp read is unused by the source and is not modelled.
- `DataLoader` batching, worker processes, pinned memory and the timing demo under `__main__` (src/data_loader_gulpio.py:76-107): concurrency and wall-clock I/O.
- Everything in src/test.py except `getlable`: argument parsing, configuration, the SIGINT cleanup handler, checkpoint loading, `DataParallel`/CUDA and the forward pass in `validate`.
- src/trainings/gulp_model/jester_conv_example/print.py: it only loads a checkpoint and prints it.
- GestureLabels.Printed: the model returns the printed text without the newline that `print` appends. `idx` is an integer; Python's `True == 1` key equivalence is not modelled.
- VideoFolder.GetItemShape: the lemma assumes the transform gives one shape on every frame of the video, not only on the sampled frames. That is stronger than necessary, but it is how a fixed transform pipeline behaves.
- VideoFolder.GetItemContent: through `Servable`, the lemma requires the transform to give one (c, h, w) shape on every frame of the video, not only on the sampled frames, for the same reason.
- ClipTensor.Stack: a frame whose channel or height extent is zero does not record the extents after it, because a nested sequence has no entry to read them from. A (c, 0, 3) frame and a (c, 0, 5) frame are the same value, and so are (0, 2, 2) and (0, 3, 3). Frames that differ only in such unrecorded extents stack in the model, where `torch.cat` raises RuntimeError.
- ClipTensor.Permute: defined only for tensors with at least one time step. `torch.cat` has already rejected an empty list before `permute` runs.
