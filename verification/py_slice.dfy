/** Python list indexing and extended slicing `s[start:stop:step]`, which is how the
    frame store reads the frames of one video (`frame_infos[slice_]`). Bounds are
    adjusted the way CPython's `PySlice_AdjustIndices` does it, for either sign of step. */
module PySlice {
  import opened Outcome

  /** `s[i]` on a Python list: a negative index counts from the end. */
  function At<T>(s: seq<T>, i: int): (r: Result<T>)
    ensures r.Ok? <==> -|s| <= i < |s|
    ensures 0 <= i < |s| ==> r == Ok(s[i])
    ensures -|s| <= i < 0 ==> r == Ok(s[|s| + i])
    ensures r.Err? ==> r.error == IndexOutOfRange
  {
    if 0 <= i < |s| then Ok(s[i])
    else if -|s| <= i < 0 then Ok(s[|s| + i])
    else Err(IndexOutOfRange)
  }

  /** One slice bound made concrete for a list of length `n`: negative bounds count
      from the end, and bounds past either end are clamped to the first or last
      position a walk in the direction of `step` may stop at. */
  function AdjustBound(i: int, n: nat, step: int): (r: int)
    requires step != 0
    ensures step > 0 ==> 0 <= r <= n
    ensures step < 0 ==> -1 <= r <= n - 1
    ensures 0 <= i < n ==> r == i
    ensures step > 0 && n <= i ==> r == n
    ensures -(n as int) <= i < 0 ==> r == n + i
    ensures i < -(n as int) ==> r == (if step < 0 then -1 else 0)
    ensures step < 0 && n <= i ==> r == n - 1
  {
    if i < 0 then
      if i + n < 0 then (if step < 0 then -1 else 0) else i + n
    else if i >= n then
      (if step < 0 then n - 1 else n)
    else i
  }

  /** The elements at `i`, `i + step`, `i + 2*step`, ... strictly before `stop`
      (below it for a positive step, above it for a negative one). */
  function Walk<T>(s: seq<T>, i: int, stop: int, step: int): (r: seq<T>)
    requires step != 0
    requires step > 0 ==> 0 <= i && stop <= |s|
    requires step < 0 ==> i <= |s| - 1 && -1 <= stop
    ensures forall x :: x in r ==> x in s
    decreases if step > 0 then stop - i else i - stop
  {
    if (step > 0 && i < stop) || (step < 0 && i > stop) then
      [s[i]] + Walk(s, i + step, stop, step)
    else
      []
  }

  /** `s[start:stop:step]`; a zero step raises ValueError. */
  function Slice<T>(s: seq<T>, start: int, stop: int, step: int): (r: Result<seq<T>>)
    ensures r.Err? <==> step == 0
    ensures r.Err? ==> r.error == ZeroSliceStep
    ensures r.Ok? ==> forall x :: x in r.value ==> x in s
  {
    if step == 0 then Err(ZeroSliceStep)
    else Ok(Walk(s, AdjustBound(start, |s|, step), AdjustBound(stop, |s|, step), step))
  }

  /** One more stride step: `(k + 1) * step == k * step + step`. */
  lemma MulSucc(k: int, step: int)
    ensures (k + 1) * step == k * step + step
  {
  }

  /** Multiplying by a positive stride preserves strict order. */
  lemma MulStrideMonotone(a: int, b: int, step: int)
    requires step > 0
    ensures a < b <==> a * step < b * step
  {
  }

  /** A walk with positive stride picks exactly the indices `i + k*step` below `stop`:
      every picked index is below `stop`, the k-th element is `s[i + k*step]`, and
      the first index not picked has reached `stop`. */
  lemma {:induction false} WalkAscending<T>(s: seq<T>, i: int, stop: int, step: int)
    requires step > 0 && 0 <= i && stop <= |s|
    ensures var r := Walk(s, i, stop, step);
      && (forall k :: 0 <= k < |r| ==> i + k * step < stop && r[k] == s[i + k * step])
      && i + |r| * step >= stop
    decreases stop - i
  {
    var r := Walk(s, i, stop, step);
    if i < stop {
      var rest := Walk(s, i + step, stop, step);
      WalkAscending(s, i + step, stop, step);
      assert r == [s[i]] + rest;
      forall k | 0 <= k < |r|
        ensures i + k * step < stop && r[k] == s[i + k * step]
      {
        if k > 0 {
          assert r[k] == rest[k - 1];
          MulSucc(k - 1, step);
        }
      }
      MulSucc(|rest|, step);
    }
  }

  /** The mirror image for a negative stride: indices `i + k*step` above `stop`. */
  lemma {:induction false} WalkDescending<T>(s: seq<T>, i: int, stop: int, step: int)
    requires step < 0 && i <= |s| - 1 && -1 <= stop
    ensures var r := Walk(s, i, stop, step);
      && (forall k :: 0 <= k < |r| ==> stop < i + k * step && r[k] == s[i + k * step])
      && i + |r| * step <= stop
    decreases i - stop
  {
    var r := Walk(s, i, stop, step);
    if i > stop {
      var rest := Walk(s, i + step, stop, step);
      WalkDescending(s, i + step, stop, step);
      assert r == [s[i]] + rest;
      forall k | 0 <= k < |r|
        ensures stop < i + k * step && r[k] == s[i + k * step]
      {
        if k > 0 {
          assert r[k] == rest[k - 1];
          MulSucc(k - 1, step);
        }
      }
      MulSucc(|rest|, step);
    }
  }

  /** For a positive step and non-negative bounds, `s[start:stop:step]` holds exactly
      the elements at `start + k*step`, in increasing order, that lie below both
      `stop` and the end of the list. */
  lemma SliceForward<T>(s: seq<T>, start: int, stop: int, step: int)
    requires step > 0 && 0 <= start && 0 <= stop
    ensures Slice(s, start, stop, step).Ok?
    ensures var r := Slice(s, start, stop, step).value;
      var bound := if stop < |s| then stop else |s|;
      && (forall k :: 0 <= k < |r| ==> start + k * step < bound && r[k] == s[start + k * step])
      && start + |r| * step >= bound
  {
    var a := AdjustBound(start, |s|, step);
    var b := AdjustBound(stop, |s|, step);
    WalkAscending(s, a, b, step);
    if |s| <= start {
      var r := Walk(s, a, b, step);
      assert |r| == 0;
    }
  }

  /** For a negative step, `s[start:stop:step]` walks down from the adjusted start and
      holds exactly the elements at `a + k*step` that lie above the adjusted stop `b`. */
  lemma SliceBackward<T>(s: seq<T>, start: int, stop: int, step: int)
    requires step < 0
    ensures Slice(s, start, stop, step).Ok?
    ensures var r := Slice(s, start, stop, step).value;
      var a := AdjustBound(start, |s|, step);
      var b := AdjustBound(stop, |s|, step);
      && (forall k :: 0 <= k < |r| ==> b < a + k * step && r[k] == s[a + k * step])
      && a + |r| * step <= b
  {
    WalkDescending(s, AdjustBound(start, |s|, step), AdjustBound(stop, |s|, step), step);
  }
}
