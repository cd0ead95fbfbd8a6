/** The evaluation driver's display table (`getlable` in src/test.py): it maps a class
    index to a Jester gesture name and renders the line printed for a prediction
    (`ipop == 0`) or for the ground truth (`ipop == 1`). */
module GestureLabels {
  import opened Outcome

  /** The 27 gesture names in table order: the name of index `i` is `Names[i - 1]`. */
  const Names: seq<string> := [
    "Swiping Left",
    "Swiping Right",
    "Swiping Down",
    "Swiping Up",
    "Pushing Hand Away",
    "Pulling Hand In",
    "Sliding Two Fingers Left",
    "Sliding Two Fingers Right",
    "Sliding Two Fingers Down",
    "Sliding Two Fingers Up",
    "Pushing Two Fingers Away",
    "Pulling Two Fingers In",
    "Rolling Hand Forward",
    "Rolling Hand Backward",
    "Turning Hand Clockwise",
    "Turning Hand Counterclockwise",
    "Zooming In With Full Hand",
    "Zooming Out With Full Hand",
    "Zooming In With Two Fingers",
    "Zooming Out With Two Fingers",
    "Thumb Up",
    "Thumb Down",
    "Shaking Hand",
    "Stop Sign",
    "Drumming Fingers",
    "No gesture",
    "Doing other things"
  ]

  /** The value `switcher.get` falls back to for an index outside the table. */
  const NoGesture: string := "NO GESTURE"

  /** The `switcher` dictionary: keys 1..27. */
  const Switcher: map<int, string> := map i | 1 <= i <= |Names| :: Names[i - 1]

  /** Line prefixes for a prediction (`ipop == 0`) and for the ground truth (`ipop == 1`). */
  const OutputPrefix: string := "OUTPUT - "
  const TargetPrefix: string := "TARGET - "

  /** `switcher.get(idx, 'NO GESTURE')`: the table name for 1..27, the default elsewhere. */
  function GestureName(idx: int): (name: string)
    ensures 1 <= idx <= |Names| ==> name == Names[idx - 1]
    ensures idx < 1 || |Names| < idx ==> name == NoGesture
  {
    if idx in Switcher then Switcher[idx] else NoGesture
  }

  /** The lines `getlable(idx, ipop)` prints (without the newline `print` appends):
      one `if` for `ipop == 0` followed by an independent `if` for `ipop == 1`. */
  function Printed(idx: int, ipop: int): (lines: seq<string>)
    ensures |lines| <= 1
    ensures |lines| == 1 <==> ipop == 0 || ipop == 1
    ensures ipop == 0 ==> lines == [OutputPrefix + GestureName(idx) + " "]
    ensures ipop == 1 ==> lines == [TargetPrefix + GestureName(idx) + " "]
  {
    var res := GestureName(idx);
    (if ipop == 0 then [OutputPrefix + res + " "] else [])
    + (if ipop == 1 then [TargetPrefix + res + " "] else [])
  }

  /** First position of `name` in `s`: the reverse direction of the table. */
  function Find(s: seq<string>, name: string): (r: Option<nat>)
    ensures r.Some? ==> r.value < |s| && s[r.value] == name
    ensures r.Some? ==> forall j :: 0 <= j < r.value ==> s[j] != name
    ensures r.None? <==> name !in s
  {
    if |s| == 0 then None
    else if s[0] == name then Some(0)
    else match Find(s[1..], name)
      case None => None
      case Some(k) => Some(k + 1)
  }

  /** The class index a displayed name stands for, if it is one of the table's names. */
  function GestureIndex(name: string): (r: Option<int>)
    ensures r.Some? ==> 1 <= r.value <= |Names| && Names[r.value - 1] == name
    ensures r.None? <==> name !in Names
  {
    match Find(Names, name)
    case None => None
    case Some(k) => Some(k + 1)
  }

  /** Reads a printed line back into its role (0 prediction, 1 target) and gesture name. */
  function ParseLine(line: string): (r: Option<(int, string)>)
    ensures r.Some? ==> r.value.0 == 0 || r.value.0 == 1
  {
    if |line| < |OutputPrefix| + 1 || line[|line| - 1] != ' ' then None
    else if line[..|OutputPrefix|] == OutputPrefix then Some((0, line[|OutputPrefix|..|line| - 1]))
    else if line[..|TargetPrefix|] == TargetPrefix then Some((1, line[|TargetPrefix|..|line| - 1]))
    else None
  }

  /** The 27 table names are pairwise distinct, and the default is none of them. */
  lemma NamesDistinct()
    ensures forall i, j :: 0 <= i < j < |Names| ==> Names[i] != Names[j]
    ensures NoGesture !in Names
  {
  }

  /** The table is a bijection between 1..27 and its names: looking a displayed name
      up again gives back the index, and an index outside the table shows the default,
      which no table entry equals. */
  lemma GestureRoundTrip(idx: int)
    ensures 1 <= idx <= |Names| ==> GestureIndex(GestureName(idx)) == Some(idx)
    ensures idx < 1 || |Names| < idx ==> GestureIndex(GestureName(idx)) == None
  {
    NamesDistinct();
  }

  /** Distinct indices in 1..27 display distinct names; every index outside shows the default. */
  lemma GestureNameInjective(i: int, j: int)
    requires 1 <= i <= |Names| && 1 <= j <= |Names| && i != j
    ensures GestureName(i) != GestureName(j)
    ensures GestureName(i) != NoGesture
  {
    GestureRoundTrip(i);
    GestureRoundTrip(j);
    var a, b := GestureName(i), GestureName(j);
    assert GestureIndex(a) != GestureIndex(b);
    NamesDistinct();
    assert a in Names;
  }

  /** A printed line determines both the role and the gesture name it came from. */
  lemma PrintedRoundTrip(idx: int, ipop: int)
    requires ipop == 0 || ipop == 1
    ensures ParseLine(Printed(idx, ipop)[0]) == Some((ipop, GestureName(idx)))
  {
    var res := GestureName(idx);
    var prefix := if ipop == 0 then OutputPrefix else TargetPrefix;
    var line := prefix + res + " ";
    assert line[..|prefix|] == prefix;
    assert line[|prefix|..|line| - 1] == res;
  }
}
