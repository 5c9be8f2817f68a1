/**
 * The binary active/inactive label of the loader (Coursework/load.py:42-49).
 *
 * `to_binary_label` asks whether its argument is one of three walking
 * activity names; Python's `in` on a list compares with `==`, so a NaN or an
 * integer is never in the list and gets 0. `apply` runs it on every cell of
 * the Activity column to make the Binary column.
 */
module BinaryLabel {
  import opened Cells
  import Activities

  /** The activities counted as active. */
  const WalkingNames: seq<string> := ["WALKING", "WALKING_UPSTAIRS", "WALKING_DOWNSTAIRS"]

  /** `to_binary_label`: 1 for a walking activity, 0 for anything else. */
  function ToBinaryLabel(activity: Value): (flag: int)
    ensures flag == 0 || flag == 1
    ensures flag == 1 <==>
      activity == Str("WALKING") || activity == Str("WALKING_UPSTAIRS") || activity == Str("WALKING_DOWNSTAIRS")
    ensures activity.NaN? || activity.Int? ==> flag == 0
  {
    if activity.Str? && activity.text in WalkingNames then 1 else 0
  }

  /** `activity.apply(to_binary_label)`: the Binary column. */
  function BinaryColumn(activity: seq<Value>): (binary: seq<int>)
    ensures |binary| == |activity|
    ensures forall i :: 0 <= i < |activity| ==> binary[i] == ToBinaryLabel(activity[i])
    decreases |activity|
  {
    if |activity| == 0 then [] else [ToBinaryLabel(activity[0])] + BinaryColumn(activity[1..])
  }

  /**
   * `to_binary_label` is not idempotent on its own output: a label is an
   * integer, and no integer is in the list of walking names.
   */
  lemma BinaryLabelOfLabelIsZero(activity: Value)
    ensures ToBinaryLabel(Int(ToBinaryLabel(activity))) == 0
  {
  }

  /** A label table after load.py:38 and :48: the Activity column and the Binary column. */
  datatype LabelFrame = LabelFrame(activity: seq<Value>, binary: seq<int>)

  /**
   * One split (train or test) after its ids are mapped to names and the
   * binary label is added. Row i is active exactly when its id is in the
   * map and names a walking activity; an unmapped id gives NaN and 0.
   */
  function LabelSplit(ids: seq<int>, m: map<int, string>): (frame: LabelFrame)
    ensures |frame.activity| == |ids| && |frame.binary| == |ids|
    ensures forall i :: 0 <= i < |ids| ==>
      (frame.binary[i] == 1 <==> ids[i] in m && m[ids[i]] in WalkingNames)
    ensures forall i :: 0 <= i < |ids| ==> frame.binary[i] == 0 || frame.binary[i] == 1
    ensures forall i :: 0 <= i < |ids| && ids[i] in m ==> frame.activity[i] == Str(m[ids[i]])
    ensures forall i :: 0 <= i < |ids| ==> frame.binary[i] == ToBinaryLabel(frame.activity[i])
    ensures forall i :: 0 <= i < |ids| && ids[i] !in m ==> frame.activity[i] == NaN && frame.binary[i] == 0
  {
    var activity := Activities.MapIds(ids, m);
    LabelFrame(activity, BinaryColumn(activity))
  }

}
