/**
 * The activity map of the loader and its application to a label column
 * (Coursework/load.py:29 and :38-39).
 *
 * `dict(zip(ids, names))` pairs the two columns of the activity table,
 * stopping at the shorter one, and inserts the pairs in order, so a later
 * pair overwrites an earlier pair with the same id. `Series.map(dict)`
 * replaces every id by its name and every id the map lacks by NaN.
 */
module Activities {
  import opened Cells

  /** Python's `zip` of two columns: pairs up to the length of the shorter one. */
  function Zip(ids: seq<int>, names: seq<string>): (pairs: seq<(int, string)>)
    ensures |pairs| == if |ids| < |names| then |ids| else |names|
    ensures forall k :: 0 <= k < |pairs| ==> pairs[k] == (ids[k], names[k])
    decreases |ids|
  {
    if |ids| == 0 || |names| == 0 then []
    else [(ids[0], names[0])] + Zip(ids[1..], names[1..])
  }

  /** Python's `dict` of a sequence of pairs, inserted front to back. */
  function DictOf(pairs: seq<(int, string)>): (m: map<int, string>)
    ensures forall k :: 0 <= k < |pairs| ==> pairs[k].0 in m
    ensures forall id :: id in m ==> exists k :: 0 <= k < |pairs| && pairs[k].0 == id
    ensures forall k :: 0 <= k < |pairs| && (forall j :: k < j < |pairs| ==> pairs[j].0 != pairs[k].0) ==>
      pairs[k].0 in m && m[pairs[k].0] == pairs[k].1
    decreases |pairs|
  {
    if |pairs| == 0 then map[]
    else
      var init, last := pairs[..|pairs| - 1], pairs[|pairs| - 1];
      assert forall k :: 0 <= k < |init| ==> init[k] == pairs[k];
      DictOf(init)[last.0 := last.1]
  }

  /**
   * The activity map built from the id and name columns of the activity
   * table: its keys are exactly the ids that have a partner name, and each
   * key holds the name of its last occurrence.
   */
  function ActivityMap(ids: seq<int>, names: seq<string>): (m: map<int, string>)
    ensures forall k :: 0 <= k < |ids| && k < |names| ==> ids[k] in m
    ensures forall id :: id in m ==> exists k :: 0 <= k < |ids| && k < |names| && ids[k] == id
    ensures forall k :: 0 <= k < |ids| && k < |names| && (forall j :: k < j < |ids| && j < |names| ==> ids[j] != ids[k]) ==>
      ids[k] in m && m[ids[k]] == names[k]
  {
    DictOf(Zip(ids, names))
  }

  /** `Series.map(activity_map)` on one cell. */
  function Lookup(m: map<int, string>, id: int): Value {
    if id in m then Str(m[id]) else NaN
  }

  /** `Series.map(activity_map)` on a whole label column. */
  function MapIds(ids: seq<int>, m: map<int, string>): (column: seq<Value>)
    ensures |column| == |ids|
    ensures forall i :: 0 <= i < |ids| && ids[i] in m ==> column[i] == Str(m[ids[i]])
    ensures forall i :: 0 <= i < |ids| && ids[i] !in m ==> column[i] == NaN
    decreases |ids|
  {
    if |ids| == 0 then [] else [Lookup(m, ids[0])] + MapIds(ids[1..], m)
  }

  /** Mapping works cell by cell: it distributes over concatenation of columns. */
  lemma {:induction false} MapIdsAppend(a: seq<int>, b: seq<int>, m: map<int, string>)
    ensures MapIds(a + b, m) == MapIds(a, m) + MapIds(b, m)
    decreases |a|
  {
    if |a| > 0 {
      MapIdsAppend(a[1..], b, m);
      assert (a + b)[1..] == a[1..] + b;
    }
  }

  /** When the map covers every id, no cell goes missing and every cell is a name of the map. */
  lemma MapIdsCovered(ids: seq<int>, m: map<int, string>)
    requires forall i :: 0 <= i < |ids| ==> ids[i] in m
    ensures forall i :: 0 <= i < |ids| ==> MapIds(ids, m)[i].Str? && MapIds(ids, m)[i].text in m.Values
  {
  }

}
