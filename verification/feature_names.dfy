/**
 * Feature-name disambiguation of the loader (Coursework/load.py:17-24).
 *
 * Every feature name, duplicate or not, gets "_" and the decimal text of
 * its 0-based row position appended; the 1-based `idx` column of the
 * feature table plays no part. Because the appended digits never contain
 * the separator, the position can be read back from the text after the
 * last separator, so the renamed features are pairwise distinct whatever
 * the original names look like.
 */
module FeatureNames {
  import opened Wrappers
  import Decimal

  const Separator: char := '_'

  /** One row of the feature table: the file's own index column and the feature name. */
  datatype FeatureRow = FeatureRow(idx: int, feature: string)

  /** The name given to feature `name` in row `position`. */
  function Suffixed(name: string, position: nat): string {
    name + [Separator] + Decimal.FromNat(position)
  }

  /** The position of the last occurrence of `c` in `s`, if any. */
  function LastIndexOf(s: string, c: char): (r: Option<nat>)
    ensures r.Some? ==> r.value < |s| && s[r.value] == c
    ensures r.Some? ==> forall j :: r.value < j < |s| ==> s[j] != c
    ensures r.None? ==> forall j :: 0 <= j < |s| ==> s[j] != c
    decreases |s|
  {
    if |s| == 0 then None
    else if s[|s| - 1] == c then Some(|s| - 1)
    else LastIndexOf(s[..|s| - 1], c)
  }

  /**
   * Reads a renamed feature back: the base name before the last separator
   * and the position written after it. Fails when there is no separator or
   * the text after the last one is not the canonical decimal of a number.
   */
  function SplitSuffix(s: string): Option<(string, nat)> {
    match LastIndexOf(s, Separator)
    case None => None
    case Some(k) =>
      match Decimal.ToNat(s[k + 1..])
      case None => None
      case Some(position) => Some((s[..k], position))
  }

  /** Reading back a renamed feature recovers its base name and position. */
  lemma SplitSuffixed(name: string, position: nat)
    ensures SplitSuffix(Suffixed(name, position)) == Some((name, position))
  {
    var digits := Decimal.FromNat(position);
    var s := Suffixed(name, position);
    assert s[|name|] == Separator;
    var r := LastIndexOf(s, Separator);
    assert r == Some(|name|);
    assert s[|name| + 1..] == digits;
    assert s[..|name|] == name;
    Decimal.ToNatFromNat(position);
  }

  /** Exactly the renamed features read back successfully, and each to the pair that produced it. */
  lemma SplitSuffixExact(s: string, name: string, position: nat)
    ensures SplitSuffix(s) == Some((name, position)) <==> s == Suffixed(name, position)
  {
    if s == Suffixed(name, position) {
      SplitSuffixed(name, position);
    }
    if SplitSuffix(s) == Some((name, position)) {
      var k := LastIndexOf(s, Separator).value;
      Decimal.FromNatToNat(s[k + 1..]);
      assert s == s[..k] + [Separator] + s[k + 1..];
    }
  }

  /** Two renamed features coincide only when both base name and position coincide. */
  lemma SuffixedInjective(a: string, i: nat, b: string, j: nat)
    ensures Suffixed(a, i) == Suffixed(b, j) <==> a == b && i == j
  {
    SplitSuffixed(a, i);
    SplitSuffixed(b, j);
  }

  /**
   * The rename of load.py:23 over the whole feature table. Row `i` gets
   * position `i`, not `rows[i].idx`; every name is renamed, including names
   * that were already unique.
   */
  method SuffixFeatureNames(rows: seq<FeatureRow>) returns (names: seq<string>)
    ensures |names| == |rows|
    ensures forall i :: 0 <= i < |rows| ==> names[i] == Suffixed(rows[i].feature, i)
    ensures forall i :: 0 <= i < |rows| ==> SplitSuffix(names[i]) == Some((rows[i].feature, i))
    ensures forall i, j :: 0 <= i < j < |names| ==> names[i] != names[j]
    ensures forall i :: 0 <= i < |rows| ==> names[i] != rows[i].feature
  {
    names := [];
    var position := 0;
    while position < |rows|
      invariant position <= |rows|
      invariant |names| == position
      invariant forall i :: 0 <= i < position ==> names[i] == Suffixed(rows[i].feature, i)
    {
      names := names + [Suffixed(rows[position].feature, position)];
      position := position + 1;
    }
    forall i | 0 <= i < |rows|
      ensures SplitSuffix(names[i]) == Some((rows[i].feature, i))
    {
      SplitSuffixed(rows[i].feature, i);
    }
    forall i, j | 0 <= i < j < |names|
      ensures names[i] != names[j]
    {
      SuffixedInjective(rows[i].feature, i, rows[j].feature, j);
    }
  }

}
