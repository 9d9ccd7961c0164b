/** The three selection helpers of the settlement loop
    (mainwindow.cpp:120-161). Each is a left-to-right scan that keeps the
    first best candidate; the C++ sentinels INT_MAX and INT_MIN are replaced
    by "no candidate yet" (index -1). */
module Selection {
  import opened Results
  import opened ModeSets

  /** `idx` is what getMinIndex holds after scanning a[..k]: -1 when every
      scanned balance is zero, else the first index of the smallest nonzero
      scanned balance. */
  ghost predicate IsFirstMin(a: seq<int>, k: nat, idx: int)
    requires k <= |a|
  {
    && -1 <= idx < k
    && (idx == -1 <==> forall j :: 0 <= j < k ==> a[j] == 0)
    && (idx >= 0 ==> a[idx] != 0 && forall j :: 0 <= j < k && a[j] != 0 ==>
          a[idx] <= a[j] && (j < idx ==> a[idx] < a[j]))
  }

  /** The same for getSimpleMaxIndex: the first index of the largest nonzero
      balance among a[..k]. */
  ghost predicate IsFirstMax(a: seq<int>, k: nat, idx: int)
    requires k <= |a|
  {
    && -1 <= idx < k
    && (idx == -1 <==> forall j :: 0 <= j < k ==> a[j] == 0)
    && (idx >= 0 ==> a[idx] != 0 && forall j :: 0 <= j < k && a[j] != 0 ==>
          a[j] <= a[idx] && (j < idx ==> a[j] < a[idx]))
  }

  function MinFrom(a: seq<int>, i: nat, idx: int): (r: int)
    requires i <= |a| && IsFirstMin(a, i, idx)
    ensures IsFirstMin(a, |a|, r)
    decreases |a| - i
  {
    if i == |a| then idx
    else if a[i] == 0 then MinFrom(a, i + 1, idx)
    else if idx < 0 || a[i] < a[idx] then MinFrom(a, i + 1, i)
    else MinFrom(a, i + 1, idx)
  }

  /** getMinIndex: the first index holding the smallest nonzero balance, or
      -1 when every balance is zero. */
  function MinIndex(a: seq<int>): (r: int)
    ensures IsFirstMin(a, |a|, r)
  {
    MinFrom(a, 0, -1)
  }

  function MaxFrom(a: seq<int>, i: nat, idx: int): (r: int)
    requires i <= |a| && IsFirstMax(a, i, idx)
    ensures IsFirstMax(a, |a|, r)
    decreases |a| - i
  {
    if i == |a| then idx
    else if a[i] == 0 then MaxFrom(a, i + 1, idx)
    else if idx < 0 || a[i] > a[idx] then MaxFrom(a, i + 1, i)
    else MaxFrom(a, i + 1, idx)
  }

  /** getSimpleMaxIndex: the first index holding the largest nonzero balance,
      or -1 when every balance is zero. Mode sets play no part. */
  function SimpleMaxIndex(a: seq<int>): (r: int)
    ensures IsFirstMax(a, |a|, r)
  {
    MaxFrom(a, 0, -1)
  }

  /** Every bank accepts at least one mode and stores its modes as a set. */
  predicate ModeSetsValid(modes: seq<seq<string>>) {
    forall i :: 0 <= i < |modes| ==> |modes[i]| > 0 && StrictlySorted(modes[i])
  }

  /** Bank j can receive from bank mi directly: it is owed money and shares a
      mode with mi. */
  ghost predicate Eligible(a: seq<int>, modes: seq<seq<string>>, mi: nat, j: nat)
    requires |modes| == |a| && mi < |a| && j < |a|
  {
    a[j] > 0 && Share(modes[mi], modes[j])
  }

  /** (idx, mode) is what getMaxIndex holds after scanning a[..k]: no match
      yet, or the first eligible bank with the largest balance so far and
      the least mode it shares with mi. */
  ghost predicate IsBestMatch(a: seq<int>, modes: seq<seq<string>>, mi: nat, k: nat, idx: int, mode: string)
    requires |modes| == |a| && mi < |a| && k <= |a|
  {
    && -1 <= idx < k
    && (idx == -1 <==> forall j :: 0 <= j < k ==> !Eligible(a, modes, mi, j))
    && (idx == -1 ==> mode == "")
    && (idx >= 0 ==>
          && Eligible(a, modes, mi, idx)
          && IsLeastCommon(modes[mi], modes[idx], mode)
          && forall j :: 0 <= j < k && Eligible(a, modes, mi, j) ==>
               a[j] <= a[idx] && (j < idx ==> a[j] < a[idx]))
  }

  function MatchFrom(a: seq<int>, modes: seq<seq<string>>, mi: nat, i: nat, idx: int, mode: string): (r: (int, string))
    requires |modes| == |a| && ModeSetsValid(modes) && mi < |a| && i <= |a|
    requires IsBestMatch(a, modes, mi, i, idx, mode)
    ensures IsBestMatch(a, modes, mi, |a|, r.0, r.1)
    decreases |a| - i
  {
    if i == |a| then (idx, mode)
    else if a[i] <= 0 then MatchFrom(a, modes, mi, i + 1, idx, mode)
    else
      var common := FirstCommon(modes[mi], modes[i]);
      if common.Some? && (idx < 0 || a[i] > a[idx]) then
        assert Eligible(a, modes, mi, i);
        MatchFrom(a, modes, mi, i + 1, i, common.value)
      else
        MatchFrom(a, modes, mi, i + 1, idx, mode)
  }

  /** getMaxIndex: among the banks owed money that share a mode with bank
      `mi`, the first with the largest balance, together with the least mode
      the two share; (-1, "") when `mi` is out of range or there is none. */
  function MaxIndex(a: seq<int>, modes: seq<seq<string>>, mi: int): (r: (int, string))
    requires |modes| == |a| && ModeSetsValid(modes)
    ensures mi < 0 || mi >= |a| ==> r == (-1, "")
    ensures 0 <= mi < |a| ==> IsBestMatch(a, modes, mi, |a|, r.0, r.1)
  {
    if mi < 0 || mi >= |a| then (-1, "")
    else MatchFrom(a, modes, mi, 0, -1, "")
  }

  /** The mode MaxIndex reports is the same whichever of the two banks is
      taken as the debtor. */
  lemma MatchedModeSymmetric(a: seq<int>, modes: seq<seq<string>>, mi: int)
    requires |modes| == |a| && ModeSetsValid(modes)
    requires 0 <= mi < |a| && MaxIndex(a, modes, mi).0 >= 0
    ensures var r := MaxIndex(a, modes, mi);
            FirstCommon(modes[r.0], modes[mi]) == Some(r.1)
  {
    var r := MaxIndex(a, modes, mi);
    FirstCommonSymmetric(modes[mi], modes[r.0]);
    LeastCommonUnique(modes[mi], modes[r.0], r.1, FirstCommon(modes[mi], modes[r.0]).value);
  }

  lemma LeastCommonUnique(a: seq<string>, b: seq<string>, m1: string, m2: string)
    requires IsLeastCommon(a, b, m1) && IsLeastCommon(a, b, m2)
    ensures m1 == m2
  {
    if m1 != m2 {
      Text.LessAsymmetric(m1, m2);
    }
  }
}
