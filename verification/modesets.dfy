/** Sets of payment modes as std::set<std::string> stores them: strictly
    increasing sequences under the lexicographic order, built by repeated
    insertion and intersected by the ordered merge of std::set_intersection. */
module ModeSets {
  import opened Results
  import opened Text

  /** The iteration order of a std::set: every element strictly before the
      ones after it, hence no duplicates. */
  predicate StrictlySorted(s: seq<string>) {
    forall i, j :: 0 <= i < j < |s| ==> Less(s[i], s[j])
  }

  /** `x` is strictly below every element of the sorted `s` when it is below
      the first; so it is not an element. */
  lemma BelowFirst(s: seq<string>, x: string)
    requires StrictlySorted(s) && |s| > 0 && Less(x, s[0])
    ensures forall k :: 0 <= k < |s| ==> Less(x, s[k])
    ensures x !in s
  {
    forall k | 0 < k < |s|
      ensures Less(x, s[k])
    {
      LessTransitive(x, s[0], s[k]);
    }
    forall k | 0 <= k < |s|
      ensures s[k] != x
    {
      if s[k] == x {
        LessIrreflexive(x);
      }
    }
  }

  /** std::set::insert: adds `x` in its place, leaving the set unchanged when
      `x` is already there. */
  function Insert(s: seq<string>, x: string): (r: seq<string>)
    requires StrictlySorted(s)
    ensures StrictlySorted(r)
    ensures forall m :: m in r <==> m in s || m == x
    ensures |r| == if x in s then |s| else |s| + 1
  {
    if |s| == 0 then [x]
    else if Less(x, s[0]) then
      BelowFirst(s, x);
      [x] + s
    else if x == s[0] then s
    else
      LessTotal(x, s[0]);
      assert Less(s[0], x);
      var rest := Insert(s[1..], x);
      assert forall k :: 0 <= k < |rest| ==> rest[k] in s[1..] || rest[k] == x;
      assert s == [s[0]] + s[1..];
      [s[0]] + rest
  }

  /** The set holding exactly the elements of `xs`, built by inserting them
      in order into an empty set. */
  function FromList(xs: seq<string>): (r: seq<string>)
    ensures StrictlySorted(r)
    ensures forall m :: m in r <==> m in xs
    ensures |r| <= |xs|
  {
    if |xs| == 0 then []
    else
      var init := xs[..|xs| - 1];
      assert xs == init + [xs[|xs| - 1]];
      Insert(FromList(init), xs[|xs| - 1])
  }

  /** std::set_intersection over two ascending ranges: advance past the
      smaller head, copy a head common to both. */
  function Intersect(a: seq<string>, b: seq<string>): (r: seq<string>)
    requires StrictlySorted(a) && StrictlySorted(b)
    ensures StrictlySorted(r)
    ensures forall m :: m in r <==> m in a && m in b
    decreases |a| + |b|
  {
    if |a| == 0 || |b| == 0 then []
    else if Less(a[0], b[0]) then
      BelowFirst(b, a[0]);
      assert a == [a[0]] + a[1..];
      Intersect(a[1..], b)
    else if Less(b[0], a[0]) then
      BelowFirst(a, b[0]);
      assert b == [b[0]] + b[1..];
      Intersect(a, b[1..])
    else
      LessTotal(a[0], b[0]);
      var rest := Intersect(a[1..], b[1..]);
      assert a == [a[0]] + a[1..] && b == [b[0]] + b[1..];
      assert forall k :: 0 <= k < |rest| ==> rest[k] in a[1..];
      [a[0]] + rest
  }

  /** Two sorted sequences with the same elements are the same sequence. */
  lemma {:induction false} SortedUnique(x: seq<string>, y: seq<string>)
    requires StrictlySorted(x) && StrictlySorted(y)
    requires forall m :: m in x <==> m in y
    ensures x == y
    decreases |x|
  {
    if |x| > 0 { assert x[0] in y; }
    if |y| > 0 { assert y[0] in x; }
    if |x| > 0 && |y| > 0 {
      var j :| 0 <= j < |x| && x[j] == y[0];
      var k :| 0 <= k < |y| && y[k] == x[0];
      if j != 0 && k != 0 {
        LessAsymmetric(x[0], y[0]);
      }
      assert x[0] == y[0];
      forall m
        ensures m in x[1..] <==> m in y[1..]
      {
        if m in x[1..] {
          var i :| 1 <= i < |x| && x[i] == m;
          if m == x[0] { LessIrreflexive(m); }
          assert m in y;
          var i' :| 0 <= i' < |y| && y[i'] == m;
          assert y[1..][i' - 1] == m;
        }
        if m in y[1..] {
          var i :| 1 <= i < |y| && y[i] == m;
          if m == y[0] { LessIrreflexive(m); }
          assert m in x;
          var i' :| 0 <= i' < |x| && x[i'] == m;
          assert x[1..][i' - 1] == m;
        }
      }
      SortedUnique(x[1..], y[1..]);
      assert x == [x[0]] + x[1..] && y == [y[0]] + y[1..];
    }
  }

  /** The merge does not depend on which set comes first. */
  lemma IntersectSymmetric(a: seq<string>, b: seq<string>)
    requires StrictlySorted(a) && StrictlySorted(b)
    ensures Intersect(a, b) == Intersect(b, a)
  {
    SortedUnique(Intersect(a, b), Intersect(b, a));
  }

  /** The two sets have a mode in common. */
  ghost predicate Share(a: seq<string>, b: seq<string>) {
    exists m :: m in a && m in b
  }

  /** `m` is the least mode the two sets have in common. */
  ghost predicate IsLeastCommon(a: seq<string>, b: seq<string>, m: string) {
    && m in a && m in b
    && forall c :: c in a && c in b ==> c == m || Less(m, c)
  }

  /** The mode getMaxIndex records for a match: the first element the merge
      writes, or nothing when it writes none. */
  function FirstCommon(a: seq<string>, b: seq<string>): (r: Option<string>)
    requires StrictlySorted(a) && StrictlySorted(b)
    ensures r.None? <==> !Share(a, b)
    ensures r.Some? ==> IsLeastCommon(a, b, r.value)
  {
    var both := Intersect(a, b);
    if |both| == 0 then None
    else
      assert both[0] in both;
      Some(both[0])
  }

  /** The matched mode is the same whichever bank is asked first. */
  lemma FirstCommonSymmetric(a: seq<string>, b: seq<string>)
    requires StrictlySorted(a) && StrictlySorted(b)
    ensures FirstCommon(a, b) == FirstCommon(b, a)
  {
    IntersectSymmetric(a, b);
  }
}
