/** Net balances from the debt matrix (mainwindow.cpp:217-223): a bank's
    balance is what it is owed minus what it owes. */
module Balances {

  /** G[x][y] is the amount bank x owes bank y. */
  type Matrix = seq<seq<int>>

  predicate IsSquare(G: Matrix, n: nat) {
    |G| == n && forall x :: 0 <= x < n ==> |G[x]| == n
  }

  function Sum(s: seq<int>): int {
    if |s| == 0 then 0 else Sum(s[..|s| - 1]) + s[|s| - 1]
  }

  /** Σ_x G[x][i] over the rows of G: what bank i is owed. */
  function ColSum(G: Matrix, i: nat): int
    requires forall x :: 0 <= x < |G| ==> i < |G[x]|
  {
    if |G| == 0 then 0 else ColSum(G[..|G| - 1], i) + G[|G| - 1][i]
  }

  /** The sum of every entry of G, row by row. */
  function Total(G: Matrix): int {
    if |G| == 0 then 0 else Total(G[..|G| - 1]) + Sum(G[|G| - 1])
  }

  function ZeroCount(s: seq<int>): (k: nat)
    ensures k <= |s|
  {
    if |s| == 0 then 0 else ZeroCount(s[..|s| - 1]) + (if s[|s| - 1] == 0 then 1 else 0)
  }

  predicate AllZero(s: seq<int>) {
    forall i :: 0 <= i < |s| ==> s[i] == 0
  }

  /** Number of unsettled banks. */
  function NonZeroCount(s: seq<int>): nat {
    |s| - ZeroCount(s)
  }

  lemma {:induction false} SumAdd(a: seq<int>, b: seq<int>, c: seq<int>)
    requires |a| == |b| == |c|
    requires forall i :: 0 <= i < |c| ==> c[i] == a[i] + b[i]
    ensures Sum(c) == Sum(a) + Sum(b)
    decreases |c|
  {
    if |c| > 0 {
      var k := |c| - 1;
      SumAdd(a[..k], b[..k], c[..k]);
    }
  }

  lemma {:induction false} SumSub(a: seq<int>, b: seq<int>, c: seq<int>)
    requires |a| == |b| == |c|
    requires forall i :: 0 <= i < |c| ==> c[i] == a[i] - b[i]
    ensures Sum(c) == Sum(a) - Sum(b)
    decreases |c|
  {
    if |c| > 0 {
      var k := |c| - 1;
      SumSub(a[..k], b[..k], c[..k]);
    }
  }

  lemma {:induction false} SumZeros(s: seq<int>)
    requires AllZero(s)
    ensures Sum(s) == 0
    decreases |s|
  {
    if |s| > 0 {
      SumZeros(s[..|s| - 1]);
    }
  }

  /** Adding the column sums gives the matrix total. */
  lemma {:induction false} ColumnSumsTotal(G: Matrix, w: nat, cs: seq<int>)
    requires forall x :: 0 <= x < |G| ==> |G[x]| == w
    requires |cs| == w && forall i :: 0 <= i < w ==> cs[i] == ColSum(G, i)
    ensures Sum(cs) == Total(G)
    decreases |G|
  {
    if |G| == 0 {
      SumZeros(cs);
    } else {
      var top := G[..|G| - 1];
      var last := G[|G| - 1];
      var cs' := ColumnSums(top, w);
      ColumnSumsTotal(top, w, cs');
      SumAdd(cs', last, cs);
    }
  }

  /** Adding the row sums gives the matrix total. */
  lemma {:induction false} RowSumsTotal(G: Matrix, rs: seq<int>)
    requires |rs| == |G| && forall x :: 0 <= x < |G| ==> rs[x] == Sum(G[x])
    ensures Sum(rs) == Total(G)
    decreases |G|
  {
    if |G| > 0 {
      var k := |G| - 1;
      RowSumsTotal(G[..k], rs[..k]);
    }
  }

  /** Net balances always sum to zero: every debt is counted once as an
      inflow and once as an outflow. */
  lemma {:induction false} NetSumsToZero(G: Matrix, n: nat, net: seq<int>)
    requires IsSquare(G, n)
    requires |net| == n && forall i :: 0 <= i < n ==> net[i] == ColSum(G, i) - Sum(G[i])
    ensures Sum(net) == 0
  {
    var cs := ColumnSums(G, n);
    var rs := RowSums(G);
    ColumnSumsTotal(G, n, cs);
    RowSumsTotal(G, rs);
    SumSub(cs, rs, net);
  }

  function ColumnSums(G: Matrix, n: nat): (cs: seq<int>)
    requires forall x :: 0 <= x < |G| ==> |G[x]| == n
    ensures |cs| == n && forall i :: 0 <= i < n ==> cs[i] == ColSum(G, i)
  {
    seq(n, i requires 0 <= i < n => ColSum(G, i))
  }

  function RowSums(G: Matrix): (rs: seq<int>)
    ensures |rs| == |G| && forall x :: 0 <= x < |G| ==> rs[x] == Sum(G[x])
  {
    seq(|G|, x requires 0 <= x < |G| => Sum(G[x]))
  }

  /** The aggregation loop: for each bank, inflows `inc` minus outflows `out`. */
  method Aggregate(G: Matrix, n: nat) returns (net: seq<int>)
    requires IsSquare(G, n)
    ensures |net| == n
    ensures forall i :: 0 <= i < n ==> net[i] == ColSum(G, i) - Sum(G[i])
    ensures Sum(net) == 0
  {
    net := [];
    var i := 0;
    while i < n
      invariant 0 <= i <= n && |net| == i
      invariant forall j :: 0 <= j < i ==> net[j] == ColSum(G, j) - Sum(G[j])
    {
      var inc := 0;
      var x := 0;
      while x < n
        invariant 0 <= x <= n
        invariant inc == ColSum(G[..x], i)
      {
        assert G[..x + 1][..x] == G[..x];
        inc := inc + G[x][i];
        x := x + 1;
      }
      var out := 0;
      x := 0;
      while x < n
        invariant 0 <= x <= n
        invariant out == Sum(G[i][..x])
      {
        assert G[i][..x + 1][..x] == G[i][..x];
        out := out + G[i][x];
        x := x + 1;
      }
      assert G[..n] == G && G[i][..n] == G[i];
      net := net + [inc - out];
      i := i + 1;
    }
    NetSumsToZero(G, n, net);
  }

  /** Overwriting one entry moves the sum by the difference. */
  lemma {:induction false} SumUpdate(s: seq<int>, i: nat, v: int)
    requires i < |s|
    ensures Sum(s[i := v]) == Sum(s) - s[i] + v
    decreases |s|
  {
    var k := |s| - 1;
    if i < k {
      SumUpdate(s[..k], i, v);
      assert s[i := v][..k] == s[..k][i := v];
    } else {
      assert s[i := v][..k] == s[..k];
    }
  }

  /** Overwriting one entry changes the zero count only by that entry. */
  lemma {:induction false} ZeroCountUpdate(s: seq<int>, i: nat, v: int)
    requires i < |s|
    ensures ZeroCount(s[i := v]) + (if s[i] == 0 then 1 else 0)
            == ZeroCount(s) + (if v == 0 then 1 else 0)
    decreases |s|
  {
    var k := |s| - 1;
    if i < k {
      ZeroCountUpdate(s[..k], i, v);
      assert s[i := v][..k] == s[..k][i := v];
    } else {
      assert s[i := v][..k] == s[..k];
    }
  }

  /** Changing two distinct non-zero entries moves the sum by the two
      differences and adds one zero for each new value that is zero. */
  lemma PairUpdate(s: seq<int>, p: nat, vp: int, q: nat, vq: int)
    requires p < |s| && q < |s| && p != q && s[p] != 0 && s[q] != 0
    ensures Sum(s[p := vp][q := vq]) == Sum(s) - s[p] - s[q] + vp + vq
    ensures ZeroCount(s[p := vp][q := vq]) == ZeroCount(s) + (if vp == 0 then 1 else 0) + (if vq == 0 then 1 else 0)
  {
    SumUpdate(s, p, vp);
    SumUpdate(s[p := vp], q, vq);
    ZeroCountUpdate(s, p, vp);
    ZeroCountUpdate(s[p := vp], q, vq);
  }

  /** Every entry is zero exactly when every entry is counted as zero. */
  lemma {:induction false} AllZeroCount(s: seq<int>)
    ensures AllZero(s) <==> ZeroCount(s) == |s|
    decreases |s|
  {
    if |s| > 0 {
      var k := |s| - 1;
      AllZeroCount(s[..k]);
      assert AllZero(s) <==> AllZero(s[..k]) && s[k] == 0;
    }
  }

  /** A zero-sum sequence with a nonzero entry has a strictly negative entry
      and a strictly positive one. */
  lemma {:induction false} ZeroSumSigns(s: seq<int>)
    requires Sum(s) == 0 && !AllZero(s)
    ensures exists i :: 0 <= i < |s| && s[i] < 0
    ensures exists i :: 0 <= i < |s| && s[i] > 0
  {
    if forall i :: 0 <= i < |s| ==> s[i] >= 0 {
      NonNegativeSum(s);
    }
    if forall i :: 0 <= i < |s| ==> s[i] <= 0 {
      NonPositiveSum(s);
    }
  }

  lemma {:induction false} NonNegativeSum(s: seq<int>)
    requires forall i :: 0 <= i < |s| ==> s[i] >= 0
    ensures Sum(s) >= 0
    ensures Sum(s) == 0 ==> AllZero(s)
    decreases |s|
  {
    if |s| > 0 {
      NonNegativeSum(s[..|s| - 1]);
    }
  }

  lemma {:induction false} NonPositiveSum(s: seq<int>)
    requires forall i :: 0 <= i < |s| ==> s[i] <= 0
    ensures Sum(s) <= 0
    ensures Sum(s) == 0 ==> AllZero(s)
    decreases |s|
  {
    if |s| > 0 {
      NonPositiveSum(s[..|s| - 1]);
    }
  }
}
