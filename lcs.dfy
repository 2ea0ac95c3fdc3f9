/** `findLCS` of the word diff: the longest common subsequence of two token lists, with
    tokens compared after lower-casing, and the positions in the second list that the
    walk-back through the table keeps. */
module Lcs {
  import opened JsString

  /** `a[i - 1].toLowerCase() === b[j - 1].toLowerCase()`. */
  predicate TokensEqual(x: string, y: string)
  {
    Lower(x) == Lower(y)
  }

  function Max(x: nat, y: nat): nat
  {
    if x >= y then x else y
  }

  /** The table entry `dp[i][j]`: the recurrence the nested loops fill in. */
  function LcsLength(a: seq<string>, b: seq<string>, i: nat, j: nat): nat
    requires i <= |a| && j <= |b|
    decreases i + j
  {
    if i == 0 || j == 0 then 0
    else if TokensEqual(a[i - 1], b[j - 1]) then LcsLength(a, b, i - 1, j - 1) + 1
    else Max(LcsLength(a, b, i - 1, j), LcsLength(a, b, i, j - 1))
  }

  /** The pairs `(i - 1, j - 1)` the walk-back from `(i, j)` matches, in increasing order: on a
      match both indices step back; otherwise `i` steps back only when `dp[i - 1][j]` is
      strictly greater than `dp[i][j - 1]`, and `j` steps back in every other case. */
  function WalkBack(a: seq<string>, b: seq<string>, i: nat, j: nat): seq<(nat, nat)>
    requires i <= |a| && j <= |b|
    decreases i + j
  {
    if i == 0 || j == 0 then []
    else if TokensEqual(a[i - 1], b[j - 1]) then WalkBack(a, b, i - 1, j - 1) + [(i - 1, j - 1)]
    else if LcsLength(a, b, i - 1, j) > LcsLength(a, b, i, j - 1) then WalkBack(a, b, i - 1, j)
    else WalkBack(a, b, i, j - 1)
  }

  /** The second components of a list of pairs. */
  function Positions(w: seq<(nat, nat)>): set<nat>
  {
    if |w| == 0 then {} else {w[0].1} + Positions(w[1..])
  }

  /** The set `findLCS` returns: the positions in `b` of the tokens the walk-back matches. */
  function LcsIndices(a: seq<string>, b: seq<string>): set<nat>
  {
    Positions(WalkBack(a, b, |a|, |b|))
  }

  /** `w` pairs positions of `a[..i]` with positions of `b[..j]` holding tokens equal up to
      case, strictly increasing in both components. */
  predicate IsCommonSubsequence(a: seq<string>, b: seq<string>, w: seq<(nat, nat)>, i: nat, j: nat)
    requires i <= |a| && j <= |b|
  {
    && (forall k :: 0 <= k < |w| ==> w[k].0 < i && w[k].1 < j && TokensEqual(a[w[k].0], b[w[k].1]))
    && (forall k, k' :: 0 <= k < k' < |w| ==> w[k].0 < w[k'].0 && w[k].1 < w[k'].1)
  }

  /** A matching pair after the end of a common subsequence extends it. */
  lemma CommonExtend(a: seq<string>, b: seq<string>, w: seq<(nat, nat)>, i: nat, j: nat)
    requires 0 < i <= |a| && 0 < j <= |b|
    requires IsCommonSubsequence(a, b, w, i - 1, j - 1) && TokensEqual(a[i - 1], b[j - 1])
    ensures IsCommonSubsequence(a, b, w + [(i - 1, j - 1)], i, j)
  {
    var w' := w + [(i - 1, j - 1)];
    forall k | 0 <= k < |w'|
      ensures w'[k].0 < i && w'[k].1 < j && TokensEqual(a[w'[k].0], b[w'[k].1])
    {
      if k < |w| {
        assert w'[k] == w[k];
      }
    }
    forall k, k' | 0 <= k < k' < |w'|
      ensures w'[k].0 < w'[k'].0 && w'[k].1 < w'[k'].1
    {
      assert w'[k] == w[k];
      if k' < |w| {
        assert w'[k'] == w[k'];
      }
    }
  }

  /** A common subsequence of shorter prefixes is one of longer prefixes. */
  lemma CommonWiden(a: seq<string>, b: seq<string>, w: seq<(nat, nat)>, i: nat, j: nat, i': nat, j': nat)
    requires i <= i' <= |a| && j <= j' <= |b|
    requires IsCommonSubsequence(a, b, w, i, j)
    ensures IsCommonSubsequence(a, b, w, i', j')
  {
  }

  /** The walk-back matches as many pairs as the table entry says. */
  lemma {:induction false} WalkBackLength(a: seq<string>, b: seq<string>, i: nat, j: nat)
    requires i <= |a| && j <= |b|
    ensures |WalkBack(a, b, i, j)| == LcsLength(a, b, i, j)
    decreases i + j
  {
    if i == 0 || j == 0 {
    } else if TokensEqual(a[i - 1], b[j - 1]) {
      WalkBackLength(a, b, i - 1, j - 1);
    } else if LcsLength(a, b, i - 1, j) > LcsLength(a, b, i, j - 1) {
      WalkBackLength(a, b, i - 1, j);
    } else {
      WalkBackLength(a, b, i, j - 1);
    }
  }

  /** The walk-back yields a common subsequence whose length is the table entry. */
  lemma {:induction false} WalkBackIsCommon(a: seq<string>, b: seq<string>, i: nat, j: nat)
    requires i <= |a| && j <= |b|
    ensures IsCommonSubsequence(a, b, WalkBack(a, b, i, j), i, j)
    ensures |WalkBack(a, b, i, j)| == LcsLength(a, b, i, j)
    decreases i + j
  {
    WalkBackLength(a, b, i, j);
    if i == 0 || j == 0 {
    } else if TokensEqual(a[i - 1], b[j - 1]) {
      WalkBackIsCommon(a, b, i - 1, j - 1);
      var w := WalkBack(a, b, i - 1, j - 1);
      assert WalkBack(a, b, i, j) == w + [(i - 1, j - 1)];
      CommonExtend(a, b, w, i, j);
    } else if LcsLength(a, b, i - 1, j) > LcsLength(a, b, i, j - 1) {
      WalkBackIsCommon(a, b, i - 1, j);
      assert WalkBack(a, b, i, j) == WalkBack(a, b, i - 1, j);
      CommonWiden(a, b, WalkBack(a, b, i - 1, j), i - 1, j, i, j);
    } else {
      WalkBackIsCommon(a, b, i, j - 1);
      assert WalkBack(a, b, i, j) == WalkBack(a, b, i, j - 1);
      CommonWiden(a, b, WalkBack(a, b, i, j - 1), i, j - 1, i, j);
    }
  }

  /** No common subsequence of `a[..i]` and `b[..j]` is longer than the table entry. */
  lemma {:induction false} LcsIsLongest(a: seq<string>, b: seq<string>, w: seq<(nat, nat)>, i: nat, j: nat)
    requires i <= |a| && j <= |b|
    requires IsCommonSubsequence(a, b, w, i, j)
    ensures |w| <= LcsLength(a, b, i, j)
    decreases i + j
  {
    if |w| > 0 {
      var last := w[|w| - 1];
      assert last.0 < i && last.1 < j;
      if TokensEqual(a[i - 1], b[j - 1]) {
        var w' := w[..|w| - 1];
        assert forall k :: 0 <= k < |w'| ==> w'[k] == w[k] && w[k].0 < last.0 && w[k].1 < last.1;
        LcsIsLongest(a, b, w', i - 1, j - 1);
      } else if last.0 < i - 1 {
        assert forall k :: 0 <= k < |w| - 1 ==> w[k].0 < last.0;
        LcsIsLongest(a, b, w, i - 1, j);
      } else {
        assert last.1 < j - 1;
        assert forall k :: 0 <= k < |w| - 1 ==> w[k].1 < last.1;
        LcsIsLongest(a, b, w, i, j - 1);
      }
    }
  }

  lemma {:induction false} PositionsBelow(w: seq<(nat, nat)>, lo: int, hi: int)
    requires forall k :: 0 <= k < |w| ==> lo < w[k].1 < hi
    ensures forall x :: x in Positions(w) ==> lo < x < hi
    decreases |w|
  {
    if |w| > 0 {
      PositionsBelow(w[1..], lo, hi);
    }
  }

  /** Second components that strictly increase are pairwise distinct, so there are as many
      positions as pairs. */
  lemma {:induction false} PositionsSize(w: seq<(nat, nat)>)
    requires forall k, k' :: 0 <= k < k' < |w| ==> w[k].1 < w[k'].1
    ensures |Positions(w)| == |w|
    decreases |w|
  {
    if |w| > 0 {
      PositionsSize(w[1..]);
      PositionsBelow(w[1..], w[0].1, w[|w| - 1].1 + 1);
    }
  }

  /** `x` is a position of `w` exactly when some pair of `w` has it as second component. */
  lemma {:induction false} PositionsMembers(w: seq<(nat, nat)>, x: nat)
    ensures x in Positions(w) <==> exists k :: 0 <= k < |w| && w[k].1 == x
    decreases |w|
  {
    if |w| > 0 {
      PositionsMembers(w[1..], x);
      if exists k :: 0 <= k < |w[1..]| && w[1..][k].1 == x {
        var k :| 0 <= k < |w[1..]| && w[1..][k].1 == x;
        assert w[k + 1].1 == x;
      }
      if exists k :: 0 <= k < |w| && w[k].1 == x {
        var k :| 0 <= k < |w| && w[k].1 == x;
        if k > 0 {
          assert w[1..][k - 1].1 == x;
        }
      }
    }
  }

  /** The positions `findLCS` keeps are those of a longest common subsequence: some common
      subsequence has exactly them as its positions in `b`, its length is `dp[m][n]`, which
      is also the number of positions kept, and no common subsequence is longer. */
  lemma LcsIndicesSpec(a: seq<string>, b: seq<string>)
    ensures exists w :: IsCommonSubsequence(a, b, w, |a|, |b|) && Positions(w) == LcsIndices(a, b)
                        && |w| == LcsLength(a, b, |a|, |b|)
    ensures |LcsIndices(a, b)| == LcsLength(a, b, |a|, |b|)
    ensures forall k :: k in LcsIndices(a, b) ==> k < |b|
    ensures forall w :: IsCommonSubsequence(a, b, w, |a|, |b|) ==> |w| <= LcsLength(a, b, |a|, |b|)
  {
    var w := WalkBack(a, b, |a|, |b|);
    WalkBackIsCommon(a, b, |a|, |b|);
    PositionsSize(w);
    PositionsBelow(w, -1, |b|);
    forall w' | IsCommonSubsequence(a, b, w', |a|, |b|)
      ensures |w'| <= LcsLength(a, b, |a|, |b|)
    {
      LcsIsLongest(a, b, w', |a|, |b|);
    }
  }

  /** The positions below `n`. */
  function Below(n: nat): set<nat>
  {
    if n == 0 then {} else Below(n - 1) + {n - 1}
  }

  lemma {:induction false} BelowMembers(n: nat, x: nat)
    ensures x in Below(n) <==> x < n
    decreases n
  {
    if n > 0 {
      BelowMembers(n - 1, x);
    }
  }

  lemma {:induction false} PositionsAppend(w: seq<(nat, nat)>, p: (nat, nat))
    ensures Positions(w + [p]) == Positions(w) + {p.1}
    decreases |w|
  {
    if |w| > 0 {
      assert (w + [p])[1..] == w[1..] + [p];
      PositionsAppend(w[1..], p);
    } else {
      assert (w + [p])[1..] == [];
    }
  }

  /** Comparing a token list with itself, the walk-back runs down the diagonal. */
  lemma {:induction false} WalkBackDiagonal(a: seq<string>, i: nat)
    requires i <= |a|
    ensures Positions(WalkBack(a, a, i, i)) == Below(i)
    decreases i
  {
    if i > 0 {
      WalkBackDiagonal(a, i - 1);
      PositionsAppend(WalkBack(a, a, i - 1, i - 1), (i - 1, i - 1));
    }
  }

  /** Identical token lists keep every position. */
  lemma LcsIndicesIdentity(a: seq<string>)
    ensures forall k: nat :: k in LcsIndices(a, a) <==> k < |a|
  {
    WalkBackDiagonal(a, |a|);
    forall k: nat
      ensures k in LcsIndices(a, a) <==> k < |a|
    {
      BelowMembers(|a|, k);
    }
  }

  /** The first half of `findLCS`: the table `dp`, filled row by row. */
  method FillTable(a: seq<string>, b: seq<string>) returns (dp: array2<nat>)
    ensures fresh(dp) && dp.Length0 == |a| + 1 && dp.Length1 == |b| + 1
    ensures forall x, y :: 0 <= x <= |a| && 0 <= y <= |b| ==> dp[x, y] == LcsLength(a, b, x, y)
  {
    var m, n := |a|, |b|;
    dp := new nat[m + 1, n + 1]((_, _) => 0);
    for i := 1 to m + 1
      invariant forall x, y {:trigger dp[x, y]} :: 0 <= x < i && 0 <= y <= n ==> dp[x, y] == LcsLength(a, b, x, y)
      invariant forall x :: i <= x <= m ==> dp[x, 0] == 0
    {
      for j := 1 to n + 1
        invariant forall x, y {:trigger dp[x, y]} :: 0 <= x < i && 0 <= y <= n ==> dp[x, y] == LcsLength(a, b, x, y)
        invariant forall y {:trigger dp[i, y]} :: 0 <= y < j ==> dp[i, y] == LcsLength(a, b, i, y)
        invariant forall x :: i < x <= m ==> dp[x, 0] == 0
      {
        assert dp[i - 1, j] == LcsLength(a, b, i - 1, j) && dp[i, j - 1] == LcsLength(a, b, i, j - 1);
      if Lower(a[i - 1]) == Lower(b[j - 1]) {
          dp[i, j] := dp[i - 1, j - 1] + 1;
        } else {
          dp[i, j] := Max(dp[i - 1, j], dp[i, j - 1]);
        }
      }
    }
  }

  /** One step of the walk-back from `(i, j)`: where it goes next, and the pair it collects on
      a match. What remains to walk followed by what is collected stays the same. */
  lemma WalkBackAdvance(a: seq<string>, b: seq<string>, i: nat, j: nat, done: seq<(nat, nat)>)
    returns (i': nat, j': nat, done': seq<(nat, nat)>)
    requires 0 < i <= |a| && 0 < j <= |b|
    ensures TokensEqual(a[i - 1], b[j - 1]) ==>
              i' == i - 1 && j' == j - 1 && done' == [(i - 1, j - 1)] + done
              && Positions(done') == {j - 1} + Positions(done)
    ensures !TokensEqual(a[i - 1], b[j - 1]) ==> done' == done
    ensures !TokensEqual(a[i - 1], b[j - 1]) && LcsLength(a, b, i - 1, j) > LcsLength(a, b, i, j - 1) ==>
              i' == i - 1 && j' == j
    ensures !TokensEqual(a[i - 1], b[j - 1]) && LcsLength(a, b, i - 1, j) <= LcsLength(a, b, i, j - 1) ==>
              i' == i && j' == j - 1
    ensures i' <= |a| && j' <= |b| && WalkBack(a, b, i, j) + done == WalkBack(a, b, i', j') + done'
  {
    if TokensEqual(a[i - 1], b[j - 1]) {
      i', j', done' := i - 1, j - 1, [(i - 1, j - 1)] + done;
      assert WalkBack(a, b, i, j) == WalkBack(a, b, i - 1, j - 1) + [(i - 1, j - 1)];
      assert done'[1..] == done;
    } else if LcsLength(a, b, i - 1, j) > LcsLength(a, b, i, j - 1) {
      i', j', done' := i - 1, j, done;
    } else {
      i', j', done' := i, j - 1, done;
    }
  }

  /** `findLCS`: builds the table, then walks back from `(m, n)` collecting the matched
      positions of `b`. */
  method FindLcs(a: seq<string>, b: seq<string>) returns (indices: set<nat>)
    ensures indices == LcsIndices(a, b)
  {
    var m, n := |a|, |b|;
    var dp := FillTable(a, b);
    indices := {};
    ghost var done: seq<(nat, nat)> := [];
    var i, j := m, n;
    while i > 0 && j > 0
      modifies {}
      invariant 0 <= i <= m && 0 <= j <= n
      invariant WalkBack(a, b, m, n) == WalkBack(a, b, i, j) + done
      invariant indices == Positions(done)
      decreases i + j
    {
      ghost var i', j', done' := WalkBackAdvance(a, b, i, j, done);
      assert dp[i - 1, j] == LcsLength(a, b, i - 1, j) && dp[i, j - 1] == LcsLength(a, b, i, j - 1);
      if Lower(a[i - 1]) == Lower(b[j - 1]) {
        indices := {j - 1} + indices;
        i, j := i - 1, j - 1;
      } else if dp[i - 1, j] > dp[i, j - 1] {
        i := i - 1;
      } else {
        j := j - 1;
      }
      assert i == i' && j == j';
      done := done';
    }
    assert WalkBack(a, b, i, j) == [];
    assert [] + done == done;
  }
}
