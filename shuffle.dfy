/** `shuffle(mat, axis, same_as_last_time)` (algorithm.cpp:662-751): a
    Fisher–Yates permutation of the row (axis = true) or column indices,
    cached in function-local statics between calls, and a gather kernel that
    reorders the lines by it. The random draws are an input sequence. */
module Shuffle {
  import opened Matrices

  /** s with positions i and j exchanged. */
  function Swap(s: seq<nat>, i: nat, j: nat): (r: seq<nat>)
    requires i < |s| && j < |s|
    ensures |r| == |s|
  {
    s[i := s[j]][j := s[i]]
  }

  lemma SwapPermutes(s: seq<nat>, i: nat, j: nat)
    requires i < |s| && j < |s|
    ensures multiset(Swap(s, i, j)) == multiset(s)
  {
    var t := s[i := s[j]];
    assert multiset(t) == multiset(s) - multiset{s[i]} + multiset{s[j]};
    assert multiset(t[j := s[i]]) == multiset(t) - multiset{t[j]} + multiset{s[i]};
  }

  /** The exchange partner of position k - 1: the draw for that pass
      reduced modulo k (`randint % (i + 1)` with i = k - 1). */
  function Pick(draws: seq<nat>, k: nat): (j: nat)
    requires 0 < k <= |draws|
    ensures j < k
  {
    draws[k - 1] % k
  }

  /** The passes of the Fisher–Yates loop still to run when k positions
      remain: position k - 1 is exchanged with position Pick(draws, k),
      then the first k - 1 positions are shuffled the same way. */
  function Steps(s: seq<nat>, k: nat, draws: seq<nat>): (r: seq<nat>)
    requires k <= |s| && k <= |draws|
    ensures |r| == |s|
    decreases k
  {
    if k == 0 then s else Steps(Swap(s, k - 1, Pick(draws, k)), k - 1, draws)
  }

  /** Whatever the draws, the passes only rearrange the sequence. */
  lemma {:induction false} StepsPermutes(s: seq<nat>, k: nat, draws: seq<nat>)
    requires k <= |s| && k <= |draws|
    ensures multiset(Steps(s, k, draws)) == multiset(s)
    decreases k
  {
    if k > 0 {
      var t := Swap(s, k - 1, Pick(draws, k));
      StepsUnfold(s, k, draws);
      StepsPermutes(t, k - 1, draws);
      SwapPermutes(s, k - 1, Pick(draws, k));
    }
  }

  /** One pass of `Steps`. */
  lemma StepsUnfold(s: seq<nat>, k: nat, draws: seq<nat>)
    requires 0 < k <= |s| && k <= |draws|
    ensures Steps(s, k, draws) == Steps(Swap(s, k - 1, Pick(draws, k)), k - 1, draws)
  {
  }

  /** After the exchange of pass k, k - 1 passes remain. */
  lemma StepsAfterExchange(before: seq<nat>, after: seq<nat>, k: nat, draws: seq<nat>)
    requires 0 < k <= |before| && k <= |draws|
    requires after == Swap(before, k - 1, Pick(draws, k))
    ensures Steps(after, k - 1, draws) == Steps(before, k, draws)
  {
    StepsUnfold(before, k, draws);
  }

  /** Shuffling the identity yields a permutation of 0 .. n-1 for any draws. */
  lemma ShuffledIdentity(n: nat, draws: seq<nat>)
    requires |draws| >= n
    ensures IsPermutation(Steps(Iota(n), n, draws), n)
  {
    StepsPermutes(Iota(n), n, draws);
  }

  /** The regeneration branch: the identity 0 .. n-1, then for i from n - 1
      down to 0 an exchange of position i with position draws[i] % (i + 1),
      done in place (algorithm.cpp:680-694). */
  method FisherYates(n: nat, draws: seq<nat>) returns (p: seq<nat>)
    requires |draws| >= n
    ensures p == Steps(Iota(n), n, draws)
    ensures IsPermutation(p, n)
  {
    var a := new nat[n](i requires 0 <= i < n => i);
    assert a[..] == Iota(n);
    var k := n;
    while k > 0
      invariant k <= n
      invariant Steps(a[..], k, draws) == Steps(Iota(n), n, draws)
    {
      ghost var before := a[..];
      Exchange(a, k - 1, Pick(draws, k));
      StepsAfterExchange(before, a[..], k, draws);
      k := k - 1;
    }
    p := a[..];
    ShuffledIdentity(n, draws);
  }

  /** `std::swap` of two entries of the index vector. */
  method Exchange(a: array<nat>, i: nat, j: nat)
    requires i < a.Length && j < a.Length
    modifies a
    ensures a[..] == Swap(old(a[..]), i, j)
  {
    var t := a[i];
    a[i] := a[j];
    a[j] := t;
  }

  /** Lines along the axis: rows when axis is true, columns otherwise. */
  function Lines(m: Matrix, axis: bool): nat {
    if axis then m.rows else m.cols
  }

  /** The gather kernel: with axis true output row i is input row idx[i],
      otherwise output column j is input column idx[j] (algorithm.cpp:699-750). */
  function Gather(m: Matrix, axis: bool, idx: seq<nat>): (r: Matrix)
    requires m.Wf() && IsPermutation(idx, Lines(m, axis))
    ensures r.Wf() && r.rows == m.rows && r.cols == m.cols
    ensures axis ==> forall i: nat, j: nat :: i < m.rows && j < m.cols ==> idx[i] < m.rows && r.At(i, j) == m.At(idx[i], j)
    ensures !axis ==> forall i: nat, j: nat :: i < m.rows && j < m.cols ==> idx[j] < m.cols && r.At(i, j) == m.At(i, idx[j])
  {
    PermutationBounds(idx, Lines(m, axis));
    Build(m.rows, m.cols, (i: nat, j: nat) requires i < m.rows && j < m.cols =>
      if axis then m.At(idx[i], j) else m.At(i, idx[j]))
  }

  /** The identity permutation leaves the matrix as it is. */
  lemma GatherIdentity(m: Matrix, axis: bool)
    requires m.Wf()
    ensures Gather(m, axis, Iota(Lines(m, axis))) == m
  {
    SameEntries(Gather(m, axis, Iota(Lines(m, axis))), m);
  }

  /** Gathering by p and then by an inverse q of p restores the matrix. */
  lemma GatherInverse(m: Matrix, axis: bool, p: seq<nat>, q: seq<nat>)
    requires m.Wf() && IsPermutation(p, Lines(m, axis)) && IsPermutation(q, Lines(m, axis))
    requires forall i :: 0 <= i < |q| ==> q[i] < |p| && p[q[i]] == i
    ensures Gather(Gather(m, axis, p), axis, q) == m
  {
    PermutationBounds(q, Lines(m, axis));
    SameEntries(Gather(Gather(m, axis, p), axis, q), m);
  }

  /** No line is lost: every input line is some output line. */
  lemma GatherKeepsEveryLine(m: Matrix, axis: bool, idx: seq<nat>, j: nat)
    requires m.Wf() && IsPermutation(idx, Lines(m, axis)) && j < Lines(m, axis)
    ensures exists i :: 0 <= i < |idx| && idx[i] == j
  {
    assert Iota(Lines(m, axis))[j] == j;
    assert j in multiset(Iota(Lines(m, axis)));
    assert j in multiset(idx);
  }

  /** The corrected reuse rule: keep the cached permutation only when the
      caller asks for the same one and it has as many entries as there are
      lines to shuffle. */
  predicate Reuse(same: bool, lines: nat, cached: nat) {
    same && cached == lines
  }

  /** The reuse test as algorithm.cpp:676 is written. `&&` binds tighter
      than `?:`, so the line parses as (same && axis) ? rows == last_rows :
      cols == last_cols. */
  predicate ReuseAsWritten(same: bool, axis: bool, rows: nat, cols: nat, lastRows: nat, lastCols: nat) {
    if same && axis then rows == lastRows else cols == lastCols
  }

  /** The defect, on a cache left by shuffling the rows of a 2 x 2 matrix
      with permutation [1, 0]: a later row shuffle of a 5 x 2 matrix that asks
      for a fresh permutation reuses the stale two-entry one, which is not a
      permutation of the five rows; and a column shuffle of a 3 x 2 matrix
      after a row shuffle of another 3 x 2 one reuses a three-entry
      permutation for two columns. The corrected rule regenerates in both. */
  lemma ReuseAsWrittenIsWrong()
    ensures ReuseAsWritten(false, true, 5, 2, 2, 2) && !Reuse(false, 5, |[1, 0]|)
    ensures !IsPermutation([1, 0], 5)
    ensures ReuseAsWritten(true, false, 3, 2, 3, 2) && !Reuse(true, 2, 3)
  {
    var cached: seq<nat> := [1, 0];
    assert |multiset(cached)| == 2;
    assert |multiset(Iota(5))| == 5;
  }

  /** The statics of `shuffle`: the shape of the matrix the cached
      permutation was made for, and the permutation itself. lastRows and
      lastCols stand for the source's `last_rows` and `last_cols`; Shuffle
      records the last shape in them, but whether the cache is reused
      is decided by the corrected test Reuse on the length of `indexes`. */
  class ShuffleCache {
    var lastRows: nat
    var lastCols: nat
    var indexes: seq<nat>

    /** The cached indices always form a permutation of their own length. */
    predicate Valid()
      reads this
    {
      IsPermutation(indexes, |indexes|)
    }

    /** The statics before the first call. */
    constructor ()
      ensures Valid() && lastRows == 0 && lastCols == 0 && indexes == []
    {
      lastRows, lastCols, indexes := 0, 0, [];
    }

    /** One call of `shuffle(mat, axis, same_as_last_time)` under the
        corrected reuse rule: regenerate (recording the shape) unless the
        cached permutation is asked for and fits, then gather. */
    method Shuffle(m: Matrix, axis: bool, same: bool, draws: seq<nat>) returns (r: Matrix)
      requires Valid() && m.Wf() && |draws| >= Lines(m, axis)
      modifies this
      ensures Valid() && |indexes| == Lines(m, axis)
      ensures Reuse(same, Lines(m, axis), |old(indexes)|) ==>
        indexes == old(indexes) && lastRows == old(lastRows) && lastCols == old(lastCols)
      ensures !Reuse(same, Lines(m, axis), |old(indexes)|) ==>
        indexes == Steps(Iota(Lines(m, axis)), Lines(m, axis), draws) && lastRows == m.rows && lastCols == m.cols
      ensures r == Gather(m, axis, indexes)
    {
      if !Reuse(same, Lines(m, axis), |indexes|) {
        lastRows, lastCols := m.rows, m.cols;
        indexes := FisherYates(Lines(m, axis), draws);
      }
      PermutationBounds(indexes, |indexes|);
      r := Gather(m, axis, indexes);
    }
  }
}
