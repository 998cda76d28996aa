/** Numeric feature matrices, label vectors and the threshold partition `_split`. */
module Dataset {
  import opened Counting

  /** A class label; the boosting ensemble uses 0 and 1 for Python's False and True. */
  type Label = int

  /** One sample: its feature values in column order. */
  type Row = seq<real>

  /** Every row has exactly `width` features, as in a two-dimensional numpy array. */
  predicate Rectangular(X: seq<Row>, width: nat) {
    forall i :: 0 <= i < |X| ==> |X[i]| == width
  }

  /** `X[:, f]`: feature `f` of every row. */
  function Column(X: seq<Row>, f: nat): (col: seq<real>)
    requires forall i :: 0 <= i < |X| ==> f < |X[i]|
    ensures |col| == |X|
    ensures forall i :: 0 <= i < |X| ==> col[i] == X[i][f]
  {
    seq(|X|, i requires 0 <= i < |X| => X[i][f])
  }

  /** `s[idx]` for an integer index array `idx`. */
  function Select<T>(s: seq<T>, idx: seq<nat>): (r: seq<T>)
    requires forall k :: 0 <= k < |idx| ==> idx[k] < |s|
    ensures |r| == |idx|
    ensures forall k :: 0 <= k < |idx| ==> r[k] == s[idx[k]]
  {
    seq(|idx|, k requires 0 <= k < |idx| => s[idx[k]])
  }

  predicate Ascending(idx: seq<nat>) {
    forall j, k :: 0 <= j < k < |idx| ==> idx[j] < idx[k]
  }

  predicate IndicesBelow(idx: seq<nat>, n: nat) {
    forall k :: 0 <= k < |idx| ==> idx[k] < n
  }

  /** `np.where((col <= t) == goLeft)[0]`: the positions on one side of the threshold, ascending. */
  function Where(col: seq<real>, t: real, goLeft: bool): (idx: seq<nat>)
    ensures IndicesBelow(idx, |col|)
    ensures Ascending(idx)
    ensures forall i :: 0 <= i < |col| ==> (i in idx <==> (col[i] <= t) == goLeft)
  {
    if |col| == 0 then []
    else
      var idx := Where(col[..|col| - 1], t, goLeft);
      if (col[|col| - 1] <= t) == goLeft then idx + [|col| - 1] else idx
  }

  /**
   * `_split(col, t)`: the positions whose value is at most `t` go left, the others go right.
   * Each position lands on exactly one side, and both sides keep ascending order.
   */
  function Split(col: seq<real>, t: real): (lr: (seq<nat>, seq<nat>))
    ensures IndicesBelow(lr.0, |col|) && IndicesBelow(lr.1, |col|)
    ensures Ascending(lr.0) && Ascending(lr.1)
    ensures forall i :: 0 <= i < |col| ==> (i in lr.0 <==> col[i] <= t)
    ensures forall i :: 0 <= i < |col| ==> (i in lr.1 <==> col[i] > t)
    ensures |lr.0| + |lr.1| == |col|
  {
    SplitSizes(col, t);
    (Where(col, t, true), Where(col, t, false))
  }

  lemma {:induction false} SplitSizes(col: seq<real>, t: real)
    ensures |Where(col, t, true)| + |Where(col, t, false)| == |col|
  {
    if |col| > 0 {
      SplitSizes(col[..|col| - 1], t);
    }
  }

  /** Selecting only positions below `m` reads the same elements from the prefix of length `m`. */
  lemma SelectPrefix<T>(s: seq<T>, idx: seq<nat>, m: nat)
    requires m <= |s|
    requires IndicesBelow(idx, m)
    ensures Select(s, idx) == Select(s[..m], idx)
  {
  }

  /** Every occurrence of a label in `y` lands in exactly one side of a split. */
  lemma {:induction false} SplitCounts(y: seq<Label>, col: seq<real>, t: real, c: Label)
    requires |y| == |col|
    ensures Count(Select(y, Where(col, t, true)), c) + Count(Select(y, Where(col, t, false)), c) == Count(y, c)
  {
    if |col| > 0 {
      var m := |col| - 1;
      var col' := col[..m];
      var y' := y[..m];
      SplitCounts(y', col', t, c);
      var l' := Where(col', t, true);
      var r' := Where(col', t, false);
      assert y[..m + 1] == y;
      if col[m] <= t {
        assert Where(col, t, true) == l' + [m] && Where(col, t, false) == r';
        SplitCountsStep(y, l', r', m, c);
      } else {
        assert Where(col, t, false) == r' + [m] && Where(col, t, true) == l';
        SplitCountsStep(y, r', l', m, c);
      }
    }
  }

  /** One more position `m` joins the side `a`; the side `b` is unchanged. */
  lemma SplitCountsStep(y: seq<Label>, a: seq<nat>, b: seq<nat>, m: nat, c: Label)
    requires m < |y| && IndicesBelow(a, m) && IndicesBelow(b, m)
    requires Count(Select(y[..m], a), c) + Count(Select(y[..m], b), c) == Count(y[..m], c)
    ensures Count(Select(y, a + [m]), c) + Count(Select(y, b), c) == Count(y[..m + 1], c)
  {
    SelectPrefix(y, a, m);
    SelectPrefix(y, b, m);
    SelectSnoc(y, a, m);
    CountSnoc(Select(y, a), y[m], c);
    assert y[..m + 1] == y[..m] + [y[m]];
    CountSnoc(y[..m], y[m], c);
  }

  lemma SelectSnoc<T>(s: seq<T>, idx: seq<nat>, m: nat)
    requires m < |s|
    requires IndicesBelow(idx, |s|)
    ensures Select(s, idx + [m]) == Select(s, idx) + [s[m]]
  {
  }
}
