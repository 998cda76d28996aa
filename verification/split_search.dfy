/**
 * `_find_best_split`: every feature, every distinct value of that feature as a threshold,
 * and the first candidate whose information gain strictly beats the best so far.
 */
module SplitSearch {
  import opened Wrappers
  import opened Dataset
  import opened Impurity

  predicate Increasing(s: seq<real>) {
    forall i, j :: 0 <= i < j < |s| ==> s[i] < s[j]
  }

  /** Adds `v` to a strictly increasing sequence, keeping it strictly increasing. */
  function Insert(s: seq<real>, v: real): (r: seq<real>)
    requires Increasing(s)
    ensures Increasing(r)
    ensures forall x :: x in r <==> x in s || x == v
  {
    if |s| == 0 then [v]
    else if v < s[0] then
      assert forall x :: x in s ==> x >= s[0];
      ConsIncreasing(v, s);
      [v] + s
    else if v == s[0] then s
    else
      var rest := Insert(s[1..], v);
      assert s == [s[0]] + s[1..];
      assert forall x :: x in s[1..] ==> x > s[0];
      ConsIncreasing(s[0], rest);
      [s[0]] + rest
  }

  lemma ConsIncreasing(h: real, t: seq<real>)
    requires Increasing(t) && forall x :: x in t ==> h < x
    ensures Increasing([h] + t)
  {
    forall i, j | 0 <= i < j < |[h] + t| ensures ([h] + t)[i] < ([h] + t)[j] {
      assert ([h] + t)[j] == t[j - 1];
      if i > 0 {
        assert ([h] + t)[i] == t[i - 1];
      } else {
        assert t[j - 1] in t;
      }
    }
  }

  /** `np.unique(col)`: the distinct values of a column in ascending order. */
  function Thresholds(col: seq<real>): (ts: seq<real>)
    ensures Increasing(ts)
    ensures forall x :: x in ts <==> x in col
  {
    if |col| == 0 then []
    else
      var ts := Thresholds(col[..|col| - 1]);
      assert col == col[..|col| - 1] + [col[|col| - 1]];
      Insert(ts, col[|col| - 1])
  }

  /**
   * A strictly increasing sequence is determined by its elements, so `Thresholds` is the only
   * sorted duplicate-free listing of a column's values.
   */
  lemma {:induction false} IncreasingUnique(a: seq<real>, b: seq<real>)
    requires Increasing(a) && Increasing(b)
    requires forall x :: x in a <==> x in b
    ensures a == b
  {
    assert |b| > 0 ==> b[0] in b;
    if |a| > 0 {
      assert a[0] in a;
      assert |b| > 0;
      assert b[0] in a;
      assert a[0] == b[0];
      forall x ensures x in a[1..] <==> x in b[1..] {
        if x in a[1..] {
          assert x in b && x != b[0];
        }
        if x in b[1..] {
          assert x in a && x != a[0];
        }
      }
      IncreasingUnique(a[1..], b[1..]);
      assert a == [a[0]] + a[1..];
      assert b == [b[0]] + b[1..];
    }
  }

  /** A split candidate: send a row left when its value of `feature` is at most `threshold`. */
  datatype Candidate = Candidate(feature: nat, threshold: real)

  /** The order in which the nested loops visit candidates. */
  predicate LexLess(c: Candidate, d: Candidate) {
    c.feature < d.feature || (c.feature == d.feature && c.threshold < d.threshold)
  }

  /** `c` is visited by the search: a feature index below `nf` and a value of that column. */
  predicate IsCandidate(X: seq<Row>, nf: nat, c: Candidate)
    requires Rectangular(X, nf)
  {
    c.feature < nf && c.threshold in Column(X, c.feature)
  }

  /**
   * A candidate's threshold is a value of its own column, so the row holding it goes left: only
   * the right side of a visited split can be empty.
   */
  lemma CandidateLeftNonEmpty(X: seq<Row>, nf: nat, c: Candidate)
    requires Rectangular(X, nf) && IsCandidate(X, nf, c)
    ensures |Split(Column(X, c.feature), c.threshold).0| > 0
  {
    var col := Column(X, c.feature);
    var i :| 0 <= i < |col| && col[i] == c.threshold;
    assert i in Split(col, c.threshold).0;
  }

  /** The inner loop for one feature. */
  function FeatureCandidates(X: seq<Row>, nf: nat, f: nat): (cs: seq<Candidate>)
    requires Rectangular(X, nf) && f < nf
    ensures forall c :: c in cs <==> c.feature == f && IsCandidate(X, nf, c)
    ensures forall i, j :: 0 <= i < j < |cs| ==> LexLess(cs[i], cs[j])
  {
    var ts := Thresholds(Column(X, f));
    var cs := seq(|ts|, i requires 0 <= i < |ts| => Candidate(f, ts[i]));
    assert forall c :: c in cs <==> c.feature == f && c.threshold in ts by {
      forall c: Candidate | c.feature == f && c.threshold in ts ensures c in cs {
        var i :| 0 <= i < |ts| && ts[i] == c.threshold;
        assert cs[i] == c;
      }
    }
    cs
  }

  /** The candidates of features `0 .. f-1`, in visiting order. */
  function Candidates(X: seq<Row>, nf: nat, f: nat): (cs: seq<Candidate>)
    requires Rectangular(X, nf) && f <= nf
    ensures forall c :: c in cs <==> c.feature < f && IsCandidate(X, nf, c)
    ensures forall i, j :: 0 <= i < j < |cs| ==> LexLess(cs[i], cs[j])
  {
    if f == 0 then []
    else
      var front := Candidates(X, nf, f - 1);
      var back := FeatureCandidates(X, nf, f - 1);
      assert forall i :: 0 <= i < |front| ==> front[i] in front;
      assert forall j :: 0 <= j < |back| ==> back[j] in back;
      front + back
  }

  /** `c` is a candidate and no candidate has a larger gain. */
  ghost predicate Best(X: seq<Row>, y: seq<Label>, nf: nat, c: Candidate)
    requires Rectangular(X, nf) && |X| == |y|
  {
    IsCandidate(X, nf, c) && forall d :: IsCandidate(X, nf, d) ==> Gain(X, y, nf, d) <= Gain(X, y, nf, c)
  }

  /** The gain of splitting on `c`. */
  function Gain(X: seq<Row>, y: seq<Label>, nf: nat, c: Candidate): real
    requires Rectangular(X, nf) && |X| == |y| && c.feature < nf
  {
    InformationGain(y, Column(X, c.feature), c.threshold)
  }

  /**
   * The loop body `if gain > best_gain`, from position `i` on: a later candidate replaces the
   * current best only when its gain is strictly larger.
   */
  function Scan(gs: seq<real>, i: nat, best: Option<nat>, bestGain: real): Option<nat>
    requires i <= |gs|
    decreases |gs| - i
  {
    if i == |gs| then best
    else if gs[i] > bestGain then Scan(gs, i + 1, Some(i), gs[i])
    else Scan(gs, i + 1, best, bestGain)
  }

  /** `k` holds the largest value, and every earlier position holds a strictly smaller one. */
  predicate FirstArgMax(gs: seq<real>, k: nat) {
    k < |gs| &&
    (forall j :: 0 <= j < |gs| ==> gs[j] <= gs[k]) &&
    (forall j :: 0 <= j < k ==> gs[j] < gs[k])
  }

  /** The loop invariant of the search after the first `i` positions. */
  predicate Leading(gs: seq<real>, i: nat, best: Option<nat>, bestGain: real)
    requires i <= |gs|
  {
    (forall j :: 0 <= j < i ==> gs[j] <= bestGain) &&
    match best
    case None => true
    case Some(k) => k < i && gs[k] == bestGain && forall j :: 0 <= j < k ==> gs[j] < bestGain
  }

  lemma {:induction false} ScanFinds(gs: seq<real>, i: nat, best: Option<nat>, bestGain: real)
    requires i <= |gs| && Leading(gs, i, best, bestGain)
    ensures Scan(gs, i, best, bestGain).None? <==>
            best.None? && forall j :: i <= j < |gs| ==> gs[j] <= bestGain
    ensures Scan(gs, i, best, bestGain).Some? ==> FirstArgMax(gs, Scan(gs, i, best, bestGain).value)
    decreases |gs| - i
  {
    if i < |gs| {
      if gs[i] > bestGain {
        ScanFinds(gs, i + 1, Some(i), gs[i]);
      } else {
        ScanFinds(gs, i + 1, best, bestGain);
      }
    }
  }

  /** The search started from `best_gain = -1`. */
  function BestIndex(gs: seq<real>): (r: Option<nat>)
    ensures r.None? <==> forall j :: 0 <= j < |gs| ==> gs[j] <= -1.0
    ensures r.Some? ==> FirstArgMax(gs, r.value)
  {
    ScanFinds(gs, 0, None, -1.0);
    Scan(gs, 0, None, -1.0)
  }

  /**
   * `_find_best_split(X, y, n_features)`: no split exactly when there is no candidate (no
   * feature or no row); otherwise a candidate of maximal gain, and the first one in visiting
   * order among those of maximal gain.
   */
  function FindBestSplit(X: seq<Row>, y: seq<Label>, nf: nat): (r: Option<Candidate>)
    requires Rectangular(X, nf) && |X| == |y|
    ensures r.None? <==> nf == 0 || |X| == 0
    ensures r.Some? ==> IsCandidate(X, nf, r.value)
    ensures r.Some? ==> forall c :: IsCandidate(X, nf, c) ==> Gain(X, y, nf, c) <= Gain(X, y, nf, r.value)
    ensures r.Some? ==> forall c :: IsCandidate(X, nf, c) && LexLess(c, r.value) ==>
                          Gain(X, y, nf, c) < Gain(X, y, nf, r.value)
  {
    var cs := Candidates(X, nf, nf);
    var gs := seq(|cs|, i requires 0 <= i < |cs| => Gain(X, y, nf, cs[i]));
    CandidatesExist(X, nf, cs);
    match BestIndex(gs)
    case None =>
      None
    case Some(k) =>
      BestCandidate(X, y, nf, cs, gs, k);
      Some(cs[k])
  }

  /**
   * The candidate the search settles on, as a property: a best candidate that strictly beats
   * every candidate visited before it, since only a strictly larger gain replaces the current
   * choice.
   */
  ghost predicate Picks(X: seq<Row>, y: seq<Label>, nf: nat, c: Candidate)
    requires Rectangular(X, nf) && |X| == |y|
  {
    Best(X, y, nf, c) &&
    forall d :: IsCandidate(X, nf, d) && LexLess(d, c) ==> Gain(X, y, nf, d) < Gain(X, y, nf, c)
  }

  /** At most one candidate has that property. */
  lemma {:induction false} PicksUnique(X: seq<Row>, y: seq<Label>, nf: nat, c: Candidate, d: Candidate)
    requires Rectangular(X, nf) && |X| == |y|
    requires Picks(X, y, nf, c) && Picks(X, y, nf, d)
    ensures c == d
  {
  }

  /** The property describes the search exactly: it holds of `c` iff the search returns `c`. */
  lemma PicksIsFound(X: seq<Row>, y: seq<Label>, nf: nat, c: Candidate)
    requires Rectangular(X, nf) && |X| == |y|
    ensures Picks(X, y, nf, c) <==> FindBestSplit(X, y, nf) == Some(c)
  {
    if Picks(X, y, nf, c) {
      assert FindBestSplit(X, y, nf).Some? by {
        assert c.threshold in Column(X, c.feature);
        assert |X| > 0;
      }
      PicksUnique(X, y, nf, c, FindBestSplit(X, y, nf).value);
    }
  }

  /** Some candidate exists exactly when there is a feature and a row. */
  lemma CandidatesExist(X: seq<Row>, nf: nat, cs: seq<Candidate>)
    requires Rectangular(X, nf)
    requires cs == Candidates(X, nf, nf)
    ensures |cs| > 0 <==> nf > 0 && |X| > 0
  {
    if |cs| > 0 {
      assert cs[0] in cs;
      assert cs[0].threshold in Column(X, cs[0].feature);
    }
    if nf > 0 && |X| > 0 {
      assert X[0][0] == Column(X, 0)[0];
      assert Candidate(0, X[0][0]) in cs;
    }
  }

  lemma {:induction false} BestCandidate(X: seq<Row>, y: seq<Label>, nf: nat, cs: seq<Candidate>, gs: seq<real>, k: nat)
    requires Rectangular(X, nf) && |X| == |y|
    requires cs == Candidates(X, nf, nf)
    requires |gs| == |cs| && forall i :: 0 <= i < |cs| ==> gs[i] == Gain(X, y, nf, cs[i])
    requires FirstArgMax(gs, k)
    ensures IsCandidate(X, nf, cs[k])
    ensures forall c :: IsCandidate(X, nf, c) ==> Gain(X, y, nf, c) <= Gain(X, y, nf, cs[k])
    ensures forall c :: IsCandidate(X, nf, c) && LexLess(c, cs[k]) ==> Gain(X, y, nf, c) < Gain(X, y, nf, cs[k])
  {
    assert cs[k] in cs;
    BestCandidateMaximal(X, y, nf, cs, gs, k);
    BestCandidateFirst(X, y, nf, cs, gs, k);
  }

  lemma BestCandidateMaximal(X: seq<Row>, y: seq<Label>, nf: nat, cs: seq<Candidate>, gs: seq<real>, k: nat)
    requires Rectangular(X, nf) && |X| == |y|
    requires forall c :: c in cs <==> c.feature < nf && IsCandidate(X, nf, c)
    requires |gs| == |cs| && forall i :: 0 <= i < |cs| ==> gs[i] == Gain(X, y, nf, cs[i])
    requires FirstArgMax(gs, k)
    ensures forall c :: IsCandidate(X, nf, c) ==> Gain(X, y, nf, c) <= Gain(X, y, nf, cs[k])
  {
    forall c: Candidate | IsCandidate(X, nf, c) ensures Gain(X, y, nf, c) <= Gain(X, y, nf, cs[k]) {
      var j :| 0 <= j < |cs| && cs[j] == c;
      assert gs[j] <= gs[k];
    }
  }

  lemma BestCandidateFirst(X: seq<Row>, y: seq<Label>, nf: nat, cs: seq<Candidate>, gs: seq<real>, k: nat)
    requires Rectangular(X, nf) && |X| == |y|
    requires forall c :: c in cs <==> c.feature < nf && IsCandidate(X, nf, c)
    requires forall a, b :: 0 <= a < b < |cs| ==> LexLess(cs[a], cs[b])
    requires |gs| == |cs| && forall i :: 0 <= i < |cs| ==> gs[i] == Gain(X, y, nf, cs[i])
    requires FirstArgMax(gs, k)
    ensures forall c :: IsCandidate(X, nf, c) && LexLess(c, cs[k]) ==> Gain(X, y, nf, c) < Gain(X, y, nf, cs[k])
  {
    forall c: Candidate | IsCandidate(X, nf, c) && LexLess(c, cs[k])
      ensures Gain(X, y, nf, c) < Gain(X, y, nf, cs[k])
    {
      var j :| 0 <= j < |cs| && cs[j] == c;
      VisitedEarlier(cs, j, k);
      assert gs[j] < gs[k];
    }
  }

  /** In a sequence sorted by `LexLess`, a smaller candidate sits at an earlier position. */
  lemma VisitedEarlier(cs: seq<Candidate>, j: nat, k: nat)
    requires forall a, b :: 0 <= a < b < |cs| ==> LexLess(cs[a], cs[b])
    requires j < |cs| && k < |cs| && LexLess(cs[j], cs[k])
    ensures j < k
  {
  }
}
