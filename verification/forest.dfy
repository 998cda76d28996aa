/**
 * `RandomForestClassifierFromScratch`: a per-tree sample of rows and of feature columns, one
 * tree per sample, and a majority vote over the trees at prediction time. The random draws are
 * inputs of the model.
 */
module Forest {
  import opened Wrappers
  import opened Counting
  import opened Dataset
  import opened DecisionTree

  /** The `max_features` setting: "sqrt", "log2", or anything else meaning every feature. */
  datatype MaxFeatures = Sqrt | Log2 | AllFeatures

  datatype ForestError =
    | Log2OfZero        // `int(np.log2(0))` raises on the infinite logarithm
    | EmptySample       // growing a tree on no rows fails in `Counter(y).most_common(1)[0]`
    | NothingToVote     // `predict` with no trees or no rows

  /** `int(np.sqrt(n))`, exactly: the largest `r` with `r * r <= n`. */
  function FloorSqrt(n: nat): (r: nat)
    ensures r * r <= n < (r + 1) * (r + 1)
  {
    if n == 0 then 0
    else
      var s := FloorSqrt(n - 1);
      SquareStep(s, n);
      if (s + 1) * (s + 1) <= n then s + 1 else s
  }

  lemma SquareStep(s: nat, n: nat)
    requires n > 0 && s * s <= n - 1 < (s + 1) * (s + 1)
    ensures (s + 1) * (s + 1) <= n ==> n < (s + 2) * (s + 2)
  {
    assert (s + 2) * (s + 2) == (s + 1) * (s + 1) + 2 * s + 3;
  }

  function Pow2(e: nat): (p: nat)
    ensures p >= 1
  {
    if e == 0 then 1 else 2 * Pow2(e - 1)
  }

  /** `int(np.log2(n))` for `n >= 1`: the largest `r` with `2^r <= n`. */
  function FloorLog2(n: nat): (r: nat)
    requires n >= 1
    ensures Pow2(r) <= n < Pow2(r + 1)
  {
    if n == 1 then 0 else 1 + FloorLog2(n / 2)
  }

  /**
   * The number of features each tree sees. For "log2" with no features the logarithm is
   * minus infinity and the conversion to `int` raises.
   */
  function FeatureCount(mode: MaxFeatures, nf: nat): (r: Result<nat, ForestError>)
    ensures r.Failure? <==> mode == Log2 && nf == 0
    ensures r.Success? ==> r.value <= nf
    ensures mode == Sqrt ==> r.Success? && r.value * r.value <= nf < (r.value + 1) * (r.value + 1)
    ensures mode == Log2 && nf > 0 ==> r.Success? && Pow2(r.value) <= nf < Pow2(r.value + 1)
    ensures mode == AllFeatures ==> r == Success(nf)
  {
    match mode
    case Sqrt =>
      var r := FloorSqrt(nf);
      assert r <= r * r || r == 0;
      Success(r)
    case Log2 =>
      if nf == 0 then Failure(Log2OfZero)
      else
        var r := FloorLog2(nf);
        Pow2Above(r);
        Success(r)
    case AllFeatures => Success(nf)
  }

  lemma {:induction false} Pow2Above(e: nat)
    ensures e < Pow2(e)
  {
    if e > 0 {
      Pow2Above(e - 1);
    }
  }

  /** A forest: the trees and, for each, the feature columns it was grown on. */
  datatype Forest = Forest(trees: seq<Tree>, featureIndices: seq<seq<nat>>)

  /** One round's randomness: the bootstrap rows and the sampled feature columns. */
  datatype Draw = Draw(rows: seq<nat>, features: seq<nat>)

  /**
   * What `resample` and `np.random.choice(n_features, k, replace=False)` deliver: `n` rows
   * drawn with replacement, and `k` distinct columns.
   */
  predicate ValidDraw(d: Draw, n: nat, nf: nat, k: nat) {
    |d.rows| == n && IndicesBelow(d.rows, n) &&
    |d.features| == k && IndicesBelow(d.features, nf) && NoDup(d.features)
  }

  /** `x[feature_indices]`: the chosen columns of one row, in the chosen order. */
  function Pick(x: Row, fs: seq<nat>): (p: Row)
    requires IndicesBelow(fs, |x|)
    ensures |p| == |fs|
    ensures forall j :: 0 <= j < |fs| ==> p[j] == x[fs[j]]
  {
    seq(|fs|, j requires 0 <= j < |fs| => x[fs[j]])
  }

  /** `X[rows][:, features]`. */
  function Project(X: seq<Row>, rows: seq<nat>, fs: seq<nat>, nf: nat): (P: seq<Row>)
    requires Rectangular(X, nf) && IndicesBelow(rows, |X|) && IndicesBelow(fs, nf)
    ensures |P| == |rows| && Rectangular(P, |fs|)
    ensures forall i :: 0 <= i < |rows| ==> P[i] == Pick(X[rows[i]], fs)
  {
    seq(|rows|, i requires 0 <= i < |rows| => Pick(X[rows[i]], fs))
  }

  /** The tree grown in one round. */
  function GrowOne(X: seq<Row>, y: seq<Label>, nf: nat, maxDepth: int, d: Draw, k: nat): (r: Result<Tree, ForestError>)
    requires Rectangular(X, nf) && |X| == |y| && ValidDraw(d, |X|, nf, k)
    ensures r.Failure? <==> |X| == 0
    ensures r.Success? ==> FeaturesBelow(r.value, k)
    ensures r.Success? ==> Grown(r.value, Project(X, d.rows, d.features, nf), Select(y, d.rows), k)
    ensures r.Success? ==> Built(r.value, Project(X, d.rows, d.features, nf), Select(y, d.rows), k, maxDepth, 0)
  {
    var P := Project(X, d.rows, d.features, nf);
    match DecisionTree.Fit(P, Select(y, d.rows), k, maxDepth)
    case Failure(_) => Failure(EmptySample)
    case Success(t) => Success(t)
  }

  /** `F` followed by one tree and one column list per draw. */
  ghost predicate Extends(F: Forest, G: Forest, draws: seq<Draw>) {
    |G.trees| == |F.trees| + |draws| && |G.featureIndices| == |F.featureIndices| + |draws| &&
    G.trees[..|F.trees|] == F.trees && G.featureIndices[..|F.featureIndices|] == F.featureIndices &&
    forall i :: 0 <= i < |draws| ==> G.featureIndices[|F.featureIndices| + i] == draws[i].features
  }

  lemma ExtendsSnoc(F: Forest, G: Forest, draws: seq<Draw>, t: Tree, d: Draw)
    requires Extends(F, G, draws)
    ensures Extends(F, Forest(G.trees + [t], G.featureIndices + [d.features]), draws + [d])
  {
    var H := Forest(G.trees + [t], G.featureIndices + [d.features]);
    assert H.trees[..|F.trees|] == G.trees[..|F.trees|];
    assert H.featureIndices[..|F.featureIndices|] == G.featureIndices[..|F.featureIndices|];
  }

  /** The loop of `fit` over the given draws, appending to what the forest already holds. */
  function GrowAll(F: Forest, X: seq<Row>, y: seq<Label>, nf: nat, maxDepth: int, draws: seq<Draw>, k: nat): (r: Result<Forest, ForestError>)
    requires Rectangular(X, nf) && |X| == |y|
    requires forall i :: 0 <= i < |draws| ==> ValidDraw(draws[i], |X|, nf, k)
    ensures r.Failure? <==> |draws| > 0 && |X| == 0
    ensures r.Success? ==> Extends(F, r.value, draws)
    ensures r.Success? ==> forall i :: 0 <= i < |draws| ==>
              GrowOne(X, y, nf, maxDepth, draws[i], k) == Success(r.value.trees[|F.trees| + i])
    decreases |draws|
  {
    if |draws| == 0 then
      Success(F)
    else
      var front := draws[..|draws| - 1];
      var d := draws[|draws| - 1];
      assert draws == front + [d];
      match GrowAll(F, X, y, nf, maxDepth, front, k)
      case Failure(e) => Failure(e)
      case Success(G) =>
        match GrowOne(X, y, nf, maxDepth, d, k)
        case Failure(e) => Failure(e)
        case Success(t) =>
          ExtendsSnoc(F, G, front, t, d);
          Success(Forest(G.trees + [t], G.featureIndices + [d.features]))
  }

  /**
   * `fit(X, y)`: the feature count is fixed once, before any round; then one tree per draw is
   * appended, and so is its column list. Nothing already in the forest is removed.
   */
  function Fit(F: Forest, X: seq<Row>, y: seq<Label>, nf: nat, mode: MaxFeatures, maxDepth: int, draws: seq<Draw>): (r: Result<Forest, ForestError>)
    requires Rectangular(X, nf) && |X| == |y|
    requires FeatureCount(mode, nf).Success? ==>
               forall i :: 0 <= i < |draws| ==> ValidDraw(draws[i], |X|, nf, FeatureCount(mode, nf).value)
    ensures r.Failure? <==> (mode == Log2 && nf == 0) || (|draws| > 0 && |X| == 0)
    ensures r.Success? ==> Extends(F, r.value, draws)
    ensures r.Success? ==> forall i :: 0 <= i < |draws| ==>
              GrowOne(X, y, nf, maxDepth, draws[i], FeatureCount(mode, nf).value) == Success(r.value.trees[|F.trees| + i])
  {
    match FeatureCount(mode, nf)
    case Failure(e) => Failure(e)
    case Success(k) => GrowAll(F, X, y, nf, maxDepth, draws, k)
  }

  /** Every tree reads only stored columns, and every stored column exists in rows of `width`. */
  predicate WellFormed(F: Forest, width: nat) {
    |F.trees| == |F.featureIndices| &&
    forall k :: 0 <= k < |F.trees| ==>
      IndicesBelow(F.featureIndices[k], width) && FeaturesBelow(F.trees[k], |F.featureIndices[k]|)
  }

  /** Each tree's label for row `x`, fed the columns stored for that tree. */
  function Ballot(F: Forest, x: Row): (votes: seq<Label>)
    requires WellFormed(F, |x|)
    ensures |votes| == |F.trees|
    ensures forall k :: 0 <= k < |F.trees| ==> votes[k] == Traverse(F.trees[k], Pick(x, F.featureIndices[k]))
  {
    seq(|F.trees|, k requires 0 <= k < |F.trees| => Traverse(F.trees[k], Pick(x, F.featureIndices[k])))
  }

  /**
   * `predict(X)`: for every row the label with the most votes, the one voted first among ties;
   * with no trees or no rows numpy has nothing to vote on and raises.
   */
  function Predict(F: Forest, X: seq<Row>): (r: Result<seq<Label>, ForestError>)
    requires forall i :: 0 <= i < |X| ==> WellFormed(F, |X[i]|)
    ensures r.Failure? <==> |F.trees| == 0 || |X| == 0
    ensures r.Success? ==> |r.value| == |X|
    ensures r.Success? ==> forall i :: 0 <= i < |X| ==> Plurality(Ballot(F, X[i]), r.value[i])
  {
    if |F.trees| == 0 || |X| == 0 then Failure(NothingToVote)
    else Success(seq(|X|, i requires 0 <= i < |X| => MostCommon(Ballot(F, X[i]))))
  }

  /** Growing a well-formed forest keeps it well-formed for rows of the training width. */
  lemma {:induction false} FitKeepsWellFormed(F: Forest, X: seq<Row>, y: seq<Label>, nf: nat, mode: MaxFeatures, maxDepth: int,
                           draws: seq<Draw>, G: Forest)
    requires Rectangular(X, nf) && |X| == |y|
    requires FeatureCount(mode, nf).Success? ==>
               forall i :: 0 <= i < |draws| ==> ValidDraw(draws[i], |X|, nf, FeatureCount(mode, nf).value)
    requires WellFormed(F, nf)
    requires Fit(F, X, y, nf, mode, maxDepth, draws) == Success(G)
    ensures WellFormed(G, nf)
  {
    forall i | 0 <= i < |draws|
      ensures IndicesBelow(draws[i].features, nf) && FeaturesBelow(G.trees[|F.trees| + i], |draws[i].features|)
    {
      FitGrowsEachDraw(F, X, y, nf, mode, maxDepth, draws, G, i);
    }
    ExtendsWellFormed(F, G, draws, nf);
  }

  lemma {:induction false} ExtendsWellFormed(F: Forest, G: Forest, draws: seq<Draw>, nf: nat)
    requires WellFormed(F, nf) && Extends(F, G, draws)
    requires forall i :: 0 <= i < |draws| ==>
               IndicesBelow(draws[i].features, nf) && FeaturesBelow(G.trees[|F.trees| + i], |draws[i].features|)
    ensures WellFormed(G, nf)
  {
    forall j | 0 <= j < |G.trees|
      ensures IndicesBelow(G.featureIndices[j], nf) && FeaturesBelow(G.trees[j], |G.featureIndices[j]|)
    {
      if j < |F.trees| {
        assert G.trees[..|F.trees|][j] == G.trees[j];
        assert G.featureIndices[..|F.featureIndices|][j] == G.featureIndices[j];
      } else {
        assert G.featureIndices[|F.featureIndices| + (j - |F.trees|)] == draws[j - |F.trees|].features;
      }
    }
  }

  /**
   * Each appended tree is the decision tree grown on its own bootstrap rows, restricted to its own
   * columns, and tests only those columns.
   */
  lemma {:induction false} FitGrowsEachDraw(F: Forest, X: seq<Row>, y: seq<Label>, nf: nat, mode: MaxFeatures, maxDepth: int,
                         draws: seq<Draw>, G: Forest, i: nat)
    requires Rectangular(X, nf) && |X| == |y|
    requires FeatureCount(mode, nf).Success? ==>
               forall i :: 0 <= i < |draws| ==> ValidDraw(draws[i], |X|, nf, FeatureCount(mode, nf).value)
    requires Fit(F, X, y, nf, mode, maxDepth, draws) == Success(G) && i < |draws|
    ensures IndicesBelow(draws[i].rows, |X|) && IndicesBelow(draws[i].features, nf)
    ensures G.featureIndices[|F.featureIndices| + i] == draws[i].features
    ensures FeaturesBelow(G.trees[|F.trees| + i], |draws[i].features|)
    ensures Grown(G.trees[|F.trees| + i], Project(X, draws[i].rows, draws[i].features, nf),
                  Select(y, draws[i].rows), |draws[i].features|)
    ensures Built(G.trees[|F.trees| + i], Project(X, draws[i].rows, draws[i].features, nf),
                  Select(y, draws[i].rows), |draws[i].features|, maxDepth, 0)
  {
    var k := FitRound(F, X, y, nf, mode, maxDepth, draws, G, i);
    GrownFromDraw(X, y, nf, maxDepth, draws[i], k, G.trees[|F.trees| + i]);
  }

  /** Round `i` of a fit: a valid draw for the fixed column count, and the tree grown from it. */
  lemma {:induction false} FitRound(F: Forest, X: seq<Row>, y: seq<Label>, nf: nat, mode: MaxFeatures, maxDepth: int,
                 draws: seq<Draw>, G: Forest, i: nat) returns (k: nat)
    requires Rectangular(X, nf) && |X| == |y|
    requires FeatureCount(mode, nf).Success? ==>
               forall i :: 0 <= i < |draws| ==> ValidDraw(draws[i], |X|, nf, FeatureCount(mode, nf).value)
    requires Fit(F, X, y, nf, mode, maxDepth, draws) == Success(G) && i < |draws|
    ensures ValidDraw(draws[i], |X|, nf, k)
    ensures |F.trees| + i < |G.trees| && |F.featureIndices| + i < |G.featureIndices|
    ensures GrowOne(X, y, nf, maxDepth, draws[i], k) == Success(G.trees[|F.trees| + i])
    ensures G.featureIndices[|F.featureIndices| + i] == draws[i].features
  {
    k := FeatureCount(mode, nf).value;
    assert Extends(F, G, draws);
    ExtendsAt(F, G, draws, i);
  }

  lemma {:induction false} ExtendsAt(F: Forest, G: Forest, draws: seq<Draw>, i: nat)
    requires Extends(F, G, draws) && i < |draws|
    ensures |F.trees| + i < |G.trees| && |F.featureIndices| + i < |G.featureIndices|
    ensures G.featureIndices[|F.featureIndices| + i] == draws[i].features
  {
  }

  /** What one successful round delivers, with the column count read off the draw. */
  lemma {:induction false} GrownFromDraw(X: seq<Row>, y: seq<Label>, nf: nat, maxDepth: int, d: Draw, k: nat, t: Tree)
    requires Rectangular(X, nf) && |X| == |y| && ValidDraw(d, |X|, nf, k)
    requires GrowOne(X, y, nf, maxDepth, d, k) == Success(t)
    ensures IndicesBelow(d.rows, |X|) && IndicesBelow(d.features, nf)
    ensures FeaturesBelow(t, |d.features|)
    ensures Grown(t, Project(X, d.rows, d.features, nf), Select(y, d.rows), |d.features|)
    ensures Built(t, Project(X, d.rows, d.features, nf), Select(y, d.rows), |d.features|, maxDepth, 0)
  {
    assert |d.features| == k;
    assert DecisionTree.Fit(Project(X, d.rows, d.features, nf), Select(y, d.rows), k, maxDepth) == Success(t);
  }

  /**
   * Rounds that receive the same draw grow the same tree. With an integer `random_state` every
   * round does: `resample` is handed the seed itself, and the global generator behind
   * `np.random.choice` is reset to the seed by the previous round's tree `fit`.
   */
  lemma {:induction false} RepeatedDrawSameTree(F: Forest, X: seq<Row>, y: seq<Label>, nf: nat, mode: MaxFeatures, maxDepth: int,
                             draws: seq<Draw>, G: Forest, i: nat, j: nat)
    requires Rectangular(X, nf) && |X| == |y|
    requires FeatureCount(mode, nf).Success? ==>
               forall i :: 0 <= i < |draws| ==> ValidDraw(draws[i], |X|, nf, FeatureCount(mode, nf).value)
    requires Fit(F, X, y, nf, mode, maxDepth, draws) == Success(G)
    requires i < |draws| && j < |draws| && draws[i] == draws[j]
    ensures G.trees[|F.trees| + i] == G.trees[|F.trees| + j]
    ensures G.featureIndices[|F.featureIndices| + i] == G.featureIndices[|F.featureIndices| + j]
  {
    var k := FitRound(F, X, y, nf, mode, maxDepth, draws, G, i);
    var k' := FitRound(F, X, y, nf, mode, maxDepth, draws, G, j);
  }

  /**
   * A forest fitted from scratch on one repeated draw votes like its first tree: every row of the
   * training width gets the label that tree gives it on the drawn columns.
   */
  lemma {:induction false} RepeatedDrawActsAsOneTree(X: seq<Row>, y: seq<Label>, nf: nat, mode: MaxFeatures, maxDepth: int,
                                  draws: seq<Draw>, G: Forest, Xq: seq<Row>)
    requires Rectangular(X, nf) && |X| == |y|
    requires FeatureCount(mode, nf).Success? ==>
               forall i :: 0 <= i < |draws| ==> ValidDraw(draws[i], |X|, nf, FeatureCount(mode, nf).value)
    requires Fit(Forest([], []), X, y, nf, mode, maxDepth, draws) == Success(G)
    requires |draws| > 0 && forall i :: 0 <= i < |draws| ==> draws[i] == draws[0]
    requires |Xq| > 0 && forall r :: 0 <= r < |Xq| ==> |Xq[r]| == nf
    ensures |G.trees| == |draws| && G.featureIndices[0] == draws[0].features
    ensures forall r :: 0 <= r < |Xq| ==> WellFormed(G, |Xq[r]|)
    ensures Predict(G, Xq).Success?
    ensures forall r :: 0 <= r < |Xq| ==>
              Predict(G, Xq).value[r] == Traverse(G.trees[0], Pick(Xq[r], draws[0].features))
  {
    FitKeepsWellFormed(Forest([], []), X, y, nf, mode, maxDepth, draws, G);
    var _ := FitRound(Forest([], []), X, y, nf, mode, maxDepth, draws, G, 0);
    var k := FitFromScratch(X, y, nf, mode, maxDepth, draws, G);
    RepeatedDrawCopies(X, y, nf, maxDepth, k, draws, G);
    RepeatedDrawColumns(G, draws);
    WellFormedRows(G, Xq, nf);
    CopiesVoteAsOne(G, Xq);
  }

  /** Fitted from scratch, tree `i` is the one grown from draw `i`, for the fixed column count `k`. */
  lemma {:induction false} FitFromScratch(X: seq<Row>, y: seq<Label>, nf: nat, mode: MaxFeatures, maxDepth: int,
                                          draws: seq<Draw>, G: Forest) returns (k: nat)
    requires Rectangular(X, nf) && |X| == |y|
    requires FeatureCount(mode, nf).Success? ==>
               forall i :: 0 <= i < |draws| ==> ValidDraw(draws[i], |X|, nf, FeatureCount(mode, nf).value)
    requires Fit(Forest([], []), X, y, nf, mode, maxDepth, draws) == Success(G)
    ensures |G.trees| == |draws| && |G.featureIndices| == |draws|
    ensures forall i :: 0 <= i < |draws| ==> ValidDraw(draws[i], |X|, nf, k)
    ensures forall i :: 0 <= i < |draws| ==> GrowOne(X, y, nf, maxDepth, draws[i], k) == Success(G.trees[i])
  {
    k := FeatureCount(mode, nf).value;
    FitLengths(Forest([], []), X, y, nf, mode, maxDepth, draws, G);
  }

  /** Rounds that all grow from one draw grow copies of one tree. */
  lemma {:induction false} RepeatedDrawCopies(X: seq<Row>, y: seq<Label>, nf: nat, maxDepth: int, k: nat,
                                              draws: seq<Draw>, G: Forest)
    requires Rectangular(X, nf) && |X| == |y| && |G.trees| == |draws|
    requires forall i :: 0 <= i < |draws| ==> ValidDraw(draws[i], |X|, nf, k)
    requires forall i :: 0 <= i < |draws| ==> GrowOne(X, y, nf, maxDepth, draws[i], k) == Success(G.trees[i])
    requires |draws| > 0 && forall i :: 0 <= i < |draws| ==> draws[i] == draws[0]
    ensures forall j :: 0 <= j < |draws| ==> G.trees[j] == G.trees[0]
  {
    forall j | 0 <= j < |draws| ensures G.trees[j] == G.trees[0] {
      assert GrowOne(X, y, nf, maxDepth, draws[j], k) == GrowOne(X, y, nf, maxDepth, draws[0], k);
    }
  }

  /** Every column list of a forest that extends the empty one on a repeated draw is the first. */
  lemma {:induction false} RepeatedDrawColumns(G: Forest, draws: seq<Draw>)
    requires Extends(Forest([], []), G, draws)
    requires |draws| > 0 && forall i :: 0 <= i < |draws| ==> draws[i] == draws[0]
    ensures forall k :: 0 <= k < |draws| ==> G.featureIndices[k] == G.featureIndices[0]
  {
    forall k | 0 <= k < |draws| ensures G.featureIndices[k] == G.featureIndices[0] {
      ExtendsAt(Forest([], []), G, draws, k);
      ExtendsAt(Forest([], []), G, draws, 0);
    }
  }

  lemma {:induction false} FitLengths(F: Forest, X: seq<Row>, y: seq<Label>, nf: nat, mode: MaxFeatures, maxDepth: int,
                                      draws: seq<Draw>, G: Forest)
    requires Rectangular(X, nf) && |X| == |y|
    requires FeatureCount(mode, nf).Success? ==>
               forall i :: 0 <= i < |draws| ==> ValidDraw(draws[i], |X|, nf, FeatureCount(mode, nf).value)
    requires Fit(F, X, y, nf, mode, maxDepth, draws) == Success(G)
    ensures |G.trees| == |F.trees| + |draws| && |G.featureIndices| == |F.featureIndices| + |draws|
  {
    assert Extends(F, G, draws);
  }

  lemma WellFormedRows(G: Forest, Xq: seq<Row>, nf: nat)
    requires WellFormed(G, nf) && forall r :: 0 <= r < |Xq| ==> |Xq[r]| == nf
    ensures forall r :: 0 <= r < |Xq| ==> WellFormed(G, |Xq[r]|)
  {
  }

  /** A forest of copies of one tree on one column list votes like that tree. */
  lemma {:induction false} CopiesVoteAsOne(G: Forest, Xq: seq<Row>)
    requires forall r :: 0 <= r < |Xq| ==> WellFormed(G, |Xq[r]|)
    requires |G.trees| > 0 && |G.featureIndices| == |G.trees| && |Xq| > 0
    requires forall k :: 0 <= k < |G.trees| ==> G.trees[k] == G.trees[0] && G.featureIndices[k] == G.featureIndices[0]
    ensures Predict(G, Xq).Success?
    ensures forall r :: 0 <= r < |Xq| ==>
              Predict(G, Xq).value[r] == Traverse(G.trees[0], Pick(Xq[r], G.featureIndices[0]))
  {
    forall r | 0 <= r < |Xq|
      ensures Predict(G, Xq).value[r] == Traverse(G.trees[0], Pick(Xq[r], G.featureIndices[0]))
    {
      UnanimousVote(G, Xq, r, Traverse(G.trees[0], Pick(Xq[r], G.featureIndices[0])));
    }
  }

  /** A one-tree forest predicts exactly what its tree says on the stored columns. */
  lemma {:induction false} SingleTreeVote(t: Tree, fs: seq<nat>, X: seq<Row>)
    requires |X| > 0
    requires forall i :: 0 <= i < |X| ==> WellFormed(Forest([t], [fs]), |X[i]|)
    ensures Predict(Forest([t], [fs]), X).Success?
    ensures forall i :: 0 <= i < |X| ==> Predict(Forest([t], [fs]), X).value[i] == Traverse(t, Pick(X[i], fs))
  {
    var F := Forest([t], [fs]);
    assert |F.trees| == 1 && F.trees[0] == t && F.featureIndices[0] == fs;
    forall i | 0 <= i < |X| ensures Predict(F, X).value[i] == Traverse(t, Pick(X[i], fs)) {
      assert WellFormed(F, |X[i]|);
      UnanimousVote(F, X, i, Traverse(t, Pick(X[i], fs)));
    }
  }

  /** When every tree gives a row the same label, the forest gives that label. */
  lemma {:induction false} UnanimousVote(F: Forest, X: seq<Row>, i: nat, v: Label)
    requires forall j :: 0 <= j < |X| ==> WellFormed(F, |X[j]|)
    requires |F.trees| > 0 && i < |X| && WellFormed(F, |X[i]|)
    requires forall k :: 0 <= k < |F.trees| ==> Traverse(F.trees[k], Pick(X[i], F.featureIndices[k])) == v
    ensures Predict(F, X).Success? && Predict(F, X).value[i] == v
  {
    var b := Ballot(F, X[i]);
    assert Predict(F, X).value[i] in b;
  }
}
