/**
 * `GradientBoostingClassifierFromScratch`: a starting log-odds score, trees trained on the
 * sign of the residual against that score, and a score that adds `learning_rate` for every
 * tree voting for the positive class.
 */
module Boosting {
  import opened Wrappers
  import opened Dataset
  import opened DecisionTree

  /**
   * What the model needs of the logistic function `1 / (1 + exp(-s))`: values strictly between
   * 0 and 1, strictly increasing, one half at 0.
   */
  ghost predicate IsSigmoid(sigma: real -> real) {
    (forall s :: 0.0 < sigma(s) < 1.0) &&
    (forall s, u :: s < u ==> sigma(s) < sigma(u)) &&
    sigma(0.0) == 0.5
  }

  /** A rational stand-in with the same shape, showing the requirement can be met. */
  function RationalSigmoid(s: real): real {
    if s >= 0.0 then 1.0 - 1.0 / (2.0 * (1.0 + s)) else 1.0 / (2.0 * (1.0 - s))
  }

  lemma RationalSigmoidIsSigmoid()
    ensures IsSigmoid(RationalSigmoid)
  {
    forall s ensures 0.0 < RationalSigmoid(s) < 1.0 {
      if s >= 0.0 {
        assert 2.0 * (1.0 + s) >= 2.0;
      } else {
        assert 2.0 * (1.0 - s) > 2.0;
      }
    }
    forall s, u | s < u ensures RationalSigmoid(s) < RationalSigmoid(u) {
      if 0.0 <= s {
        DivLess(2.0 * (1.0 + u), 2.0 * (1.0 + s));
      } else if u < 0.0 {
        DivLess(2.0 * (1.0 - s), 2.0 * (1.0 - u));
      } else {
        assert 2.0 * (1.0 - s) > 2.0;
        assert 2.0 * (1.0 + u) >= 2.0;
      }
    }
  }

  lemma DivLess(big: real, small: real)
    requires big > small > 0.0
    ensures 1.0 / big < 1.0 / small
  {
    assert 1.0 / small - 1.0 / big == (big - small) / (big * small);
    assert big * small > 0.0;
  }

  /**
   * `residuals > 0` for `residuals = y - sigmoid(initial_prediction)`, with True as 1: the label
   * minus the starting probability `p0`.
   */
  function Targets(y: seq<Label>, p0: real): (z: seq<Label>)
    ensures |z| == |y|
  {
    seq(|y|, i requires 0 <= i < |y| => if (y[i] as real) - p0 > 0.0 then 1 else 0)
  }

  /**
   * Since the starting probability lies strictly between 0 and 1, a target is 1 exactly when
   * the label is at least 1; on 0/1 labels the targets are the labels themselves, whatever the
   * starting score.
   */
  lemma TargetsThreshold(y: seq<Label>, p0: real)
    requires 0.0 < p0 < 1.0
    ensures forall i :: 0 <= i < |y| ==> (Targets(y, p0)[i] == 1 <==> y[i] >= 1)
    ensures forall i :: 0 <= i < |y| ==> Targets(y, p0)[i] == 0 || Targets(y, p0)[i] == 1
    ensures (forall i :: 0 <= i < |y| ==> y[i] == 0 || y[i] == 1) ==> Targets(y, p0) == y
  {
  }

  /** A fitted ensemble: `initial_prediction`, `learning_rate` and `trees`. */
  datatype Booster = Booster(init: real, rate: real, trees: seq<Tree>)

  /** Every tree tests only features below `width`. */
  predicate AllFeaturesBelow(trees: seq<Tree>, width: nat) {
    forall k :: 0 <= k < |trees| ==> FeaturesBelow(trees[k], width)
  }

  /**
   * `fit(X, y)`: `n` trees, each grown on the same rows and the same targets (the residuals are
   * computed once, from the starting score, before any tree exists). With no trees to grow
   * nothing can fail; otherwise growing fails on an empty label vector.
   */
  function Fit(X: seq<Row>, y: seq<Label>, nf: nat, n: nat, rate: real, maxDepth: int,
               init: real, sigma: real -> real): (r: Result<Booster, TreeError>)
    requires Rectangular(X, nf) && |X| == |y|
    ensures r.Failure? <==> n > 0 && |y| == 0
    ensures r.Success? ==> r.value.init == init && r.value.rate == rate && |r.value.trees| == n
    ensures r.Success? ==> AllFeaturesBelow(r.value.trees, nf)
    ensures r.Success? ==> forall k :: 0 <= k < n ==> r.value.trees[k] == r.value.trees[0]
    ensures r.Success? && n > 0 ==> Grown(r.value.trees[0], X, Targets(y, sigma(init)), nf)
    ensures r.Success? && n > 0 ==> Built(r.value.trees[0], X, Targets(y, sigma(init)), nf, maxDepth, 0)
    ensures r.Success? && n > 0 ==> Height(r.value.trees[0]) <= Max0(maxDepth)
    ensures r.Success? && n > 0 ==> forall v :: v in Labels(r.value.trees[0]) ==> v in Targets(y, sigma(init))
  {
    if n == 0 then Success(Booster(init, rate, []))
    else
      match DecisionTree.Fit(X, Targets(y, sigma(init)), nf, maxDepth)
      case Failure(e) => Failure(e)
      case Success(t) => Success(Booster(init, rate, seq(n, _ => t)))
  }

  /**
   * `predictions += learning_rate * tree.predict(X)` for each tree in order, starting from
   * `initial_prediction`: the raw score of one row.
   */
  function Score(init: real, rate: real, trees: seq<Tree>, x: Row): real
    requires AllFeaturesBelow(trees, |x|)
  {
    if |trees| == 0 then init
    else
      var front := trees[..|trees| - 1];
      Score(init, rate, front, x) + rate * (Traverse(trees[|trees| - 1], x) as real)
  }

  /** How many of the trees send `x` to a leaf labelled 1. */
  function Votes(trees: seq<Tree>, x: Row): (v: nat)
    requires AllFeaturesBelow(trees, |x|)
    ensures v <= |trees|
  {
    if |trees| == 0 then 0
    else Votes(trees[..|trees| - 1], x) + (if Traverse(trees[|trees| - 1], x) == 1 then 1 else 0)
  }

  /** Trees whose leaves hold only 0 and 1. */
  predicate BinaryTrees(trees: seq<Tree>) {
    forall k :: 0 <= k < |trees| ==> Labels(trees[k]) <= {0, 1}
  }

  /** With 0/1 trees the raw score is the start plus `learning_rate` per positive vote. */
  lemma {:induction false} ScoreCountsVotes(init: real, rate: real, trees: seq<Tree>, x: Row)
    requires AllFeaturesBelow(trees, |x|) && BinaryTrees(trees)
    ensures Score(init, rate, trees, x) == init + rate * (Votes(trees, x) as real)
  {
    if |trees| > 0 {
      var front := trees[..|trees| - 1];
      ScoreCountsVotes(init, rate, front, x);
      var last := Traverse(trees[|trees| - 1], x);
      assert last in Labels(trees[|trees| - 1]);
      assert rate * (Votes(front, x) as real) + rate * (if last == 1 then 1.0 else 0.0)
          == rate * ((Votes(front, x) + if last == 1 then 1 else 0) as real);
    }
  }

  /** `n` copies of one tree vote `n` times or not at all. */
  lemma {:induction false} IdenticalVotes(trees: seq<Tree>, t: Tree, x: Row)
    requires FeaturesBelow(t, |x|)
    requires forall k :: 0 <= k < |trees| ==> trees[k] == t
    ensures AllFeaturesBelow(trees, |x|)
    ensures Votes(trees, x) == if Traverse(t, x) == 1 then |trees| else 0
  {
    if |trees| > 0 {
      IdenticalVotes(trees[..|trees| - 1], t, x);
    }
  }

  /** A pair of class probabilities `[1 - p, p]`. */
  datatype Proba = Proba(negative: real, positive: real)

  /** `predict_proba`: the sigmoid of the raw score as the positive-class probability. */
  function PredictProba(b: Booster, x: Row, sigma: real -> real): (p: Proba)
    requires AllFeaturesBelow(b.trees, |x|)
    ensures p.negative + p.positive == 1.0
    ensures p.positive == sigma(Score(b.init, b.rate, b.trees, x))
  {
    var s := sigma(Score(b.init, b.rate, b.trees, x));
    Proba(1.0 - s, s)
  }

  /** `np.argmax` over one row of probabilities: the first column wins a tie. */
  function ArgMax(p: Proba): (k: Label)
    ensures k == 0 || k == 1
    ensures k == 1 <==> p.positive > p.negative
  {
    if p.positive > p.negative then 1 else 0
  }

  /** `predict`: the class of larger probability, the negative one on a tie. */
  function Predict(b: Booster, x: Row, sigma: real -> real): Label
    requires AllFeaturesBelow(b.trees, |x|)
  {
    ArgMax(PredictProba(b, x, sigma))
  }

  /** With a sigmoid, the prediction is 1 exactly when the raw score is positive. */
  lemma PredictIsSignOfScore(b: Booster, x: Row, sigma: real -> real)
    requires AllFeaturesBelow(b.trees, |x|) && IsSigmoid(sigma)
    ensures Predict(b, x, sigma) == 1 <==> Score(b.init, b.rate, b.trees, x) > 0.0
    ensures Predict(b, x, sigma) == 0 <==> Score(b.init, b.rate, b.trees, x) <= 0.0
  {
    var s := Score(b.init, b.rate, b.trees, x);
    if s > 0.0 {
      assert sigma(0.0) < sigma(s);
    } else if s < 0.0 {
      assert sigma(s) < sigma(0.0);
    }
  }

  /**
   * For an ensemble returned by `Fit`: all trees agree, so a row's score is the start plus
   * `n * learning_rate` when the shared tree says 1 and the start alone otherwise.
   */
  lemma {:induction false} FittedScore(X: seq<Row>, y: seq<Label>, nf: nat, n: nat, rate: real, maxDepth: int,
                    init: real, sigma: real -> real, b: Booster, x: Row)
    requires Rectangular(X, nf) && |X| == |y| && |x| == nf
    requires 0.0 < sigma(init) < 1.0
    requires Fit(X, y, nf, n, rate, maxDepth, init, sigma) == Success(b) && n > 0
    ensures b.init == init && b.rate == rate && |b.trees| == n
    ensures AllFeaturesBelow(b.trees, |x|)
    ensures Score(b.init, b.rate, b.trees, x) ==
              b.init + (if Traverse(b.trees[0], x) == 1 then (|b.trees| as real) * b.rate else 0.0)
  {
    FittedShared(X, y, nf, n, rate, maxDepth, init, sigma, b);
    SharedTreeScore(b, b.trees[0], x);
  }

  /** A fitted ensemble is copies of one 0/1 tree that tests columns below the width. */
  lemma {:induction false} FittedShared(X: seq<Row>, y: seq<Label>, nf: nat, n: nat, rate: real, maxDepth: int,
                                        init: real, sigma: real -> real, b: Booster)
    requires Rectangular(X, nf) && |X| == |y|
    requires 0.0 < sigma(init) < 1.0
    requires Fit(X, y, nf, n, rate, maxDepth, init, sigma) == Success(b) && n > 0
    ensures b.init == init && b.rate == rate && |b.trees| == n
    ensures FeaturesBelow(b.trees[0], nf) && Labels(b.trees[0]) <= {0, 1}
    ensures forall k :: 0 <= k < |b.trees| ==> b.trees[k] == b.trees[0]
  {
    var t := b.trees[0];
    TargetsThreshold(y, sigma(init));
    assert forall v :: v in Labels(t) ==> v in Targets(y, sigma(init));
    BinaryLabels(Labels(t), Targets(y, sigma(init)));
  }

  lemma BinaryLabels(ls: set<Label>, z: seq<Label>)
    requires forall v :: v in ls ==> v in z
    requires forall i :: 0 <= i < |z| ==> z[i] == 0 || z[i] == 1
    ensures ls <= {0, 1}
  {
    forall v | v in ls ensures v == 0 || v == 1 {
      var i :| 0 <= i < |z| && z[i] == v;
    }
  }

  /** An ensemble of copies of one 0/1 tree. */
  lemma {:induction false} SharedTreeScore(b: Booster, t: Tree, x: Row)
    requires FeaturesBelow(t, |x|) && Labels(t) <= {0, 1}
    requires forall k :: 0 <= k < |b.trees| ==> b.trees[k] == t
    ensures AllFeaturesBelow(b.trees, |x|)
    ensures Score(b.init, b.rate, b.trees, x) ==
              b.init + (if Traverse(t, x) == 1 then (|b.trees| as real) * b.rate else 0.0)
  {
    IdenticalVotes(b.trees, t, x);
    SharedBinary(b.trees, t);
    ScaledVotes(b.init, b.rate, b.trees, x, Traverse(t, x) == 1);
  }

  lemma SharedBinary(trees: seq<Tree>, t: Tree)
    requires Labels(t) <= {0, 1}
    requires forall k :: 0 <= k < |trees| ==> trees[k] == t
    ensures BinaryTrees(trees)
  {
  }

  /** All-or-nothing votes turn into an all-or-nothing score increment. */
  lemma ScaledVotes(init: real, rate: real, trees: seq<Tree>, x: Row, one: bool)
    requires AllFeaturesBelow(trees, |x|) && BinaryTrees(trees)
    requires Votes(trees, x) == if one then |trees| else 0
    ensures Score(init, rate, trees, x) == init + (if one then (|trees| as real) * rate else 0.0)
  {
    ScoreCountsVotes(init, rate, trees, x);
  }

  /** Without trees every row gets the same prediction, fixed by the sign of the start score. */
  lemma NoTreesConstant(init: real, rate: real, x: Row, sigma: real -> real)
    requires IsSigmoid(sigma)
    ensures Predict(Booster(init, rate, []), x, sigma) == if init > 0.0 then 1 else 0
  {
    PredictIsSignOfScore(Booster(init, rate, []), x, sigma);
  }
}
