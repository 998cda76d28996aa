/**
 * `DecisionTreeClassifierFromScratch`: greedy recursive growth with the Gini gain, stopped by
 * depth, purity or sample count, and prediction by walking from the root to a leaf.
 */
module DecisionTree {
  import opened Wrappers
  import opened Counting
  import opened Dataset
  import opened Impurity
  import opened SplitSearch

  /** `{"label": v}` or `{"feature": f, "threshold": t, "left": ..., "right": ...}`. */
  datatype Tree =
    | Leaf(prediction: Label)
    | Node(feature: nat, threshold: real, left: Tree, right: Tree)

  datatype TreeError = EmptyLabels

  function Height(t: Tree): nat {
    match t
    case Leaf(_) => 0
    case Node(_, _, l, r) => 1 + (if Height(l) >= Height(r) then Height(l) else Height(r))
  }

  /** The labels stored in the leaves. */
  function Labels(t: Tree): set<Label> {
    match t
    case Leaf(v) => {v}
    case Node(_, _, l, r) => Labels(l) + Labels(r)
  }

  /** Every feature index the tree tests is below `width`. */
  predicate FeaturesBelow(t: Tree, width: nat) {
    match t
    case Leaf(_) => true
    case Node(f, _, l, r) => f < width && FeaturesBelow(l, width) && FeaturesBelow(r, width)
  }

  lemma SelectRectangular(X: seq<Row>, idx: seq<nat>, nf: nat)
    requires Rectangular(X, nf) && IndicesBelow(idx, |X|)
    ensures Rectangular(Select(X, idx), nf)
  {
  }

  /**
   * What the growing procedure guarantees about a tree and the training rows that reach it:
   * each internal node tests the candidate the split search returns on exactly those rows and
   * sends a non-empty part of them each way, and each leaf holds the label `most_common(1)`
   * picks among the rows that end there.
   */
  ghost predicate Grown(t: Tree, X: seq<Row>, y: seq<Label>, nf: nat)
    requires Rectangular(X, nf) && |X| == |y|
    decreases t
  {
    match t
    case Leaf(v) => Plurality(y, v)
    case Node(f, th, l, r) =>
      Picks(X, y, nf, Candidate(f, th)) &&
      var lr := Split(Column(X, f), th);
      SelectRectangular(X, lr.0, nf);
      SelectRectangular(X, lr.1, nf);
      |lr.0| > 0 && |lr.1| > 0 &&
      Grown(l, Select(X, lr.0), Select(y, lr.0), nf) &&
      Grown(r, Select(X, lr.1), Select(y, lr.1), nf)
  }

  /** None of the stopping conditions of `_build_tree` holds. */
  predicate Continues(y: seq<Label>, maxDepth: int, depth: nat) {
    !(depth >= maxDepth || |Distinct(y)| == 1 || |y| <= 1)
  }

  /** Candidate `c` sends at least one row each way. */
  predicate SplitsBothWays(X: seq<Row>, nf: nat, c: Candidate)
    requires Rectangular(X, nf) && c.feature < nf
  {
    var lr := Split(Column(X, c.feature), c.threshold);
    |lr.0| > 0 && |lr.1| > 0
  }

  /**
   * `_build_tree` makes a node here: it does not stop, the search finds a candidate, and that
   * candidate sends at least one row each way.
   */
  ghost predicate SplitsAt(X: seq<Row>, y: seq<Label>, nf: nat, maxDepth: int, depth: nat)
    requires Rectangular(X, nf) && |X| == |y|
  {
    Continues(y, maxDepth, depth) &&
    FindBestSplit(X, y, nf).Some? && SplitsBothWays(X, nf, FindBestSplit(X, y, nf).value)
  }

  /**
   * The tree `_build_tree(X, y, depth)` returns, described node by node: a node exactly where the
   * procedure does not stop and the candidate the search picks sends rows both ways, testing
   * that candidate; everywhere else a leaf with the label `most_common(1)` picks.
   */
  ghost predicate Built(t: Tree, X: seq<Row>, y: seq<Label>, nf: nat, maxDepth: int, depth: nat)
    requires Rectangular(X, nf) && |X| == |y|
    decreases t
  {
    match t
    case Leaf(v) =>
      Plurality(y, v) &&
      (Continues(y, maxDepth, depth) ==>
         forall c :: Picks(X, y, nf, c) ==> !SplitsBothWays(X, nf, c))
    case Node(f, th, l, r) =>
      Continues(y, maxDepth, depth) &&
      Picks(X, y, nf, Candidate(f, th)) && SplitsBothWays(X, nf, Candidate(f, th)) &&
      var lr := Split(Column(X, f), th);
      SelectRectangular(X, lr.0, nf);
      SelectRectangular(X, lr.1, nf);
      Built(l, Select(X, lr.0), Select(y, lr.0), nf, maxDepth, depth + 1) &&
      Built(r, Select(X, lr.1), Select(y, lr.1), nf, maxDepth, depth + 1)
  }

  function Max0(n: int): nat {
    if n > 0 then n else 0
  }

  /**
   * `_build_tree(X, y, depth)`. A leaf when the depth limit is reached, the labels are pure or
   * at most one sample is left; also when no candidate exists or the best candidate leaves one
   * side empty. Otherwise a node over the best split with both sides grown one level deeper.
   */
  function BuildTree(X: seq<Row>, y: seq<Label>, nf: nat, maxDepth: int, depth: nat): (t: Tree)
    requires Rectangular(X, nf) && |X| == |y| && |y| > 0
    ensures Built(t, X, y, nf, maxDepth, depth)
    ensures t.Node? <==> SplitsAt(X, y, nf, maxDepth, depth)
    ensures t.Node? ==> FindBestSplit(X, y, nf) == Some(Candidate(t.feature, t.threshold))
    ensures Grown(t, X, y, nf)
    ensures FeaturesBelow(t, nf)
    ensures forall v :: v in Labels(t) ==> v in y
    ensures Height(t) <= Max0(maxDepth - depth)
    ensures !Continues(y, maxDepth, depth) ==> t.Leaf?
    decreases |y|, 1
  {
    if depth >= maxDepth || |Distinct(y)| == 1 || |X| <= 1 then
      StopLeaf(X, y, nf, maxDepth, depth);
      Leaf(MostCommon(y))
    else
      match FindBestSplit(X, y, nf)
      case None =>
        NothingPicked(X, y, nf);
        StopLeaf(X, y, nf, maxDepth, depth);
        Leaf(MostCommon(y))
      case Some(c) =>
        PicksIsFound(X, y, nf, c);
        SplitOn(X, y, nf, maxDepth, depth, c)
  }

  lemma NothingPicked(X: seq<Row>, y: seq<Label>, nf: nat)
    requires Rectangular(X, nf) && |X| == |y| && FindBestSplit(X, y, nf).None?
    ensures forall c :: !Picks(X, y, nf, c)
  {
    forall c ensures !Picks(X, y, nf, c) {
      PicksIsFound(X, y, nf, c);
    }
  }

  lemma OnlyPick(X: seq<Row>, y: seq<Label>, nf: nat, c: Candidate)
    requires Rectangular(X, nf) && |X| == |y| && Picks(X, y, nf, c)
    ensures forall d :: Picks(X, y, nf, d) ==> d == c
  {
    forall d | Picks(X, y, nf, d) ensures d == c {
      PicksUnique(X, y, nf, c, d);
    }
  }

  /** The part of `_build_tree` after the best split `c` is found. */
  function SplitOn(X: seq<Row>, y: seq<Label>, nf: nat, maxDepth: int, depth: nat, c: Candidate): (t: Tree)
    requires Rectangular(X, nf) && |X| == |y| && |y| > 0 && Continues(y, maxDepth, depth)
    requires Picks(X, y, nf, c)
    ensures t.Node? <==> |Split(Column(X, c.feature), c.threshold).0| > 0 &&
                         |Split(Column(X, c.feature), c.threshold).1| > 0
    ensures t.Node? ==> t.feature == c.feature && t.threshold == c.threshold
    ensures Built(t, X, y, nf, maxDepth, depth)
    ensures Grown(t, X, y, nf)
    ensures FeaturesBelow(t, nf)
    ensures forall v :: v in Labels(t) ==> v in y
    ensures Height(t) <= Max0(maxDepth - depth)
    decreases |y|, 0
  {
    var lr := Split(Column(X, c.feature), c.threshold);
    if |lr.0| == 0 || |lr.1| == 0 then
      OnlyPick(X, y, nf, c);
      StopLeaf(X, y, nf, maxDepth, depth);
      Leaf(MostCommon(y))
    else
      SelectRectangular(X, lr.0, nf);
      SelectRectangular(X, lr.1, nf);
      var l := BuildTree(Select(X, lr.0), Select(y, lr.0), nf, maxDepth, depth + 1);
      var r := BuildTree(Select(X, lr.1), Select(y, lr.1), nf, maxDepth, depth + 1);
      JoinChildren(X, y, nf, maxDepth, depth, c, lr, l, r);
      Node(c.feature, c.threshold, l, r)
  }

  /** Where `_build_tree` does not split, its `most_common(1)` leaf meets the description. */
  lemma StopLeaf(X: seq<Row>, y: seq<Label>, nf: nat, maxDepth: int, depth: nat)
    requires Rectangular(X, nf) && |X| == |y| && |y| > 0
    requires Continues(y, maxDepth, depth) ==> forall c :: Picks(X, y, nf, c) ==> !SplitsBothWays(X, nf, c)
    ensures Built(Leaf(MostCommon(y)), X, y, nf, maxDepth, depth)
    ensures Grown(Leaf(MostCommon(y)), X, y, nf)
  {
  }

  /** What growing one level deeper promises about a child, for the rows `Xs` and labels `ys`. */
  ghost predicate GoodChild(t: Tree, Xs: seq<Row>, ys: seq<Label>, nf: nat, maxDepth: int, depth: nat)
    requires Rectangular(Xs, nf) && |Xs| == |ys|
  {
    Built(t, Xs, ys, nf, maxDepth, depth) && Grown(t, Xs, ys, nf) && FeaturesBelow(t, nf) &&
    (forall v :: v in Labels(t) ==> v in ys) && Height(t) <= Max0(maxDepth - depth)
  }

  /** Two children grown one level deeper make a node with every promised property. */
  lemma JoinChildren(X: seq<Row>, y: seq<Label>, nf: nat, maxDepth: int, depth: nat, c: Candidate,
                     lr: (seq<nat>, seq<nat>), l: Tree, r: Tree)
    requires Rectangular(X, nf) && |X| == |y| && Continues(y, maxDepth, depth)
    requires Picks(X, y, nf, c) && lr == Split(Column(X, c.feature), c.threshold)
    requires |lr.0| > 0 && |lr.1| > 0
    requires Rectangular(Select(X, lr.0), nf) && Rectangular(Select(X, lr.1), nf)
    requires GoodChild(l, Select(X, lr.0), Select(y, lr.0), nf, maxDepth, depth + 1)
    requires GoodChild(r, Select(X, lr.1), Select(y, lr.1), nf, maxDepth, depth + 1)
    ensures Built(Node(c.feature, c.threshold, l, r), X, y, nf, maxDepth, depth)
    ensures Grown(Node(c.feature, c.threshold, l, r), X, y, nf)
    ensures FeaturesBelow(Node(c.feature, c.threshold, l, r), nf)
    ensures forall v :: v in Labels(Node(c.feature, c.threshold, l, r)) ==> v in y
    ensures Height(Node(c.feature, c.threshold, l, r)) <= Max0(maxDepth - depth)
  {
    SelectedLabels(y, lr.0);
    SelectedLabels(y, lr.1);
    GrowNode(X, y, nf, c, l, r);
    BuiltNode(X, y, nf, maxDepth, depth, c, l, r);
    NodeShape(y, nf, Max0(maxDepth - depth), c, l, r, Select(y, lr.0), Select(y, lr.1));
  }

  lemma SelectedLabels(y: seq<Label>, idx: seq<nat>)
    requires IndicesBelow(idx, |y|)
    ensures forall v :: v in Select(y, idx) ==> v in y
  {
    forall v | v in Select(y, idx) ensures v in y {
      var k :| 0 <= k < |idx| && Select(y, idx)[k] == v;
      assert y[idx[k]] == v;
    }
  }

  /** A node over the searched candidate whose sides are both non-empty and both grown. */
  lemma GrowNode(X: seq<Row>, y: seq<Label>, nf: nat, c: Candidate, l: Tree, r: Tree)
    requires Rectangular(X, nf) && |X| == |y|
    requires Picks(X, y, nf, c)
    requires |Split(Column(X, c.feature), c.threshold).0| > 0
    requires |Split(Column(X, c.feature), c.threshold).1| > 0
    requires Rectangular(Select(X, Split(Column(X, c.feature), c.threshold).0), nf)
    requires Rectangular(Select(X, Split(Column(X, c.feature), c.threshold).1), nf)
    requires Grown(l, Select(X, Split(Column(X, c.feature), c.threshold).0),
                   Select(y, Split(Column(X, c.feature), c.threshold).0), nf)
    requires Grown(r, Select(X, Split(Column(X, c.feature), c.threshold).1),
                   Select(y, Split(Column(X, c.feature), c.threshold).1), nf)
    ensures Grown(Node(c.feature, c.threshold, l, r), X, y, nf)
  {
  }

  /** The same for the node-by-node description, one level deeper on each side. */
  lemma BuiltNode(X: seq<Row>, y: seq<Label>, nf: nat, maxDepth: int, depth: nat, c: Candidate, l: Tree, r: Tree)
    requires Rectangular(X, nf) && |X| == |y| && Continues(y, maxDepth, depth)
    requires Picks(X, y, nf, c)
    requires |Split(Column(X, c.feature), c.threshold).0| > 0
    requires |Split(Column(X, c.feature), c.threshold).1| > 0
    requires Rectangular(Select(X, Split(Column(X, c.feature), c.threshold).0), nf)
    requires Rectangular(Select(X, Split(Column(X, c.feature), c.threshold).1), nf)
    requires Built(l, Select(X, Split(Column(X, c.feature), c.threshold).0),
                   Select(y, Split(Column(X, c.feature), c.threshold).0), nf, maxDepth, depth + 1)
    requires Built(r, Select(X, Split(Column(X, c.feature), c.threshold).1),
                   Select(y, Split(Column(X, c.feature), c.threshold).1), nf, maxDepth, depth + 1)
    ensures Built(Node(c.feature, c.threshold, l, r), X, y, nf, maxDepth, depth)
  {
  }

  /** The remaining node facts follow from the children's. */
  lemma NodeShape(y: seq<Label>, nf: nat, bound: nat, c: Candidate, l: Tree, r: Tree, yl: seq<Label>, yr: seq<Label>)
    requires c.feature < nf && FeaturesBelow(l, nf) && FeaturesBelow(r, nf)
    requires (forall v :: v in yl ==> v in y) && (forall v :: v in yr ==> v in y)
    requires (forall v :: v in Labels(l) ==> v in yl) && (forall v :: v in Labels(r) ==> v in yr)
    requires Height(l) < bound && Height(r) < bound
    ensures FeaturesBelow(Node(c.feature, c.threshold, l, r), nf)
    ensures forall v :: v in Labels(Node(c.feature, c.threshold, l, r)) ==> v in y
    ensures Height(Node(c.feature, c.threshold, l, r)) <= bound
  {
  }

  /**
   * The node-by-node description fits one tree only, so it determines what `_build_tree`
   * returns.
   */
  lemma {:induction false} BuiltUnique(t: Tree, u: Tree, X: seq<Row>, y: seq<Label>, nf: nat, maxDepth: int, depth: nat)
    requires Rectangular(X, nf) && |X| == |y|
    requires Built(t, X, y, nf, maxDepth, depth) && Built(u, X, y, nf, maxDepth, depth)
    ensures t == u
    decreases t
  {
    match t
    case Leaf(v) =>
      if u.Node? {
        assert false;
      }
      PluralityUnique(y, v, u.prediction);
    case Node(f, th, l, r) =>
      if u.Leaf? {
        assert false;
      }
      PicksUnique(X, y, nf, Candidate(f, th), Candidate(u.feature, u.threshold));
      var lr := Split(Column(X, f), th);
      SelectRectangular(X, lr.0, nf);
      SelectRectangular(X, lr.1, nf);
      BuiltUnique(l, u.left, Select(X, lr.0), Select(y, lr.0), nf, maxDepth, depth + 1);
      BuiltUnique(r, u.right, Select(X, lr.1), Select(y, lr.1), nf, maxDepth, depth + 1);
  }

  /** Any tree meeting the node-by-node description is the one `_build_tree` grows. */
  lemma OnlyBuildTree(u: Tree, X: seq<Row>, y: seq<Label>, nf: nat, maxDepth: int, depth: nat)
    requires Rectangular(X, nf) && |X| == |y| && |y| > 0
    requires Built(u, X, y, nf, maxDepth, depth)
    ensures u == BuildTree(X, y, nf, maxDepth, depth)
  {
    BuiltUnique(u, BuildTree(X, y, nf, maxDepth, depth), X, y, nf, maxDepth, depth);
  }

  /** `fit(X, y)`: growing from an empty label vector fails in `Counter(y).most_common(1)[0]`. */
  function Fit(X: seq<Row>, y: seq<Label>, nf: nat, maxDepth: int): (r: Result<Tree, TreeError>)
    requires Rectangular(X, nf) && |X| == |y|
    ensures r.Failure? <==> |y| == 0
    ensures r.Success? ==> Built(r.value, X, y, nf, maxDepth, 0)
    ensures r.Success? ==> Grown(r.value, X, y, nf) && FeaturesBelow(r.value, nf)
    ensures r.Success? ==> Height(r.value) <= Max0(maxDepth)
    ensures r.Success? ==> forall v :: v in Labels(r.value) ==> v in y
  {
    if |y| == 0 then Failure(EmptyLabels)
    else Success(BuildTree(X, y, nf, maxDepth, 0))
  }

  /** `_traverse_tree(x, node)`: the label of the leaf that `x` reaches. */
  function Traverse(t: Tree, x: Row): (v: Label)
    requires FeaturesBelow(t, |x|)
    ensures v in Labels(t)
  {
    match t
    case Leaf(v) => v
    case Node(f, th, l, r) => if x[f] <= th then Traverse(l, x) else Traverse(r, x)
  }

  /** `predict(X)`: one leaf label per row. */
  function Predict(t: Tree, X: seq<Row>): (ys: seq<Label>)
    requires forall i :: 0 <= i < |X| ==> FeaturesBelow(t, |X[i]|)
    ensures |ys| == |X|
    ensures forall i :: 0 <= i < |X| ==> ys[i] == Traverse(t, X[i])
  {
    seq(|X|, i requires 0 <= i < |X| => Traverse(t, X[i]))
  }

  /** Labels that are all `v` grow a single leaf predicting `v`. */
  lemma PureLabels(X: seq<Row>, y: seq<Label>, nf: nat, maxDepth: int, v: Label)
    requires Rectangular(X, nf) && |X| == |y| && |y| > 0
    requires forall i :: 0 <= i < |y| ==> y[i] == v
    ensures BuildTree(X, y, nf, maxDepth, 0) == Leaf(v)
  {
    DistinctSingleton(y);
    assert y[0] == v;
  }

  /**
   * The labels of the training rows that land in the same leaf as `x`: the rows that agree
   * with `x` on the side of every test on the way down.
   */
  ghost function Reached(t: Tree, X: seq<Row>, y: seq<Label>, nf: nat, x: Row): seq<Label>
    requires Rectangular(X, nf) && |X| == |y| && Grown(t, X, y, nf) && nf <= |x|
    decreases t
  {
    match t
    case Leaf(_) => y
    case Node(f, th, l, r) =>
      var lr := Split(Column(X, f), th);
      SelectRectangular(X, lr.0, nf);
      SelectRectangular(X, lr.1, nf);
      if x[f] <= th then Reached(l, Select(X, lr.0), Select(y, lr.0), nf, x)
      else Reached(r, Select(X, lr.1), Select(y, lr.1), nf, x)
  }

  /**
   * Whatever row is classified, the prediction is a most frequent label among the training
   * rows that share its leaf.
   */
  lemma {:induction false} PredictionIsLeafMajority(t: Tree, X: seq<Row>, y: seq<Label>, nf: nat, x: Row)
    requires Rectangular(X, nf) && |X| == |y| && Grown(t, X, y, nf) && nf <= |x|
    requires FeaturesBelow(t, |x|)
    ensures Plurality(Reached(t, X, y, nf, x), Traverse(t, x))
    decreases t
  {
    match t
    case Leaf(_) =>
    case Node(f, th, l, r) =>
      var lr := Split(Column(X, f), th);
      SelectRectangular(X, lr.0, nf);
      SelectRectangular(X, lr.1, nf);
      if x[f] <= th {
        PredictionIsLeafMajority(l, Select(X, lr.0), Select(y, lr.0), nf, x);
      } else {
        PredictionIsLeafMajority(r, Select(X, lr.1), Select(y, lr.1), nf, x);
      }
  }

  /** Where row `i` sits in the index list of its side of the split. */
  lemma SideIndex(col: seq<real>, th: real, i: nat) returns (k: nat)
    requires i < |col|
    ensures col[i] <= th ==> k < |Split(col, th).0| && Split(col, th).0[k] == i
    ensures col[i] > th ==> k < |Split(col, th).1| && Split(col, th).1[k] == i
  {
    var lr := Split(col, th);
    if col[i] <= th {
      assert i in lr.0;
      k :| 0 <= k < |lr.0| && lr.0[k] == i;
    } else {
      assert i in lr.1;
      k :| 0 <= k < |lr.1| && lr.1[k] == i;
    }
  }

  /** A training row reaches a leaf that counts its own label. */
  lemma {:induction false} TrainingRowReachesOwnLeaf(t: Tree, X: seq<Row>, y: seq<Label>, nf: nat, i: nat)
    requires Rectangular(X, nf) && |X| == |y| && Grown(t, X, y, nf) && i < |X| && nf <= |X[i]|
    ensures y[i] in Reached(t, X, y, nf, X[i])
    decreases t
  {
    if t.Node? {
      if X[i][t.feature] <= t.threshold {
        var X', y', k := DescendLeft(t, X, y, nf, i);
        TrainingRowReachesOwnLeaf(t.left, X', y', nf, k);
      } else {
        var X', y', k := DescendRight(t, X, y, nf, i);
        TrainingRowReachesOwnLeaf(t.right, X', y', nf, k);
      }
    }
  }

  /** Row `i` passes a node's test: the left child's rows, and the row's position among them. */
  lemma DescendLeft(t: Tree, X: seq<Row>, y: seq<Label>, nf: nat, i: nat)
      returns (X': seq<Row>, y': seq<Label>, k: nat)
    requires Rectangular(X, nf) && |X| == |y| && Grown(t, X, y, nf) && i < |X| && nf <= |X[i]|
    requires t.Node? && X[i][t.feature] <= t.threshold
    ensures Rectangular(X', nf) && |X'| == |y'| && Grown(t.left, X', y', nf)
    ensures k < |X'| && X'[k] == X[i] && y'[k] == y[i]
    ensures Reached(t, X, y, nf, X[i]) == Reached(t.left, X', y', nf, X[i])
  {
    var col := Column(X, t.feature);
    var lr := Split(col, t.threshold);
    SelectRectangular(X, lr.0, nf);
    assert col[i] == X[i][t.feature];
    k := SideIndex(col, t.threshold, i);
    X', y' := Select(X, lr.0), Select(y, lr.0);
    assert X'[k] == X[i];
  }

  /** Row `i` fails a node's test: the right child's rows, and the row's position among them. */
  lemma DescendRight(t: Tree, X: seq<Row>, y: seq<Label>, nf: nat, i: nat)
      returns (X': seq<Row>, y': seq<Label>, k: nat)
    requires Rectangular(X, nf) && |X| == |y| && Grown(t, X, y, nf) && i < |X| && nf <= |X[i]|
    requires t.Node? && X[i][t.feature] > t.threshold
    ensures Rectangular(X', nf) && |X'| == |y'| && Grown(t.right, X', y', nf)
    ensures k < |X'| && X'[k] == X[i] && y'[k] == y[i]
    ensures Reached(t, X, y, nf, X[i]) == Reached(t.right, X', y', nf, X[i])
  {
    var col := Column(X, t.feature);
    var lr := Split(col, t.threshold);
    SelectRectangular(X, lr.1, nf);
    assert col[i] == X[i][t.feature];
    k := SideIndex(col, t.threshold, i);
    X', y' := Select(X, lr.1), Select(y, lr.1);
    assert X'[k] == X[i];
  }

  /** Candidate `c` sends a non-empty, single-label part of the rows each way. */
  ghost predicate PureSplit(X: seq<Row>, y: seq<Label>, nf: nat, c: Candidate)
    requires Rectangular(X, nf) && |X| == |y|
  {
    IsCandidate(X, nf, c) &&
    var lr := Split(Column(X, c.feature), c.threshold);
    |lr.0| > 0 && |lr.1| > 0 &&
    |Distinct(Select(y, lr.0))| == 1 && |Distinct(Select(y, lr.1))| == 1
  }

  /** When some single test separates the classes, every best candidate separates them too. */
  lemma BestSplitIsPure(X: seq<Row>, y: seq<Label>, nf: nat, c0: Candidate, c: Candidate)
    requires Rectangular(X, nf) && |X| == |y| && |Distinct(y)| > 1
    requires PureSplit(X, y, nf, c0) && Best(X, y, nf, c)
    ensures PureSplit(X, y, nf, c)
  {
    GainAtMostParent(y, Column(X, c0.feature), c0.threshold);
    GainAtMostParent(y, Column(X, c.feature), c.threshold);
    assert Gain(X, y, nf, c0) <= Gain(X, y, nf, c);
    assert |y| > 0;
    assert Gini(y) > 0.0;
  }

  /** A row of a pure side carries the side's only label. */
  lemma PureSideLabel(y: seq<Label>, idx: seq<nat>, v: Label, i: nat)
    requires IndicesBelow(idx, |y|) && |idx| > 0 && |Distinct(Select(y, idx))| == 1
    requires v in Select(y, idx) && i in idx
    ensures y[i] == v
  {
    DistinctSingleton(Select(y, idx));
    var k :| 0 <= k < |idx| && idx[k] == i;
    assert Select(y, idx)[k] == y[i];
  }

  /**
   * If one threshold test separates the classes, growing from any depth below the limit yields
   * a single test over two leaves, and that tree classifies every training row correctly.
   */
  lemma OneTestSeparates(X: seq<Row>, y: seq<Label>, nf: nat, maxDepth: int, depth: nat, c0: Candidate)
    requires Rectangular(X, nf) && |X| == |y| && depth < maxDepth && |Distinct(y)| > 1
    requires PureSplit(X, y, nf, c0)
    ensures BuildTree(X, y, nf, maxDepth, depth).Node?
    ensures BuildTree(X, y, nf, maxDepth, depth).left.Leaf?
    ensures BuildTree(X, y, nf, maxDepth, depth).right.Leaf?
    ensures forall i :: 0 <= i < |X| ==> Traverse(BuildTree(X, y, nf, maxDepth, depth), X[i]) == y[i]
  {
    assert |X| > 0 && nf > 0;
    var c := FindBestSplit(X, y, nf).value;
    BestSplitIsPure(X, y, nf, c0, c);
    var lr := Split(Column(X, c.feature), c.threshold);
    var t := BuildTree(X, y, nf, maxDepth, depth);
    assert t == SplitOn(X, y, nf, maxDepth, depth, c);
    assert t.Node? && t.feature == c.feature && t.threshold == c.threshold;
    assert t.left.Leaf? && t.right.Leaf?;
    PureLeavesClassify(X, y, nf, t);
  }

  /** A single test over two leaves, grown on a separating split, reproduces every label. */
  lemma PureLeavesClassify(X: seq<Row>, y: seq<Label>, nf: nat, t: Tree)
    requires Rectangular(X, nf) && |X| == |y| && Grown(t, X, y, nf)
    requires t.Node? && t.left.Leaf? && t.right.Leaf?
    requires PureSplit(X, y, nf, Candidate(t.feature, t.threshold)) && FeaturesBelow(t, nf)
    ensures forall i :: 0 <= i < |X| ==> Traverse(t, X[i]) == y[i]
  {
    forall i | 0 <= i < |X| ensures Traverse(t, X[i]) == y[i] {
      PureLeavesRow(X, y, nf, t, i);
    }
  }

  lemma PureLeavesRow(X: seq<Row>, y: seq<Label>, nf: nat, t: Tree, i: nat)
    requires Rectangular(X, nf) && |X| == |y| && Grown(t, X, y, nf)
    requires t.Node? && t.left.Leaf? && t.right.Leaf?
    requires PureSplit(X, y, nf, Candidate(t.feature, t.threshold))
    requires i < |X|
    ensures FeaturesBelow(t, |X[i]|) && Traverse(t, X[i]) == y[i]
  {
    var lr := Split(Column(X, t.feature), t.threshold);
    SelectRectangular(X, lr.0, nf);
    SelectRectangular(X, lr.1, nf);
    assert t.left.prediction in Select(y, lr.0);
    assert t.right.prediction in Select(y, lr.1);
    assert Column(X, t.feature)[i] == X[i][t.feature];
    if X[i][t.feature] <= t.threshold {
      PureSideLabel(y, lr.0, t.left.prediction, i);
    } else {
      PureSideLabel(y, lr.1, t.right.prediction, i);
    }
    OneTestRoute(t, X[i], y[i]);
  }

  lemma OneTestRoute(t: Tree, x: Row, v: Label)
    requires t.Node? && t.left.Leaf? && t.right.Leaf? && t.feature < |x|
    requires x[t.feature] <= t.threshold ==> t.left.prediction == v
    requires x[t.feature] > t.threshold ==> t.right.prediction == v
    ensures FeaturesBelow(t, |x|) && Traverse(t, x) == v
  {
  }
}
