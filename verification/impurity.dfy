/** Gini impurity and information gain (`_gini`, `_information_gain`), in exact real arithmetic. */
module Impurity {
  import opened Counting
  import opened Dataset

  /**
   * `_gini(y)`: one minus the sum of the squared class proportions. numpy evaluates the
   * empty case to `1 - dot([], [])`, that is 1.
   */
  function Gini(y: seq<Label>): (g: real)
    ensures |y| > 0 ==> 0.0 <= g < 1.0
    ensures |y| > 0 ==> (g == 0.0 <==> |Distinct(y)| == 1)
  {
    if |y| == 0 then 1.0
    else
      var n := |y|;
      var s := SumSquaredCounts(y, Distinct(y));
      SquaredCountsPure(y);
      RatioFacts(s as real, (n * n) as real);
      1.0 - (s as real) / ((n * n) as real)
  }

  lemma RatioFacts(s: real, d: real)
    requires 0.0 < s <= d
    ensures 0.0 < s / d <= 1.0
    ensures s / d == 1.0 <==> s == d
  {
  }

  /** A single-label sequence has impurity exactly 0. */
  lemma PureGini(y: seq<Label>)
    requires |y| > 0
    requires forall i :: 0 <= i < |y| ==> y[i] == y[0]
    ensures Gini(y) == 0.0
  {
    DistinctSingleton(y);
  }

  /** `counts / len(y)`: the proportion of each listed key among the labels. */
  function Proportions(y: seq<Label>, keys: seq<Label>): (p: seq<real>)
    requires |y| > 0
    ensures |p| == |keys|
  {
    if |keys| == 0 then []
    else Proportions(y, keys[..|keys| - 1]) + [(Count(y, keys[|keys| - 1]) as real) / (|y| as real)]
  }

  /** `np.dot(p, q)` of two real vectors of one length. */
  function Dot(p: seq<real>, q: seq<real>): real
    requires |p| == |q|
  {
    if |p| == 0 then 0.0 else Dot(p[..|p| - 1], q[..|q| - 1]) + p[|p| - 1] * q[|q| - 1]
  }

  /**
   * `_gini` as numpy computes it: one minus the dot product of the class proportions with
   * themselves, for the keys listed in any duplicate-free order, the sorted order of
   * `np.unique(y)` among them.
   */
  lemma GiniIsOneMinusDot(y: seq<Label>, keys: seq<Label>)
    requires |y| > 0 && NoDup(keys) && forall x :: x in keys <==> x in y
    ensures Gini(y) == 1.0 - Dot(Proportions(y, keys), Proportions(y, keys))
  {
    SameValuesAsDistinct(keys, y);
    SumSquaredReorder(y, keys, Distinct(y));
    DotOfProportions(y, keys);
  }

  /** The dot product of the proportions is the squared-count sum over n². */
  lemma {:induction false} DotOfProportions(y: seq<Label>, keys: seq<Label>)
    requires |y| > 0
    ensures Dot(Proportions(y, keys), Proportions(y, keys)) == (SumSquaredCounts(y, keys) as real) / ((|y| * |y|) as real)
    decreases |keys|
  {
    if |keys| > 0 {
      var init := keys[..|keys| - 1];
      var c := Count(y, keys[|keys| - 1]);
      var Q := Proportions(y, init);
      var v := (c as real) / (|y| as real);
      calc {
        Dot(Proportions(y, keys), Proportions(y, keys));
        { assert Proportions(y, keys) == Q + [v]; }
        Dot(Q + [v], Q + [v]);
        { SelfDotSnoc(Q, v); }
        Dot(Q, Q) + v * v;
        { DotOfProportions(y, init);
          RatioStep(Dot(Q, Q), SumSquaredCounts(y, init), c, |y|, SumSquaredCounts(y, keys), v); }
        (SumSquaredCounts(y, keys) as real) / ((|y| * |y|) as real);
      }
    } else {
      NothingOverSquare(|y|);
    }
  }

  lemma NothingOverSquare(n: nat)
    requires n > 0
    ensures (0 as real) / ((n * n) as real) == 0.0
  {
  }

  lemma SelfDotSnoc(q: seq<real>, v: real)
    ensures Dot(q + [v], q + [v]) == Dot(q, q) + v * v
  {
    assert (q + [v])[..|q|] == q;
  }

  lemma SameValuesAsDistinct(keys: seq<Label>, y: seq<Label>)
    requires forall x :: x in keys <==> x in y
    ensures forall x :: x in keys <==> x in Distinct(y)
  {
  }

  /** One more key adds its squared proportion, which is its squared count over n². */
  lemma RatioStep(d: real, before: nat, c: nat, n: nat, after: nat, v: real)
    requires n > 0 && d == (before as real) / ((n * n) as real) && after == before + c * c
    requires v == (c as real) / (n as real)
    ensures d + v * v == (after as real) / ((n * n) as real)
  {
    SquareOfRatio(c, n);
    AddOverSquare(before, c * c, n);
  }

  lemma SquareOfRatio(c: nat, n: nat)
    requires n > 0
    ensures ((c as real) / (n as real)) * ((c as real) / (n as real)) == ((c * c) as real) / ((n * n) as real)
  {
    CastMul(c, c);
    CastMul(n, n);
  }

  lemma AddOverSquare(a: nat, b: nat, n: nat)
    requires n > 0
    ensures (a as real) / ((n * n) as real) + (b as real) / ((n * n) as real) == ((a + b) as real) / ((n * n) as real)
  {
  }

  /**
   * `_information_gain(y, col, t)`: parent impurity minus the size-weighted impurities of the
   * two sides; 0 when either side is empty. With exact reals the gain is never negative, so the
   * search's start value -1 is below every candidate.
   */
  function InformationGain(y: seq<Label>, col: seq<real>, t: real): (g: real)
    requires |col| == |y|
    ensures |Split(col, t).0| == 0 || |Split(col, t).1| == 0 ==> g == 0.0
    ensures g >= 0.0
  {
    var lr := Split(col, t);
    if |lr.0| == 0 || |lr.1| == 0 then 0.0
    else
      GainNonNegative(y, col, t);
      Gini(y) - ChildImpurity(y, lr.0, lr.1)
  }

  /** `(n_left / n) * gini_left + (n_right / n) * gini_right`. */
  function ChildImpurity(y: seq<Label>, left: seq<nat>, right: seq<nat>): real
    requires |y| > 0
    requires IndicesBelow(left, |y|) && IndicesBelow(right, |y|)
  {
    var n := |y| as real;
    (|left| as real / n) * Gini(Select(y, left)) + (|right| as real / n) * Gini(Select(y, right))
  }

  /** Σ over the keys of Count(s, k) · Count(z, k). */
  function DotCounts<T(==,!new)>(s: seq<T>, z: seq<T>, keys: seq<T>): int {
    if |keys| == 0 then 0
    else DotCounts(s, z, keys[..|keys| - 1]) + Count(s, keys[|keys| - 1]) * Count(z, keys[|keys| - 1])
  }

  /** Σ over the positions i of `s` of Count(z, s[i]). */
  function Cross<T(==,!new)>(s: seq<T>, z: seq<T>): int {
    if |s| == 0 then 0 else Cross(s[..|s| - 1], z) + Count(z, s[|s| - 1])
  }

  lemma {:induction false} SquaredIsDot<T(!new)>(s: seq<T>, keys: seq<T>)
    ensures SumSquaredCounts(s, keys) == DotCounts(s, s, keys)
  {
    if |keys| > 0 {
      SquaredIsDot(s, keys[..|keys| - 1]);
    }
  }

  lemma {:induction false} DotSnoc<T(!new)>(p: seq<T>, x: T, z: seq<T>, keys: seq<T>)
    requires NoDup(keys)
    ensures DotCounts(p + [x], z, keys) == DotCounts(p, z, keys) + (if x in keys then Count(z, x) else 0)
  {
    if |keys| > 0 {
      var init := keys[..|keys| - 1];
      var last := keys[|keys| - 1];
      assert keys == init + [last];
      assert NoDup(init);
      DotSnoc(p, x, z, init);
      CountSnoc(p, x, last);
      var c := Count(p, last);
      var d := if x == last then 1 else 0;
      var m := Count(z, last);
      AddMul(Count(p + [x], last), c, d, m);
      assert x in keys <==> x in init || x == last;
      if x == last {
        assert x !in init;
      }
    }
  }

  lemma AddMul(e: int, c: int, d: int, m: int)
    requires e == c + d
    ensures e * m == c * m + d * m
  {
  }

  /** With duplicate-free keys covering `s`, the key order and extra keys do not matter. */
  lemma {:induction false} DotIsCross<T(!new)>(s: seq<T>, z: seq<T>, keys: seq<T>)
    requires NoDup(keys)
    requires forall e :: e in s ==> e in keys
    ensures DotCounts(s, z, keys) == Cross(s, z)
  {
    if |s| == 0 {
      ZeroDot(s, z, keys);
    } else {
      var p := s[..|s| - 1];
      assert s == p + [s[|s| - 1]];
      DotIsCross(p, z, keys);
      DotSnoc(p, s[|s| - 1], z, keys);
    }
  }

  lemma {:induction false} ZeroDot<T(!new)>(s: seq<T>, z: seq<T>, keys: seq<T>)
    requires |s| == 0
    ensures DotCounts(s, z, keys) == 0
  {
    if |keys| > 0 {
      ZeroDot(s, z, keys[..|keys| - 1]);
    }
  }

  /** The squared counts of `s` summed over any duplicate-free covering keys. */
  lemma SquaresOverKeys<T(!new)>(s: seq<T>, keys: seq<T>)
    requires NoDup(keys)
    requires forall e :: e in s ==> e in keys
    ensures SumSquaredCounts(s, keys) == SumSquaredCounts(s, Distinct(s))
  {
    SquaredIsDot(s, keys);
    SquaredIsDot(s, Distinct(s));
    DotIsCross(s, s, keys);
    DotIsCross(s, s, Distinct(s));
  }

  lemma SquareTerm(a: int, b: int, l: int, r: int)
    ensures (a + b) * b * (l * l) + (a + b) * a * (r * r) - a * b * ((l + r) * (l + r)) == (b * l - a * r) * (b * l - a * r)
  {
  }

  /** The class-by-class form of the concavity of the Gini impurity. */
  lemma {:induction false} SplitSquares(y: seq<Label>, yl: seq<Label>, yr: seq<Label>, keys: seq<Label>, a: nat, b: nat)
    requires forall k :: k in keys ==> Count(y, k) == Count(yl, k) + Count(yr, k)
    ensures SplitBound(a, b, SumSquaredCounts(yl, keys), SumSquaredCounts(yr, keys), SumSquaredCounts(y, keys))
  {
    if |keys| > 0 {
      var init := keys[..|keys| - 1];
      var k := keys[|keys| - 1];
      assert k in keys;
      assert forall j :: j in init ==> j in keys;
      SplitSquares(y, yl, yr, init, a, b);
      var l := Count(yl, k);
      var r := Count(yr, k);
      SquareOfSum(Count(y, k), l, r);
      StepSquares(a, b, SumSquaredCounts(yl, init), SumSquaredCounts(yr, init), SumSquaredCounts(y, init), l, r);
    }
  }

  lemma SquareOfSum(c: int, l: int, r: int)
    requires c == l + r
    ensures c * c == (l + r) * (l + r)
  {
  }

  lemma StepSquares(a: int, b: int, x: int, y: int, z: int, l: int, r: int)
    requires SplitBound(a, b, x, y, z)
    ensures SplitBound(a, b, x + l * l, y + r * r, z + (l + r) * (l + r))
  {
    SquareTerm(a, b, l, r);
    SquareNonNegative(b * l - a * r);
    StepLinear((a + b) * b, (a + b) * a, a * b, x, y, z, l * l, r * r, (l + r) * (l + r));
  }

  lemma SquareNonNegative(d: int)
    ensures d * d >= 0
  {
  }

  /** Adding a non-negative step to both sides of `p·x + q·y >= w·z`, with the products as atoms. */
  lemma StepLinear(p: int, q: int, w: int, x: int, y: int, z: int, x': int, y': int, z': int)
    requires p * x + q * y >= w * z
    requires p * x' + q * y' - w * z' >= 0
    ensures p * (x + x') + q * (y + y') >= w * (z + z')
  {
    AddMul(x + x', x, x', p);
    AddMul(y + y', y, y', q);
    AddMul(z + z', z, z', w);
  }

  /** The squared class counts of `s`, the integer part of its Gini impurity. */
  function SquaredClassCounts(s: seq<Label>): nat {
    SumSquaredCounts(s, Distinct(s))
  }

  /** The integer heart of the gain bound: n·b·S_left + n·a·S_right >= a·b·S_parent. */
  lemma SplitSquaresDistinct(y: seq<Label>, col: seq<real>, t: real, l: seq<nat>, r: seq<nat>)
    requires |col| == |y|
    requires l == Where(col, t, true) && r == Where(col, t, false)
    ensures SplitBound(|l|, |r|, SquaredClassCounts(Select(y, l)), SquaredClassCounts(Select(y, r)), SquaredClassCounts(y))
  {
    var yl := Select(y, l);
    var yr := Select(y, r);
    var keys := Distinct(y);
    forall k | k in keys ensures Count(y, k) == Count(yl, k) + Count(yr, k) {
      SplitCounts(y, col, t, k);
    }
    assert forall e :: e in yl ==> e in y;
    assert forall e :: e in yr ==> e in y;
    SquaresOverKeys(yl, keys);
    SquaresOverKeys(yr, keys);
    SplitSquares(y, yl, yr, keys, |l|, |r|);
    Transfer(|l|, |r|, SumSquaredCounts(yl, keys), SumSquaredCounts(yr, keys), SumSquaredCounts(y, keys),
      SquaredClassCounts(yl), SquaredClassCounts(yr), SquaredClassCounts(y));
  }

  lemma Transfer(a: int, b: int, x: int, y: int, z: int, x': int, y': int, z': int)
    requires x == x' && y == y' && z == z'
    requires SplitBound(a, b, x, y, z)
    ensures SplitBound(a, b, x', y', z')
  {
  }

  /** n·b·x + n·a·y >= a·b·z for n = a + b: the gain bound cleared of denominators. */
  predicate SplitBound(a: int, b: int, x: int, y: int, z: int) {
    (a + b) * b * x + (a + b) * a * y >= a * b * z
  }

  lemma GainNonNegative(y: seq<Label>, col: seq<real>, t: real)
    requires |col| == |y|
    requires |Split(col, t).0| > 0 && |Split(col, t).1| > 0
    ensures Gini(y) - ChildImpurity(y, Split(col, t).0, Split(col, t).1) >= 0.0
  {
    var l := Where(col, t, true);
    var r := Where(col, t, false);
    var yl := Select(y, l);
    var yr := Select(y, r);
    SplitSquaresDistinct(y, col, t, l, r);
    var s := SquaredClassCounts(y);
    var sl := SquaredClassCounts(yl);
    var sr := SquaredClassCounts(yr);
    var n := |y| as real;
    var a := |l| as real;
    var b := |r| as real;
    IntToReal(|l|, |r|, s, sl, sr, n);
    GiniAsRatio(y, n);
    GiniAsRatio(yl, a);
    GiniAsRatio(yr, b);
    WeightedGini(a, b, n, s as real, sl as real, sr as real, Gini(y), Gini(yl), Gini(yr));
    ChildWeights(y, l, r, n, a, b);
  }

  /**
   * A split never gains more than the parent's impurity, and it gains exactly that much when,
   * and only when, each side holds a single label.
   */
  lemma GainAtMostParent(y: seq<Label>, col: seq<real>, t: real)
    requires |col| == |y|
    ensures InformationGain(y, col, t) <= Gini(y)
    ensures |Split(col, t).0| > 0 && |Split(col, t).1| > 0 ==>
              (InformationGain(y, col, t) == Gini(y) <==>
               |Distinct(Select(y, Split(col, t).0))| == 1 && |Distinct(Select(y, Split(col, t).1))| == 1)
  {
    var l := Split(col, t).0;
    var r := Split(col, t).1;
    if |l| > 0 && |r| > 0 {
      var n := |y| as real;
      ChildWeights(y, l, r, n, |l| as real, |r| as real);
      MixZero(|l| as real, |r| as real, n, Gini(Select(y, l)), Gini(Select(y, r)));
    }
  }

  /** With positive weights, a mixture of non-negative impurities is zero exactly when both are. */
  lemma MixZero(a: real, b: real, n: real, ga: real, gb: real)
    requires a > 0.0 && b > 0.0 && n > 0.0 && ga >= 0.0 && gb >= 0.0
    ensures Mix(a, b, n, ga, gb) >= 0.0
    ensures Mix(a, b, n, ga, gb) == 0.0 <==> ga == 0.0 && gb == 0.0
  {
    var wa := a / n;
    var wb := b / n;
    assert wa > 0.0 && wb > 0.0;
    NonNegProduct(wa, ga);
    NonNegProduct(wb, gb);
    if wa * ga + wb * gb == 0.0 {
      PositiveZeroProduct(wa, ga);
      PositiveZeroProduct(wb, gb);
    }
  }

  lemma NonNegProduct(w: real, g: real)
    requires w > 0.0 && g >= 0.0
    ensures w * g >= 0.0
  {
  }

  lemma PositiveZeroProduct(w: real, g: real)
    requires w > 0.0 && g >= 0.0 && w * g == 0.0
    ensures g == 0.0
  {
  }

  /** The mixture of two impurities weighted by side sizes `a` and `b` out of `n`. */
  function Mix(a: real, b: real, n: real, ga: real, gb: real): real
    requires n != 0.0
  {
    (a / n) * ga + (b / n) * gb
  }

  /** The children's impurity written with named weights. */
  lemma ChildWeights(y: seq<Label>, l: seq<nat>, r: seq<nat>, n: real, a: real, b: real)
    requires |y| > 0 && IndicesBelow(l, |y|) && IndicesBelow(r, |y|)
    requires n == |y| as real && a == |l| as real && b == |r| as real
    ensures ChildImpurity(y, l, r) == Mix(a, b, n, Gini(Select(y, l)), Gini(Select(y, r)))
  {
  }

  lemma GiniAsRatio(y: seq<Label>, m: real)
    requires |y| > 0 && m == |y| as real
    ensures Gini(y) == 1.0 - (SquaredClassCounts(y) as real) / (m * m)
  {
    CastMul(|y|, |y|);
    assert (|y| * |y|) as real == m * m;
    assert Gini(y) == 1.0 - (SquaredClassCounts(y) as real) / ((|y| * |y|) as real);
  }

  lemma CastMul(x: int, y: int)
    ensures (x * y) as real == (x as real) * (y as real)
  {
  }

  lemma IntToReal(a: int, b: int, s: int, sl: int, sr: int, n: real)
    requires SplitBound(a, b, sl, sr, s)
    requires n == (a + b) as real
    ensures RealSplitBound(a as real, b as real, n, sl as real, sr as real, s as real)
  {
    CastMul(a + b, b);
    CastMul((a + b) * b, sl);
    CastMul(a + b, a);
    CastMul((a + b) * a, sr);
    CastMul(a, b);
    CastMul(a * b, s);
  }

  /** `SplitBound` over the reals, with `n` standing for `a + b`. */
  predicate RealSplitBound(a: real, b: real, n: real, sl: real, sr: real, s: real)
  {
    n * b * sl + n * a * sr >= a * b * s
  }

  /** The real-valued rearrangement of the gain bound, for side sizes a, b > 0. */
  lemma WeightedGini(a: real, b: real, n: real, s: real, sl: real, sr: real, gp: real, ga: real, gb: real)
    requires a > 0.0 && b > 0.0 && n == a + b
    requires RealSplitBound(a, b, n, sl, sr, s)
    requires gp == 1.0 - s / (n * n) && ga == 1.0 - sl / (a * a) && gb == 1.0 - sr / (b * b)
    ensures gp - Mix(a, b, n, ga, gb) >= 0.0
  {
    Complements(a, b, n, s, sl, sr);
    Factor(a, b, n, 1.0 - ga, 1.0 - gb, 1.0 - gp, s, sl, sr);
    Weights(a, b, n, ga, gb, gp);
  }

  /** From `g = 1 - x/(d·d)`: `x = (1 - g)·d·d`. */
  lemma Complement(x: real, d: real)
    requires d > 0.0
    ensures x == (1.0 - (1.0 - x / (d * d))) * (d * d)
  {
    PositiveSquare(d);
    assert 1.0 - (1.0 - x / (d * d)) == x / (d * d);
  }

  lemma Factor(a: real, b: real, n: real, x: real, y: real, z: real, s: real, sl: real, sr: real)
    requires a > 0.0 && b > 0.0 && n > 0.0
    requires sl == x * (a * a) && sr == y * (b * b) && s == z * (n * n)
    requires RealSplitBound(a, b, n, sl, sr, s)
    ensures a * x + b * y - n * z >= 0.0
  {
    assert n * b * sl + n * a * sr - a * b * s == (a * b * n) * (a * x + b * y - n * z);
    assert a * b * n > 0.0 by {
      assert a * b > 0.0;
    }
  }

  lemma Weights(a: real, b: real, n: real, ga: real, gb: real, gp: real)
    requires a > 0.0 && b > 0.0 && n == a + b
    requires a * (1.0 - ga) + b * (1.0 - gb) - n * (1.0 - gp) >= 0.0
    ensures gp - ((a / n) * ga + (b / n) * gb) >= 0.0
  {
    var wa := a / n;
    var wb := b / n;
    assert wa * n == a && wb * n == b;
    assert n * gp >= a * ga + b * gb;
    assert ((a / n) * ga + (b / n) * gb) * n == (wa * n) * ga + (wb * n) * gb;
    assert ((a / n) * ga + (b / n) * gb) * n <= gp * n;
  }

  lemma PositiveSquare(x: real)
    requires x > 0.0
    ensures x * x > 0.0
  {
  }

  lemma Complements(a: real, b: real, n: real, s: real, sl: real, sr: real)
    requires a > 0.0 && b > 0.0 && n > 0.0
    ensures sl == (1.0 - (1.0 - sl / (a * a))) * (a * a)
    ensures sr == (1.0 - (1.0 - sr / (b * b))) * (b * b)
    ensures s == (1.0 - (1.0 - s / (n * n))) * (n * n)
  {
    Complement(sl, a);
    Complement(sr, b);
    Complement(s, n);
  }
}
