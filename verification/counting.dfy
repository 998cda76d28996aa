/** Occurrence counts, distinct values and the `Counter.most_common(1)` rule. */
module Counting {

  /** Number of occurrences of `x` in `s`, like Python's `list.count`. */
  function Count<T(==,!new)>(s: seq<T>, x: T): (n: nat)
    ensures n <= |s|
    ensures n > 0 <==> x in s
  {
    if |s| == 0 then 0
    else
      assert s == s[..|s| - 1] + [s[|s| - 1]];
      Count(s[..|s| - 1], x) + (if s[|s| - 1] == x then 1 else 0)
  }

  /** The count is the multiplicity of `x` in the multiset of `s`. */
  lemma {:induction false} CountMultiplicity<T(!new)>(s: seq<T>, x: T)
    ensures Count(s, x) == multiset(s)[x]
  {
    if |s| > 0 {
      CountMultiplicity(s[..|s| - 1], x);
      assert s == s[..|s| - 1] + [s[|s| - 1]];
    }
  }

  lemma CountSnoc<T(!new)>(s: seq<T>, a: T, x: T)
    ensures Count(s + [a], x) == Count(s, x) + (if a == x then 1 else 0)
  {
    assert (s + [a])[..|s|] == s;
  }

  /** Two different values never occur more often together than `s` is long. */
  lemma {:induction false} CountTwo<T(!new)>(s: seq<T>, a: T, b: T)
    requires a != b
    ensures Count(s, a) + Count(s, b) <= |s|
  {
    if |s| > 0 {
      CountTwo(s[..|s| - 1], a, b);
    }
  }

  predicate NoDup<T(==,!new)>(s: seq<T>) {
    forall i, j :: 0 <= i < j < |s| ==> s[i] != s[j]
  }

  /** The distinct values of `s` in order of first occurrence: the key order of `Counter(s)`. */
  function Distinct<T(==,!new)>(s: seq<T>): (d: seq<T>)
    ensures NoDup(d)
    ensures forall x :: x in d <==> x in s
  {
    if |s| == 0 then []
    else
      assert s == s[..|s| - 1] + [s[|s| - 1]];
      var d := Distinct(s[..|s| - 1]);
      if s[|s| - 1] in d then d else d + [s[|s| - 1]]
  }

  /** The keys of a prefix come first, in the same order, among the keys of the whole. */
  lemma {:induction false} DistinctOfPrefix<T(!new)>(s: seq<T>, m: nat)
    requires m <= |s|
    ensures Distinct(s[..m]) <= Distinct(s)
    decreases |s|
  {
    if m < |s| {
      assert s[..|s| - 1][..m] == s[..m];
      DistinctOfPrefix(s[..|s| - 1], m);
    } else {
      assert s[..m] == s;
    }
  }

  /** A non-empty sequence has one distinct value exactly when all its elements are equal. */
  lemma DistinctSingleton<T(!new)>(s: seq<T>)
    requires |s| > 0
    ensures |Distinct(s)| == 1 <==> forall i :: 0 <= i < |s| ==> s[i] == s[0]
  {
    var d := Distinct(s);
    assert s[0] in d;
    if |d| == 1 {
      forall i | 0 <= i < |s| ensures s[i] == s[0] {
        assert s[i] in d;
      }
    }
    if forall i :: 0 <= i < |s| ==> s[i] == s[0] {
      AtMostOne(d, s[0]);
    }
  }

  /** A sequence without duplicates whose every element is `v` has at most one element. */
  lemma AtMostOne<T(!new)>(d: seq<T>, v: T)
    requires NoDup(d) && forall x :: x in d ==> x == v
    ensures |d| <= 1
  {
    if |d| >= 2 { NoDupHeads(d); assert false; }
  }

  lemma NoDupHeads<T(!new)>(d: seq<T>)
    requires NoDup(d) && |d| >= 2
    ensures d[0] in d && d[1] in d && d[0] != d[1]
  {
  }

  /** Sum of `Count(s, k)` over the keys `keys`. */
  function SumCounts<T(==,!new)>(s: seq<T>, keys: seq<T>): nat {
    if |keys| == 0 then 0
    else SumCounts(s, keys[..|keys| - 1]) + Count(s, keys[|keys| - 1])
  }

  /** Sum of `Count(s, k)` squared over the keys `keys`. */
  function SumSquaredCounts<T(==,!new)>(s: seq<T>, keys: seq<T>): nat {
    if |keys| == 0 then 0
    else SumSquaredCounts(s, keys[..|keys| - 1]) + Count(s, keys[|keys| - 1]) * Count(s, keys[|keys| - 1])
  }

  /** Appending `x` to `s` adds one to the key sum exactly when `x` is one of the keys. */
  lemma {:induction false} SumCountsSnoc<T(!new)>(s: seq<T>, x: T, keys: seq<T>)
    requires NoDup(keys)
    ensures SumCounts(s + [x], keys) == SumCounts(s, keys) + (if x in keys then 1 else 0)
  {
    if |keys| > 0 {
      var init := keys[..|keys| - 1];
      assert NoDup(init);
      assert keys == init + [keys[|keys| - 1]];
      SumCountsSnoc(s, x, init);
      assert x in keys <==> x in init || x == keys[|keys| - 1];
      assert Count(s + [x], keys[|keys| - 1]) == Count(s, keys[|keys| - 1]) + (if x == keys[|keys| - 1] then 1 else 0) by {
        assert (s + [x])[..|s|] == s;
      }
    }
  }

  lemma {:induction false} SumCountsAppendKey<T(!new)>(s: seq<T>, keys: seq<T>, k: T)
    ensures SumCounts(s, keys + [k]) == SumCounts(s, keys) + Count(s, k)
    ensures SumSquaredCounts(s, keys + [k]) == SumSquaredCounts(s, keys) + Count(s, k) * Count(s, k)
  {
    assert (keys + [k])[..|keys|] == keys;
  }

  /** The counts of the distinct values of `s` add up to the length of `s`. */
  lemma {:induction false} SumCountsDistinct<T(!new)>(s: seq<T>)
    ensures SumCounts(s, Distinct(s)) == |s|
    decreases |s|
  {
    if |s| > 0 {
      var p := s[..|s| - 1];
      var x := s[|s| - 1];
      assert s == p + [x];
      var d := Distinct(p);
      SumCountsDistinct(p);
      SumCountsSnoc(p, x, d);
      if x !in d {
        SumCountsAppendKey(s, d, x);
        assert Count(p, x) == 0;
        assert Count(s, x) == 1 by {
          assert s[..|s| - 1] == p;
        }
      }
    }
  }

  /** The squared-count sum over two key lists laid end to end is the sum of the two sums. */
  lemma {:induction false} SumSquaredConcat<T(!new)>(s: seq<T>, a: seq<T>, b: seq<T>)
    ensures SumSquaredCounts(s, a + b) == SumSquaredCounts(s, a) + SumSquaredCounts(s, b)
    decreases |b|
  {
    if |b| == 0 {
      assert a + b == a;
    } else {
      var front := b[..|b| - 1];
      assert (a + b)[..|a + b| - 1] == a + front;
      assert (a + b)[|a + b| - 1] == b[|b| - 1];
      SumSquaredConcat(s, a, front);
    }
  }

  /**
   * The squared-count sum does not depend on the order of the keys: any two duplicate-free
   * listings of the same values give the same sum. `np.unique` lists the keys sorted,
   * `Distinct` in first-seen order.
   */
  lemma {:induction false} SumSquaredReorder<T(!new)>(s: seq<T>, k1: seq<T>, k2: seq<T>)
    requires NoDup(k1) && NoDup(k2)
    requires forall x :: x in k1 <==> x in k2
    ensures SumSquaredCounts(s, k1) == SumSquaredCounts(s, k2)
    decreases |k1|
  {
    if |k1| == 0 {
      if |k2| > 0 {
        HeadIn(k2);
        assert false;
      }
    } else {
      var x := k1[|k1| - 1];
      assert x in k2;
      var i :| 0 <= i < |k2| && k2[i] == x;
      var rest1, rest2 := k1[..|k1| - 1], k2[..i] + k2[i + 1..];
      DropKeepsNoDup(k1, k2, i, rest1, rest2);
      SumSquaredReorder(s, rest1, rest2);
      SumSquaredWithout(s, k2, i);
    }
  }

  /** Taking key `k[i]` out of a listing takes its squared count out of the sum. */
  lemma {:induction false} SumSquaredWithout<T(!new)>(s: seq<T>, k: seq<T>, i: nat)
    requires i < |k|
    ensures SumSquaredCounts(s, k) == SumSquaredCounts(s, k[..i] + k[i + 1..]) + Count(s, k[i]) * Count(s, k[i])
  {
    var x := k[i];
    assert k == k[..i] + [x] + k[i + 1..];
    SumSquaredConcat(s, k[..i] + [x], k[i + 1..]);
    SumSquaredConcat(s, k[..i], [x]);
    SumSquaredConcat(s, k[..i], k[i + 1..]);
    SumCountsAppendKey(s, [], x);
    assert [] + [x] == [x];
  }

  lemma HeadIn<T>(k: seq<T>)
    requires |k| > 0
    ensures k[0] in k
  {
  }

  /** Dropping the last key of `k1` and its copy in `k2` leaves duplicate-free listings of the same values. */
  lemma DropKeepsNoDup<T(!new)>(k1: seq<T>, k2: seq<T>, i: nat, rest1: seq<T>, rest2: seq<T>)
    requires NoDup(k1) && NoDup(k2) && |k1| > 0 && i < |k2| && k2[i] == k1[|k1| - 1]
    requires forall x :: x in k1 <==> x in k2
    requires rest1 == k1[..|k1| - 1] && rest2 == k2[..i] + k2[i + 1..]
    ensures NoDup(rest1) && NoDup(rest2)
    ensures forall x :: x in rest1 <==> x in rest2
  {
    assert forall j :: 0 <= j < i ==> rest2[j] == k2[j];
    assert forall j :: i <= j < |rest2| ==> rest2[j] == k2[j + 1];
    forall x ensures x in rest1 <==> x in rest2 {
      if x in rest1 {
        var j :| 0 <= j < |rest1| && rest1[j] == x;
        assert k1[j] == x && j != |k1| - 1;
        assert x in k2;
        var m :| 0 <= m < |k2| && k2[m] == x;
        assert m != i;
        if m < i {
          assert rest2[m] == x;
        } else {
          assert rest2[m - 1] == x;
        }
      }
      if x in rest2 {
        var j :| 0 <= j < |rest2| && rest2[j] == x;
        var m := if j < i then j else j + 1;
        assert k2[m] == x && m != i;
        assert x in k1;
        var q :| 0 <= q < |k1| && k1[q] == x;
        assert q != |k1| - 1;
        assert rest1[q] == x;
      }
    }
  }

  /** Squares bounded through the counts: each key occurring between 1 and m times. */
  lemma {:induction false} SquaredCountsBounds<T(!new)>(s: seq<T>, keys: seq<T>, m: nat)
    requires forall k :: k in keys ==> 1 <= Count(s, k) <= m
    ensures SumCounts(s, keys) <= SumSquaredCounts(s, keys) <= m * SumCounts(s, keys)
  {
    if |keys| > 0 {
      var init := keys[..|keys| - 1];
      var last := keys[|keys| - 1];
      assert last in keys;
      assert forall k :: k in init ==> k in keys;
      SquaredCountsBounds(s, init, m);
      SquareBetween(Count(s, last), m);
      Distribute(m, SumCounts(s, init), Count(s, last));
    }
  }

  lemma SquareBetween(c: nat, m: nat)
    requires 1 <= c <= m
    ensures c <= c * c <= m * c
  {
  }

  lemma Distribute(m: nat, a: nat, b: nat)
    ensures m * (a + b) == m * a + m * b
  {
  }

  /** The sum of squared counts of the distinct values equals |s|² exactly when one value is present. */
  lemma SquaredCountsPure<T(!new)>(s: seq<T>)
    requires |s| > 0
    ensures |s| <= SumSquaredCounts(s, Distinct(s)) <= |s| * |s|
    ensures SumSquaredCounts(s, Distinct(s)) == |s| * |s| <==> |Distinct(s)| == 1
  {
    var d := Distinct(s);
    var n := |s|;
    SumCountsDistinct(s);
    SquaredCountsBounds(s, d, n);
    if |d| == 1 {
      assert d == [] + [d[0]];
      SumCountsAppendKey(s, [], d[0]);
    } else {
      SeveralClassesBelowSquare(s);
    }
  }

  /** With two or more distinct values every count is below n, so the squares stay below n². */
  lemma {:induction false} SeveralClassesBelowSquare<T(!new)>(s: seq<T>)
    requires |s| > 0 && |Distinct(s)| != 1
    ensures SumSquaredCounts(s, Distinct(s)) < |s| * |s|
  {
    var d := Distinct(s);
    var n := |s|;
    EachCountBelowLength(s);
    SquaredCountsBounds(s, d, n - 1);
    SumCountsDistinct(s);
    BelowSquare(n);
  }

  /** With two or more distinct values, each of them occurs at least once and fewer than |s| times. */
  lemma {:induction false} EachCountBelowLength<T(!new)>(s: seq<T>)
    requires |s| > 0 && |Distinct(s)| != 1
    ensures forall k :: k in Distinct(s) ==> 1 <= Count(s, k) <= |s| - 1
  {
    var d := Distinct(s);
    assert s[0] in d;
    forall k | k in d ensures 1 <= Count(s, k) <= |s| - 1 {
      var other := if k == d[0] then d[1] else d[0];
      assert other in d && other != k;
      CountTwo(s, k, other);
    }
  }

  lemma BelowSquare(n: nat)
    requires n > 0
    ensures (n - 1) * n < n * n
  {
  }

  /** Python's `max(keys, key=count)`: the first key whose count no later key exceeds. */
  function FirstMax<T(==,!new)>(s: seq<T>, keys: seq<T>): (r: T)
    requires |keys| > 0
    ensures r in keys
    ensures forall k :: k in keys ==> Count(s, k) <= Count(s, r)
    ensures exists p :: 0 <= p < |keys| && keys[p] == r && forall j :: 0 <= j < p ==> Count(s, keys[j]) < Count(s, r)
  {
    if |keys| == 1 then keys[0]
    else
      var init := keys[..|keys| - 1];
      var best := FirstMax(s, init);
      var last := keys[|keys| - 1];
      assert keys == init + [last];
      if Count(s, last) > Count(s, best) then
        NewMaxIsFirst(s, keys, best);
        last
      else
        OldMaxStaysFirst(s, keys, init, best);
        best
  }

  /** A last key counted above every earlier maximum is the first key of maximal count. */
  lemma {:induction false} NewMaxIsFirst<T(!new)>(s: seq<T>, keys: seq<T>, best: T)
    requires |keys| >= 2
    requires forall k :: k in keys[..|keys| - 1] ==> Count(s, k) <= Count(s, best)
    requires Count(s, keys[|keys| - 1]) > Count(s, best)
    ensures exists p :: 0 <= p < |keys| && keys[p] == keys[|keys| - 1] &&
                        forall j :: 0 <= j < p ==> Count(s, keys[j]) < Count(s, keys[|keys| - 1])
  {
    var p := |keys| - 1;
    forall j | 0 <= j < p ensures Count(s, keys[j]) < Count(s, keys[p]) {
      assert keys[j] == keys[..p][j];
    }
  }

  /** An earlier maximum that the last key does not beat stays the first key of maximal count. */
  lemma {:induction false} OldMaxStaysFirst<T(!new)>(s: seq<T>, keys: seq<T>, init: seq<T>, best: T)
    requires |keys| >= 2 && init == keys[..|keys| - 1]
    requires exists p :: 0 <= p < |init| && init[p] == best &&
                         forall j :: 0 <= j < p ==> Count(s, init[j]) < Count(s, best)
    ensures exists p :: 0 <= p < |keys| && keys[p] == best && forall j :: 0 <= j < p ==> Count(s, keys[j]) < Count(s, best)
  {
    var p :| 0 <= p < |init| && init[p] == best && forall j :: 0 <= j < p ==> Count(s, init[j]) < Count(s, best);
    assert keys[p] == best;
    forall j | 0 <= j < p ensures Count(s, keys[j]) < Count(s, best) {
      assert keys[j] == init[j];
    }
  }

  /**
   * `Counter(s).most_common(1)[0][0]`: a label of maximal count, and among labels of maximal
   * count the one that occurs first in `s`.
   */
  function MostCommon<T(==,!new)>(s: seq<T>): (r: T)
    requires |s| > 0
    ensures r in s
    ensures forall x :: Count(s, x) <= Count(s, r)
    ensures forall i :: 0 <= i < |s| && Count(s, s[i]) == Count(s, r) ==> r in s[..i + 1]
  {
    var d := Distinct(s);
    assert s[0] in d;
    var r := FirstMax(s, d);
    forall x ensures Count(s, x) <= Count(s, r) {
      if x !in d {
        assert x !in s;
      }
    }
    forall i | 0 <= i < |s| && Count(s, s[i]) == Count(s, r) ensures r in s[..i + 1] {
      FirstSeenAmongTies(s, r, i);
    }
    r
  }

  /** `v` occurs in `s` and no value occurs more often. */
  ghost predicate IsMajority<T(!new)>(s: seq<T>, v: T) {
    v in s && forall x :: Count(s, x) <= Count(s, v)
  }

  /**
   * `Counter(s).most_common(1)[0][0]` as a property: a value of maximal count that occurs no
   * later than any other value of the same count.
   */
  ghost predicate Plurality<T(!new)>(s: seq<T>, v: T) {
    IsMajority(s, v) &&
    forall k :: 0 <= k < |s| && Count(s, s[k]) == Count(s, v) ==> v in s[..k + 1]
  }

  /** Only one value meets the property, so it pins down what `most_common(1)` returns. */
  lemma {:induction false} PluralityUnique<T(!new)>(s: seq<T>, a: T, b: T)
    requires Plurality(s, a) && Plurality(s, b)
    ensures a == b
  {
    var i := FirstIndex(s, a);
    var j := FirstIndex(s, b);
    MajoritiesTie(s, a, b);
    TieSeen(s, b, i);
    TieSeen(s, a, j);
    FirstSightingsMeet(s, a, b, i, j);
  }

  lemma {:induction false} MajoritiesTie<T(!new)>(s: seq<T>, a: T, b: T)
    requires IsMajority(s, a) && IsMajority(s, b)
    ensures Count(s, a) == Count(s, b)
  {
    assert Count(s, a) <= Count(s, b) && Count(s, b) <= Count(s, a);
  }

  /** Two values each seen by the other's first position are the same value. */
  lemma {:induction false} FirstSightingsMeet<T>(s: seq<T>, a: T, b: T, i: nat, j: nat)
    requires i < |s| && j < |s| && s[i] == a && s[j] == b
    requires a !in s[..i] && b !in s[..j] && a in s[..j + 1] && b in s[..i + 1]
    ensures a == b
  {
    SeenBy(s, b, i, j);
    SeenBy(s, a, j, i);
  }

  /** A value of plurality is seen no later than any position holding a value of equal count. */
  lemma {:induction false} TieSeen<T(!new)>(s: seq<T>, v: T, k: nat)
    requires Plurality(s, v) && k < |s| && Count(s, s[k]) == Count(s, v)
    ensures v in s[..k + 1]
  {
  }

  /** A value seen within the first `i + 1` elements is first seen no later than `i`. */
  lemma {:induction false} SeenBy<T>(s: seq<T>, x: T, i: nat, j: nat)
    requires i < |s| && j < |s| && x in s[..i + 1] && x !in s[..j]
    ensures j <= i
  {
  }

  /** The position of the first occurrence of `x`. */
  lemma {:induction false} FirstIndex<T>(s: seq<T>, x: T) returns (i: nat)
    requires x in s
    ensures i < |s| && s[i] == x && x !in s[..i]
  {
    if s[0] == x {
      i := 0;
    } else {
      assert x in s[1..];
      var k := FirstIndex(s[1..], x);
      i := k + 1;
      assert s[..i] == [s[0]] + s[1..][..k];
    }
  }

  lemma FirstSeenAmongTies<T(!new)>(s: seq<T>, r: T, i: nat)
    requires i < |s|
    requires exists p :: 0 <= p < |Distinct(s)| && Distinct(s)[p] == r &&
                         forall j :: 0 <= j < p ==> Count(s, Distinct(s)[j]) < Count(s, r)
    requires Count(s, s[i]) == Count(s, r)
    ensures r in s[..i + 1]
  {
    var d := Distinct(s);
    var p :| 0 <= p < |d| && d[p] == r && forall j :: 0 <= j < p ==> Count(s, d[j]) < Count(s, r);
    var dp := Distinct(s[..i + 1]);
    DistinctOfPrefix(s, i + 1);
    assert s[i] in s[..i + 1];
    var q :| 0 <= q < |dp| && dp[q] == s[i];
    assert d[q] == s[i];
    assert p <= q;
    assert dp[p] == r;
  }
}
