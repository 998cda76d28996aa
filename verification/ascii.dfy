/**
 * The string operations the URL features are built from, over ASCII text: character classes,
 * `str.lower`, `in` on strings, `str.count` and `str.split`.
 */
module Text {

  predicate IsDigit(c: char) { '0' <= c <= '9' }
  predicate IsUpper(c: char) { 'A' <= c <= 'Z' }
  predicate IsLower(c: char) { 'a' <= c <= 'z' }

  /** The regular-expression class `[a-zA-Z0-9]`. */
  predicate IsAlnum(c: char) { IsDigit(c) || IsUpper(c) || IsLower(c) }

  /** The class `[a-fA-F0-9]`. */
  predicate IsHexDigit(c: char) { IsDigit(c) || 'a' <= c <= 'f' || 'A' <= c <= 'F' }

  /** `str.lower` on one ASCII character. */
  function Lower(c: char): (d: char)
    ensures !IsUpper(d)
    ensures !IsUpper(c) ==> d == c
    ensures IsUpper(c) ==> IsLower(d) && d as int == c as int + 32
  {
    if IsUpper(c) then (c as int + 32) as char else c
  }

  /** `str.lower` on ASCII text: each character lowered in place. */
  function LowerStr(s: string): (r: string)
    ensures |r| == |s|
    ensures forall i :: 0 <= i < |s| ==> r[i] == Lower(s[i])
  {
    seq(|s|, i requires 0 <= i < |s| => Lower(s[i]))
  }

  /** Lowering twice is lowering once, and lowered text has no capital. */
  lemma LowerIdempotent(s: string)
    ensures LowerStr(LowerStr(s)) == LowerStr(s)
    ensures forall i :: 0 <= i < |s| ==> !IsUpper(LowerStr(s)[i])
  {
  }

  /** Text without capitals is its own lower-case form. */
  lemma LowerFixes(s: string)
    requires forall i :: 0 <= i < |s| ==> !IsUpper(s[i])
    ensures LowerStr(s) == s
  {
  }

  lemma LowerAppend(s: string, t: string)
    ensures LowerStr(s + t) == LowerStr(s) + LowerStr(t)
  {
  }

  /** `s.startswith(p)`. */
  predicate StartsWith(s: string, p: string) {
    |p| <= |s| && s[..|p|] == p
  }

  /** `w` occurs in `s` starting at position `i`. */
  predicate OccursAt(s: string, w: string, i: int) {
    0 <= i && i + |w| <= |s| && s[i..i + |w|] == w
  }

  /** `w in s` as a property: some position where `w` occurs. */
  ghost predicate Occurs(s: string, w: string) {
    exists i :: OccursAt(s, w, i)
  }

  /** `w in s`: compare at the front, otherwise look further on. */
  function Contains(s: string, w: string): (b: bool)
    ensures b <==> Occurs(s, w)
    decreases |s|
  {
    OccursStep(s, w);
    if |w| > |s| then false
    else if s[..|w|] == w then true
    else Contains(s[1..], w)
  }

  /** An occurrence is at the front or in the tail. */
  lemma OccursStep(s: string, w: string)
    ensures |w| > |s| ==> !Occurs(s, w)
    ensures |w| <= |s| ==> (Occurs(s, w) <==> s[..|w|] == w || (|s| > 0 && Occurs(s[1..], w)))
  {
    if |w| <= |s| && |s| > 0 {
      if Occurs(s[1..], w) {
        var i :| OccursAt(s[1..], w, i);
        assert OccursAt(s, w, i + 1);
      }
      if Occurs(s, w) && s[..|w|] != w {
        var i :| OccursAt(s, w, i);
        assert i != 0;
        assert OccursAt(s[1..], w, i - 1);
      }
    }
    if |w| <= |s| && s[..|w|] == w {
      assert OccursAt(s, w, 0);
    }
  }

  /** A word with a character absent from `s` does not occur in `s`. */
  lemma MissingCharacter(s: string, w: string, k: nat)
    requires k < |w| && w[k] !in s
    ensures !Occurs(s, w)
  {
  }

  /** Occurrences survive text added on either side. */
  lemma OccursWithin(s: string, w: string, p: string, q: string)
    requires Occurs(s, w)
    ensures Occurs(p + s + q, w)
  {
    var i :| OccursAt(s, w, i);
    assert (p + s + q)[|p| + i..|p| + i + |w|] == s[i..i + |w|];
    assert OccursAt(p + s + q, w, |p| + i);
  }

  /**
   * An occurrence in `p + s` cannot straddle the boundary when the last character of `p` is not
   * in `w`: it lies wholly in `p` or wholly in `s`.
   */
  lemma OccursAcrossBreak(p: string, s: string, w: string)
    requires |p| > 0 && p[|p| - 1] !in w
    ensures Occurs(p + s, w) <==> Occurs(p, w) || Occurs(s, w)
  {
    if Occurs(p + s, w) {
      var i :| OccursAt(p + s, w, i);
      NoStraddle(p, s, w, i);
      if i + |w| <= |p| {
        assert p[i..i + |w|] == (p + s)[i..i + |w|];
        assert OccursAt(p, w, i);
      } else {
        assert s[i - |p|..i - |p| + |w|] == (p + s)[i..i + |w|];
        assert OccursAt(s, w, i - |p|);
      }
    }
    if Occurs(p, w) {
      OccursWithin(p, w, [], s);
      assert [] + p + s == p + s;
    }
    if Occurs(s, w) {
      OccursWithin(s, w, p, []);
      assert p + s + [] == p + s;
    }
  }

  lemma NoStraddle(p: string, s: string, w: string, i: int)
    requires |p| > 0 && p[|p| - 1] !in w && OccursAt(p + s, w, i)
    ensures i + |w| <= |p| || i >= |p|
  {
    if i < |p| < i + |w| {
      SliceIndex(p + s, i, i + |w|, |p| - 1 - i);
      assert false;
    }
  }

  lemma SliceIndex(a: string, lo: int, hi: int, k: int)
    ensures 0 <= lo <= hi <= |a| && 0 <= k < hi - lo ==> a[lo..hi][k] == a[lo + k]
  {
  }

  /** Lowering keeps every occurrence of a word that has no capital. */
  lemma OccursLowered(s: string, w: string)
    requires forall k :: 0 <= k < |w| ==> !IsUpper(w[k])
    requires Occurs(s, w)
    ensures Occurs(LowerStr(s), w)
  {
    var i :| OccursAt(s, w, i);
    assert LowerStr(s)[i..i + |w|] == w;
    assert OccursAt(LowerStr(s), w, i);
  }

  /**
   * `s.count(w)`: occurrences counted left to right without overlap; the empty word is counted
   * once per position, `len(s) + 1` times.
   */
  function CountWord(s: string, w: string): (n: nat)
    ensures n > 0 <==> Occurs(s, w)
    ensures |w| > 0 ==> n * |w| <= |s|
    decreases |s|
  {
    OccursStep(s, w);
    if |w| == 0 then
      assert OccursAt(s, w, 0);
      |s| + 1
    else if |w| > |s| then 0
    else if s[..|w|] == w then
      var m := CountWord(s[|w|..], w);
      OneMoreWord(m, |w|, |s|);
      1 + m
    else CountWord(s[1..], w)
  }

  /** How many positions of `s`, from `0` to `|s|`, start an occurrence of `w`. */
  function Positions(s: string, w: string): (n: nat)
    ensures n <= |s| + 1
    ensures n > 0 <==> Occurs(s, w)
    decreases |s|
  {
    OccursStep(s, w);
    (if OccursAt(s, w, 0) then 1 else 0) + (if |s| == 0 then 0 else Positions(s[1..], w))
  }

  /** No later character of `w` repeats its first one, so two occurrences cannot overlap. */
  predicate FirstUnique(w: string) {
    forall k :: 0 < k < |w| ==> w[k] != w[0]
  }

  /**
   * For a non-empty word whose first character does not recur, counting left to right without
   * overlap finds every position where the word starts.
   */
  lemma {:induction false} CountWordIsPositions(s: string, w: string)
    requires |w| > 0 && FirstUnique(w)
    ensures CountWord(s, w) == Positions(s, w)
    decreases |s|
  {
    if |w| > |s| {
      NoRoomNoPositions(s, w);
    } else if s[..|w|] == w {
      CountWordIsPositions(s[|w|..], w);
      MatchAtFront(s, w);
    } else {
      CountWordIsPositions(s[1..], w);
    }
  }

  lemma {:induction false} NoRoomNoPositions(s: string, w: string)
    requires |s| < |w|
    ensures Positions(s, w) == 0
    decreases |s|
  {
    if |s| > 0 {
      NoRoomNoPositions(s[1..], w);
    }
  }

  /** An occurrence at the front of `s` is the only one starting within its own extent. */
  lemma MatchAtFront(s: string, w: string)
    requires 0 < |w| <= |s| && s[..|w|] == w && FirstUnique(w)
    ensures Positions(s, w) == 1 + Positions(s[|w|..], w)
  {
    var t := s[1..];
    InsideMatch(s, w, t);
    NoStartsBefore(t, w, |w| - 1);
    assert t[|w| - 1..] == s[|w|..];
    assert OccursAt(s, w, 0);
  }

  lemma InsideMatch(s: string, w: string, t: string)
    requires 0 < |w| <= |s| && s[..|w|] == w && FirstUnique(w) && t == s[1..]
    ensures forall j :: 0 <= j < |w| - 1 ==> t[j] != w[0]
  {
    assert forall j :: 0 <= j < |w| - 1 ==> t[j] == s[..|w|][j + 1];
  }

  /** The first `m` characters of `t` all differ from the first of `w`: none starts an occurrence. */
  lemma {:induction false} NoStartsBefore(t: string, w: string, m: nat)
    requires |w| > 0 && m <= |t|
    requires forall j :: 0 <= j < m ==> t[j] != w[0]
    ensures Positions(t, w) == Positions(t[m..], w)
    decreases m
  {
    if m > 0 {
      SkipNonStart(t, w);
      assert forall j :: 0 <= j < m - 1 ==> t[1..][j] == t[j + 1];
      NoStartsBefore(t[1..], w, m - 1);
      assert t[1..][m - 1..] == t[m..];
    }
  }

  /** A position holding a character other than the first of `w` starts no occurrence. */
  lemma SkipNonStart(t: string, w: string)
    requires |t| > 0 && |w| > 0 && t[0] != w[0]
    ensures Positions(t, w) == Positions(t[1..], w)
  {
  }

  lemma OneMoreWord(m: nat, k: nat, n: nat)
    requires k <= n && m * k <= n - k
    ensures (1 + m) * k <= n
  {
  }

  /** Counting a one-character word is counting that character. */
  lemma {:induction false} CountWordChar(s: string, c: char)
    ensures CountWord(s, [c]) == multiset(s)[c]
    decreases |s|
  {
    if |s| > 0 {
      CountWordChar(s[1..], c);
      assert s == [s[0]] + s[1..];
      assert multiset(s) == multiset{s[0]} + multiset(s[1..]);
    }
  }

  /** How many characters of `s` belong to `cs`. */
  function CountIn(s: string, cs: set<char>): (n: nat)
    ensures n <= |s|
  {
    if |s| == 0 then 0 else (if s[0] in cs then 1 else 0) + CountIn(s[1..], cs)
  }

  /** Counting a two-character class is counting each character. */
  lemma {:induction false} CountInPair(s: string, a: char, b: char)
    requires a != b
    ensures CountIn(s, {a, b}) == multiset(s)[a] + multiset(s)[b]
  {
    if |s| > 0 {
      CountInPair(s[1..], a, b);
      assert s == [s[0]] + s[1..];
      assert multiset(s) == multiset{s[0]} + multiset(s[1..]);
    }
  }

  lemma {:induction false} CountInSingle(s: string, c: char)
    ensures CountIn(s, {c}) == multiset(s)[c]
  {
    if |s| > 0 {
      CountInSingle(s[1..], c);
      assert s == [s[0]] + s[1..];
      assert multiset(s) == multiset{s[0]} + multiset(s[1..]);
    }
  }

  /** `s` has no character of `cs`. */
  predicate Avoids(s: string, cs: set<char>) {
    forall j :: 0 <= j < |s| ==> s[j] !in cs
  }

  /**
   * `str.split(sep)` (and `re.split` on a character class): the pieces between separators, one
   * more than there are separators. The first piece is the text before the first separator, the
   * last one the text after the last separator.
   */
  function Fields(s: string, seps: set<char>): (fs: seq<string>)
    ensures FieldsShape(s, seps, fs)
  {
    if |s| == 0 then [""]
    else
      var rest := Fields(s[1..], seps);
      if s[0] in seps then
        FieldsAtSeparator(s, seps, rest);
        [""] + rest
      else
        FieldsExtend(s, seps, rest);
        [[s[0]] + rest[0]] + rest[1..]
  }

  /**
   * What the pieces `fs` of `s` satisfy: one more piece than separators, no piece holds a
   * separator, the first piece is a prefix of `s` ended by a separator or by the end of `s`, the
   * last is a suffix started by a separator or by the start of `s`, a single piece is the whole
   * text, and with several pieces the last one is shorter than the text.
   */
  predicate FieldsShape(s: string, seps: set<char>, fs: seq<string>) {
    |fs| == CountIn(s, seps) + 1 &&
    (forall k :: 0 <= k < |fs| ==> Avoids(fs[k], seps)) &&
    |fs[0]| <= |s| && fs[0] == s[..|fs[0]|] &&
    (|fs[0]| < |s| ==> s[|fs[0]|] in seps) &&
    |fs[|fs| - 1]| <= |s| && fs[|fs| - 1] == s[|s| - |fs[|fs| - 1]|..] &&
    (|fs[|fs| - 1]| < |s| ==> s[|s| - |fs[|fs| - 1]| - 1] in seps) &&
    (|fs| == 1 ==> fs[0] == s) &&
    (|fs| > 1 ==> |fs[|fs| - 1]| < |s|)
  }

  /** A leading separator opens an empty first piece. */
  lemma FieldsAtSeparator(s: string, seps: set<char>, rest: seq<string>)
    requires |s| > 0 && s[0] in seps
    requires FieldsShape(s[1..], seps, rest)
    ensures FieldsShape(s, seps, [""] + rest)
  {
    var fs := [""] + rest;
    assert forall k :: 1 <= k < |fs| ==> fs[k] == rest[k - 1];
    assert fs[|fs| - 1] == rest[|rest| - 1];
    assert s[1..][|s| - 1 - |rest[|rest| - 1]|..] == s[|s| - |rest[|rest| - 1]|..];
  }

  /** A leading ordinary character joins the first piece. */
  lemma FieldsExtend(s: string, seps: set<char>, rest: seq<string>)
    requires |s| > 0 && s[0] !in seps
    requires FieldsShape(s[1..], seps, rest)
    ensures FieldsShape(s, seps, [[s[0]] + rest[0]] + rest[1..])
  {
    var fs := [[s[0]] + rest[0]] + rest[1..];
    assert forall k :: 1 <= k < |fs| ==> fs[k] == rest[k];
    assert s == [s[0]] + s[1..];
    assert fs[0] == s[..|fs[0]|];
    if |rest| == 1 {
      assert fs[0] == s;
    }
  }

  /** `sep.join(fs)`. */
  function Join(fs: seq<string>, sep: char): string
    requires |fs| > 0
  {
    if |fs| == 1 then fs[0] else fs[0] + [sep] + Join(fs[1..], sep)
  }

  /** Splitting and joining again on one separator gives the text back. */
  lemma {:induction false} JoinFields(s: string, sep: char)
    ensures Join(Fields(s, {sep}), sep) == s
  {
    if |s| > 0 {
      JoinFields(s[1..], sep);
      var rest := Fields(s[1..], {sep});
      if s[0] == sep {
        assert Fields(s, {sep}) == [""] + rest;
        JoinSeparator(rest, sep);
      } else {
        assert Fields(s, {sep}) == [[s[0]] + rest[0]] + rest[1..];
        JoinGlue(s[0], rest, sep);
      }
      assert s == [s[0]] + s[1..];
    }
  }

  lemma JoinSeparator(rest: seq<string>, sep: char)
    requires |rest| > 0
    ensures Join([""] + rest, sep) == [sep] + Join(rest, sep)
  {
    assert ([""] + rest)[1..] == rest;
  }

  lemma JoinGlue(c: char, rest: seq<string>, sep: char)
    requires |rest| > 0
    ensures Join([[c] + rest[0]] + rest[1..], sep) == [c] + Join(rest, sep)
  {
    var fs := [[c] + rest[0]] + rest[1..];
    if |rest| > 1 {
      assert fs[1..] == rest[1..];
    }
  }

  /** Joining pieces free of the separator and splitting again gives the pieces back. */
  lemma {:induction false} FieldsJoin(fs: seq<string>, sep: char)
    requires |fs| > 0 && forall k :: 0 <= k < |fs| ==> Avoids(fs[k], {sep})
    ensures Fields(Join(fs, sep), {sep}) == fs
    decreases |fs|, |fs[0]|
  {
    var s := Join(fs, sep);
    if |fs[0]| > 0 {
      var c := fs[0][0];
      var tail := [fs[0][1..]] + fs[1..];
      assert tail[1..] == fs[1..];
      assert [c] + tail[0] == fs[0];
      assert fs == [[c] + tail[0]] + tail[1..];
      JoinGlue(c, tail, sep);
      assert s == [c] + Join(tail, sep);
      FieldsJoin(tail, sep);
      assert s[1..] == Join(tail, sep);
    } else if |fs| > 1 {
      assert fs == [""] + fs[1..];
      JoinSeparator(fs[1..], sep);
      FieldsJoin(fs[1..], sep);
      assert s[1..] == Join(fs[1..], sep);
    }
  }
}
