/**
 * Literal substring replacement with the semantics of Rust's `str::replace`,
 * the operation the redirect middleware applies once per configured rewrite
 * rule. Occurrences of the pattern are found left to right, never overlap,
 * and text that a replacement inserts is never searched again. An empty
 * pattern matches at every character boundary, both ends included.
 */
module StrReplace {

  /** `p` occurs in `s` starting at index `i`. */
  predicate OccursAt(s: string, p: string, i: nat)
  {
    i + |p| <= |s| && s[i..i + |p|] == p
  }

  /** `p` occurs somewhere in `s`. */
  predicate Occurs(s: string, p: string)
  {
    exists i: nat :: i <= |s| && OccursAt(s, p, i)
  }

  /** The empty-pattern case: `r` is inserted before every character and once at the end. */
  function ReplaceEmpty(s: string, r: string): string
  {
    if s == [] then r else r + [s[0]] + ReplaceEmpty(s[1..], r)
  }

  /** `s.replace(p, r)`: every leftmost, non-overlapping occurrence of `p` becomes `r`. */
  function ReplaceAll(s: string, p: string, r: string): string
    decreases |s|
  {
    if p == [] then ReplaceEmpty(s, r)
    else if |s| < |p| then s
    else if s[..|p|] == p then r + ReplaceAll(s[|p|..], p, r)
    else [s[0]] + ReplaceAll(s[1..], p, r)
  }

  /** How many occurrences of a non-empty `p` the left-to-right scan of `ReplaceAll` replaces. */
  function MatchCount(s: string, p: string): nat
    requires p != []
    decreases |s|
  {
    if |s| < |p| then 0
    else if s[..|p|] == p then 1 + MatchCount(s[|p|..], p)
    else MatchCount(s[1..], p)
  }

  /** An occurrence of `p` in `s[1..]` is an occurrence in `s`, one index later. */
  lemma OccursInTail(s: string, p: string)
    requires s != [] && Occurs(s[1..], p)
    ensures Occurs(s, p)
  {
    var i: nat :| i <= |s[1..]| && OccursAt(s[1..], p, i);
    assert s[i + 1..i + 1 + |p|] == s[1..][i..i + |p|];
    assert OccursAt(s, p, i + 1);
  }

  /** An occurrence of `p` in `s` that is not at index 0 is an occurrence in `s[1..]`. */
  lemma OccursNotAtHead(s: string, p: string)
    requires s != [] && Occurs(s, p) && !OccursAt(s, p, 0)
    ensures Occurs(s[1..], p)
  {
    var i: nat :| i <= |s| && OccursAt(s, p, i);
    assert i >= 1;
    assert s[1..][i - 1..i - 1 + |p|] == s[i..i + |p|];
    assert OccursAt(s[1..], p, i - 1);
  }

  /** Replacing a pattern by itself changes nothing, the empty pattern included. */
  lemma {:induction false} ReplaceSelf(s: string, p: string)
    ensures ReplaceAll(s, p, p) == s
    decreases |s|
  {
    if p == [] {
      ReplaceEmptyNothing(s);
    } else if |s| < |p| {
    } else if s[..|p|] == p {
      ReplaceSelf(s[|p|..], p);
      assert s == s[..|p|] + s[|p|..];
    } else {
      ReplaceSelf(s[1..], p);
      assert s == [s[0]] + s[1..];
    }
  }

  /** Inserting the empty string at every boundary changes nothing. */
  lemma {:induction false} ReplaceEmptyNothing(s: string)
    ensures ReplaceEmpty(s, []) == s
  {
    if s != [] {
      ReplaceEmptyNothing(s[1..]);
      assert s == [s[0]] + s[1..];
    }
  }

  /** The empty pattern inserts `r` at each of the `|s| + 1` character boundaries. */
  lemma {:induction false} ReplaceEmptyLength(s: string, r: string)
    ensures |ReplaceEmpty(s, r)| == |s| + (|s| + 1) * |r|
  {
    if s != [] {
      ReplaceEmptyLength(s[1..], r);
      assert (|s| + 1) * |r| == |s| * |r| + |r|;
      assert |s| * |r| == (|s| - 1) * |r| + |r|;
    }
  }

  /** A non-empty pattern that does not occur leaves the string as it is. */
  lemma {:induction false} ReplaceAbsent(s: string, p: string, r: string)
    requires p != [] && !Occurs(s, p)
    ensures ReplaceAll(s, p, r) == s
    decreases |s|
  {
    if |s| < |p| {
    } else {
      if s[..|p|] == p {
        assert OccursAt(s, p, 0);
        assert false;
      }
      if Occurs(s[1..], p) {
        OccursInTail(s, p);
      }
      ReplaceAbsent(s[1..], p, r);
      assert s == [s[0]] + s[1..];
    }
  }

  /** Each replaced occurrence changes the length by `|r| - |p|`. */
  lemma {:induction false} ReplaceLength(s: string, p: string, r: string)
    requires p != []
    ensures |ReplaceAll(s, p, r)| == |s| + MatchCount(s, p) * (|r| - |p|)
    decreases |s|
  {
    if |s| < |p| {
    } else if s[..|p|] == p {
      var rest := s[|p|..];
      ReplaceLength(rest, p, r);
      var k := MatchCount(rest, p);
      assert MatchCount(s, p) == k + 1;
      assert |ReplaceAll(s, p, r)| == |r| + |ReplaceAll(rest, p, r)|;
      OneMore(k, |r| - |p|);
    } else {
      ReplaceLength(s[1..], p, r);
      assert MatchCount(s, p) == MatchCount(s[1..], p);
    }
  }

  lemma OneMore(k: nat, d: int)
    ensures (k + 1) * d == k * d + d
  {
  }

  /** The scan replaces at least one occurrence exactly when the pattern occurs. */
  lemma {:induction false} MatchCountPositive(s: string, p: string)
    requires p != []
    ensures MatchCount(s, p) > 0 <==> Occurs(s, p)
    decreases |s|
  {
    if |s| < |p| {
    } else if s[..|p|] == p {
      assert OccursAt(s, p, 0);
    } else {
      MatchCountPositive(s[1..], p);
      if Occurs(s[1..], p) {
        OccursInTail(s, p);
      }
      if Occurs(s, p) {
        OccursNotAtHead(s, p);
      }
    }
  }

  /** A pattern that occurs and differs in length from its replacement changes the length. */
  lemma ReplaceChangesLength(s: string, p: string, r: string)
    requires p != [] && |p| != |r| && Occurs(s, p)
    ensures |ReplaceAll(s, p, r)| != |s|
  {
    ReplaceLength(s, p, r);
    MatchCountPositive(s, p);
    ScaledNonZero(MatchCount(s, p), |r| - |p|);
  }

  /** A positive multiple of a non-zero difference is non-zero. */
  lemma ScaledNonZero(k: nat, d: int)
    requires k > 0 && d != 0
    ensures k * d != 0
  {
  }

  /** A pattern that occurs and differs from its replacement leaves a visible change. */
  lemma {:induction false} ReplacePresent(s: string, p: string, r: string)
    requires p != [] && p != r && Occurs(s, p)
    ensures ReplaceAll(s, p, r) != s
    decreases |s|
  {
    if |r| != |p| {
      ReplaceChangesLength(s, p, r);
    } else if OccursAt(s, p, 0) {
      var out := ReplaceAll(s, p, r);
      assert out == r + ReplaceAll(s[|p|..], p, r);
      assert out[..|p|] == r;
    } else {
      OccursNotAtHead(s, p);
      assert s[..|p|] != p;
      ReplacePresent(s[1..], p, r);
      assert ReplaceAll(s, p, r) == [s[0]] + ReplaceAll(s[1..], p, r);
    }
  }

  /**
   * A replacement is a no-op exactly when the pattern equals its replacement,
   * or the pattern is non-empty and does not occur.
   */
  lemma ReplaceUnchanged(s: string, p: string, r: string)
    ensures ReplaceAll(s, p, r) == s <==> p == r || (p != [] && !Occurs(s, p))
  {
    if p == r {
      ReplaceSelf(s, p);
    } else if p == [] {
      ReplaceEmptyLength(s, r);
      assert (|s| + 1) * |r| >= |r| > 0;
    } else if Occurs(s, p) {
      ReplacePresent(s, p, r);
    } else {
      ReplaceAbsent(s, p, r);
    }
  }

  /**
   * With a one-character pattern and replacement, the result is the input
   * with every `a` turned into `b` and every other character kept in place.
   */
  lemma {:induction false} ReplaceChar(s: string, a: char, b: char)
    ensures |ReplaceAll(s, [a], [b])| == |s|
    ensures forall i :: 0 <= i < |s| ==>
              ReplaceAll(s, [a], [b])[i] == if s[i] == a then b else s[i]
  {
    if s != [] {
      ReplaceChar(s[1..], a, b);
      var out := ReplaceAll(s, [a], [b]);
      var tail := ReplaceAll(s[1..], [a], [b]);
      assert out == [if s[0] == a then b else s[0]] + tail;
    }
  }

  /** A prefix holding no first character of `p` is copied as it is; the scan resumes after it. */
  lemma {:induction false} ReplaceAfterPrefix(x: string, y: string, p: string, r: string)
    requires p != [] && forall i :: 0 <= i < |x| ==> x[i] != p[0]
    ensures ReplaceAll(x + y, p, r) == x + ReplaceAll(y, p, r)
  {
    if x != [] {
      var s := x + y;
      assert s[0] == x[0] && s[1..] == x[1..] + y;
      ReplaceAfterPrefix(x[1..], y, p, r);
      if |s| < |p| {
        assert ReplaceAll(y, p, r) == y;
      } else {
        assert s[..|p|][0] != p[0];
        assert ReplaceAll(s, p, r) == [x[0]] + ReplaceAll(x[1..] + y, p, r);
        assert x == [x[0]] + x[1..];
      }
    } else {
      assert x + y == y;
    }
  }

  /** Rust's `"ab".replace("", "x")` is `"xaxbx"`. */
  lemma EmptyPatternExample()
    ensures ReplaceAll("ab", "", "x") == "xaxbx"
  {
  }

  /** Matches do not overlap and inserted text is not searched again. */
  lemma NoRescanExample()
    ensures ReplaceAll("aaa", "aa", "b") == "ba"
    ensures ReplaceAll("ab", "a", "aa") == "aab"
  {
  }
}
