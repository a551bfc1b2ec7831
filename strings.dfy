/** The two Ruby string operations the morpher relies on: `String#include?`
    with a string argument, and `String#gsub` / `gsub!` with a string
    pattern and a literal replacement (left to right, non-overlapping). */
module Strings {

  /** `p` is a prefix of `s`. */
  predicate StartsWith(s: string, p: string)
  {
    |p| <= |s| && s[..|p|] == p
  }

  /** `sub` occurs in `s` starting at index `i`. */
  predicate OccursAt(s: string, sub: string, i: int)
  {
    0 <= i && i + |sub| <= |s| && s[i..i + |sub|] == sub
  }

  /** Ruby's `s.include?(sub)`, scanning from the left. The empty string
      occurs everywhere, and nothing longer than `s` occurs in it. */
  predicate Contains(s: string, sub: string): (r: bool)
    ensures sub == [] ==> r
    ensures r ==> |sub| <= |s|
    decreases |s|
  {
    StartsWith(s, sub) || (|s| > 0 && Contains(s[1..], sub))
  }

  /** Ruby's `s.gsub(pat, rep)` for a non-empty string pattern: the leftmost
      occurrence is replaced, scanning resumes after it, and `rep` is inserted
      literally. */
  function ReplaceAll(s: string, pat: string, rep: string): (r: string)
    requires pat != []
    decreases |s|
  {
    if StartsWith(s, pat) then rep + ReplaceAll(s[|pat|..], pat, rep)
    else if s == [] then []
    else [s[0]] + ReplaceAll(s[1..], pat, rep)
  }

  // ---------------------------------------------------------------------
  // Contains

  /** The scanning definition agrees with the positional one. */
  lemma {:induction false} ContainsIff(s: string, sub: string)
    ensures Contains(s, sub) <==> exists i :: OccursAt(s, sub, i)
    decreases |s|
  {
    if StartsWith(s, sub) {
      assert OccursAt(s, sub, 0);
    } else if |s| > 0 {
      ContainsIff(s[1..], sub);
      if Contains(s[1..], sub) {
        var i :| OccursAt(s[1..], sub, i);
        assert s[1..][i..i + |sub|] == s[i + 1..i + 1 + |sub|];
        assert OccursAt(s, sub, i + 1);
      }
      if exists i :: OccursAt(s, sub, i) {
        var i :| OccursAt(s, sub, i);
        assert s[0..|sub|] == s[..|sub|];
        assert i > 0;
        assert s[1..][i - 1..i - 1 + |sub|] == s[i..i + |sub|];
        assert OccursAt(s[1..], sub, i - 1);
      }
    }
  }

  /** Containment is transitive: what occurs in a part of `s` occurs in `s`. */
  lemma ContainsTrans(a: string, b: string, c: string)
    requires Contains(a, b) && Contains(b, c)
    ensures Contains(a, c)
  {
    ContainsIff(a, b);
    ContainsIff(b, c);
    var i :| OccursAt(a, b, i);
    var j :| OccursAt(b, c, j);
    forall k | 0 <= k < |c|
      ensures a[i + j..i + j + |c|][k] == c[k]
    {
      assert c[k] == b[j + k] == a[i + j + k];
    }
    assert OccursAt(a, c, i + j);
    ContainsIff(a, c);
  }

  /** If the first character of `sub` never occurs in `s`, neither does `sub`. */
  lemma {:induction false} NoHeadNotContains(s: string, sub: string)
    requires sub != [] && sub[0] !in s
    ensures !Contains(s, sub)
    decreases |s|
  {
    if |s| > 0 {
      assert s[0] != sub[0];
      NoHeadNotContains(s[1..], sub);
    }
  }

  /** No occurrence can start in `x` when `x` lacks the first character of
      `sub`, so `x + y` contains `sub` only if `y` does. */
  lemma {:induction false} ConcatNotContains(x: string, y: string, sub: string)
    requires sub != [] && sub[0] !in x && !Contains(y, sub)
    ensures !Contains(x + y, sub)
    decreases |x|
  {
    if x == [] {
      assert x + y == y;
    } else {
      var s := x + y;
      assert s[0] == x[0];
      assert !StartsWith(s, sub) by {
        if |sub| <= |s| { assert s[..|sub|][0] == s[0]; }
      }
      assert s[1..] == x[1..] + y;
      ConcatNotContains(x[1..], y, sub);
    }
  }

  /** A character followed by a piece that departs from `sub` at position
      `k` and lacks `sub`'s first character adds no occurrence in front of
      `y`. */
  lemma NotContainsMismatch(c: char, x: string, k: nat, y: string, sub: string)
    requires k < |x| && k + 1 < |sub| && x[k] != sub[k + 1] && sub[0] !in x
    requires !Contains(y, sub)
    ensures !Contains([c] + x + y, sub)
  {
    var s := [c] + x + y;
    assert !StartsWith(s, sub) by {
      if |sub| <= |s| { assert s[..|sub|][k + 1] == x[k]; }
    }
    assert s[1..] == x + y;
    ConcatNotContains(x, y, sub);
  }

  /** Two pieces without a two-character pattern, that do not form it
      where they meet, make a text without it. */
  lemma {:induction false} NotContainsPairConcat(a: string, b: string, p: string)
    requires |p| == 2 && !Contains(a, p) && !Contains(b, p)
    requires a != [] && b != [] ==> !(a[|a| - 1] == p[0] && b[0] == p[1])
    ensures !Contains(a + b, p)
    decreases |a|
  {
    if a == [] {
      assert a + b == b;
    } else {
      var s := a + b;
      assert !StartsWith(a, p);
      assert !StartsWith(s, p) by {
        if |p| <= |s| {
          if |a| >= 2 {
            assert s[..2] == a[..2];
          } else {
            assert s[0] == a[|a| - 1];
            if b != [] { assert s[1] == b[0]; }
          }
        }
      }
      assert s[1..] == a[1..] + b;
      NotContainsPairConcat(a[1..], b, p);
    }
  }

  /** A piece without the first two characters of `h`, not ending in `h`'s
      first character, adds no occurrence of `h` in front of `y`. */
  lemma {:induction false} NotContainsByPrefix(x: string, y: string, h: string)
    requires |h| >= 2 && !Contains(x, h[..2]) && !Contains(y, h)
    requires x != [] ==> x[|x| - 1] != h[0]
    ensures !Contains(x + y, h)
    decreases |x|
  {
    if x == [] {
      assert x + y == y;
    } else {
      var s := x + y;
      assert !StartsWith(x, h[..2]);
      assert !StartsWith(s, h) by {
        if |h| <= |s| {
          if |x| >= 2 {
            assert s[..|h|][..2] == x[..2];
          } else {
            assert s[..|h|][0] == x[|x| - 1];
          }
        }
      }
      assert s[1..] == x[1..] + y;
      NotContainsByPrefix(x[1..], y, h);
    }
  }

  /** Whatever `m` contains, any text with `m` inside it contains too. */
  lemma {:induction false} ContainsWithin(x: string, m: string, y: string, sub: string)
    requires Contains(m, sub)
    ensures Contains(x + m + y, sub)
  {
    ContainsIff(m, sub);
    var i :| OccursAt(m, sub, i);
    assert (x + m + y)[|x| + i..|x| + i + |sub|] == m[i..i + |sub|];
    assert OccursAt(x + m + y, sub, |x| + i);
    ContainsIff(x + m + y, sub);
  }

  // ---------------------------------------------------------------------
  // ReplaceAll

  /** A text with no occurrence of the pattern is left as it is. */
  lemma {:induction false} ReplaceAllNoMatch(s: string, pat: string, rep: string)
    requires pat != [] && !Contains(s, pat)
    ensures ReplaceAll(s, pat, rep) == s
    decreases |s|
  {
    if s != [] {
      ReplaceAllNoMatch(s[1..], pat, rep);
    }
  }

  /** A prefix that lacks the pattern's first character is copied unchanged. */
  lemma {:induction false} ReplaceAllKeepPrefix(x: string, y: string, pat: string, rep: string)
    requires pat != [] && pat[0] !in x
    ensures ReplaceAll(x + y, pat, rep) == x + ReplaceAll(y, pat, rep)
    decreases |x|
  {
    if x == [] {
      assert x + y == y;
    } else {
      var s := x + y;
      assert s[0] == x[0];
      assert !StartsWith(s, pat) by {
        if |pat| <= |s| { assert s[..|pat|][0] == s[0]; }
      }
      assert s[1..] == x[1..] + y;
      ReplaceAllKeepPrefix(x[1..], y, pat, rep);
      assert ReplaceAll(s, pat, rep) == [x[0]] + (x[1..] + ReplaceAll(y, pat, rep));
      assert x == [x[0]] + x[1..];
    }
  }

  /** A leading piece `x` holding no occurrence of the pattern, followed by
      a character the pattern does not contain, is copied unchanged: no
      occurrence can start inside `x`. */
  lemma {:induction false} ReplaceAllKeepGuarded(x: string, y: string, pat: string, rep: string)
    requires pat != [] && !Contains(x, pat) && y != [] && y[0] !in pat
    ensures ReplaceAll(x + y, pat, rep) == x + ReplaceAll(y, pat, rep)
    decreases |x|
  {
    if x == [] {
      assert x + y == y;
    } else {
      var s := x + y;
      assert !StartsWith(x, pat);
      assert !StartsWith(s, pat) by {
        if |pat| <= |s| {
          if |pat| <= |x| {
            assert s[..|pat|] == x[..|pat|];
          } else {
            assert s[..|pat|][|x|] == y[0];
          }
        }
      }
      assert s[1..] == x[1..] + y;
      ReplaceAllKeepGuarded(x[1..], y, pat, rep);
      assert ReplaceAll(s, pat, rep) == [x[0]] + (x[1..] + ReplaceAll(y, pat, rep));
      assert x == [x[0]] + x[1..];
    }
  }

  /** A leading piece `x` that is not the start of an occurrence, and whose
      tail lacks the pattern's first character, is copied unchanged. */
  lemma {:induction false} ReplaceAllSkipPiece(x: string, y: string, pat: string, rep: string)
    requires pat != [] && x != [] && pat[0] !in x[1..] && !StartsWith(x + y, pat)
    ensures ReplaceAll(x + y, pat, rep) == x + ReplaceAll(y, pat, rep)
  {
    var s := x + y;
    assert s != [] && s[0] == x[0];
    assert s[1..] == x[1..] + y;
    assert ReplaceAll(s, pat, rep) == [s[0]] + ReplaceAll(s[1..], pat, rep);
    ReplaceAllKeepPrefix(x[1..], y, pat, rep);
    assert x == [x[0]] + x[1..];
  }

  /** The leftmost occurrence: when the first occurrence of `pat` in
      `p + pat + q` starts right after `p`, everything before it is kept and
      scanning resumes after it. */
  lemma {:induction false} ReplaceAllFirst(p: string, q: string, pat: string, rep: string)
    requires pat != [] && !Contains(p + pat[..|pat| - 1], pat)
    ensures ReplaceAll(p + pat + q, pat, rep) == p + rep + ReplaceAll(q, pat, rep)
    decreases |p|
  {
    var s := p + pat + q;
    if p == [] {
      assert s == pat + q;
      assert s[..|pat|] == pat;
      assert s[|pat|..] == q;
    } else {
      var w := p + pat[..|pat| - 1];
      assert !StartsWith(s, pat) by {
        if |pat| <= |s| { assert w[..|pat|] == s[..|pat|]; }
      }
      assert s[1..] == p[1..] + pat + q;
      assert w[1..] == p[1..] + pat[..|pat| - 1];
      ReplaceAllFirst(p[1..], q, pat, rep);
      assert p == [p[0]] + p[1..];
    }
  }

  /** Identical markup is rewritten identically: both copies of `pat` in
      `p + pat + m + pat + q` become `rep` when neither `p` nor `m` hides an
      earlier occurrence. */
  lemma {:induction false} ReplaceAllTwice(p: string, m: string, q: string, pat: string, rep: string)
    requires pat != []
    requires !Contains(p + pat[..|pat| - 1], pat) && !Contains(m + pat[..|pat| - 1], pat)
    ensures ReplaceAll(p + pat + m + pat + q, pat, rep)
         == p + rep + m + rep + ReplaceAll(q, pat, rep)
  {
    var tail := m + pat + q;
    var rest := ReplaceAll(q, pat, rep);
    calc {
      ReplaceAll(p + pat + m + pat + q, pat, rep);
      { assert p + pat + m + pat + q == p + pat + tail; }
      ReplaceAll(p + pat + tail, pat, rep);
      { ReplaceAllFirst(p, tail, pat, rep); }
      p + rep + ReplaceAll(m + pat + q, pat, rep);
      { ReplaceAllFirst(m, q, pat, rep); }
      p + rep + (m + rep + rest);
      p + rep + m + rep + rest;
    }
  }

  /** A longer replacement never shortens the text, and lengthens it as
      soon as the pattern occurs. */
  lemma {:induction false} ReplaceAllGrows(s: string, pat: string, rep: string)
    requires pat != [] && |rep| > |pat|
    ensures |ReplaceAll(s, pat, rep)| >= |s|
    ensures Contains(s, pat) ==> |ReplaceAll(s, pat, rep)| > |s|
    decreases |s|
  {
    if StartsWith(s, pat) {
      ReplaceAllGrows(s[|pat|..], pat, rep);
    } else if s != [] {
      ReplaceAllGrows(s[1..], pat, rep);
    }
  }

  /** A shorter replacement never lengthens the text, and shortens it as
      soon as the pattern occurs. */
  lemma {:induction false} ReplaceAllShrinks(s: string, pat: string, rep: string)
    requires pat != [] && |rep| < |pat|
    ensures |ReplaceAll(s, pat, rep)| <= |s|
    ensures Contains(s, pat) ==> |ReplaceAll(s, pat, rep)| < |s|
    decreases |s|
  {
    if StartsWith(s, pat) {
      ReplaceAllShrinks(s[|pat|..], pat, rep);
    } else if s != [] {
      ReplaceAllShrinks(s[1..], pat, rep);
    }
  }

  /** With a same-length replacement, the text changes as soon as the
      pattern occurs and differs from the replacement. */
  lemma {:induction false} ReplaceAllSameLengthChanges(s: string, pat: string, rep: string)
    requires pat != [] && |rep| == |pat| && rep != pat && Contains(s, pat)
    ensures ReplaceAll(s, pat, rep) != s
    decreases |s|
  {
    var r := ReplaceAll(s, pat, rep);
    if StartsWith(s, pat) {
      assert r[..|rep|] == rep;
      assert s[..|pat|] == pat;
    } else {
      ReplaceAllSameLengthChanges(s[1..], pat, rep);
      assert r[1..] == ReplaceAll(s[1..], pat, rep);
    }
  }

  /** Replacing a pattern by itself changes nothing. */
  lemma {:induction false} ReplaceAllSelf(s: string, pat: string)
    requires pat != []
    ensures ReplaceAll(s, pat, pat) == s
    decreases |s|
  {
    if StartsWith(s, pat) {
      ReplaceAllSelf(s[|pat|..], pat);
      assert s == s[..|pat|] + s[|pat|..];
    } else if s != [] {
      ReplaceAllSelf(s[1..], pat);
      assert s == [s[0]] + s[1..];
    }
  }

  /** The text is left unchanged exactly when the pattern does not occur or
      the replacement is the pattern itself. */
  lemma ReplaceAllUnchangedIff(s: string, pat: string, rep: string)
    requires pat != []
    ensures ReplaceAll(s, pat, rep) == s <==> (!Contains(s, pat) || rep == pat)
  {
    if !Contains(s, pat) {
      ReplaceAllNoMatch(s, pat, rep);
    } else if rep == pat {
      ReplaceAllSelf(s, pat);
    } else if |rep| == |pat| {
      ReplaceAllSameLengthChanges(s, pat, rep);
    } else if |rep| > |pat| {
      ReplaceAllGrows(s, pat, rep);
    } else {
      ReplaceAllShrinks(s, pat, rep);
    }
  }
}
