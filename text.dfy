/**
 * The Go `strings` operations the converter relies on, over `string`
 * (`seq<char>`): prefix and suffix tests, `Contains`, and `ReplaceAll`,
 * with the facts about them that the conversion proofs need.
 */
module Text {

  /** `p` is a prefix of `s` (Go's `strings.HasPrefix`). */
  predicate StartsWith(s: string, p: string)
  {
    |p| <= |s| && s[..|p|] == p
  }

  /** `p` is a suffix of `s` (Go's `strings.HasSuffix`). */
  predicate EndsWith(s: string, p: string)
  {
    |p| <= |s| && s[|s| - |p|..] == p
  }

  /** `p` occurs somewhere in `s` (Go's `strings.Contains`). */
  predicate Contains(s: string, p: string)
    decreases |s|
  {
    StartsWith(s, p) || (|s| > 0 && Contains(s[1..], p))
  }

  /**
   * Go's `strings.ReplaceAll(s, pattern, replacement)`: occurrences of a
   * non-empty pattern are found left to right and do not overlap; the
   * text after a replaced occurrence is never rescanned together with
   * the replacement. An empty pattern matches before every character
   * and at the end.
   */
  function ReplaceAll(s: string, pattern: string, replacement: string): string
    decreases |s|
  {
    if |pattern| == 0 then InsertAround(s, replacement)
    else if |s| == 0 then []
    else if StartsWith(s, pattern) then replacement + ReplaceAll(s[|pattern|..], pattern, replacement)
    else [s[0]] + ReplaceAll(s[1..], pattern, replacement)
  }

  /** `r` before every character of `s` and once more at the end. */
  function InsertAround(s: string, r: string): (res: string)
    ensures |res| == |s| + (|s| + 1) * |r|
    ensures StartsWith(res, r) && EndsWith(res, r)
  {
    if |s| == 0 then r
    else
      var tail := InsertAround(s[1..], r);
      assert (r + [s[0]] + tail)[|r + [s[0]] + tail| - |r|..] == tail[|tail| - |r|..];
      r + [s[0]] + tail
  }

  /** One of `a` and `b` is a prefix of the other. */
  predicate Overlaps(a: string, b: string)
  {
    |a| == 0 || |b| == 0 || (a[0] == b[0] && Overlaps(a[1..], b[1..]))
  }

  /**
   * No occurrence of `p` can begin inside `a`, whatever text follows
   * `a`: no suffix of `a` agrees with `p` on their common length.
   */
  predicate Inert(a: string, p: string)
  {
    forall i {:trigger Overlaps(a[i..], p)} :: 0 <= i < |a| ==> !Overlaps(a[i..], p)
  }

  // ---------------------------------------------------------------
  // Prefixes and overlaps
  // ---------------------------------------------------------------

  lemma {:induction false} OverlapsSymmetric(a: string, b: string)
    requires Overlaps(a, b)
    ensures Overlaps(b, a)
    decreases |a|
  {
    if |a| > 0 && |b| > 0 {
      OverlapsSymmetric(a[1..], b[1..]);
    }
  }

  /** Two prefixes of the same text overlap. */
  lemma {:induction false} CommonPrefixesOverlap(w: string, a: string, b: string)
    requires StartsWith(w, a) && StartsWith(w, b)
    ensures Overlaps(a, b)
    decreases |w|
  {
    if |a| > 0 && |b| > 0 {
      assert a[0] == w[0] == b[0];
      assert w[1..][..|a| - 1] == a[1..];
      assert w[1..][..|b| - 1] == b[1..];
      CommonPrefixesOverlap(w[1..], a[1..], b[1..]);
    }
  }

  /** A text that starts with `p` overlaps `p`, and so does any prefix of that text. */
  lemma {:induction false} StartOverlaps(x: string, t: string, p: string)
    requires StartsWith(x + t, p)
    ensures Overlaps(x, p)
    decreases |x|
  {
    if |x| > 0 && |p| > 0 {
      var s := x + t;
      assert s[0] == x[0] && s[0] == s[..|p|][0];
      assert s[1..] == x[1..] + t;
      assert s[1..][..|p| - 1] == s[..|p|][1..];
      StartOverlaps(x[1..], t, p[1..]);
    }
  }

  /** If `b` overlaps `p`, it overlaps every prefix `q` of `p`. */
  lemma {:induction false} OverlapsShorter(b: string, p: string, q: string)
    requires Overlaps(b, p) && StartsWith(p, q)
    ensures Overlaps(b, q)
    decreases |b|
  {
    if |b| > 0 && |q| > 0 {
      assert p[0] == p[..|q|][0];
      assert p[1..][..|q| - 1] == p[..|q|][1..];
      OverlapsShorter(b[1..], p[1..], q[1..]);
    }
  }

  /** Overlapping with `p` only depends on the first `|p|` characters. */
  lemma {:induction false} OverlapsTruncate(x: string, y: string, p: string)
    requires Overlaps(x + y, p)
    ensures Overlaps(x, p)
    decreases |x|
  {
    if |x| > 0 && |p| > 0 {
      assert (x + y)[1..] == x[1..] + y;
      OverlapsTruncate(x[1..], y, p[1..]);
    }
  }

  /** A shared first part does not change whether two texts overlap. */
  lemma {:induction false} OverlapsAfterCommon(c: string, a: string, b: string)
    requires Overlaps(c + a, c + b)
    ensures Overlaps(a, b)
    decreases |c|
  {
    if |c| > 0 {
      assert (c + a)[1..] == c[1..] + a;
      assert (c + b)[1..] == c[1..] + b;
      OverlapsAfterCommon(c[1..], a, b);
    } else {
      assert c + a == a && c + b == b;
    }
  }

  // ---------------------------------------------------------------
  // Building Inert facts from pieces
  // ---------------------------------------------------------------

  lemma InertTail(a: string, p: string)
    requires |a| > 0 && Inert(a, p)
    ensures Inert(a[1..], p)
  {
    forall i | 0 <= i < |a| - 1
      ensures !Overlaps(a[1..][i..], p)
    {
      assert a[1..][i..] == a[i + 1..];
    }
  }

  /** No position of `a` holds the first character of `p`. */
  lemma InertNoHead(a: string, p: string)
    requires |p| > 0 && p[0] !in a
    ensures Inert(a, p)
  {
    forall i | 0 <= i < |a|
      ensures !Overlaps(a[i..], p)
    {
      assert a[i..][0] == a[i];
    }
  }

  /**
   * `a` is `c`, then a run `x` without the first character of `p`, then
   * `y` in which no occurrence can begin; `a` itself must not overlap `p`.
   */
  lemma InertJoin(a: string, c: char, x: string, y: string, p: string)
    requires a == [c] + x + y
    requires |p| > 0 && p[0] !in x && !Overlaps(a, p) && Inert(y, p)
    ensures Inert(a, p)
  {
    forall i | 0 <= i < |a|
      ensures !Overlaps(a[i..], p)
    {
      if 0 < i <= |x| {
        assert a[i..][0] == x[i - 1];
      } else if i > |x| {
        assert a[i..] == y[i - 1 - |x|..];
      }
    }
  }

  lemma InertConcat(x: string, y: string, p: string)
    requires Inert(x, p) && Inert(y, p)
    ensures Inert(x + y, p)
  {
    forall i | 0 <= i < |x + y|
      ensures !Overlaps((x + y)[i..], p)
    {
      if i < |x| {
        assert (x + y)[i..] == x[i..] + y;
        if Overlaps(x[i..] + y, p) {
          OverlapsTruncate(x[i..], y, p);
        }
      } else {
        assert (x + y)[i..] == y[i - |x|..];
      }
    }
  }

  /** Being inert toward a prefix `q` of `p` is enough. */
  lemma InertLonger(a: string, q: string, p: string)
    requires Inert(a, q) && StartsWith(p, q)
    ensures Inert(a, p)
  {
    forall i | 0 <= i < |a|
      ensures !Overlaps(a[i..], p)
    {
      if Overlaps(a[i..], p) {
        OverlapsShorter(a[i..], p, q);
      }
    }
  }

  /**
   * Two texts that share a first part `[h] + rest`, in which `h` does
   * not recur, and then go on with non-overlapping words.
   */
  lemma InertSharedStart(h: char, rest: string, w1: string, w2: string)
    requires h !in rest && !Overlaps(w1, w2)
    requires Inert(w1, [h] + rest)
    ensures Inert([h] + rest + w1, [h] + rest + w2)
  {
    var c := [h] + rest;
    var a := c + w1;
    var p := c + w2;
    assert a == [h] + rest + w1 && p == [h] + rest + w2;
    forall i | 0 <= i < |a|
      ensures !Overlaps(a[i..], p)
    {
      if i == 0 {
        if Overlaps(a, p) {
          OverlapsAfterCommon(c, w1, w2);
        }
      } else if i < |c| {
        assert a[i..][0] == rest[i - 1];
      } else {
        assert StartsWith(p, c);
        InertLonger(w1, c, p);
        assert a[i..] == w1[i - |c|..];
      }
    }
  }

  // ---------------------------------------------------------------
  // Contains
  // ---------------------------------------------------------------

  lemma {:induction false} StartsWithContains(t: string, p: string, q: string)
    requires StartsWith(t, p) && Contains(p, q)
    ensures Contains(t, q)
    decreases |p|
  {
    if StartsWith(p, q) {
      assert t[..|q|] == p[..|q|];
    } else {
      assert t[1..][..|p| - 1] == p[1..];
      StartsWithContains(t[1..], p[1..], q);
    }
  }

  /** An occurrence of `p`, which itself contains `q`, is an occurrence of `q`. */
  lemma {:induction false} ContainsTransitive(t: string, p: string, q: string)
    requires Contains(t, p) && Contains(p, q)
    ensures Contains(t, q)
    decreases |t|
  {
    if StartsWith(t, p) {
      StartsWithContains(t, p, q);
    } else {
      ContainsTransitive(t[1..], p, q);
    }
  }

  /** An occurrence inside `x + y` that cannot begin in `x` lies in `y`. */
  lemma {:induction false} NotContainsAfterInert(x: string, y: string, p: string)
    requires Inert(x, p) && !Contains(y, p)
    ensures !Contains(x + y, p)
    decreases |x|
  {
    if |x| == 0 {
      assert x + y == y;
    } else {
      assert x[0..] == x;
      if StartsWith(x + y, p) {
        StartOverlaps(x, y, p);
      }
      assert (x + y)[1..] == x[1..] + y;
      InertTail(x, p);
      NotContainsAfterInert(x[1..], y, p);
    }
  }

  // ---------------------------------------------------------------
  // ReplaceAll
  // ---------------------------------------------------------------

  /** Text without an occurrence of the pattern comes back unchanged. */
  lemma {:induction false} ReplaceAllUnmatched(s: string, p: string, r: string)
    requires |p| > 0 && !Contains(s, p)
    ensures ReplaceAll(s, p, r) == s
    decreases |s|
  {
    if |s| > 0 {
      ReplaceAllUnmatched(s[1..], p, r);
    }
  }

  /** An occurrence at the very start is replaced, and the scan resumes right after it. */
  lemma ReplaceAllLeading(p: string, t: string, r: string)
    requires |p| > 0
    ensures ReplaceAll(p + t, p, r) == r + ReplaceAll(t, p, r)
  {
    assert (p + t)[..|p|] == p;
    assert (p + t)[|p|..] == t;
  }

  /**
   * A character that does not occur in the pattern separates the text:
   * no occurrence can span it, so both sides are rewritten on their own.
   */
  lemma {:induction false} ReplaceAllSeparated(x: string, c: char, y: string, p: string, r: string)
    requires |p| > 0 && c !in p
    ensures ReplaceAll(x + [c] + y, p, r) == ReplaceAll(x, p, r) + [c] + ReplaceAll(y, p, r)
    decreases |x|
  {
    var s := x + [c] + y;
    if |x| == 0 {
      assert s == [c] + y;
      assert s[1..] == y;
      NoStartAcross(x, c, y, p);
      ReplaceAllSkip(s, p, r);
    } else if StartsWith(x, p) {
      assert x[..|p|] == s[..|p|];
      assert s[|p|..] == x[|p|..] + [c] + y;
      ReplaceAllSeparated(x[|p|..], c, y, p, r);
      ReplaceAllMatch(x, p, r);
      ReplaceAllMatch(s, p, r);
    } else {
      NoStartAcross(x, c, y, p);
      assert s[1..] == x[1..] + [c] + y;
      ReplaceAllSeparated(x[1..], c, y, p, r);
      ReplaceAllSkip(x, p, r);
      ReplaceAllSkip(s, p, r);
    }
  }

  /** One step of the scan at an occurrence. */
  lemma ReplaceAllMatch(s: string, p: string, r: string)
    requires |p| > 0 && StartsWith(s, p)
    ensures ReplaceAll(s, p, r) == r + ReplaceAll(s[|p|..], p, r)
  {
  }

  /** One step of the scan past a character where no occurrence starts. */
  lemma ReplaceAllSkip(s: string, p: string, r: string)
    requires |p| > 0 && |s| > 0 && !StartsWith(s, p)
    ensures ReplaceAll(s, p, r) == [s[0]] + ReplaceAll(s[1..], p, r)
  {
  }

  /** An occurrence of a pattern without `c` that does not start `x` cannot start `x + [c] + y`. */
  lemma NoStartAcross(x: string, c: char, y: string, p: string)
    requires c !in p && !StartsWith(x, p)
    ensures !StartsWith(x + [c] + y, p)
  {
    var s := x + [c] + y;
    assert |x| < |s| && s[|x|] == c;
    assert |p| <= |x| ==> s[..|p|] == x[..|p|];
  }

  /** A leading part in which no occurrence can begin is copied as it is. */
  lemma {:induction false} ReplaceAllInertStart(x: string, t: string, p: string, r: string)
    requires |p| > 0 && Inert(x, p)
    ensures ReplaceAll(x + t, p, r) == x + ReplaceAll(t, p, r)
    decreases |x|
  {
    if |x| == 0 {
      assert x + t == t;
    } else {
      InertTail(x, p);
      var c, y := x[0], x[1..];
      SplitFirst(x, t, ReplaceAll(t, p, r));
      ReplaceAllInertStart(y, t, p, r);
      InertNoStart(x, t, p);
      InertStep(c, y, t, p, r);
    }
  }

  /** Splitting off the first character of the front part of two concatenations. */
  lemma SplitFirst(x: string, t: string, u: string)
    requires |x| > 0
    ensures x + t == [x[0]] + (x[1..] + t) && x + u == [x[0]] + (x[1..] + u)
  {
    assert x == [x[0]] + x[1..];
  }

  /** The inductive step: a first character where no occurrence starts is copied. */
  lemma InertStep(c: char, y: string, t: string, p: string, r: string)
    requires |p| > 0 && !StartsWith([c] + (y + t), p)
    requires ReplaceAll(y + t, p, r) == y + ReplaceAll(t, p, r)
    ensures ReplaceAll([c] + (y + t), p, r) == [c] + (y + ReplaceAll(t, p, r))
  {
    var s := [c] + (y + t);
    assert s[0] == c && s[1..] == y + t;
  }

  /** No occurrence starts at the front of a text whose first part is inert. */
  lemma InertNoStart(x: string, t: string, p: string)
    requires |x| > 0 && Inert(x, p)
    ensures !StartsWith(x + t, p)
  {
    assert x[0..] == x;
    if StartsWith(x + t, p) {
      StartOverlaps(x, t, p);
    }
  }

  /**
   * A prefix `q` of the result that cannot overlap the replacement is a
   * prefix of the input: it was copied, not produced by a replacement.
   */
  lemma {:induction false} CopiedPrefix(s: string, p: string, r: string, q: string)
    requires |p| > 0 && Inert(q, r) && StartsWith(ReplaceAll(s, p, r), q)
    ensures StartsWith(s, q)
    decreases |s|
  {
    if |q| > 0 {
      if |s| == 0 {
      } else if StartsWith(s, p) {
        assert q[0..] == q;
        StartOverlaps(r, ReplaceAll(s[|p|..], p, r), q);
        OverlapsSymmetric(r, q);
      } else {
        var tail := ReplaceAll(s[1..], p, r);
        assert ([s[0]] + tail)[..|q|] == q;
        assert tail[..|q| - 1] == q[1..];
        InertTail(q, r);
        CopiedPrefix(s[1..], p, r, q[1..]);
        assert s[..|q|] == [s[0]] + s[1..][..|q| - 1];
      }
    }
  }

  /**
   * When no occurrence of the pattern can start inside the replacement,
   * nor begin before it and run into it, no occurrence is left.
   */
  lemma {:induction false} ReplaceAllRemoves(s: string, p: string, r: string)
    requires |p| > 0 && Inert(r, p) && Inert(p, r)
    ensures !Contains(ReplaceAll(s, p, r), p)
    decreases |s|
  {
    if |s| == 0 {
    } else if StartsWith(s, p) {
      ReplaceAllRemoves(s[|p|..], p, r);
      NotContainsAfterInert(r, ReplaceAll(s[|p|..], p, r), p);
    } else {
      var res := ReplaceAll(s, p, r);
      ReplaceAllRemoves(s[1..], p, r);
      if StartsWith(res, p) {
        CopiedPrefix(s, p, r, p);
      }
      assert res[1..] == ReplaceAll(s[1..], p, r);
    }
  }

  /** Texts that disagree somewhere in their common length still do after anything is appended. */
  lemma NoOverlapExtended(a: string, b: string, x: string, y: string)
    requires !Overlaps(a, b)
    ensures !Overlaps(a + x, b + y)
  {
    if Overlaps(a + x, b + y) {
      OverlapsTruncate(a, x, b + y);
      OverlapsSymmetric(a, b + y);
      OverlapsTruncate(b, y, a);
      OverlapsSymmetric(b, a);
    }
  }
}
