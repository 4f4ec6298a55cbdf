/**
 * Replacement tables: a table applied as a sequence of `ReplaceAll`
 * passes, and the same table applied in one simultaneous left-to-right
 * scan. Under independence conditions on the rules the two agree, which
 * makes the order of the passes irrelevant.
 */
module Rewrite {
  import opened Text
  import opened Maybe

  /** One entry of a replacement table. */
  datatype Rule = Rule(pattern: string, replacement: string)

  /** The rules applied one after the other, each a full `ReplaceAll` pass. */
  function Apply(s: string, rules: seq<Rule>): string
    decreases |rules|
  {
    if |rules| == 0 then s
    else
      var last := rules[|rules| - 1];
      ReplaceAll(Apply(s, rules[..|rules| - 1]), last.pattern, last.replacement)
  }

  predicate NonEmptyPatterns(rules: seq<Rule>)
  {
    forall r :: r in rules ==> |r.pattern| > 0
  }

  /** The first rule, in list order, whose pattern begins `s`, if any. */
  function FirstMatch(s: string, rules: seq<Rule>): (m: Option<Rule>)
    ensures m.Some? ==> m.value in rules && StartsWith(s, m.value.pattern)
    ensures m.None? <==> forall r :: r in rules ==> !StartsWith(s, r.pattern)
  {
    if |rules| == 0 then None
    else if StartsWith(s, rules[0].pattern) then Some(rules[0])
    else FirstMatch(s, rules[1..])
  }

  /**
   * Simultaneous replacement: at each position the first matching rule
   * is replaced and its occurrence skipped, otherwise one character is
   * copied.
   */
  function Scan(s: string, rules: seq<Rule>): string
    requires NonEmptyPatterns(rules)
    decreases |s|
  {
    if |s| == 0 then []
    else
      match FirstMatch(s, rules)
      case Some(r) => r.replacement + Scan(s[|r.pattern|..], rules)
      case None => [s[0]] + Scan(s[1..], rules)
  }

  /**
   * Running `r` first cannot create or destroy an occurrence of `x`:
   * no occurrence of `x` can begin inside `r`'s replacement, and none of
   * `r`'s pattern or replacement can begin inside `x`'s pattern.
   */
  predicate Independent(r: Rule, x: Rule)
  {
    Inert(r.replacement, x.pattern) && Inert(x.pattern, r.pattern) && Inert(x.pattern, r.replacement)
  }

  /** No two patterns of the table can match at the same position. */
  predicate Disjoint(rules: seq<Rule>)
  {
    forall i, j :: 0 <= i < |rules| && 0 <= j < |rules| && i != j ==>
      !Overlaps(rules[i].pattern, rules[j].pattern)
  }

  predicate PairwiseIndependent(rules: seq<Rule>)
  {
    forall i, j :: 0 <= i < |rules| && 0 <= j < |rules| && i != j ==>
      Independent(rules[i], rules[j])
  }

  // ---------------------------------------------------------------
  // Sequential application
  // ---------------------------------------------------------------

  /** Applying `[r] + rules` is applying `r`, then `rules`. */
  lemma {:induction false} ApplyFirst(s: string, r: Rule, rules: seq<Rule>)
    ensures Apply(s, [r] + rules) == Apply(ReplaceAll(s, r.pattern, r.replacement), rules)
    decreases |rules|
  {
    var all := [r] + rules;
    if |rules| == 0 {
      assert all[..0] == [];
    } else {
      assert all[..|all| - 1] == [r] + rules[..|rules| - 1];
      ApplyFirst(s, r, rules[..|rules| - 1]);
    }
  }

  /** Applying `a + b` is applying `a`, then `b`. */
  lemma {:induction false} ApplyAppend(s: string, a: seq<Rule>, b: seq<Rule>)
    ensures Apply(s, a + b) == Apply(Apply(s, a), b)
    decreases |b|
  {
    if |b| == 0 {
      assert a + b == a;
    } else {
      assert (a + b)[..|a + b| - 1] == a + b[..|b| - 1];
      ApplyAppend(s, a, b[..|b| - 1]);
    }
  }

  /** A separator that occurs in no pattern splits the text for the whole table. */
  lemma {:induction false} ApplySeparated(x: string, c: char, y: string, rules: seq<Rule>)
    requires forall r :: r in rules ==> |r.pattern| > 0 && c !in r.pattern
    ensures Apply(x + [c] + y, rules) == Apply(x, rules) + [c] + Apply(y, rules)
    decreases |rules|
  {
    if |rules| > 0 {
      var last := rules[|rules| - 1];
      ApplySeparated(x, c, y, rules[..|rules| - 1]);
      ReplaceAllSeparated(Apply(x, rules[..|rules| - 1]), c, Apply(y, rules[..|rules| - 1]),
                          last.pattern, last.replacement);
    }
  }

  /** A leading part in which no pattern can begin is copied by every rule. */
  lemma {:induction false} ApplyInertPrefix(x: string, t: string, rules: seq<Rule>)
    requires forall r :: r in rules ==> |r.pattern| > 0 && Inert(x, r.pattern)
    ensures Apply(x + t, rules) == x + Apply(t, rules)
    decreases |rules|
  {
    if |rules| > 0 {
      var last := rules[|rules| - 1];
      ApplyInertPrefix(x, t, rules[..|rules| - 1]);
      ReplaceAllInertStart(x, Apply(t, rules[..|rules| - 1]), last.pattern, last.replacement);
    }
  }

  /**
   * A text that starts with the pattern of `rule`, where no earlier
   * pattern can begin inside that pattern and no later one inside its
   * replacement: the start is rewritten by `rule` and by nothing else.
   */
  lemma ApplyThrough(t: string, front: seq<Rule>, rule: Rule, back: seq<Rule>)
    requires |rule.pattern| > 0
    requires forall r :: r in front ==> |r.pattern| > 0 && Inert(rule.pattern, r.pattern)
    requires forall r :: r in back ==> |r.pattern| > 0 && Inert(rule.replacement, r.pattern)
    ensures Apply(rule.pattern + t, front + [rule] + back) == rule.replacement + Apply(t, front + [rule] + back)
  {
    var p, r := rule.pattern, rule.replacement;
    ApplyAppend(p + t, front + [rule], back);
    ApplyAppend(p + t, front, [rule]);
    ApplyAppend(t, front + [rule], back);
    ApplyAppend(t, front, [rule]);
    ApplyInertPrefix(p, t, front);
    ReplaceAllLeading(p, Apply(t, front), r);
    ApplyInertPrefix(r, Apply(Apply(t, front), [rule]), back);
  }

  /** Two adjacent independent rules can be exchanged. */
  lemma ApplySwapAdjacent(s: string, front: seq<Rule>, x: Rule, y: Rule, back: seq<Rule>)
    requires |x.pattern| > 0 && |y.pattern| > 0 && Independent(x, y) && Independent(y, x)
    ensures Apply(s, front + [x, y] + back) == Apply(s, front + [y, x] + back)
  {
    var t := Apply(s, front);
    ApplyOrderIrrelevant(t, [x, y], [y, x]);
    ApplyAppend(s, front + [x, y], back);
    ApplyAppend(s, front, [x, y]);
    ApplyAppend(s, front + [y, x], back);
    ApplyAppend(s, front, [y, x]);
  }

  /** A table none of whose patterns occurs leaves the text as it is. */
  lemma {:induction false} ApplyUnmatched(s: string, rules: seq<Rule>)
    requires forall r :: r in rules ==> |r.pattern| > 0 && !Contains(s, r.pattern)
    ensures Apply(s, rules) == s
    decreases |rules|
  {
    if |rules| > 0 {
      var last := rules[|rules| - 1];
      assert last in rules;
      ApplyUnmatched(s, rules[..|rules| - 1]);
      ReplaceAllUnmatched(s, last.pattern, last.replacement);
    }
  }

  // ---------------------------------------------------------------
  // Simultaneous scan
  // ---------------------------------------------------------------

  lemma DisjointTail(rules: seq<Rule>)
    requires |rules| > 0 && Disjoint(rules)
    ensures Disjoint(rules[1..])
  {
    forall i, j | 0 <= i < |rules| - 1 && 0 <= j < |rules| - 1 && i != j
      ensures !Overlaps(rules[1..][i].pattern, rules[1..][j].pattern)
    {
      assert rules[1..][i] == rules[i + 1] && rules[1..][j] == rules[j + 1];
    }
  }

  /** In a disjoint table the first rule matching after a pattern is that pattern's own rule. */
  lemma {:induction false} FirstMatchOfPattern(x: Rule, t: string, rules: seq<Rule>)
    requires x in rules && Disjoint(rules)
    ensures FirstMatch(x.pattern + t, rules) == Some(x)
    decreases |rules|
  {
    var w := x.pattern + t;
    assert StartsWith(w, x.pattern) by {
      assert w[..|x.pattern|] == x.pattern;
    }
    if rules[0] != x {
      var k :| 0 <= k < |rules| && rules[k] == x;
      assert k != 0;
      if StartsWith(w, rules[0].pattern) {
        CommonPrefixesOverlap(w, rules[0].pattern, x.pattern);
      }
      assert x in rules[1..] by {
        assert rules[1..][k - 1] == x;
      }
      DisjointTail(rules);
      FirstMatchOfPattern(x, t, rules[1..]);
    }
  }

  /** Distinct rules of a disjoint table never match at the same place. */
  lemma DisjointUnique(rules: seq<Rule>, x: Rule, y: Rule, w: string)
    requires Disjoint(rules) && x in rules && y in rules
    requires StartsWith(w, x.pattern) && StartsWith(w, y.pattern)
    ensures x == y
  {
    var i :| 0 <= i < |rules| && rules[i] == x;
    var j :| 0 <= j < |rules| && rules[j] == y;
    CommonPrefixesOverlap(w, x.pattern, y.pattern);
  }

  /** A leading part in which no pattern can begin is copied by the scan. */
  lemma {:induction false} ScanInertStart(a: string, t: string, rules: seq<Rule>)
    requires NonEmptyPatterns(rules)
    requires forall x :: x in rules ==> Inert(a, x.pattern)
    ensures Scan(a + t, rules) == a + Scan(t, rules)
    decreases |a|
  {
    if |a| == 0 {
      assert a + t == t;
    } else {
      var c, y := a[0], a[1..];
      SplitFirst(a, t, Scan(t, rules));
      InertRulesTail(a, t, rules);
      ScanInertStart(y, t, rules);
      ScanStep(c, y, t, rules);
    }
  }

  /** After an inert first character, the rest is inert too, and no pattern starts at that character. */
  lemma InertRulesTail(a: string, t: string, rules: seq<Rule>)
    requires |a| > 0 && forall x :: x in rules ==> Inert(a, x.pattern)
    ensures forall x :: x in rules ==> !StartsWith([a[0]] + (a[1..] + t), x.pattern) && Inert(a[1..], x.pattern)
  {
    assert [a[0]] + (a[1..] + t) == a + t;
    forall x | x in rules
      ensures !StartsWith(a + t, x.pattern) && Inert(a[1..], x.pattern)
    {
      InertNoStart(a, t, x.pattern);
      InertTail(a, x.pattern);
    }
  }

  /** The inductive step: a first character where no pattern starts is copied. */
  lemma ScanStep(c: char, y: string, t: string, rules: seq<Rule>)
    requires NonEmptyPatterns(rules)
    requires forall x :: x in rules ==> !StartsWith([c] + (y + t), x.pattern)
    requires Scan(y + t, rules) == y + Scan(t, rules)
    ensures Scan([c] + (y + t), rules) == [c] + (y + Scan(t, rules))
  {
    var s := [c] + (y + t);
    assert s[0] == c && s[1..] == y + t;
  }

  /** A matched pattern `x` that `p` cannot begin inside is copied by the pass for `p`. */
  lemma ReplaceAllAfterPattern(s: string, x: Rule, p: string, q: string)
    requires |p| > 0 && StartsWith(s, x.pattern) && Inert(x.pattern, p)
    ensures ReplaceAll(s, p, q) == x.pattern + ReplaceAll(s[|x.pattern|..], p, q)
  {
    assert s == x.pattern + s[|x.pattern|..] by {
      assert s[..|x.pattern|] == x.pattern;
    }
    ReplaceAllInertStart(x.pattern, s[|x.pattern|..], p, q);
  }

  /** Where no rule of the table matches, none matches after the pass for `r` either. */
  lemma NoMatchAfterReplace(s: string, r: Rule, rules: seq<Rule>)
    requires |r.pattern| > 0 && |s| > 0 && !StartsWith(s, r.pattern)
    requires forall x :: x in rules ==> Independent(r, x)
    requires FirstMatch(s, rules).None?
    ensures FirstMatch(ReplaceAll(s, r.pattern, r.replacement), rules).None?
    ensures ReplaceAll(s, r.pattern, r.replacement) == [s[0]] + ReplaceAll(s[1..], r.pattern, r.replacement)
  {
    var u := ReplaceAll(s, r.pattern, r.replacement);
    forall x | x in rules
      ensures !StartsWith(u, x.pattern)
    {
      if StartsWith(u, x.pattern) {
        CopiedPrefix(s, r.pattern, r.replacement, x.pattern);
      }
    }
  }

  /**
   * Replacing `r` first and then scanning the rest of the table is the
   * same as one scan over the whole table with `r` in front.
   */
  lemma {:induction false} ScanAfterReplace(s: string, r: Rule, rules: seq<Rule>)
    requires |r.pattern| > 0 && NonEmptyPatterns(rules) && Disjoint(rules)
    requires forall x :: x in rules ==> Independent(r, x)
    ensures Scan(ReplaceAll(s, r.pattern, r.replacement), rules) == Scan(s, [r] + rules)
    decreases |s|
  {
    var p, q := r.pattern, r.replacement;
    var all := [r] + rules;
    assert all[0] == r && all[1..] == rules;
    if |s| == 0 {
    } else if StartsWith(s, p) {
      var rest := s[|p|..];
      assert FirstMatch(s, all) == Some(r);
      ScanInertStart(q, ReplaceAll(rest, p, q), rules);
      ScanAfterReplace(rest, r, rules);
    } else {
      assert FirstMatch(s, all) == FirstMatch(s, rules);
      match FirstMatch(s, rules)
      case Some(x) =>
        var rest := s[|x.pattern|..];
        ReplaceAllAfterPattern(s, x, p, q);
        FirstMatchOfPattern(x, ReplaceAll(rest, p, q), rules);
        ScanAfterReplace(rest, r, rules);
      case None =>
        NoMatchAfterReplace(s, r, rules);
        var u := ReplaceAll(s, p, q);
        assert u[0] == s[0] && u[1..] == ReplaceAll(s[1..], p, q);
        ScanAfterReplace(s[1..], r, rules);
    }
  }

  lemma ScanNoRules(s: string)
    ensures Scan(s, []) == s
    decreases |s|
  {
    if |s| > 0 {
      ScanNoRules(s[1..]);
    }
  }

  lemma PairwiseIndependentTail(rules: seq<Rule>)
    requires |rules| > 0 && PairwiseIndependent(rules)
    ensures PairwiseIndependent(rules[1..])
  {
    forall i, j | 0 <= i < |rules| - 1 && 0 <= j < |rules| - 1 && i != j
      ensures Independent(rules[1..][i], rules[1..][j])
    {
      assert rules[1..][i] == rules[i + 1] && rules[1..][j] == rules[j + 1];
    }
  }

  lemma IndependentDisjoint(rules: seq<Rule>)
    requires NonEmptyPatterns(rules) && PairwiseIndependent(rules)
    ensures Disjoint(rules)
  {
    forall i, j | 0 <= i < |rules| && 0 <= j < |rules| && i != j
      ensures !Overlaps(rules[i].pattern, rules[j].pattern)
    {
      assert Independent(rules[j], rules[i]);
      assert rules[i] in rules;
      assert rules[i].pattern[0..] == rules[i].pattern;
    }
  }

  /** For pairwise independent rules, successive passes equal one simultaneous scan. */
  lemma {:induction false} ApplyIsScan(s: string, rules: seq<Rule>)
    requires NonEmptyPatterns(rules) && PairwiseIndependent(rules)
    ensures Apply(s, rules) == Scan(s, rules)
    decreases |rules|
  {
    if |rules| == 0 {
      ScanNoRules(s);
    } else {
      var r, rest := rules[0], rules[1..];
      assert rules == [r] + rest;
      assert r in rules;
      PairwiseIndependentTail(rules);
      IndependentDisjoint(rest);
      forall x | x in rest
        ensures Independent(r, x)
      {
        var j :| 0 <= j < |rest| && rest[j] == x;
        assert rules[j + 1] == x;
      }
      ApplyFirst(s, r, rest);
      ApplyIsScan(ReplaceAll(s, r.pattern, r.replacement), rest);
      ScanAfterReplace(s, r, rest);
    }
  }

  /** The scan of a disjoint table depends only on which rules it holds. */
  lemma {:induction false} ScanSameRules(s: string, rules1: seq<Rule>, rules2: seq<Rule>)
    requires NonEmptyPatterns(rules1) && Disjoint(rules1) && Disjoint(rules2)
    requires forall r :: r in rules1 <==> r in rules2
    ensures Scan(s, rules1) == Scan(s, rules2)
    decreases |s|
  {
    if |s| > 0 {
      match FirstMatch(s, rules1)
      case Some(x) =>
        var m2 := FirstMatch(s, rules2);
        assert m2.Some?;
        DisjointUnique(rules2, x, m2.value, s);
        ScanSameRules(s[|x.pattern|..], rules1, rules2);
      case None =>
        assert FirstMatch(s, rules2).None?;
        ScanSameRules(s[1..], rules1, rules2);
    }
  }

  /**
   * Two listings of the same pairwise independent rules give the same
   * result, pass after pass, whatever their order.
   */
  lemma ApplyOrderIrrelevant(s: string, rules1: seq<Rule>, rules2: seq<Rule>)
    requires NonEmptyPatterns(rules1) && PairwiseIndependent(rules1) && PairwiseIndependent(rules2)
    requires forall r :: r in rules1 <==> r in rules2
    ensures Apply(s, rules1) == Apply(s, rules2)
  {
    ApplyIsScan(s, rules1);
    ApplyIsScan(s, rules2);
    IndependentDisjoint(rules1);
    IndependentDisjoint(rules2);
    ScanSameRules(s, rules1, rules2);
  }

  /**
   * When no pattern agrees with its own replacement on their common
   * length, the scan changes every text in which some pattern occurs.
   */
  lemma {:induction false} ScanChanges(s: string, rules: seq<Rule>, r: Rule)
    requires NonEmptyPatterns(rules)
    requires forall x :: x in rules ==> !Overlaps(x.pattern, x.replacement)
    requires r in rules && Contains(s, r.pattern)
    ensures Scan(s, rules) != s
    decreases |s|
  {
    assert |s| > 0;
    match FirstMatch(s, rules)
    case Some(m) =>
      var out := m.replacement + Scan(s[|m.pattern|..], rules);
      assert out[..|m.replacement|] == m.replacement;
      if out == s {
        CommonPrefixesOverlap(s, m.pattern, m.replacement);
      }
    case None =>
      assert !StartsWith(s, r.pattern);
      ScanChanges(s[1..], rules, r);
      assert ([s[0]] + Scan(s[1..], rules))[1..] == Scan(s[1..], rules);
  }
}
