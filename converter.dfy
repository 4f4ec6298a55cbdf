/**
 * The rewrite engine of pkg/converter/converter.go: a fixed nine-rule
 * table, its keys collected in map order and exchange-sorted longest
 * first, each rule applied as a replace-all over the whole text, the
 * file written back only if the text changed, and the directory pass
 * that does this for every regular `.sh` file and stops at the first
 * error.
 */
module Converter {
  import opened Text
  import opened Rewrite
  import opened Commands
  import opened Files
  import opened Maybe

  /** The table of Ubuntu commands and their Fedora equivalents. */
  const Replacements: map<string, string> := map[
    "sudo apt update" := "sudo dnf update",
    "sudo apt upgrade" := "sudo dnf upgrade",
    "sudo apt install" := "sudo dnf install",
    "add-apt-repository" := "sudo dnf config-manager --add-repo",
    "sudo apt autoremove" := "sudo dnf autoremove",
    "sudo apt-get" := "sudo dnf",
    "apt-get" := "dnf",
    "sudo apt" := "sudo dnf",
    "apt" := "dnf"
  ]

  /** The table's rules for `keys`, in that order. */
  function RulesOf(keys: seq<string>): seq<Rule>
    requires forall k :: k in keys ==> k in Replacements
  {
    seq(|keys|, i requires 0 <= i < |keys| => Rule(keys[i], Replacements[keys[i]]))
  }

  /** Non-increasing length. All keys are ASCII, so Go's byte length is the character count. */
  predicate LongestFirst(keys: seq<string>)
  {
    forall i, j :: 0 <= i < j < |keys| ==> |keys[i]| >= |keys[j]|
  }

  /** The keys longest first, the two of sixteen characters in table order. */
  const SortedKeys: seq<string> := [
    "sudo apt autoremove", "add-apt-repository", "sudo apt upgrade", "sudo apt install",
    "sudo apt update", "sudo apt-get", "sudo apt", "apt-get", "apt"]

  /** The same with the two keys of sixteen characters the other way round. */
  const SortedKeysSwapped: seq<string> := [
    "sudo apt autoremove", "add-apt-repository", "sudo apt install", "sudo apt upgrade",
    "sudo apt update", "sudo apt-get", "sudo apt", "apt-get", "apt"]

  /** The table's rules in the order of `SortedKeys`. */
  const SortedRules: seq<Rule> := [
    Rule("sudo apt autoremove", "sudo dnf autoremove"),
    Rule("add-apt-repository", "sudo dnf config-manager --add-repo"),
    Rule("sudo apt upgrade", "sudo dnf upgrade"),
    Rule("sudo apt install", "sudo dnf install"),
    Rule("sudo apt update", "sudo dnf update"),
    Rule("sudo apt-get", "sudo dnf"),
    Rule("sudo apt", "sudo dnf"),
    Rule("apt-get", "dnf"),
    Rule("apt", "dnf")]

  /** What one pass of the converter does to the text of a file. */
  function Convert(s: string): string
  {
    Apply(s, SortedRules)
  }

  // ---------------------------------------------------------------
  // replaceCommandsInFile, step by step
  // ---------------------------------------------------------------

  /** The loop that appends every key of the table, in the map's iteration order. */
  method CollectKeys(table: map<string, string>) returns (keys: seq<string>)
    ensures multiset(keys) == multiset(table.Keys)
  {
    keys := [];
    var remaining := table.Keys;
    while remaining != {}
      invariant remaining <= table.Keys
      invariant multiset(keys) + multiset(remaining) == multiset(table.Keys)
      decreases |remaining|
    {
      var k :| k in remaining;
      assert multiset(remaining) == multiset(remaining - {k}) + multiset{k};
      keys := keys + [k];
      remaining := remaining - {k};
    }
  }

  /** The exchange sort: for each position, swap in any longer key found after it. */
  method SortByLength(keys: array<string>)
    modifies keys
    ensures LongestFirst(keys[..])
    ensures multiset(keys[..]) == multiset(old(keys[..]))
  {
    var i := 0;
    while i < keys.Length - 1
      invariant 0 <= i <= keys.Length
      invariant multiset(keys[..]) == multiset(old(keys[..]))
      invariant SettledBefore(keys[..], i)
    {
      var j := i + 1;
      while j < keys.Length
        invariant i + 1 <= j <= keys.Length
        invariant multiset(keys[..]) == multiset(old(keys[..]))
        invariant SettledBefore(keys[..], i) && LongestUpTo(keys[..], i, j)
      {
        ghost var before := keys[..];
        if |keys[i]| < |keys[j]| {
          keys[i], keys[j] := keys[j], keys[i];
          assert keys[..] == before[i := before[j]][j := before[i]];
          ExchangeStep(before, i, j);
        } else {
          KeepStep(before, i, j);
        }
        j := j + 1;
      }
      SettleNext(keys[..], i);
      i := i + 1;
    }
    SettledSorted(keys[..], i);
  }

  /** The positions before `i` hold their final keys: each is at least as long as every key after it. */
  predicate SettledBefore(s: seq<string>, i: int)
  {
    forall a, b :: 0 <= a < i && a < b < |s| ==> |s[a]| >= |s[b]|
  }

  /** The key at `i` is at least as long as those up to position `j`. */
  predicate LongestUpTo(s: seq<string>, i: int, j: int)
    requires 0 <= i < |s|
  {
    forall b :: i < b < j && b < |s| ==> |s[i]| >= |s[b]|
  }

  /** Exchanging in a longer key at `j` keeps what the inner loop maintains, and the same keys. */
  lemma ExchangeStep(s: seq<string>, i: nat, j: nat)
    requires i < j < |s| && SettledBefore(s, i) && LongestUpTo(s, i, j) && |s[i]| < |s[j]|
    ensures var t := s[i := s[j]][j := s[i]];
      SettledBefore(t, i) && LongestUpTo(t, i, j + 1) && multiset(t) == multiset(s)
  {
    var t := s[i := s[j]][j := s[i]];
    forall a, b | 0 <= a < i && a < b < |t|
      ensures |t[a]| >= |t[b]|
    {
      assert t[a] == s[a];
    }
  }

  lemma KeepStep(s: seq<string>, i: nat, j: nat)
    requires i < j < |s| && LongestUpTo(s, i, j) && |s[i]| >= |s[j]|
    ensures LongestUpTo(s, i, j + 1)
  {
  }

  lemma SettleNext(s: seq<string>, i: nat)
    requires i < |s| && SettledBefore(s, i) && LongestUpTo(s, i, |s|)
    ensures SettledBefore(s, i + 1)
  {
  }

  lemma SettledSorted(s: seq<string>, i: nat)
    requires i >= |s| - 1 && SettledBefore(s, i)
    ensures LongestFirst(s)
  {
  }

  /** The loop that applies the rules in the order of `keys`. */
  method ApplyInOrder(original: string, keys: array<string>) returns (modified: string)
    requires forall i :: 0 <= i < keys.Length ==> keys[i] in Replacements
    ensures modified == Apply(original, RulesOf(keys[..]))
  {
    modified := original;
    for i := 0 to keys.Length
      invariant modified == Apply(original, RulesOf(keys[..i]))
    {
      assert RulesOf(keys[..i + 1])[..i] == RulesOf(keys[..i]);
      modified := ReplaceAll(modified, keys[i], Replacements[keys[i]]);
    }
    assert keys[..keys.Length] == keys[..];
  }

  /** One file: read, convert, and write back only if the text changed. */
  method ReplaceCommandsInFile(file: Entry) returns (outcome: Outcome)
    ensures outcome == ProcessFile(file, Convert)
  {
    if !file.readable {
      return Failed(ReadFailed(file.path));
    }
    var original := file.content;
    var collected := CollectKeys(Replacements);
    var keys := new string[|collected|](i requires 0 <= i < |collected| => collected[i]);
    assert keys[..] == collected;
    SortByLength(keys);
    LongestFirstConverts(keys[..], original);
    var modified := ApplyInOrder(original, keys);
    if modified != original {
      if !file.writable {
        return Failed(WriteFailed(file.path));
      }
      return Rewritten(modified);
    }
    return Unchanged;
  }

  /** The directory pass: every entry in walk order until the first error. */
  method ReplaceUbuntuWithFedora(dir: string, entries: seq<Entry>) returns (writes: seq<Write>, err: Option<DirError>)
    ensures writes == Walk(entries, Convert).writes
    ensures err == PassError(dir, Walk(entries, Convert).error)
  {
    writes := [];
    var failure: Option<FileError> := None;
    var i := 0;
    while i < |entries| && failure.None?
      invariant 0 <= i <= |entries|
      invariant failure.None? ==>
        Walk(entries, Convert) == WalkResult(writes + Walk(entries[i..], Convert).writes, Walk(entries[i..], Convert).error)
      invariant failure.Some? ==> Walk(entries, Convert) == WalkResult(writes, failure)
    {
      var entry := entries[i];
      WalkStep(entries, Convert, i);
      var outcome: Outcome;
      if !entry.accessible {
        outcome := Failed(AccessFailed(entry.path));
      } else if entry.regular && EndsWith(entry.name, ScriptSuffix) {
        outcome := ReplaceCommandsInFile(entry);
      } else {
        outcome := Skipped;
      }
      assert outcome == Visit(entry, Convert);
      match outcome {
        case Failed(e) =>
          failure := Some(e);
        case Rewritten(c) =>
          writes := writes + [Write(entry.path, c)];
        case _ =>
      }
      i := i + 1;
    }
    err := PassError(dir, failure);
  }

  // ---------------------------------------------------------------
  // The sorted keys
  // ---------------------------------------------------------------

  /** Taking the first element off both sides of a multiset equation. */
  lemma PeelFront(s: seq<string>, k: seq<string>, i: nat)
    requires i < |s| && i < |k| && s[i] == k[i] && multiset(s[i..]) == multiset(k[i..])
    ensures multiset(s[i + 1..]) == multiset(k[i + 1..])
  {
    assert s[i..] == [s[i]] + s[i + 1..];
    assert k[i..] == [k[i]] + k[i + 1..];
    calc {
      multiset(s[i + 1..]);
      multiset(s[i..]) - multiset{s[i]};
      multiset(k[i..]) - multiset{k[i]};
      multiset(k[i + 1..]);
    }
  }

  /** Some position at or after `i` of a longest-first listing holds `x`, and `s[i]` is at least as long. */
  lemma LongestAtFront(s: seq<string>, i: nat, x: string)
    requires LongestFirst(s) && i <= |s| && x in multiset(s[i..])
    ensures i < |s| && |s[i]| >= |x|
  {
    var j :| 0 <= j < |s[i..]| && s[i..][j] == x;
    assert s[i + j] == x;
  }

  /**
   * When the key at position `i` of `k` is longer than every key after it,
   * a longest-first listing with the same keys from `i` on has it at `i`.
   */
  lemma PeelLongest(s: seq<string>, k: seq<string>, i: nat)
    requires LongestFirst(s) && i < |k| && i <= |s| && multiset(s[i..]) == multiset(k[i..])
    requires forall b :: i < b < |k| ==> |k[b]| < |k[i]|
    ensures i < |s| && s[i] == k[i] && multiset(s[i + 1..]) == multiset(k[i + 1..])
  {
    assert k[i..][0] == k[i];
    LongestAtFront(s, i, k[i]);
    assert s[i..][0] == s[i];
    assert s[i] in multiset(k[i..]);
    var c :| 0 <= c < |k[i..]| && k[i..][c] == s[i];
    assert s[i] == k[i + c];
    PeelFront(s, k, i);
  }

  /** Two keys of the same length, longer than the rest, come first in either order. */
  lemma PeelTie(s: seq<string>, k: seq<string>, i: nat)
    requires LongestFirst(s) && i + 1 < |k| && i <= |s| && multiset(s[i..]) == multiset(k[i..])
    requires |k[i]| == |k[i + 1]| && k[i] != k[i + 1]
    requires forall b :: i + 1 < b < |k| ==> |k[b]| < |k[i]|
    ensures i + 1 < |s| && multiset(s[i + 2..]) == multiset(k[i + 2..])
    ensures (s[i] == k[i] && s[i + 1] == k[i + 1]) || (s[i] == k[i + 1] && s[i + 1] == k[i])
  {
    TieHead(s, k, i);
    if s[i] == k[i] {
      PeelFront(s, k, i);
      PeelLongest(s, k, i + 1);
    } else {
      TieSwapped(s, k, i);
    }
  }

  /** Of such a tie, the longest-first listing starts with one of the two keys. */
  lemma TieHead(s: seq<string>, k: seq<string>, i: nat)
    requires LongestFirst(s) && i + 1 < |k| && i <= |s| && multiset(s[i..]) == multiset(k[i..])
    requires |k[i]| == |k[i + 1]|
    requires forall b :: i + 1 < b < |k| ==> |k[b]| < |k[i]|
    ensures i < |s| && (s[i] == k[i] || s[i] == k[i + 1])
  {
    assert k[i..][0] == k[i];
    LongestAtFront(s, i, k[i]);
    assert s[i..][0] == s[i];
    assert s[i] in multiset(k[i..]);
    var c :| 0 <= c < |k[i..]| && k[i..][c] == s[i];
    assert s[i] == k[i + c];
  }

  /** The listing that starts with the second key of the tie continues with the first. */
  lemma TieSwapped(s: seq<string>, k: seq<string>, i: nat)
    requires LongestFirst(s) && i + 1 < |k| && i < |s| && multiset(s[i..]) == multiset(k[i..])
    requires |k[i]| == |k[i + 1]| && s[i] == k[i + 1]
    requires forall b :: i + 1 < b < |k| ==> |k[b]| < |k[i]|
    ensures i + 1 < |s| && s[i + 1] == k[i] && multiset(s[i + 2..]) == multiset(k[i + 2..])
  {
    var t := [k[i + 1], k[i]] + k[i + 2..];
    assert k[i..] == [k[i], k[i + 1]] + k[i + 2..];
    assert multiset(k[i..]) == multiset(t);
    var u := k[..i] + t;
    assert u[i..] == t && u[i + 1..] == [k[i]] + k[i + 2..] && u[i + 2..] == k[i + 2..];
    PeelFront(s, u, i);
    PeelLongest(s, u, i + 1);
  }

  /** Where the remaining keys are strictly longest first, a longest-first listing of them is exactly that. */
  lemma {:induction false} PeelStrict(s: seq<string>, k: seq<string>, i: nat)
    requires LongestFirst(s) && i <= |k| && i <= |s| && multiset(s[i..]) == multiset(k[i..])
    requires forall a, b :: i <= a < b < |k| ==> |k[a]| > |k[b]|
    ensures s[i..] == k[i..]
    decreases |k| - i
  {
    if i < |k| {
      PeelLongest(s, k, i);
      PeelStrict(s, k, i + 1);
      assert s[i..] == [s[i]] + s[i + 1..];
      assert k[i..] == [k[i]] + k[i + 1..];
    } else {
      assert |s[i..]| == |multiset(s[i..])| == 0;
    }
  }

  /** Nine keys, strictly longest first except for one tie between the third and fourth. */
  predicate OneTie(k: seq<string>)
  {
    |k| == 9 && k[2] != k[3] && |k[2]| == |k[3]| &&
    forall i, j :: 0 <= i < j < 9 && !(i == 2 && j == 3) ==> |k[i]| > |k[j]|
  }

  /** A longest-first listing of such keys is `k` itself or `k` with the tie exchanged. */
  lemma LongestFirstOfNine(keys: seq<string>, k: seq<string>)
    requires OneTie(k) && LongestFirst(keys) && multiset(keys) == multiset(k)
    ensures keys == k || keys == k[..2] + [k[3], k[2]] + k[4..]
  {
    assert keys[0..] == keys && k[0..] == k;
    OneTieShape(k);
    PeelLongest(keys, k, 0);
    PeelLongest(keys, k, 1);
    PeelTie(keys, k, 2);
    PeelStrict(keys, k, 4);
    NineFromParts(keys, k);
  }

  /** What the peeling steps need of such keys, one position at a time. */
  lemma OneTieShape(k: seq<string>)
    requires OneTie(k)
    ensures forall b :: 0 < b < 9 ==> |k[b]| < |k[0]|
    ensures forall b :: 1 < b < 9 ==> |k[b]| < |k[1]|
    ensures forall b :: 3 < b < 9 ==> |k[b]| < |k[2]|
    ensures forall a, b :: 4 <= a < b < 9 ==> |k[a]| > |k[b]|
  {
  }

  /** Nine keys agreeing position by position, up to the tie. */
  lemma NineFromParts(keys: seq<string>, k: seq<string>)
    requires |k| == 9 && 4 <= |keys| && keys[4..] == k[4..]
    requires keys[0] == k[0] && keys[1] == k[1]
    requires (keys[2] == k[2] && keys[3] == k[3]) || (keys[2] == k[3] && keys[3] == k[2])
    ensures keys == k || keys == k[..2] + [k[3], k[2]] + k[4..]
  {
    assert |keys| == 9;
    forall j | 4 <= j < 9
      ensures keys[j] == k[j]
    {
      assert keys[j] == keys[4..][j - 4];
    }
  }

  lemma TableKeys()
    ensures multiset(Replacements.Keys) == multiset(SortedKeys)
  {
  }

  lemma SortedKeysOneTie()
    ensures OneTie(SortedKeys)
    ensures SortedKeysSwapped == SortedKeys[..2] + [SortedKeys[3], SortedKeys[2]] + SortedKeys[4..]
  {
  }

  /** Longest first, the table's keys can only come in two orders. */
  lemma LongestFirstOrders(keys: seq<string>)
    requires LongestFirst(keys) && multiset(keys) == multiset(Replacements.Keys)
    ensures keys == SortedKeys || keys == SortedKeysSwapped
  {
    TableKeys();
    SortedKeysOneTie();
    LongestFirstOfNine(keys, SortedKeys);
  }

  lemma SortedRulesOfKeys()
    ensures RulesOf(SortedKeys) == SortedRules
  {
  }

  lemma SwappedRulesOfKeys()
    ensures RulesOf(SortedKeysSwapped) == SortedRules[..2] + [SortedRules[3], SortedRules[2]] + SortedRules[4..]
  {
  }

  /** The two sixteen-character rules commute: the tie order does not matter. */
  lemma TieIrrelevant(s: string)
    ensures Apply(s, RulesOf(SortedKeysSwapped)) == Convert(s)
  {
    var upgrade, install := SortedRules[2], SortedRules[3];
    TieRules();
    PhraseRulesIndependent(upgrade, install);
    PhraseRulesIndependent(install, upgrade);
    SwappedRulesOfKeys();
    ApplySwapAdjacent(s, SortedRules[..2], upgrade, install, SortedRules[4..]);
  }

  /** The tied rules are the upgrade and install phrase rules. */
  lemma TieRules()
    ensures SortedRules == SortedRules[..2] + [SortedRules[2], SortedRules[3]] + SortedRules[4..]
    ensures SortedRules[2] in PhraseRules && SortedRules[3] in PhraseRules && SortedRules[2] != SortedRules[3]
  {
    PairAt(SortedRules, 2);
    assert SudoApt + "upgrade" == "sudo apt upgrade" && SudoDnf + "upgrade" == "sudo dnf upgrade";
    assert SudoApt + "install" == "sudo apt install" && SudoDnf + "install" == "sudo dnf install";
    assert SortedRules[2] == PhraseRules[1] && SortedRules[3] == PhraseRules[2];
  }

  lemma PairAt(rules: seq<Rule>, i: nat)
    requires i + 1 < |rules|
    ensures rules == rules[..i] + [rules[i], rules[i + 1]] + rules[i + 2..]
  {
  }

  /** Whatever order the map yields, the sorted keys convert every text the same way. */
  lemma LongestFirstConverts(keys: seq<string>, s: string)
    requires LongestFirst(keys) && multiset(keys) == multiset(Replacements.Keys)
    ensures forall k :: k in keys ==> k in Replacements
    ensures Apply(s, RulesOf(keys)) == Convert(s)
  {
    LongestFirstOrders(keys);
    SortedRulesOfKeys();
    TieIrrelevant(s);
  }

  // ---------------------------------------------------------------
  // What the conversion does
  // ---------------------------------------------------------------

  /** A text without "apt" contains no pattern built around "apt". */
  lemma NoAptNoPattern(s: string, x: string, y: string)
    requires !Contains(s, "apt")
    ensures !Contains(s, x + "apt" + y)
  {
    if Contains(s, x + "apt" + y) {
      AptInside(x, y);
      ContainsTransitive(s, x + "apt" + y, "apt");
    }
  }

  lemma {:induction false} AptInside(x: string, y: string)
    ensures Contains(x + "apt" + y, "apt")
    decreases |x|
  {
    var w := x + "apt" + y;
    if |x| == 0 {
      assert w[..3] == "apt";
    } else {
      assert w[1..] == x[1..] + "apt" + y;
      AptInside(x[1..], y);
    }
  }

  /** After a pass no "apt" is left: the last rule replaces it by "dnf", which cannot form a new one. */
  lemma ConvertRemovesApt(s: string)
    ensures !Contains(Convert(s), "apt")
  {
    assert SortedRules[..8][..8] == SortedRules[..8];
    InertNoHead("dnf", "apt");
    InertNoHead("apt", "dnf");
    ReplaceAllRemoves(Apply(s, SortedRules[..8]), "apt", "dnf");
  }

  /** Every key of the table contains "apt", so text without "apt" matches none of them. */
  lemma NoAptNoKey(s: string)
    requires !Contains(s, "apt")
    ensures forall r :: r in SortedRules ==> |r.pattern| > 0 && !Contains(s, r.pattern)
  {
    NoAptNoLongKey(s);
    NoAptNoMiddleKey(s);
    NoAptNoShortKey(s);
  }

  lemma NoAptNoLongKey(s: string)
    requires !Contains(s, "apt")
    ensures !Contains(s, "sudo apt autoremove")
    ensures !Contains(s, "add-apt-repository")
    ensures !Contains(s, "sudo apt upgrade")
  {
    assert "sudo apt autoremove" == "sudo " + "apt" + " autoremove";
    NoAptNoPattern(s, "sudo ", " autoremove");
    assert "add-apt-repository" == "add-" + "apt" + "-repository";
    NoAptNoPattern(s, "add-", "-repository");
    assert "sudo apt upgrade" == "sudo " + "apt" + " upgrade";
    NoAptNoPattern(s, "sudo ", " upgrade");
  }

  lemma NoAptNoMiddleKey(s: string)
    requires !Contains(s, "apt")
    ensures !Contains(s, "sudo apt install")
    ensures !Contains(s, "sudo apt update")
    ensures !Contains(s, "sudo apt-get")
  {
    assert "sudo apt install" == "sudo " + "apt" + " install";
    NoAptNoPattern(s, "sudo ", " install");
    assert "sudo apt update" == "sudo " + "apt" + " update";
    NoAptNoPattern(s, "sudo ", " update");
    assert "sudo apt-get" == "sudo " + "apt" + "-get";
    NoAptNoPattern(s, "sudo ", "-get");
  }

  lemma NoAptNoShortKey(s: string)
    requires !Contains(s, "apt")
    ensures !Contains(s, "sudo apt")
    ensures !Contains(s, "apt-get")
    ensures !Contains(s, "apt")
  {
    assert "sudo apt" == "sudo " + "apt" + "";
    NoAptNoPattern(s, "sudo ", "");
    assert "apt-get" == "" + "apt" + "-get";
    NoAptNoPattern(s, "", "-get");
    assert "apt" == "" + "apt" + "";
    NoAptNoPattern(s, "", "");
  }

  /** A text is left exactly as it is if and only if it contains no "apt". */
  lemma ConvertUnchangedIff(s: string)
    ensures Convert(s) == s <==> !Contains(s, "apt")
  {
    if !Contains(s, "apt") {
      NoAptNoKey(s);
      ApplyUnmatched(s, SortedRules);
    } else {
      ConvertRemovesApt(s);
    }
  }

  /** Converting twice is converting once. */
  lemma ConvertIdempotent(s: string)
    ensures Convert(Convert(s)) == Convert(s)
  {
    ConvertRemovesApt(s);
    ConvertUnchangedIff(Convert(s));
  }

  /**
   * A second pass over the files as a successful first pass left them
   * writes nothing and returns no error.
   */
  lemma SecondPassIdle(entries: seq<Entry>)
    requires Walk(entries, Convert).error == None
    ensures Walk(AfterWalk(entries, Convert), Convert) == WalkResult([], None)
  {
    forall s | true
      ensures Convert(Convert(s)) == Convert(s)
    {
      ConvertIdempotent(s);
    }
    SecondWalkIdle(entries, Convert);
  }

  /** A script is written exactly when it can be read and its text contains "apt"; a read-only one then fails. */
  lemma ScriptOutcome(e: Entry)
    requires e.accessible && IsScript(e)
    ensures e.readable && !Contains(e.content, "apt") ==> Visit(e, Convert) == Unchanged
    ensures e.readable && Contains(e.content, "apt") && e.writable ==>
              Visit(e, Convert) == Rewritten(Convert(e.content))
    ensures e.readable && Contains(e.content, "apt") && !e.writable ==>
              Visit(e, Convert) == Failed(WriteFailed(e.path))
    ensures !e.readable ==> Visit(e, Convert) == Failed(ReadFailed(e.path))
  {
    ConvertUnchangedIff(e.content);
  }
}
