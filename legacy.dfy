/**
 * The earlier revision of the converter (ubuntu-to-fedora.go): a table
 * of five whole-phrase rules applied as replace-all passes in Go's map
 * iteration order, which is left free here, the file written back only
 * if the text changed, inside the same walk as the later revision.
 */
module LegacyConverter {
  import opened Text
  import opened Rewrite
  import opened Commands
  import opened Files
  import opened Maybe

  /** The five-entry table of the earlier revision. */
  const LegacyReplacements: map<string, string> := map[
    "sudo apt update" := "sudo dnf update",
    "sudo apt upgrade" := "sudo dnf upgrade",
    "sudo apt install" := "sudo dnf install",
    "add-apt-repository" := "sudo dnf config-manager --add-repo",
    "sudo apt autoremove" := "sudo dnf autoremove"
  ]

  /** The table's keys in the order the source lists them. */
  const TableOrder: seq<string> := [
    "sudo apt update", "sudo apt upgrade", "sudo apt install", "add-apt-repository", "sudo apt autoremove"]

  /** The table's rules for `keys`, in that order. */
  function LegacyRulesOf(keys: seq<string>): seq<Rule>
    requires forall k :: k in keys ==> k in LegacyReplacements
  {
    seq(|keys|, i requires 0 <= i < |keys| => Rule(keys[i], LegacyReplacements[keys[i]]))
  }

  predicate Distinct(keys: seq<string>)
  {
    forall i, j :: 0 <= i < j < |keys| ==> keys[i] != keys[j]
  }

  /** What the earlier revision does to the text of a file, with its rules in table order. */
  function LegacyConvert(s: string): string
  {
    Apply(s, PhraseRules)
  }

  // ---------------------------------------------------------------
  // replaceCommandsInFile and the walk
  // ---------------------------------------------------------------

  /** One file: every rule once, in whatever order the map yields its keys. */
  method ReplaceCommandsInFile(file: Entry) returns (outcome: Outcome)
    ensures outcome == ProcessFile(file, LegacyConvert)
  {
    if !file.readable {
      return Failed(ReadFailed(file.path));
    }
    var original := file.content;
    var modified := original;
    var remaining := LegacyReplacements.Keys;
    ghost var order: seq<string> := [];
    while remaining != {}
      invariant remaining <= LegacyReplacements.Keys
      invariant Distinct(order)
      invariant forall k :: k in order ==> k in LegacyReplacements && k !in remaining
      invariant forall k :: k in LegacyReplacements ==> k in order || k in remaining
      invariant modified == Apply(original, LegacyRulesOf(order))
      decreases |remaining|
    {
      var ubuntuCmd :| ubuntuCmd in remaining;
      var fedoraCmd := LegacyReplacements[ubuntuCmd];
      assert LegacyRulesOf(order + [ubuntuCmd])[..|order|] == LegacyRulesOf(order);
      modified := ReplaceAll(modified, ubuntuCmd, fedoraCmd);
      order := order + [ubuntuCmd];
      remaining := remaining - {ubuntuCmd};
    }
    AnyOrderConverts(order, original);
    if modified != original {
      if !file.writable {
        return Failed(WriteFailed(file.path));
      }
      return Rewritten(modified);
    }
    return Unchanged;
  }

  /** The directory pass: every entry in walk order until the first error. */
  method ReplaceUbuntuWithFedora(dir: string, entries: seq<Entry>) returns (writes: seq<Write>, err: Option<DirError>)
    ensures writes == Walk(entries, LegacyConvert).writes
    ensures err == PassError(dir, Walk(entries, LegacyConvert).error)
  {
    writes := [];
    var failure: Option<FileError> := None;
    var i := 0;
    while i < |entries| && failure.None?
      invariant 0 <= i <= |entries|
      invariant failure.None? ==>
        Walk(entries, LegacyConvert) ==
        WalkResult(writes + Walk(entries[i..], LegacyConvert).writes, Walk(entries[i..], LegacyConvert).error)
      invariant failure.Some? ==> Walk(entries, LegacyConvert) == WalkResult(writes, failure)
    {
      var entry := entries[i];
      WalkStep(entries, LegacyConvert, i);
      var outcome: Outcome;
      if !entry.accessible {
        outcome := Failed(AccessFailed(entry.path));
      } else if entry.regular && EndsWith(entry.name, ScriptSuffix) {
        outcome := ReplaceCommandsInFile(entry);
      } else {
        outcome := Skipped;
      }
      assert outcome == Visit(entry, LegacyConvert);
      match outcome {
        case Failed(e) =>
          failure := Some(e);
        case Rewritten(c) =>
          writes := writes + [Write(entry.path, c)];
        case _ =>
      }
      i := i + 1;
    }
    err := PassError(dir, failure);
  }

  // ---------------------------------------------------------------
  // The table
  // ---------------------------------------------------------------

  lemma UpdateEntry()
    ensures PhraseRules[0] == Rule("sudo apt update", "sudo dnf update")
  {
    assert SudoApt + "update" == "sudo apt update";
    assert SudoDnf + "update" == "sudo dnf update";
  }

  lemma UpgradeEntry()
    ensures PhraseRules[1] == Rule("sudo apt upgrade", "sudo dnf upgrade")
  {
    assert SudoApt + "upgrade" == "sudo apt upgrade";
    assert SudoDnf + "upgrade" == "sudo dnf upgrade";
  }

  lemma InstallEntry()
    ensures PhraseRules[2] == Rule("sudo apt install", "sudo dnf install")
  {
    assert SudoApt + "install" == "sudo apt install";
    assert SudoDnf + "install" == "sudo dnf install";
  }

  lemma AddRepoEntry()
    ensures PhraseRules[3] == Rule("add-apt-repository", "sudo dnf config-manager --add-repo")
  {
    assert SudoDnf + ConfigManager == "sudo dnf config-manager --add-repo";
  }

  lemma AutoremoveEntry()
    ensures PhraseRules[4] == Rule("sudo apt autoremove", "sudo dnf autoremove")
  {
    assert SudoApt + "autoremove" == "sudo apt autoremove";
    assert SudoDnf + "autoremove" == "sudo dnf autoremove";
  }

  /** The table holds exactly the five phrase rules, and no other key. */
  lemma LegacyTable()
    ensures forall k :: k in LegacyReplacements <==> k in TableOrder
    ensures Distinct(TableOrder)
    ensures LegacyRulesOf(TableOrder) == PhraseRules
  {
    UpdateEntry();
    UpgradeEntry();
    InstallEntry();
    AddRepoEntry();
    AutoremoveEntry();
  }

  /** Distinct phrase rules, in any arrangement, are pairwise independent. */
  lemma DistinctPhraseRules(rules: seq<Rule>)
    requires forall r :: r in rules ==> r in PhraseRules
    requires forall i, j :: 0 <= i < j < |rules| ==> rules[i] != rules[j]
    ensures PairwiseIndependent(rules)
  {
    forall i, j | 0 <= i < |rules| && 0 <= j < |rules| && i != j
      ensures Independent(rules[i], rules[j])
    {
      assert rules[i] in rules && rules[j] in rules;
      PhraseRulesIndependent(rules[i], rules[j]);
    }
  }

  /**
   * Whatever order the map yields its keys in, applying the rules in
   * that order converts every text as the table order does.
   */
  lemma AnyOrderConverts(order: seq<string>, s: string)
    requires Distinct(order)
    requires forall k :: k in order <==> k in LegacyReplacements
    ensures Apply(s, LegacyRulesOf(order)) == LegacyConvert(s)
  {
    LegacyTable();
    var rules := LegacyRulesOf(order);
    forall r | r in rules
      ensures r in PhraseRules
    {
      var i :| 0 <= i < |rules| && rules[i] == r;
      var j :| 0 <= j < |TableOrder| && TableOrder[j] == order[i];
      assert r == LegacyRulesOf(TableOrder)[j];
    }
    forall r | r in PhraseRules
      ensures r in rules
    {
      var j :| 0 <= j < |PhraseRules| && PhraseRules[j] == r;
      assert r == LegacyRulesOf(TableOrder)[j];
      assert TableOrder[j] in LegacyReplacements;
      var i :| 0 <= i < |order| && order[i] == TableOrder[j];
      assert rules[i] == r;
    }
    DistinctPhraseRules(rules);
    DistinctPhraseRules(PhraseRules);
    ApplyOrderIrrelevant(s, PhraseRules, rules);
  }

  // ---------------------------------------------------------------
  // What the conversion does
  // ---------------------------------------------------------------

  lemma PhrasePrefixes(r: Rule)
    requires r in PhraseRules
    ensures StartsWith(r.pattern, SudoApt) || StartsWith(r.pattern, "ad")
    ensures !Overlaps(r.pattern, r.replacement)
  {
    if r == AddRepoRule {
      assert AddAptRepository[..2] == "ad";
      assert (SudoDnf + ConfigManager)[0] == 's';
    } else {
      var w := SudoRuleWord(r);
      SudoAptAvoidsSudoDnf();
      assert SudoApt[0..] == SudoApt;
      NoOverlapExtended(SudoApt, SudoDnf, w, w);
    }
  }

  /**
   * A text that begins with something in which neither "sudo apt " nor
   * "ad" can begin keeps that beginning: no rule matches across it.
   */
  lemma LegacyKeepsPrefix(x: string, t: string)
    requires Inert(x, SudoApt) && Inert(x, "ad")
    ensures LegacyConvert(x + t) == x + LegacyConvert(t)
  {
    forall r | r in PhraseRules
      ensures |r.pattern| > 0 && Inert(x, r.pattern)
    {
      PhrasePrefixes(r);
      if StartsWith(r.pattern, SudoApt) {
        InertLonger(x, SudoApt, r.pattern);
      } else {
        InertLonger(x, "ad", r.pattern);
      }
    }
    ApplyInertPrefix(x, t, PhraseRules);
  }

  lemma AptGetAvoidsPhrases()
    ensures Inert("apt-get", SudoApt) && Inert("apt-get", "ad")
  {
    InertNoHead("apt-get", SudoApt);
    InertJoin("apt-get", 'a', "pt-get", "", "ad");
  }

  lemma SudoAptGetPieces()
    ensures "sudo apt-get" == ['s'] + "udo " + "apt-get"
    ensures "sudo apt-get" == "sudo " + "apt-get"
  {
  }

  lemma SudoAptGetAvoidsAd()
    ensures Inert("sudo apt-get", "ad")
  {
    AptGetAvoidsPhrases();
    SudoAptGetPieces();
    InertNoHead("sudo ", "ad");
    InertConcat("sudo ", "apt-get", "ad");
  }

  lemma AptAvoidsPhrases()
    ensures Inert("apt ", SudoApt) && Inert("apt ", "ad")
  {
    InertNoHead("apt ", SudoApt);
    InertJoin("apt ", 'a', "pt ", "", "ad");
  }

  /** "sudo apt-get" is not in the table, so it stays. */
  lemma LegacyKeepsSudoAptGet(t: string)
    ensures LegacyConvert("sudo apt-get" + t) == "sudo apt-get" + LegacyConvert(t)
  {
    SudoAptGetAvoidsSudoApt();
    SudoAptGetAvoidsAd();
    LegacyKeepsPrefix("sudo apt-get", t);
  }

  /** Nor is "apt-get". */
  lemma LegacyKeepsAptGet(t: string)
    ensures LegacyConvert("apt-get" + t) == "apt-get" + LegacyConvert(t)
  {
    AptGetAvoidsPhrases();
    LegacyKeepsPrefix("apt-get", t);
  }

  /** Nor a bare "apt" command. */
  lemma LegacyKeepsApt(t: string)
    ensures LegacyConvert("apt " + t) == "apt " + LegacyConvert(t)
  {
    AptAvoidsPhrases();
    LegacyKeepsPrefix("apt ", t);
  }

  /** Each of the five phrases is rewritten to its Fedora form, and the rest converted on. */
  lemma LegacyPhrase(k: nat, t: string)
    requires k < |PhraseRules|
    ensures LegacyConvert(PhraseRules[k].pattern + t) == PhraseRules[k].replacement + LegacyConvert(t)
  {
    var rule := PhraseRules[k];
    var front, back := PhraseRules[..k], PhraseRules[k + 1..];
    assert PhraseRules == front + [rule] + back;
    PhraseRulesPairwise();
    forall r | r in front
      ensures |r.pattern| > 0 && Inert(rule.pattern, r.pattern)
    {
      var i :| 0 <= i < k && PhraseRules[i] == r;
      assert Independent(PhraseRules[i], PhraseRules[k]);
    }
    forall r | r in back
      ensures |r.pattern| > 0 && Inert(rule.replacement, r.pattern)
    {
      var i :| k < i < |PhraseRules| && PhraseRules[i] == r;
      assert Independent(PhraseRules[k], PhraseRules[i]);
    }
    ApplyThrough(t, front, rule, back);
  }

  /** The five phrase rules, in table order, are pairwise independent. */
  lemma PhraseRulesPairwise()
    ensures PairwiseIndependent(PhraseRules)
  {
    DistinctPhraseRules(PhraseRules);
  }

  /** Each phrase disagrees with its own replacement within their common length. */
  lemma PhrasesDisagree()
    ensures forall x :: x in PhraseRules ==> !Overlaps(x.pattern, x.replacement)
  {
    forall x | x in PhraseRules
      ensures !Overlaps(x.pattern, x.replacement)
    {
      PhrasePrefixes(x);
    }
  }

  /** A text in which one of the five phrases occurs is changed. */
  lemma LegacyChanges(s: string, r: Rule)
    requires r in PhraseRules && Contains(s, r.pattern)
    ensures LegacyConvert(s) != s
  {
    PhraseRulesPairwise();
    ApplyIsScan(s, PhraseRules);
    PhrasesDisagree();
    ScanChanges(s, PhraseRules, r);
  }

  /** The text is left as it is exactly when none of the five phrases occurs in it. */
  lemma LegacyUnchangedIff(s: string)
    ensures LegacyConvert(s) == s <==> forall r :: r in PhraseRules ==> !Contains(s, r.pattern)
  {
    if forall r :: r in PhraseRules ==> !Contains(s, r.pattern) {
      ApplyUnmatched(s, PhraseRules);
    } else {
      var r :| r in PhraseRules && Contains(s, r.pattern);
      LegacyChanges(s, r);
    }
  }

  /** A script is written exactly when one of the phrases occurs in it; a read-only one then fails. */
  lemma LegacyScriptOutcome(e: Entry)
    requires e.accessible && IsScript(e) && e.readable
    ensures (forall r :: r in PhraseRules ==> !Contains(e.content, r.pattern)) ==> Visit(e, LegacyConvert) == Unchanged
    ensures (exists r :: r in PhraseRules && Contains(e.content, r.pattern)) ==>
              Visit(e, LegacyConvert) == (if e.writable then Rewritten(LegacyConvert(e.content))
                                          else Failed(WriteFailed(e.path)))
  {
    LegacyUnchangedIff(e.content);
  }
}
