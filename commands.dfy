/**
 * The Ubuntu commands both converter revisions rewrite as whole phrases
 * ("sudo apt update", "add-apt-repository", ...) and the fact that these
 * five rules are pairwise independent: running one of them can neither
 * create nor destroy an occurrence of another.
 */
module Commands {
  import opened Text
  import opened Rewrite

  const SudoApt: string := "sudo apt "
  const SudoDnf: string := "sudo dnf "
  const AddAptRepository: string := "add-apt-repository"
  const ConfigManager: string := "config-manager --add-repo"

  /** The words that follow "sudo apt " in the phrase rules. */
  const Words: seq<string> := ["update", "upgrade", "install", "autoremove"]

  /** "sudo apt <w>" becomes "sudo dnf <w>". */
  function SudoRule(w: string): (r: Rule)
    ensures StartsWith(r.pattern, SudoApt) && StartsWith(r.replacement, SudoDnf)
  {
    assert (SudoApt + w)[..|SudoApt|] == SudoApt;
    assert (SudoDnf + w)[..|SudoDnf|] == SudoDnf;
    Rule(SudoApt + w, SudoDnf + w)
  }

  /** "add-apt-repository" becomes "sudo dnf config-manager --add-repo". */
  const AddRepoRule: Rule := Rule(AddAptRepository, SudoDnf + ConfigManager)

  /** The five phrase rules, in the order the legacy table lists them. */
  const PhraseRules: seq<Rule> := [SudoRule("update"), SudoRule("upgrade"), SudoRule("install"),
                                   AddRepoRule, SudoRule("autoremove")]

  // ---------------------------------------------------------------
  // Facts about the literal pieces
  // ---------------------------------------------------------------

  /** No occurrence of "su", hence of any "sudo ..." phrase, begins inside a word. */
  lemma WordsAvoidSu(w: string)
    requires w in Words || w == ConfigManager
    ensures Inert(w, "su")
  {
    if w == "install" {
      InertJoin("stall", 's', "tall", "", "su");
      InertJoin("install", 'i', "n", "stall", "su");
    } else {
      InertNoHead(w, "su");
    }
  }

  lemma AddAptRepositoryAvoidsSu()
    ensures Inert(AddAptRepository, "su")
  {
    InertJoin("sitory", 's', "itory", "", "su");
    InertJoin("add-apt-repository", 'a', "dd-apt-repo", "sitory", "su");
  }

  /** No occurrence of "add-apt-repository" begins inside a word. */
  lemma WordsAvoidAddApt(w: string)
    requires w in Words
    ensures Inert(w, AddAptRepository)
  {
    if w == "update" {
      UpdateAvoidsAddApt();
    } else if w == "upgrade" {
      UpgradeAvoidsAddApt();
    } else if w == "install" {
      InstallAvoidsAddApt();
    } else {
      InertJoin("autoremove", 'a', "utoremove", "", AddAptRepository);
    }
  }

  lemma UpdateAvoidsAddApt()
    ensures Inert("update", AddAptRepository)
  {
    InertJoin("ate", 'a', "te", "", AddAptRepository);
    InertJoin("update", 'u', "pd", "ate", AddAptRepository);
  }

  lemma UpgradeAvoidsAddApt()
    ensures Inert("upgrade", AddAptRepository)
  {
    InertJoin("ade", 'a', "de", "", AddAptRepository);
    InertJoin("upgrade", 'u', "pgr", "ade", AddAptRepository);
  }

  lemma InstallAvoidsAddApt()
    ensures Inert("install", AddAptRepository)
  {
    InertJoin("all", 'a', "ll", "", AddAptRepository);
    InertJoin("install", 'i', "nst", "all", AddAptRepository);
  }

  /** No occurrence of "apt" begins inside the words that follow "sudo dnf ". */
  lemma WordsAvoidApt(w: string)
    requires w in Words || w == ConfigManager
    ensures Inert(w, "apt")
  {
    if w == "update" {
      UpdateAvoidsApt();
    } else if w == "upgrade" {
      UpgradeAvoidsApt();
    } else if w == "install" {
      InstallAvoidsApt();
    } else if w == "autoremove" {
      InertJoin("autoremove", 'a', "utoremove", "", "apt");
    } else {
      ConfigManagerAvoidsApt();
    }
  }

  lemma UpdateAvoidsApt()
    ensures Inert("update", "apt")
  {
    InertJoin("ate", 'a', "te", "", "apt");
    InertJoin("update", 'u', "pd", "ate", "apt");
  }

  lemma UpgradeAvoidsApt()
    ensures Inert("upgrade", "apt")
  {
    InertJoin("ade", 'a', "de", "", "apt");
    InertJoin("upgrade", 'u', "pgr", "ade", "apt");
  }

  lemma InstallAvoidsApt()
    ensures Inert("install", "apt")
  {
    InertJoin("all", 'a', "ll", "", "apt");
    InertJoin("install", 'i', "nst", "all", "apt");
  }

  lemma AddRepoAvoidsApt()
    ensures Inert("ager --add-repo", "apt")
  {
    InertJoin("add-repo", 'a', "dd-repo", "", "apt");
    InertJoin("ager --add-repo", 'a', "ger --", "add-repo", "apt");
  }

  lemma ManagerAvoidsApt()
    ensures Inert("anager --add-repo", "apt")
  {
    AddRepoAvoidsApt();
    InertJoin("anager --add-repo", 'a', "n", "ager --add-repo", "apt");
  }

  lemma ConfigManagerAvoidsApt()
    ensures Inert(ConfigManager, "apt")
  {
    ManagerAvoidsApt();
    InertJoin("config-manager --add-repo", 'c', "onfig-m", "anager --add-repo", "apt");
  }

  lemma SudoDnfAvoidsShortPhrases()
    ensures Inert(SudoDnf, "sudo apt") && Inert(SudoDnf, "apt")
  {
    InertJoin("sudo dnf ", 's', "udo dnf ", "", "sudo apt");
    InertNoHead(SudoDnf, "apt");
  }

  lemma WordAvoidsSudoApt(w: string)
    requires w in Words || w == ConfigManager
    ensures Inert(w, "sudo apt")
  {
    WordsAvoidSu(w);
    assert StartsWith("sudo apt", "su");
    InertLonger(w, "su", "sudo apt");
  }

  /** "sudo dnf <w>" can start no "sudo apt..." and no "apt..." phrase. */
  lemma DnfPhraseAvoidsApt(w: string)
    requires w in Words || w == ConfigManager
    ensures Inert(SudoDnf + w, "sudo apt") && Inert(SudoDnf + w, "apt")
  {
    SudoDnfAvoidsShortPhrases();
    WordAvoidsSudoApt(w);
    WordsAvoidApt(w);
    InertConcat(SudoDnf, w, "sudo apt");
    InertConcat(SudoDnf, w, "apt");
  }

  lemma SudoDnfAvoidsSudoApt()
    ensures Inert(SudoDnf, SudoApt)
  {
    InertJoin("sudo dnf ", 's', "udo dnf ", "", SudoApt);
  }

  lemma SudoAptAvoidsSudoDnf()
    ensures Inert(SudoApt, SudoDnf)
  {
    InertJoin("sudo apt ", 's', "udo apt ", "", SudoDnf);
  }

  /** No "sudo apt " can begin inside "sudo apt-get". */
  lemma SudoAptGetAvoidsSudoApt()
    ensures Inert("sudo apt-get", SudoApt)
  {
    InertJoin("sudo apt-get", 's', "udo apt-get", "", SudoApt);
  }

  lemma SudoPrefixesAvoidAddApt()
    ensures Inert(SudoDnf, AddAptRepository) && Inert(SudoApt, AddAptRepository)
  {
    InertNoHead(SudoDnf, AddAptRepository);
    InertJoin("apt ", 'a', "pt ", "", AddAptRepository);
    InertJoin("sudo apt ", 's', "udo ", "apt ", AddAptRepository);
  }

  lemma PrefixesFacts()
    ensures Inert(SudoDnf, SudoApt) && Inert(SudoApt, SudoDnf)
    ensures Inert(SudoDnf, AddAptRepository) && Inert(SudoApt, AddAptRepository)
    ensures SudoApt == ['s'] + "udo apt " && 's' !in "udo apt "
  {
    SudoDnfAvoidsSudoApt();
    SudoAptAvoidsSudoDnf();
    SudoPrefixesAvoidAddApt();
  }

  lemma WordsDisjoint(w1: string, w2: string)
    requires w1 in Words && w2 in Words && w1 != w2
    ensures !Overlaps(w1, w2)
  {
  }

  // ---------------------------------------------------------------
  // Independence of the phrase rules
  // ---------------------------------------------------------------

  /** A text starting with "sudo apt " or "sudo dnf " starts with "su". */
  lemma StartsWithSu(t: string, w: string)
    requires t == SudoApt + w || t == SudoDnf + w
    ensures StartsWith(t, "su")
  {
    assert t[..2] == t[..|SudoApt|][..2];
  }

  /** Every text in which "su" cannot begin is inert toward the longer phrases. */
  lemma AvoidsSudoPhrases(a: string, w: string)
    requires Inert(a, "su")
    ensures Inert(a, SudoApt + w) && Inert(a, SudoDnf + w)
  {
    StartsWithSu(SudoApt + w, w);
    StartsWithSu(SudoDnf + w, w);
    InertLonger(a, "su", SudoApt + w);
    InertLonger(a, "su", SudoDnf + w);
  }

  lemma PrefixInert(a: string, c: string, w: string)
    requires Inert(a, c)
    ensures Inert(a, c + w)
  {
    assert (c + w)[..|c|] == c;
    InertLonger(a, c, c + w);
  }

  lemma SudoRulesIndependent(w1: string, w2: string)
    requires w1 in Words && w2 in Words && w1 != w2
    ensures Independent(SudoRule(w1), SudoRule(w2))
  {
    PrefixesFacts();
    WordsAvoidSu(w1);
    WordsAvoidSu(w2);
    AvoidsSudoPhrases(w1, w2);
    AvoidsSudoPhrases(w2, w1);
    // the replacement "sudo dnf <w1>" against the pattern "sudo apt <w2>"
    PrefixInert(SudoDnf, SudoApt, w2);
    InertConcat(SudoDnf, w1, SudoApt + w2);
    // the pattern "sudo apt <w2>" against the pattern "sudo apt <w1>"
    WordsDisjoint(w2, w1);
    PrefixInert(w2, "su", "do apt ");
    assert "su" + "do apt " == SudoApt;
    InertSharedStart('s', "udo apt ", w2, w1);
    // the pattern "sudo apt <w2>" against the replacement "sudo dnf <w1>"
    PrefixInert(SudoApt, SudoDnf, w1);
    InertConcat(SudoApt, w2, SudoDnf + w1);
  }

  lemma SudoAndAddRepoIndependent(w: string)
    requires w in Words
    ensures Independent(SudoRule(w), AddRepoRule)
    ensures Independent(AddRepoRule, SudoRule(w))
  {
    PrefixesFacts();
    WordsAvoidSu(w);
    WordsAvoidSu(ConfigManager);
    WordsAvoidAddApt(w);
    AddAptRepositoryAvoidsSu();
    AvoidsSudoPhrases(AddAptRepository, w);
    AvoidsSudoPhrases(AddAptRepository, ConfigManager);
    AvoidsSudoPhrases(ConfigManager, w);
    AvoidsSudoPhrases(w, ConfigManager);
    // SudoRule(w) first
    InertConcat(SudoDnf, w, AddAptRepository);
    // AddRepoRule first
    PrefixInert(SudoDnf, SudoApt, w);
    InertConcat(SudoDnf, ConfigManager, SudoApt + w);
    InertConcat(SudoApt, w, AddAptRepository);
    PrefixInert(SudoApt, SudoDnf, ConfigManager);
    InertConcat(SudoApt, w, SudoDnf + ConfigManager);
  }

  /** Each phrase rule other than the add-apt-repository one is a "sudo apt" rule. */
  lemma SudoRuleWord(r: Rule) returns (w: string)
    requires r in PhraseRules && r != AddRepoRule
    ensures w in Words && r == SudoRule(w)
  {
    if r == SudoRule("update") {
      w := "update";
    } else if r == SudoRule("upgrade") {
      w := "upgrade";
    } else if r == SudoRule("install") {
      w := "install";
    } else {
      w := "autoremove";
    }
  }

  /** Any two distinct phrase rules are independent of each other. */
  lemma PhraseRulesIndependent(r: Rule, x: Rule)
    requires r in PhraseRules && x in PhraseRules && r != x
    ensures Independent(r, x)
  {
    if r == AddRepoRule {
      var w := SudoRuleWord(x);
      SudoAndAddRepoIndependent(w);
    } else {
      var w := SudoRuleWord(r);
      if x == AddRepoRule {
        SudoAndAddRepoIndependent(w);
      } else {
        var v := SudoRuleWord(x);
        SudoRulesIndependent(w, v);
      }
    }
  }
}
