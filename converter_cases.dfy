/**
 * The conversion of pkg/converter/converter.go worked out on the lines of
 * its test table: each of the table's phrases at the start of a line is
 * rewritten once and the rest of the line is left alone; lines are
 * converted independently of each other.
 */
module ConverterCases {
  import opened Text
  import opened Rewrite
  import opened Commands
  import opened Converter
  import opened Scripts

  // ---------------------------------------------------------------
  // Lines
  // ---------------------------------------------------------------

  lemma NewlineInNoKey()
    ensures forall r :: r in SortedRules ==> |r.pattern| > 0 && '\n' !in r.pattern
  {
    NewlineInNoLiteralKey();
  }

  lemma NewlineInNoLiteralKey()
    ensures '\n' !in "sudo apt autoremove"
    ensures '\n' !in "add-apt-repository"
    ensures '\n' !in "sudo apt upgrade"
    ensures '\n' !in "sudo apt install"
    ensures '\n' !in "sudo apt update"
    ensures '\n' !in "sudo apt-get"
    ensures '\n' !in "sudo apt"
    ensures '\n' !in "apt-get"
    ensures '\n' !in "apt"
  {
  }

  /** No key spans a line break, so every line is converted on its own. */
  lemma ConvertLines(x: string, y: string)
    ensures Convert(x + "\n" + y) == Convert(x) + "\n" + Convert(y)
  {
    NewlineInNoKey();
    ApplySeparated(x, '\n', y, SortedRules);
  }

  // ---------------------------------------------------------------
  // The phrases
  // ---------------------------------------------------------------

  /** The first five sorted rules are the phrase rules. */
  lemma SortedPhraseRules()
    ensures SortedRules[0] == SudoRule("autoremove") && SortedRules[1] == AddRepoRule
    ensures SortedRules[2] == SudoRule("upgrade") && SortedRules[3] == SudoRule("install")
    ensures SortedRules[4] == SudoRule("update")
  {
    Sorted0();
    Sorted1();
    Sorted2();
    Sorted3();
    Sorted4();
  }
  lemma Sorted0() ensures SortedRules[0] == SudoRule("autoremove") {
    assert SudoApt + "autoremove" == "sudo apt autoremove";
    assert SudoDnf + "autoremove" == "sudo dnf autoremove";
  }
  lemma Sorted1() ensures SortedRules[1] == AddRepoRule {}
  lemma Sorted2() ensures SortedRules[2] == SudoRule("upgrade") {
    assert SudoApt + "upgrade" == "sudo apt upgrade";
    assert SudoDnf + "upgrade" == "sudo dnf upgrade";
  }
  lemma Sorted3() ensures SortedRules[3] == SudoRule("install") {
    assert SudoApt + "install" == "sudo apt install";
    assert SudoDnf + "install" == "sudo dnf install";
  }
  lemma Sorted4() ensures SortedRules[4] == SudoRule("update") {
    assert SudoApt + "update" == "sudo apt update";
    assert SudoDnf + "update" == "sudo dnf update";
  }

  lemma SortedPhraseRulesDistinct()
    ensures forall i, j :: 0 <= i < j < 5 ==> SortedRules[i] != SortedRules[j]
  {
  }

  /** The last four sorted keys start with "sudo apt" or with "apt". */
  lemma ShortKeys()
    ensures StartsWith(SortedRules[5].pattern, "sudo apt") && StartsWith(SortedRules[6].pattern, "sudo apt")
    ensures StartsWith(SortedRules[7].pattern, "apt") && StartsWith(SortedRules[8].pattern, "apt")
  {
  }

  /** The word after "sudo dnf " in the replacement of a phrase rule. */
  lemma PhraseReplacement(r: Rule) returns (w: string)
    requires r in PhraseRules
    ensures (w in Words || w == ConfigManager) && r.replacement == SudoDnf + w
  {
    if r == AddRepoRule {
      w := ConfigManager;
    } else {
      w := SudoRuleWord(r);
    }
  }

  /** No earlier key can begin inside a phrase. */
  lemma PhraseAfterLonger(k: nat)
    requires k < 5
    ensures forall r :: r in SortedRules[..k] ==> |r.pattern| > 0 && Inert(SortedRules[k].pattern, r.pattern)
  {
    var rule := SortedRules[k];
    SortedPhraseRules();
    SortedPhraseRulesDistinct();
    forall r | r in SortedRules[..k]
      ensures |r.pattern| > 0 && Inert(rule.pattern, r.pattern)
    {
      var i :| 0 <= i < k && SortedRules[..k][i] == r;
      assert r == SortedRules[i];
      PhraseRulesIndependent(r, rule);
    }
  }

  /** No later key can begin inside a phrase's replacement. */
  lemma PhraseBeforeShorter(k: nat)
    requires k < 5
    ensures forall r :: r in SortedRules[k + 1..] ==> |r.pattern| > 0 && Inert(SortedRules[k].replacement, r.pattern)
  {
    PhraseBeforePhrases(k);
    PhraseBeforeShortKeys(k);
    assert SortedRules[k + 1..] == SortedRules[k + 1..5] + SortedRules[5..];
  }

  lemma PhraseBeforePhrases(k: nat)
    requires k < 5
    ensures forall r :: r in SortedRules[k + 1..5] ==> |r.pattern| > 0 && Inert(SortedRules[k].replacement, r.pattern)
  {
    var rule := SortedRules[k];
    SortedPhraseRules();
    SortedPhraseRulesDistinct();
    forall r | r in SortedRules[k + 1..5]
      ensures |r.pattern| > 0 && Inert(rule.replacement, r.pattern)
    {
      var i :| 0 <= i < 5 - (k + 1) && SortedRules[k + 1..5][i] == r;
      assert r == SortedRules[k + 1 + i];
      PhraseRulesIndependent(rule, r);
    }
  }

  lemma PhraseBeforeShortKeys(k: nat)
    requires k < 5
    ensures forall r :: r in SortedRules[5..] ==> |r.pattern| > 0 && Inert(SortedRules[k].replacement, r.pattern)
  {
    var rule := SortedRules[k];
    SortedPhraseRules();
    var w := PhraseReplacement(rule);
    DnfPhraseAvoidsApt(w);
    ShortKeys();
    InertLonger(rule.replacement, "sudo apt", SortedRules[5].pattern);
    InertLonger(rule.replacement, "sudo apt", SortedRules[6].pattern);
    InertLonger(rule.replacement, "apt", SortedRules[7].pattern);
    InertLonger(rule.replacement, "apt", SortedRules[8].pattern);
    assert SortedRules[5..] == [SortedRules[5], SortedRules[6], SortedRules[7], SortedRules[8]];
  }

  /**
   * A line that starts with one of the five phrases: the phrase is
   * replaced once, and the rest of the line is converted on its own.
   */
  lemma ConvertPhrase(k: nat, t: string)
    requires k < 5
    ensures Convert(SortedRules[k].pattern + t) == SortedRules[k].replacement + Convert(t)
  {
    assert SortedRules == SortedRules[..k] + [SortedRules[k]] + SortedRules[k + 1..];
    PhraseAfterLonger(k);
    PhraseBeforeShorter(k);
    ApplyThrough(t, SortedRules[..k], SortedRules[k], SortedRules[k + 1..]);
  }

  /** A line starting with "sudo apt-get" gets "sudo dnf" in its place. */
  lemma ConvertSudoAptGet(t: string)
    ensures Convert("sudo apt-get" + t) == "sudo dnf" + Convert(t)
  {
    var rule := SortedRules[5];
    assert rule == Rule("sudo apt-get", "sudo dnf");
    assert SortedRules == SortedRules[..5] + [rule] + SortedRules[6..];
    SudoAptGetAfterPhrases();
    SudoDnfBeforeShortKeys();
    ApplyThrough(t, SortedRules[..5], rule, SortedRules[6..]);
  }

  lemma AptGetAvoidsAddApt()
    ensures Inert("apt-get", AddAptRepository)
  {
    InertJoin("apt-get", 'a', "pt-get", "", AddAptRepository);
  }

  lemma SudoAptGetAvoidsAddApt()
    ensures Inert("sudo apt-get", AddAptRepository)
  {
    AptGetAvoidsAddApt();
    InertJoin("sudo apt-get", 's', "udo ", "apt-get", AddAptRepository);
  }

  lemma SudoAptGetAvoidsSudoPhrase(w: string)
    ensures Inert("sudo apt-get", SudoRule(w).pattern)
  {
    SudoAptGetAvoidsSudoApt();
    InertLonger("sudo apt-get", SudoApt, SudoRule(w).pattern);
  }

  lemma SudoAptGetAfterPhrases()
    ensures forall r :: r in SortedRules[..5] ==> |r.pattern| > 0 && Inert("sudo apt-get", r.pattern)
  {
    SortedPhraseRules();
    SudoAptGetAvoidsAddApt();
    SudoAptGetAvoidsSudoPhrase("autoremove");
    SudoAptGetAvoidsSudoPhrase("upgrade");
    SudoAptGetAvoidsSudoPhrase("install");
    SudoAptGetAvoidsSudoPhrase("update");
    assert SortedRules[..5] == [SortedRules[0], SortedRules[1], SortedRules[2], SortedRules[3], SortedRules[4]];
  }

  lemma SudoDnfAvoidsSudoAptKey()
    ensures Inert("sudo dnf", "sudo apt")
  {
    InertJoin("sudo dnf", 's', "udo dnf", "", "sudo apt");
  }

  lemma SudoDnfAvoidsAptKeys()
    ensures Inert("sudo dnf", "apt") && Inert("sudo dnf", "apt-get")
  {
    InertNoHead("sudo dnf", "apt");
    InertLonger("sudo dnf", "apt", "apt-get");
  }

  lemma SudoDnfBeforeShortKeys()
    ensures forall r :: r in SortedRules[6..] ==> |r.pattern| > 0 && Inert("sudo dnf", r.pattern)
  {
    SudoDnfAvoidsSudoAptKey();
    SudoDnfAvoidsAptKeys();
    LastKeys();
  }

  lemma LastKeys()
    ensures SortedRules[6..] == [Rule("sudo apt", "sudo dnf"), Rule("apt-get", "dnf"), Rule("apt", "dnf")]
  {
  }

  /** A line starting with the word "apt" gets "dnf" in its place. */
  lemma ConvertApt(t: string)
    ensures Convert("apt " + t) == "dnf " + Convert(t)
  {
    var front := SortedRules[..8];
    AptWordAvoidsLongerKeys();
    ApplyInertPrefix("apt ", t, front);
    AptWordReplaced(Apply(t, front));
  }

  lemma AptWordReplaced(u: string)
    ensures ReplaceAll("apt " + u, "apt", "dnf") == "dnf " + ReplaceAll(u, "apt", "dnf")
  {
    assert "apt " + u == "apt" + (" " + u);
    ReplaceAllLeading("apt", " " + u, "dnf");
    InertNoHead(" ", "apt");
    ReplaceAllInertStart(" ", u, "apt", "dnf");
  }

  lemma AptWordAvoidsSudoPhrase(w: string)
    ensures Inert("apt ", SudoRule(w).pattern)
  {
    InertNoHead("apt ", SudoApt);
    InertLonger("apt ", SudoApt, SudoRule(w).pattern);
  }

  lemma AptWordAvoidsAddApt()
    ensures Inert("apt ", AddAptRepository)
  {
    InertJoin("apt ", 'a', "pt ", "", AddAptRepository);
  }

  lemma AptWordAvoidsShortKeys()
    ensures Inert("apt ", "sudo apt-get") && Inert("apt ", "sudo apt") && Inert("apt ", "apt-get")
  {
    InertNoHead("apt ", "sudo apt-get");
    InertNoHead("apt ", "sudo apt");
    InertJoin("apt ", 'a', "pt ", "", "apt-get");
  }

  lemma AptWordAvoidsLongerKeys()
    ensures forall r :: r in SortedRules[..8] ==> |r.pattern| > 0 && Inert("apt ", r.pattern)
  {
    SortedPhraseRules();
    AptWordAvoidsAddApt();
    AptWordAvoidsSudoPhrase("autoremove");
    AptWordAvoidsSudoPhrase("upgrade");
    AptWordAvoidsSudoPhrase("install");
    AptWordAvoidsSudoPhrase("update");
    AptWordAvoidsShortKeys();
    assert SortedRules[..8] == SortedRules[..5] + [Rule("sudo apt-get", "sudo dnf"), Rule("sudo apt", "sudo dnf"), Rule("apt-get", "dnf")];
    assert SortedRules[..5] == [SortedRules[0], SortedRules[1], SortedRules[2], SortedRules[3], SortedRules[4]];
  }

  // ---------------------------------------------------------------
  // Whole scripts
  // ---------------------------------------------------------------

  /** Lines joined with line breaks, as the text of a script. */
  function JoinLines(lines: seq<string>): string
  {
    if |lines| == 0 then ""
    else if |lines| == 1 then lines[0]
    else lines[0] + "\n" + JoinLines(lines[1..])
  }

  function ConvertEach(lines: seq<string>): (converted: seq<string>)
    ensures |converted| == |lines|
  {
    seq(|lines|, i requires 0 <= i < |lines| => Convert(lines[i]))
  }

  lemma ConvertEmpty()
    ensures Convert("") == ""
  {
    ConvertUnchangedIff("");
  }

  /** A script is converted line by line. */
  lemma {:induction false} ConvertJoined(lines: seq<string>)
    ensures Convert(JoinLines(lines)) == JoinLines(ConvertEach(lines))
    decreases |lines|
  {
    if |lines| == 0 {
      ConvertEmpty();
    } else if |lines| > 1 {
      ConvertLines(lines[0], JoinLines(lines[1..]));
      ConvertJoined(lines[1..]);
      assert ConvertEach(lines)[1..] == ConvertEach(lines[1..]);
    }
  }

  /** A line in which no "apt" can begin is left as it is. */
  lemma UnchangedLine(x: string)
    requires Inert(x, "apt")
    ensures Convert(x) == x
  {
    NotContainsAfterInert(x, "", "apt");
    assert x + "" == x;
    ConvertUnchangedIff(x);
  }

  /** An "a" not followed by "p" cannot begin an "apt". */
  lemma InertAfterA(x: string, y: string)
    requires 'a' !in x && |x| > 0 && x[0] != 'p' && Inert(y, "apt")
    ensures Inert("a" + x + y, "apt")
  {
    InertJoin("a" + x + y, 'a', x, y, "apt");
  }

  lemma InertWithoutA(n: string)
    requires 'a' !in n
    ensures Inert(n, "apt")
  {
    InertNoHead(n, "apt");
  }

  /** The literal texts of the five phrase rules. */
  lemma PhraseLiterals()
    ensures SortedRules[0].pattern == "sudo apt autoremove" && SortedRules[0].replacement == "sudo dnf autoremove"
    ensures SortedRules[1].pattern == "add-apt-repository"
    ensures SortedRules[1].replacement == "sudo dnf config-manager --add-repo"
    ensures SortedRules[2].pattern == "sudo apt upgrade" && SortedRules[2].replacement == "sudo dnf upgrade"
    ensures SortedRules[3].pattern == "sudo apt install" && SortedRules[3].replacement == "sudo dnf install"
    ensures SortedRules[4].pattern == "sudo apt update" && SortedRules[4].replacement == "sudo dnf update"
  {
  }

  /** A line made of the `k`th phrase and a rest in which no "apt" can begin. */
  lemma PhraseLine(k: nat, t: string)
    requires k < 5 && Inert(t, "apt")
    ensures Convert(SortedRules[k].pattern + t) == SortedRules[k].replacement + t
  {
    ConvertPhrase(k, t);
    UnchangedLine(t);
  }

  lemma SudoAptGetLine(t: string)
    requires Inert(t, "apt")
    ensures Convert("sudo apt-get" + t) == "sudo dnf" + t
  {
    ConvertSudoAptGet(t);
    UnchangedLine(t);
  }

  lemma AptLine(t: string)
    requires Inert(t, "apt")
    ensures Convert("apt " + t) == "dnf " + t
  {
    ConvertApt(t);
    UnchangedLine(t);
  }

  /** "sudo apt <w>" alone on a line, for each of the four words. */
  lemma SudoPhraseLine(k: nat)
    requires k < 5 && k != 1
    ensures Convert(SortedRules[k].pattern) == SortedRules[k].replacement
  {
    ConvertPhrase(k, "");
    ConvertEmpty();
    assert SortedRules[k].pattern + "" == SortedRules[k].pattern;
    assert SortedRules[k].replacement + "" == SortedRules[k].replacement;
  }

  lemma InstallNginxRestAvoidsApt()
    ensures Inert(InstallNginxRest, "apt")
  {
    InertWithoutA(" nginx");
  }

  lemma InstallNginxLine()
    ensures Convert(InstallNginxCommand) == InstallNginxConverted
  {
    InstallNginxRestAvoidsApt();
    PhraseLiterals();
    PhraseLine(3, InstallNginxRest);
  }

  lemma AddRepositoryRestAvoidsApt()
    ensures Inert(AddRepositoryRest, "apt")
  {
    AddRepositoryRestPieces();
    InertAfterA(":some/repo", "");
    InertWithoutA(" pp");
    InertConcat(" pp", "a:some/repo", "apt");
  }

  lemma AddRepositoryLine()
    ensures Convert(AddRepositoryCommand) == AddRepositoryConverted
  {
    AddRepositoryRestAvoidsApt();
    PhraseLiterals();
    PhraseLine(1, AddRepositoryRest);
  }

  lemma UpdateOptionRestAvoidsApt()
    ensures Inert(UpdateOptionRest, "apt")
  {
    UpdateOptionRestPieces();
    InertAfterA("te -y", "");
    InertWithoutA(" upd");
    InertConcat(" upd", "ate -y", "apt");
  }

  lemma UpdateOptionLine()
    ensures Convert(UpdateOptionCommand) == UpdateOptionConverted
  {
    UpdateOptionRestAvoidsApt();
    SudoAptGetLine(UpdateOptionRest);
  }

  lemma InstallOptionsRestAvoidsApt()
    ensures Inert(InstallOptionsRest, "apt")
  {
    InstallOptionsRestPieces();
    InertAfterA("ll-recommends nginx", "");
    InertWithoutA(" -y --no-inst");
    InertConcat(" -y --no-inst", "all-recommends nginx", "apt");
  }

  lemma InstallOptionsLine()
    ensures Convert(InstallOptionsCommand) == InstallOptionsConverted
  {
    InstallOptionsRestAvoidsApt();
    PhraseLiterals();
    PhraseLine(3, InstallOptionsRest);
  }

  lemma AptListRestAvoidsApt()
    ensures Inert(AptListRest, "apt")
  {
    AptListRestPieces();
    InertAfterA("lled", "");
    InertWithoutA("list --inst");
    InertConcat("list --inst", "alled", "apt");
  }

  lemma AptListLine()
    ensures Convert(AptListCommand) == AptListConverted
  {
    AptListRestAvoidsApt();
    AptLine(AptListRest);
  }

  lemma DockerRestAvoidsApt()
    ensures Inert(DockerRest, "apt")
  {
    DockerRestPieces();
    InertAfterA("ll -y docker-ce docker-ce-cli", "");
    InertWithoutA(" inst");
    InertConcat(" inst", "all -y docker-ce docker-ce-cli", "apt");
  }

  lemma DockerLine()
    ensures Convert(DockerCommand) == DockerConverted
  {
    DockerRestAvoidsApt();
    SudoAptGetLine(DockerRest);
  }

  lemma InstallPackagesRestAvoidsApt()
    ensures Inert(InstallPackagesRest, "apt")
  {
    InstallPackagesRestPieces();
    InertAfterA("ge2", "");
    InertAfterA("ck", ("a" + "ge2" + ""));
    InertAfterA("ge1 p", ("a" + "ck" + ("a" + "ge2" + "")));
    InertAfterA("ck", ("a" + "ge1 p" + ("a" + "ck" + ("a" + "ge2" + ""))));
    InertWithoutA(" p");
    InertConcat(" p", "ackage1 package2", "apt");
  }

  lemma InstallPackagesLine()
    ensures Convert(InstallPackagesCommand) == InstallPackagesConverted
  {
    InstallPackagesRestAvoidsApt();
    PhraseLiterals();
    PhraseLine(3, InstallPackagesRest);
  }

  lemma BashAvoidsApt()
    ensures Inert(BashText, "apt")
  {
    BashPieces();
    InertAfterA("sh", "");
    InertWithoutA("#!/bin/b");
    InertConcat("#!/bin/b", "ash", "apt");
  }

  lemma BashLine()
    ensures Convert(BashText) == BashText
  {
    BashAvoidsApt();
    UnchangedLine(BashText);
  }

  lemma EchoAvoidsApt()
    ensures Inert(EchoText, "apt")
  {
    InertWithoutA("echo \"Hello World\"");
  }

  lemma EchoLine()
    ensures Convert(EchoText) == EchoText
  {
    EchoAvoidsApt();
    UnchangedLine(EchoText);
  }

  lemma WgetAvoidsApt()
    ensures Inert(WgetText, "apt")
  {
    WgetPieces();
    InertAfterA("mple.com/file", "");
    InertWithoutA("wget https://ex");
    InertConcat("wget https://ex", "ample.com/file", "apt");
  }

  lemma WgetLine()
    ensures Convert(WgetText) == WgetText
  {
    WgetAvoidsApt();
    UnchangedLine(WgetText);
  }

  lemma CommentAvoidsApt()
    ensures Inert(CommentText, "apt")
  {
    CommentPieces();
    InertAfterA("te system", "");
    InertWithoutA("# Upd");
    InertConcat("# Upd", "ate system", "apt");
  }

  lemma CommentLine()
    ensures Convert(CommentText) == CommentText
  {
    CommentAvoidsApt();
    UnchangedLine(CommentText);
  }

  lemma EchoInstallingAvoidsApt()
    ensures Inert(EchoInstallingText, "apt")
  {
    EchoInstallingPieces();
    InertAfterA("ges...\"", "");
    InertAfterA("ck", ("a" + "ges...\"" + ""));
    InertAfterA("lling p", ("a" + "ck" + ("a" + "ges...\"" + "")));
    InertWithoutA("echo \"Inst");
    InertConcat("echo \"Inst", "alling packages...\"", "apt");
  }

  lemma EchoInstallingLine()
    ensures Convert(EchoInstallingText) == EchoInstallingText
  {
    EchoInstallingAvoidsApt();
    UnchangedLine(EchoInstallingText);
  }

  lemma OtherCommentAvoidsApt()
    ensures Inert(OtherCommentText, "apt")
  {
    OtherCommentPieces();
    InertAfterA("nds", "");
    InertWithoutA("# Some other comm");
    InertConcat("# Some other comm", "ands", "apt");
  }

  lemma OtherCommentLine()
    ensures Convert(OtherCommentText) == OtherCommentText
  {
    OtherCommentAvoidsApt();
    UnchangedLine(OtherCommentText);
  }

  /** "ls -la": the last "a" has nothing after it on the line. */
  lemma ListingLine()
    ensures Convert(ListingText) == ListingText
  {
    InertWithoutA("ls -l");
    NotContainsAfterInert("ls -l", "a", "apt");
    ConvertUnchangedIff(ListingText);
  }

  // ---------------------------------------------------------------
  // The test table of the converter
  // ---------------------------------------------------------------

  /** Each basic command becomes its Fedora form. */
  lemma BasicCommands()
    ensures Convert(JoinLines(BasicCommandsScript)) == JoinLines(BasicCommandsConverted)
  {
    ConvertJoined(BasicCommandsScript);
    BashLine();
    SudoPhraseLine(4);
    InstallNginxLine();
    SudoPhraseLine(2);
    AddRepositoryLine();
    SudoPhraseLine(0);
    PhraseLiterals();
    assert ConvertEach(BasicCommandsScript) == BasicCommandsConverted;
  }

  /** Options after a command are kept; "apt-get" and a bare "apt" are rewritten too. */
  lemma CommandsWithOptions()
    ensures Convert(JoinLines(OptionsScript)) == JoinLines(OptionsConverted)
  {
    ConvertJoined(OptionsScript);
    BashLine();
    UpdateOptionLine();
    InstallOptionsLine();
    AptListLine();
    DockerLine();
    assert ConvertEach(OptionsScript) == OptionsConverted;
  }

  /** Lines without an Ubuntu command are kept as they are among converted ones. */
  lemma MixedContent()
    ensures Convert(JoinLines(MixedScript)) == JoinLines(MixedConverted)
  {
    ConvertJoined(MixedScript);
    BashLine();
    CommentLine();
    SudoPhraseLine(4);
    EchoInstallingLine();
    InstallPackagesLine();
    OtherCommentLine();
    ListingLine();
    WgetLine();
    SudoPhraseLine(0);
    PhraseLiterals();
    assert ConvertEach(MixedScript) == MixedConverted;
  }

  /** A script without Ubuntu commands is left as it is. */
  lemma NoUbuntuCommands()
    ensures Convert(JoinLines(PlainScript)) == JoinLines(PlainScript)
  {
    ConvertJoined(PlainScript);
    BashLine();
    EchoLine();
    ListingLine();
    WgetLine();
    assert ConvertEach(PlainScript) == PlainScript;
  }
}
