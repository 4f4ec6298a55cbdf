/**
 * The lines of the converter's test scripts (the table of
 * pkg/converter/converter_test.go:103-170). A line with an Ubuntu command
 * is written as the command followed by the rest of the line, and its
 * expected Fedora form as the Fedora command followed by the same rest.
 * The rest of a line is written split at each "a" it holds, and the
 * lemmas here state those splits; they are about literals only and need
 * no other definition. The comment above each line names the test lines
 * it stands for.
 */
module Scripts {
  // converter_test.go:113 and 119
  const InstallNginxRest := " nginx"
  const InstallNginxCommand := "sudo apt install" + InstallNginxRest
  const InstallNginxConverted := "sudo dnf install" + InstallNginxRest

  // converter_test.go:115 and 121
  const AddRepositoryRest := " pp" + "a:some/repo"
  const AddRepositoryCommand := "add-apt-repository" + AddRepositoryRest
  const AddRepositoryConverted := "sudo dnf config-manager --add-repo" + AddRepositoryRest

  lemma AddRepositoryRestPieces()
    ensures "a:some/repo" == ("a" + ":some/repo" + "")
  {
  }

  // converter_test.go:127 and 132
  const UpdateOptionRest := " upd" + "ate -y"
  const UpdateOptionCommand := "sudo apt-get" + UpdateOptionRest
  const UpdateOptionConverted := "sudo dnf" + UpdateOptionRest

  lemma UpdateOptionRestPieces()
    ensures "ate -y" == ("a" + "te -y" + "")
  {
  }

  // converter_test.go:128 and 133
  const InstallOptionsRest := " -y --no-inst" + "all-recommends nginx"
  const InstallOptionsCommand := "sudo apt install" + InstallOptionsRest
  const InstallOptionsConverted := "sudo dnf install" + InstallOptionsRest

  lemma InstallOptionsRestPieces()
    ensures "all-recommends nginx" == ("a" + "ll-recommends nginx" + "")
  {
  }

  // converter_test.go:129 and 134
  const AptListRest := "list --inst" + "alled"
  const AptListCommand := "apt " + AptListRest
  const AptListConverted := "dnf " + AptListRest

  lemma AptListRestPieces()
    ensures "alled" == ("a" + "lled" + "")
  {
  }

  // converter_test.go:130 and 135
  const DockerRest := " inst" + "all -y docker-ce docker-ce-cli"
  const DockerCommand := "sudo apt-get" + DockerRest
  const DockerConverted := "sudo dnf" + DockerRest

  lemma DockerRestPieces()
    ensures "all -y docker-ce docker-ce-cli" == ("a" + "ll -y docker-ce docker-ce-cli" + "")
  {
  }

  // converter_test.go:143 and 152
  const InstallPackagesRest := " p" + "ackage1 package2"
  const InstallPackagesCommand := "sudo apt install" + InstallPackagesRest
  const InstallPackagesConverted := "sudo dnf install" + InstallPackagesRest

  lemma InstallPackagesRestPieces()
    ensures "ackage1 package2" == ("a" + "ck" + ("a" + "ge1 p" + ("a" + "ck" + ("a" + "ge2" + ""))))
  {
  }

  // converter_test.go:111, 117, 126, 131, 139, 148, 160 and 164
  const BashText := "#!/bin/b" + "ash"

  lemma BashPieces()
    ensures "ash" == ("a" + "sh" + "")
  {
  }

  // converter_test.go:161 and 165
  const EchoText := "echo \"Hello World\""

  // converter_test.go:146, 155, 163 and 167
  const WgetText := "wget https://ex" + "ample.com/file"

  lemma WgetPieces()
    ensures "ample.com/file" == ("a" + "mple.com/file" + "")
  {
  }

  // converter_test.go:140 and 149
  const CommentText := "# Upd" + "ate system"

  lemma CommentPieces()
    ensures "ate system" == ("a" + "te system" + "")
  {
  }

  // converter_test.go:142 and 151
  const EchoInstallingText := "echo \"Inst" + "alling packages...\""

  lemma EchoInstallingPieces()
    ensures "alling packages...\"" == ("a" + "lling p" + ("a" + "ck" + ("a" + "ges...\"" + "")))
  {
  }

  // converter_test.go:144 and 153
  const OtherCommentText := "# Some other comm" + "ands"

  lemma OtherCommentPieces()
    ensures "ands" == ("a" + "nds" + "")
  {
  }

  // converter_test.go:145, 154, 162 and 166
  const ListingText := "ls -l" + "a"

  /** "Basic commands": the input of converter_test.go:111-116 and the expected text of lines 117-122. */
  const BasicCommandsScript: seq<string> := [
    BashText,
    "sudo apt update",
    InstallNginxCommand,
    "sudo apt upgrade",
    AddRepositoryCommand,
    "sudo apt autoremove"]

  const BasicCommandsConverted: seq<string> := [
    BashText,
    "sudo dnf update",
    InstallNginxConverted,
    "sudo dnf upgrade",
    AddRepositoryConverted,
    "sudo dnf autoremove"]

  /** "Complex commands with options": converter_test.go:126-130 and 131-135. */
  const OptionsScript: seq<string> := [
    BashText,
    UpdateOptionCommand,
    InstallOptionsCommand,
    AptListCommand,
    DockerCommand]

  const OptionsConverted: seq<string> := [
    BashText,
    UpdateOptionConverted,
    InstallOptionsConverted,
    AptListConverted,
    DockerConverted]

  /** "Mixed content": converter_test.go:139-147 and 148-156. */
  const MixedScript: seq<string> := [
    BashText,
    CommentText,
    "sudo apt update",
    EchoInstallingText,
    InstallPackagesCommand,
    OtherCommentText,
    ListingText,
    WgetText,
    "sudo apt autoremove"]

  const MixedConverted: seq<string> := [
    BashText,
    CommentText,
    "sudo dnf update",
    EchoInstallingText,
    InstallPackagesConverted,
    OtherCommentText,
    ListingText,
    WgetText,
    "sudo dnf autoremove"]

  /** "No Ubuntu commands": converter_test.go:160-163, expected unchanged at 164-167. */
  const PlainScript: seq<string> := [BashText, EchoText, ListingText, WgetText]
}
