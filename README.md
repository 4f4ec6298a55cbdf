# Ubuntu-to-Fedora converter: a Dafny model

The program converts the shell scripts of a cloned repository so that they
run on Fedora. It has two parts:

- **A terminal selection screen** (`cmd/tui.go`). The user dismisses a
  welcome banner, moves a cursor over the list of scripts, and toggles
  entries with space. Enter confirms a non-empty selection, which runs the
  conversion. `q` or `ctrl+c` quits.
- **The conversion** (`pkg/converter/converter.go`). It walks the
  directory tree. In every regular `.sh` file it replaces Ubuntu package
  commands with their Fedora equivalents, using a fixed nine-entry table.
  The keys are sorted longest first, and each is applied as one full
  `strings.ReplaceAll` pass. A file is written back only if its text
  changed. The first access, read or write error stops the walk and is
  returned wrapped with the root directory.

An earlier revision of the conversion, `ubuntu-to-fedora.go`, is modelled
beside it. It applies a five-entry table in Go map order.

The model is organised in these modules:

| module | file | contents |
|---|---|---|
| `Maybe` | `option.dfy` | an `Option` type |
| `Text` | `text.dfy` | Go's `HasPrefix`, `HasSuffix`, `Contains` and `ReplaceAll` on `seq<char>`, with the facts about them used below |
| `Rewrite` | `rewrite.dfy` | a table applied as a sequence of `ReplaceAll` passes (`Apply`); a simultaneous left-to-right scan (`Scan`); when the two agree, and so when the order of the passes does not matter |
| `Commands` | `commands.dfy` | the phrase rules (`sudo apt <word>` and `add-apt-repository`) that both tables share, and why they do not interfere with each other |
| `Files` | `files.dfy` | the directory walk that both revisions share. The file system is a sequence of entries in walk order; each entry says whether it can be accessed, read and written. The conversion is a parameter. |
| `Converter` | `converter.dfy` | `replaceCommandsInFile` and `ReplaceUbuntuWithFedora` of `pkg/converter` as methods: key collection, the in-place exchange sort over an `array`, the replace-all loop, the write-on-change step and the walk |
| `Scripts`, `ConverterCases` | `scripts.dfy`, `converter_cases.dfy` | the test scripts of `pkg/converter/converter_test.go` and the line-by-line proofs of their expected output |
| `LegacyConverter` | `legacy.dfy` | the five-rule revision: the map-order loop as a nondeterministic choice, the write-on-change step and the walk |
| `Tui` | `tui.dfy` | the screen's state. `Step` is the pure transition; class `Model` has the Go fields, an `Update` method proved equal to `Step`, and a `View` method that builds the visible rows in a loop |
| `TuiLaws` | `tui_laws.dfy` | what the transitions and the screen promise |

Go's map iteration order is unspecified. Each place the source ranges over
a map is nondeterministic in the model. `Converter.CollectKeys` picks any
remaining key with `:|`. `LegacyConverter.ReplaceCommandsInFile` picks
any remaining rule, and a ghost sequence records the order it picked.

## Model

| member | source | states |
|---|---|---|
| `Converter.CollectKeys` | pkg/converter/converter.go:94-97 | the collected keys are exactly the table's keys, each once, in whatever order the map yields them |
| `Converter.SortByLength` | pkg/converter/converter.go:99-105 | after the exchange sort the array is a permutation of its old contents, in non-increasing length order |
| `Converter.ApplyInOrder` | pkg/converter/converter.go:107-110 | the result is the text after one full replace-all pass per key, in array order, each key replaced by its table value |
| `Converter.ReplaceCommandsInFile` | pkg/converter/converter.go:71-123 | the outcome for a file is the specification `ProcessFile` with the conversion `Convert`: a read error, no write when the text is unchanged, a write error, or the rewritten text |
| `Converter.ReplaceUbuntuWithFedora` | pkg/converter/converter.go:48-68 | the files written and the error returned are those of the walk specification `Walk`; the error is wrapped with the root directory |
| `Converter.LongestFirstOrders` | pkg/converter/converter.go:94-105 | a longest-first ordering of the nine keys is one of exactly two: the equal-length `sudo apt upgrade` and `sudo apt install` in either order |
| `Converter.TieIrrelevant` | pkg/converter/converter.go:99-105 | the two orders of the tied keys convert every text the same way |
| `Converter.LongestFirstConverts` | pkg/converter/converter.go:94-110 | whatever order the map yields, applying the sorted keys gives the same text, `Convert(s)` |
| `Converter.NoAptNoKey` | pkg/converter/converter.go:80-90 | every key contains `apt`: a text without `apt` contains no key |
| `Converter.ConvertRemovesApt` | pkg/converter/converter.go:80-110 | after a pass the text contains no `apt`: the last rule maps `apt` to `dnf`, which cannot form a new one |
| `Converter.ConvertUnchangedIff` | pkg/converter/converter.go:112-120 | a pass leaves the text unchanged exactly when it contains no `apt` |
| `Converter.ConvertIdempotent` | pkg/converter/converter.go:80-110 | a second pass changes nothing |
| `Converter.SecondPassIdle` | pkg/converter/converter.go:48-68 | after a walk that succeeded, a second walk over the rewritten tree writes nothing and fails nowhere |
| `Converter.ScriptOutcome` | pkg/converter/converter.go:72-120 | a readable script without `apt` is left unwritten; with `apt` it is rewritten, or yields a write error when read-only; an unreadable one yields a read error |
| `ConverterCases.SortedPhraseRules` | pkg/converter/converter.go:80-90 | the five longest keys, in sorted order, are the phrase rules `autoremove`, `add-apt-repository`, `upgrade`, `install`, `update` |
| `ConverterCases.ConvertPhrase` | pkg/converter/converter.go:81-85 | a text starting with one of the five phrases becomes its Fedora form followed by the converted rest |
| `ConverterCases.ConvertSudoAptGet` | pkg/converter/converter.go:86 | a text starting with `sudo apt-get` becomes `sudo dnf` followed by the converted rest (`sudo apt-get install -y docker-ce` becomes `sudo dnf install -y docker-ce`) |
| `ConverterCases.ConvertApt` | pkg/converter/converter.go:89 | `apt ` at the start becomes `dnf ` (`apt list` becomes `dnf list`) |
| `ConverterCases.ConvertLines` | pkg/converter/converter.go:107-110 | no key contains a newline, so a pass converts each line on its own |
| `ConverterCases.ConvertJoined` | pkg/converter/converter.go:107-110 | converting a script is converting each of its lines |
| `ConverterCases.BasicCommands` | pkg/converter/converter_test.go:110-123 | the basic test script becomes the expected Fedora script |
| `ConverterCases.CommandsWithOptions` | pkg/converter/converter_test.go:125-136 | commands with options and `sudo apt-get`, `apt list` become their expected forms |
| `ConverterCases.MixedContent` | pkg/converter/converter_test.go:138-157 | comments and other commands stay, Ubuntu commands are converted |
| `ConverterCases.NoUbuntuCommands` | pkg/converter/converter_test.go:159-168 | a script without Ubuntu commands is returned unchanged |
| `Files.WalkStopsAtFirstError` | pkg/converter/converter.go:49-64 | the walk fails with the error of the first failing entry, after the writes of the entries before it, which stay rewritten |
| `Files.WalkSucceeds` | pkg/converter/converter.go:49-61 | the walk succeeds exactly when no entry fails |
| `Files.WritesAreChangedScripts` | pkg/converter/converter.go:55-58 | every write is of an accessible, readable and writable `.sh` regular file whose converted text differs, with that text |
| `Files.ChangedScriptsAreWritten` | pkg/converter/converter.go:55-58 | after a successful walk every script whose text changes has been written with its converted text |
| `Files.NonScriptIgnored` | pkg/converter/converter.go:55 | an accessible entry that is not a regular `.sh` file has no effect on the walk |
| `Files.MissingRoot` | pkg/converter/converter_test.go:202-205 | a root that cannot be accessed gives no writes and the access error wrapped with the root |
| `Files.SecondWalkIdle` | pkg/converter/converter.go:112-120 | with an idempotent conversion, a second walk after a successful one writes nothing |
| `Text.ReplaceAllUnmatched` | pkg/converter/converter.go:109 | a replace-all of a pattern that does not occur leaves the text unchanged |
| `Text.ReplaceAllRemoves` | pkg/converter/converter.go:109 | when the pattern and replacement cannot overlap each other, no occurrence of the pattern survives a replace-all |
| `Rewrite.ApplyUnmatched` | pkg/converter/converter.go:107-110 | a table none of whose patterns occurs leaves the text unchanged |
| `Rewrite.ApplyIsScan` | ubuntu-to-fedora.go:89-92 | for pairwise independent rules, successive replace-all passes equal one simultaneous scan |
| `Rewrite.ApplyOrderIrrelevant` | ubuntu-to-fedora.go:89-92 | two orders of the same pairwise independent rules give the same text |
| `Rewrite.ScanChanges` | ubuntu-to-fedora.go:94-99 | a scan changes a text in which one of its patterns occurs, when no pattern overlaps its replacement |
| `LegacyConverter.ReplaceCommandsInFile` | ubuntu-to-fedora.go:72-105 | whatever order the map yields the five rules in, the outcome is `ProcessFile` with `LegacyConvert` |
| `LegacyConverter.ReplaceUbuntuWithFedora` | ubuntu-to-fedora.go:48-69 | the writes and the wrapped error are those of the walk specification with `LegacyConvert` |
| `LegacyConverter.LegacyTable` | ubuntu-to-fedora.go:81-87 | the table has exactly five distinct keys, and its rules are the five phrase rules |
| `LegacyConverter.AnyOrderConverts` | ubuntu-to-fedora.go:89-92 | every order of the five keys, each once, converts every text the same way |
| `LegacyConverter.LegacyKeepsSudoAptGet` | ubuntu-to-fedora.go:81-87 | `sudo apt-get` is not rewritten |
| `LegacyConverter.LegacyKeepsAptGet` | ubuntu-to-fedora.go:81-87 | `apt-get` is not rewritten |
| `LegacyConverter.LegacyKeepsApt` | ubuntu-to-fedora.go:81-87 | a bare `apt ` is not rewritten |
| `LegacyConverter.LegacyPhrase` | ubuntu-to-fedora.go:82-86 | each phrase at the start of a text becomes its Fedora form, followed by the converted rest |
| `LegacyConverter.LegacyChanges` | ubuntu-to-fedora.go:94-99 | a text containing any phrase is changed, and so written back |
| `LegacyConverter.LegacyUnchangedIff` | ubuntu-to-fedora.go:94-102 | the text is unchanged exactly when it contains none of the five phrases |
| `LegacyConverter.LegacyScriptOutcome` | ubuntu-to-fedora.go:94-102 | a readable script without any phrase is left unwritten; with one it is rewritten, or yields a write error when read-only |
| `Tui.VisibleRange` | cmd/tui.go:198-206 | the visible rows run from the window start to the window end; a window that runs past the list ends at the list's end; a window size of 0 means the whole list |
| `Tui.RowText` | cmd/tui.go:210-220 | a row is the cursor mark, the check box `[ ]` between single spaces, and the name, with `>` and `x` exactly when pointed at and selected |
| `Tui.Model.constructor` | cmd/tui.go:132-166 | the initial fields: window size 10, the welcome shown, nothing selected, and the clone or discovery error if there was one |
| `Tui.Model.Update` | cmd/tui.go:66-129 | the fields after one message, and whether the quit command is returned, are those of the pure transition `Step` |
| `Tui.Model.CursorUp` | cmd/tui.go:92-98 | the cursor moves up one unless at the top, and the window scrolls up when the cursor leaves it |
| `Tui.Model.CursorDown` | cmd/tui.go:99-105 | the cursor moves down one unless on the last item, and the window scrolls down when the cursor leaves it |
| `Tui.Model.ToggleSelected` | cmd/tui.go:106-112 | the cursor's index enters or leaves the selection |
| `Tui.Model.View` | cmd/tui.go:169-228 | the screen is the goodbye message, the error, the welcome banner, or the rows of the window built by the loop |
| `TuiLaws.WelcomeSwallows` | cmd/tui.go:67-73 | while the welcome shows, a key (even `q`) only dismisses it, other messages change nothing, and nothing quits |
| `TuiLaws.QuitIff` | cmd/tui.go:87-124 | the quit command is returned exactly for `q`/`ctrl+c`, and for enter with a non-empty selection |
| `TuiLaws.QuitKeepsState` | cmd/tui.go:89-91 | quitting sets `quitting` and changes no other field |
| `TuiLaws.OnlyQuitKeysQuit` | cmd/tui.go:89-91 | only a quit key ever sets `quitting` |
| `TuiLaws.InitialValid` | cmd/tui.go:132-166 | the initial state has the cursor on the list, the welcome shown, an empty selection, window size 10 and the repository directory `./omakub` |
| `TuiLaws.StepKeepsValid` | cmd/tui.go:92-105 | every message keeps the cursor on the list (0 for an empty list) and the window start between 0 and the cursor |
| `TuiLaws.RunKeepsValid` | cmd/tui.go:66-129 | every state reached from a valid one by any run of messages is valid and can be drawn |
| `TuiLaws.UpMoves` | cmd/tui.go:92-98 | up moves the cursor by exactly one, and at the top it only sets the help line |
| `TuiLaws.DownMoves` | cmd/tui.go:99-105 | down moves the cursor by exactly one, and on the last item or an empty list it only sets the help line |
| `TuiLaws.WindowFollowsCursor` | cmd/tui.go:95-104 | a window of at least one row that holds the cursor still holds it after any message but a resize, and shifts by at most one |
| `TuiLaws.Downs` | cmd/tui.go:99-105 | after n downs the cursor is at min(cursor+n, last) and the window scrolls just enough to show it as its last row |
| `TuiLaws.Ups` | cmd/tui.go:92-98 | after n ups the cursor is at max(cursor-n, 0) and the window scrolls just enough to show it as its first row |
| `TuiLaws.TenDownsOfFive` | cmd/tui.go:99-105 | five items, a window of three, ten downs: the cursor is on item 4 and the window starts at 2 |
| `TuiLaws.ToggleFlips` | cmd/tui.go:106-112 | space flips the membership of the cursor's index and of no other, and changes nothing else but the help line |
| `TuiLaws.ToggleTwice` | cmd/tui.go:106-112 | two spaces restore the selection exactly |
| `TuiLaws.ToggleEmptyList` | cmd/tui.go:106-112 | on an empty list, space selects index 0, which is not on the list |
| `TuiLaws.EnterWithoutSelection` | cmd/tui.go:113-123 | enter with nothing selected returns the state unchanged and does not quit |
| `TuiLaws.EnterWithSelection` | cmd/tui.go:113-121 | enter with a selection returns the quit command, records the conversion's error and nothing else, and leaves the selection as it was and `quitting` unset |
| `TuiLaws.Resize` | cmd/tui.go:76-85 | a resize sets the window size to the height minus 9, capped at the list's length and not clamped at 0, and moves neither cursor nor window start |
| `TuiLaws.ResizeCanHideCursor` | cmd/tui.go:76-85 | shrinking the window does not move it to the cursor, so the cursor can end up below the last visible row |
| `TuiLaws.OtherMessages` | cmd/tui.go:127-128 | any other key, or a message that is neither a key nor a resize, only sets the help line |
| `TuiLaws.ViewPrecedence` | cmd/tui.go:170-178 | the goodbye message comes before an error, an error before the welcome, and the list is shown only without all three |
| `TuiLaws.RowMarks` | cmd/tui.go:208-228 | row j of the list shows item windowStart+j, with `>` exactly when the cursor is on it and `x` exactly when it is selected |
| `TuiLaws.CursorVisible` | cmd/tui.go:198-206 | with the cursor inside a window of at least one row, its item is among the visible rows |
| `TuiLaws.NegativeWindowDrawsNothing` | cmd/tui.go:202-206 | a negative window size, which a resize to fewer than nine lines gives, draws no rows |
| `TuiLaws.ZeroWindowShowsAll` | cmd/tui.go:198-200 | a window size of 0 shows the whole list |
| `TuiLaws.SelectionView` | cmd/tui_test.go:335-351 | two items, the first selected and the cursor on the second, are drawn as `  [x] Chrome` and `> [ ] VSCode` |

## Left out

- `CloneOmakubRepo` (pkg/converter/converter.go:15-45, ubuntu-to-fedora.go:15-45): git, the network and the emptiness check of the target directory. Its outcome is an input to the initial state (`Tui.Setup`).
- Real file-system access and logging. `filepath.Walk`, `os.ReadFile` and `os.WriteFile` are replaced by the sequence of entries the walk visits, each saying whether it can be accessed, read and written; the `fmt.Printf` lines are not modelled. The walk's own order (lexical) is the order of that sequence.
- Files left half-written by a failing `os.WriteFile`: a write error in the model writes nothing to that file.
- Error texts are not modelled: an error is the kind of failure and the path it names, wrapped with the root directory where the source wraps it.
- The body of `runConversion` (cmd/tui.go:244-252): `Update` takes its result as a parameter (`None` for success, the error text otherwise).
- Styling and the rest of `View`'s text: the lipgloss styles, the banner, the title and the help lines. `View` returns which screen to show, and for the list screen its rows.
- `Init`'s `tea.Batch` command, `tea.NewProgram` and the `main` functions (cmd/tui.go:62-64, cmd/tui.go:254-261, main.go, .hide/main.go).
- The source of `GetAvailableApps` and of the `AppScript` type is not part of this model. Its result is an input to the initial state (`Tui.Setup`), and an `AppScript` is a record with a name and a file path.
- Aliasing of the Go `selected` map between copies of the value-receiver `Model`: the selection is a set owned by the state.
- The scripts under `tests/` do not compile and assert nothing, and are not part of this model.
- Go's `len` counts bytes and Dafny's `|s|` counts characters. Every key and replacement in both tables is ASCII, so the two agree wherever lengths are compared.
- Go panics on a negative window start in `View`. `Tui.Model.View` requires `Drawable` instead; `TuiLaws.RunKeepsValid` shows that every state reached from the initial one is drawable.

## Notes

- `ubuntu-to-fedora.go` starts with `package ubuntu-to-fedora`, which is not a valid Go package name. It is modelled as a superseded revision of `pkg/converter`.
- Hidden files such as `.x.sh` are processed. The filter looks only at the regular-file bit and the `.sh` suffix.
- A resize does not clamp the window size at 0. A terminal shorter than nine lines gives a negative window size (`TuiLaws.Resize`), and then no rows are drawn (`TuiLaws.NegativeWindowDrawsNothing`).
- After a resize the window is not moved to the cursor (`TuiLaws.ResizeCanHideCursor`), so `TuiLaws.WindowFollowsCursor` excludes resizes.
- The tests and the source disagree in places. The model follows the source.
  - The "Normal view" test of cmd/tui_test.go expects the text "Which apps do you want to keep?". The source's title is a different sentence.
  - `TestModelInit` expects `Init` to return no command, but `Init` returns a batch of two commands.
  - The tests of `Update` leave the window size at 0. A "down" then also advances the window start; the tests only compare the cursor.
