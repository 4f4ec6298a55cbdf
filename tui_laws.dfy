/**
 * What the transitions of the selection screen promise: the welcome
 * screen swallows the first message, only quitting and a confirmed
 * selection return the quit command, the cursor stays on the list and in
 * the window, the selection flips one index at a time, and the screen
 * shows the right rows with the cursor and check marks where they belong.
 */
module TuiLaws {
  import opened Maybe
  import opened Tui

  /** A run of messages, each with the same conversion outcome. */
  function Run(s: ModelState, msgs: seq<Msg>, conversion: Option<string>): ModelState
    decreases |msgs|
  {
    if |msgs| == 0 then s else Run(Step(s, msgs[0], conversion).0, msgs[1..], conversion)
  }

  /** The same message `n` times. */
  function Repeat(s: ModelState, msg: Msg, n: nat, conversion: Option<string>): ModelState
    decreases n
  {
    if n == 0 then s else Repeat(Step(s, msg, conversion).0, msg, n - 1, conversion)
  }

  function Min(a: int, b: int): int { if a < b then a else b }
  function Max(a: int, b: int): int { if a < b then b else a }

  // ---------------------------------------------------------------
  // The welcome screen and quitting
  // ---------------------------------------------------------------

  /** While the welcome shows, a key only dismisses it (even "q"), anything else changes nothing, and nothing quits. */
  lemma WelcomeSwallows(s: ModelState, msg: Msg, conversion: Option<string>)
    requires s.showWelcome
    ensures !Step(s, msg, conversion).1
    ensures Step(s, msg, conversion).0.(showWelcome := true) == s
    ensures Step(s, msg, conversion).0.showWelcome <==> !msg.Key?
  {
  }

  /** The quit command is returned exactly for "q"/"ctrl+c", and for enter with something selected, after the welcome. */
  lemma QuitIff(s: ModelState, msg: Msg, conversion: Option<string>)
    ensures Step(s, msg, conversion).1 <==>
              !s.showWelcome && msg.Key? && (IsQuit(msg.key) || (IsEnter(msg.key) && |s.selected| > 0))
  {
  }

  /** Quitting sets `quitting` and nothing else: cursor and selection stay. */
  lemma QuitKeepsState(s: ModelState, k: string, conversion: Option<string>)
    requires !s.showWelcome && IsQuit(k)
    ensures Step(s, Key(k), conversion).1
    ensures Step(s, Key(k), conversion).0.quitting
    ensures Step(s, Key(k), conversion).0.(quitting := s.quitting) == s
  {
  }

  /** Only a quit key ever sets `quitting`. */
  lemma OnlyQuitKeysQuit(s: ModelState, msg: Msg, conversion: Option<string>)
    requires !s.quitting && Step(s, msg, conversion).0.quitting
    ensures !s.showWelcome && msg.Key? && IsQuit(msg.key)
  {
  }

  // ---------------------------------------------------------------
  // The cursor and the window
  // ---------------------------------------------------------------

  /** The cursor is on the list (or 0 for an empty list) and the window starts at or before it. */
  lemma StepKeepsValid(s: ModelState, msg: Msg, conversion: Option<string>)
    requires Valid(s)
    ensures Valid(Step(s, msg, conversion).0)
  {
  }

  lemma InitialValid(setup: Setup)
    ensures Valid(Initial(setup)) && Initial(setup).showWelcome && Initial(setup).selected == {}
    ensures Initial(setup).windowSize == DefaultWindowSize && Initial(setup).repoDir == DefaultRepoDir
  {
  }

  /** Every state reached from a valid one is valid, and so can be drawn. */
  lemma {:induction false} RunKeepsValid(s: ModelState, msgs: seq<Msg>, conversion: Option<string>)
    requires Valid(s)
    ensures Valid(Run(s, msgs, conversion)) && Drawable(Run(s, msgs, conversion))
    decreases |msgs|
  {
    if |msgs| > 0 {
      StepKeepsValid(s, msgs[0], conversion);
      RunKeepsValid(Step(s, msgs[0], conversion).0, msgs[1..], conversion);
    }
  }

  /** Up moves the cursor by exactly one unless it is at the top, where it is a no-op. */
  lemma UpMoves(s: ModelState, k: string, conversion: Option<string>)
    requires !s.showWelcome && IsUp(k) && Valid(s)
    ensures s.cursor > 0 ==> Step(s, Key(k), conversion).0.cursor == s.cursor - 1
    ensures s.cursor == 0 ==> Step(s, Key(k), conversion).0 == s.(help := HelpText)
    ensures Step(s, Key(k), conversion).0.selected == s.selected
  {
  }

  /** Down moves the cursor by exactly one unless it is on the last item or the list is empty, where it is a no-op. */
  lemma DownMoves(s: ModelState, k: string, conversion: Option<string>)
    requires !s.showWelcome && IsDown(k) && Valid(s)
    ensures s.cursor < |s.choices| - 1 ==> Step(s, Key(k), conversion).0.cursor == s.cursor + 1
    ensures s.cursor >= |s.choices| - 1 ==> Step(s, Key(k), conversion).0 == s.(help := HelpText)
    ensures |s.choices| == 0 ==> Step(s, Key(k), conversion).0.cursor == 0
    ensures Step(s, Key(k), conversion).0.selected == s.selected
  {
  }

  /** The window within the cursor: a window of at least one row that holds the cursor still does after any message but a resize, shifted by at most one. */
  predicate CursorInWindow(s: ModelState)
  {
    s.windowSize >= 1 && s.windowStart <= s.cursor < s.windowStart + s.windowSize
  }

  lemma WindowFollowsCursor(s: ModelState, msg: Msg, conversion: Option<string>)
    requires Valid(s) && CursorInWindow(s) && !msg.WindowSize?
    ensures CursorInWindow(Step(s, msg, conversion).0)
    ensures Step(s, msg, conversion).0.windowSize == s.windowSize
    ensures -1 <= Step(s, msg, conversion).0.windowStart - s.windowStart <= 1
  {
  }

  /** `n` downs: the cursor stops on the last item and the window scrolls just enough to keep it as its last row. */
  lemma {:induction false} Downs(s: ModelState, n: nat, conversion: Option<string>)
    requires !s.showWelcome && Valid(s) && CursorInWindow(s) && s.cursor < |s.choices|
    ensures Repeat(s, Key("down"), n, conversion).cursor == Min(s.cursor + n, |s.choices| - 1)
    ensures Repeat(s, Key("down"), n, conversion).windowStart ==
              Max(s.windowStart, Min(s.cursor + n, |s.choices| - 1) - s.windowSize + 1)
    decreases n
  {
    if n > 0 {
      var t := Step(s, Key("down"), conversion).0;
      WindowFollowsCursor(s, Key("down"), conversion);
      StepKeepsValid(s, Key("down"), conversion);
      Downs(t, n - 1, conversion);
    }
  }

  /** `n` ups: the cursor stops on the first item and the window scrolls to keep it as its first row. */
  lemma {:induction false} Ups(s: ModelState, n: nat, conversion: Option<string>)
    requires !s.showWelcome && Valid(s) && CursorInWindow(s)
    ensures Repeat(s, Key("up"), n, conversion).cursor == Max(s.cursor - n, 0)
    ensures Repeat(s, Key("up"), n, conversion).windowStart == Min(s.windowStart, Max(s.cursor - n, 0))
    decreases n
  {
    if n > 0 {
      var t := Step(s, Key("up"), conversion).0;
      WindowFollowsCursor(s, Key("up"), conversion);
      StepKeepsValid(s, Key("up"), conversion);
      Ups(t, n - 1, conversion);
    }
  }

  /** Five items, a window of three, ten downs: the cursor is on the last item and the window starts at the third. */
  lemma TenDownsOfFive(apps: seq<AppScript>)
    requires |apps| == 5
    ensures Repeat(ModelState(apps, 0, {}, None, false, "", "", 0, 0, 0, 3, false), Key("down"), 10, None).cursor == 4
    ensures Repeat(ModelState(apps, 0, {}, None, false, "", "", 0, 0, 0, 3, false), Key("down"), 10, None).windowStart == 2
  {
    Downs(ModelState(apps, 0, {}, None, false, "", "", 0, 0, 0, 3, false), 10, None);
  }

  // ---------------------------------------------------------------
  // The selection
  // ---------------------------------------------------------------

  /** Space flips the membership of the cursor's index and of no other. */
  lemma ToggleFlips(s: ModelState, conversion: Option<string>)
    requires !s.showWelcome
    ensures forall i :: i in Step(s, Key(" "), conversion).0.selected <==> (i in s.selected <==> i != s.cursor)
    ensures Step(s, Key(" "), conversion).0.(selected := s.selected) == s.(help := HelpText)
  {
  }

  /** Two spaces restore the selection exactly. */
  lemma ToggleTwice(s: ModelState, conversion: Option<string>)
    requires !s.showWelcome
    ensures Step(Step(s, Key(" "), conversion).0, Key(" "), conversion).0 == s.(help := HelpText)
  {
    ToggleFlips(s, conversion);
    ToggleFlips(Step(s, Key(" "), conversion).0, conversion);
  }

  /** On an empty list, space selects index 0, which is not on the list. */
  lemma ToggleEmptyList(s: ModelState, conversion: Option<string>)
    requires !s.showWelcome && Valid(s) && |s.choices| == 0 && s.selected == {}
    ensures Step(s, Key(" "), conversion).0.selected == {0}
  {
  }

  /** Enter with nothing selected changes nothing and does not quit. */
  lemma EnterWithoutSelection(s: ModelState, conversion: Option<string>)
    requires !s.showWelcome && s.selected == {}
    ensures Step(s, Key("enter"), conversion) == (s, false)
  {
  }

  /** Enter with a selection runs the conversion, records only its error, and quits with the selection intact and `quitting` unset. */
  lemma EnterWithSelection(s: ModelState, conversion: Option<string>)
    requires !s.showWelcome && |s.selected| > 0 && !s.quitting
    ensures Step(s, Key("enter"), conversion).1
    ensures Step(s, Key("enter"), conversion).0.selected == s.selected
    ensures !Step(s, Key("enter"), conversion).0.quitting
    ensures conversion.None? ==> Step(s, Key("enter"), conversion).0 == s
    ensures conversion.Some? ==> Step(s, Key("enter"), conversion).0 == s.(err := conversion)
  {
  }

  // ---------------------------------------------------------------
  // Resizing and other messages
  // ---------------------------------------------------------------

  /** A resize leaves nine lines for header and footer, caps the window at the list, does not clamp it at 0, and moves neither cursor nor window start. */
  lemma Resize(s: ModelState, w: int, h: int, conversion: Option<string>)
    requires !s.showWelcome
    ensures var t := Step(s, WindowSize(w, h), conversion).0;
      t.windowSize == Min(h - 9, |s.choices|) &&
      t.width == w && t.height == h &&
      t.cursor == s.cursor && t.windowStart == s.windowStart && t.selected == s.selected
    ensures h < 9 ==> Step(s, WindowSize(w, h), conversion).0.windowSize < 0
  {
  }

  /** A resize does not move the window to the cursor: shrinking it can leave the cursor below the last visible row. */
  lemma ResizeCanHideCursor(apps: seq<AppScript>)
    requires |apps| == 20
    ensures var s := ModelState(apps, 8, {}, None, false, "", "", 0, 0, 0, 10, false);
      CursorInWindow(s) && !CursorInWindow(Step(s, WindowSize(80, 12), None).0)
  {
  }

  /** A key without an action of its own, or a message that is neither key nor resize, only sets the help line. */
  lemma OtherMessages(s: ModelState, msg: Msg, conversion: Option<string>)
    requires !s.showWelcome && (msg.Other? || (msg.Key? && !IsCommand(msg.key)))
    ensures Step(s, msg, conversion) == (s.(help := HelpText), false)
  {
  }

  // ---------------------------------------------------------------
  // The screen
  // ---------------------------------------------------------------

  /** The goodbye message comes before an error, and an error before everything else. */
  lemma ViewPrecedence(s: ModelState)
    requires Drawable(s)
    ensures s.quitting ==> ViewOf(s) == Message(GoodbyeText)
    ensures !s.quitting && s.err.Some? ==> ViewOf(s) == Message(ErrorText(s.err.value))
    ensures ViewOf(s).Listing? <==> !s.quitting && s.err.None? && !s.showWelcome
  {
  }

  /** In a list screen, row `j` shows item `windowStart + j`, marked with ">" exactly when the cursor is on it and "x" exactly when it is selected. */
  lemma RowMarks(s: ModelState)
    requires Drawable(s) && ViewOf(s).Listing?
    ensures |ViewOf(s).rows| == RowCount(s)
    ensures forall j :: 0 <= j < |ViewOf(s).rows| ==>
              0 <= s.windowStart + j < |s.choices| && |ViewOf(s).rows[j]| == 6 + |s.choices[s.windowStart + j].name| &&
              (ViewOf(s).rows[j][0] == '>' <==> s.cursor == s.windowStart + j) &&
              (ViewOf(s).rows[j][3] == 'x' <==> s.windowStart + j in s.selected) &&
              ViewOf(s).rows[j][6..] == s.choices[s.windowStart + j].name
  {
    var rows := ViewOf(s).rows;
    assert rows == seq(RowCount(s), k requires 0 <= k < RowCount(s) => RowAt(s, s.windowStart + k));
    forall j | 0 <= j < |rows|
      ensures 0 <= s.windowStart + j < |s.choices| && |rows[j]| == 6 + |s.choices[s.windowStart + j].name| &&
              (rows[j][0] == '>' <==> s.cursor == s.windowStart + j) &&
              (rows[j][3] == 'x' <==> s.windowStart + j in s.selected) &&
              rows[j][6..] == s.choices[s.windowStart + j].name
    {
      var i := s.windowStart + j;
      assert rows[j] == RowAt(s, i);
    }
  }

  /** With the cursor in a window of at least one row, its item is on the screen. */
  lemma CursorVisible(s: ModelState)
    requires Valid(s) && CursorInWindow(s) && s.cursor < |s.choices|
    ensures VisibleRange(s).0 <= s.cursor < VisibleRange(s).1
  {
  }

  /** A negative window size, which a terminal shorter than nine lines gives, draws no rows. */
  lemma NegativeWindowDrawsNothing(s: ModelState)
    requires 0 <= s.windowStart && s.windowSize < 0
    ensures Drawable(s) && RowCount(s) == 0
  {
  }

  /** A window size of 0 shows the whole list. */
  lemma ZeroWindowShowsAll(s: ModelState)
    requires s.windowStart == 0 && s.windowSize == 0
    ensures Drawable(s) && RowCount(s) == |s.choices|
  {
  }

  const Chrome: AppScript := AppScript("Chrome", "chrome.sh")
  const VSCode: AppScript := AppScript("VSCode", "vscode.sh")

  /** Two items, the first selected, the cursor on the second. */
  lemma SelectionView()
    ensures ViewOf(ModelState([Chrome, VSCode], 1, {0}, None, false, "", "", 0, 0, 0, 0, false)) ==
              Listing(["  [x] Chrome", "> [ ] VSCode"])
  {
    var s := ModelState([Chrome, VSCode], 1, {0}, None, false, "", "", 0, 0, 0, 0, false);
    assert RowAt(s, 0) == "  [x] Chrome";
    assert RowAt(s, 1) == "> [ ] VSCode";
  }
}
