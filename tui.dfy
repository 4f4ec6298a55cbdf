/**
 * The list-selection screen of cmd/tui.go: the model's state, the
 * transition `Update` makes for one message, and the rows `View` shows.
 * Styling, the welcome banner's text and the Bubble Tea program loop are
 * not modelled; conversion is an oracle result handed to the transition.
 */
module Tui {
  import opened Maybe

  /** A script the user can keep; only its name is shown. */
  datatype AppScript = AppScript(name: string, filePath: string)

  /**
   * The messages the model reacts to: a key (by Bubble Tea's name for it,
   * such as "q", "ctrl+c", "up", " " or "enter"), a new terminal size, and
   * anything else.
   */
  datatype Msg = Key(key: string) | WindowSize(width: int, height: int) | Other

  /** The fields of the model. `err` holds the error's text. */
  datatype ModelState = ModelState(
    choices: seq<AppScript>,
    cursor: int,
    selected: set<int>,
    err: Option<string>,
    quitting: bool,
    repoDir: string,
    help: string,
    width: int,
    height: int,
    windowStart: int,
    windowSize: int,
    showWelcome: bool)

  const HeaderHeight: int := 5
  const FooterHeight: int := 4
  const DefaultWindowSize: int := 10
  const DefaultRepoDir: string := "./omakub"
  const HelpText: string :=
    "Press 'q' to quit, 'space' to select, 'enter' to confirm, 'up' and 'down' to navigate"

  predicate IsQuit(k: string) { k == "ctrl+c" || k == "q" }
  predicate IsUp(k: string) { k == "up" || k == "k" }
  predicate IsDown(k: string) { k == "down" || k == "j" }
  predicate IsToggle(k: string) { k == " " }
  predicate IsEnter(k: string) { k == "enter" }

  /** The keys with an action of their own. */
  predicate IsCommand(k: string)
  {
    IsQuit(k) || IsUp(k) || IsDown(k) || IsToggle(k) || IsEnter(k)
  }

  // ---------------------------------------------------------------
  // The transition
  // ---------------------------------------------------------------

  /** Up: one line towards the top, scrolling the window when the cursor leaves it. */
  function MoveUp(s: ModelState): ModelState
  {
    if s.cursor > 0 then
      var c := s.cursor - 1;
      s.(cursor := c, windowStart := if c < s.windowStart then s.windowStart - 1 else s.windowStart)
    else s
  }

  /** Down: one line towards the bottom, scrolling the window when the cursor leaves it. */
  function MoveDown(s: ModelState): ModelState
  {
    if s.cursor < |s.choices| - 1 then
      var c := s.cursor + 1;
      s.(cursor := c, windowStart := if c >= s.windowStart + s.windowSize then s.windowStart + 1 else s.windowStart)
    else s
  }

  /** Space: the index under the cursor enters or leaves the selection. */
  function Toggle(s: ModelState): ModelState
  {
    s.(selected := if s.cursor in s.selected then s.selected - {s.cursor} else s.selected + {s.cursor})
  }

  /** The window size for a terminal of height `height`: what is left below the header and above the footer, at most the list. */
  function FitWindow(height: int, count: nat): int
  {
    var size := height - HeaderHeight - FooterHeight;
    if size > count then count else size
  }

  /**
   * One call of `Update`: the new state and whether the quit command is
   * returned. `conversion` is what running the conversion would return
   * (None for success); it is consulted only when enter confirms.
   */
  function Step(s: ModelState, msg: Msg, conversion: Option<string>): (ModelState, bool)
  {
    if s.showWelcome then
      (if msg.Key? then s.(showWelcome := false) else s, false)
    else
      match msg
      case WindowSize(w, h) =>
        (s.(width := w, height := h, windowSize := FitWindow(h, |s.choices|)), false)
      case Key(k) =>
        if IsQuit(k) then (s.(quitting := true), true)
        else if IsUp(k) then (MoveUp(s).(help := HelpText), false)
        else if IsDown(k) then (MoveDown(s).(help := HelpText), false)
        else if IsToggle(k) then (Toggle(s).(help := HelpText), false)
        else if IsEnter(k) then
          if |s.selected| > 0 then (if conversion.Some? then s.(err := conversion) else s, true)
          else (s, false)
        else (s.(help := HelpText), false)
      case Other => (s.(help := HelpText), false)
  }

  /** The state `InitialModel` returns, given how cloning and discovery went. */
  datatype Setup = CloneFailed(cloneError: string) | DiscoveryFailed(discoveryError: string) | Discovered(apps: seq<AppScript>)

  function Initial(setup: Setup): ModelState
  {
    var base := ModelState([], 0, {}, None, false, DefaultRepoDir, "", 0, 0, 0, DefaultWindowSize, true);
    match setup
    case CloneFailed(e) => base.(err := Some(e))
    case DiscoveryFailed(e) => base.(err := Some(e))
    case Discovered(apps) => base.(choices := apps)
  }

  // ---------------------------------------------------------------
  // What the screen shows
  // ---------------------------------------------------------------

  /** The indices `View` draws: from the window's start to its end, cut at the list's end; size 0 means the whole list. */
  function VisibleRange(s: ModelState): (range: (int, int))
    ensures range.0 == s.windowStart
    ensures range.1 <= |s.choices|
    ensures s.windowSize == 0 && s.windowStart >= 0 ==> range.1 == |s.choices|
    ensures s.windowSize != 0 && s.windowStart + s.windowSize <= |s.choices| ==> range.1 == s.windowStart + s.windowSize
    ensures s.windowSize != 0 && s.windowStart + s.windowSize > |s.choices| ==> range.1 == |s.choices|
  {
    var size := if s.windowSize == 0 then |s.choices| else s.windowSize;
    var end := s.windowStart + size;
    (s.windowStart, if end > |s.choices| then |s.choices| else end)
  }

  /** One row: the cursor mark, the check box and the name, as `fmt.Sprintf("%s [%s] %s", ...)` lays them out. */
  function RowText(pointed: bool, checked: bool, name: string): (row: string)
    ensures |row| == 6 + |name| && row[|row| - |name|..] == name
    ensures row[0] == (if pointed then '>' else ' ') && row[3] == (if checked then 'x' else ' ')
    ensures row[1..3] == " [" && row[4..6] == "] "
  {
    (if pointed then ">" else " ") + " [" + (if checked then "x" else " ") + "] " + name
  }

  function RowAt(s: ModelState, i: int): string
    requires 0 <= i < |s.choices|
  {
    RowText(s.cursor == i, i in s.selected, s.choices[i].name)
  }

  /** What `View` shows: a plain message, the welcome banner, or the rows of the list (title and help lines are not modelled). */
  datatype Screen = Message(text: string) | Welcome | Listing(rows: seq<string>)

  const GoodbyeText: string := "Thanks for using. Bye!\n"

  /** The error screen's text, without its colour. */
  function ErrorText(e: string): string
  {
    "Error: " + e + "\n"
  }

  /** The states whose first visible row is a position of the list. */
  predicate Drawable(s: ModelState)
  {
    s.windowStart >= 0 || s.windowStart >= VisibleRange(s).1
  }

  /** The number of rows drawn. */
  function RowCount(s: ModelState): nat
  {
    if VisibleRange(s).1 > s.windowStart then VisibleRange(s).1 - s.windowStart else 0
  }

  /** The screen for state `s`, in the order `View` checks: quitting, then an error, then the welcome. */
  function ViewOf(s: ModelState): Screen
    requires Drawable(s)
  {
    if s.quitting then Message(GoodbyeText)
    else if s.err.Some? then Message(ErrorText(s.err.value))
    else if s.showWelcome then Welcome
    else Listing(seq(RowCount(s), j requires 0 <= j < RowCount(s) => RowAt(s, s.windowStart + j)))
  }

  /** The state the model keeps from its initial state on: cursor and window start inside the list. */
  predicate Valid(s: ModelState)
  {
    0 <= s.windowStart <= s.cursor && (s.cursor == 0 || s.cursor < |s.choices|)
  }

  // ---------------------------------------------------------------
  // The model, updated in place
  // ---------------------------------------------------------------

  class Model {
    var choices: seq<AppScript>
    var cursor: int
    var selected: set<int>
    var err: Option<string>
    var quitting: bool
    var repoDir: string
    var help: string
    var width: int
    var height: int
    var windowStart: int
    var windowSize: int
    var showWelcome: bool

    function State(): ModelState
      reads this
    {
      ModelState(choices, cursor, selected, err, quitting, repoDir, help, width, height, windowStart, windowSize, showWelcome)
    }

    /** `InitialModel`, with the outcome of cloning and discovery given. */
    constructor (setup: Setup)
      ensures State() == Initial(setup)
    {
      choices := [];
      cursor := 0;
      selected := {};
      err := None;
      quitting := false;
      repoDir := DefaultRepoDir;
      help := "";
      width := 0;
      height := 0;
      windowStart := 0;
      windowSize := DefaultWindowSize;
      showWelcome := true;
      match setup {
        case CloneFailed(e) => err := Some(e);
        case DiscoveryFailed(e) => err := Some(e);
        case Discovered(apps) => choices := apps;
      }
    }

    /** `Update`: the fields changed for `msg`; `quit` is whether the quit command is returned. */
    method Update(msg: Msg, conversion: Option<string>) returns (quit: bool)
      modifies this
      ensures State() == Step(old(State()), msg, conversion).0
      ensures quit == Step(old(State()), msg, conversion).1
    {
      if showWelcome {
        if msg.Key? {
          showWelcome := false;
        }
        return false;
      }
      match msg {
        case WindowSize(w, h) =>
          width := w;
          height := h;
          windowSize := height - HeaderHeight - FooterHeight;
          if windowSize > |choices| {
            windowSize := |choices|;
          }
          return false;
        case Key(k) =>
          if k == "ctrl+c" || k == "q" {
            quitting := true;
            return true;
          } else if k == "up" || k == "k" {
            CursorUp();
          } else if k == "down" || k == "j" {
            CursorDown();
          } else if k == " " {
            ToggleSelected();
          } else if k == "enter" {
            if |selected| > 0 {
              if conversion.Some? {
                err := conversion;
              }
              return true;
            }
            return false;
          }
        case Other =>
      }
      help := HelpText;
      return false;
    }

    method CursorUp()
      modifies this
      ensures State() == MoveUp(old(State()))
    {
      if cursor > 0 {
        cursor := cursor - 1;
        if cursor < windowStart {
          windowStart := windowStart - 1;
        }
      }
    }

    method CursorDown()
      modifies this
      ensures State() == MoveDown(old(State()))
    {
      if cursor < |choices| - 1 {
        cursor := cursor + 1;
        if cursor >= windowStart + windowSize {
          windowStart := windowStart + 1;
        }
      }
    }

    method ToggleSelected()
      modifies this
      ensures State() == Toggle(old(State()))
    {
      if cursor in selected {
        selected := selected - {cursor};
      } else {
        selected := selected + {cursor};
      }
    }

    /** `View`: the goodbye, error and welcome screens first, then the rows of the window. */
    method View() returns (screen: Screen)
      requires Drawable(State())
      ensures screen == ViewOf(State())
    {
      if quitting {
        return Message(GoodbyeText);
      }
      if err.Some? {
        return Message(ErrorText(err.value));
      }
      if showWelcome {
        return Welcome;
      }
      var size := windowSize;
      if size == 0 {
        size := |choices|;
      }
      var end := windowStart + size;
      if end > |choices| {
        end := |choices|;
      }
      var rows: seq<string> := [];
      var i := windowStart;
      while i < end
        invariant windowStart <= i && (i <= end || rows == [])
        invariant |rows| == i - windowStart
        invariant forall j :: 0 <= j < |rows| ==> rows[j] == RowAt(State(), windowStart + j)
      {
        var pointer := if cursor == i then ">" else " ";
        var checked := if i in selected then "x" else " ";
        rows := rows + [pointer + " [" + checked + "] " + choices[i].name];
        i := i + 1;
      }
      assert |rows| == RowCount(State());
      return Listing(rows);
    }
  }
}
