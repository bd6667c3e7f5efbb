/**
 * The command box's history of entered commands: a bounded list of the most
 * recent commands and a cursor for walking it with the arrow keys. The text
 * field is kept as a string and the error style as a flag; storage, feedback
 * display and the caret are left to the caller.
 */
module CommandHistory {
  import opened Text

  const MaxHistory := 50
  const NoPreviousMessage := "No previous command!"

  // ---------------------------------------------------------------------------
  // The specification of history and navigation, on values.

  /**
   * What the navigation sees: the history (oldest first), the cursor (-1 for
   * the new command, otherwise how many steps back from the newest entry),
   * the input kept while navigating, and the text shown.
   */
  datatype Navigation = Navigation(history: seq<string>, index: int, currentInput: string, text: string)

  /** The cursor is the new command or points into the history. */
  predicate InRange(n: Navigation)
  {
    -1 <= n.index < |n.history|
  }

  /** The entry `i` steps back from the newest. */
  function Entry(history: seq<string>, i: nat): string
    requires i < |history|
  {
    history[|history| - 1 - i]
  }

  /**
   * `saveToHistory`: blank commands and a repeat of the newest entry are not
   * kept; otherwise the command is appended.
   */
  function Saved(history: seq<string>, command: string): (r: seq<string>)
    ensures Trim(command) == [] ==> r == history
    ensures history != [] && history[|history| - 1] == command ==> r == history
    ensures Trim(command) != [] && (history == [] || history[|history| - 1] != command) ==> r == Appended(history, command)
    ensures |history| <= MaxHistory ==> |r| <= MaxHistory
  {
    if Trim(command) == [] then history
    else if history != [] && history[|history| - 1] == command then history
    else Appended(history, command)
  }

  /**
   * The command becomes the newest entry, and the oldest is dropped once
   * there are more than the maximum: the newest entries are kept, in order.
   */
  function Appended<T>(history: seq<T>, command: T): (r: seq<T>)
    ensures r != [] && r[|r| - 1] == command
    ensures |r| == (if |history| < MaxHistory then |history| + 1 else |history|)
    ensures r == (history + [command])[|history| + 1 - |r|..]
  {
    var grown := history + [command];
    if |grown| > MaxHistory then grown[1..] else grown
  }

  /** A command worth keeping: not blank once trimmed. */
  predicate NonBlank(command: string)
  {
    Trim(command) != []
  }

  /** Every entry passes `keep` and no entry repeats the one before it. */
  predicate CleanBy<T(==)>(history: seq<T>, keep: T -> bool)
  {
    (forall i :: 0 <= i < |history| ==> keep(history[i])) &&
    forall i :: 0 < i < |history| ==> history[i - 1] != history[i]
  }

  /** No entry is blank and no entry repeats the one before it. */
  predicate Clean(history: seq<string>)
  {
    CleanBy(history, NonBlank)
  }

  /** Appending a kept entry that differs from the newest keeps the history clean. */
  lemma AppendedKeepsClean<T>(history: seq<T>, command: T, keep: T -> bool)
    requires CleanBy(history, keep) && keep(command)
    requires history == [] || history[|history| - 1] != command
    ensures CleanBy(Appended(history, command), keep)
  {
    var r := Appended(history, command);
    var d := |history| + 1 - |r|;
    forall i | 0 <= i < |r| ensures keep(r[i]) {
      if d + i < |history| {
        assert r[i] == history[d + i];
      }
    }
    forall i | 0 < i < |r| ensures r[i - 1] != r[i] {
      assert r[i - 1] == history[d + i - 1];
      if d + i < |history| {
        assert r[i] == history[d + i];
      }
    }
  }

  /** Saving keeps the history clean: it never holds a blank entry or two equal neighbours. */
  lemma SavedKeepsClean(history: seq<string>, command: string)
    requires Clean(history)
    ensures Clean(Saved(history, command))
  {
    if NonBlank(command) && (history == [] || history[|history| - 1] != command) {
      AppendedKeepsClean(history, command, NonBlank);
    }
  }

  /**
   * `navigateHistoryUp`: with no history there is nothing to show; leaving
   * the new command keeps the text typed so far; at the oldest entry the
   * cursor stays; otherwise it moves one step back and shows that entry.
   */
  function Up(n: Navigation): (r: (Navigation, Option<string>))
    requires InRange(n)
    ensures InRange(r.0) && r.0.history == n.history
    ensures n.history == [] ==> r == (n, Some(NoPreviousMessage))
    ensures n.history != [] && n.index == -1 ==> r.0.currentInput == n.text
    ensures n.index >= 0 ==> r.0.currentInput == n.currentInput
    ensures n.history != [] && n.index == |n.history| - 1 ==>
      r.1 == Some(NoPreviousMessage) && r.0.index == n.index && r.0.text == n.text
    ensures n.index < |n.history| - 1 ==>
      r.1 == None && r.0.index == n.index + 1 && r.0.text == Entry(n.history, r.0.index)
  {
    if n.history == [] then (n, Some(NoPreviousMessage))
    else
      var kept := if n.index == -1 then n.(currentInput := n.text) else n;
      if kept.index >= |kept.history| - 1 then (kept, Some(NoPreviousMessage))
      else
        var i := kept.index + 1;
        (kept.(index := i, text := Entry(kept.history, i)), None)
  }

  /**
   * `navigateHistoryDown`: one step towards the newest entry, and from the
   * newest back to the new command with the text typed before navigating.
   */
  function Down(n: Navigation): (r: Navigation)
    requires InRange(n)
    ensures InRange(r) && r.history == n.history && r.currentInput == n.currentInput
    ensures n.index == -1 ==> r == n
    ensures n.index == 0 ==> r.index == -1 && r.text == n.currentInput
    ensures n.index > 0 ==> r.index == n.index - 1 && r.text == Entry(n.history, r.index)
  {
    if n.history == [] then n
    else if n.index > 0 then
      var i := n.index - 1;
      n.(index := i, text := Entry(n.history, i))
    else if n.index == 0 then n.(index := -1, text := n.currentInput)
    else n
  }

  /** Leaving the new command and coming straight back restores what was typed. */
  lemma UpThenDownRestoresInput(n: Navigation)
    requires InRange(n) && n.index == -1 && n.history != []
    ensures Down(Up(n).0).index == -1 && Down(Up(n).0).text == n.text
  {
  }

  /** Down undoes a step Up made: the cursor returns and shows its entry. */
  lemma DownUndoesUp(n: Navigation)
    requires InRange(n) && 0 <= n.index < |n.history| - 1
    ensures Down(Up(n).0) == n.(text := Entry(n.history, n.index))
  {
  }

  /** `k` presses of Up. */
  function Ups(n: Navigation, k: nat): (r: Navigation)
    requires InRange(n)
    ensures InRange(r) && r.history == n.history
  {
    if k == 0 then n else Up(Ups(n, k - 1)).0
  }

  /**
   * Repeated Up walks from the newest entry to the oldest and stays there:
   * after `k` presses from the new command, the `k`-th newest entry is shown
   * (the oldest once `k` passes the length), and the typed text is kept.
   */
  lemma {:induction false} UpWalksBack(n: Navigation, k: nat)
    requires InRange(n) && n.index == -1 && 1 <= k
    ensures n.history != [] ==>
      var steps := if k < |n.history| then k else |n.history|;
      && Ups(n, k).index == steps - 1
      && Ups(n, k).text == Entry(n.history, steps - 1)
      && Ups(n, k).currentInput == n.text
    ensures n.history == [] ==> Ups(n, k) == n
  {
    if k > 1 {
      UpWalksBack(n, k - 1);
    }
  }

  // ---------------------------------------------------------------------------
  // The command box.

  /** The keys the box reacts to. */
  datatype Key = UpKey | DownKey | OtherKey

  class CommandBox {
    var history: seq<string>
    var historyIndex: int
    var currentInput: string
    var text: string
    var errorStyle: bool

    predicate Valid()
      reads this
    {
      -1 <= historyIndex < |history|
    }

    function State(): (n: Navigation)
      reads this
      ensures Valid() ==> InRange(n)
    {
      Navigation(history, historyIndex, currentInput, text)
    }

    /** The history read from storage, if any was read; otherwise it starts empty. */
    constructor (loaded: Option<seq<string>>)
      ensures Valid()
      ensures history == (if loaded.Some? then loaded.value else [])
      ensures historyIndex == -1 && currentInput == "" && text == "" && !errorStyle
    {
      history := if loaded.Some? then loaded.value else [];
      historyIndex := -1;
      currentInput := "";
      text := "";
      errorStyle := false;
    }

    /** The text field's setter; the listener on its text clears the error style when the text changes. */
    method SetText(s: string)
      modifies this
      ensures text == s && errorStyle == (old(errorStyle) && s == old(text))
      ensures history == old(history) && historyIndex == old(historyIndex) && currentInput == old(currentInput)
    {
      if s != text {
        errorStyle := false;
      }
      text := s;
    }

    /** `navigateHistoryUp`; the feedback shown, if any, is returned. */
    method NavigateUp() returns (feedback: Option<string>)
      requires Valid()
      modifies this
      ensures Valid()
      ensures (State(), feedback) == Up(old(State()))
      ensures errorStyle == (old(errorStyle) && text == old(text))
    {
      if history == [] {
        return Some(NoPreviousMessage);
      }
      if historyIndex == -1 {
        currentInput := text;
      }
      if historyIndex >= |history| - 1 {
        return Some(NoPreviousMessage);
      }
      historyIndex := historyIndex + 1;
      SetText(history[|history| - 1 - historyIndex]);
      return None;
    }

    /** `navigateHistoryDown` */
    method NavigateDown()
      requires Valid()
      modifies this
      ensures Valid()
      ensures State() == Down(old(State()))
      ensures errorStyle == (old(errorStyle) && text == old(text))
    {
      if history == [] {
        return;
      }
      if historyIndex > 0 {
        historyIndex := historyIndex - 1;
        SetText(history[|history| - 1 - historyIndex]);
      } else if historyIndex == 0 {
        historyIndex := -1;
        SetText(currentInput);
      }
    }

    /** `handleKeyPressed`: the arrow keys navigate, every other key is left alone. */
    method HandleKeyPressed(key: Key) returns (feedback: Option<string>)
      requires Valid()
      modifies this
      ensures Valid()
      ensures key == UpKey ==> (State(), feedback) == Up(old(State()))
      ensures key == DownKey ==> State() == Down(old(State())) && feedback == None
      ensures key == OtherKey ==> State() == old(State()) && feedback == None
      ensures errorStyle == (old(errorStyle) && text == old(text))
    {
      feedback := None;
      if key == UpKey {
        feedback := NavigateUp();
      } else if key == DownKey {
        NavigateDown();
      }
    }

    /**
     * `saveToHistory`; the list handed to storage when the history changed
     * is returned.
     */
    method SaveToHistory(command: string) returns (written: Option<seq<string>>)
      requires Valid()
      modifies this
      ensures Valid()
      ensures history == Saved(old(history), command)
      ensures written == (if history == old(history) then None else Some(history))
      ensures historyIndex == old(historyIndex) && currentInput == old(currentInput)
      ensures text == old(text) && errorStyle == old(errorStyle)
    {
      if Trim(command) == [] {
        return None;
      }
      if history != [] && history[|history| - 1] == command {
        return None;
      }
      history := history + [command];
      if |history| > MaxHistory {
        history := history[1..];
      }
      assert history != old(history) by {
        if |history| == |old(history)| {
          assert history[|history| - 1] == command;
          assert old(history)[|old(history)| - 1] != command;
        }
      }
      return Some(history);
    }

    /** `resetHistoryNavigation` */
    method ResetHistoryNavigation()
      modifies this
      ensures historyIndex == -1 && currentInput == ""
      ensures history == old(history) && text == old(text) && errorStyle == old(errorStyle)
    {
      historyIndex := -1;
      currentInput := "";
    }

    /**
     * `handleCommandEntered`, given whether executing the text succeeded: an
     * empty text does nothing; a success saves the command, clears the text
     * and the navigation; a failure only sets the error style.
     */
    method HandleCommandEntered(succeeds: bool)
      requires Valid()
      modifies this
      ensures Valid()
      ensures old(text) == "" ==> State() == old(State()) && errorStyle == old(errorStyle)
      ensures old(text) != "" && succeeds ==>
        && history == Saved(old(history), old(text))
        && text == "" && historyIndex == -1 && currentInput == "" && !errorStyle
      ensures old(text) != "" && !succeeds ==> State() == old(State()) && errorStyle
    {
      if text == "" {
        return;
      }
      if succeeds {
        var _ := SaveToHistory(text);
        SetText("");
        ResetHistoryNavigation();
      } else {
        errorStyle := true;
      }
    }
  }
}
