/** One keystroke of the command line (cui_command_input) as a function of the
    history, the history index and the caret. */
module CommandLine {
  import opened Text
  import opened Keys
  import opened History

  /** The command-line part of the controller's state. */
  datatype LineState = LineState(commands: seq<string>, index: nat, cursor: nat)

  /** The state after the key, the text submitted to the command executor (if
      any), and whether the key leaves Command mode. */
  datatype LineStep = LineStep(next: LineState, submitted: Option<string>, leave: bool)

  predicate EditingKey(key: char)
  {
    key in {Newline, Escape, Rubout, KeyBackspace, KeyDc, KeyLeft, KeyRight, KeyUp, KeyDown, KeyHome, KeyEnd}
  }

  /** The keys whose code reads or writes slot `index` of the history. */
  predicate IndexNeeded(s: LineState, key: char)
    requires |s.commands| > 0
  {
    || key == KeyUp || key == Rubout || key == KeyBackspace || key == KeyDc
    || (key == Newline && Last(s.commands) != "")
    || !EditingKey(key)
  }

  /** What a state the editor may receive satisfies: a last slot exists and
      the caret lies within it. */
  predicate Editable(s: LineState)
  {
    |s.commands| > 0 && s.cursor <= |Last(s.commands)|
  }

  /** Backspace and Delete while browsing detach first. */
  function Detached(s: LineState): (r: LineState)
    requires |s.commands| > 0 && s.index < |s.commands|
    ensures |r.commands| > 0 && Last(r.commands) == Last(s.commands) && r.index == |r.commands| - 1
  {
    if s.index != |s.commands| - 1 then LineState(Detach(s.commands, s.index), |s.commands|, s.cursor)
    else s
  }

  function LineKey(s: LineState, key: char): (r: LineStep)
    requires Editable(s)
    requires IndexNeeded(s, key) ==> s.index < |s.commands|
    ensures |r.next.commands| > 0
    ensures !r.leave ==> r.next.cursor <= |Last(r.next.commands)|
    ensures r.leave <==> key == Newline || key == Escape
    ensures r.submitted.Some? <==> key == Newline && Last(s.commands) != ""
    ensures r.submitted.Some? ==> r.submitted.value == Last(s.commands)
    ensures r.leave ==> Last(r.next.commands) == ""
    ensures r.leave ==> forall k :: 0 <= k < |r.next.commands| - 1 ==> r.next.commands[k] != ""
  {
    var c := s.commands;
    if key == Newline && Last(c) != "" then
      LineStep(LineState(AfterSubmit(c, s.index), |c|, s.cursor), Some(Last(c)), true)
    else if key == Newline || key == Escape then
      LineStep(LineState(AfterCancel(c), s.index, s.cursor), None, true)
    else LineStep(EditKey(s, key), None, false)
  }

  /** Every key but Enter and Escape: editing, caret movement, browsing and
      typing; the caret stays within the last slot. */
  function EditKey(s: LineState, key: char): (r: LineState)
    requires Editable(s) && key != Newline && key != Escape
    requires IndexNeeded(s, key) ==> s.index < |s.commands|
    ensures |r.commands| > 0 && r.cursor <= |Last(r.commands)|
  {
    var c := s.commands;
    if key == Rubout || key == KeyBackspace then
      var d := Detached(s);
      if d.cursor > 0 then
        var l := |d.commands| - 1;
        LineState(d.commands[l := RemoveBefore(Last(d.commands), d.cursor)], d.index, d.cursor - 1)
      else d
    else if key == KeyDc then
      var d := Detached(s);
      if d.cursor < |Last(d.commands)| then
        var l := |d.commands| - 1;
        LineState(d.commands[l := RemoveAt(Last(d.commands), d.cursor)], d.index, d.cursor)
      else d
    else if key == KeyLeft then
      s.(cursor := if s.cursor > 0 then s.cursor - 1 else s.cursor)
    else if key == KeyRight then
      s.(cursor := if s.cursor < |Last(c)| then s.cursor + 1 else s.cursor)
    else if key == KeyUp then
      if s.index > 0 then
        var u := StepUp(c, s.index);
        LineState(u, s.index - 1, Clamp(s.cursor, |Last(u)|))
      else s
    else if key == KeyDown then
      if s.index < |c| - 1 then
        var u := StepDown(c, s.index);
        LineState(u, s.index + 1, Clamp(s.cursor, |Last(u)|))
      else s
    else if key == KeyHome then
      s.(cursor := 0)
    else if key == KeyEnd then
      s.(cursor := |Last(c)|)
    else
      var t := TypeKey(c, s.index, s.cursor, key);
      LineState(t.0, t.1, s.cursor + 1)
  }

  /** KEY_UP then KEY_DOWN gives the history and the index back; the caret can
      only have been lowered. */
  lemma UpThenDownRestores(s: LineState)
    requires Editable(s) && 0 < s.index < |s.commands|
    ensures var u := LineKey(s, KeyUp).next;
      Editable(u) && u.index < |u.commands|
      && LineKey(u, KeyDown).next.commands == s.commands
      && LineKey(u, KeyDown).next.index == s.index
      && LineKey(u, KeyDown).next.cursor <= s.cursor
  {
    UpThenDown(s.commands, s.index);
  }

  /** KEY_UP and KEY_DOWN keep the browsing invariant against the pre-browse
      history and move the index by one, while there is a slot to move to. */
  lemma BrowseKeepsInvariant(h: seq<string>, s: LineState, key: char)
    requires Editable(s) && Browsing(h, s.commands, s.index)
    requires key == KeyUp || key == KeyDown
    ensures Browsing(h, LineKey(s, key).next.commands, LineKey(s, key).next.index)
    ensures key == KeyUp && s.index > 0 ==> LineKey(s, key).next.index == s.index - 1
    ensures key == KeyDown && s.index < |h| - 1 ==> LineKey(s, key).next.index == s.index + 1
    ensures LineKey(s, key).next.cursor <= s.cursor
  {
    if key == KeyUp && s.index > 0 {
      UpKeepsBrowsing(h, s.commands, s.index);
    } else if key == KeyDown && s.index < |h| - 1 {
      DownKeepsBrowsing(h, s.commands, s.index);
    }
  }

  /** Delete at the end of the line while browsing edits nothing, but it
      restores the pre-browse history and appends the browsed entry as the new
      last slot, with the index on it. */
  lemma DeleteWhileBrowsingDetaches(h: seq<string>, s: LineState)
    requires Editable(s) && Browsing(h, s.commands, s.index) && s.index < |h| - 1
    requires s.cursor == |Last(s.commands)|
    ensures LineKey(s, KeyDc).next == LineState(h + [h[s.index]], |h|, s.cursor)
  {
    DetachRestores(h, s.commands, s.index);
  }

  /** On a history without empty entries and with no browsing, typing a
      character and then Backspace gives the state back. */
  lemma TypeThenBackspace(s: LineState, ch: char)
    requires Editable(s) && s.index == |s.commands| - 1 && !EditingKey(ch)
    requires forall k :: 0 <= k < |s.commands| - 1 ==> s.commands[k] != ""
    ensures LineKey(s, ch).next.index == |LineKey(s, ch).next.commands| - 1
    ensures LineKey(LineKey(s, ch).next, Rubout).next == s
  {
    var c := s.commands;
    var l := |c| - 1;
    PrunedKeepsClean(c);
    var t := LineKey(s, ch).next;
    assert t == LineState(c[l := InsertAt(Last(c), s.cursor, ch)], l, s.cursor + 1);
    InsertThenBackspace(Last(c), s.cursor, ch);
    assert t.commands[l := RemoveBefore(Last(t.commands), t.cursor)] == c;
  }

  /** Enter on a typed (not browsed) command over a clean history dispatches
      it, records it as the newest entry and leaves an empty prompt with the
      index on it. */
  lemma SubmitRecords(s: LineState)
    requires Editable(s) && s.index == |s.commands| - 1 && Last(s.commands) != ""
    requires forall k :: 0 <= k < |s.commands| - 1 ==> s.commands[k] != ""
    ensures LineKey(s, Newline).submitted == Some(Last(s.commands))
    ensures LineKey(s, Newline).next.commands == s.commands + [""]
    ensures LineKey(s, Newline).next.index == |s.commands|
  {
    SubmitThenUpRecalls(s.commands);
  }
}
