# noaftodo terminal UI controller in Dafny

This project models the curses controller of noaftodo (`src/noaftodo_cui.cpp`).
The controller handles one key at a time:

1. The bind table runs first.
2. If no bind fired, the key goes to the handler of the current mode: the
   Normal-mode count grammar, the details and help scroll keys, or the
   command-line editor with its history.
3. The painter of the current mode then draws the frame: the column table,
   the status line, the wrapped description or help box, and the command
   prompt.

The controller's globals are the fields of the class `Cui.Ui`. Its handlers
and painters are methods of that class. Each method is proved against a pure
function of the old state, and the properties of those functions are proved
as lemmas. What the controller reads from outside comes in as data:

- the task list, the tag table and the filter settings;
- the two time thresholds `a0d` and `a1d`;
- the formatted due time and the help text;
- the terminal size.

The command executor (`cmd_exec`) is a parameter of type `Modes.Executor`.
For each command it says which mode, if any, the command switches to through
`cui_set_mode`. Every command handed to it is appended to the ghost log
`dispatched`. A later bind in the same key press is tested against the mode
an earlier command left, as in the source.

A painter returns a `Frame` value. It holds where the columns are placed in
the title bar and on each row, which entries are drawn on which rows, the
fields of the status line, and the glyphs of the description or help box with
their coordinates. Column titles and cell texts are not part of the frame.

Modules, in dependency order:

- `Text`: `std::to_string` and digit parsing.
- `Keys`: the key codes.
- `Visibility`: `cui_is_visible` and the visible-row list.
- `History`: the command history as values.
- `CommandLine`: one key of `cui_command_input` as a function.
- `Modes`: modes, the mode stack, the executor, bind matching.
- `Counts`: the count grammar of `cui_normal_input`.
- `Columns`: the column registry and the placement loop.
- `Screen`: the scroll delta, the table rows, the status line, the prompt window.
- `Wrap`: the description and help text wrapping.
- `Cui`: the class.

Where the code and the usual description of the program disagree, the model
follows the code:

- Enter and Escape leave Command mode with `cui_set_mode(CUI_MODE_NORMAL)`
  (line 587), not with a pop, and only if the mode is still Command. When the
  submitted command did not switch modes, the controller lands in Normal,
  even when Details or Help opened the command line, and that mode stays on
  the stack (`Modes.CommandRoundTripGrowsStack`, `Cui.LeaveMode`). When the
  command switched to another mode, that mode stays.
- On Enter while browsing, the "swap" of lines 577-579 reads `temp` from the
  last slot. The browsed slot receives the submitted text, and the stashed
  text is lost (`History.SubmitWhileBrowsingDropsStash`).
- Escape while browsing clears the last slot, which holds the browsed entry
  (`History.CancelWhileBrowsingLosesEntry`).
- `cui_filter_history` erases slots without moving `cui_command_index`. One
  Up then a typed key from a fresh prompt leaves the index one past the end
  (`History.BrowsedTypeIndexPastEnd`). The history keys that read slot
  `index` therefore require it to be in range (`CommandLine.IndexNeeded`).
- A digit after 'l' builds on the -2 sentinel: "l5l" runs "list -15"
  (`Counts.ListSentinelArithmetic`).
- When nothing is visible, the selected visible index stays -1, and so the
  table delta is -1, not 0.
- The description loop tests the row for equality with h-4. A delta that
  starts the text below that row draws past the box (`Wrap.DescriptionBelowBox`).
- On terminals narrower than 25 columns, a tab in the help text jumps past
  the wrap column (`Wrap.NarrowHelpOverrunsBox`).
- The prompt's `substr` throws on terminals narrower than three columns
  (`Screen.NarrowPromptThrows`).
- The header `src/noaftodo_cui.h` declares Normal as 0 and has no Details
  mode. The model uses an abstract mode type with one mask bit per live mode
  and an empty mask for Exit (`Modes.ModeMask`); see "## Left out".
- `CUI_TAG_ALL` is defined outside these files. The model takes it to be -1.

## Model

| member | source | states |
|---|---|---|
| Text.DigitValue | src/noaftodo_cui.cpp:389 | a digit key contributes a value between 0 and 9 |
| Text.DigitChar | src/noaftodo_cui.cpp:389 | every value below 10 has a digit character, and that character's value is the value |
| Text.NatToString | src/noaftodo_cui.cpp:390 | `to_string` of a non-negative number is a non-empty string of digits with no leading zero |
| Text.NatToStringRoundTrip | src/noaftodo_cui.cpp:390 | reading the digits of `to_string(n)` back gives n |
| Text.IntToString | src/noaftodo_cui.cpp:368 | the numeral is non-empty and starts with '-' exactly for negative numbers |
| Text.IntToStringRoundTrip | src/noaftodo_cui.cpp:368 | the numeral of any int reads back as that int |
| Visibility.BucketFlag | src/noaftodo_cui.cpp:259-263 | each status bucket is tested against one of the four filter flags |
| Visibility.IsVisible | src/noaftodo_cui.cpp:250-264 | nothing is visible in an empty list; otherwise an entry is visible iff the tag filter is all-lists or its tag, and the flag of its one bucket (`Visibility.BucketOf`, lines 256-262: completed, then failed, then coming, then uncategorised) is set |
| Visibility.OtherFlagIrrelevant | src/noaftodo_cui.cpp:259-263 | toggling the flag of a bucket the entry is not in never changes its visibility |
| Visibility.DistinctFlags | src/noaftodo_cui.cpp:259-263 | the four flags are disjoint bits |
| Visibility.ThresholdExamples | src/noaftodo_cui.cpp:259-262 | due at now is failed, within a day is coming, later is uncategorised, and completed wins over all three |
| Visibility.VisibleIds | src/noaftodo_cui.cpp:298-305 | the visible ids are entry ids below the list size |
| Visibility.IndexOf | src/noaftodo_cui.cpp:299-304 | the selected visible index is -1 exactly when the selection is not visible, and otherwise points at it |
| Visibility.VisibleRows | src/noaftodo_cui.cpp:298-305 | the loop collects exactly the visible ids in increasing order, and finds the selected one's visible index |
| Visibility.VisibleIdsExact | src/noaftodo_cui.cpp:298-305 | the visible-id list is strictly increasing, holds only visible ids, and misses none |
| History.Exchange | src/noaftodo_cui.cpp:594-596 | two slots trade their values and every other slot keeps its value |
| History.StepUp | src/noaftodo_cui.cpp:628-634 | KEY_UP's three assignments keep the number of slots |
| History.StepDown | src/noaftodo_cui.cpp:641-647 | KEY_DOWN's three assignments keep the number of slots |
| History.UpKeepsBrowsing | src/noaftodo_cui.cpp:626-638 | if the slots are the pre-browse history with slots index and last exchanged, Up keeps that form with index one lower |
| History.DownKeepsBrowsing | src/noaftodo_cui.cpp:639-651 | the same for Down, with index one higher |
| History.UpThenDown | src/noaftodo_cui.cpp:626-651 | Up followed by Down gives the slots back, browsing or not |
| History.DownThenUp | src/noaftodo_cui.cpp:626-651 | Down followed by Up gives the slots back |
| History.UpTimesRecalls | src/noaftodo_cui.cpp:626-638 | k presses of Up from the unbrowsed history show the entry k places back in the last slot, and keep the browsing form |
| History.Detach | src/noaftodo_cui.cpp:592-599 | detaching adds one slot and keeps the text being edited |
| History.DetachRestores | src/noaftodo_cui.cpp:592-599 | detaching while browsing restores the pre-browse history and appends a copy of the browsed entry |
| History.DropEmpty | src/noaftodo_cui.cpp:789-797 | the kept strings are all non-empty and no more than the input |
| History.Pruned | src/noaftodo_cui.cpp:789-797 | after filtering, only the last slot may be empty, and the last slot is kept |
| History.DropEmptyKeepsNonEmpty | src/noaftodo_cui.cpp:789-797 | a history without empty slots is left alone |
| History.DropEmptyConcat | src/noaftodo_cui.cpp:789-797 | filtering keeps order: it distributes over concatenation |
| History.DropEmptyMembers | src/noaftodo_cui.cpp:789-797 | filtering keeps exactly the non-empty strings |
| History.PrunedIdempotent | src/noaftodo_cui.cpp:789-797 | filtering twice is filtering once |
| History.PrunedKeepsClean | src/noaftodo_cui.cpp:789-797 | a history whose only empty slot is the last one is left alone |
| History.Clamp | src/noaftodo_cui.cpp:635-636 | after a history move the caret is only lowered, to the new text's length |
| History.InsertAt | src/noaftodo_cui.cpp:670 | the key is spliced in at the caret, with the text on both sides kept |
| History.RemoveBefore | src/noaftodo_cui.cpp:603 | Backspace removes exactly the character before the caret |
| History.RemoveAt | src/noaftodo_cui.cpp:618 | Delete removes exactly the character under the caret |
| History.InsertThenBackspace | src/noaftodo_cui.cpp:603-604 | typing a key and then Backspace gives the text back |
| History.InsertThenDelete | src/noaftodo_cui.cpp:618 | typing a key, moving back over it and Delete gives the text back |
| History.Submitted | src/noaftodo_cui.cpp:572-583 | Enter on a non-empty line adds one empty last slot; slot index receives the submitted text and every other slot keeps its value |
| History.AfterSubmit | src/noaftodo_cui.cpp:571-588 | after Enter the last slot is empty |
| History.AfterCancel | src/noaftodo_cui.cpp:585-588 | after Escape the last slot is empty and no other slot is |
| History.SubmitThenUpRecalls | src/noaftodo_cui.cpp:571-588 | a typed command submitted over a clean history is recorded at the end, and the next Up recalls it |
| History.SubmitWhileBrowsingDropsStash | src/noaftodo_cui.cpp:575-583 | for every pre-browse history and browsed slot, Enter writes the browsed entry into its own slot and keeps it in the old last slot, so the stashed text is gone from the pruned history unless an older entry equals it |
| History.CancelWhileBrowsingLosesEntry | src/noaftodo_cui.cpp:585-588 | for every pre-browse history and browsed slot, Escape leaves the stash in the browsed slot and clears the browsed entry, so the entry is gone from the pruned history unless another slot holds it |
| History.TypeKey | src/noaftodo_cui.cpp:658-671 | typing a key always leaves a last slot |
| History.BrowsedTypeIndexPastEnd | src/noaftodo_cui.cpp:665-668 | Up then a typed key on a fresh prompt over a clean history leaves the index one past the last slot |
| CommandLine.Detached | src/noaftodo_cui.cpp:592-599 | detaching keeps the edited text and points the index at the last slot |
| CommandLine.IndexNeeded | src/noaftodo_cui.cpp:567-673 | the keys whose code reads slot index: Up, Backspace, Delete, a typed key, and Enter on a non-empty line |
| CommandLine.LineKey | src/noaftodo_cui.cpp:567-673 | exactly Enter and Escape leave the line; exactly Enter on a non-empty line submits that line; leaving leaves an empty last slot and no other empty slot; otherwise the caret stays inside the last slot |
| CommandLine.EditKey | src/noaftodo_cui.cpp:590-671 | every editing, caret, history or typed key keeps a last slot and the caret within it |
| CommandLine.UpThenDownRestores | src/noaftodo_cui.cpp:626-651 | Up then Down restores the history and the index; the caret can only have been lowered |
| CommandLine.BrowseKeepsInvariant | src/noaftodo_cui.cpp:626-651 | Up and Down keep the browsing form, move the index by one when they can, and never raise the caret |
| CommandLine.DeleteWhileBrowsingDetaches | src/noaftodo_cui.cpp:607-619 | Delete at the end of a browsed line edits nothing but restores the history and appends a copy of the browsed entry |
| CommandLine.TypeThenBackspace | src/noaftodo_cui.cpp:590-606 | on a clean history, not browsing, typing a key and then Backspace restores the whole line state |
| CommandLine.SubmitRecords | src/noaftodo_cui.cpp:571-589 | Enter on typed text over a clean history dispatches that text once, appends an empty slot and points the index at it |
| Modes.ModeMask | src/noaftodo_cui.cpp:148 | each live mode has a bit of its own, and only Exit has an empty mask (the model's choice, not the header's -2) |
| Modes.SingleModeBind | src/noaftodo_cui.cpp:148 | a bind registered with one mode's mask matches its key in that mode and in no other, and never when that mode is Exit |
| Modes.ModeAllMatchesLiveModes | src/noaftodo_cui.cpp:148 | under the model's masks, a bind for every mode matches its key in every live mode and not in Exit |
| Modes.Fire | src/noaftodo_cui.cpp:146-158 | the bind loop over the table, each bind tested against the mode the binds before it left; when nothing fires, nothing is dispatched and the state is unchanged |
| Modes.FireStep | src/noaftodo_cui.cpp:147-158 | one bind fires iff it matches the key in the current mode; an autoexec bind is dispatched once, and any other leaves its command in the last slot (`Modes.Seeded`, line 153), in Command mode, with the caret at its end |
| Modes.ExitEndsBindLoop | src/noaftodo_cui.cpp:147-158 | under the model's masks, once a dispatched command has switched to Exit, the rest of the table changes nothing |
| Modes.FireOnlyDispatches | src/noaftodo_cui.cpp:146-158 | when every matching bind is autoexec and no command switches modes, the controller state is untouched |
| Modes.FiredIffSomeMatch | src/noaftodo_cui.cpp:146-158 | some bind fires iff some bind matches the key in the mode the key arrived in |
| Modes.Matching | src/noaftodo_cui.cpp:147-148 | only matching binds are selected |
| Modes.FireInCommandMode | src/noaftodo_cui.cpp:146-158 | in Command mode, when no dispatched command switches modes, it fires iff some bind matches, dispatches the commands of the matching autoexec binds in table order, and keeps the mode and the stack |
| Modes.FireWithoutSeeding | src/noaftodo_cui.cpp:146-158 | when every matching bind is autoexec and no dispatched command switches modes, each matching bind dispatches its command once in table order, and the mode, the stack and the history are unchanged |
| Modes.AutoCommandsAllAuto | src/noaftodo_cui.cpp:150 | there are no more dispatched commands than binds, and exactly as many when all binds are autoexec |
| Modes.Switched | src/noaftodo_cui.cpp:206-215 | a pop takes the mode from the stack top and shrinks the stack by one; a switch sets the mode and pushes at most the old mode |
| Modes.SetModeOn | src/noaftodo_cui.cpp:206-238 | the mode and stack follow Switched, the delta is reset, entering Command puts the index on the last slot and the caret at its end, the terminal caret is shown exactly in Command, and the controller invariant is kept |
| Modes.Exec | src/noaftodo_cui.cpp:150 | handing a command to the executor applies the mode switch the executor makes, if any, through cui_set_mode |
| Modes.SwitchKeepsStackOk | src/noaftodo_cui.cpp:206-215 | Command is never pushed, the bottom of the stack stays the Normal mode of start-up, and every mode but Normal has a mode to return to |
| Modes.SwitchThenPop | src/noaftodo_cui.cpp:206-215 | a switch to another mode followed by a pop returns to the start, unless the start was Command |
| Modes.SwitchIdempotent | src/noaftodo_cui.cpp:213-214 | switching twice to the same mode is switching once |
| Modes.CommandRoundTripGrowsStack | src/noaftodo_cui.cpp:213-214 | from any mode but Command, entering Command and then switching to Normal (line 587) lands in Normal with the old mode left on the stack |
| Counts.NormalKey | src/noaftodo_cui.cpp:382-421 | a digit sets the count to d from -1 and to 10*count+d otherwise, with the count as status; 'g' from -1 sets 0 and otherwise dispatches "g <count>"; 'l' from -1 sets -2 and otherwise dispatches "list all" for -2 or "list <count>", both then resetting to -1; 'G' sets the last id; any other key resets to -1 |
| Counts.Feed | src/noaftodo_cui.cpp:382-421 | a run of keys dispatches at most one command per key |
| Counts.DigitsAccumulate | src/noaftodo_cui.cpp:386-391 | a run of digits sets the count to its decimal value and dispatches nothing |
| Counts.TypedCount | src/noaftodo_cui.cpp:392-411 | typing the numeral of n and then 'g' runs "g n"; the numeral and then 'l' runs "list n" |
| Counts.DoubledKeys | src/noaftodo_cui.cpp:392-412 | "gg" runs "g 0" and "ll" runs "list all" |
| Counts.ListSentinelArithmetic | src/noaftodo_cui.cpp:386-412 | "l5l" runs "list -15" |
| Columns.CDiv | src/noaftodo_cui.cpp:53 | C++ `/` truncates toward zero |
| Columns.ColumnWidth | src/noaftodo_cui.cpp:48-111 | a width is never negative, and a title, list or description column is never wider than the free width |
| Columns.TagLabel | src/noaftodo_cui.cpp:67-74 | the list label exists iff the tag is inside the tag table; a named tag reads "N: name", an unnamed one "List N" |
| Columns.ColumnText | src/noaftodo_cui.cpp:55-110 | a column has text exactly when it renders: only the list column of a tag outside the table has none |
| Columns.Layout | src/noaftodo_cui.cpp:276-295 | the placement loop places at most one column per code |
| Columns.LayoutWellPlaced | src/noaftodo_cui.cpp:276-295 | every placed column starts inside the terminal, is given the width left of it, is a registered code in set order, and the next column starts three cells after its end |
| Columns.TitleDueIdAt80 | src/noaftodo_cui.cpp:276-295 | "tdi" on 80 columns places the columns at 0, 23 and 42 |
| Columns.PlaceColumns | src/noaftodo_cui.cpp:276-295 | the placement loop computes the layout, which is well placed and starts at column 0 |
| Screen.ScrollDelta | src/noaftodo_cui.cpp:313-315 | for a visible row v the delta is max(0, v-h+3), so v is drawn between the title and the status line; with nothing visible the delta is -1 |
| Screen.ScrollDeltaMinimal | src/noaftodo_cui.cpp:313-315 | no smaller non-negative delta keeps the selected row above the status line |
| Screen.Window | src/noaftodo_cui.cpp:320-324 | the row loop draws no more rows than the visible entries, and none on a terminal two rows tall or less |
| Screen.WindowOnScreen | src/noaftodo_cui.cpp:317-361 | every drawn row lies between the title and the status line, and shows the visible entry at its position, in consecutive order |
| Screen.SelectedRowDrawn | src/noaftodo_cui.cpp:313-361 | with the computed delta, the selected row is drawn at row v-delta+1 |
| Screen.ScreenRows | src/noaftodo_cui.cpp:317-361 | the row loop draws the window of visible rows on screen, and `last_string` is the row after the last one drawn |
| Screen.FilterLabel | src/noaftodo_cui.cpp:366-368 | a list filter is labelled "List " followed by its number |
| Screen.FilterLabelAllLists | src/noaftodo_cui.cpp:366-368 | the status line says "All lists" exactly for the all-lists filter |
| Screen.MaskString | src/noaftodo_cui.cpp:370-373 | the mask text has four characters |
| Screen.MaskStringRoundTrip | src/noaftodo_cui.cpp:370-373 | the four letters read back as exactly the four filter flags of the mask |
| Screen.MaskStringLetters | src/noaftodo_cui.cpp:370-373 | U, V, C and F appear exactly when their flags are set |
| Screen.MaskOfRoundTrip | src/noaftodo_cui.cpp:370-373 | every four-letter mask text is the text of some mask |
| Screen.StatusLineLayout | src/noaftodo_cui.cpp:364-375 | the status line (`Screen.StatusLine`, lines 364-373) starts with the list label, and the four mask letters follow the separator |
| Screen.StatusLineTail | src/noaftodo_cui.cpp:374-375 | a pending message ends the status line; with no entries and no message the line ends after the mask |
| Screen.StatusText | src/noaftodo_cui.cpp:366-375 | the status line starts with the list label, followed by at least the separator and the four mask letters |
| Screen.FilterLabelAgreesWithColumn | src/noaftodo_cui.cpp:67-74 | for a tag inside the table, the status label is "List " before the column's label |
| Screen.DetailsHeader | src/noaftodo_cui.cpp:474-483 | the details line is the due text, the separator and the list label the status line uses |
| Screen.CommandOffset | src/noaftodo_cui.cpp:561-562 | the offset is max(0, caret-w+3) |
| Screen.CommandWindow | src/noaftodo_cui.cpp:558-564 | the prompt throws exactly when the offset passes the end of the line; otherwise it is ':' and the line from the offset |
| Screen.CaretOnScreen | src/noaftodo_cui.cpp:561-564 | on terminals at least three wide, the caret lands in columns 1 to w-2, on the character it edits, after exactly the text before it |
| Screen.NarrowPromptThrows | src/noaftodo_cui.cpp:561-563 | on a two-column terminal an empty line makes the prompt throw |
| Wrap.WrapDescription | src/noaftodo_cui.cpp:491-519 | the description loop draws the wrapped glyphs and the marker flag, and reports whether an iteration ran to its end |
| Wrap.Description | src/noaftodo_cui.cpp:494-519 | the description loop draws at most one glyph per character |
| Wrap.DescriptionInBox | src/noaftodo_cui.cpp:496-514 | starting inside the box, every description glyph lands in the text area of the box |
| Wrap.DescriptionComplete | src/noaftodo_cui.cpp:496-519 | from a visible row the description is drawn in order from its start, and the marker appears exactly when characters were left over |
| Wrap.DescriptionInOrder | src/noaftodo_cui.cpp:496-514 | from a visible row the glyphs spell the description from the start character on |
| Wrap.DescriptionCutIffShort | src/noaftodo_cui.cpp:504-511 | from a visible row the marker is drawn exactly when characters are left over |
| Wrap.DescriptionRunsIffDrawn | src/noaftodo_cui.cpp:514-518 | from a visible row, the delta is restored exactly when some character is drawn |
| Wrap.DescriptionBelowBox | src/noaftodo_cui.cpp:504 | for every description and every start below row h-4 from row 10 down, the text is never stopped: all of it is drawn, from the bottom border down, with no marker |
| Wrap.WrapHelp | src/noaftodo_cui.cpp:726-765 | the help loop draws the wrapped help glyphs and the marker flag |
| Wrap.Help | src/noaftodo_cui.cpp:726-765 | the help loop draws at most one glyph per character |
| Wrap.HelpAtMostText | src/noaftodo_cui.cpp:752-764 | newlines and tabs are never drawn, so the glyphs are at most the other characters |
| Wrap.HelpInBox | src/noaftodo_cui.cpp:732-764 | on terminals at least 25 wide every help glyph lands in the text area, and no newline or tab is drawn |
| Wrap.NarrowHelpOverrunsBox | src/noaftodo_cui.cpp:758-763 | on a 24-wide terminal the character after a tab lands on the box's right border |
| Cui.ScrollKey | src/noaftodo_cui.cpp:529-537 | keys other than the arrows and '=' leave the delta alone |
| Cui.ScrollKeyInverse | src/noaftodo_cui.cpp:529-537 | Left then Right scrolls back, and '=' returns to the top |
| Cui.TableView | src/noaftodo_cui.cpp:266-380 | the table frame, laid out with the column set of line 277 (`Cui.ColumnSet`: all_cols when every list is shown), has one column placement per drawn row, and no more drawn rows than visible entries |
| Cui.TableDelta | src/noaftodo_cui.cpp:313-315 | the delta is -1 exactly when the selection is not visible, and otherwise keeps the selected visible row between the title and the status line |
| Cui.TableRows | src/noaftodo_cui.cpp:317-361 | no more rows than visible entries are drawn, and none on a terminal two rows tall or less |
| Cui.RowLayoutsOf | src/noaftodo_cui.cpp:332-353 | one column placement per drawn row |
| Cui.RowLayoutsOfAt | src/noaftodo_cui.cpp:336-353 | each drawn row gets the placement for its own tag |
| Cui.TableRowsShape | src/noaftodo_cui.cpp:298-361 | the table rows lie between the title and the status line, in visible order, and show visible entries |
| Cui.TableCellsPlaced | src/noaftodo_cui.cpp:336-353 | every drawn row gets well-placed columns, with the list column only for a tag inside the table |
| Cui.PlacedCellsHaveText | src/noaftodo_cui.cpp:336-352 | every column placed on a drawn row is registered and has text for that row's entry, so the list column is placed only where its content does not throw |
| Cui.PaintTable | src/noaftodo_cui.cpp:276-361 | the table painter computes the delta, the title columns, the drawn rows and their columns |
| Cui.Scroll | src/noaftodo_cui.cpp:313-315 | the delta statements compute the scroll delta |
| Cui.RowLayouts | src/noaftodo_cui.cpp:336-353 | the per-row column loop computes every row's placement |
| Cui.SelectedShown | src/noaftodo_cui.cpp:307-361 | a visible selected entry is among the drawn rows on terminals at least three rows tall |
| Cui.ExecutedLine | src/noaftodo_cui.cpp:572-575 | the executor changes no history slot; it moves the index and caret only when Enter submits a command that switches to Command |
| Cui.LeaveMode | src/noaftodo_cui.cpp:574-587 | Enter or Escape ends in Normal unless Enter submitted a command that switched to a mode other than Command, which then stays |
| Cui.SubmitCase | src/noaftodo_cui.cpp:571-588 | Enter on a non-empty line dispatches it and leaves the submitted history, cleared and pruned, with the index after the old last slot |
| Cui.CancelCase | src/noaftodo_cui.cpp:585-588 | Escape or Enter on an empty line dispatches nothing, leaves the pruned history with the last slot cleared, and ends in Normal |
| Cui.Ui.constructor | src/noaftodo_cui.cpp:21-36 | the controller starts in Normal with an empty stack, no binds, one empty history slot, no count and the welcome message |
| Cui.Ui.SetMode | src/noaftodo_cui.cpp:206-238 | the mode and stack change as the switch rule says, the delta is reset, and entering Command puts the caret at the end of the last slot |
| Cui.Ui.AddBind | src/noaftodo_cui.cpp:240-248 | the bind is appended to the table |
| Cui.Ui.Execute | src/noaftodo_cui.cpp:150 | the command is appended to the dispatched log once, and the state follows the executor's mode switch |
| Cui.Ui.RunBinds | src/noaftodo_cui.cpp:146-158 | the bind loop fires as Fire says, each bind tested against the mode the binds before it left; it dispatches the autoexec commands in order, and the new state is the one Fire computes |
| Cui.Ui.FireBind | src/noaftodo_cui.cpp:147-158 | one bind fires iff it matches; it dispatches its command or seeds the command line |
| Cui.Ui.NormalInput | src/noaftodo_cui.cpp:382-421 | the count, status message and dispatched commands follow the count grammar |
| Cui.Ui.DetailsInput | src/noaftodo_cui.cpp:522-541 | 'q' and Escape pop the mode, which the stack invariant always allows; the arrows and '=' scroll |
| Cui.Ui.HelpInput | src/noaftodo_cui.cpp:770-787 | the same keys as the details box, with the same always-possible pop |
| Cui.Ui.FilterHistory | src/noaftodo_cui.cpp:789-797 | the erase loop leaves exactly the pruned history |
| Cui.Ui.CommandInput | src/noaftodo_cui.cpp:567-673 | the line state follows the key function after the executor; a submitted line is dispatched once; leaving ends in the mode LeaveMode gives, without touching the stack; any other key stays in Command |
| Cui.Ui.LeaveLine | src/noaftodo_cui.cpp:571-589 | Enter and Escape end in the mode LeaveMode gives, with the line state of the key function, the dispatched line, the stack unchanged and the delta reset |
| Cui.Ui.CloseLine | src/noaftodo_cui.cpp:585-588 | the last slot is cleared and the history pruned; the mode becomes Normal only if it was Command; the stack is untouched |
| Cui.Ui.EnterLine | src/noaftodo_cui.cpp:571-588 | Enter on a non-empty line dispatches it once, leaves the submitted and pruned history, and ends in the mode LeaveMode gives |
| Cui.Ui.SubmitLine | src/noaftodo_cui.cpp:572-583 | the executor runs first, then the submitted history is built from the index the executor left |
| Cui.Ui.Submit | src/noaftodo_cui.cpp:575-583 | the history becomes Submitted at the browsed slot, with the index on the new empty last slot |
| Cui.Ui.EraseKey | src/noaftodo_cui.cpp:590-619 | Backspace and Delete follow the key function |
| Cui.Ui.CaretKey | src/noaftodo_cui.cpp:620-625 | Left, Right, Home and End follow the key function |
| Cui.Ui.BrowseKey | src/noaftodo_cui.cpp:626-651 | Up and Down follow the key function |
| Cui.Ui.TypeChar | src/noaftodo_cui.cpp:658-671 | a typed key follows the key function |
| Cui.Ui.DetachBrowsed | src/noaftodo_cui.cpp:592-599 | the detach block restores the history before a browsed line is edited |
| Cui.Ui.HandleKey | src/noaftodo_cui.cpp:144-175 | when a bind fired: the count resets to -1 and the state and log are Fire's; otherwise, by the mode: the count grammar with its status and dispatch, the line editor with its dispatch, leave mode, delta and terminal caret, the pop for 'q' and Escape or the scroll keys, and nothing for Exit |
| Cui.Ui.ModeInput | src/noaftodo_cui.cpp:162-175 | the key goes to the handler of the current mode, with that handler's contract (for Command: the line state, the dispatch, the mode, the stack, the delta reset on leaving and the terminal caret); Exit changes nothing |
| Cui.Ui.Settled | src/noaftodo_cui.cpp:307-311 | a settled selection, when anything is visible, is an entry id among the visible ones |
| Cui.Ui.NormalPaint | src/noaftodo_cui.cpp:266-380 | the frame is the table view with the pending message in the status line; the message is then cleared |
| Cui.Ui.DetailsPaint | src/noaftodo_cui.cpp:423-520 | the table under the details line and the wrapped description; the box delta survives exactly when an iteration ran to its end |
| Cui.Ui.HelpPaint | src/noaftodo_cui.cpp:675-768 | the table under the wrapped help text; the delta is kept |
| Cui.Ui.CommandPaint | src/noaftodo_cui.cpp:543-565 | the whole frame, the delta and the message of the painter of the mode on the stack top (`Cui.ModeFrame`, `Cui.ModeDelta`), with the prompt window of the last slot added |
| Cui.Ui.Paint | src/noaftodo_cui.cpp:182-196 | for each mode the whole frame, the delta and the message its painter leaves (`Cui.ModeFrame`, `Cui.ModeDelta`: the table alone, the details line and description box, or the help box); Command adds the prompt to the painter of the mode beneath it; Exit draws nothing and leaves the message and the delta alone |
| Cui.DetailsBox | src/noaftodo_cui.cpp:423-520 | the details frame from a non-negative delta shows the table, spells the description from its start, is marked cut exactly when characters are left over, and keeps the delta exactly when it drew a character |
| Cui.HelpBox | src/noaftodo_cui.cpp:675-768 | the help frame shows the table, keeps the delta, draws no newline or tab, and on 25 columns or more stays inside the box |

## Left out

- Curses output is not modelled: colours, attributes, borders, clearing,
  `curs_set` beyond the `caretShown` flag, the trailing blank of each row, and
  the box frames. A painter returns a `Frame` with the positions listed above.
- Column titles (line 286) and cell texts (line 344) are not part of the
  frame: a frame cell records which column is placed where. `Columns.ColumnText`
  gives a cell's text, and `Cui.PlacedCellsHaveText` shows that every placed
  cell has one.
- The column where the status line starts (line 377) is not modelled. The
  frame carries the status fields, and `Screen.StatusText` renders them.
- The loop of `cui_run` itself, `get_wch`, `li_save` and `cui_destroy` are not
  modelled. `Cui.Ui.HandleKey` and `Cui.Ui.Paint` are one iteration.
- The terminal size is refreshed by the run loop. Here the size comes in
  with `Env` at each paint.
- Modes.Exec: `cmd_exec` is a foreign call. The model keeps only the mode it
  switches to through `cui_set_mode` and the log `dispatched`. A command that
  pops the mode stack, edits the history, sets the status message, moves the
  selection or changes the task list, the tag table or the filter is not
  modelled.
- The selection-repair loop at line 309 depends on the external "down"
  command to terminate. The painters instead require the selection to be
  settled: either nothing is visible or the selected entry is.
- The configuration variables, the tag table, the task list, `ti_to_long`
  and `ti_f_str` are not modelled. They come in as parameters: `Env`, the
  thresholds in the filter, and the due text.
- UTF-8 conversion through `wstring_convert` is not modelled. Strings are
  sequences of code points.
- The help text is an input string, not the linked blob. The title and
  version banner of the help box is not modelled.
- The details box title line (line 466) is not modelled.
- The row colour choice (lines 327-330) is presentation only.
- Cui.Ui.NormalInput: the count is unbounded, so the 32-bit overflow of
  `cui_numbuffer` on long digit runs is not modelled.
- Cui.Ui.NormalPaint: the clearing of the rows after `last_string` is not
  modelled. `Screen.ScreenRows` computes `last_string` only.
- Cui.Ui.AddBind: the narrowing of a bind's key to the declared `char`
  parameter of the header is not modelled. Keys are code points.
- Thrown `out_of_range` is modelled differently at different sites:
  - the skipped 'l' column is `None`;
  - the prompt is `OutOfRange`;
  - the history index is a precondition (`CommandLine.IndexNeeded`,
    `Cui.Ui.HandleKey`);
  - the `cui_prev_modes.top()` of a pop in Details or Help never meets an
    empty stack: the stack invariant (`Modes.StackOk`) keeps the Normal mode
    of start-up at its bottom;
  - `t_list.at(cui_s_line)` in the details painter (line 464) is a
    precondition of `Cui.Ui.DetailsPaint`, `Cui.Ui.CommandPaint` and
    `Cui.Ui.Paint`: the selection must be an entry of the list.
- Cui.Ui.DetailsPaint: requires the selection to be an entry of the list,
  where the source throws `out_of_range` for an empty list or a selection
  outside it (line 464).
- Modes.ModeMask: Exit's empty mask is the model's own choice. The header
  declares `CUI_MODE_EXIT = -2` and `CUI_MODE_ALL = -1`, so `bind.mode &
  cui_mode` (line 148) is non-zero in Exit for an all-modes bind. In the
  source, an all-modes bind later in the table then still fires after an
  autoexec command has switched to Exit. If it is not autoexec it re-enters
  Command (line 154), and the loop does not stop at line 197. The model's
  `Modes.ModeAllMatchesLiveModes`, `Modes.SingleModeBind` and
  `Modes.ExitEndsBindLoop` hold under its own masks, not the header's.
- `int` width is not modelled. The deltas and coordinates are unbounded
  integers.
