/** The controller of noaftodo_cui.cpp as a class: its globals become fields,
    its input handlers and painters become methods. Commands handed to the
    command executor are recorded in the ghost log `dispatched`; the task list,
    the tag table, the filter settings and the terminal size come in as an Env. */
module Cui {
  import opened Text
  import opened Keys
  import opened Visibility
  import opened History
  import opened CommandLine
  import opened Modes
  import opened Counts
  import opened Columns
  import opened Screen
  import opened Wrap

  /** What the painters read from outside the controller: the task list, the
      tag table, the filter (tag filter, mask and the two thresholds), the two
      column sets, the status separator and the terminal size. */
  datatype Env = Env(entries: seq<Entry>, tags: seq<string>, view: ViewFilter, allCols: string, cols: string,
                     sep: string, w: int, h: int)

  /** The column codes in use: "all_cols" when every list is shown. */
  function ColumnSet(env: Env): string
  {
    if env.view.tagFilter == TagAll then env.allCols else env.cols
  }

  /** Whether the tag of entry `id` names a row of the tag table. */
  predicate TagKnown(env: Env, id: nat)
  {
    id < |env.entries| && 0 <= env.entries[id].tag < |env.tags|
  }

  /** What the table painter puts on the screen: the title-bar columns, the
      table rows with the columns of each, and the fields the status line is
      rendered from (Screen.StatusText). */
  datatype TableFrame = TableFrame(header: seq<Cell>, rows: seq<Placed>, rowCells: seq<seq<Cell>>, status: Status)

  /** What one paint puts on the screen: the table, for the boxes the header
      line, the wrapped glyphs and whether they were cut off, then the prompt. */
  datatype Frame = Frame(table: TableFrame, boxLine: string, box: seq<Glyph>, boxCut: bool, prompt: Option<Prompt>)

  const Blank := Frame(TableFrame([], [], [], Status(TagAll, 0, 0, 0, "")), "", [], false, None)

  /** The scroll keys of the details and help boxes. */
  function ScrollKey(d: int, key: char): (r: int)
    ensures key != KeyRight && key != KeyLeft && key != '=' ==> r == d
  {
    if key == KeyRight then d - 1
    else if key == KeyLeft then d + 1
    else if key == '=' then 0
    else d
  }

  /** Left then right scrolls back; '=' returns to the top. */
  lemma ScrollKeyInverse(d: int)
    ensures ScrollKey(ScrollKey(d, KeyLeft), KeyRight) == d
    ensures ScrollKey(ScrollKey(d, KeyRight), KeyLeft) == d
    ensures ScrollKey(ScrollKey(d, KeyLeft), '=') == 0
  {
  }

  /** The frame cui_normal_paint draws for the selected entry sLine and the
      pending message msg: the title-bar columns, the visible rows scrolled by
      the delta it computes, each row's columns, and the status line. */
  function TableView(env: Env, sLine: int, msg: string): (r: TableFrame)
    ensures |r.rowCells| == |r.rows|
    ensures |r.rows| <= |VisibleIds(env.entries, |env.entries|, env.view)|
  {
    TableFrame(Layout(ColumnSet(env), 0, 0, env.w, true), TableRows(env, sLine),
               RowLayoutsOf(env, ColumnSet(env), TableRows(env, sLine)),
               Status(env.view.tagFilter, env.view.mask, |env.entries|, sLine, msg))
  }

  /** The scroll delta of the table for the selected entry sLine. */
  function TableDelta(env: Env, sLine: int): (r: int)
    ensures env.h >= 3 ==> (r == -1 <==> sLine !in VisibleIds(env.entries, |env.entries|, env.view))
    ensures env.h >= 3 && sLine in VisibleIds(env.entries, |env.entries|, env.view) ==>
      0 <= IndexOf(VisibleIds(env.entries, |env.entries|, env.view), sLine) - r < env.h - 2
  {
    ScrollDelta(IndexOf(VisibleIds(env.entries, |env.entries|, env.view), sLine), env.h)
  }

  /** The rows the table draws for the selected entry sLine. */
  function TableRows(env: Env, sLine: int): (r: seq<Placed>)
    ensures |r| <= |VisibleIds(env.entries, |env.entries|, env.view)|
    ensures env.h <= 2 ==> r == []
  {
    Window(VisibleIds(env.entries, |env.entries|, env.view), TableDelta(env, sLine), env.h, 0)
  }

  /** The columns placed on each drawn row; the 'l' column of a row whose tag
      is outside the tag table is skipped. */
  function RowLayoutsOf(env: Env, cols: string, drawn: seq<Placed>): (r: seq<seq<Cell>>)
    ensures |r| == |drawn|
    decreases |drawn|
  {
    if drawn == [] then []
    else [Layout(cols, 0, 0, env.w, TagKnown(env, drawn[0].entry))] + RowLayoutsOf(env, cols, drawn[1..])
  }

  lemma {:induction false} RowLayoutsOfAt(env: Env, cols: string, drawn: seq<Placed>)
    ensures |RowLayoutsOf(env, cols, drawn)| == |drawn|
    ensures forall k :: 0 <= k < |drawn| ==>
      RowLayoutsOf(env, cols, drawn)[k] == Layout(cols, 0, 0, env.w, TagKnown(env, drawn[k].entry))
    decreases |drawn|
  {
    if drawn != [] {
      RowLayoutsOfAt(env, cols, drawn[1..]);
      forall k | 1 <= k < |drawn|
        ensures RowLayoutsOf(env, cols, drawn)[k] == Layout(cols, 0, 0, env.w, TagKnown(env, drawn[k].entry))
      {
        assert drawn[1..][k - 1] == drawn[k];
      }
    }
  }

  /** The drawn rows lie between the title bar and the status line in visible
      order, and each shows a visible entry. */
  lemma TableRowsShape(env: Env, sLine: int)
    ensures OnScreen(TableRows(env, sLine), VisibleIds(env.entries, |env.entries|, env.view), TableDelta(env, sLine), env.h)
    ensures forall k :: 0 <= k < |TableRows(env, sLine)| ==>
      TableRows(env, sLine)[k].entry < |env.entries| && IsVisible(env.entries, TableRows(env, sLine)[k].entry, env.view)
  {
    var rows := VisibleIds(env.entries, |env.entries|, env.view);
    var t := TableRows(env, sLine);
    WindowOnScreen(rows, TableDelta(env, sLine), env.h, 0);
    VisibleIdsExact(env.entries, |env.entries|, env.view);
    forall k | 0 <= k < |t|
      ensures t[k].entry < |env.entries| && IsVisible(env.entries, t[k].entry, env.view)
    {
      assert t[k].entry == rows[t[k].index];
    }
  }

  /** Every drawn row gets its own well-placed columns, the list column only
      when the row's tag is in the tag table. */
  lemma TableCellsPlaced(env: Env, sLine: int)
    ensures |TableView(env, sLine, "").rowCells| == |TableRows(env, sLine)|
    ensures forall k :: 0 <= k < |TableRows(env, sLine)| ==>
      WellPlaced(TableView(env, sLine, "").rowCells[k], ColumnSet(env), env.w, TagKnown(env, TableRows(env, sLine)[k].entry))
  {
    var t := TableRows(env, sLine);
    RowLayoutsOfAt(env, ColumnSet(env), t);
    forall k | 0 <= k < |t|
      ensures WellPlaced(RowLayoutsOf(env, ColumnSet(env), t)[k], ColumnSet(env), env.w, TagKnown(env, t[k].entry))
    {
      LayoutWellPlaced(ColumnSet(env), 0, 0, env.w, TagKnown(env, t[k].entry));
    }
  }

  /** Every column the table places on a drawn row has content: the list
      column, whose content throws for a tag outside the tag table, is placed
      only where it does not. */
  lemma PlacedCellsHaveText(env: Env, sLine: int, k: nat, dueText: string)
    requires k < |TableRows(env, sLine)|
    ensures TableRows(env, sLine)[k].entry < |env.entries|
    ensures forall c :: c in TableView(env, sLine, "").rowCells[k] ==>
      c.code in Registry && ColumnText(c.code, env.entries[TableRows(env, sLine)[k].entry], TableRows(env, sLine)[k].entry,
                                       env.tags, dueText).Some?
  {
    TableCellsPlaced(env, sLine);
    TableRowsShape(env, sLine);
    var cells := TableView(env, sLine, "").rowCells[k];
    forall c | c in cells
      ensures c.code in Registry && ColumnText(c.code, env.entries[TableRows(env, sLine)[k].entry], TableRows(env, sLine)[k].entry,
                                               env.tags, dueText).Some?
    {
      var j :| 0 <= j < |cells| && cells[j] == c;
      assert Renders(cells[j].code, TagKnown(env, TableRows(env, sLine)[k].entry));
    }
  }

  /** The table part of cui_normal_paint for the selected entry sLine: the
      title-bar loop, the visible-list loop, the delta and the row loop. */
  method PaintTable(env: Env, sLine: int) returns (header: seq<Cell>, drawn: seq<Placed>, rowCells: seq<seq<Cell>>, d: int)
    ensures d == TableDelta(env, sLine)
    ensures header == Layout(ColumnSet(env), 0, 0, env.w, true)
    ensures drawn == TableRows(env, sLine)
    ensures rowCells == RowLayoutsOf(env, ColumnSet(env), drawn)
  {
    var cols := if env.view.tagFilter == TagAll then env.allCols else env.cols;
    header := PlaceColumns(cols, env.w, true);
    var vList, vLine := VisibleRows(env.entries, env.view, sLine);
    d := Scroll(vLine, env.h);
    var lastString;
    drawn, lastString := ScreenRows(vList, d, env.h);
    TableRowsShape(env, sLine);
    rowCells := RowLayouts(env, cols, drawn);
  }

  /** The delta computation of cui_normal_paint for visible index vLine. */
  method Scroll(vLine: int, h: int) returns (d: int)
    ensures d == ScrollDelta(vLine, h)
  {
    d := 0;
    if vLine - d >= h - 2 {
      d := vLine - h + 3;
    }
    if vLine - d < 0 {
      d := vLine;
    }
  }

  /** The row loop's column placement, one row at a time. */
  method RowLayouts(env: Env, cols: string, drawn: seq<Placed>) returns (rowCells: seq<seq<Cell>>)
    requires forall k :: 0 <= k < |drawn| ==> drawn[k].entry < |env.entries|
    ensures rowCells == RowLayoutsOf(env, cols, drawn)
  {
    rowCells := [];
    var k := 0;
    while k < |drawn|
      invariant 0 <= k <= |drawn|
      invariant rowCells + RowLayoutsOf(env, cols, drawn[k..]) == RowLayoutsOf(env, cols, drawn)
    {
      var e := env.entries[drawn[k].entry];
      var cells := PlaceColumns(cols, env.w, 0 <= e.tag < |env.tags|);
      assert drawn[k..][1..] == drawn[k + 1..];
      rowCells := rowCells + [cells];
      k := k + 1;
    }
    assert RowLayoutsOf(env, cols, drawn[k..]) == [];
  }

  /** A visible selected entry is among the drawn rows once the terminal has
      room for at least one row. */
  lemma SelectedShown(env: Env, sLine: int)
    requires env.h >= 3 && 0 <= sLine < |env.entries| && IsVisible(env.entries, sLine, env.view)
    ensures exists k :: 0 <= k < |TableRows(env, sLine)| && TableRows(env, sLine)[k].entry == sLine
  {
    var rows := VisibleIds(env.entries, |env.entries|, env.view);
    VisibleIdsExact(env.entries, |env.entries|, env.view);
    assert sLine in rows;
    var v := IndexOf(rows, sLine);
    SelectedRowDrawn(rows, v as nat, env.h, 0);
    var w := TableRows(env, sLine);
    var k :| 0 <= k < |w| && w[k] == Placed(v - ScrollDelta(v, env.h) + 1, rows[v], v);
    assert 0 <= k < |w| && w[k].entry == sLine;
  }

  /** The line as the executor leaves it before Enter's own bookkeeping: a
      submitted command that switches to Command mode moves the history index
      to the last slot and the caret to its end (cui_set_mode). */
  function ExecutedLine(s: LineState, key: char, exec: Executor): (r: LineState)
    requires |s.commands| > 0
    ensures r.commands == s.commands
    ensures r != s ==> key == Newline && r.index == |s.commands| - 1 && r.cursor == |Last(s.commands)|
  {
    if key == Newline && Last(s.commands) != "" && exec(Last(s.commands)) == Some(Command)
    then LineState(s.commands, |s.commands| - 1, |Last(s.commands)|)
    else s
  }

  /** The mode Enter or Escape leaves: the mode the submitted command switched
      to, unless that is Command (or there was none), which becomes Normal. */
  function LeaveMode(s: LineState, key: char, exec: Executor): (r: Mode)
    requires |s.commands| > 0
    ensures r != Normal ==> key == Newline && Last(s.commands) != "" && exec(Last(s.commands)) == Some(r) && r != Command
    ensures key != Newline || Last(s.commands) == "" || KeepsMode(exec, Last(s.commands), Command) ==> r == Normal
  {
    if key == Newline && Last(s.commands) != "" && exec(Last(s.commands)).Some? && exec(Last(s.commands)).value != Command
    then exec(Last(s.commands)).value
    else Normal
  }

  /** Enter on a non-empty line spelled out: what LineKey and LeaveMode give. */
  lemma SubmitCase(s: LineState, exec: Executor)
    requires Editable(s) && s.index < |s.commands| && Last(s.commands) != ""
    ensures LineKey(ExecutedLine(s, Newline, exec), Newline).next
      == LineState(AfterSubmit(s.commands, ExecutedLine(s, Newline, exec).index), |s.commands|, ExecutedLine(s, Newline, exec).cursor)
    ensures LineKey(s, Newline).submitted == Some(Last(s.commands))
  {
  }

  /** Escape, or Enter on an empty line, spelled out. */
  lemma CancelCase(s: LineState, key: char, exec: Executor)
    requires Editable(s) && (key == Escape || (key == Newline && Last(s.commands) == ""))
    ensures LineKey(ExecutedLine(s, key, exec), key).next == LineState(Pruned(s.commands[|s.commands| - 1 := ""]), s.index, s.cursor)
    ensures LineKey(s, key).submitted == None && LeaveMode(s, key, exec) == Normal
  {
  }

  /** The frame the painter of mode m draws for the selected entry sLine, the
      pending message msg and the delta d it starts from: the table, then for
      Details the details line and the description wrapped from row 10 + d,
      and for Help the help text wrapped from row 8 + d. Command and Exit
      have no painter of their own. */
  function ModeFrame(env: Env, sLine: int, msg: string, d: int, m: Mode, dueText: string, helpText: string): Frame
    requires m == Details ==> 0 <= sLine < |env.entries|
  {
    match m
    case Normal => Frame(TableView(env, sLine, msg), "", [], false, None)
    case Details =>
      var w := Description(env.entries[sLine].description, 0, 5, 10 + d, env.w, env.h);
      Frame(TableView(env, sLine, msg), DetailsHeader(dueText, env.sep, env.entries[sLine].tag, env.tags),
            w.glyphs, w.truncated, None)
    case Help =>
      var w := Wrap.Help(helpText, 0, 5, 8 + d, env.w, env.h);
      Frame(TableView(env, sLine, msg), "", w.glyphs, w.truncated, None)
    case _ => Blank
  }

  /** The delta the painter of mode m leaves, starting from d: the table's
      for Normal, d again for Help, and for Details d only if the description
      loop ran an iteration to its end. */
  function ModeDelta(env: Env, sLine: int, d: int, m: Mode): int
    requires m == Details ==> 0 <= sLine < |env.entries|
  {
    match m
    case Normal => TableDelta(env, sLine)
    case Details =>
      if StepRuns(env.entries[sLine].description, 0, 5, 10 + d, env.w, env.h) then d else TableDelta(env, sLine)
    case _ => d
  }

  /** The details box from a non-negative delta spells the description from
      its start, is marked cut exactly when characters are left over, and
      keeps the delta exactly when it drew a character; otherwise the delta
      is the table's. */
  lemma DetailsBox(env: Env, sLine: int, msg: string, d: int, dueText: string, helpText: string)
    requires 0 <= sLine < |env.entries| && d >= 0
    ensures var f := ModeFrame(env, sLine, msg, d, Details, dueText, helpText);
      var desc := env.entries[sLine].description;
      && f.table == TableView(env, sLine, msg)
      && |f.box| <= |desc| && Chars(f.box) == desc[..|f.box|]
      && (f.boxCut <==> |f.box| < |desc|)
      && ModeDelta(env, sLine, d, Details) == if |f.box| > 0 then d else TableDelta(env, sLine)
  {
    var desc := env.entries[sLine].description;
    var w := Description(desc, 0, 5, 10 + d, env.w, env.h);
    assert ModeFrame(env, sLine, msg, d, Details, dueText, helpText).box == w.glyphs;
    assert ModeFrame(env, sLine, msg, d, Details, dueText, helpText).boxCut == w.truncated;
    DescriptionComplete(desc, 0, 5, 10 + d, env.w, env.h);
    assert desc[0..|w.glyphs|] == desc[..|w.glyphs|];
    DescriptionRunsIffDrawn(desc, 5, 10 + d, env.w, env.h);
  }

  /** The help box keeps the delta, draws no newline or tab, and on a
      terminal of at least 25 columns stays inside the box. */
  lemma HelpBox(env: Env, sLine: int, msg: string, d: int, dueText: string, helpText: string)
    ensures var f := ModeFrame(env, sLine, msg, d, Help, dueText, helpText);
      && f.table == TableView(env, sLine, msg) && ModeDelta(env, sLine, d, Help) == d
      && |f.box| <= |helpText| - Count(helpText, '\n') - Count(helpText, '\t')
      && (env.w >= 25 ==> forall k :: 0 <= k < |f.box| ==>
            5 <= f.box[k].x < env.w - 5 && 8 <= f.box[k].y < env.h - 4 && f.box[k].c != '\n' && f.box[k].c != '\t')
  {
    HelpAtMostText(helpText, 0, 5, 8 + d, env.w, env.h);
    assert helpText[0..] == helpText;
    if env.w >= 25 {
      HelpInBox(helpText, 0, 5, 8 + d, env.w, env.h);
    }
  }

  class Ui {
    var mode: Mode
    /** The previous-mode stack; its top is the last element. */
    var prevModes: seq<Mode>
    var binds: seq<Bind>
    var status: string
    /** The selected entry id; only commands move it. */
    var sLine: int
    var delta: int
    var numbuffer: int
    var commands: seq<string>
    var cursor: nat
    var index: nat
    /** Whether the terminal caret is visible (curs_set). */
    var caretShown: bool
    /** The commands handed to the command executor, in order. */
    ghost var dispatched: seq<string>

    /** The fields cui_set_mode and the bind loop touch, as one value. */
    function State(): Control
      reads this
    {
      Control(mode, prevModes, delta, commands, index, cursor, caretShown)
    }

    /** The controller invariant (Modes.ControlOk) on the fields. */
    predicate Valid()
      reads this
    {
      ControlOk(State())
    }

    function Line(): LineState
      reads this
    {
      LineState(commands, index, cursor)
    }

    /** Static initialisation, cui_init's empty last slot, and the first
        cui_set_mode(NORMAL) of cui_run; `title` is the program name of the
        welcome message. */
    constructor (title: string)
      ensures Valid()
      ensures mode == Normal && prevModes == [] && binds == [] && commands == [""]
      ensures status == "Welcome to " + title + "!" && numbuffer == NoCount && delta == 0
      ensures cursor == 0 && index == 0 && !caretShown && dispatched == []
    {
      mode := Normal;
      prevModes := [];
      binds := [];
      status := "Welcome to " + title + "!";
      sLine := 0;
      delta := 0;
      numbuffer := NoCount;
      commands := [""];
      cursor := 0;
      index := 0;
      caretShown := false;
      dispatched := [];
      new;
      SetMode(Switch(Normal));
    }

    /** cui_set_mode. */
    method SetMode(t: Target)
      requires StackOk(ModeState(mode, prevModes)) && |commands| > 0
      requires t.Previous? ==> |prevModes| > 0
      modifies this`mode, this`prevModes, this`delta, this`index, this`cursor, this`caretShown
      ensures Valid()
      ensures State() == SetModeOn(old(State()), t)
    {
      SwitchKeepsStackOk(ModeState(mode, prevModes), t);
      if t.Previous? {
        mode := prevModes[|prevModes| - 1];
        prevModes := prevModes[..|prevModes| - 1];
      } else {
        if mode != Command && mode != t.mode {
          prevModes := prevModes + [mode];
        }
        mode := t.mode;
      }
      delta := 0;
      match t {
        case Switch(Normal) =>
          caretShown := false;
        case Switch(Details) =>
          delta := 0;
          caretShown := false;
        case Switch(Command) =>
          caretShown := true;
          index := |commands| - 1;
          cursor := |commands[|commands| - 1]|;
        case Switch(Help) =>
          delta := 0;
          caretShown := false;
        case _ =>
      }
    }

    /** cui_bind. */
    method AddBind(b: Bind)
      modifies this`binds
      ensures binds == old(binds) + [b]
    {
      binds := binds + [b];
    }

    /** cmd_exec: the command is handed to the executor, which switches the
        mode through cui_set_mode when `exec` says so. */
    method Execute(cmd: string, exec: Executor)
      requires Valid()
      modifies this`mode, this`prevModes, this`delta, this`index, this`cursor, this`caretShown, this`dispatched
      ensures Valid()
      ensures dispatched == old(dispatched) + [cmd]
      ensures State() == Exec(old(State()), cmd, exec)
    {
      dispatched := dispatched + [cmd];
      var m := exec(cmd);
      if m.Some? {
        SetMode(Switch(m.value));
      }
    }

    /** The bind loop of cui_run: every bind is tested, in table order, against
        the key and the mode the binds before it left; an autoexec bind
        dispatches its command, any other writes its command into the last slot
        and enters Command mode. */
    method RunBinds(key: char, exec: Executor) returns (fired: bool)
      requires Valid()
      modifies this`mode, this`prevModes, this`delta, this`index, this`cursor, this`caretShown, this`commands, this`dispatched
      ensures Valid()
      ensures fired == Fire(binds, key, old(State()), exec).fired
      ensures dispatched == old(dispatched) + Fire(binds, key, old(State()), exec).dispatched
      ensures State() == Fire(binds, key, old(State()), exec).control
    {
      ghost var c0 := State();
      ghost var o := BindOutcome(false, [], c0);
      fired := false;
      var i := 0;
      assert binds[..0] == [];
      while i < |binds|
        invariant 0 <= i <= |binds| && o == Fire(binds[..i], key, c0, exec)
        invariant State() == o.control && fired == o.fired && dispatched == old(dispatched) + o.dispatched
      {
        var b := binds[i];
        FirePrefixStep(binds, i, key, c0, exec);
        FireStepFromState(o, b, key, exec);
        var hit := FireBind(b, key, exec);
        o := FireStep(o, b, key, exec);
        if hit {
          fired := true;
        }
        i := i + 1;
      }
      assert binds[..i] == binds;
    }

    /** One pass of the bind loop (Modes.FireStep). */
    method FireBind(b: Bind, key: char, exec: Executor) returns (hit: bool)
      requires Valid()
      modifies this`mode, this`prevModes, this`delta, this`index, this`cursor, this`caretShown, this`commands, this`dispatched
      ensures Valid()
      ensures hit == Matches(b, key, old(mode))
      ensures State() == FireStep(BindOutcome(false, [], old(State())), b, key, exec).control
      ensures dispatched == old(dispatched) + FireStep(BindOutcome(false, [], old(State())), b, key, exec).dispatched
    {
      ghost var c0 := State();
      hit := Matches(b, key, mode);
      if hit {
        if b.autoexec {
          Execute(b.command, exec);
        } else {
          commands := commands[|commands| - 1 := b.command];
          assert State() == Seeded(c0, b.command);
          SetMode(Switch(Command));
        }
      }
    }

    /** cui_normal_input: the count grammar; the commands it forms go to the
        executor. */
    method NormalInput(key: char, entryCount: nat, exec: Executor)
      requires Valid()
      modifies this`numbuffer, this`status, this`dispatched, this`mode, this`prevModes, this`delta, this`index, this`cursor,
        this`caretShown
      ensures Valid()
      ensures numbuffer == NormalKey(old(numbuffer), key, entryCount).count
      ensures status == if NormalKey(old(numbuffer), key, entryCount).status.Some?
        then NormalKey(old(numbuffer), key, entryCount).status.value else old(status)
      ensures dispatched == old(dispatched) + (if NormalKey(old(numbuffer), key, entryCount).command.Some?
        then [NormalKey(old(numbuffer), key, entryCount).command.value] else [])
      ensures State() == if NormalKey(old(numbuffer), key, entryCount).command.Some?
        then Exec(old(State()), NormalKey(old(numbuffer), key, entryCount).command.value, exec) else old(State())
    {
      if IsDigit(key) {
        if numbuffer == NoCount {
          numbuffer := 0;
        }
        numbuffer := numbuffer * 10 + DigitValue(key);
        status := IntToString(numbuffer);
      } else if key == 'g' {
        if numbuffer == NoCount {
          numbuffer := 0;
          status := "g";
        } else {
          Execute("g " + IntToString(numbuffer), exec);
          numbuffer := NoCount;
        }
      } else if key == 'l' {
        if numbuffer == NoCount {
          numbuffer := ListPending;
          status := "l";
        } else {
          if numbuffer == ListPending {
            Execute("list all", exec);
          } else {
            Execute("list " + IntToString(numbuffer), exec);
          }
          numbuffer := NoCount;
        }
      } else if key == 'G' {
        numbuffer := entryCount - 1;
        status := "G";
      } else {
        numbuffer := NoCount;
      }
    }

    /** cui_details_input: 'q' and Escape pop the mode, the arrows scroll. */
    method DetailsInput(key: char)
      requires Valid() && mode == Details
      modifies this`mode, this`prevModes, this`delta, this`index, this`cursor, this`caretShown
      ensures Valid()
      ensures key == 'q' || key == Escape ==> State() == SetModeOn(old(State()), Previous)
      ensures key != 'q' && key != Escape ==> State() == old(State()).(delta := ScrollKey(old(delta), key))
    {
      if key == 'q' || key == Escape {
        SetMode(Previous);
      } else if key == KeyRight {
        delta := delta - 1;
      } else if key == KeyLeft {
        delta := delta + 1;
      } else if key == '=' {
        delta := 0;
      }
    }

    /** cui_help_input: the same keys as the details box. */
    method HelpInput(key: char)
      requires Valid() && mode == Help
      modifies this`mode, this`prevModes, this`delta, this`index, this`cursor, this`caretShown
      ensures Valid()
      ensures key == 'q' || key == Escape ==> State() == SetModeOn(old(State()), Previous)
      ensures key != 'q' && key != Escape ==> State() == old(State()).(delta := ScrollKey(old(delta), key))
    {
      if key == 'q' || key == Escape {
        SetMode(Previous);
      } else if key == KeyRight {
        delta := delta - 1;
      } else if key == KeyLeft {
        delta := delta + 1;
      } else if key == '=' {
        delta := 0;
      }
    }

    /** cui_filter_history: erase every empty slot but the last, stepping the
        loop counter back after each erase. */
    method FilterHistory()
      requires |commands| > 0
      modifies this`commands
      ensures commands == Pruned(old(commands))
    {
      ghost var c0 := commands;
      ghost var j := 0;
      var i: int := 0;
      while i < |commands| - 1
        invariant 0 <= i <= |commands| - 1
        invariant 0 <= j <= |c0| - 1
        invariant commands[..i] == DropEmpty(c0[..j])
        invariant commands[i..] == c0[j..]
        decreases |commands| - i
      {
        assert c0[..j + 1][..j] == c0[..j];
        assert commands[i] == c0[j];
        if commands[i] == "" {
          commands := commands[..i] + commands[i + 1..];
          i := i - 1;
        }
        i := i + 1;
        j := j + 1;
      }
      assert c0[j..] == [Last(c0)];
      assert commands == commands[..i] + commands[i..];
    }

    /** cui_command_input: the command-line editor and its history. */
    method CommandInput(key: char, exec: Executor)
      requires Valid() && mode == Command
      requires IndexNeeded(Line(), key) ==> index < |commands|
      modifies this`commands, this`index, this`cursor, this`dispatched, this`mode, this`prevModes, this`delta, this`caretShown
      ensures Valid()
      ensures Line() == LineKey(ExecutedLine(old(Line()), key, exec), key).next
      ensures dispatched == old(dispatched) + (if LineKey(old(Line()), key).submitted.Some?
        then [LineKey(old(Line()), key).submitted.value] else [])
      ensures prevModes == old(prevModes)
      ensures LineKey(old(Line()), key).leave ==>
        mode == LeaveMode(old(Line()), key, exec) && delta == 0 && caretShown == (mode == Exit && old(caretShown))
      ensures !LineKey(old(Line()), key).leave ==> mode == Command && delta == old(delta) && caretShown == old(caretShown)
    {
      if key == Newline || key == Escape {
        LeaveLine(key, exec);
      } else if key == Rubout || key == KeyBackspace || key == KeyDc {
        EraseKey(key);
      } else if key == KeyLeft || key == KeyRight || key == KeyHome || key == KeyEnd {
        CaretKey(key);
      } else if key == KeyUp || key == KeyDown {
        BrowseKey(key);
      } else {
        TypeChar(key);
      }
    }

    /** Enter and Escape: Enter with a non-empty line hands it to the executor
        and records it; both then clear the last slot, switch to Normal mode if
        the executor left the controller in Command mode, and prune the
        history. */
    method LeaveLine(key: char, exec: Executor)
      requires Valid() && mode == Command && (key == Newline || key == Escape)
      requires IndexNeeded(Line(), key) ==> index < |commands|
      modifies this`commands, this`index, this`cursor, this`dispatched, this`mode, this`prevModes, this`delta, this`caretShown
      ensures Valid()
      ensures Line() == LineKey(ExecutedLine(old(Line()), key, exec), key).next
      ensures dispatched == old(dispatched) + (if LineKey(old(Line()), key).submitted.Some?
        then [LineKey(old(Line()), key).submitted.value] else [])
      ensures prevModes == old(prevModes) && delta == 0
      ensures mode == LeaveMode(old(Line()), key, exec) && caretShown == (mode == Exit && old(caretShown))
    {
      if key == Newline && commands[|commands| - 1] != "" {
        SubmitCase(Line(), exec);
        EnterLine(exec);
      } else {
        CancelCase(Line(), key, exec);
        CloseLine();
      }
    }

    /** Escape's block, which Enter falls through to: clear the last slot,
        leave Command mode for Normal if still in it, and prune the history. */
    method CloseLine()
      requires StackOk(ModeState(mode, prevModes)) && |commands| > 0
      modifies this`commands, this`mode, this`prevModes, this`delta, this`index, this`cursor, this`caretShown
      ensures Valid()
      ensures Line() == LineState(Pruned(old(commands)[|old(commands)| - 1 := ""]), old(index), old(cursor))
      ensures prevModes == old(prevModes)
      ensures mode == if old(mode) == Command then Normal else old(mode)
      ensures old(mode) == Command ==> delta == 0 && !caretShown
      ensures old(mode) != Command ==> delta == old(delta) && caretShown == old(caretShown)
    {
      commands := commands[|commands| - 1 := ""];
      if mode == Command {
        SetMode(Switch(Normal));
      }
      FilterHistory();
    }

    /** Enter on a non-empty line: the command goes to the executor, then the
        history bookkeeping of Submit, then Escape's block. */
    method EnterLine(exec: Executor)
      requires Valid() && mode == Command && Last(commands) != "" && index < |commands|
      modifies this`commands, this`index, this`cursor, this`dispatched, this`mode, this`prevModes, this`delta, this`caretShown
      ensures Valid()
      ensures Line() == LineState(AfterSubmit(old(commands), ExecutedLine(old(Line()), Newline, exec).index), |old(commands)|,
                                  ExecutedLine(old(Line()), Newline, exec).cursor)
      ensures dispatched == old(dispatched) + [Last(old(commands))]
      ensures prevModes == old(prevModes) && delta == 0
      ensures mode == LeaveMode(old(Line()), Newline, exec) && caretShown == (mode == Exit && old(caretShown))
    {
      SubmitLine(exec);
      CloseLine();
    }

    /** The part of Enter before Escape's block: the executor, then Submit. */
    method SubmitLine(exec: Executor)
      requires Valid() && mode == Command && Last(commands) != "" && index < |commands|
      modifies this`commands, this`index, this`cursor, this`dispatched, this`mode, this`prevModes, this`delta, this`caretShown
      ensures StackOk(ModeState(mode, prevModes)) && prevModes == old(prevModes)
      ensures commands == Submitted(old(commands), ExecutedLine(old(Line()), Newline, exec).index)
      ensures index == |old(commands)| && cursor == ExecutedLine(old(Line()), Newline, exec).cursor
      ensures dispatched == old(dispatched) + [Last(old(commands))]
      ensures LeaveMode(old(Line()), Newline, exec) == if mode == Command then Normal else mode
      ensures mode != Command ==> delta == 0 && caretShown == (mode == Exit && old(caretShown))
    {
      Execute(commands[|commands| - 1], exec);
      Submit();
    }

    /** The rest of Enter on a non-empty line: move the submitted text into the
        browsed slot through the last one, and open a new empty last slot. */
    method Submit()
      requires |commands| > 0 && index < |commands|
      modifies this`commands, this`index
      ensures commands == Submitted(old(commands), old(index)) && index == |old(commands)|
    {
      var l := |commands| - 1;
      if index != l {
        var temp := commands[l];
        commands := commands[index := commands[l]];
        commands := commands[l := temp];
      }
      commands := commands + [""];
      index := |commands| - 1;
    }

    /** Backspace and Delete: detach a browsed entry, then erase the character
        before or under the caret. */
    method EraseKey(key: char)
      requires Editable(Line()) && index < |commands| && (key == Rubout || key == KeyBackspace || key == KeyDc)
      modifies this`commands, this`index, this`cursor
      ensures Line() == LineKey(old(Line()), key).next
    {
      DetachBrowsed();
      var n := |commands| - 1;
      if key == KeyDc {
        if cursor < |commands[n]| {
          commands := commands[n := commands[n][..cursor] + commands[n][cursor + 1..]];
        }
      } else if cursor > 0 {
        commands := commands[n := commands[n][..cursor - 1] + commands[n][cursor..]];
        cursor := cursor - 1;
      }
    }

    /** The caret keys: left, right, home and end. */
    method CaretKey(key: char)
      requires Editable(Line()) && (key == KeyLeft || key == KeyRight || key == KeyHome || key == KeyEnd)
      modifies this`cursor
      ensures Line() == LineKey(old(Line()), key).next
    {
      var l := |commands| - 1;
      if key == KeyLeft {
        if cursor > 0 {
          cursor := cursor - 1;
        }
      } else if key == KeyRight {
        if cursor < |commands[l]| {
          cursor := cursor + 1;
        }
      } else if key == KeyHome {
        cursor := 0;
      } else {
        cursor := |commands[l]|;
      }
    }

    /** Up and down: exchange the browsed slot with its neighbour through the
        last slot, and pull the caret back inside the new text. */
    method BrowseKey(key: char)
      requires Editable(Line()) && (key == KeyUp || key == KeyDown)
      requires key == KeyUp ==> index < |commands|
      modifies this`commands, this`index, this`cursor
      ensures Line() == LineKey(old(Line()), key).next
    {
      var l := |commands| - 1;
      if key == KeyUp {
        if index > 0 {
          var temp := commands[index];
          commands := commands[index := commands[l]];
          commands := commands[l := commands[index - 1]];
          commands := commands[index - 1 := temp];
          index := index - 1;
          if cursor > |commands[l]| {
            cursor := |commands[l]|;
          }
        }
      } else {
        if index < l {
          var temp := commands[index];
          commands := commands[index := commands[l]];
          commands := commands[l := commands[index + 1]];
          commands := commands[index + 1 := temp];
          index := index + 1;
          if cursor > |commands[l]| {
            cursor := |commands[l]|;
          }
        }
      }
    }

    /** Any other key: detach, prune the history, and insert the key at the
        caret. */
    method TypeChar(key: char)
      requires Editable(Line()) && index < |commands| && !EditingKey(key)
      modifies this`commands, this`index, this`cursor
      ensures Line() == LineKey(old(Line()), key).next
    {
      DetachBrowsed();
      FilterHistory();
      var n := |commands| - 1;
      commands := commands[n := commands[n][..cursor] + [key] + commands[n][cursor..]];
      cursor := cursor + 1;
    }

    /** The block Backspace, Delete and a typed key start with: when browsing,
        exchange the browsed slot back and append a copy of the browsed text as
        the new last slot. */
    method DetachBrowsed()
      requires |commands| > 0 && index < |commands|
      modifies this`commands, this`index
      ensures Line() == Detached(old(Line()))
    {
      var l := |commands| - 1;
      if index != l {
        var temp := commands[l];
        commands := commands[l := commands[index]];
        commands := commands[index := temp];
        commands := commands + [temp];
        index := |commands| - 1;
      }
    }

    /** The body of cui_run's loop up to the painting: the binds, the count
        reset when one fired, and otherwise the handler of the current mode. */
    method HandleKey(key: char, entryCount: nat, exec: Executor)
      requires Valid()
      requires !Fire(binds, key, State(), exec).fired && mode == Command && IndexNeeded(Line(), key) ==> index < |commands|
      modifies this`mode, this`prevModes, this`delta, this`index, this`cursor, this`caretShown, this`commands,
        this`dispatched, this`numbuffer, this`status
      ensures Valid()
      ensures Fire(binds, key, old(State()), exec).fired ==>
        && numbuffer == NoCount && status == old(status)
        && dispatched == old(dispatched) + Fire(binds, key, old(State()), exec).dispatched
        && State() == Fire(binds, key, old(State()), exec).control
      ensures !Fire(binds, key, old(State()), exec).fired && old(mode) == Normal ==>
        && numbuffer == NormalKey(old(numbuffer), key, entryCount).count
        && status == (if NormalKey(old(numbuffer), key, entryCount).status.Some?
          then NormalKey(old(numbuffer), key, entryCount).status.value else old(status))
        && dispatched == old(dispatched) + (if NormalKey(old(numbuffer), key, entryCount).command.Some?
          then [NormalKey(old(numbuffer), key, entryCount).command.value] else [])
        && State() == (if NormalKey(old(numbuffer), key, entryCount).command.Some?
          then Exec(old(State()), NormalKey(old(numbuffer), key, entryCount).command.value, exec) else old(State()))
      ensures !Fire(binds, key, old(State()), exec).fired && old(mode) == Command ==>
        && Line() == LineKey(ExecutedLine(old(Line()), key, exec), key).next
        && numbuffer == old(numbuffer) && status == old(status) && prevModes == old(prevModes)
        && dispatched == old(dispatched) + (if LineKey(old(Line()), key).submitted.Some?
          then [LineKey(old(Line()), key).submitted.value] else [])
        && mode == (if LineKey(old(Line()), key).leave then LeaveMode(old(Line()), key, exec) else Command)
        && (if LineKey(old(Line()), key).leave then delta == 0 && caretShown == (mode == Exit && old(caretShown))
            else delta == old(delta) && caretShown == old(caretShown))
      ensures !Fire(binds, key, old(State()), exec).fired && (old(mode) == Details || old(mode) == Help) ==>
        && numbuffer == old(numbuffer) && status == old(status) && dispatched == old(dispatched)
        && State() == (if key == 'q' || key == Escape then SetModeOn(old(State()), Previous)
          else old(State()).(delta := ScrollKey(old(delta), key)))
      ensures old(mode) == Exit ==>
        State() == old(State()) && numbuffer == old(numbuffer) && status == old(status) && dispatched == old(dispatched)
    {
      FiredIffSomeMatch(binds, key, State(), exec);
      var fired := RunBinds(key, exec);
      if fired {
        numbuffer := NoCount;
      } else {
        assert State() == old(State()) && dispatched == old(dispatched) && Line() == old(Line());
        ModeInput(key, entryCount, exec);
      }
    }

    /** The switch of cui_run that hands a key no bind took to the input
        handler of the current mode; Exit has none. */
    method ModeInput(key: char, entryCount: nat, exec: Executor)
      requires Valid()
      requires mode == Command && IndexNeeded(Line(), key) ==> index < |commands|
      modifies this`mode, this`prevModes, this`delta, this`index, this`cursor, this`caretShown, this`commands,
        this`dispatched, this`numbuffer, this`status
      ensures Valid()
      ensures old(mode) == Normal ==>
        && numbuffer == NormalKey(old(numbuffer), key, entryCount).count
        && status == (if NormalKey(old(numbuffer), key, entryCount).status.Some?
          then NormalKey(old(numbuffer), key, entryCount).status.value else old(status))
        && dispatched == old(dispatched) + (if NormalKey(old(numbuffer), key, entryCount).command.Some?
          then [NormalKey(old(numbuffer), key, entryCount).command.value] else [])
        && State() == (if NormalKey(old(numbuffer), key, entryCount).command.Some?
          then Exec(old(State()), NormalKey(old(numbuffer), key, entryCount).command.value, exec) else old(State()))
      ensures old(mode) == Command ==>
        && Line() == LineKey(ExecutedLine(old(Line()), key, exec), key).next
        && numbuffer == old(numbuffer) && status == old(status) && prevModes == old(prevModes)
        && dispatched == old(dispatched) + (if LineKey(old(Line()), key).submitted.Some?
          then [LineKey(old(Line()), key).submitted.value] else [])
        && mode == (if LineKey(old(Line()), key).leave then LeaveMode(old(Line()), key, exec) else Command)
        && (if LineKey(old(Line()), key).leave then delta == 0 && caretShown == (mode == Exit && old(caretShown))
            else delta == old(delta) && caretShown == old(caretShown))
      ensures old(mode) == Details || old(mode) == Help ==>
        && numbuffer == old(numbuffer) && status == old(status) && dispatched == old(dispatched)
        && State() == (if key == 'q' || key == Escape then SetModeOn(old(State()), Previous)
          else old(State()).(delta := ScrollKey(old(delta), key)))
      ensures old(mode) == Exit ==>
        State() == old(State()) && numbuffer == old(numbuffer) && status == old(status) && dispatched == old(dispatched)
    {
      if mode == Normal {
        NormalInput(key, entryCount, exec);
      } else if mode == Details {
        DetailsInput(key);
      } else if mode == Command {
        CommandInput(key, exec);
      } else if mode == Help {
        HelpInput(key);
      }
    }

    /** Nothing to repair before painting: either no entry is visible or the
        selected one is. */
    predicate Settled(env: Env)
      reads this
      ensures Settled(env) && VisibleIds(env.entries, |env.entries|, env.view) != [] ==>
        0 <= sLine < |env.entries| && sLine in VisibleIds(env.entries, |env.entries|, env.view)
    {
      VisibleIdsExact(env.entries, |env.entries|, env.view);
      VisibleIds(env.entries, |env.entries|, env.view) == []
      || (0 <= sLine < |env.entries| && IsVisible(env.entries, sLine, env.view))
    }

    /** cui_normal_paint: the table frame for the selected entry, with the
        pending message consumed by the status line. */
    method NormalPaint(env: Env) returns (f: Frame)
      requires Settled(env)
      modifies this`delta, this`status
      ensures status == ""
      ensures delta == TableDelta(env, sLine)
      ensures f == Frame(TableView(env, sLine, old(status)), "", [], false, None)
    {
      var header, drawn, rowCells, d := PaintTable(env, sLine);
      var st := Status(env.view.tagFilter, env.view.mask, |env.entries|, sLine, status);
      delta := d;
      status := "";
      f := Frame(TableFrame(header, drawn, rowCells, st), "", [], false, None);
    }

    /** cui_details_paint: the table, then the box with the entry's due time,
        list, and wrapped description. The delta the table painter reset is
        restored only if the description loop ran an iteration to its end. */
    method DetailsPaint(env: Env, dueText: string) returns (f: Frame)
      requires Settled(env) && 0 <= sLine < |env.entries|
      modifies this`delta, this`status
      ensures status == ""
      ensures f == Frame(TableView(env, sLine, old(status)), DetailsHeader(dueText, env.sep, env.entries[sLine].tag, env.tags),
                         Description(env.entries[sLine].description, 0, 5, 10 + old(delta), env.w, env.h).glyphs,
                         Description(env.entries[sLine].description, 0, 5, 10 + old(delta), env.w, env.h).truncated, None)
      ensures delta == if StepRuns(env.entries[sLine].description, 0, 5, 10 + old(delta), env.w, env.h)
        then old(delta) else TableDelta(env, sLine)
    {
      var tdelta := delta;
      var t := NormalPaint(env);
      var e := env.entries[sLine];
      var header := DetailsHeader(dueText, env.sep, e.tag, env.tags);
      var glyphs, cut, ran := WrapDescription(e.description, env.w, env.h, tdelta);
      if ran {
        delta := tdelta;
      }
      f := Frame(t.table, header, glyphs, cut, None);
    }

    /** cui_help_paint: the table, then the box with the wrapped help text; the
        delta is always restored. */
    method HelpPaint(env: Env, helpText: string) returns (f: Frame)
      requires Settled(env)
      modifies this`delta, this`status
      ensures status == "" && delta == old(delta)
      ensures f == Frame(TableView(env, sLine, old(status)), "", Wrap.Help(helpText, 0, 5, 8 + delta, env.w, env.h).glyphs,
                         Wrap.Help(helpText, 0, 5, 8 + delta, env.w, env.h).truncated, None)
    {
      var tdelta := delta;
      var glyphs, cut := WrapHelp(helpText, env.w, env.h, tdelta);
      ghost var box := Wrap.Help(helpText, 0, 5, 8 + tdelta, env.w, env.h);
      assert glyphs == box.glyphs && cut == box.truncated;
      ghost var table := TableView(env, sLine, status);
      var t := NormalPaint(env);
      assert t.table == table;
      delta := tdelta;
      f := Frame(t.table, "", glyphs, cut, None);
    }

    /** cui_command_paint: the painter of the mode beneath Command, then the
        prompt window of the last slot. */
    method CommandPaint(env: Env, dueText: string, helpText: string) returns (f: Frame)
      requires Valid() && mode == Command && Settled(env)
      requires prevModes[|prevModes| - 1] == Details ==> 0 <= sLine < |env.entries|
      modifies this`delta, this`status
      ensures f == ModeFrame(env, sLine, old(status), old(delta), prevModes[|prevModes| - 1], dueText, helpText)
        .(prompt := Some(CommandWindow(Last(commands), cursor, env.w)))
      ensures delta == ModeDelta(env, sLine, old(delta), prevModes[|prevModes| - 1])
      ensures status == if prevModes[|prevModes| - 1] in {Normal, Details, Help} then "" else old(status)
    {
      assert |prevModes| > 0 && cursor <= |Last(commands)|;
      var top := prevModes[|prevModes| - 1];
      if top == Normal {
        f := NormalPaint(env);
      } else if top == Details {
        f := DetailsPaint(env, dueText);
      } else if top == Help {
        f := HelpPaint(env, helpText);
      } else {
        f := Blank;
      }
      f := f.(prompt := Some(CommandWindow(commands[|commands| - 1], cursor, env.w)));
    }

    /** The painting half of cui_run's loop: the painter of the current mode,
        or for Command the painter of the mode beneath it and the prompt. */
    method Paint(env: Env, dueText: string, helpText: string) returns (f: Frame)
      requires Valid() && Settled(env)
      requires mode == Details || (mode == Command && prevModes[|prevModes| - 1] == Details) ==> 0 <= sLine < |env.entries|
      modifies this`delta, this`status
      ensures mode != Command ==>
        && f == ModeFrame(env, sLine, old(status), old(delta), mode, dueText, helpText)
        && delta == ModeDelta(env, sLine, old(delta), mode)
        && status == if mode in {Normal, Details, Help} then "" else old(status)
      ensures mode == Command ==>
        && f == ModeFrame(env, sLine, old(status), old(delta), prevModes[|prevModes| - 1], dueText, helpText)
          .(prompt := Some(CommandWindow(Last(commands), cursor, env.w)))
        && delta == ModeDelta(env, sLine, old(delta), prevModes[|prevModes| - 1])
        && status == if prevModes[|prevModes| - 1] in {Normal, Details, Help} then "" else old(status)
    {
      if mode == Normal {
        f := NormalPaint(env);
      } else if mode == Details {
        f := DetailsPaint(env, dueText);
      } else if mode == Command {
        f := CommandPaint(env, dueText, helpText);
      } else if mode == Help {
        f := HelpPaint(env, helpText);
      } else {
        f := Blank;
      }
    }
  }
}
