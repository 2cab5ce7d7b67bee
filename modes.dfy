/** The modes of the controller and the bind table: which binds fire on a key. */
module Modes {
  import opened Text
  import opened History

  /** The controller's modes; Exit ends the run loop. */
  datatype Mode = Exit | Normal | Command | Help | Details

  /** The argument of cui_set_mode: -1 returns to the previous mode. */
  datatype Target = Previous | Switch(mode: Mode)

  /** The integer a mode is tested against a bind's mode mask with. Each live
      mode has a bit of its own; Exit has none. */
  function ModeMask(m: Mode): (mask: bv32)
    ensures mask == 0 <==> m == Exit
  {
    match m
    case Exit => 0
    case Normal => 0x1
    case Command => 0x2
    case Help => 0x4
    case Details => 0x8
  }

  /** The mode mask of a bind that applies everywhere (-1 in the source). */
  const ModeAll: bv32 := 0xFFFF_FFFF

  /** One row of the bind table. */
  datatype Bind = Bind(key: char, command: string, modes: bv32, autoexec: bool)

  /** The test of cui_run: the bind's mask shares a bit with the current mode and
      its key is the keystroke. */
  predicate Matches(b: Bind, key: char, m: Mode)
  {
    b.modes & ModeMask(m) != 0 && b.key == key
  }

  lemma ModeAllMatchesLiveModes(b: Bind, key: char, m: Mode)
    requires b.modes == ModeAll && b.key == key
    ensures Matches(b, key, m) <==> m != Exit
  {
  }

  /** A bind registered with the mask of one mode matches its key in that
      mode and in no other; a bind registered for Exit never matches. */
  lemma SingleModeBind(b: Bind, key: char, m: Mode, n: Mode)
    requires b.modes == ModeMask(m)
    ensures Matches(b, key, n) <==> b.key == key && n == m && m != Exit
  {
  }

  /** The controller state cui_set_mode and the bind loop touch: the mode,
      the previous-mode stack, the scroll delta, the command history with its
      index and caret, and whether the terminal caret is shown. */
  datatype Control = Control(mode: Mode, stack: seq<Mode>, delta: int, commands: seq<string>, index: nat,
                             cursor: nat, caret: bool)

  /** The controller invariant: Command is never on the stack and Command mode
      has a mode beneath it; the history has a last slot, and in Command mode
      the caret lies within it. The history index is deliberately not bound. */
  predicate ControlOk(c: Control)
  {
    StackOk(ModeState(c.mode, c.stack)) && |c.commands| > 0 && (c.mode == Command ==> c.cursor <= |Last(c.commands)|)
  }

  /** cui_set_mode on the controller state: the stack rule of Switched, the
      delta reset, the caret put at the end of the last slot when entering
      Command mode, and the terminal caret shown exactly in Command mode
      (a switch to Exit leaves it alone). */
  function SetModeOn(c: Control, t: Target): (r: Control)
    requires |c.commands| > 0 && (t.Previous? ==> |c.stack| > 0)
    ensures ModeState(r.mode, r.stack) == Switched(ModeState(c.mode, c.stack), t)
    ensures r.delta == 0 && r.commands == c.commands
    ensures t == Switch(Command) ==> r.index == |c.commands| - 1 && r.cursor == |Last(c.commands)|
    ensures t != Switch(Command) ==> r.index == c.index && r.cursor == c.cursor
    ensures r.caret == if t.Switch? && t.mode != Exit then t.mode == Command else c.caret
    ensures StackOk(ModeState(c.mode, c.stack)) ==> ControlOk(r)
  {
    var ms := Switched(ModeState(c.mode, c.stack), t);
    var enter := t == Switch(Command);
    Control(ms.mode, ms.stack, 0, c.commands,
            if enter then |c.commands| - 1 else c.index,
            if enter then |Last(c.commands)| else c.cursor,
            if t.Switch? && t.mode != Exit then enter else c.caret)
  }

  /** The command executor (cmd_exec) as far as the controller sees it: the
      mode a command switches to through cui_set_mode, if any. */
  type Executor = string -> Option<Mode>

  /** A command leaves the mode m as it is. */
  predicate KeepsMode(exec: Executor, cmd: string, m: Mode)
  {
    exec(cmd).None? || exec(cmd) == Some(m)
  }

  /** Handing `cmd` to the executor. */
  function Exec(c: Control, cmd: string, exec: Executor): Control
    requires |c.commands| > 0
  {
    if exec(cmd).Some? then SetModeOn(c, Switch(exec(cmd).value)) else c
  }

  /** The last slot written with a bind's command. */
  function Seeded(c: Control, text: string): Control
    requires |c.commands| > 0
  {
    c.(commands := c.commands[|c.commands| - 1 := text])
  }

  /** What the bind loop did: whether any bind fired, the autoexec commands it
      dispatched in order, and the controller state it left. */
  datatype BindOutcome = BindOutcome(fired: bool, dispatched: seq<string>, control: Control)

  /** One pass of the bind loop: a bind that matches the key and the mode the
      loop is in now either dispatches its command, or writes it into the last
      slot and enters Command mode. */
  function FireStep(o: BindOutcome, b: Bind, key: char, exec: Executor): (r: BindOutcome)
    requires ControlOk(o.control)
    ensures ControlOk(r.control) && |r.control.commands| == |o.control.commands|
    ensures r.fired == (o.fired || Matches(b, key, o.control.mode))
    ensures r.dispatched == o.dispatched + (if Matches(b, key, o.control.mode) && b.autoexec then [b.command] else [])
    ensures !Matches(b, key, o.control.mode) ==> r.control == o.control
    ensures Matches(b, key, o.control.mode) && !b.autoexec ==>
      r.control.mode == Command && Last(r.control.commands) == b.command && r.control.cursor == |b.command|
  {
    if !Matches(b, key, o.control.mode) then o
    else if b.autoexec then BindOutcome(true, o.dispatched + [b.command], Exec(o.control, b.command, exec))
    else BindOutcome(true, o.dispatched, SetModeOn(Seeded(o.control, b.command), Switch(Command)))
  }

  /** The bind loop of cui_run over the table `bs`, with no early exit: each
      bind is tested against the mode the binds before it left. */
  function Fire(bs: seq<Bind>, key: char, c: Control, exec: Executor): (o: BindOutcome)
    requires ControlOk(c)
    ensures ControlOk(o.control) && |o.control.commands| == |c.commands|
    ensures !o.fired ==> o.dispatched == [] && o.control == c
    decreases |bs|
  {
    if bs == [] then BindOutcome(false, [], c)
    else FireStep(Fire(bs[..|bs| - 1], key, c, exec), bs[|bs| - 1], key, exec)
  }

  /** The bind loop over a prefix one bind longer is one more FireStep. */
  lemma FirePrefixStep(bs: seq<Bind>, i: nat, key: char, c: Control, exec: Executor)
    requires ControlOk(c) && i < |bs|
    ensures Fire(bs[..i + 1], key, c, exec) == FireStep(Fire(bs[..i], key, c, exec), bs[i], key, exec)
  {
    assert bs[..i + 1][..i] == bs[..i];
  }

  /** A FireStep's new state depends only on the state before it, not on what
      earlier binds fired or dispatched. */
  lemma FireStepFromState(o: BindOutcome, b: Bind, key: char, exec: Executor)
    requires ControlOk(o.control)
    ensures FireStep(o, b, key, exec).control == FireStep(BindOutcome(false, [], o.control), b, key, exec).control
    ensures FireStep(o, b, key, exec).dispatched
      == o.dispatched + FireStep(BindOutcome(false, [], o.control), b, key, exec).dispatched
  {
  }

  /** Some bind fires iff some bind matches the mode the key arrived in: the
      first matching bind is tested before anything can change the mode. */
  lemma {:induction false} FiredIffSomeMatch(bs: seq<Bind>, key: char, c: Control, exec: Executor)
    requires ControlOk(c)
    ensures Fire(bs, key, c, exec).fired <==> exists i :: 0 <= i < |bs| && Matches(bs[i], key, c.mode)
    decreases |bs|
  {
    if bs != [] {
      var p := bs[..|bs| - 1];
      FiredIffSomeMatch(p, key, c, exec);
      if exists i :: 0 <= i < |p| && Matches(p[i], key, c.mode) {
        var i :| 0 <= i < |p| && Matches(p[i], key, c.mode);
        assert bs[i] == p[i];
      }
    }
  }

  /** Once a dispatched command has switched to Exit, no later bind can match:
      the rest of the table changes nothing. */
  lemma {:induction false} ExitEndsBindLoop(bs: seq<Bind>, q: seq<Bind>, key: char, c: Control, exec: Executor)
    requires ControlOk(c) && Fire(bs, key, c, exec).control.mode == Exit
    ensures Fire(bs + q, key, c, exec) == Fire(bs, key, c, exec)
    decreases |q|
  {
    if q == [] {
      assert bs + q == bs;
    } else {
      var q' := q[..|q| - 1];
      assert (bs + q)[..|bs + q| - 1] == bs + q';
      ExitEndsBindLoop(bs, q', key, c, exec);
    }
  }

  /** The binds of `bs` that match in mode m, in table order. */
  function Matching(bs: seq<Bind>, key: char, m: Mode): (r: seq<Bind>)
    ensures forall k :: 0 <= k < |r| ==> Matches(r[k], key, m)
    decreases |bs|
  {
    if bs == [] then []
    else Matching(bs[..|bs| - 1], key, m) + (if Matches(bs[|bs| - 1], key, m) then [bs[|bs| - 1]] else [])
  }

  /** The commands of the autoexec binds among `bs`, in order. */
  function AutoCommands(bs: seq<Bind>): seq<string>
    decreases |bs|
  {
    if bs == [] then []
    else AutoCommands(bs[..|bs| - 1]) + (if bs[|bs| - 1].autoexec then [bs[|bs| - 1].command] else [])
  }

  /** In Command mode, when no dispatched command switches to another mode,
      no bind can change the mode, so every matching bind fires in table order:
      the autoexec ones dispatch their commands, and the last non-autoexec one
      leaves its command in the command line. */
  lemma {:induction false} FireInCommandMode(bs: seq<Bind>, key: char, c: Control, exec: Executor)
    requires ControlOk(c) && c.mode == Command
    requires forall k :: 0 <= k < |bs| && Matches(bs[k], key, Command) && bs[k].autoexec ==>
      KeepsMode(exec, bs[k].command, Command)
    ensures Fire(bs, key, c, exec).fired <==> Matching(bs, key, Command) != []
    ensures Fire(bs, key, c, exec).dispatched == AutoCommands(Matching(bs, key, Command))
    ensures Fire(bs, key, c, exec).control.mode == Command
    ensures Fire(bs, key, c, exec).control.stack == c.stack
    decreases |bs|
  {
    if bs != [] {
      var p := bs[..|bs| - 1];
      FireInCommandMode(p, key, c, exec);
      var mp := Matching(p, key, Command);
      var b := bs[|bs| - 1];
      var o := Fire(p, key, c, exec);
      assert Fire(bs, key, c, exec) == FireStep(o, b, key, exec);
      if Matches(b, key, Command) {
        assert (mp + [b])[..|mp + [b]| - 1] == mp;
        assert Matching(bs, key, Command) == mp + [b];
      } else {
        assert Matching(bs, key, Command) == mp;
      }
    }
  }

  /** When every matching bind is autoexec and no dispatched command switches
      to another mode, the mode, the stack and the history never change, and
      the dispatched commands are those of all matching binds. */
  lemma {:induction false} FireWithoutSeeding(bs: seq<Bind>, key: char, c: Control, exec: Executor)
    requires ControlOk(c)
    requires forall k :: 0 <= k < |bs| && Matches(bs[k], key, c.mode) ==>
      bs[k].autoexec && KeepsMode(exec, bs[k].command, c.mode)
    ensures Fire(bs, key, c, exec).dispatched == AutoCommands(Matching(bs, key, c.mode))
    ensures |Fire(bs, key, c, exec).dispatched| == |Matching(bs, key, c.mode)|
    ensures Fire(bs, key, c, exec).control.mode == c.mode && Fire(bs, key, c, exec).control.stack == c.stack
    ensures Fire(bs, key, c, exec).control.commands == c.commands
    decreases |bs|
  {
    if bs != [] {
      var p := bs[..|bs| - 1];
      FireWithoutSeeding(p, key, c, exec);
      AutoCommandsAllAuto(Matching(p, key, c.mode));
      var mp := Matching(p, key, c.mode);
      var b := bs[|bs| - 1];
      var o := Fire(p, key, c, exec);
      assert Fire(bs, key, c, exec) == FireStep(o, b, key, exec);
      if Matches(b, key, c.mode) {
        assert (mp + [b])[..|mp + [b]| - 1] == mp;
        assert Matching(bs, key, c.mode) == mp + [b];
        assert Fire(bs, key, c, exec).control == Exec(o.control, b.command, exec);
      } else {
        assert Matching(bs, key, c.mode) == mp;
      }
      AutoCommandsAllAuto(Matching(bs, key, c.mode));
    }
  }

  /** When no matching bind seeds the command line and no dispatched command
      switches modes, the bind loop leaves the controller state untouched. */
  lemma {:induction false} FireOnlyDispatches(bs: seq<Bind>, key: char, c: Control, exec: Executor)
    requires ControlOk(c)
    requires forall k :: 0 <= k < |bs| && Matches(bs[k], key, c.mode) ==> bs[k].autoexec && exec(bs[k].command).None?
    ensures Fire(bs, key, c, exec).control == c
    decreases |bs|
  {
    if bs != [] {
      FireOnlyDispatches(bs[..|bs| - 1], key, c, exec);
    }
  }

  lemma {:induction false} AutoCommandsAllAuto(bs: seq<Bind>)
    ensures |AutoCommands(bs)| <= |bs|
    ensures (forall k :: 0 <= k < |bs| ==> bs[k].autoexec) ==> |AutoCommands(bs)| == |bs|
    decreases |bs|
  {
    if bs != [] {
      AutoCommandsAllAuto(bs[..|bs| - 1]);
    }
  }

  /** The mode and the previous-mode stack (top = last element). */
  datatype ModeState = ModeState(mode: Mode, stack: seq<Mode>)

  /** cui_set_mode's effect on the mode and the stack: Previous pops the top
      into the mode; a switch pushes the current mode unless it is Command or
      the target itself. */
  function Switched(s: ModeState, t: Target): (r: ModeState)
    requires t.Previous? ==> |s.stack| > 0
    ensures t.Switch? ==> r.mode == t.mode
    ensures t.Previous? ==> r.mode == s.stack[|s.stack| - 1] && |r.stack| == |s.stack| - 1
    ensures t.Switch? ==> r.stack == s.stack || r.stack == s.stack + [s.mode]
  {
    match t
    case Previous => ModeState(s.stack[|s.stack| - 1], s.stack[..|s.stack| - 1])
    case Switch(m) =>
      if s.mode != Command && s.mode != m then ModeState(m, s.stack + [s.mode]) else ModeState(m, s.stack)
  }

  /** Command is never on the stack, and Command mode always has a mode to
      paint beneath it. The bottom of the stack is the Normal mode of start-up,
      and the stack is empty only in Normal mode, so every mode but Normal has
      a mode to return to. */
  predicate StackOk(s: ModeState)
  {
    (forall k :: 0 <= k < |s.stack| ==> s.stack[k] != Command)
    && (|s.stack| > 0 ==> s.stack[0] == Normal)
    && (s.stack == [] ==> s.mode == Normal)
  }

  lemma {:induction false} SwitchKeepsStackOk(s: ModeState, t: Target)
    requires StackOk(s) && (t.Previous? ==> |s.stack| > 0)
    ensures StackOk(Switched(s, t))
    ensures Switched(s, t).mode != Normal ==> |Switched(s, t).stack| > 0
  {
    var r := Switched(s, t);
    if t.Switch? && r.stack == s.stack + [s.mode] {
      assert s.stack == [] ==> s.mode == Normal;
      assert r.stack[0] == Normal;
    }
  }

  /** Switching to another mode and popping returns to where it started,
      unless it started in Command mode, which is never pushed. */
  lemma SwitchThenPop(s: ModeState, m: Mode)
    requires s.mode != m
    ensures s.mode != Command ==> Switched(Switched(s, Switch(m)), Previous) == s
    ensures s.mode == Command && |s.stack| > 0 ==>
      Switched(Switched(s, Switch(m)), Previous) == ModeState(s.stack[|s.stack| - 1], s.stack[..|s.stack| - 1])
  {
    if s.mode != Command {
      assert (s.stack + [s.mode])[..|s.stack|] == s.stack;
    }
  }

  /** Switching to the mode already current changes nothing but the mode. */
  lemma SwitchIdempotent(s: ModeState, m: Mode)
    ensures Switched(Switched(s, Switch(m)), Switch(m)) == Switched(s, Switch(m))
  {
  }

  /** Leaving Command mode switches to Normal without popping: a round trip
      through Command from any other mode ends in Normal, not in the mode
      that opened the command line, and leaves that mode on the stack. */
  lemma CommandRoundTripGrowsStack(m: Mode, st: seq<Mode>)
    requires m != Command
    ensures Switched(Switched(ModeState(m, st), Switch(Command)), Switch(Normal)) == ModeState(Normal, st + [m])
  {
  }
}
