/** The count grammar of Normal mode (cui_normal_input) as a function of the
    pending count and the key. The count uses two sentinels: -1 for "no count"
    and -2 for "'l' pressed". */
module Counts {
  import opened Text

  const NoCount: int := -1
  const ListPending: int := -2

  /** What one key does in Normal mode: the new count, the command dispatched
      (if any) and the new status message (if it changes). */
  datatype Outcome = Outcome(count: int, command: Option<string>, status: Option<string>)

  function NormalKey(count: int, key: char, entries: nat): (o: Outcome)
    ensures o.command.Some? <==> (key == 'g' || key == 'l') && count != NoCount
    ensures o.command.Some? ==> o.count == NoCount && o.status == None
    ensures key == 'g' && count == NoCount ==> o == Outcome(0, None, Some("g"))
    ensures key == 'g' && count != NoCount ==> o.command == Some("g " + IntToString(count))
    ensures key == 'l' && count == NoCount ==> o == Outcome(ListPending, None, Some("l"))
    ensures key == 'l' && count == ListPending ==> o.command == Some("list all")
    ensures key == 'l' && count != NoCount && count != ListPending ==> o.command == Some("list " + IntToString(count))
    ensures key == 'G' ==> o == Outcome(entries - 1, None, Some("G"))
    ensures IsDigit(key) ==> o.count == (if count == NoCount then 0 else count) * 10 + DigitValue(key)
    ensures IsDigit(key) ==> o.command == None && o.status == Some(IntToString(o.count))
    ensures !IsDigit(key) && key !in "glG" ==> o == Outcome(NoCount, None, None)
  {
    if IsDigit(key) then
      var c := (if count == NoCount then 0 else count) * 10 + DigitValue(key);
      Outcome(c, None, Some(IntToString(c)))
    else if key == 'g' then
      if count == NoCount then Outcome(0, None, Some("g"))
      else Outcome(NoCount, Some("g " + IntToString(count)), None)
    else if key == 'l' then
      if count == NoCount then Outcome(ListPending, None, Some("l"))
      else if count == ListPending then Outcome(NoCount, Some("list all"), None)
      else Outcome(NoCount, Some("list " + IntToString(count)), None)
    else if key == 'G' then
      Outcome(entries - 1, None, Some("G"))
    else
      Outcome(NoCount, None, None)
  }

  /** The pending count and the commands dispatched after a run of keys. */
  datatype Typed = Typed(count: int, commands: seq<string>)

  /** The count and the commands dispatched after typing `keys` in Normal mode;
      each key dispatches at most one command. */
  function Feed(count: int, keys: string, entries: nat): (r: Typed)
    ensures |r.commands| <= |keys|
    decreases |keys|
  {
    if keys == [] then Typed(count, [])
    else
      var prev := Feed(count, keys[..|keys| - 1], entries);
      var o := NormalKey(prev.count, keys[|keys| - 1], entries);
      Typed(o.count, prev.commands + (if o.command.Some? then [o.command.value] else []))
  }

  /** Typing digits with no count pending accumulates their decimal value and
      dispatches nothing. */
  lemma {:induction false} DigitsAccumulate(s: string, entries: nat)
    requires |s| > 0 && AllDigits(s)
    ensures Feed(NoCount, s, entries).count == DigitsValue(s)
    ensures Feed(NoCount, s, entries).commands == []
    decreases |s|
  {
    var p := s[..|s| - 1];
    var d := s[|s| - 1];
    assert IsDigit(d);
    var prevCount: int := if |p| > 0 then DigitsValue(p) else NoCount;
    if |p| > 0 {
      DigitsAccumulate(p, entries);
    } else {
      assert p == [];
      assert DigitsValue(p) == 0;
    }
    assert Feed(NoCount, p, entries) == Typed(prevCount, []);
    var o := NormalKey(prevCount, d, entries);
    assert o.count == DigitsValue(p) * 10 + DigitValue(d);
    assert o.command == None;
  }

  /** Typing the decimal numeral of n and then 'g' dispatches "g n"; typing it
      and then 'l' dispatches "list n". */
  lemma TypedCount(n: nat, key: char, entries: nat)
    requires key == 'g' || key == 'l'
    ensures Feed(NoCount, NatToString(n) + [key], entries)
         == Typed(NoCount, [(if key == 'g' then "g " else "list ") + NatToString(n)])
  {
    var s := NatToString(n);
    DigitsAccumulate(s, entries);
    NatToStringRoundTrip(n);
    assert (s + [key])[..|s + [key]| - 1] == s;
    assert (s + [key])[|s + [key]| - 1] == key;
    assert Feed(NoCount, s, entries) == Typed(n, []);
  }

  /** "gg" jumps to line 0 and "ll" lists all lists. */
  lemma DoubledKeys(entries: nat)
    ensures Feed(NoCount, "gg", entries) == Typed(NoCount, ["g 0"])
    ensures Feed(NoCount, "ll", entries) == Typed(NoCount, ["list all"])
  {
    assert "gg"[..1] == "g" && "g"[..0] == "";
    assert Feed(NoCount, "g", entries) == Typed(0, []);
    assert IntToString(0) == "0";
    assert "g " + IntToString(0) == "g 0";
    assert "ll"[..1] == "l" && "l"[..0] == "";
    assert Feed(NoCount, "l", entries) == Typed(ListPending, []);
  }

  /** A digit after 'l' builds on the -2 sentinel: "l5l" dispatches "list -15". */
  lemma ListSentinelArithmetic(entries: nat)
    ensures Feed(NoCount, "l5l", entries) == Typed(NoCount, ["list -15"])
  {
    assert "l5l"[..2] == "l5" && "l5"[..1] == "l" && "l"[..0] == "";
    assert Feed(NoCount, "l", entries) == Typed(ListPending, []);
    assert DigitValue('5') == 5;
    assert Feed(NoCount, "l5", entries) == Typed(-15, []);
    assert IntToString(-15) == "-15" by {
      assert NatToString(15) == NatToString(1) + [DigitChar(5)];
    }
    assert "list " + IntToString(-15) == "list -15";
  }
}
