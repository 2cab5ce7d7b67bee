/** The screen arithmetic of the painters: the scroll delta, the rows the table
    occupies, the status line with its four-letter filter mask, the details
    header and the command-line window. */
module Screen {
  import opened Text
  import opened Visibility

  /** The scroll delta cui_normal_paint computes for the visible index v of the
      selected line on a terminal h rows high (v is -1 when it is not visible). */
  function ScrollDelta(v: int, h: int): (d: int)
    ensures h >= 3 && v >= 0 ==> d == (if v - h + 3 > 0 then v - h + 3 else 0)
    ensures h >= 3 && v >= 0 ==> 0 <= v - d < h - 2
    ensures h >= 3 && v == -1 ==> d == -1
  {
    var d0 := 0;
    var d1 := if v - d0 >= h - 2 then v - h + 3 else d0;
    if v - d1 < 0 then v else d1
  }

  /** No smaller non-negative delta keeps the selected row above the status line. */
  lemma ScrollDeltaMinimal(v: int, h: int, d: int)
    requires h >= 3 && v >= 0
    requires 0 <= d && v - d < h - 2
    ensures ScrollDelta(v, h) <= d
  {
  }

  /** A table row on screen: the screen row, the entry id and its visible index. */
  datatype Placed = Placed(y: int, entry: nat, index: nat)

  /** The rows the table loop draws from visible index l on: it stops at the
      first index that would land on the status line and skips those above the
      delta. */
  function Window(rows: seq<nat>, delta: int, h: int, l: nat): (r: seq<Placed>)
    ensures l <= |rows| ==> |r| <= |rows| - l
    ensures h <= 2 ==> r == []
    decreases |rows| - l
  {
    if l >= |rows| || l - delta >= h - 2 then []
    else if l >= delta then [Placed(l - delta + 1, rows[l], l)] + Window(rows, delta, h, l + 1)
    else Window(rows, delta, h, l + 1)
  }

  /** Every drawn row lies between the title bar and the status line, shows the
      entry at its visible index, and rows come in visible order. */
  predicate OnScreen(ps: seq<Placed>, rows: seq<nat>, delta: int, h: int)
  {
    && (forall k :: 0 <= k < |ps| ==>
          && 1 <= ps[k].y <= h - 2
          && ps[k].index < |rows|
          && ps[k].entry == rows[ps[k].index]
          && ps[k].y == ps[k].index - delta + 1)
    && (forall k :: 0 <= k < |ps| - 1 ==> ps[k + 1].index == ps[k].index + 1)
  }

  lemma {:induction false} WindowOnScreen(rows: seq<nat>, delta: int, h: int, l: nat)
    ensures OnScreen(Window(rows, delta, h, l), rows, delta, h)
    ensures forall k :: 0 <= k < |Window(rows, delta, h, l)| ==> Window(rows, delta, h, l)[k].index >= l
    ensures |Window(rows, delta, h, l)| > 0 && l >= delta ==> Window(rows, delta, h, l)[0].index == l
    decreases |rows| - l
  {
    if l < |rows| && l - delta < h - 2 {
      WindowOnScreen(rows, delta, h, l + 1);
      if l >= delta {
        var p := Placed(l - delta + 1, rows[l], l);
        var rest := Window(rows, delta, h, l + 1);
        assert Window(rows, delta, h, l) == [p] + rest;
        ConsOnScreen(p, rest, rows, delta, h);
      } else {
        assert Window(rows, delta, h, l) == Window(rows, delta, h, l + 1);
      }
    } else {
      assert Window(rows, delta, h, l) == [];
    }
  }

  lemma ConsOnScreen(p: Placed, rest: seq<Placed>, rows: seq<nat>, delta: int, h: int)
    requires OnScreen(rest, rows, delta, h)
    requires 1 <= p.y <= h - 2 && p.index < |rows| && p.entry == rows[p.index] && p.y == p.index - delta + 1
    requires forall k :: 0 <= k < |rest| ==> rest[k].index > p.index
    requires |rest| > 0 ==> rest[0].index == p.index + 1
    ensures OnScreen([p] + rest, rows, delta, h)
    ensures forall k :: 0 <= k < |[p] + rest| ==> ([p] + rest)[k].index >= p.index
  {
    var s := [p] + rest;
    forall k | 0 <= k < |s| - 1
      ensures s[k + 1].index == s[k].index + 1
    {
      assert s[k + 1] == rest[k];
      if k > 0 {
        assert s[k] == rest[k - 1];
      }
    }
  }

  /** With the delta the painter computes, the selected row is drawn. */
  lemma {:induction false} SelectedRowDrawn(rows: seq<nat>, v: nat, h: int, l: nat)
    requires h >= 3 && v < |rows| && l <= v
    ensures Placed(v - ScrollDelta(v, h) + 1, rows[v], v) in Window(rows, ScrollDelta(v, h), h, l)
    decreases v - l
  {
    var d := ScrollDelta(v, h);
    assert l - d < h - 2;
    if l == v {
      assert Window(rows, d, h, l)[0] == Placed(v - d + 1, rows[v], v);
    } else {
      SelectedRowDrawn(rows, v, h, l + 1);
      if l >= d {
        assert Window(rows, d, h, l) == [Placed(l - d + 1, rows[l], l)] + Window(rows, d, h, l + 1);
      } else {
        assert Window(rows, d, h, l) == Window(rows, d, h, l + 1);
      }
    }
  }

  /** The row loop of cui_normal_paint: the rows it draws and `last_string`, the
      first screen row the clearing loop after it starts from. */
  method ScreenRows(rows: seq<nat>, delta: int, h: int) returns (drawn: seq<Placed>, lastString: int)
    ensures drawn == Window(rows, delta, h, 0)
    ensures OnScreen(drawn, rows, delta, h)
    ensures drawn == [] ==> lastString == 0
    ensures drawn != [] ==> lastString == drawn[|drawn| - 1].y + 1
  {
    drawn := [];
    lastString := 0;
    var l := 0;
    while l < |rows|
      invariant 0 <= l <= |rows|
      invariant drawn + Window(rows, delta, h, l) == Window(rows, delta, h, 0)
      invariant drawn == [] ==> lastString == 0
      invariant drawn != [] ==> lastString == drawn[|drawn| - 1].y + 1
    {
      if l - delta >= h - 2 {
        assert Window(rows, delta, h, l) == [];
        break;
      }
      if l >= delta {
        var p := Placed(l - delta + 1, rows[l], l);
        assert Window(rows, delta, h, l) == [p] + Window(rows, delta, h, l + 1);
        assert drawn + Window(rows, delta, h, l) == (drawn + [p]) + Window(rows, delta, h, l + 1);
        drawn := drawn + [p];
        lastString := l - delta + 2;
      } else {
        assert Window(rows, delta, h, l) == Window(rows, delta, h, l + 1);
      }
      l := l + 1;
    }
    assert Window(rows, delta, h, l) == [];
    WindowOnScreen(rows, delta, h, 0);
  }

  /** The list part of the status line; unlike the 'l' column it never throws,
      because an out-of-range tag filter only drops the name. */
  function FilterLabel(tagFilter: int, tags: seq<string>): (r: string)
    ensures tagFilter != TagAll ==>
      && 5 + |IntToString(tagFilter)| <= |r|
      && r[..5] == "List "
      && r[5..5 + |IntToString(tagFilter)|] == IntToString(tagFilter)
  {
    if tagFilter == TagAll then "All lists"
    else
      var name := if 0 <= tagFilter < |tags| && tags[tagFilter] != IntToString(tagFilter) then ": " + tags[tagFilter] else "";
      "List " + IntToString(tagFilter) + name
  }

  /** Only the all-lists filter is labelled "All lists"; every list is
      labelled "List ..." instead. */
  lemma FilterLabelAllLists(tagFilter: int, tags: seq<string>)
    ensures FilterLabel(tagFilter, tags) == "All lists" <==> tagFilter == TagAll
  {
    if tagFilter != TagAll {
      assert FilterLabel(tagFilter, tags)[0] == 'L';
    }
  }

  /** The four filter flags as letters U, V, C, F, each '_' when clear. */
  function MaskString(m: Mask): (s: string)
    ensures |s| == 4
  {
    [if m & FilterUncat != 0 then 'U' else '_',
     if m & FilterComplete != 0 then 'V' else '_',
     if m & FilterComing != 0 then 'C' else '_',
     if m & FilterFailed != 0 then 'F' else '_']
  }

  /** Reads a mask back from its four letters (the reference for MaskString). */
  function MaskOf(s: string): Mask
    requires |s| == 4
  {
    (if s[0] == 'U' then FilterUncat else 0)
    | (if s[1] == 'V' then FilterComplete else 0)
    | (if s[2] == 'C' then FilterComing else 0)
    | (if s[3] == 'F' then FilterFailed else 0)
  }

  predicate IsMaskString(s: string)
  {
    |s| == 4 && s[0] in "U_" && s[1] in "V_" && s[2] in "C_" && s[3] in "F_"
  }

  /** The letters say exactly which of the four flags are set: reading them back
      gives the mask restricted to the flag bits. */
  lemma MaskStringRoundTrip(m: Mask)
    ensures IsMaskString(MaskString(m))
    ensures MaskOf(MaskString(m)) == m & (FilterUncat | FilterComplete | FilterComing | FilterFailed)
  {
    MaskStringLetters(m);
    FlagBits(m);
  }

  /** Each letter is shown exactly when its flag is set. */
  lemma MaskStringLetters(m: Mask)
    ensures (MaskString(m)[0] == 'U') == (m & FilterUncat != 0) && (MaskString(m)[1] == 'V') == (m & FilterComplete != 0)
    ensures (MaskString(m)[2] == 'C') == (m & FilterComing != 0) && (MaskString(m)[3] == 'F') == (m & FilterFailed != 0)
  {
  }

  lemma FlagBits(m: Mask)
    ensures m & 0x1111 ==
      (if m & FilterUncat != 0 then FilterUncat else 0)
      | (if m & FilterComplete != 0 then FilterComplete else 0)
      | (if m & FilterComing != 0 then FilterComing else 0)
      | (if m & FilterFailed != 0 then FilterFailed else 0)
  {
  }

  lemma MaskOfRoundTrip(s: string)
    requires IsMaskString(s)
    ensures MaskString(MaskOf(s)) == s
  {
    var m := MaskOf(s);
    assert (m & FilterUncat != 0) == (s[0] == 'U');
    assert (m & FilterComplete != 0) == (s[1] == 'V');
    assert (m & FilterComing != 0) == (s[2] == 'C');
    assert (m & FilterFailed != 0) == (s[3] == 'F');
  }

  /** The selection part " <sep> s/last", absent for an empty list. */
  function SelectionPart(count: nat, sLine: int, sep: string): string
  {
    if count == 0 then "" else " " + sep + " " + IntToString(sLine) + "/" + IntToString(count - 1)
  }

  /** The message part " <sep> msg", absent when there is no pending message. */
  function MessagePart(msg: string, sep: string): string
  {
    if msg != "" then " " + sep + " " + msg else ""
  }

  /** The fields of the status line: the list filter, the filter mask, the
      number of entries, the selected entry and the pending message. */
  datatype Status = Status(tagFilter: int, mask: Mask, count: nat, sLine: int, msg: string)

  /** The status line as drawn, with the tag table and the separator. */
  function StatusText(st: Status, tags: seq<string>, sep: string): (r: string)
    ensures |FilterLabel(st.tagFilter, tags)| + |sep| + 6 <= |r|
    ensures r[..|FilterLabel(st.tagFilter, tags)|] == FilterLabel(st.tagFilter, tags)
  {
    StatusLineLayout(st.tagFilter, tags, st.mask, sep, st.count, st.sLine, st.msg);
    StatusLine(st.tagFilter, tags, st.mask, sep, st.count, st.sLine, st.msg)
  }

  /** The status line cui_normal_paint builds: list label, filter mask,
      selection and the pending message, joined by the status separator. */
  function StatusLine(tagFilter: int, tags: seq<string>, m: Mask, sep: string, count: nat, sLine: int, msg: string): string
  {
    Joined(FilterLabel(tagFilter, tags), sep, MaskString(m), SelectionPart(count, sLine, sep) + MessagePart(msg, sep))
  }

  /** The label, the separator in spaces, the mask and the rest of the line. */
  function Joined(title: string, sep: string, ms: string, tail: string): string
  {
    title + " " + sep + " " + ms + tail
  }

  lemma JoinedPieces(title: string, sep: string, ms: string, tail: string)
    ensures |Joined(title, sep, ms, tail)| == |title| + |sep| + 2 + |ms| + |tail|
    ensures Joined(title, sep, ms, tail)[..|title|] == title
    ensures Joined(title, sep, ms, tail)[|title| + |sep| + 2..|title| + |sep| + 2 + |ms|] == ms
    ensures Joined(title, sep, ms, tail)[|title| + |sep| + 2 + |ms|..] == tail
  {
    var line := Joined(title, sep, ms, tail);
    assert line == (title + " " + sep + " ") + ms + tail;
    Pieces(title + " " + sep + " ", ms, tail);
    assert line == title + (" " + sep + " " + ms + tail);
    Pieces(title, " " + sep + " " + ms + tail, "");
  }

  /** The status line starts with the list label and carries the mask letters
      right after the first separator. */
  lemma StatusLineLayout(tagFilter: int, tags: seq<string>, m: Mask, sep: string, count: nat, sLine: int, msg: string)
    ensures StatusLine(tagFilter, tags, m, sep, count, sLine, msg)[..|FilterLabel(tagFilter, tags)|] == FilterLabel(tagFilter, tags)
    ensures |FilterLabel(tagFilter, tags)| + |sep| + 6 <= |StatusLine(tagFilter, tags, m, sep, count, sLine, msg)|
    ensures MaskOf(StatusLine(tagFilter, tags, m, sep, count, sLine, msg)[|FilterLabel(tagFilter, tags)| + |sep| + 2..|FilterLabel(tagFilter, tags)| + |sep| + 6])
      == m & (FilterUncat | FilterComplete | FilterComing | FilterFailed)
  {
    JoinedPieces(FilterLabel(tagFilter, tags), sep, MaskString(m), SelectionPart(count, sLine, sep) + MessagePart(msg, sep));
    MaskStringRoundTrip(m);
  }

  /** A pending message ends the status line; with an empty list and no
      message the line ends with the mask. */
  lemma StatusLineTail(tagFilter: int, tags: seq<string>, m: Mask, sep: string, count: nat, sLine: int, msg: string)
    ensures msg != "" ==> |msg| <= |StatusLine(tagFilter, tags, m, sep, count, sLine, msg)|
    ensures msg != "" ==> StatusLine(tagFilter, tags, m, sep, count, sLine, msg)[|StatusLine(tagFilter, tags, m, sep, count, sLine, msg)| - |msg|..] == msg
    ensures count == 0 && msg == "" ==> |StatusLine(tagFilter, tags, m, sep, count, sLine, msg)| == |FilterLabel(tagFilter, tags)| + |sep| + 6
  {
    JoinedEndsWithMessage(FilterLabel(tagFilter, tags), sep, MaskString(m), SelectionPart(count, sLine, sep), msg);
  }

  lemma JoinedEndsWithMessage(title: string, sep: string, ms: string, sel: string, msg: string)
    ensures msg != "" ==> |msg| <= |Joined(title, sep, ms, sel + MessagePart(msg, sep))|
    ensures msg != "" ==> Joined(title, sep, ms, sel + MessagePart(msg, sep))[|Joined(title, sep, ms, sel + MessagePart(msg, sep))| - |msg|..] == msg
    ensures sel == "" && msg == "" ==> |Joined(title, sep, ms, sel + MessagePart(msg, sep))| == |title| + |sep| + 2 + |ms|
  {
    var mp := MessagePart(msg, sep);
    JoinedPieces(title, sep, ms, sel + mp);
    if msg != "" {
      Pieces(sel, " " + sep + " ", msg);
      assert sel + mp == sel + " " + sep + " " + msg;
      Suffix(Joined(title, sep, ms, sel + mp), |title| + |sep| + 2 + |ms|, sel + mp, msg);
    }
  }

  lemma Suffix(line: string, k: nat, tail: string, end: string)
    requires k <= |line| && line[k..] == tail
    requires |end| <= |tail| && tail[|tail| - |end|..] == end
    ensures |end| <= |line| && line[|line| - |end|..] == end
  {
    assert line[|line| - |end|..] == line[k..][|tail| - |end|..];
  }

  /** Slicing a concatenation of three strings gives back its pieces. */
  lemma Pieces(a: string, b: string, c: string)
    ensures (a + b + c)[..|a|] == a
    ensures (a + b + c)[|a|..|a| + |b|] == b
    ensures (a + b + c)[|a| + |b|..] == c
  {
  }

  /** For a tag inside the tag table the status label is the column label with
      "List " in front when the list has a name, and the same when it has not. */
  lemma FilterLabelAgreesWithColumn(tag: int, tags: seq<string>)
    requires 0 <= tag < |tags|
    ensures tags[tag] != IntToString(tag) ==>
      FilterLabel(tag, tags) == "List " + IntToString(tag) + ": " + tags[tag]
    ensures tags[tag] == IntToString(tag) ==> FilterLabel(tag, tags) == "List " + tags[tag]
  {
  }

  /** Line 7 of the details box: due text, separator and the list label, which
      is the status line's title for the entry's tag. */
  function DetailsHeader(dueText: string, sep: string, tag: int, tags: seq<string>): (s: string)
    ensures tag != TagAll ==> s == dueText + " " + sep + " " + FilterLabel(tag, tags)
  {
    var name := if 0 <= tag < |tags| && tags[tag] != IntToString(tag) then ": " + tags[tag] else "";
    dueText + " " + sep + " " + "List " + IntToString(tag) + name
  }

  /** The horizontal scroll of the command line: the caret stays at least two
      cells from the right edge. */
  function CommandOffset(cursor: int, w: int): (off: int)
    ensures off >= 0 && off >= cursor - w + 3
    ensures off == 0 || off == cursor - w + 3
  {
    var o := cursor - w + 3;
    if o < 0 then 0 else o
  }

  /** What cui_command_paint puts on the last row: ':' and the last slot from
      the offset on, with the caret column; `substr` throws when the offset lies
      past the end of the line. */
  datatype Prompt = Prompt(text: string, caret: int) | OutOfRange

  function CommandWindow(line: string, cursor: nat, w: int): (p: Prompt)
    ensures p.OutOfRange? <==> CommandOffset(cursor, w) > |line|
    ensures p.Prompt? ==> |p.text| == 1 + |line| - CommandOffset(cursor, w) && p.text[0] == ':'
  {
    var off := CommandOffset(cursor, w);
    if off > |line| then OutOfRange
    else Prompt(":" + line[off..], 1 + cursor - off)
  }

  /** On a terminal at least three wide, with the caret inside the line, the
      prompt never throws, the caret lands in columns 1..w-2 on the character it
      edits, and the text left of it is the line up to the caret. */
  lemma CaretOnScreen(line: string, cursor: nat, w: int)
    requires w >= 3 && cursor <= |line|
    ensures CommandWindow(line, cursor, w).Prompt?
    ensures 1 <= CommandWindow(line, cursor, w).caret <= w - 2
    ensures CommandWindow(line, cursor, w).caret <= |CommandWindow(line, cursor, w).text|
    ensures cursor < |line| ==> CommandWindow(line, cursor, w).text[CommandWindow(line, cursor, w).caret] == line[cursor]
    ensures CommandWindow(line, cursor, w).text[1..CommandWindow(line, cursor, w).caret] == line[CommandOffset(cursor, w)..cursor]
    ensures cursor <= w - 3 ==> CommandWindow(line, cursor, w).caret == cursor + 1
  {
    var off := CommandOffset(cursor, w);
    assert 0 <= off <= cursor;
    var p := CommandWindow(line, cursor, w);
    assert p == Prompt(":" + line[off..], 1 + cursor - off);
    assert p.text[1..] == line[off..];
    assert p.text[1..p.caret] == line[off..][..cursor - off];
  }

  /** On a terminal narrower than three cells the offset can pass the end of
      the line, and the paint throws even on an empty prompt. */
  lemma NarrowPromptThrows()
    ensures CommandWindow("", 0, 2).OutOfRange?
  {
  }
}
