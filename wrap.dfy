/** The text wrapping of the details box (the description) and the help box:
    which character is drawn at which screen cell, and whether the text was cut
    off with the "<- ... ->" marker. */
module Wrap {

  /** One character drawn at row y, column x. */
  datatype Glyph = Glyph(y: int, x: int, c: char)

  /** The drawn glyphs and whether the marker was drawn. */
  datatype Wrapped = Wrapped(glyphs: seq<Glyph>, truncated: bool)

  /** The characters of the glyphs, in order. */
  function Chars(gs: seq<Glyph>): string
    decreases |gs|
  {
    if gs == [] then "" else [gs[0].c] + Chars(gs[1..])
  }

  /** The description loop of cui_details_paint from character i at (x, y):
      wrap to column 5 of the next row on reaching column w-5, stop with the
      marker when the row reaches h-4, and draw only rows from 10 down. */
  function Description(desc: string, i: nat, x: int, y: int, w: int, h: int): (r: Wrapped)
    requires i <= |desc|
    ensures |r.glyphs| <= |desc| - i
    decreases |desc| - i
  {
    if i == |desc| then Wrapped([], false)
    else
      var x1 := if x == w - 5 then 5 else x;
      var y1 := if x == w - 5 then y + 1 else y;
      if y1 == h - 4 then Wrapped([], true)
      else
        var rest := Description(desc, i + 1, x1 + 1, y1, w, h);
        Wrapped((if y1 >= 10 then [Glyph(y1, x1, desc[i])] else []) + rest.glyphs, rest.truncated)
  }

  /** Whether the loop from character i at (x, y) completes an iteration:
      there is a character left and the wrap does not land on row h-4. */
  predicate StepRuns(desc: string, i: nat, x: int, y: int, w: int, h: int)
  {
    i < |desc| && (if x == w - 5 then y + 1 else y) != h - 4
  }

  /** The description loop itself, starting at column 5 of row 10 + tdelta;
      `ran` says whether an iteration ran to its end (where the source
      restores the delta). */
  method WrapDescription(desc: string, w: int, h: int, tdelta: int) returns (glyphs: seq<Glyph>, truncated: bool, ran: bool)
    ensures glyphs == Description(desc, 0, 5, 10 + tdelta, w, h).glyphs
    ensures truncated == Description(desc, 0, 5, 10 + tdelta, w, h).truncated
    ensures ran <==> StepRuns(desc, 0, 5, 10 + tdelta, w, h)
  {
    glyphs := [];
    truncated := false;
    ran := false;
    var x := 5;
    var y := 10 + tdelta;
    var i := 0;
    while i < |desc|
      invariant 0 <= i <= |desc|
      invariant glyphs + Description(desc, i, x, y, w, h).glyphs == Description(desc, 0, 5, 10 + tdelta, w, h).glyphs
      invariant Description(desc, i, x, y, w, h).truncated == Description(desc, 0, 5, 10 + tdelta, w, h).truncated
      invariant ran == (i > 0)
      invariant i == 0 ==> x == 5 && y == 10 + tdelta
      invariant i > 0 ==> StepRuns(desc, 0, 5, 10 + tdelta, w, h)
    {
      ghost var r := Description(desc, i, x, y, w, h);
      ghost var runs := StepRuns(desc, i, x, y, w, h);
      if x == w - 5 {
        x := 5;
        y := y + 1;
      }
      if y == h - 4 {
        assert r.truncated && r.glyphs == [] && !runs;
        truncated := true;
        break;
      }
      assert runs;
      ghost var rest := Description(desc, i + 1, x + 1, y, w, h);
      assert r.truncated == rest.truncated;
      if y >= 10 {
        assert r.glyphs == [Glyph(y, x, desc[i])] + rest.glyphs;
        assert glyphs + r.glyphs == (glyphs + [Glyph(y, x, desc[i])]) + rest.glyphs;
        glyphs := glyphs + [Glyph(y, x, desc[i])];
      } else {
        assert r.glyphs == rest.glyphs;
      }
      x := x + 1;
      ran := true;
      i := i + 1;
    }
  }

  /** On a terminal at least 11 wide, starting inside the box, every glyph lands
      in the text area: columns 5 to w-6, rows 10 to h-5. */
  lemma {:induction false} DescriptionInBox(desc: string, i: nat, x: int, y: int, w: int, h: int)
    requires i <= |desc| && w >= 11 && 5 <= x <= w - 5
    requires y < h - 4 || (y == h - 4 && x != w - 5)
    ensures forall k :: 0 <= k < |Description(desc, i, x, y, w, h).glyphs| ==>
      var g := Description(desc, i, x, y, w, h).glyphs[k];
      5 <= g.x < w - 5 && 10 <= g.y < h - 4
    decreases |desc| - i
  {
    if i < |desc| {
      var x1 := if x == w - 5 then 5 else x;
      var y1 := if x == w - 5 then y + 1 else y;
      if y1 != h - 4 {
        DescriptionInBox(desc, i + 1, x1 + 1, y1, w, h);
      }
    }
  }

  /** Starting on a visible row, the loop draws the rest of the description
      in order, and it is cut off exactly when it drew fewer characters than
      were left. */
  lemma DescriptionComplete(desc: string, i: nat, x: int, y: int, w: int, h: int)
    requires i <= |desc| && y >= 10
    ensures |Description(desc, i, x, y, w, h).glyphs| <= |desc| - i
    ensures Chars(Description(desc, i, x, y, w, h).glyphs) == desc[i..i + |Description(desc, i, x, y, w, h).glyphs|]
    ensures Description(desc, i, x, y, w, h).truncated <==> |Description(desc, i, x, y, w, h).glyphs| < |desc| - i
  {
    DescriptionInOrder(desc, i, x, y, w, h);
    DescriptionCutIffShort(desc, i, x, y, w, h);
  }

  /** From a visible row every character is drawn, so the glyphs spell a
      prefix of the rest of the description. */
  lemma {:induction false} DescriptionInOrder(desc: string, i: nat, x: int, y: int, w: int, h: int)
    requires i <= |desc| && y >= 10
    ensures Chars(Description(desc, i, x, y, w, h).glyphs) == desc[i..i + |Description(desc, i, x, y, w, h).glyphs|]
    decreases |desc| - i
  {
    if i < |desc| {
      var x1 := if x == w - 5 then 5 else x;
      var y1 := if x == w - 5 then y + 1 else y;
      if y1 != h - 4 {
        var rest := Description(desc, i + 1, x1 + 1, y1, w, h);
        DescriptionInOrder(desc, i + 1, x1 + 1, y1, w, h);
        var n := |rest.glyphs|;
        var gs := [Glyph(y1, x1, desc[i])] + rest.glyphs;
        assert Description(desc, i, x, y, w, h).glyphs == gs;
        assert gs[1..] == rest.glyphs;
        assert Chars(gs) == [desc[i]] + desc[i + 1..i + 1 + n];
        var d := desc[i..i + 1 + n];
        assert d == [d[0]] + d[1..];
      }
    }
  }

  /** From a visible row the text is cut off exactly when fewer characters
      were drawn than were left. */
  lemma {:induction false} DescriptionCutIffShort(desc: string, i: nat, x: int, y: int, w: int, h: int)
    requires i <= |desc| && y >= 10
    ensures Description(desc, i, x, y, w, h).truncated <==> |Description(desc, i, x, y, w, h).glyphs| < |desc| - i
    decreases |desc| - i
  {
    if i < |desc| {
      var x1 := if x == w - 5 then 5 else x;
      var y1 := if x == w - 5 then y + 1 else y;
      if y1 != h - 4 {
        DescriptionCutIffShort(desc, i + 1, x1 + 1, y1, w, h);
      }
    }
  }

  /** From a visible row, an iteration runs to its end exactly when a
      character is drawn: the delta is restored exactly when the box shows
      some of the description. */
  lemma DescriptionRunsIffDrawn(desc: string, x: int, y: int, w: int, h: int)
    requires y >= 10
    ensures StepRuns(desc, 0, x, y, w, h) <==> |Description(desc, 0, x, y, w, h).glyphs| > 0
  {
  }

  /** The row test is an equality: when the delta pushes a visible row below
      the box's last text row, nothing stops the text, and all of the rest is
      drawn on the bottom border (row h-3) and further down, with no marker. */
  lemma {:induction false} DescriptionBelowBox(desc: string, i: nat, x: int, y: int, w: int, h: int)
    requires i <= |desc| && y > h - 4 && y >= 10
    ensures !Description(desc, i, x, y, w, h).truncated
    ensures |Description(desc, i, x, y, w, h).glyphs| == |desc| - i
    ensures forall k :: 0 <= k < |Description(desc, i, x, y, w, h).glyphs| ==>
      Description(desc, i, x, y, w, h).glyphs[k].y >= h - 3
    decreases |desc| - i
  {
    if i < |desc| {
      var x1 := if x == w - 5 then 5 else x;
      var y1 := if x == w - 5 then y + 1 else y;
      DescriptionBelowBox(desc, i + 1, x1 + 1, y1, w, h);
    }
  }

  /** The help loop of cui_help_paint from character i at (x, y): the same wrap
      at column w-5, a marker once the row reaches h-4 or beyond, a newline moves
      to column 5 of the next row, a tab moves to column 20, and only rows from
      8 down are drawn. */
  function Help(text: string, i: nat, x: int, y: int, w: int, h: int): (r: Wrapped)
    requires i <= |text|
    ensures |r.glyphs| <= |text| - i
    decreases |text| - i
  {
    if i == |text| then Wrapped([], false)
    else
      var x1 := if x == w - 5 then 5 else x;
      var y1 := if x == w - 5 then y + 1 else y;
      if y1 >= h - 4 then Wrapped([], true)
      else if text[i] == '\n' then
        var rest := Help(text, i + 1, 5, y1 + 1, w, h);
        Wrapped(rest.glyphs, rest.truncated)
      else if text[i] == '\t' then
        var rest := Help(text, i + 1, 20, y1, w, h);
        Wrapped(rest.glyphs, rest.truncated)
      else
        var rest := Help(text, i + 1, x1 + 1, y1, w, h);
        Wrapped((if y1 >= 8 then [Glyph(y1, x1, text[i])] else []) + rest.glyphs, rest.truncated)
  }

  /** The help loop itself, starting at column 5 of row 8 + tdelta. */
  method WrapHelp(text: string, w: int, h: int, tdelta: int) returns (glyphs: seq<Glyph>, truncated: bool)
    ensures Wrapped(glyphs, truncated) == Help(text, 0, 5, 8 + tdelta, w, h)
  {
    glyphs := [];
    truncated := false;
    var x := 5;
    var y := 8 + tdelta;
    var i := 0;
    while i < |text|
      invariant 0 <= i <= |text|
      invariant glyphs + Help(text, i, x, y, w, h).glyphs == Help(text, 0, 5, 8 + tdelta, w, h).glyphs
      invariant Help(text, i, x, y, w, h).truncated == Help(text, 0, 5, 8 + tdelta, w, h).truncated
    {
      ghost var r := Help(text, i, x, y, w, h);
      if x == w - 5 {
        x := 5;
        y := y + 1;
      }
      if y >= h - 4 {
        assert r.truncated && r.glyphs == [];
        truncated := true;
        break;
      }
      var c := text[i];
      if c == '\n' {
        assert r == Help(text, i + 1, 5, y + 1, w, h);
        y := y + 1;
        x := 5;
      } else if c == '\t' {
        assert r == Help(text, i + 1, 20, y, w, h);
        x := 20;
      } else {
        ghost var rest := Help(text, i + 1, x + 1, y, w, h);
        assert r.truncated == rest.truncated;
        if y >= 8 {
          assert r.glyphs == [Glyph(y, x, c)] + rest.glyphs;
          assert glyphs + r.glyphs == (glyphs + [Glyph(y, x, c)]) + rest.glyphs;
          glyphs := glyphs + [Glyph(y, x, c)];
        } else {
          assert r.glyphs == rest.glyphs;
        }
        x := x + 1;
      }
      i := i + 1;
    }
  }

  /** Each help character is drawn at most once, and newlines and tabs never:
      they only move the position, and the marker stops the text. */
  lemma {:induction false} HelpAtMostText(text: string, i: nat, x: int, y: int, w: int, h: int)
    requires i <= |text|
    ensures |Help(text, i, x, y, w, h).glyphs| <= |text| - i - Count(text[i..], '\n') - Count(text[i..], '\t')
    decreases |text| - i
  {
    if i < |text| {
      var x1 := if x == w - 5 then 5 else x;
      var y1 := if x == w - 5 then y + 1 else y;
      assert text[i..] == [text[i]] + text[i + 1..];
      if y1 < h - 4 {
        if text[i] == '\n' {
          HelpAtMostText(text, i + 1, 5, y1 + 1, w, h);
        } else if text[i] == '\t' {
          HelpAtMostText(text, i + 1, 20, y1, w, h);
        } else {
          HelpAtMostText(text, i + 1, x1 + 1, y1, w, h);
        }
      }
      CountBound(text[i..], '\n', '\t');
    }
  }

  /** How often `ch` occurs in `s`. */
  function Count(s: string, ch: char): nat
    decreases |s|
  {
    if s == [] then 0 else (if s[0] == ch then 1 else 0) + Count(s[1..], ch)
  }

  lemma {:induction false} CountBound(s: string, a: char, b: char)
    requires a != b
    ensures Count(s, a) + Count(s, b) <= |s|
    decreases |s|
  {
    if s != [] {
      CountBound(s[1..], a, b);
    }
  }

  /** On a terminal at least 25 wide every help glyph lands in the text area,
      columns 5 to w-6 and rows 8 to h-5, wherever the delta starts it; no
      newline or tab is drawn. */
  lemma {:induction false} HelpInBox(text: string, i: nat, x: int, y: int, w: int, h: int)
    requires i <= |text| && w >= 25 && 5 <= x <= w - 5
    ensures forall k :: 0 <= k < |Help(text, i, x, y, w, h).glyphs| ==>
      var g := Help(text, i, x, y, w, h).glyphs[k];
      5 <= g.x < w - 5 && 8 <= g.y < h - 4 && g.c != '\n' && g.c != '\t'
    decreases |text| - i
  {
    if i < |text| {
      var x1 := if x == w - 5 then 5 else x;
      var y1 := if x == w - 5 then y + 1 else y;
      if y1 < h - 4 {
        if text[i] == '\n' {
          HelpInBox(text, i + 1, 5, y1 + 1, w, h);
        } else if text[i] == '\t' {
          HelpInBox(text, i + 1, 20, y1, w, h);
        } else {
          HelpInBox(text, i + 1, x1 + 1, y1, w, h);
        }
      }
    }
  }

  /** Below 25 columns a tab jumps past the wrap column, which is then never
      met again: on a 24-wide terminal the character after a tab lands on the
      box's right border (column w-4). */
  lemma NarrowHelpOverrunsBox()
    ensures Help("\ta", 0, 5, 8, 24, 20).glyphs == [Glyph(8, 20, 'a')]
  {
    assert Help("\ta", 2, 21, 8, 24, 20).glyphs == [];
    assert Help("\ta", 1, 20, 8, 24, 20).glyphs == [Glyph(8, 20, 'a')];
  }
}
