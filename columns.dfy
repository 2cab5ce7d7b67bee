/** The column registry of cui_init and the column placement loop shared by the
    title bar and the table rows of cui_normal_paint. */
module Columns {
  import opened Text
  import opened Visibility

  /** The registered column codes: title, list, due, description, id. */
  const Registry: set<char> := {'t', 'l', 'd', 'D', 'i'}

  /** C++ `/` on int: the quotient truncated toward zero. */
  function CDiv(a: int, b: int): (q: int)
    requires b > 0
    ensures a >= 0 ==> q == a / b
    ensures a < 0 ==> q == -((-a) / b)
  {
    if a >= 0 then a / b else -((-a) / b)
  }

  /** The width function of a column, given the terminal width, the width left
      after the columns already placed and the number of codes in the set. */
  function ColumnWidth(code: char, w: int, free: int, cols: int): (width: int)
    requires code in Registry
    ensures free >= 0 ==> 0 <= width
    ensures free >= 0 && code != 'd' && code != 'i' ==> width <= free
  {
    match code
    case 't' => CDiv(free, 4)
    case 'l' => CDiv(free, 10)
    case 'd' => 16
    case 'D' => free
    case 'i' => 3
  }

  /** The 'l' column's label; `t_tags.at` throws (None) for a tag outside the
      tag table, which makes the caller skip the column. */
  function TagLabel(tag: int, tags: seq<string>): (r: Option<string>)
    ensures r.Some? <==> 0 <= tag < |tags|
    ensures r.Some? && tags[tag] != IntToString(tag) ==> r.value == IntToString(tag) + ": " + tags[tag]
    ensures r.Some? && tags[tag] == IntToString(tag) ==> r.value == "List " + IntToString(tag)
  {
    if 0 <= tag < |tags| && tags[tag] != IntToString(tag) then Some(IntToString(tag) + ": " + tags[tag])
    else if 0 <= tag < |tags| then Some("List " + tags[tag])
    else None
  }

  /** The text a column shows for entry `e` at id `id`; `dueText` is the
      external formatting of the due time. None when the content throws. */
  function ColumnText(code: char, e: Entry, id: int, tags: seq<string>, dueText: string): (r: Option<string>)
    requires code in Registry
    ensures r.None? <==> code == 'l' && !(0 <= e.tag < |tags|)
    ensures r.Some? <==> Renders(code, 0 <= e.tag < |tags|)
  {
    match code
    case 't' => Some(e.title)
    case 'l' => TagLabel(e.tag, tags)
    case 'd' => Some(dueText)
    case 'D' => Some(e.description)
    case 'i' => Some(IntToString(id))
  }

  /** Whether the column `code` gets drawn: it is registered, and for a row
      whose tag is outside the tag table it is not the 'l' column. */
  predicate Renders(code: char, tagOk: bool)
  {
    code in Registry && (code != 'l' || tagOk)
  }

  /** One placed column: its code and position in the code string, its left x,
      its width, the free width its width function was given, and whether the
      separator is drawn after it. */
  datatype Cell = Cell(code: char, column: nat, x: int, width: int, free: int, separator: bool)

  /** The placement loop from code `coln` at x onward: stop once x reaches the
      terminal width; skip codes that do not render without advancing; advance
      by the width plus the three separator cells otherwise. */
  function Layout(cols: string, coln: nat, x: int, w: int, tagOk: bool): (r: seq<Cell>)
    ensures coln <= |cols| ==> |r| <= |cols| - coln
    decreases |cols| - coln
  {
    if coln >= |cols| || x >= w then []
    else if !Renders(cols[coln], tagOk) then Layout(cols, coln + 1, x, w, tagOk)
    else
      var cw := ColumnWidth(cols[coln], w, w - x, |cols|);
      [Cell(cols[coln], coln, x, cw, w - x, coln < |cols| - 1 && x + cw < w)]
        + Layout(cols, coln + 1, x + cw + 3, w, tagOk)
  }

  /** What every placement satisfies: each column starts inside the terminal,
      is given exactly the width left of it, is a rendering code of the set in
      set order, and the next column starts three cells after its end. */
  predicate WellPlaced(cells: seq<Cell>, cols: string, w: int, tagOk: bool)
  {
    && (forall k :: 0 <= k < |cells| ==>
          && 0 <= cells[k].x < w
          && cells[k].free == w - cells[k].x
          && cells[k].column < |cols|
          && cells[k].code == cols[cells[k].column]
          && Renders(cells[k].code, tagOk)
          && 0 <= cells[k].width)
    && (forall k :: 0 <= k < |cells| - 1 ==>
          cells[k + 1].x == cells[k].x + cells[k].width + 3 && cells[k].column < cells[k + 1].column)
  }

  lemma {:induction false} LayoutWellPlaced(cols: string, coln: nat, x: int, w: int, tagOk: bool)
    requires x >= 0
    ensures WellPlaced(Layout(cols, coln, x, w, tagOk), cols, w, tagOk)
    ensures forall k :: 0 <= k < |Layout(cols, coln, x, w, tagOk)| ==> Layout(cols, coln, x, w, tagOk)[k].column >= coln
    ensures |Layout(cols, coln, x, w, tagOk)| > 0 ==> Layout(cols, coln, x, w, tagOk)[0].x == x
    decreases |cols| - coln
  {
    if coln < |cols| && x < w {
      if !Renders(cols[coln], tagOk) {
        assert Layout(cols, coln, x, w, tagOk) == Layout(cols, coln + 1, x, w, tagOk);
        LayoutWellPlaced(cols, coln + 1, x, w, tagOk);
      } else {
        var cw := ColumnWidth(cols[coln], w, w - x, |cols|);
        LayoutWellPlaced(cols, coln + 1, x + cw + 3, w, tagOk);
        LayoutPlacesHead(cols, coln, x, w, tagOk);
      }
    } else {
      assert Layout(cols, coln, x, w, tagOk) == [];
    }
  }

  /** The step of LayoutWellPlaced for a column that renders: the placed
      head followed by a well-placed rest is well placed. */
  lemma LayoutPlacesHead(cols: string, coln: nat, x: int, w: int, tagOk: bool)
    requires 0 <= x < w && coln < |cols| && Renders(cols[coln], tagOk)
    requires var rest := Layout(cols, coln + 1, x + ColumnWidth(cols[coln], w, w - x, |cols|) + 3, w, tagOk);
      && WellPlaced(rest, cols, w, tagOk)
      && (forall k :: 0 <= k < |rest| ==> rest[k].column >= coln + 1)
      && (|rest| > 0 ==> rest[0].x == x + ColumnWidth(cols[coln], w, w - x, |cols|) + 3)
    ensures WellPlaced(Layout(cols, coln, x, w, tagOk), cols, w, tagOk)
    ensures forall k :: 0 <= k < |Layout(cols, coln, x, w, tagOk)| ==> Layout(cols, coln, x, w, tagOk)[k].column >= coln
    ensures Layout(cols, coln, x, w, tagOk)[0].x == x
  {
    var cw := ColumnWidth(cols[coln], w, w - x, |cols|);
    var c := Cell(cols[coln], coln, x, cw, w - x, coln < |cols| - 1 && x + cw < w);
    var rest := Layout(cols, coln + 1, x + cw + 3, w, tagOk);
    assert Layout(cols, coln, x, w, tagOk) == [c] + rest;
    ConsWellPlaced(c, rest, cols, w, tagOk);
  }

  lemma ConsWellPlaced(c: Cell, rest: seq<Cell>, cols: string, w: int, tagOk: bool)
    requires WellPlaced(rest, cols, w, tagOk)
    requires 0 <= c.x < w && c.free == w - c.x && c.column < |cols| && c.code == cols[c.column]
    requires Renders(c.code, tagOk) && 0 <= c.width
    requires forall k :: 0 <= k < |rest| ==> rest[k].column > c.column
    requires |rest| > 0 ==> rest[0].x == c.x + c.width + 3
    ensures WellPlaced([c] + rest, cols, w, tagOk)
    ensures forall k :: 0 <= k < |[c] + rest| ==> ([c] + rest)[k].column >= c.column
  {
    var s := [c] + rest;
    forall k | 0 <= k < |s| - 1
      ensures s[k + 1].x == s[k].x + s[k].width + 3 && s[k].column < s[k + 1].column
    {
      assert s[k + 1] == rest[k];
      if k > 0 {
        assert s[k] == rest[k - 1];
      }
    }
  }

  /** Title "tdi" on an 80-column terminal: the title column gets a quarter of
      the width, and the three columns with their separators end at column 45. */
  lemma TitleDueIdAt80()
    ensures Layout("tdi", 0, 0, 80, true) ==
      [Cell('t', 0, 0, 20, 80, true), Cell('d', 1, 23, 16, 57, true), Cell('i', 2, 42, 3, 38, false)]
  {
    assert Layout("tdi", 3, 48, 80, true) == [];
    assert Layout("tdi", 2, 42, 80, true) == [Cell('i', 2, 42, 3, 38, false)];
    assert Layout("tdi", 1, 23, 80, true) == [Cell('d', 1, 23, 16, 57, true), Cell('i', 2, 42, 3, 38, false)];
  }

  /** The placement loop itself. */
  method PlaceColumns(cols: string, w: int, tagOk: bool) returns (cells: seq<Cell>)
    ensures cells == Layout(cols, 0, 0, w, tagOk)
    ensures WellPlaced(cells, cols, w, tagOk)
    ensures |cells| > 0 ==> cells[0].x == 0
  {
    cells := [];
    var x := 0;
    var coln := 0;
    while coln < |cols|
      invariant 0 <= coln <= |cols|
      invariant x >= 0
      invariant cells + Layout(cols, coln, x, w, tagOk) == Layout(cols, 0, 0, w, tagOk)
    {
      var code := cols[coln];
      if x >= w {
        break;
      }
      if Renders(code, tagOk) {
        var cw := ColumnWidth(code, w, w - x, |cols|);
        cells := cells + [Cell(code, coln, x, cw, w - x, coln < |cols| - 1 && x + cw < w)];
        x := x + cw + 3;
      }
      coln := coln + 1;
    }
    assert cells + Layout(cols, coln, x, w, tagOk) == cells;
    LayoutWellPlaced(cols, 0, 0, w, tagOk);
  }
}
