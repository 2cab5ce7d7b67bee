/** Task entries as the controller reads them, and the visibility filter
    (cui_is_visible) with the visible-row list built from it. */
module Visibility {

  /** The filter mask and its four flags, as 32-bit ints in the source. */
  type Mask = bv32

  const FilterUncat: Mask := 0x1
  const FilterComplete: Mask := 0x10
  const FilterComing: Mask := 0x100
  const FilterFailed: Mask := 0x1000

  /** The "all lists" value of the tag filter (its definition lies outside the
      controller's files; -1 is assumed). */
  const TagAll: int := -1

  /** One task record of the external store; `due` is an absolute time. */
  datatype Entry = Entry(title: string, description: string, due: int, tag: int, completed: bool)

  /** The tag filter, the status mask and the two time thresholds the filter
      compares against: `now` (ti_to_long("a0d")) and `tomorrow` (ti_to_long("a1d")). */
  datatype ViewFilter = ViewFilter(tagFilter: int, mask: Mask, now: int, tomorrow: int)

  /** The status bucket of an entry, tested in the source's order. */
  datatype Bucket = Completed | Failed | Coming | Uncategorised

  function BucketOf(e: Entry, now: int, tomorrow: int): Bucket
  {
    if e.completed then Completed
    else if e.due <= now then Failed
    else if e.due <= tomorrow then Coming
    else Uncategorised
  }

  function BucketFlag(b: Bucket): (flag: Mask)
    ensures flag in {FilterUncat, FilterComplete, FilterComing, FilterFailed}
  {
    match b
    case Completed => FilterComplete
    case Failed => FilterFailed
    case Coming => FilterComing
    case Uncategorised => FilterUncat
  }

  predicate TagMatches(tagFilter: int, e: Entry)
  {
    tagFilter == TagAll || tagFilter == e.tag
  }

  /** cui_is_visible: nothing is visible in an empty list; otherwise the entry is
      visible iff its tag passes the tag filter and its bucket's flag is set.
      `entries.at(id)` throws on any other id, which callers never pass. */
  predicate IsVisible(entries: seq<Entry>, id: int, f: ViewFilter)
    requires entries == [] || 0 <= id < |entries|
    ensures IsVisible(entries, id, f) <==>
      entries != [] && TagMatches(f.tagFilter, entries[id])
      && f.mask & BucketFlag(BucketOf(entries[id], f.now, f.tomorrow)) != 0
  {
    if entries == [] then false
    else
      var e := entries[id];
      var tagCheck := f.tagFilter == TagAll || f.tagFilter == e.tag;
      if e.completed then tagCheck && f.mask & FilterComplete != 0
      else if e.due <= f.now then tagCheck && f.mask & FilterFailed != 0
      else if e.due <= f.tomorrow then tagCheck && f.mask & FilterComing != 0
      else tagCheck && f.mask & FilterUncat != 0
  }

  /** The four flags are distinct bits, so toggling the flag of another bucket
      never changes whether an entry is shown. */
  lemma OtherFlagIrrelevant(entries: seq<Entry>, id: int, f: ViewFilter, other: Bucket)
    requires 0 <= id < |entries|
    requires other != BucketOf(entries[id], f.now, f.tomorrow)
    ensures IsVisible(entries, id, f) == IsVisible(entries, id, f.(mask := f.mask ^ BucketFlag(other)))
  {
    var own := BucketFlag(BucketOf(entries[id], f.now, f.tomorrow));
    DistinctFlags(other, BucketOf(entries[id], f.now, f.tomorrow));
    XorKeepsDisjointBits(f.mask, BucketFlag(other), own);
  }

  lemma DistinctFlags(a: Bucket, b: Bucket)
    requires a != b
    ensures BucketFlag(a) & BucketFlag(b) == 0
  {
  }

  lemma XorKeepsDisjointBits(m: Mask, x: Mask, y: Mask)
    requires x & y == 0
    ensures (m ^ x) & y == m & y
  {
  }

  /** Worked thresholds with a one-day window of 86400 seconds. */
  lemma ThresholdExamples(title: string, d: string, tag: int)
    ensures BucketOf(Entry(title, d, 1000, tag, false), 1000, 1000 + 86400) == Failed
    ensures BucketOf(Entry(title, d, 1000 + 43200, tag, false), 1000, 1000 + 86400) == Coming
    ensures BucketOf(Entry(title, d, 1000 + 172800, tag, false), 1000, 1000 + 86400) == Uncategorised
    ensures BucketOf(Entry(title, d, 1000, tag, true), 1000, 1000 + 86400) == Completed
  {
  }

  /** The visible entry ids, in store order (the reference for VisibleRows). */
  function VisibleIds(entries: seq<Entry>, n: nat, f: ViewFilter): (ids: seq<nat>)
    requires n <= |entries|
    ensures forall k :: 0 <= k < |ids| ==> ids[k] < n
    decreases n
  {
    if n == 0 then []
    else VisibleIds(entries, n - 1, f) + (if IsVisible(entries, n - 1, f) then [n - 1] else [])
  }

  predicate StrictlyIncreasing(s: seq<nat>)
  {
    forall i, j :: 0 <= i < j < |s| ==> s[i] < s[j]
  }

  /** The last position of x in s, -1 when absent. */
  function IndexOf(s: seq<nat>, x: int): (r: int)
    ensures -1 <= r < |s|
    ensures r == -1 <==> x !in s
    ensures r >= 0 ==> s[r] == x
    decreases |s|
  {
    if s == [] then -1
    else if s[|s| - 1] == x then |s| - 1
    else
      assert forall y :: y in s <==> y in s[..|s| - 1] || y == s[|s| - 1];
      IndexOf(s[..|s| - 1], x)
  }

  lemma IndexOfAppend(s: seq<nat>, y: nat, x: int)
    ensures IndexOf(s + [y], x) == if y == x then |s| else IndexOf(s, x)
  {
    assert (s + [y])[..|s|] == s;
  }

  /** The loop of cui_normal_paint that collects the visible ids and finds the
      selected line's position among them (-1 when it is not visible). */
  method VisibleRows(entries: seq<Entry>, f: ViewFilter, sLine: int) returns (rows: seq<nat>, vLine: int)
    ensures rows == VisibleIds(entries, |entries|, f)
    ensures StrictlyIncreasing(rows)
    ensures forall k :: 0 <= k < |rows| ==> rows[k] < |entries| && IsVisible(entries, rows[k], f)
    ensures forall l :: 0 <= l < |entries| && IsVisible(entries, l, f) ==> l in rows
    ensures vLine == IndexOf(rows, sLine)
  {
    rows := [];
    vLine := -1;
    var l := 0;
    while l < |entries|
      invariant 0 <= l <= |entries|
      invariant rows == VisibleIds(entries, l, f)
      invariant vLine == IndexOf(rows, sLine)
    {
      if IsVisible(entries, l, f) {
        IndexOfAppend(rows, l, sLine);
        rows := rows + [l];
        if l == sLine {
          vLine := |rows| - 1;
        }
      }
      l := l + 1;
    }
    VisibleIdsExact(entries, |entries|, f);
  }

  /** The visible ids are increasing, visible, and every visible id below n
      is among them. */
  lemma {:induction false} VisibleIdsExact(entries: seq<Entry>, n: nat, f: ViewFilter)
    requires n <= |entries|
    ensures StrictlyIncreasing(VisibleIds(entries, n, f))
    ensures forall k :: 0 <= k < |VisibleIds(entries, n, f)| ==> IsVisible(entries, VisibleIds(entries, n, f)[k], f)
    ensures forall l :: 0 <= l < n && IsVisible(entries, l, f) ==> l in VisibleIds(entries, n, f)
    decreases n
  {
    if n > 0 {
      VisibleIdsExact(entries, n - 1, f);
    }
  }
}
