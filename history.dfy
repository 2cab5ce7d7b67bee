/** The command history of the command line (cui_commands) as values: the slot
    exchanges the history keys perform, the pruning of empty slots, and the text
    edits at the caret. The last slot is the text being edited; while the user
    browses, slot `index` and the last slot hold each other's texts. */
module History {

  function Last(c: seq<string>): string
    requires |c| > 0
  {
    c[|c| - 1]
  }

  /** `s` with slots i and j holding each other's values. */
  function Exchange<T>(s: seq<T>, i: nat, j: nat): (r: seq<T>)
    requires i < |s| && j < |s|
    ensures |r| == |s| && r[i] == s[j] && r[j] == s[i]
    ensures forall k :: 0 <= k < |s| && k != i && k != j ==> r[k] == s[k]
  {
    s[i := s[j]][j := s[i]]
  }

  /** The browsing invariant: the history `h` before browsing started, with the
      browsed slot `i` and the last slot exchanged. */
  predicate Browsing(h: seq<string>, c: seq<string>, i: nat)
  {
    |h| > 0 && |c| == |h| && i < |h| && c == Exchange(h, i, |h| - 1)
  }

  /** KEY_UP: the three assignments of cui_command_input, read literally. */
  function StepUp(c: seq<string>, i: nat): (r: seq<string>)
    requires 0 < i < |c|
    ensures |r| == |c|
  {
    var l := |c| - 1;
    var temp := c[i];
    var c1 := c[i := c[l]];
    var c2 := c1[l := c1[i - 1]];
    c2[i - 1 := temp]
  }

  /** KEY_DOWN, read literally. */
  function StepDown(c: seq<string>, i: nat): (r: seq<string>)
    requires i < |c| - 1
    ensures |r| == |c|
  {
    var l := |c| - 1;
    var temp := c[i];
    var c1 := c[i := c[l]];
    var c2 := c1[l := c1[i + 1]];
    c2[i + 1 := temp]
  }

  lemma {:induction false} UpKeepsBrowsing(h: seq<string>, c: seq<string>, i: nat)
    requires Browsing(h, c, i) && i > 0
    ensures Browsing(h, StepUp(c, i), i - 1)
  {
    var r := StepUp(c, i);
    var e := Exchange(h, i - 1, |h| - 1);
    forall k | 0 <= k < |h|
      ensures r[k] == e[k]
    {
    }
  }

  lemma {:induction false} DownKeepsBrowsing(h: seq<string>, c: seq<string>, i: nat)
    requires Browsing(h, c, i) && i < |h| - 1
    ensures Browsing(h, StepDown(c, i), i + 1)
  {
    var r := StepDown(c, i);
    var e := Exchange(h, i + 1, |h| - 1);
    forall k | 0 <= k < |h|
      ensures r[k] == e[k]
    {
    }
  }

  /** Up followed by Down gives back the slots exactly, browsing or not. */
  lemma {:induction false} UpThenDown(c: seq<string>, i: nat)
    requires 0 < i < |c|
    ensures StepDown(StepUp(c, i), i - 1) == c
  {
    var r := StepDown(StepUp(c, i), i - 1);
    forall k | 0 <= k < |c|
      ensures r[k] == c[k]
    {
    }
  }

  lemma {:induction false} DownThenUp(c: seq<string>, i: nat)
    requires i < |c| - 1
    ensures StepUp(StepDown(c, i), i + 1) == c
  {
    var r := StepUp(StepDown(c, i), i + 1);
    forall k | 0 <= k < |c|
      ensures r[k] == c[k]
    {
    }
  }

  /** `k` presses of KEY_UP starting at slot i. */
  function UpTimes(c: seq<string>, i: nat, k: nat): seq<string>
    requires k <= i < |c|
    decreases k
  {
    if k == 0 then c else UpTimes(StepUp(c, i), i - 1, k - 1)
  }

  /** Starting from the unbrowsed history h (index on the last slot), k presses
      of KEY_UP show the entries in reverse order: the last slot then holds the
      k-th most recent entry, and h is still recoverable. */
  lemma {:induction false} UpTimesRecalls(h: seq<string>, c: seq<string>, i: nat, k: nat)
    requires Browsing(h, c, i) && k <= i
    ensures Browsing(h, UpTimes(c, i, k), i - k)
    ensures Last(UpTimes(c, i, k)) == h[i - k]
    decreases k
  {
    if k > 0 {
      UpKeepsBrowsing(h, c, i);
      UpTimesRecalls(h, StepUp(c, i), i - 1, k - 1);
    }
  }

  /** Backspace, Delete and insert while browsing: exchange slot i back with
      the last slot, then append a copy of the browsed text as the new last slot. */
  function Detach(c: seq<string>, i: nat): (r: seq<string>)
    requires i < |c| - 1
    ensures |r| == |c| + 1 && Last(r) == Last(c)
  {
    var l := |c| - 1;
    var temp := c[l];
    var c1 := c[l := c[i]];
    var c2 := c1[i := temp];
    c2 + [temp]
  }

  /** While browsing, detaching restores the pre-browse history and appends the
      browsed entry for editing. */
  lemma DetachRestores(h: seq<string>, c: seq<string>, i: nat)
    requires Browsing(h, c, i) && i < |h| - 1
    ensures Detach(c, i) == h + [h[i]]
  {
    var r := Detach(c, i);
    forall k | 0 <= k < |r|
      ensures r[k] == (h + [h[i]])[k]
    {
    }
  }

  /** The non-empty strings of `s`, in order. */
  function DropEmpty(s: seq<string>): (r: seq<string>)
    ensures |r| <= |s|
    ensures forall k :: 0 <= k < |r| ==> r[k] != ""
    decreases |s|
  {
    if s == [] then []
    else DropEmpty(s[..|s| - 1]) + (if s[|s| - 1] == "" then [] else [s[|s| - 1]])
  }

  /** cui_filter_history's result: every empty slot but the last removed. */
  function Pruned(c: seq<string>): (r: seq<string>)
    requires |c| > 0
    ensures |r| > 0 && |r| <= |c| && Last(r) == Last(c)
    ensures forall k :: 0 <= k < |r| - 1 ==> r[k] != ""
  {
    DropEmpty(c[..|c| - 1]) + [Last(c)]
  }

  lemma {:induction false} DropEmptyKeepsNonEmpty(s: seq<string>)
    requires forall k :: 0 <= k < |s| ==> s[k] != ""
    ensures DropEmpty(s) == s
    decreases |s|
  {
    if s != [] {
      DropEmptyKeepsNonEmpty(s[..|s| - 1]);
      assert s[..|s| - 1] + [s[|s| - 1]] == s;
    }
  }

  /** DropEmpty keeps order: it distributes over concatenation. */
  lemma {:induction false} DropEmptyConcat(a: seq<string>, b: seq<string>)
    ensures DropEmpty(a + b) == DropEmpty(a) + DropEmpty(b)
    decreases |b|
  {
    if b != [] {
      var b' := b[..|b| - 1];
      assert (a + b)[..|a + b| - 1] == a + b';
      DropEmptyConcat(a, b');
    } else {
      assert a + b == a;
    }
  }

  /** DropEmpty keeps exactly the non-empty strings. */
  lemma {:induction false} DropEmptyMembers(s: seq<string>, x: string)
    ensures x in DropEmpty(s) <==> x in s && x != ""
    decreases |s|
  {
    if s != [] {
      DropEmptyMembers(s[..|s| - 1], x);
      assert s == s[..|s| - 1] + [s[|s| - 1]];
    }
  }

  lemma PrunedIdempotent(c: seq<string>)
    requires |c| > 0
    ensures Pruned(Pruned(c)) == Pruned(c)
  {
    var p := Pruned(c);
    DropEmptyKeepsNonEmpty(p[..|p| - 1]);
    assert p[..|p| - 1] + [Last(p)] == p;
  }

  /** A history whose only empty slot is the last is left alone. */
  lemma PrunedKeepsClean(c: seq<string>)
    requires |c| > 0
    requires forall k :: 0 <= k < |c| - 1 ==> c[k] != ""
    ensures Pruned(c) == c
  {
    DropEmptyKeepsNonEmpty(c[..|c| - 1]);
    assert c[..|c| - 1] + [Last(c)] == c;
  }

  /** The caret bound after a history move: lowered to the new text's length. */
  function Clamp(cursor: nat, len: nat): (r: nat)
    ensures r <= len && r <= cursor
    ensures r == cursor || r == len
  {
    if cursor > len then len else cursor
  }

  /** Insertion of the key at the caret. */
  function InsertAt(s: string, k: nat, ch: char): (r: string)
    requires k <= |s|
    ensures |r| == |s| + 1 && r[k] == ch
    ensures r[..k] == s[..k] && r[k + 1..] == s[k..]
  {
    s[..k] + [ch] + s[k..]
  }

  /** Backspace: the character before the caret goes. */
  function RemoveBefore(s: string, k: nat): (r: string)
    requires 0 < k <= |s|
    ensures |r| == |s| - 1
    ensures r[..k - 1] == s[..k - 1] && r[k - 1..] == s[k..]
  {
    s[..k - 1] + s[k..]
  }

  /** Delete: the character under the caret goes. */
  function RemoveAt(s: string, k: nat): (r: string)
    requires k < |s|
    ensures |r| == |s| - 1
    ensures r[..k] == s[..k] && r[k..] == s[k + 1..]
  {
    s[..k] + s[k + 1..]
  }

  /** Typing a key then Backspace gives the text back. */
  lemma InsertThenBackspace(s: string, k: nat, ch: char)
    requires k <= |s|
    ensures RemoveBefore(InsertAt(s, k, ch), k + 1) == s
  {
    var r := RemoveBefore(InsertAt(s, k, ch), k + 1);
    assert r == s[..k] + s[k..];
    assert s[..k] + s[k..] == s;
  }

  /** Typing a key, moving left over it, then Delete gives the text back. */
  lemma InsertThenDelete(s: string, k: nat, ch: char)
    requires k <= |s|
    ensures RemoveAt(InsertAt(s, k, ch), k) == s
  {
    var r := RemoveAt(InsertAt(s, k, ch), k);
    assert r == s[..k] + s[k..];
    assert s[..k] + s[k..] == s;
  }

  /** Enter with a non-empty last slot, read literally: the "swap" reads `temp`
      from the last slot, so slot i receives the submitted text and the last
      slot keeps it; then an empty slot is appended. */
  function Submitted(c: seq<string>, i: nat): (r: seq<string>)
    requires i < |c|
    ensures |r| == |c| + 1 && Last(r) == ""
    ensures forall k :: 0 <= k < |c| ==> r[k] == (if k == i then Last(c) else c[k])
  {
    var l := |c| - 1;
    if i != l then
      var temp := c[l];
      var c1 := c[i := c[l]];
      c1[l := temp] + [""]
    else c + [""]
  }

  /** Enter then Escape's tail: the last slot cleared and the history pruned. */
  function AfterSubmit(c: seq<string>, i: nat): (r: seq<string>)
    requires i < |c|
    ensures |r| > 0 && Last(r) == ""
  {
    var s := Submitted(c, i);
    Pruned(s[|s| - 1 := ""])
  }

  /** Escape: the last slot cleared, then the history pruned. */
  function AfterCancel(c: seq<string>): (r: seq<string>)
    requires |c| > 0
    ensures |r| > 0 && Last(r) == ""
    ensures forall k :: 0 <= k < |r| ==> r[k] != "" || k == |r| - 1
  {
    Pruned(c[|c| - 1 := ""])
  }

  /** Submitting typed text (not browsing) from a clean history records it as
      the newest entry, and one KEY_UP brings it back. */
  lemma SubmitThenUpRecalls(h: seq<string>)
    requires |h| > 0 && Last(h) != ""
    requires forall k :: 0 <= k < |h| ==> h[k] != ""
    ensures AfterSubmit(h, |h| - 1) == h + [""]
    ensures Last(StepUp(h + [""], |h|)) == Last(h)
  {
    var s := Submitted(h, |h| - 1);
    assert s[|s| - 1 := ""] == h + [""];
    PrunedKeepsClean(h + [""]);
  }

  /** Submitting while browsing, as written: the browsed entry `h[i]` is
      written into its slot and also stays in the last slot, so the history
      keeps that entry twice and the text that was being typed before browsing
      (the stash, `Last(h)`) is gone unless it was already an older entry. */
  lemma SubmitWhileBrowsingDropsStash(h: seq<string>, c: seq<string>, i: nat)
    requires Browsing(h, c, i) && i < |h| - 1
    ensures Submitted(c, i) == h[|h| - 1 := h[i]] + [""]
    ensures Last(h) != "" && Last(h) !in h[..|h| - 1] ==> Last(h) !in AfterSubmit(c, i)
  {
    var l := |h| - 1;
    var s := Submitted(c, i);
    assert s == h[l := h[i]] + [""];
    var t := s[|s| - 1 := ""];
    assert t == s;
    assert t[..|t| - 1] == h[..l] + [h[i]];
    DropEmptyMembers(h[..l] + [h[i]], Last(h));
    if Last(h) != "" && Last(h) !in h[..l] {
      assert h[i] in h[..l];
    }
  }

  /** Escape while browsing clears the last slot, which holds the browsed
      entry `h[i]`; slot i keeps the stash, so the entry is gone from the
      history unless it occurs in another slot. */
  lemma CancelWhileBrowsingLosesEntry(h: seq<string>, c: seq<string>, i: nat)
    requires Browsing(h, c, i) && i < |h| - 1
    ensures AfterCancel(c) == Pruned(h[i := Last(h)][|h| - 1 := ""])
    ensures h[i] != "" && h[i] != Last(h) && (forall k :: 0 <= k < |h| - 1 && k != i ==> h[k] != h[i]) ==>
              h[i] !in AfterCancel(c)
  {
    var l := |h| - 1;
    var t := c[l := ""];
    assert t == h[i := Last(h)][l := ""];
    DropEmptyMembers(t[..l], h[i]);
    if h[i] != "" && h[i] != Last(h) && (forall k :: 0 <= k < l && k != i ==> h[k] != h[i]) {
      assert forall k :: 0 <= k < l ==> t[..l][k] != h[i];
    }
  }

  /** Typing a key, as written: detach when browsing, prune, insert at the
      caret. Returns the new slots and the new history index. */
  function TypeKey(c: seq<string>, i: nat, cursor: nat, ch: char): (r: (seq<string>, nat))
    requires i < |c| && cursor <= |Last(if i != |c| - 1 then Detach(c, i) else c)|
    ensures |r.0| > 0
  {
    var d := if i != |c| - 1 then Detach(c, i) else c;
    var p := Pruned(d);
    (p[|p| - 1 := InsertAt(Last(p), cursor, ch)], |d| - 1)
  }

  /** The index defect: pruning runs after the index is set to the last slot and
      does not move it. Pressing KEY_UP on a fresh empty prompt over a clean
      history and then typing leaves the index one past the end, so the next
      Up, Backspace, Delete, typed key or Enter indexes outside the history. */
  lemma {:induction false} BrowsedTypeIndexPastEnd(h: seq<string>, ch: char)
    requires |h| >= 2 && Last(h) == ""
    requires forall k :: 0 <= k < |h| - 1 ==> h[k] != ""
    ensures var up := StepUp(h, |h| - 1);
            var r := TypeKey(up, |h| - 2, 0, ch);
            r.1 == |r.0|
  {
    var l := |h| - 1;
    var up := StepUp(h, l);
    assert Browsing(h, h, l);
    UpKeepsBrowsing(h, h, l);
    DetachRestores(h, up, l - 1);
    var d := Detach(up, l - 1);
    assert d == h + [h[l - 1]];
    assert d[..|d| - 1] == h;
    assert h == h[..l] + [""];
    DropEmptyKeepsNonEmpty(h[..l]);
    DropEmptyConcat(h[..l], [""]);
    assert DropEmpty([""]) == DropEmpty([""][..0]) + [];
    assert |Pruned(d)| == |h|;
  }
}
