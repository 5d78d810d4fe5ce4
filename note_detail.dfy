/**
 * The older note editor screen: its snapshot undo history, the algebra of
 * styled spans over the description (clamping, merging, toggling a style),
 * and the flat block list it keeps in sync with the description.
 */
module NoteDetailScreen {
  import opened Wrappers
  import opened Kotlin
  import opened NoteModel
  import opened Order

  // ----- EditorHistory -----

  /** The history's list of snapshots and the index of the current one. */
  datatype History<T> = History(snapshots: seq<T>, pointer: int)

  /**
   * The history index names a snapshot, and there are never more snapshots than
   * `maxSize` (at least one is always kept, whatever `maxSize` says).
   */
  predicate HistoryValid<T>(h: History<T>, maxSize: int) {
    0 <= h.pointer < |h.snapshots| <= Max(maxSize, 1)
  }

  function Current<T>(h: History<T>): T
    requires 0 <= h.pointer < |h.snapshots|
  {
    h.snapshots[h.pointer]
  }

  predicate CanUndo<T>(h: History<T>) { h.pointer > 0 }

  predicate CanRedo<T>(h: History<T>) { h.pointer < |h.snapshots| - 1 }

  /** `commit(snapshot)`: nothing for a repeat, otherwise drop the redo tail, append, and cap the size. */
  function Committed<T(==)>(h: History<T>, snapshot: T, maxSize: int): History<T>
    requires 0 <= h.pointer < |h.snapshots|
  {
    if Current(h) == snapshot then h
    else
      var kept := h.snapshots[..h.pointer + 1] + [snapshot];
      if |kept| > maxSize then History(kept[1..], |kept| - 2) else History(kept, |kept| - 1)
  }

  /** `undo()`: one step back when possible. */
  function Undone<T>(h: History<T>): History<T> {
    if CanUndo(h) then h.(pointer := h.pointer - 1) else h
  }

  /** `redo()`: one step forward when possible. */
  function Redone<T>(h: History<T>): History<T> {
    if CanRedo(h) then h.(pointer := h.pointer + 1) else h
  }

  /**
   * A commit keeps the history valid and makes the snapshot current; unless it
   * repeats the current snapshot it also leaves nothing to redo.
   */
  lemma CommitSpec<T>(h: History<T>, snapshot: T, maxSize: int)
    requires HistoryValid(h, maxSize)
    ensures var c := Committed(h, snapshot, maxSize);
      && HistoryValid(c, maxSize)
      && Current(c) == snapshot
      && (Current(h) == snapshot ==> c == h)
      && (Current(h) != snapshot ==> !CanRedo(c))
  {
  }

  /** A commit discards exactly the snapshots after the current one, and the oldest on overflow. */
  lemma CommitDropsRedoTail<T>(h: History<T>, snapshot: T, maxSize: int)
    requires HistoryValid(h, maxSize) && Current(h) != snapshot
    ensures var c := Committed(h, snapshot, maxSize);
      && c.snapshots[|c.snapshots| - 1] == snapshot
      && (h.pointer + 2 <= maxSize ==> c.snapshots[..|c.snapshots| - 1] == h.snapshots[..h.pointer + 1])
      && (h.pointer + 2 > maxSize ==> c.snapshots[..|c.snapshots| - 1] == h.snapshots[1..h.pointer + 1])
  {
    var kept := h.snapshots[..h.pointer + 1] + [snapshot];
    if |kept| > maxSize {
      assert kept[1..][..|kept| - 2] == h.snapshots[1..h.pointer + 1];
    } else {
      assert kept[..|kept| - 1] == h.snapshots[..h.pointer + 1];
    }
  }

  /** Undoing a fresh commit brings back the snapshot that was current before it, and redo restores the commit. */
  lemma UndoAfterCommit<T>(h: History<T>, snapshot: T, maxSize: int)
    requires HistoryValid(h, maxSize) && Current(h) != snapshot && maxSize >= 2
    ensures var c := Committed(h, snapshot, maxSize);
      && CanUndo(c)
      && Current(Undone(c)) == Current(h)
      && Redone(Undone(c)) == c
  {
  }

  /** Undo and redo stay valid and leave the history unchanged when they cannot move. */
  lemma UndoRedoSpec<T>(h: History<T>, maxSize: int)
    requires HistoryValid(h, maxSize)
    ensures HistoryValid(Undone(h), maxSize) && HistoryValid(Redone(h), maxSize)
    ensures !CanUndo(h) ==> Undone(h) == h
    ensures !CanRedo(h) ==> Redone(h) == h
    ensures CanUndo(h) ==> Redone(Undone(h)) == h
    ensures CanRedo(h) ==> Undone(Redone(h)) == h
  {
  }

  /** `EditorHistory`: the snapshots and the current index, updated in place. */
  class EditorHistory<T(==)> {
    var snapshots: seq<T>
    var pointer: int
    const maxSize: int

    function State(): History<T>
      reads this
    {
      History(snapshots, pointer)
    }

    ghost predicate Valid()
      reads this
    {
      HistoryValid(State(), maxSize)
    }

    constructor (maxSize: int, initial: T)
      ensures Valid() && this.maxSize == maxSize
      ensures snapshots == [initial] && pointer == 0
    {
      this.maxSize := maxSize;
      snapshots := [initial];
      pointer := 0;
    }

    method Commit(snapshot: T)
      requires Valid()
      modifies this
      ensures Valid() && State() == Committed(old(State()), snapshot, maxSize)
    {
      if pointer < |snapshots| && snapshots[pointer] == snapshot { return; }
      if pointer < |snapshots| - 1 {
        snapshots := snapshots[..pointer + 1];
      }
      snapshots := snapshots + [snapshot];
      pointer := pointer + 1;
      if |snapshots| > maxSize {
        snapshots := snapshots[1..];
        pointer := |snapshots| - 1;
      }
      CommitSpec(old(State()), snapshot, maxSize);
    }

    method Undo() returns (s: T)
      requires Valid()
      modifies this
      ensures Valid() && State() == Undone(old(State())) && s == Current(State())
    {
      if pointer > 0 { pointer := pointer - 1; }
      s := snapshots[pointer];
    }

    method Redo() returns (s: T)
      requires Valid()
      modifies this
      ensures Valid() && State() == Redone(old(State())) && s == Current(State())
    {
      if pointer < |snapshots| - 1 { pointer := pointer + 1; }
      s := snapshots[pointer];
    }

    method CanUndoNow() returns (b: bool)
      requires Valid()
      ensures b <==> CanUndo(State())
    {
      b := pointer > 0;
    }

    method CanRedoNow() returns (b: bool)
      requires Valid()
      ensures b <==> CanRedo(State())
    {
      b := pointer < |snapshots| - 1;
    }
  }

  // ----- sanitizeSpans -----

  /** `sanitizeSpans(spans, length)`: clamp each span into the text and drop the empty ones. */
  function SanitizeSpans(spans: seq<NoteTextSpan>, length: int): (r: seq<NoteTextSpan>)
    requires length >= 0
    ensures |r| <= |spans|
    ensures forall k :: 0 <= k < |r| ==> 0 <= r[k].start < r[k].end <= length
  {
    if |spans| == 0 then []
    else
      var span := spans[0];
      var start := CoerceIn(span.start, 0, length);
      var end := CoerceIn(span.end, 0, length);
      var rest := SanitizeSpans(spans[1..], length);
      if start >= end then rest else [span.(start := start, end := end)] + rest
  }

  /** Inside the text, sanitizing keeps exactly the styling the spans gave. */
  lemma {:induction false} SanitizeSpansKeepsStyling(spans: seq<NoteTextSpan>, length: int, style: NoteTextStyle, p: int)
    requires length >= 0 && 0 <= p < length
    ensures Covered(SanitizeSpans(spans, length), style, p) <==> Covered(spans, style, p)
    decreases |spans|
  {
    if |spans| > 0 {
      var span := spans[0];
      SanitizeSpansKeepsStyling(spans[1..], length, style, p);
      CoveredCons(span, spans[1..], style, p);
      assert spans == [span] + spans[1..];
      var start := CoerceIn(span.start, 0, length);
      var end := CoerceIn(span.end, 0, length);
      if start < end {
        CoveredCons(span.(start := start, end := end), SanitizeSpans(spans[1..], length), style, p);
      }
    }
  }

  // ----- mergeSpans -----

  /** `compareBy({ it.style.ordinal }, { it.start })` as a "not after" relation. */
  predicate SpanLe(a: NoteTextSpan, b: NoteTextSpan) {
    a.style.Ordinal() < b.style.Ordinal() || (a.style.Ordinal() == b.style.Ordinal() && a.start <= b.start)
  }

  lemma SpanLeTotalPreorder()
    ensures TotalPreorder(SpanLe)
  {
  }

  /** One step of the merge loop: extend the last span when the next one of its style starts inside it. */
  function MergeStep(merged: seq<NoteTextSpan>, span: NoteTextSpan): seq<NoteTextSpan> {
    if |merged| > 0 && merged[|merged| - 1].style == span.style && span.start <= merged[|merged| - 1].end then
      var last := merged[|merged| - 1];
      merged[..|merged| - 1] + [last.(end := Max(last.end, span.end))]
    else merged + [span]
  }

  /** The merge loop over already sorted spans. */
  function MergeSorted(sorted: seq<NoteTextSpan>): seq<NoteTextSpan>
    decreases |sorted|
  {
    if |sorted| == 0 then [] else MergeStep(MergeSorted(sorted[..|sorted| - 1]), sorted[|sorted| - 1])
  }

  /** `mergeSpans(spans)`: sort by style and start, then fuse overlapping or touching spans of one style. */
  function MergeSpans(spans: seq<NoteTextSpan>): seq<NoteTextSpan> {
    if |spans| == 0 then []
    else
      SpanLeTotalPreorder();
      MergeSorted(SortStable(spans, SpanLe))
  }

  /** The body of `mergeSpans`, with its loop over the sorted spans. */
  method MergeSpansLoop(spans: seq<NoteTextSpan>) returns (merged: seq<NoteTextSpan>)
    ensures merged == MergeSpans(spans)
  {
    if |spans| == 0 { return []; }
    SpanLeTotalPreorder();
    var sorted := SortStable(spans, SpanLe);
    merged := [];
    for i := 0 to |sorted|
      invariant merged == MergeSorted(sorted[..i])
    {
      assert sorted[..i + 1][..i] == sorted[..i];
      var span := sorted[i];
      if |merged| > 0 && merged[|merged| - 1].style == span.style && span.start <= merged[|merged| - 1].end {
        var last := merged[|merged| - 1];
        merged := merged[..|merged| - 1] + [last.(end := Max(last.end, span.end))];
      } else {
        merged := merged + [span];
      }
    }
    assert sorted[..|sorted|] == sorted;
  }

  /** Merging never moves a span later than a bound all its inputs respect. */
  lemma {:induction false} MergeSortedBelow(sorted: seq<NoteTextSpan>, x: NoteTextSpan)
    requires forall j :: 0 <= j < |sorted| ==> SpanLe(sorted[j], x)
    ensures forall k :: 0 <= k < |MergeSorted(sorted)| ==> SpanLe(MergeSorted(sorted)[k], x)
    decreases |sorted|
  {
    if |sorted| > 0 {
      MergeSortedBelow(sorted[..|sorted| - 1], x);
    }
  }

  /** Consecutive spans of one style are apart: the later one starts after the earlier one ends. */
  predicate Apart(spans: seq<NoteTextSpan>) {
    forall k :: 0 < k < |spans| && spans[k - 1].style == spans[k].style ==> spans[k].start > spans[k - 1].end
  }

  /** The merge loop never produces more spans than it reads. */
  lemma {:induction false} MergeSortedLength(sorted: seq<NoteTextSpan>)
    ensures |MergeSorted(sorted)| <= |sorted|
    decreases |sorted|
  {
    if |sorted| > 0 {
      MergeSortedLength(sorted[..|sorted| - 1]);
    }
  }

  /** On sorted input the merge loop's output is sorted and its spans of one style are apart. */
  lemma {:induction false} MergeSortedOrder(sorted: seq<NoteTextSpan>)
    requires Sorted(sorted, SpanLe)
    ensures Sorted(MergeSorted(sorted), SpanLe) && Apart(MergeSorted(sorted))
    decreases |sorted|
  {
    if |sorted| > 0 {
      var init := sorted[..|sorted| - 1];
      var x := sorted[|sorted| - 1];
      assert Sorted(init, SpanLe);
      MergeSortedOrder(init);
      MergeSortedBelow(init, x);
      var m := MergeSorted(init);
      if |m| > 0 && m[|m| - 1].style == x.style && x.start <= m[|m| - 1].end {
        FuseStepOrder(m, x);
      } else {
        AppendStepOrder(m, x);
      }
    }
  }

  /** Fusing `x` into the last span keeps the merged spans sorted and apart. */
  lemma FuseStepOrder(m: seq<NoteTextSpan>, x: NoteTextSpan)
    requires Sorted(m, SpanLe) && Apart(m) && forall k :: 0 <= k < |m| ==> SpanLe(m[k], x)
    requires |m| > 0 && m[|m| - 1].style == x.style && x.start <= m[|m| - 1].end
    ensures Sorted(MergeStep(m, x), SpanLe) && Apart(MergeStep(m, x))
  {
    var r := MergeStep(m, x);
    var last := m[|m| - 1];
    assert forall k :: 0 <= k < |m| - 1 ==> r[k] == m[k];
    assert r[|m| - 1].start == last.start && r[|m| - 1].style == last.style;
  }

  /** Appending `x`, which no merged span follows, keeps the merged spans sorted and apart. */
  lemma AppendStepOrder(m: seq<NoteTextSpan>, x: NoteTextSpan)
    requires Sorted(m, SpanLe) && Apart(m) && forall k :: 0 <= k < |m| ==> SpanLe(m[k], x)
    requires !(|m| > 0 && m[|m| - 1].style == x.style && x.start <= m[|m| - 1].end)
    ensures Sorted(MergeStep(m, x), SpanLe) && Apart(MergeStep(m, x))
  {
    var r := MergeStep(m, x);
    assert forall k :: 0 <= k < |m| ==> r[k] == m[k];
  }

  /** Fusing a span into the last one styles what the two styled. */
  lemma MergeStepCoverage(m: seq<NoteTextSpan>, x: NoteTextSpan, style: NoteTextStyle, p: int)
    requires |m| > 0 ==> SpanLe(m[|m| - 1], x)
    ensures Covered(MergeStep(m, x), style, p) <==> Covered(m, style, p) || Covered([x], style, p)
  {
    CoveredCons(x, [], style, p);
    if |m| > 0 && m[|m| - 1].style == x.style && x.start <= m[|m| - 1].end {
      var last := m[|m| - 1];
      var front := m[..|m| - 1];
      var fused := last.(end := Max(last.end, x.end));
      assert m == front + [last];
      CoveredAppend(front, [last], style, p);
      CoveredCons(last, [], style, p);
      CoveredAppend(front, [fused], style, p);
      CoveredCons(fused, [], style, p);
    } else {
      CoveredAppend(m, [x], style, p);
    }
  }

  /** On sorted input the merge loop styles exactly the positions its input styles. */
  lemma {:induction false} MergeSortedCoverage(sorted: seq<NoteTextSpan>, style: NoteTextStyle, p: int)
    requires Sorted(sorted, SpanLe)
    ensures Covered(MergeSorted(sorted), style, p) <==> Covered(sorted, style, p)
    decreases |sorted|
  {
    if |sorted| > 0 {
      var init := sorted[..|sorted| - 1];
      var x := sorted[|sorted| - 1];
      assert Sorted(init, SpanLe);
      MergeSortedCoverage(init, style, p);
      MergeSortedBelow(init, x);
      assert sorted == init + [x];
      CoveredAppend(init, [x], style, p);
      MergeStepCoverage(MergeSorted(init), x, style, p);
    }
  }

  /**
   * `mergeSpans` returns spans sorted by style and start, with consecutive
   * spans of one style apart, never more spans than it got, and exactly the
   * styled positions of its input.
   */
  lemma MergeSpansSpec(spans: seq<NoteTextSpan>)
    ensures var r := MergeSpans(spans);
      && |r| <= |spans|
      && Sorted(r, SpanLe)
      && Apart(r)
      && forall style, p :: Covered(r, style, p) <==> Covered(spans, style, p)
  {
    if |spans| > 0 {
      SpanLeTotalPreorder();
      var sorted := SortStable(spans, SpanLe);
      MergeSortedLength(sorted);
      MergeSortedOrder(sorted);
      assert |sorted| == |multiset(sorted)| == |multiset(spans)| == |spans|;
      forall style, p ensures Covered(MergeSorted(sorted), style, p) <==> Covered(spans, style, p) {
        MergeSortedCoverage(sorted, style, p);
        CoveredPermutation(sorted, spans, style, p);
      }
    }
  }

  // ----- toggleSpanStyle -----

  /** Spans `s` of style `style` covering `[start, end)` whole. */
  predicate CoversRange(s: NoteTextSpan, style: NoteTextStyle, start: int, end: int) {
    s.style == style && s.start <= start && s.end >= end
  }

  /** `firstOrNull` of the covering spans: the index of the first, or -1. */
  function FirstCovering(spans: seq<NoteTextSpan>, style: NoteTextStyle, start: int, end: int): (r: int)
    ensures -1 <= r < |spans|
    ensures r >= 0 ==> (CoversRange(spans[r], style, start, end)
      && forall k :: 0 <= k < r ==> !CoversRange(spans[k], style, start, end))
    ensures r == -1 <==> forall k :: 0 <= k < |spans| ==> !CoversRange(spans[k], style, start, end)
    decreases |spans|
  {
    if |spans| == 0 then -1
    else if CoversRange(spans[0], style, start, end) then 0
    else
      var r := FirstCovering(spans[1..], style, start, end);
      if r < 0 then -1 else r + 1
  }

  /** `MutableList.remove(x)`: drops the first element equal to `x`, if any. */
  function RemoveFirst(s: seq<NoteTextSpan>, x: NoteTextSpan): (r: seq<NoteTextSpan>)
    ensures x !in s ==> r == s
    decreases |s|
  {
    if |s| == 0 then []
    else if s[0] == x then s[1..]
    else [s[0]] + RemoveFirst(s[1..], x)
  }

  /** Removing the first covering span by value removes it at its index. */
  lemma {:induction false} RemoveFirstAt(s: seq<NoteTextSpan>, i: nat)
    requires i < |s| && forall k :: 0 <= k < i ==> s[k] != s[i]
    ensures RemoveFirst(s, s[i]) == s[..i] + s[i + 1..]
    decreases i
  {
    if i > 0 {
      assert s[1..][i - 1] == s[i];
      RemoveFirstAt(s[1..], i - 1);
      assert s[..i] == [s[0]] + s[1..][..i - 1];
    }
  }

  /** `toggleSpanStyle(existing, start, end, style)`. */
  function ToggleSpanStyle(existing: seq<NoteTextSpan>, start: int, end: int, style: NoteTextStyle): seq<NoteTextSpan> {
    var normalizedStart := Min(start, end);
    var normalizedEnd := Max(start, end);
    if normalizedStart >= normalizedEnd then existing
    else
      var i := FirstCovering(existing, style, normalizedStart, normalizedEnd);
      if i >= 0 then
        var covering := existing[i];
        RemoveFirst(existing, covering)
          + (if covering.start < normalizedStart then [covering.(end := normalizedStart)] else [])
          + (if normalizedEnd < covering.end then [covering.(start := normalizedEnd)] else [])
      else existing + [NoteTextSpan(normalizedStart, normalizedEnd, style)]
  }

  /** An empty range changes nothing. */
  lemma ToggleEmptyRange(existing: seq<NoteTextSpan>, start: int, style: NoteTextStyle)
    ensures ToggleSpanStyle(existing, start, start, style) == existing
  {
  }

  /**
   * With no span of the style covering the range, toggling adds exactly one
   * span: the range, now styled, on top of what was styled before.
   */
  lemma ToggleAddsStyle(existing: seq<NoteTextSpan>, start: int, end: int, style: NoteTextStyle)
    requires start < end && FirstCovering(existing, style, start, end) == -1
    ensures ToggleSpanStyle(existing, start, end, style) == existing + [NoteTextSpan(start, end, style)]
    ensures forall st, p :: Covered(ToggleSpanStyle(existing, start, end, style), st, p) <==>
      (Covered(existing, st, p) || (st == style && start <= p < end))
  {
    forall st, p ensures Covered(ToggleSpanStyle(existing, start, end, style), st, p) <==>
      (Covered(existing, st, p) || (st == style && start <= p < end)) {
      CoveredAppend(existing, [NoteTextSpan(start, end, style)], st, p);
      CoveredCons(NoteTextSpan(start, end, style), [], st, p);
    }
  }

  /**
   * With a span of the style covering the range, toggling takes out the
   * first such span and puts back only its parts outside the range; the list
   * then styles what the other spans style plus those parts.
   */
  lemma ToggleRemovesCovering(existing: seq<NoteTextSpan>, start: int, end: int, style: NoteTextStyle)
    requires start < end && FirstCovering(existing, style, start, end) >= 0
    ensures var i := FirstCovering(existing, style, start, end);
      var c := existing[i];
      var others := existing[..i] + existing[i + 1..];
      forall st, p :: Covered(ToggleSpanStyle(existing, start, end, style), st, p) <==>
        (Covered(others, st, p) || (st == style && c.start <= p < c.end && !(start <= p < end)))
  {
    var i := FirstCovering(existing, style, start, end);
    var c := existing[i];
    RemoveFirstAt(existing, i);
    var others := existing[..i] + existing[i + 1..];
    var left := if c.start < start then [c.(end := start)] else [];
    var right := if end < c.end then [c.(start := end)] else [];
    assert ToggleSpanStyle(existing, start, end, style) == others + left + right;
    forall st, p ensures Covered(others + left + right, st, p) <==>
      (Covered(others, st, p) || (st == style && c.start <= p < c.end && !(start <= p < end))) {
      CoveredAppend(others + left, right, st, p);
      CoveredAppend(others, left, st, p);
      if c.start < start { CoveredCons(c.(end := start), [], st, p); }
      if end < c.end { CoveredCons(c.(start := end), [], st, p); }
    }
  }

  // ----- The flat block list -----

  /** The kind of a block of the older model. */
  datatype BlockType = TEXT | IMAGE

  /** A block of the older model: its text or image reference lives in `content`, styling in `metadata`. */
  datatype LegacyBlock = LegacyBlock(id: string, kind: BlockType, content: string, metadata: map<string, string>, order: int)

  /** `normalizeOrders()`: every block's order becomes its index. */
  function NormalizeOrders(blocks: seq<LegacyBlock>): (r: seq<LegacyBlock>)
    ensures |r| == |blocks|
    ensures forall k :: 0 <= k < |r| ==> r[k].order == k && r[k] == blocks[k].(order := k)
  {
    seq(|blocks|, k requires 0 <= k < |blocks| => blocks[k].(order := k))
  }

  /** Normalizing twice is normalizing once. */
  lemma NormalizeOrdersIdempotent(blocks: seq<LegacyBlock>)
    ensures NormalizeOrders(NormalizeOrders(blocks)) == NormalizeOrders(blocks)
  {
  }

  /** The first TEXT block, or -1. */
  function FirstTextIndex(blocks: seq<LegacyBlock>): (r: int)
    ensures -1 <= r < |blocks|
    ensures r >= 0 ==> blocks[r].kind == TEXT && forall k :: 0 <= k < r ==> blocks[k].kind != TEXT
    ensures r == -1 <==> forall k :: 0 <= k < |blocks| ==> blocks[k].kind != TEXT
    decreases |blocks|
  {
    if |blocks| == 0 then -1
    else if blocks[0].kind == TEXT then 0
    else
      var r := FirstTextIndex(blocks[1..]);
      if r < 0 then -1 else r + 1
  }

  /**
   * `updateTextBlockContent(text, spans)`. The spans' JSON encoding and the
   * id of a new text block are supplied: `toJson` and `newTextId`; the
   * metadata key of the spans is `spansKey`.
   */
  function UpdateTextBlockContent(blocks: seq<LegacyBlock>, text: string, spans: seq<NoteTextSpan>,
      toJson: seq<NoteTextSpan> -> string, spansKey: string, newTextId: string): seq<LegacyBlock>
  {
    NormalizeOrders([UpdatedTextBlock(blocks, text, spans, toJson, spansKey, newTextId)] + OtherBlocks(blocks))
  }

  /** The first text block with the new text and its spans' entry, or a new text block. */
  function UpdatedTextBlock(blocks: seq<LegacyBlock>, text: string, spans: seq<NoteTextSpan>,
      toJson: seq<NoteTextSpan> -> string, spansKey: string, newTextId: string): LegacyBlock
  {
    var textIndex := FirstTextIndex(blocks);
    var base := if textIndex >= 0 then blocks[textIndex].metadata else map[];
    var metadata := if |spans| == 0 then base - {spansKey} else base[spansKey := toJson(spans)];
    if textIndex >= 0 then blocks[textIndex].(content := text, metadata := metadata)
    else LegacyBlock(newTextId, TEXT, text, metadata, 0)
  }

  /** The blocks without the first text block. */
  function OtherBlocks(blocks: seq<LegacyBlock>): (r: seq<LegacyBlock>)
    ensures FirstTextIndex(blocks) < 0 ==> r == blocks
    ensures FirstTextIndex(blocks) >= 0 ==> (|r| == |blocks| - 1
      && forall k :: 0 <= k < |r| ==> r[k] == (if k < FirstTextIndex(blocks) then blocks[k] else blocks[k + 1]))
  {
    var textIndex := FirstTextIndex(blocks);
    if textIndex >= 0 then blocks[..textIndex] + blocks[textIndex + 1..] else blocks
  }

  /**
   * The text goes to a TEXT block at the front that keeps the first text
   * block's id and other metadata; the spans' entry is there iff there are
   * spans.
   */
  lemma UpdateTextBlockFront(blocks: seq<LegacyBlock>, text: string, spans: seq<NoteTextSpan>,
      toJson: seq<NoteTextSpan> -> string, spansKey: string, newTextId: string)
    ensures var r := UpdateTextBlockContent(blocks, text, spans, toJson, spansKey, newTextId);
      var i := FirstTextIndex(blocks);
      && |r| == (if i >= 0 then |blocks| else |blocks| + 1)
      && r[0].kind == TEXT && r[0].content == text && r[0].order == 0
      && r[0].id == (if i >= 0 then blocks[i].id else newTextId)
      && (spansKey in r[0].metadata <==> |spans| > 0)
      && (|spans| > 0 ==> r[0].metadata[spansKey] == toJson(spans))
      && (i >= 0 ==> forall key :: key != spansKey ==> (key in r[0].metadata <==> key in blocks[i].metadata))
      && (i < 0 ==> forall key :: key != spansKey ==> key !in r[0].metadata)
  {
  }

  /** After the text block come the other blocks in their order, each numbered by its index. */
  lemma UpdateTextBlockRest(blocks: seq<LegacyBlock>, text: string, spans: seq<NoteTextSpan>,
      toJson: seq<NoteTextSpan> -> string, spansKey: string, newTextId: string)
    ensures var r := UpdateTextBlockContent(blocks, text, spans, toJson, spansKey, newTextId);
      && |r| == |OtherBlocks(blocks)| + 1
      && (forall k :: 0 <= k < |r| ==> r[k].order == k)
      && (forall k :: 1 <= k < |r| ==> r[k] == OtherBlocks(blocks)[k - 1].(order := k))
  {
    var rest := OtherBlocks(blocks);
    var all := [UpdatedTextBlock(blocks, text, spans, toJson, spansKey, newTextId)] + rest;
    assert forall k :: 1 <= k < |all| ==> all[k] == rest[k - 1];
  }

  /** Writing the spans' entry into metadata that already holds it changes nothing. */
  lemma SpansEntryFixed(md: map<string, string>, spans: seq<NoteTextSpan>, toJson: seq<NoteTextSpan> -> string, spansKey: string)
    requires spansKey in md <==> |spans| > 0
    requires |spans| > 0 ==> md[spansKey] == toJson(spans)
    ensures (if |spans| == 0 then md - {spansKey} else md[spansKey := toJson(spans)]) == md
  {
    if |spans| == 0 {
      assert forall key :: key in md - {spansKey} <==> key in md;
    }
  }

  /** Writing the same text and spans a second time changes nothing more. */
  lemma UpdateTextBlockContentIdempotent(blocks: seq<LegacyBlock>, text: string, spans: seq<NoteTextSpan>,
      toJson: seq<NoteTextSpan> -> string, spansKey: string, newTextId: string)
    ensures var once := UpdateTextBlockContent(blocks, text, spans, toJson, spansKey, newTextId);
      UpdateTextBlockContent(once, text, spans, toJson, spansKey, newTextId) == once
  {
    UpdateTextBlockFront(blocks, text, spans, toJson, spansKey, newTextId);
    UpdateTextBlockRest(blocks, text, spans, toJson, spansKey, newTextId);
    var once := UpdateTextBlockContent(blocks, text, spans, toJson, spansKey, newTextId);
    UpdateSettledBlocks(once, text, spans, toJson, spansKey, newTextId);
  }

  /** Blocks already led by the text block holding `text` and the spans' entry, and numbered in order, are left as they are. */
  lemma UpdateSettledBlocks(once: seq<LegacyBlock>, text: string, spans: seq<NoteTextSpan>,
      toJson: seq<NoteTextSpan> -> string, spansKey: string, newTextId: string)
    requires |once| > 0 && once[0].kind == TEXT && once[0].content == text
    requires spansKey in once[0].metadata <==> |spans| > 0
    requires |spans| > 0 ==> once[0].metadata[spansKey] == toJson(spans)
    requires forall k :: 0 <= k < |once| ==> once[k].order == k
    ensures UpdateTextBlockContent(once, text, spans, toJson, spansKey, newTextId) == once
  {
    assert FirstTextIndex(once) == 0;
    SpansEntryFixed(once[0].metadata, spans, toJson, spansKey);
    assert UpdatedTextBlock(once, text, spans, toJson, spansKey, newTextId) == once[0];
    assert OtherBlocks(once) == once[1..];
    assert [once[0]] + once[1..] == once;
    assert NormalizeOrders(once) == once;
  }
}
