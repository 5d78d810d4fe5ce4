/**
 * The block editor's state: the live block list, the per-block text-field
 * values, the caret, the selected image and a bounded undo/redo history of
 * document operations. The value-level functions first say what each edit
 * does to the block list; the class `NoteEditorState` then performs the
 * edits in place and is proved to follow those functions.
 */
module NoteEditor {
  import opened Wrappers
  import opened Kotlin
  import opened NoteModel
  import opened NoteContentOperations

  /** `MAX_HISTORY`: how many operations each of the undo and redo stacks keeps. */
  const MAX_HISTORY: nat := 20

  /** Compose's `TextRange(start, end)`; the editor never reverses a range. */
  datatype TextRange = TextRange(start: int, end: int)

  /** `TextRange(offset)`: a collapsed selection at `offset`. */
  function Collapsed(offset: int): TextRange {
    TextRange(offset, offset)
  }

  /** The part of Compose's `TextFieldValue` the editor reads and writes. */
  datatype TextFieldValue = TextFieldValue(text: string, selection: TextRange)

  /** The two kinds of operation the editor records. */
  datatype DocOp =
    | TextChangeOp(blockId: string, beforeText: string, afterText: string,
                   beforeSelection: TextRange, afterSelection: TextRange)
    | ContentReplaceOp(beforeContent: NoteContent, afterContent: NoteContent,
                       beforeCaret: Option<Caret>, afterCaret: Option<Caret>)

  // ----- Pure helpers -----

  /** `TextRange.clampTo(maxLength)`: both ends pulled into `[0, maxLength]`, the end not before the start. */
  function ClampTo(r: TextRange, maxLength: nat): (c: TextRange)
    ensures 0 <= c.start <= c.end <= maxLength
    ensures c == r <==> 0 <= r.start <= r.end <= maxLength
    ensures 0 <= r.start <= maxLength ==> c.start == r.start
    ensures r.start <= r.end && 0 <= r.end <= maxLength ==> c.end == r.end
  {
    var newStart := CoerceIn(r.start, 0, maxLength);
    var newEnd := CoerceIn(r.end, newStart, maxLength);
    if newStart == r.start && newEnd == r.end then r else TextRange(newStart, newEnd)
  }

  /**
   * `NoteContent.normalizedBlocks()`: an empty list becomes one empty text
   * block, and a list ending in an image gains an empty text block.
   * `freshId` is the random id of `TextBlock(text = "")`.
   */
  function NormalizedBlocks(blocks: seq<NoteBlock>, freshId: string): (r: seq<NoteBlock>)
    ensures |r| > 0 && r[|r| - 1].TextBlock?
    ensures r == blocks <==> |blocks| > 0 && blocks[|blocks| - 1].TextBlock?
    ensures r != blocks ==> r == blocks + [EmptyText(freshId)]
  {
    var sanitized := if |blocks| == 0 then [EmptyText(freshId)] else blocks;
    if sanitized[|sanitized| - 1].TextBlock? then sanitized else sanitized + [EmptyText(freshId)]
  }

  /** `List<NoteTextSpan>.offsetBy(delta)`: every span moved by `delta`, style and length kept. */
  function OffsetBy(spans: seq<NoteTextSpan>, delta: int): (r: seq<NoteTextSpan>)
    ensures |r| == |spans|
    ensures forall k :: 0 <= k < |spans| ==>
      r[k].style == spans[k].style && r[k].start == spans[k].start + delta && r[k].end - r[k].start == spans[k].end - spans[k].start
  {
    seq(|spans|, k requires 0 <= k < |spans| => NoteTextSpan(spans[k].start + delta, spans[k].end + delta, spans[k].style))
  }

  /** A position is styled in the shifted spans exactly when the position `delta` earlier was styled before. */
  lemma OffsetByCovered(spans: seq<NoteTextSpan>, delta: int, style: NoteTextStyle, p: int)
    ensures Covered(OffsetBy(spans, delta), style, p + delta) <==> Covered(spans, style, p)
  {
    var r := OffsetBy(spans, delta);
    if Covered(spans, style, p) {
      var k :| 0 <= k < |spans| && spans[k].style == style && spans[k].start <= p < spans[k].end;
      assert r[k].style == style && r[k].start <= p + delta < r[k].end;
    }
    if Covered(r, style, p + delta) {
      var k :| 0 <= k < |r| && r[k].style == style && r[k].start <= p + delta < r[k].end;
      assert spans[k].style == style && spans[k].start <= p < spans[k].end;
    }
  }

  /** Shifting twice is shifting by the sum. */
  lemma OffsetByTwice(spans: seq<NoteTextSpan>, a: int, b: int)
    ensures OffsetBy(OffsetBy(spans, a), b) == OffsetBy(spans, a + b)
  {
    var l := OffsetBy(OffsetBy(spans, a), b);
    var r := OffsetBy(spans, a + b);
    assert forall k :: 0 <= k < |spans| ==> l[k] == r[k];
  }

  // ----- Facts about block lists -----

  predicate HasText(blocks: seq<NoteBlock>) {
    exists k :: 0 <= k < |blocks| && blocks[k].TextBlock?
  }

  predicate HasId(blocks: seq<NoteBlock>, id: string) {
    exists k :: 0 <= k < |blocks| && blocks[k].id == id
  }

  predicate HasTextId(blocks: seq<NoteBlock>, id: string) {
    exists k :: 0 <= k < |blocks| && blocks[k].TextBlock? && blocks[k].id == id
  }

  /** The ids the UI generates are random UUIDs; the properties that need them distinct say so. */
  predicate UniqueIds(blocks: seq<NoteBlock>) {
    forall i, j :: 0 <= i < j < |blocks| ==> blocks[i].id != blocks[j].id
  }

  /** Lists holding the same blocks agree on which ids and kinds they contain. */
  lemma SameMembers(a: seq<NoteBlock>, b: seq<NoteBlock>)
    requires multiset(a) == multiset(b)
    ensures HasText(a) <==> HasText(b)
    ensures forall id :: HasId(a, id) <==> HasId(b, id)
    ensures forall id :: HasTextId(a, id) <==> HasTextId(b, id)
  {
    forall x | x in a ensures x in b {
      assert x in multiset(a);
    }
    forall x | x in b ensures x in a {
      assert x in multiset(b);
    }
    if HasText(a) {
      var k :| 0 <= k < |a| && a[k].TextBlock?;
      assert a[k] in b;
    }
    if HasText(b) {
      var k :| 0 <= k < |b| && b[k].TextBlock?;
      assert b[k] in a;
    }
    forall id | HasId(a, id) ensures HasId(b, id) {
      var k :| 0 <= k < |a| && a[k].id == id;
      assert a[k] in b;
    }
    forall id | HasId(b, id) ensures HasId(a, id) {
      var k :| 0 <= k < |b| && b[k].id == id;
      assert b[k] in a;
    }
    forall id | HasTextId(a, id) ensures HasTextId(b, id) {
      var k :| 0 <= k < |a| && a[k].TextBlock? && a[k].id == id;
      assert a[k] in b;
    }
    forall id | HasTextId(b, id) ensures HasTextId(a, id) {
      var k :| 0 <= k < |b| && b[k].TextBlock? && b[k].id == id;
      assert b[k] in a;
    }
  }

  /** The first index of an id depends only on the ids, in order. */
  lemma {:induction false} IndexOfIdSameIds(a: seq<NoteBlock>, b: seq<NoteBlock>, id: string)
    requires |a| == |b| && forall k :: 0 <= k < |a| ==> a[k].id == b[k].id
    ensures IndexOfId(a, id) == IndexOfId(b, id)
    decreases |a|
  {
    if |a| > 0 {
      IndexOfIdSameIds(a[1..], b[1..], id);
    }
  }

  // ----- onTextChanged and applyTextChangeFromHistory -----

  /**
   * The index `onTextChanged(id, text)` rewrites: the first block with the
   * id, when that block is text and holds a different text; otherwise -1.
   */
  function ChangedTextIndex(blocks: seq<NoteBlock>, id: string, text: string): (r: int)
    ensures -1 <= r < |blocks|
  {
    var i := IndexOfId(blocks, id);
    if i >= 0 && blocks[i].TextBlock? && blocks[i].text != text then i else -1
  }

  /** `onTextChanged` does nothing exactly when the id is missing, names an image, or the text is unchanged. */
  lemma ChangedTextIndexSpec(blocks: seq<NoteBlock>, id: string, text: string)
    ensures var r := ChangedTextIndex(blocks, id, text);
      && (r < 0 <==> (!HasId(blocks, id) || !blocks[IndexOfId(blocks, id)].TextBlock?
                      || blocks[IndexOfId(blocks, id)].text == text))
      && (r >= 0 ==> r == IndexOfId(blocks, id) && blocks[r].TextBlock? && blocks[r].text != text)
  {
  }

  /** The block list after the first block with `id` gets `text`, when that block is text. */
  function TextApplied(blocks: seq<NoteBlock>, id: string, text: string): (r: seq<NoteBlock>)
    ensures |r| == |blocks|
    ensures forall k :: 0 <= k < |blocks| ==> r[k].id == blocks[k].id && r[k].TextBlock? == blocks[k].TextBlock?
    ensures forall k :: 0 <= k < |blocks| && k != IndexOfId(blocks, id) ==> r[k] == blocks[k]
    ensures var i := IndexOfId(blocks, id);
      i >= 0 && blocks[i].TextBlock? ==> r[i] == blocks[i].(text := text)
  {
    var i := IndexOfId(blocks, id);
    if i >= 0 && blocks[i].TextBlock? then blocks[i := blocks[i].(text := text)] else blocks
  }

  /** Rewriting a text block keeps every id and kind of block. */
  lemma TextAppliedKeepsMembers(blocks: seq<NoteBlock>, id: string, text: string)
    ensures var r := TextApplied(blocks, id, text);
      && (HasText(r) <==> HasText(blocks))
      && (forall x :: HasId(r, x) <==> HasId(blocks, x))
      && (forall x :: HasTextId(r, x) <==> HasTextId(blocks, x))
  {
    var r := TextApplied(blocks, id, text);
    if HasText(blocks) {
      var k :| 0 <= k < |blocks| && blocks[k].TextBlock?;
      assert r[k].TextBlock?;
    }
    if HasText(r) {
      var k :| 0 <= k < |r| && r[k].TextBlock?;
      assert blocks[k].TextBlock?;
    }
    forall x | HasId(blocks, x) ensures HasId(r, x) {
      var k :| 0 <= k < |blocks| && blocks[k].id == x;
      assert r[k].id == x;
    }
    forall x | HasTextId(blocks, x) ensures HasTextId(r, x) {
      var k :| 0 <= k < |blocks| && blocks[k].TextBlock? && blocks[k].id == x;
      assert r[k].TextBlock? && r[k].id == x;
    }
  }

  /** Undoing a text change after redoing it restores the block list: the history round trip of one text edit. */
  lemma TextAppliedRoundTrip(blocks: seq<NoteBlock>, id: string, before: string, after: string)
    requires var i := IndexOfId(blocks, id); i >= 0 && blocks[i].TextBlock? && blocks[i].text == before
    ensures TextApplied(TextApplied(blocks, id, after), id, before) == blocks
  {
    var i := IndexOfId(blocks, id);
    var changed := TextApplied(blocks, id, after);
    IndexOfIdSameIds(changed, blocks, id);
    var back := TextApplied(changed, id, before);
    assert back[i] == blocks[i];
    assert forall k :: 0 <= k < |blocks| ==> back[k] == blocks[k];
  }

  /** `textFieldValues[id]` after `onTextChanged`: only an entry holding another text is updated, its selection clamped. */
  function FieldTextChanged(fields: map<string, TextFieldValue>, id: string, text: string): (r: map<string, TextFieldValue>)
    ensures r.Keys == fields.Keys
    ensures forall x :: x in fields && x != id ==> r[x] == fields[x]
    ensures id in fields && fields[id].text != text ==>
      r[id] == TextFieldValue(text, ClampTo(fields[id].selection, |text|))
    ensures id in fields && fields[id].text == text ==> r[id] == fields[id]
  {
    if id in fields && fields[id].text != text then
      fields[id := TextFieldValue(text, ClampTo(fields[id].selection, |text|))]
    else fields
  }

  // ----- moveBlockBy -----

  /** `removeAt(from)` followed by `add(to, block)`. */
  function MoveBlock(blocks: seq<NoteBlock>, from: nat, to: nat): (r: seq<NoteBlock>)
    requires from < |blocks| && to < |blocks|
    ensures |r| == |blocks| && r[to] == blocks[from]
    ensures r[..to] + r[to + 1..] == blocks[..from] + blocks[from + 1..]
  {
    var rest := blocks[..from] + blocks[from + 1..];
    var r := rest[..to] + [blocks[from]] + rest[to..];
    assert r[..to] == rest[..to];
    assert r[to + 1..] == rest[to..];
    assert rest[..to] + rest[to..] == rest;
    r
  }

  /** Moving a block is a permutation of the list. */
  lemma MoveBlockPermutes(blocks: seq<NoteBlock>, from: nat, to: nat)
    requires from < |blocks| && to < |blocks|
    ensures multiset(MoveBlock(blocks, from, to)) == multiset(blocks)
  {
    var r := MoveBlock(blocks, from, to);
    assert r == r[..to] + [r[to]] + r[to + 1..];
    assert blocks == blocks[..from] + [blocks[from]] + blocks[from + 1..];
    calc {
      multiset(r);
      multiset(r[..to]) + multiset([r[to]]) + multiset(r[to + 1..]);
      multiset(r[..to] + r[to + 1..]) + multiset([blocks[from]]);
      multiset(blocks[..from] + blocks[from + 1..]) + multiset([blocks[from]]);
      multiset(blocks);
    }
  }

  /** Where `moveBlockBy(id, delta)` puts the block, or -1 when it refuses to move it. */
  function MoveTarget(blocks: seq<NoteBlock>, id: string, delta: int): (r: int)
    ensures -1 <= r < |blocks|
  {
    if delta == 0 then -1
    else
      var current := IndexOfId(blocks, id);
      if current < 0 || !blocks[current].ImageBlock? then -1
      else
        var target := CoerceIn(current + delta, 0, |blocks| - 1);
        if target == current then -1 else target
  }

  /**
   * `moveBlockBy` refuses in exactly four cases: a zero delta, an unknown id,
   * a text block, or a clamped target equal to the current index. Otherwise
   * the image lands at the clamped target and the list keeps its blocks.
   */
  lemma MoveTargetSpec(blocks: seq<NoteBlock>, id: string, delta: int)
    ensures var t := MoveTarget(blocks, id, delta);
      var i := IndexOfId(blocks, id);
      && (t < 0 <==> (delta == 0 || !HasId(blocks, id) || !blocks[i].ImageBlock?
                      || CoerceIn(i + delta, 0, |blocks| - 1) == i))
      && (t >= 0 ==> (t == CoerceIn(i + delta, 0, |blocks| - 1) && t != i
                      && MoveBlock(blocks, i, t)[t] == blocks[i] && MoveBlock(blocks, i, t)[t].ImageBlock?
                      && multiset(MoveBlock(blocks, i, t)) == multiset(blocks)))
  {
    var t := MoveTarget(blocks, id, delta);
    if t >= 0 {
      MoveBlockPermutes(blocks, IndexOfId(blocks, id), t);
    }
  }

  // ----- mergeTextBlocksAround -----

  /** `mergeTextBlocksAround(gap)` acts only on a text block at `gap - 1` followed by one at `gap`. */
  predicate CanMerge(blocks: seq<NoteBlock>, gap: int) {
    1 <= gap < |blocks| && blocks[gap - 1].TextBlock? && blocks[gap].TextBlock?
  }

  /** `before` extended by `after`: `after`'s spans move past `before`'s text. */
  function MergedBlock(before: NoteBlock, after: NoteBlock): NoteBlock
    requires before.TextBlock? && after.TextBlock?
  {
    before.(text := before.text + after.text, spans := before.spans + OffsetBy(after.spans, |before.text|))
  }

  /**
   * The merged block keeps `before`'s id, its text is `before`'s followed by
   * `after`'s, and each position carries the styles it carried in the block
   * it came from.
   */
  lemma MergedBlockSpec(before: NoteBlock, after: NoteBlock, style: NoteTextStyle, p: int)
    requires before.TextBlock? && after.TextBlock?
    ensures var m := MergedBlock(before, after);
      && m.TextBlock? && m.id == before.id
      && m.text[..|before.text|] == before.text && m.text[|before.text|..] == after.text
      && (Covered(m.spans, style, p) <==> Covered(before.spans, style, p) || Covered(after.spans, style, p - |before.text|))
  {
    var m := MergedBlock(before, after);
    CoveredAppend(before.spans, OffsetBy(after.spans, |before.text|), style, p);
    OffsetByCovered(after.spans, |before.text|, style, p - |before.text|);
  }

  /** The list after `mergeTextBlocksAround(gap)`: the two text blocks replaced by their merge. */
  function MergedAround(blocks: seq<NoteBlock>, gap: int): (r: seq<NoteBlock>)
    requires CanMerge(blocks, gap)
    ensures |r| == |blocks| - 1
    ensures r[..gap - 1] == blocks[..gap - 1] && r[gap..] == blocks[gap + 1..]
    ensures r[gap - 1] == MergedBlock(blocks[gap - 1], blocks[gap])
  {
    var r := blocks[..gap - 1] + [MergedBlock(blocks[gap - 1], blocks[gap])] + blocks[gap + 1..];
    assert r[gap..] == blocks[gap + 1..];
    r
  }

  /** Merging keeps a text block, and every id it leaves was there before, other than `after`'s. */
  lemma MergedAroundMembers(blocks: seq<NoteBlock>, gap: int)
    requires CanMerge(blocks, gap)
    ensures HasText(MergedAround(blocks, gap))
    ensures forall id :: HasId(MergedAround(blocks, gap), id) ==> HasId(blocks, id)
    ensures UniqueIds(blocks) ==> UniqueIds(MergedAround(blocks, gap)) && !HasId(MergedAround(blocks, gap), blocks[gap].id)
  {
    var r := MergedAround(blocks, gap);
    assert r[gap - 1].TextBlock?;
    assert forall k :: 0 <= k < gap - 1 ==> r[k] == blocks[k];
    assert forall k :: gap <= k < |r| ==> r[k] == blocks[k + 1];
    forall id | HasId(r, id) ensures HasId(blocks, id) {
      var k :| 0 <= k < |r| && r[k].id == id;
      if k < gap - 1 {
        assert blocks[k].id == id;
      } else if k == gap - 1 {
        assert blocks[gap - 1].id == id;
      } else {
        assert blocks[k + 1].id == id;
      }
    }
  }

  /** The caret after the merge: a caret in `after` moves into the merged block, past `before`'s text. */
  function MergedCaret(caret: Option<Caret>, afterId: string, mergedId: string, beforeLength: nat): (r: Option<Caret>)
    ensures r.None? <==> caret.None?
    ensures caret.Some? && caret.value.Valid() ==> r.value.Valid()
    ensures caret.Some? && caret.value.blockId == afterId ==>
      r.value == Caret(mergedId, caret.value.start + beforeLength, caret.value.end + beforeLength)
    ensures caret.Some? && caret.value.blockId != afterId ==> r == caret
  {
    match caret
    case None => None
    case Some(c) =>
      if c.blockId == afterId then Some(Caret(mergedId, beforeLength + c.start, beforeLength + c.end)) else caret
  }

  /** `textFieldValues` after the merge: `after`'s entry gone, the merged block's holding the merged text. */
  function MergedFields(fields: map<string, TextFieldValue>, afterId: string, merged: NoteBlock, caret: Option<Caret>)
    : (r: map<string, TextFieldValue>)
    requires merged.TextBlock?
    ensures r.Keys == fields.Keys - {afterId} + {merged.id}
    ensures r[merged.id].text == merged.text
    ensures 0 <= r[merged.id].selection.start <= r[merged.id].selection.end <= |merged.text|
    ensures forall x :: x in fields && x != afterId && x != merged.id ==> r[x] == fields[x]
  {
    var kept := fields - {afterId};
    var selection :=
      if caret.Some? && caret.value.blockId == merged.id then TextRange(caret.value.start, caret.value.end)
      else if merged.id in kept then kept[merged.id].selection
      else Collapsed(|merged.text|);
    kept[merged.id := TextFieldValue(merged.text, ClampTo(selection, |merged.text|))]
  }

  // ----- removeBlockById and removeImageBefore -----

  /** `removeAt(index)`. */
  function Without(blocks: seq<NoteBlock>, index: nat): (r: seq<NoteBlock>)
    requires index < |blocks|
    ensures |r| == |blocks| - 1
    ensures forall k :: 0 <= k < index ==> r[k] == blocks[k]
    ensures forall k :: index <= k < |r| ==> r[k] == blocks[k + 1]
  {
    blocks[..index] + blocks[index + 1..]
  }

  /** Removing a block adds no id, keeps distinct ids distinct, and with distinct ids drops the removed one. */
  lemma WithoutMembers(blocks: seq<NoteBlock>, index: nat)
    requires index < |blocks|
    ensures forall id :: HasId(Without(blocks, index), id) ==> HasId(blocks, id)
    ensures UniqueIds(blocks) ==> UniqueIds(Without(blocks, index)) && !HasId(Without(blocks, index), blocks[index].id)
  {
    var rest := Without(blocks, index);
    forall id | HasId(rest, id) ensures HasId(blocks, id) {
      var k :| 0 <= k < |rest| && rest[k].id == id;
      if k < index { assert blocks[k].id == id; } else { assert blocks[k + 1].id == id; }
    }
    if UniqueIds(blocks) {
      forall i, j | 0 <= i < j < |rest| ensures rest[i].id != rest[j].id {
        var bi := if i < index then i else i + 1;
        var bj := if j < index then j else j + 1;
        assert rest[i] == blocks[bi] && rest[j] == blocks[bj];
      }
      forall k | 0 <= k < |rest| ensures rest[k].id != blocks[index].id {
        if k < index { assert rest[k] == blocks[k]; } else { assert rest[k] == blocks[k + 1]; }
      }
    }
  }

  /** The list once the removed image's neighbours are merged, before any empty text block is added. */
  function Joined(blocks: seq<NoteBlock>, index: nat): seq<NoteBlock>
    requires index < |blocks|
  {
    var rest := Without(blocks, index);
    if JoinsAround(blocks, index) then MergedAround(rest, index) else rest
  }

  /** Removing the block at `index` joins its neighbours when it is an image between two text blocks. */
  predicate JoinsAround(blocks: seq<NoteBlock>, index: nat)
    requires index < |blocks|
  {
    blocks[index].ImageBlock? && CanMerge(Without(blocks, index), index)
  }

  /** The caret once the texts around a removed image are joined: a caret in the later text moves into the merged block. */
  function JoinedCaret(blocks: seq<NoteBlock>, index: nat, caret: Option<Caret>): (r: Option<Caret>)
    requires index < |blocks|
    ensures r.None? <==> caret.None?
    ensures caret.Some? && caret.value.Valid() ==> r.value.Valid()
    ensures !JoinsAround(blocks, index) ==> r == caret
  {
    var rest := Without(blocks, index);
    if JoinsAround(blocks, index) then MergedCaret(caret, rest[index].id, rest[index - 1].id, |rest[index - 1].text|)
    else caret
  }

  /**
   * `textFieldValues` before the refresh: a removed text block's entry
   * dropped, or, around a removed image, the later text's entry folded into
   * the merged block's.
   */
  function JoinedFields(blocks: seq<NoteBlock>, index: nat, fields: map<string, TextFieldValue>, caret: Option<Caret>)
    : map<string, TextFieldValue>
    requires index < |blocks|
  {
    var rest := Without(blocks, index);
    if JoinsAround(blocks, index) then
      MergedFields(fields, rest[index].id, MergedBlock(rest[index - 1], rest[index]), JoinedCaret(blocks, index, caret))
    else if blocks[index].TextBlock? then fields - {blocks[index].id}
    else fields
  }

  /** `focusedBlockId` or `pendingFocusId` after the join: focus on the later text moves to the merged block. */
  function JoinedFocus(blocks: seq<NoteBlock>, index: nat, focus: Option<string>): (r: Option<string>)
    requires index < |blocks|
    ensures r != focus ==>
      JoinsAround(blocks, index) && focus == Some(blocks[index + 1].id) && r == Some(blocks[index - 1].id)
  {
    var rest := Without(blocks, index);
    if JoinsAround(blocks, index) && focus == Some(rest[index].id) then Some(rest[index - 1].id) else focus
  }

  /**
   * The list after `removeBlockById` removes the block at `index`: an image
   * leaves its two text neighbours merged, and a list left without text
   * gains an empty text block with the id `freshId`.
   */
  function RemovedBlocks(blocks: seq<NoteBlock>, index: nat, freshId: string): seq<NoteBlock>
    requires index < |blocks|
  {
    var joined := Joined(blocks, index);
    if HasText(joined) then joined else joined + [EmptyText(freshId)]
  }

  /** Joining adds no id, and with distinct ids drops the removed one. */
  lemma JoinedMembers(blocks: seq<NoteBlock>, index: nat)
    requires index < |blocks|
    ensures forall id :: HasId(Joined(blocks, index), id) ==> HasId(blocks, id)
    ensures UniqueIds(blocks) ==> !HasId(Joined(blocks, index), blocks[index].id)
  {
    var rest := Without(blocks, index);
    WithoutMembers(blocks, index);
    if blocks[index].ImageBlock? && CanMerge(rest, index) {
      MergedAroundMembers(rest, index);
    }
  }

  /**
   * After a removal a text block remains, the only id it can add is
   * `freshId`, and with distinct ids the removed id is gone.
   */
  lemma RemovedBlocksMembers(blocks: seq<NoteBlock>, index: nat, freshId: string)
    requires index < |blocks|
    ensures var r := RemovedBlocks(blocks, index, freshId);
      && HasText(r)
      && (forall id :: HasId(r, id) ==> HasId(blocks, id) || id == freshId)
      && (UniqueIds(blocks) && freshId != blocks[index].id ==> !HasId(r, blocks[index].id))
  {
    var joined := Joined(blocks, index);
    JoinedMembers(blocks, index);
    var r := RemovedBlocks(blocks, index, freshId);
    if !HasText(joined) {
      assert r[|r| - 1].TextBlock?;
      forall id | HasId(r, id) ensures HasId(joined, id) || id == freshId {
        var k :| 0 <= k < |r| && r[k].id == id;
        if k < |joined| { assert joined[k].id == id; }
      }
    }
  }

  /** Removing an image between two text blocks leaves one block joining their texts and styles in its place. */
  lemma RemovedImageJoinsText(blocks: seq<NoteBlock>, index: nat, freshId: string)
    requires 1 <= index < |blocks| - 1 && blocks[index].ImageBlock?
    requires blocks[index - 1].TextBlock? && blocks[index + 1].TextBlock?
    ensures RemovedBlocks(blocks, index, freshId) ==
      blocks[..index - 1] + [MergedBlock(blocks[index - 1], blocks[index + 1])] + blocks[index + 2..]
  {
    var rest := Without(blocks, index);
    assert rest[index - 1] == blocks[index - 1] && rest[index] == blocks[index + 1];
    var m := MergedAround(rest, index);
    MergedAroundMembers(rest, index);
    assert m[..index - 1] == blocks[..index - 1];
    assert m[index..] == blocks[index + 2..];
    assert m == m[..index - 1] + [m[index - 1]] + m[index..];
  }

  /** Removing a text block while another text block remains only takes it out. */
  lemma RemovedTextBlock(blocks: seq<NoteBlock>, index: nat, freshId: string)
    requires index < |blocks| && blocks[index].TextBlock? && HasText(Without(blocks, index))
    ensures RemovedBlocks(blocks, index, freshId) == blocks[..index] + blocks[index + 1..]
  {
  }

  /** `ensureSelectedImageIsValid()`: a selection naming no block is cleared. */
  function ValidSelection(selected: Option<string>, blocks: seq<NoteBlock>): (r: Option<string>)
    ensures r.Some? ==> r == selected && HasId(blocks, r.value)
    ensures selected.Some? && HasId(blocks, selected.value) ==> r == selected
  {
    if selected.Some? && !HasId(blocks, selected.value) then None else selected
  }

  /**
   * The selection after `removeBlockById(id)`: cleared when it named the
   * removed block or names a block that is no longer there, kept otherwise.
   */
  lemma SelectionAfterRemoval(selected: Option<string>, blocks: seq<NoteBlock>, index: nat, freshId: string)
    requires index < |blocks|
    ensures var r := RemovedBlocks(blocks, index, freshId);
      var s := ValidSelection(if selected == Some(blocks[index].id) then None else selected, r);
      && (selected == Some(blocks[index].id) || (selected.Some? && !HasId(r, selected.value)) ==> s.None?)
      && (selected.Some? && selected.value != blocks[index].id && HasId(r, selected.value) ==> s == selected)
      && (s.Some? ==> HasId(r, s.value) && s.value != blocks[index].id)
  {
  }

  /** `removeImageBefore(id)` acts only when the block before the first `id` is an image; this is its index. */
  function ImageBeforeIndex(blocks: seq<NoteBlock>, id: string): (r: int)
    ensures -1 <= r < |blocks|
    ensures r >= 0 ==> blocks[r].ImageBlock? && r + 1 == IndexOfId(blocks, id)
  {
    var i := IndexOfId(blocks, id);
    if i <= 0 then -1 else if blocks[i - 1].ImageBlock? then i - 1 else -1
  }

  /**
   * `removeImageBefore` refuses when the id is missing, names the first
   * block, or follows a text block; otherwise, with distinct ids, it removes
   * exactly that image.
   */
  lemma ImageBeforeSpec(blocks: seq<NoteBlock>, id: string, freshId: string)
    ensures var i := IndexOfId(blocks, id);
      ImageBeforeIndex(blocks, id) < 0 <==> !HasId(blocks, id) || i == 0 || !blocks[i - 1].ImageBlock?
    ensures var r := ImageBeforeIndex(blocks, id);
      r >= 0 && UniqueIds(blocks) && freshId != blocks[r].id ==>
        IndexOfId(blocks, blocks[r].id) == r && !HasId(RemovedBlocks(blocks, r, freshId), blocks[r].id)
  {
    ImageBeforeRefuses(blocks, id);
    var r := ImageBeforeIndex(blocks, id);
    if r >= 0 && UniqueIds(blocks) && freshId != blocks[r].id {
      ImageBeforeRemoves(blocks, r, freshId);
    }
  }

  lemma ImageBeforeRefuses(blocks: seq<NoteBlock>, id: string)
    ensures var i := IndexOfId(blocks, id);
      ImageBeforeIndex(blocks, id) < 0 <==> !HasId(blocks, id) || i == 0 || !blocks[i - 1].ImageBlock?
  {
  }

  lemma ImageBeforeRemoves(blocks: seq<NoteBlock>, r: nat, freshId: string)
    requires r < |blocks| && UniqueIds(blocks) && freshId != blocks[r].id
    ensures IndexOfId(blocks, blocks[r].id) == r && !HasId(RemovedBlocks(blocks, r, freshId), blocks[r].id)
  {
    RemovedBlocksMembers(blocks, r, freshId);
  }

  // ----- The caret and ensureCaretWithinBounds -----

  /** `caret` lies inside a text block with its id. */
  predicate CaretFits(c: Caret, blocks: seq<NoteBlock>) {
    exists k :: 0 <= k < |blocks| && blocks[k].TextBlock? && blocks[k].id == c.blockId
      && 0 <= c.start <= |blocks[k].text| && 0 <= c.end <= |blocks[k].text|
  }

  /** `caret` lies inside the block `blockList.firstOrNull { it.id == caret.blockId }`, which is text. */
  predicate CaretInBounds(c: Caret, blocks: seq<NoteBlock>) {
    var i := IndexOfId(blocks, c.blockId);
    i >= 0 && blocks[i].TextBlock? && 0 <= c.start <= |blocks[i].text| && 0 <= c.end <= |blocks[i].text|
  }

  /** `lastOrNull { it is TextBlock }`, as an index or -1. */
  function LastTextIndex(blocks: seq<NoteBlock>): (r: int)
    ensures -1 <= r < |blocks|
    ensures r >= 0 ==> blocks[r].TextBlock? && forall k :: r < k < |blocks| ==> !blocks[k].TextBlock?
    ensures r < 0 <==> !HasText(blocks)
    decreases |blocks|
  {
    if |blocks| == 0 then -1
    else if blocks[|blocks| - 1].TextBlock? then |blocks| - 1
    else
      var r := LastTextIndex(blocks[..|blocks| - 1]);
      assert HasText(blocks) ==> HasText(blocks[..|blocks| - 1]) by {
        if HasText(blocks) {
          var k :| 0 <= k < |blocks| && blocks[k].TextBlock?;
          assert blocks[..|blocks| - 1][k].TextBlock?;
        }
      }
      r
  }

  /**
   * `defaultCaret()`: the end of the last text block, with the list it
   * leaves; a list without text gains an empty text block `freshId`.
   */
  function DefaultCaretOf(blocks: seq<NoteBlock>, freshId: string): (r: (seq<NoteBlock>, Caret))
    ensures HasText(blocks) ==> r.0 == blocks
    ensures !HasText(blocks) ==> r.0 == blocks + [EmptyText(freshId)]
    ensures CaretFits(r.1, r.0) && r.1.Valid() && r.1.start == r.1.end
  {
    var k := LastTextIndex(blocks);
    if k >= 0 then (blocks, Caret(blocks[k].id, |blocks[k].text|, |blocks[k].text|))
    else
      var grown := blocks + [EmptyText(freshId)];
      assert grown[|blocks|].TextBlock?;
      (grown, Caret(freshId, 0, 0))
  }

  /**
   * `ensureCaretWithinBounds()`: a caret in a text block is clamped to its
   * text, any other caret falls back to the default caret; returns the list
   * and the caret.
   */
  function BoundedCaret(caret: Option<Caret>, blocks: seq<NoteBlock>, freshId: string): (r: (seq<NoteBlock>, Option<Caret>))
  {
    match caret
    case None => (blocks, None)
    case Some(c) =>
      var i := IndexOfId(blocks, c.blockId);
      if i >= 0 && blocks[i].TextBlock? then
        var end := |blocks[i].text|;
        (blocks, Some(Caret(c.blockId, CoerceIn(c.start, 0, end), CoerceIn(c.end, 0, end))))
      else
        var d := DefaultCaretOf(blocks, freshId);
        (d.0, Some(d.1))
  }

  /**
   * The bounded caret is absent exactly when there was none, always lies in
   * a text block, keeps the list when it has text, and leaves a caret that is
   * already in bounds alone.
   */
  lemma BoundedCaretSpec(caret: Option<Caret>, blocks: seq<NoteBlock>, freshId: string)
    ensures var r := BoundedCaret(caret, blocks, freshId);
      && (r.1.None? <==> caret.None?)
      && (r.1.Some? ==> CaretFits(r.1.value, r.0) && r.1.value.Valid())
      && (HasText(blocks) || caret.None? ==> r.0 == blocks)
      && (caret.Some? && CaretInBounds(caret.value, blocks) ==> r == (blocks, caret))
      && (caret.Some? && IndexOfId(blocks, caret.value.blockId) >= 0 && blocks[IndexOfId(blocks, caret.value.blockId)].TextBlock? ==>
            r.1.value.blockId == caret.value.blockId && CaretInBounds(r.1.value, blocks))
  {
    var r := BoundedCaret(caret, blocks, freshId);
    if caret.Some? {
      var c := caret.value;
      var i := IndexOfId(blocks, c.blockId);
      if i >= 0 && blocks[i].TextBlock? {
        assert r.1.value.blockId == c.blockId;
        assert CaretFits(r.1.value, blocks) by {
          assert blocks[i].TextBlock? && blocks[i].id == c.blockId;
        }
      }
    }
  }

  // ----- refreshTextFieldState -----

  /** One text block's entry after the refresh: created collapsed at the end, or updated to the block's text. */
  function FieldFor(existing: Option<TextFieldValue>, text: string): (v: TextFieldValue)
    ensures v.text == text
    ensures existing.Some? && existing.value.text == text ==> v == existing.value
    ensures existing.None? ==> v.selection == Collapsed(|text|)
    ensures existing.Some? && existing.value.text != text ==> v.selection == ClampTo(existing.value.selection, |text|)
  {
    match existing
    case None => TextFieldValue(text, Collapsed(|text|))
    case Some(e) => if e.text != text then TextFieldValue(text, ClampTo(e.selection, |text|)) else e
  }

  /** The `textBlocks.forEach` pass over the first `|blocks|` blocks, images skipped. */
  function FillFields(fields: map<string, TextFieldValue>, blocks: seq<NoteBlock>): (r: map<string, TextFieldValue>)
    ensures forall id :: id in r <==> id in fields || HasTextId(blocks, id)
    decreases |blocks|
  {
    if |blocks| == 0 then fields
    else
      var prefix := blocks[..|blocks| - 1];
      var f := FillFields(fields, prefix);
      var b := blocks[|blocks| - 1];
      assert forall id :: HasTextId(blocks, id) <==> HasTextId(prefix, id) || (b.TextBlock? && b.id == id) by {
        forall id | HasTextId(blocks, id) ensures HasTextId(prefix, id) || (b.TextBlock? && b.id == id) {
          var k :| 0 <= k < |blocks| && blocks[k].TextBlock? && blocks[k].id == id;
          if k < |prefix| { assert prefix[k] == blocks[k]; }
        }
        forall id | HasTextId(prefix, id) ensures HasTextId(blocks, id) {
          var k :| 0 <= k < |prefix| && prefix[k].TextBlock? && prefix[k].id == id;
          assert blocks[k] == prefix[k];
        }
      }
      if b.TextBlock? then f[b.id := FieldFor(if b.id in f then Some(f[b.id]) else None, b.text)] else f
  }

  /** `refreshTextFieldState()`: entries of vanished text blocks dropped, then every text block's entry filled in. */
  function RefreshedFields(fields: map<string, TextFieldValue>, blocks: seq<NoteBlock>): (r: map<string, TextFieldValue>)
    ensures forall id :: id in r <==> HasTextId(blocks, id)
  {
    FillFields(map id | id in fields && HasTextId(blocks, id) :: fields[id], blocks)
  }

  /** Distinct ids stay distinct in a prefix. */
  lemma UniquePrefix(blocks: seq<NoteBlock>, n: nat)
    requires UniqueIds(blocks) && n <= |blocks|
    ensures UniqueIds(blocks[..n])
  {
    var prefix := blocks[..n];
    forall i, j | 0 <= i < j < |prefix| ensures prefix[i].id != prefix[j].id {
      assert prefix[i] == blocks[i] && prefix[j] == blocks[j];
    }
  }

  /** With distinct ids, the fill pass gives each text block an entry holding exactly its text. */
  lemma {:induction false} FillFieldsTexts(fields: map<string, TextFieldValue>, blocks: seq<NoteBlock>)
    requires UniqueIds(blocks)
    ensures forall k :: 0 <= k < |blocks| && blocks[k].TextBlock? ==>
      FillFields(fields, blocks)[blocks[k].id].text == blocks[k].text
    decreases |blocks|
  {
    if |blocks| > 0 {
      var last := |blocks| - 1;
      var prefix := blocks[..last];
      UniquePrefix(blocks, last);
      FillFieldsTexts(fields, prefix);
      var b := blocks[last];
      var f := FillFields(fields, prefix);
      var r := FillFields(fields, blocks);
      assert r == if b.TextBlock? then f[b.id := FieldFor(if b.id in f then Some(f[b.id]) else None, b.text)] else f;
      forall k | 0 <= k < |blocks| && blocks[k].TextBlock? ensures r[blocks[k].id].text == blocks[k].text {
        if k < last {
          assert prefix[k] == blocks[k];
          assert blocks[k].id != b.id;
          assert f[prefix[k].id].text == prefix[k].text;
        }
      }
    }
  }

  /** The fill pass touches only the entries of text blocks it visits. */
  lemma {:induction false} FillFieldsOutside(fields: map<string, TextFieldValue>, blocks: seq<NoteBlock>, id: string)
    requires id in fields && !HasTextId(blocks, id)
    ensures FillFields(fields, blocks)[id] == fields[id]
    decreases |blocks|
  {
    if |blocks| > 0 {
      var prefix := blocks[..|blocks| - 1];
      assert !HasTextId(prefix, id) by {
        forall k | 0 <= k < |prefix| && prefix[k].TextBlock? ensures prefix[k].id != id {
          assert blocks[k] == prefix[k];
        }
      }
      FillFieldsOutside(fields, prefix, id);
      assert !(blocks[|blocks| - 1].TextBlock? && blocks[|blocks| - 1].id == id);
    }
  }

  /** With distinct ids, the fill pass leaves alone an entry that already holds its block's text. */
  lemma {:induction false} FillFieldsKeeps(fields: map<string, TextFieldValue>, blocks: seq<NoteBlock>, k: nat)
    requires UniqueIds(blocks) && k < |blocks| && blocks[k].TextBlock?
    requires blocks[k].id in fields && fields[blocks[k].id].text == blocks[k].text
    ensures FillFields(fields, blocks)[blocks[k].id] == fields[blocks[k].id]
    decreases |blocks|
  {
    var prefix := blocks[..|blocks| - 1];
    var b := blocks[|blocks| - 1];
    UniquePrefix(blocks, |blocks| - 1);
    if k < |blocks| - 1 {
      assert prefix[k] == blocks[k];
      FillFieldsKeeps(fields, prefix, k);
      assert blocks[k].id != b.id;
    } else {
      assert forall j :: 0 <= j < |prefix| ==> prefix[j] == blocks[j] && blocks[j].id != b.id;
      assert !HasTextId(prefix, b.id);
      FillFieldsOutside(fields, prefix, b.id);
    }
  }

  /** The refresh gives each text block, with distinct ids, an entry holding its text, keeping up-to-date entries. */
  lemma RefreshedFieldsTexts(fields: map<string, TextFieldValue>, blocks: seq<NoteBlock>)
    requires UniqueIds(blocks)
    ensures var r := RefreshedFields(fields, blocks);
      && (forall k :: 0 <= k < |blocks| && blocks[k].TextBlock? ==> r[blocks[k].id].text == blocks[k].text)
      && (forall k :: (0 <= k < |blocks| && blocks[k].TextBlock? && blocks[k].id in fields
            && fields[blocks[k].id].text == blocks[k].text) ==> r[blocks[k].id] == fields[blocks[k].id])
  {
    var kept := map id | id in fields && HasTextId(blocks, id) :: fields[id];
    FillFieldsTexts(kept, blocks);
    forall k | 0 <= k < |blocks| && blocks[k].TextBlock? && blocks[k].id in fields
        && fields[blocks[k].id].text == blocks[k].text
      ensures RefreshedFields(fields, blocks)[blocks[k].id] == fields[blocks[k].id]
    {
      assert HasTextId(blocks, blocks[k].id);
      FillFieldsKeeps(kept, blocks, k);
    }
  }

  // ----- The undo and redo stacks -----

  /** The last `n` elements: what `trimStackIfNeeded` leaves by dropping the oldest. */
  function KeepLast<T>(s: seq<T>, n: nat): (r: seq<T>)
    ensures |r| <= n
    ensures |s| <= n ==> r == s
    ensures |s| > n ==> r == s[|s| - n..]
  {
    if |s| > n then s[|s| - n..] else s
  }

  /** `trimStackIfNeeded(stack)`: drop from the bottom until at most `MAX_HISTORY` remain. */
  method TrimStackIfNeeded(stack: seq<DocOp>) returns (trimmed: seq<DocOp>)
    ensures trimmed == KeepLast(stack, MAX_HISTORY)
  {
    trimmed := stack;
    while |trimmed| > MAX_HISTORY
      invariant trimmed == stack[|stack| - |trimmed|..]
      invariant |stack| <= MAX_HISTORY ==> trimmed == stack
      invariant |stack| > MAX_HISTORY ==> |trimmed| >= MAX_HISTORY
      decreases |trimmed|
    {
      trimmed := trimmed[1..];
    }
  }

  /** The undo stack after `recordOperation(op)`: `op` folded into the last entry when `mergeWith` allows, else pushed and trimmed. */
  function Recorded(undo: seq<DocOp>, op: DocOp, mergeWith: (DocOp, DocOp) -> Option<DocOp>): seq<DocOp>
  {
    if |undo| > 0 && mergeWith(undo[|undo| - 1], op).Some? then
      undo[..|undo| - 1] + [mergeWith(undo[|undo| - 1], op).value]
    else KeepLast(undo + [op], MAX_HISTORY)
  }

  /**
   * Recording either replaces the top entry by its merge with `op`, keeping
   * the rest, or pushes `op` on top of the most recent entries.
   */
  lemma RecordedSpec(undo: seq<DocOp>, op: DocOp, mergeWith: (DocOp, DocOp) -> Option<DocOp>)
    requires |undo| <= MAX_HISTORY
    ensures var r := Recorded(undo, op, mergeWith);
      && 0 < |r| <= MAX_HISTORY
      && (|undo| > 0 && mergeWith(undo[|undo| - 1], op).Some? ==>
            |r| == |undo| && r[..|r| - 1] == undo[..|undo| - 1] && r[|r| - 1] == mergeWith(undo[|undo| - 1], op).value)
      && (!(|undo| > 0 && mergeWith(undo[|undo| - 1], op).Some?) ==>
            r[|r| - 1] == op && r[..|r| - 1] == undo[|undo| - (|r| - 1)..])
  {
    var r := Recorded(undo, op, mergeWith);
    if !(|undo| > 0 && mergeWith(undo[|undo| - 1], op).Some?) {
      var s := undo + [op];
      assert r == s[|s| - |r|..];
      assert r[..|r| - 1] == s[|s| - |r|..|s| - 1];
      assert s[..|s| - 1] == undo;
    }
  }

  /** The two stacks after `undo()`: the top operation moves to the redo stack, which is trimmed. */
  function UndoStacks(undo: seq<DocOp>, redo: seq<DocOp>): (seq<DocOp>, seq<DocOp>) {
    if |undo| == 0 then (undo, redo)
    else (undo[..|undo| - 1], KeepLast(redo + [undo[|undo| - 1]], MAX_HISTORY))
  }

  /** The two stacks after `redo()`: the top operation moves back to the undo stack, which is trimmed. */
  function RedoStacks(undo: seq<DocOp>, redo: seq<DocOp>): (seq<DocOp>, seq<DocOp>) {
    if |redo| == 0 then (undo, redo)
    else (KeepLast(undo + [redo[|redo| - 1]], MAX_HISTORY), redo[..|redo| - 1])
  }

  /** Both stacks stay within `MAX_HISTORY`, and a non-empty stack loses exactly its top. */
  lemma StacksBounded(undo: seq<DocOp>, redo: seq<DocOp>)
    requires |undo| <= MAX_HISTORY && |redo| <= MAX_HISTORY
    ensures var u := UndoStacks(undo, redo);
      && |u.0| <= MAX_HISTORY && |u.1| <= MAX_HISTORY
      && (|undo| > 0 ==> u.0 == undo[..|undo| - 1] && u.1[|u.1| - 1] == undo[|undo| - 1])
    ensures var d := RedoStacks(undo, redo);
      && |d.0| <= MAX_HISTORY && |d.1| <= MAX_HISTORY
      && (|redo| > 0 ==> d.1 == redo[..|redo| - 1] && d.0[|d.0| - 1] == redo[|redo| - 1])
  {
  }

  /** Redo after undo, and undo after redo, give back both stacks while the receiving stack has room. */
  lemma UndoRedoStacks(undo: seq<DocOp>, redo: seq<DocOp>)
    ensures 0 < |undo| <= MAX_HISTORY && |redo| < MAX_HISTORY ==>
      var u := UndoStacks(undo, redo); RedoStacks(u.0, u.1) == (undo, redo)
    ensures 0 < |redo| <= MAX_HISTORY && |undo| < MAX_HISTORY ==>
      var d := RedoStacks(undo, redo); UndoStacks(d.0, d.1) == (undo, redo)
  {
    if 0 < |undo| <= MAX_HISTORY && |redo| < MAX_HISTORY {
      var u := UndoStacks(undo, redo);
      assert u.1 == redo + [undo[|undo| - 1]];
      assert u.0 + [undo[|undo| - 1]] == undo;
    }
    if 0 < |redo| <= MAX_HISTORY && |undo| < MAX_HISTORY {
      var d := RedoStacks(undo, redo);
      assert d.0 == undo + [redo[|redo| - 1]];
      assert d.1 + [redo[|redo| - 1]] == redo;
    }
  }

  // ----- setContent -----

  /** `sameAs` for one pair: text blocks compared in full, images by id, uri, size and alt text only. */
  predicate SameBlock(a: NoteBlock, b: NoteBlock) {
    match a
    case TextBlock(_, _, _) => b.TextBlock? && a.id == b.id && a.text == b.text && a.spans == b.spans
    case ImageBlock(_, _, _, _, _, _, _, _, _, _, _, _, _, _, _) =>
      b.ImageBlock? && a.id == b.id && a.uri == b.uri && a.width == b.width && a.height == b.height && a.alt == b.alt
  }

  /** `List<NoteBlock>.sameAs(other)`. */
  predicate SameAs(a: seq<NoteBlock>, b: seq<NoteBlock>) {
    |a| == |b| && forall i :: 0 <= i < |a| ==> SameBlock(a[i], b[i])
  }

  /**
   * Lists that are `sameAs` each other agree on every text block and on the
   * ids and kinds of all blocks; they may differ only in image fields beyond
   * id, uri, size and alt text.
   */
  lemma SameAsSpec(a: seq<NoteBlock>, b: seq<NoteBlock>)
    ensures SameAs(a, a)
    ensures SameAs(a, b) ==> forall i :: 0 <= i < |a| ==>
      a[i].id == b[i].id && a[i].TextBlock? == b[i].TextBlock? && (a[i].TextBlock? ==> a[i] == b[i])
  {
  }

  /** `blockList.singleOrNull() as? TextBlock` holding neither text nor spans. */
  predicate SingleEmptyText(blocks: seq<NoteBlock>) {
    |blocks| == 1 && blocks[0].TextBlock? && blocks[0].text == "" && blocks[0].spans == []
  }

  /** Whether `setContent(content)` leaves the editor as it is. */
  predicate SetContentKeeps(blocks: seq<NoteBlock>, content: NoteContent, freshId: string) {
    (|content.blocks| == 0 && SingleEmptyText(blocks)) || SameAs(blocks, NormalizedBlocks(content.blocks, freshId))
  }

  /** Setting the content the editor already shows, once normalised, changes nothing. */
  lemma SetContentOfCurrent(blocks: seq<NoteBlock>, freshId: string)
    requires |blocks| > 0 && blocks[|blocks| - 1].TextBlock?
    ensures SetContentKeeps(blocks, NoteContent(blocks), freshId)
  {
    SameAsSpec(blocks, blocks);
  }

  // ----- The editor's invariant -----

  /**
   * What the editor keeps true of its values: some block is text, every text
   * block and nothing else has a text-field entry, the caret's offsets are
   * not negative, and a selected image is in the list.
   */
  ghost predicate ValuesOk(blocks: seq<NoteBlock>, fields: map<string, TextFieldValue>, caret: Option<Caret>, selected: Option<string>) {
    && HasText(blocks)
    && (forall id :: id in fields <==> HasTextId(blocks, id))
    && (caret.Some? ==> caret.value.Valid())
    && (selected.Some? ==> HasId(blocks, selected.value))
  }

  /** The editor fields that `removeBlockById` changes, other than the history. */
  datatype EditorValues = EditorValues(
    blocks: seq<NoteBlock>, fields: map<string, TextFieldValue>, caret: Option<Caret>,
    focused: Option<string>, pending: Option<string>, selected: Option<string>)

  /**
   * The fields after `removeBlockById` removes the block at `index`: the
   * joined list, the refreshed text fields, the caret moved by the join and
   * then bounded, the focus moved by the join, and the selection cleared when
   * it named the removed block or no longer names a block.
   */
  function RemovedValues(v: EditorValues, index: nat, freshId: string): EditorValues
    requires index < |v.blocks|
  {
    var blocks := RemovedBlocks(v.blocks, index, freshId);
    var gone := v.blocks[index].id;
    EditorValues(
      blocks,
      RefreshedFields(JoinedFields(v.blocks, index, v.fields, v.caret), blocks),
      BoundedCaret(JoinedCaret(v.blocks, index, v.caret), blocks, freshId).1,
      JoinedFocus(v.blocks, index, v.focused),
      JoinedFocus(v.blocks, index, v.pending),
      ValidSelection(if v.selected == Some(gone) then None else v.selected, blocks))
  }

  /** A removal keeps the invariant. */
  lemma RemovalKeepsValues(v: EditorValues, index: nat, freshId: string)
    requires index < |v.blocks| && ValuesOk(v.blocks, v.fields, v.caret, v.selected)
    ensures var r := RemovedValues(v, index, freshId);
      ValuesOk(r.blocks, r.fields, r.caret, r.selected)
  {
    var blocks := RemovedBlocks(v.blocks, index, freshId);
    RemovedBlocksMembers(v.blocks, index, freshId);
    BoundedCaretSpec(JoinedCaret(v.blocks, index, v.caret), blocks, freshId);
  }

  /** `onTextChanged` keeps the invariant. */
  lemma TextChangeKeepsValues(blocks: seq<NoteBlock>, fields: map<string, TextFieldValue>, caret: Option<Caret>,
                              selected: Option<string>, id: string, text: string)
    requires ValuesOk(blocks, fields, caret, selected)
    ensures ValuesOk(TextApplied(blocks, id, text), FieldTextChanged(fields, id, text), caret, selected)
  {
    TextAppliedKeepsMembers(blocks, id, text);
  }

  /** `moveBlockBy` keeps the invariant. */
  lemma MoveKeepsValues(blocks: seq<NoteBlock>, fields: map<string, TextFieldValue>, caret: Option<Caret>,
                        selected: Option<string>, from: nat, to: nat)
    requires ValuesOk(blocks, fields, caret, selected) && from < |blocks| && to < |blocks|
    ensures var moved := MoveBlock(blocks, from, to);
      ValuesOk(moved, RefreshedFields(fields, moved), caret, selected)
  {
    MoveBlockPermutes(blocks, from, to);
    SameMembers(blocks, MoveBlock(blocks, from, to));
  }

  // ----- The editor state -----

  /**
   * `NoteEditorState`. `freshId` parameters stand for the random id of a
   * `TextBlock(text = "")` the editor may have to create, and `mergeWith`
   * for `DocOp.mergeWith`, the rule folding a new operation into the last.
   */
  class NoteEditorState {
    var blockList: seq<NoteBlock>
    var textFieldValues: map<string, TextFieldValue>
    var caret: Option<Caret>
    var focusedBlockId: Option<string>
    var pendingFocusId: Option<string>
    var selectedImageBlockId: Option<string>
    var canUndo: bool
    var canRedo: bool
    var undoStack: seq<DocOp>
    var redoStack: seq<DocOp>
    var suppressHistory: bool
    const mergeWith: (DocOp, DocOp) -> Option<DocOp>

    /** The fields a removal changes, as one value. */
    function Values(): EditorValues
      reads this`blockList, this`textFieldValues, this`caret, this`focusedBlockId, this`pendingFocusId, this`selectedImageBlockId
    {
      EditorValues(blockList, textFieldValues, caret, focusedBlockId, pendingFocusId, selectedImageBlockId)
    }

    /** Every text block, and nothing else, has a text-field entry. */
    ghost predicate FieldsMatch()
      reads this
    {
      forall id :: id in textFieldValues <==> HasTextId(blockList, id)
    }

    /** Both stacks are bounded and the flags mirror them. */
    ghost predicate HistoryOk()
      reads this`undoStack, this`redoStack, this`canUndo, this`canRedo
    {
      && |undoStack| <= MAX_HISTORY && |redoStack| <= MAX_HISTORY
      && canUndo == (|undoStack| > 0) && canRedo == (|redoStack| > 0)
    }

    ghost predicate Valid()
      reads this
    {
      && ValuesOk(blockList, textFieldValues, caret, selectedImageBlockId)
      && HistoryOk()
      && !suppressHistory
    }

    /** The constructor: `setContent(initialContent)` on an empty editor, which always replaces the empty list. */
    constructor (initialContent: NoteContent, mergeWith: (DocOp, DocOp) -> Option<DocOp>, freshId: string)
      ensures Valid()
      ensures blockList == NormalizedBlocks(initialContent.blocks, freshId)
      ensures textFieldValues == RefreshedFields(map[], blockList)
      ensures caret.None? && focusedBlockId.None? && pendingFocusId.None? && selectedImageBlockId.None?
      ensures undoStack == [] && redoStack == [] && !canUndo && !canRedo
      ensures this.mergeWith == mergeWith
    {
      blockList := [];
      textFieldValues := map[];
      caret := None;
      focusedBlockId := None;
      pendingFocusId := None;
      selectedImageBlockId := None;
      canUndo := false;
      canRedo := false;
      undoStack := [];
      redoStack := [];
      suppressHistory := false;
      this.mergeWith := mergeWith;
      new;
      ShowBlocks(NormalizedBlocks(initialContent.blocks, freshId));
    }

    /** `setContent(newContent)`: replace the blocks unless the new content is the same or an empty note stays empty. */
    method SetContent(newContent: NoteContent, freshId: string)
      requires Valid()
      modifies this`blockList, this`textFieldValues, this`selectedImageBlockId, this`caret
      ensures Valid()
      ensures SetContentKeeps(old(blockList), newContent, freshId) ==>
        (blockList == old(blockList) && textFieldValues == old(textFieldValues)
         && selectedImageBlockId == old(selectedImageBlockId) && caret == old(caret))
      ensures !SetContentKeeps(old(blockList), newContent, freshId) ==>
        (blockList == NormalizedBlocks(newContent.blocks, freshId)
         && textFieldValues == RefreshedFields(old(textFieldValues), blockList)
         && selectedImageBlockId == ValidSelection(old(selectedImageBlockId), blockList)
         && caret == BoundedCaret(old(caret), blockList, freshId).1)
    {
      if |newContent.blocks| == 0 && SingleEmptyText(blockList) {
        return;
      }
      var normalized := NormalizedBlocks(newContent.blocks, freshId);
      if SameAs(blockList, normalized) {
        return;
      }
      LoadBlocks(normalized, freshId);
    }

    /** The second half of `setContent`: the new list shown, the selection and the caret checked against it. */
    method LoadBlocks(blocks: seq<NoteBlock>, freshId: string)
      requires |blocks| > 0 && blocks[|blocks| - 1].TextBlock?
      modifies this`blockList, this`textFieldValues, this`selectedImageBlockId, this`caret
      ensures ValuesOk(blockList, textFieldValues, caret, selectedImageBlockId)
      ensures blockList == blocks
      ensures textFieldValues == RefreshedFields(old(textFieldValues), blockList)
      ensures selectedImageBlockId == ValidSelection(old(selectedImageBlockId), blockList)
      ensures caret == BoundedCaret(old(caret), blockList, freshId).1
    {
      ShowBlocks(blocks);
      EnsureSelectedImageIsValid();
      BoundedCaretSpec(caret, blockList, freshId);
      EnsureCaretWithinBounds(freshId);
    }

    /** `onTextChanged`: rewrite the first block with the id when it is text with another text, and record the change. */
    method OnTextChanged(blockId: string, updatedText: string, beforeSelection: Option<TextRange>, afterSelection: Option<TextRange>)
      requires Valid()
      modifies this`blockList, this`textFieldValues, this`undoStack, this`redoStack, this`canUndo, this`canRedo
      ensures Valid()
      ensures var i := ChangedTextIndex(old(blockList), blockId, updatedText);
        if i < 0 then
          && blockList == old(blockList) && textFieldValues == old(textFieldValues)
          && undoStack == old(undoStack) && redoStack == old(redoStack)
        else
          var before := old(blockList)[i].text;
          && blockList == TextApplied(old(blockList), blockId, updatedText)
          && textFieldValues == FieldTextChanged(old(textFieldValues), blockId, updatedText)
          && undoStack == Recorded(old(undoStack),
               TextChangeOp(blockId, before, updatedText,
                 beforeSelection.OrElse(Collapsed(|before|)), afterSelection.OrElse(Collapsed(|updatedText|))),
               mergeWith)
          && redoStack == []
    {
      var index := IndexOfId(blockList, blockId);
      if index >= 0 && blockList[index].TextBlock? && blockList[index].text != updatedText {
        var before := blockList[index].text;
        ChangeText(index, blockId, updatedText);
        RecordOperation(TextChangeOp(blockId, before, updatedText,
          beforeSelection.OrElse(Collapsed(|before|)), afterSelection.OrElse(Collapsed(|updatedText|))));
      }
    }

  /** The edit in `onTextChanged`: the first block with the id, a text block, gets the new text and its field follows. */
    method ChangeText(index: nat, blockId: string, updatedText: string)
      requires Valid()
      requires index == IndexOfId(blockList, blockId) && blockList[index].TextBlock?
      modifies this`blockList, this`textFieldValues
      ensures Valid()
      ensures blockList == TextApplied(old(blockList), blockId, updatedText)
      ensures textFieldValues == FieldTextChanged(old(textFieldValues), blockId, updatedText)
    {
      ghost var blocks, fields := blockList, textFieldValues;
      TextChangeKeepsValues(blocks, fields, caret, selectedImageBlockId, blockId, updatedText);
      blockList := blockList[index := blockList[index].(text := updatedText)];
      if blockId in textFieldValues {
        var current := textFieldValues[blockId];
        if current.text != updatedText {
          textFieldValues := textFieldValues[blockId := TextFieldValue(updatedText, ClampTo(current.selection, |updatedText|))];
        }
      }
      assert blockList == TextApplied(blocks, blockId, updatedText);
      assert textFieldValues == FieldTextChanged(fields, blockId, updatedText);
    }

    /** `moveBlockBy(blockId, delta)`: move an image by `delta` places, clamped to the list, and record the move. */
    method MoveBlockBy(blockId: string, delta: int) returns (moved: bool)
      requires Valid()
      modifies this`blockList, this`textFieldValues, this`undoStack, this`redoStack, this`canUndo, this`canRedo
      ensures Valid()
      ensures var t := MoveTarget(old(blockList), blockId, delta);
        && (moved <==> t >= 0)
        && (!moved ==>
              (blockList == old(blockList) && textFieldValues == old(textFieldValues)
               && undoStack == old(undoStack) && redoStack == old(redoStack)))
        && (moved ==>
              (blockList == MoveBlock(old(blockList), IndexOfId(old(blockList), blockId), t)
               && textFieldValues == RefreshedFields(old(textFieldValues), blockList)
               && undoStack == Recorded(old(undoStack),
                    ContentReplaceOp(NoteContent(old(blockList)), NoteContent(blockList), caret, caret), mergeWith)
               && redoStack == []))
    {
      if delta == 0 {
        return false;
      }
      var currentIndex := IndexOfId(blockList, blockId);
      if currentIndex == -1 {
        return false;
      }
      var block := blockList[currentIndex];
      if !block.ImageBlock? {
        return false;
      }
      // `lastIndex` is at least `currentIndex`, so `takeIf { it >= 0 }` always holds here.
      var maxIndex := |blockList| - 1;
      var targetIndex := CoerceIn(currentIndex + delta, 0, maxIndex);
      if targetIndex == currentIndex {
        return false;
      }
      assert targetIndex == MoveTarget(blockList, blockId, delta);
      MoveAndRecord(currentIndex, targetIndex);
      moved := true;
    }

    /**
     * The second half of `moveBlockBy`: `blockList.removeAt(from)` and
     * `blockList.add(to, block)`, the text fields refreshed, the move recorded.
     */
    method MoveAndRecord(from: nat, to: nat)
      requires Valid() && from < |blockList| && to < |blockList|
      modifies this`blockList, this`textFieldValues, this`undoStack, this`redoStack, this`canUndo, this`canRedo
      ensures Valid()
      ensures blockList == MoveBlock(old(blockList), from, to)
      ensures textFieldValues == RefreshedFields(old(textFieldValues), blockList)
      ensures undoStack == Recorded(old(undoStack), ContentReplaceOp(NoteContent(old(blockList)), NoteContent(blockList), caret, caret), mergeWith)
      ensures redoStack == []
    {
      var beforeContent := NoteContent(blockList);
      MoveAndRefresh(from, to);
      RecordOperation(ContentReplaceOp(beforeContent, NoteContent(blockList), caret, caret));
    }

    /** `blockList.removeAt(from)`, `blockList.add(to, block)`, then `refreshTextFieldState()`. */
    method MoveAndRefresh(from: nat, to: nat)
      requires ValuesOk(blockList, textFieldValues, caret, selectedImageBlockId) && from < |blockList| && to < |blockList|
      modifies this`blockList, this`textFieldValues
      ensures ValuesOk(blockList, textFieldValues, caret, selectedImageBlockId)
      ensures blockList == MoveBlock(old(blockList), from, to)
      ensures textFieldValues == RefreshedFields(old(textFieldValues), blockList)
    {
      MoveKeepsValues(blockList, textFieldValues, caret, selectedImageBlockId, from, to);
      var block := blockList[from];
      var rest := blockList[..from] + blockList[from + 1..];
      blockList := rest[..to] + [block] + rest[to..];
      RefreshTextFieldState();
    }

    /** `removeBlockById(blockId)`: remove the first block with the id, joining texts around a removed image. */
    method RemoveBlockById(blockId: string, freshId: string) returns (removed: bool)
      requires Valid()
      modifies this
      ensures Valid()
      ensures removed <==> HasId(old(blockList), blockId)
      ensures !removed ==> unchanged(this)
      ensures removed ==>
        var index := IndexOfId(old(blockList), blockId);
        && blockList == RemovedBlocks(old(blockList), index, freshId)
        && selectedImageBlockId ==
             ValidSelection(if old(selectedImageBlockId) == Some(blockId) then None else old(selectedImageBlockId), blockList)
        && (caret.Some? <==> old(caret).Some?)
        && (caret.Some? ==> CaretFits(caret.value, blockList))
        && Values() == RemovedValues(old(Values()), index, freshId)
        && undoStack == Recorded(old(undoStack),
             ContentReplaceOp(NoteContent(old(blockList)), NoteContent(blockList), old(caret), caret), mergeWith)
        && redoStack == []
    {
      var index := IndexOfId(blockList, blockId);
      if index < 0 {
        return false;
      }
      RemoveAtAndRecord(index, freshId);
      removed := true;
    }

    /** The second half of `removeBlockById`, once the block is found at `index`. */
    method RemoveAtAndRecord(index: nat, freshId: string)
      requires index < |blockList| && (caret.Some? ==> caret.value.Valid())
      requires !suppressHistory && |undoStack| <= MAX_HISTORY
      modifies this
      ensures Valid()
      ensures (caret.Some? <==> old(caret).Some?) && (caret.Some? ==> CaretFits(caret.value, blockList))
      ensures Values() == RemovedValues(old(Values()), index, freshId)
      ensures undoStack == Recorded(old(undoStack),
        ContentReplaceOp(NoteContent(old(blockList)), NoteContent(blockList), old(caret), caret), mergeWith)
      ensures redoStack == []
    {
      var beforeContent := NoteContent(blockList);
      var beforeCaret := caret;
      RemoveAndBound(index, freshId);
      RecordReplacement(beforeContent, beforeCaret);
    }

    /** The end of `removeBlockById`: the replacement of the content recorded on the undo stack. */
    method RecordReplacement(beforeContent: NoteContent, beforeCaret: Option<Caret>)
      requires ValuesOk(blockList, textFieldValues, caret, selectedImageBlockId) && !suppressHistory && |undoStack| <= MAX_HISTORY
      modifies this`undoStack, this`redoStack, this`canUndo, this`canRedo
      ensures Valid()
      ensures undoStack == Recorded(old(undoStack), ContentReplaceOp(beforeContent, NoteContent(blockList), beforeCaret, caret), mergeWith)
      ensures redoStack == []
    {
      RecordedSpec(undoStack, ContentReplaceOp(beforeContent, NoteContent(blockList), beforeCaret, caret), mergeWith);
      RecordOperation(ContentReplaceOp(beforeContent, NoteContent(blockList), beforeCaret, caret));
    }

    /** `removeBlockById` up to the recorded operation: the list surgery, the cleared selection and the bounded caret. */
    method RemoveAndBound(index: nat, freshId: string)
      requires index < |blockList|
      requires caret.Some? ==> caret.value.Valid()
      modifies this`blockList, this`textFieldValues, this`focusedBlockId, this`pendingFocusId, this`caret, this`selectedImageBlockId
      ensures ValuesOk(blockList, textFieldValues, caret, selectedImageBlockId)
      ensures (caret.Some? <==> old(caret).Some?) && (caret.Some? ==> CaretFits(caret.value, blockList))
      ensures Values() == RemovedValues(old(Values()), index, freshId)
    {
      RemoveAndDeselect(index, freshId);
      BoundedCaretSpec(caret, blockList, freshId);
      EnsureCaretWithinBounds(freshId);
    }

    /** `removeBlockById` up to the selection check: the list surgery, the refresh and the cleared selection. */
    method RemoveAndDeselect(index: nat, freshId: string)
      requires index < |blockList|
      modifies this`blockList, this`textFieldValues, this`focusedBlockId, this`pendingFocusId, this`caret, this`selectedImageBlockId
      ensures blockList == RemovedBlocks(old(blockList), index, freshId)
      ensures HasText(blockList) && FieldsMatch()
      ensures var gone := old(blockList)[index].id;
        selectedImageBlockId ==
          ValidSelection(if old(selectedImageBlockId) == Some(gone) then None else old(selectedImageBlockId), blockList)
      ensures caret == JoinedCaret(old(blockList), index, old(caret))
      ensures textFieldValues == RefreshedFields(JoinedFields(old(blockList), index, old(textFieldValues), old(caret)), blockList)
      ensures focusedBlockId == JoinedFocus(old(blockList), index, old(focusedBlockId))
      ensures pendingFocusId == JoinedFocus(old(blockList), index, old(pendingFocusId))
    {
      var blockId := blockList[index].id;
      RemoveAndRefresh(index, freshId);
      DropSelection(blockId);
    }

    /** `removeBlockById` up to the refreshed text fields. */
    method RemoveAndRefresh(index: nat, freshId: string)
      requires index < |blockList|
      modifies this`blockList, this`textFieldValues, this`focusedBlockId, this`pendingFocusId, this`caret
      ensures blockList == RemovedBlocks(old(blockList), index, freshId)
      ensures HasText(blockList) && FieldsMatch()
      ensures caret == JoinedCaret(old(blockList), index, old(caret))
      ensures textFieldValues == RefreshedFields(JoinedFields(old(blockList), index, old(textFieldValues), old(caret)), blockList)
      ensures focusedBlockId == JoinedFocus(old(blockList), index, old(focusedBlockId))
      ensures pendingFocusId == JoinedFocus(old(blockList), index, old(pendingFocusId))
    {
      RemovedBlocksMembers(blockList, index, freshId);
      RemoveAndJoin(index, freshId);
      RefreshTextFieldState();
    }

    /** The selection cleared when it names the removed block, then `ensureSelectedImageIsValid()`. */
    method DropSelection(blockId: string)
      modifies this`selectedImageBlockId
      ensures selectedImageBlockId ==
        ValidSelection(if old(selectedImageBlockId) == Some(blockId) then None else old(selectedImageBlockId), blockList)
    {
      if selectedImageBlockId == Some(blockId) {
        selectedImageBlockId := None;
      }
      EnsureSelectedImageIsValid();
    }

    /**
     * The list surgery of `removeBlockById`: drop the block at `index`, join
     * the texts around a removed image, and add a blank text block when no
     * text is left.
     */
    method RemoveAndJoin(index: nat, freshId: string)
      requires index < |blockList|
      modifies this`blockList, this`textFieldValues, this`focusedBlockId, this`pendingFocusId, this`caret
      ensures blockList == RemovedBlocks(old(blockList), index, freshId)
      ensures caret == JoinedCaret(old(blockList), index, old(caret))
      ensures textFieldValues == JoinedFields(old(blockList), index, old(textFieldValues), old(caret))
      ensures focusedBlockId == JoinedFocus(old(blockList), index, old(focusedBlockId))
      ensures pendingFocusId == JoinedFocus(old(blockList), index, old(pendingFocusId))
    {
      var removedBlock := blockList[index];
      ghost var original := blockList;
      blockList := blockList[..index] + blockList[index + 1..];
      if removedBlock.ImageBlock? {
        MergeTextBlocksAround(index);
      }
      assert blockList == Joined(original, index);
      if !HasText(blockList) {
        blockList := blockList + [EmptyText(freshId)];
      }
      if removedBlock.TextBlock? {
        textFieldValues := textFieldValues - {removedBlock.id};
      }
    }

    /** `removeImageBefore(blockId)`: remove the image right before the first block with the id, if there is one. */
    method RemoveImageBefore(blockId: string, freshId: string) returns (removed: bool)
      requires Valid()
      modifies this
      ensures Valid()
      ensures var r := ImageBeforeIndex(old(blockList), blockId);
        && (removed <==> r >= 0)
        && (r < 0 ==> unchanged(this))
        && (r >= 0 ==>
          var index := IndexOfId(old(blockList), old(blockList)[r].id);
          && blockList == RemovedBlocks(old(blockList), index, freshId)
          && selectedImageBlockId ==
               ValidSelection(if old(selectedImageBlockId) == Some(old(blockList)[r].id) then None else old(selectedImageBlockId), blockList)
          && (caret.Some? <==> old(caret).Some?)
          && (caret.Some? ==> CaretFits(caret.value, blockList))
          && Values() == RemovedValues(old(Values()), index, freshId)
          && undoStack == Recorded(old(undoStack),
               ContentReplaceOp(NoteContent(old(blockList)), NoteContent(blockList), old(caret), caret), mergeWith)
          && redoStack == [])
    {
      var index := IndexOfId(blockList, blockId);
      if index <= 0 {
        return false;
      }
      var previous := blockList[index - 1];
      if previous.ImageBlock? {
        assert ImageBeforeIndex(blockList, blockId) == index - 1;
        assert HasId(blockList, previous.id);
        removed := RemoveBlockById(previous.id, freshId);
      } else {
        removed := false;
      }
    }

    /** `mergeTextBlocksAround(gapIndex)`: join the text blocks on either side of the gap left by a removed image. */
    method MergeTextBlocksAround(gap: int)
      modifies this`blockList, this`textFieldValues, this`focusedBlockId, this`pendingFocusId, this`caret
      ensures !CanMerge(old(blockList), gap) ==>
        (blockList == old(blockList) && textFieldValues == old(textFieldValues) && caret == old(caret)
         && focusedBlockId == old(focusedBlockId) && pendingFocusId == old(pendingFocusId))
      ensures CanMerge(old(blockList), gap) ==>
        var after := old(blockList)[gap];
        var merged := MergedBlock(old(blockList)[gap - 1], after);
        && blockList == MergedAround(old(blockList), gap)
        && caret == MergedCaret(old(caret), after.id, merged.id, |old(blockList)[gap - 1].text|)
        && textFieldValues == MergedFields(old(textFieldValues), after.id, merged, caret)
        && focusedBlockId == (if old(focusedBlockId) == Some(after.id) then Some(merged.id) else old(focusedBlockId))
        && pendingFocusId == (if old(pendingFocusId) == Some(after.id) then Some(merged.id) else old(pendingFocusId))
    {
      var beforeIndex := gap - 1;
      if beforeIndex < 0 {
        return;
      }
      if !(beforeIndex < |blockList| && blockList[beforeIndex].TextBlock?) {
        return;
      }
      if !(gap < |blockList| && blockList[gap].TextBlock?) {
        return;
      }
      MergeAt(gap);
    }

    /** The merge itself, once both neighbours of the gap are text blocks. */
    method MergeAt(gap: nat)
      requires CanMerge(blockList, gap)
      modifies this`blockList, this`textFieldValues, this`focusedBlockId, this`pendingFocusId, this`caret
      ensures var after := old(blockList)[gap];
        var merged := MergedBlock(old(blockList)[gap - 1], after);
        && blockList == MergedAround(old(blockList), gap)
        && caret == MergedCaret(old(caret), after.id, merged.id, |old(blockList)[gap - 1].text|)
        && textFieldValues == MergedFields(old(textFieldValues), after.id, merged, caret)
        && focusedBlockId == (if old(focusedBlockId) == Some(after.id) then Some(merged.id) else old(focusedBlockId))
        && pendingFocusId == (if old(pendingFocusId) == Some(after.id) then Some(merged.id) else old(pendingFocusId))
    {
      var after := blockList[gap];
      var beforeLength := |blockList[gap - 1].text|;
      var mergedBlock := MergeBlocks(gap);
      if focusedBlockId == Some(after.id) {
        focusedBlockId := Some(mergedBlock.id);
      }
      if pendingFocusId == Some(after.id) {
        pendingFocusId := Some(mergedBlock.id);
      }
      MergeCaretAndField(after.id, mergedBlock, beforeLength);
    }

    /** `after`'s text field dropped, the caret moved into the merged block, then the merged block's text field set. */
    method MergeCaretAndField(afterId: string, mergedBlock: NoteBlock, beforeLength: nat)
      requires mergedBlock.TextBlock?
      modifies this`caret, this`textFieldValues
      ensures caret == MergedCaret(old(caret), afterId, mergedBlock.id, beforeLength)
      ensures textFieldValues == MergedFields(old(textFieldValues), afterId, mergedBlock, caret)
    {
      var caretSnapshot := caret;
      var updatedCaret :=
        if caretSnapshot.Some? && caretSnapshot.value.blockId == afterId then
          Some(Caret(mergedBlock.id, beforeLength + caretSnapshot.value.start, beforeLength + caretSnapshot.value.end))
        else caretSnapshot;
      caret := updatedCaret;
      var mergedText := mergedBlock.text;
      var selection :=
        if updatedCaret.Some? && updatedCaret.value.blockId == mergedBlock.id then
          TextRange(updatedCaret.value.start, updatedCaret.value.end)
        else if mergedBlock.id in textFieldValues - {afterId} then textFieldValues[mergedBlock.id].selection
        else Collapsed(|mergedText|);
      textFieldValues := (textFieldValues - {afterId})[mergedBlock.id := TextFieldValue(mergedText, ClampTo(selection, |mergedText|))];
    }

    /** The list half of the merge: `before` takes the merged text and spans, `after` is removed. */
    method MergeBlocks(gap: nat) returns (mergedBlock: NoteBlock)
      requires CanMerge(blockList, gap)
      modifies this`blockList
      ensures mergedBlock == MergedBlock(old(blockList)[gap - 1], old(blockList)[gap])
      ensures blockList == MergedAround(old(blockList), gap)
    {
      var beforeIndex := gap - 1;
      ghost var original := blockList;
      var before := blockList[beforeIndex];
      var after := blockList[gap];
      var beforeLength := |before.text|;
      var mergedText := before.text + after.text;
      var mergedSpans := before.spans + OffsetBy(after.spans, beforeLength);
      mergedBlock := before.(text := mergedText, spans := mergedSpans);
      blockList := blockList[beforeIndex := mergedBlock];
      blockList := blockList[..gap] + blockList[gap + 1..];
      assert blockList == MergedAround(original, gap);
    }

    /** `blockList` replaced by a normalised list, then `refreshTextFieldState()`. */
    method ShowBlocks(blocks: seq<NoteBlock>)
      requires |blocks| > 0 && blocks[|blocks| - 1].TextBlock?
      modifies this`blockList, this`textFieldValues
      ensures blockList == blocks && textFieldValues == RefreshedFields(old(textFieldValues), blocks)
      ensures HasText(blockList) && FieldsMatch()
    {
      blockList := blocks;
      assert blockList[|blockList| - 1].TextBlock?;
      RefreshTextFieldState();
    }

    /** `ensureCaretWithinBounds()`. */
    method EnsureCaretWithinBounds(freshId: string)
      modifies this`caret, this`blockList, this`textFieldValues
      ensures (blockList, caret) == BoundedCaret(old(caret), old(blockList), freshId)
      ensures blockList == old(blockList) ==> textFieldValues == old(textFieldValues)
      ensures blockList != old(blockList) ==> textFieldValues == RefreshedFields(old(textFieldValues), blockList)
    {
      if caret.None? {
        return;
      }
      var current := caret.value;
      var i := IndexOfId(blockList, current.blockId);
      if i >= 0 && blockList[i].TextBlock? {
        var end := |blockList[i].text|;
        caret := Some(Caret(current.blockId, CoerceIn(current.start, 0, end), CoerceIn(current.end, 0, end)));
      } else {
        var d := DefaultCaret(freshId);
        caret := Some(d);
      }
    }

    /** `defaultCaret()`. */
    method DefaultCaret(freshId: string) returns (c: Caret)
      modifies this`blockList, this`textFieldValues
      ensures (blockList, c) == DefaultCaretOf(old(blockList), freshId)
      ensures HasText(old(blockList)) ==> textFieldValues == old(textFieldValues)
      ensures !HasText(old(blockList)) ==> textFieldValues == RefreshedFields(old(textFieldValues), blockList)
    {
      var k := LastTextIndex(blockList);
      if k >= 0 {
        c := Caret(blockList[k].id, |blockList[k].text|, |blockList[k].text|);
      } else {
        var target := EmptyText(freshId);
        blockList := blockList + [target];
        RefreshTextFieldState();
        c := Caret(target.id, |target.text|, |target.text|);
      }
    }

    /** `ensureSelectedImageIsValid()`. */
    method EnsureSelectedImageIsValid()
      modifies this`selectedImageBlockId
      ensures selectedImageBlockId == ValidSelection(old(selectedImageBlockId), blockList)
    {
      if selectedImageBlockId.Some? && !HasId(blockList, selectedImageBlockId.value) {
        selectedImageBlockId := None;
      }
    }

    /** `refreshTextFieldState()`; the removal of stale keys is order-independent and written as one restriction. */
    method RefreshTextFieldState()
      modifies this`textFieldValues
      ensures textFieldValues == RefreshedFields(old(textFieldValues), blockList)
      ensures FieldsMatch()
    {
      ghost var kept := map id | id in textFieldValues && HasTextId(blockList, id) :: textFieldValues[id];
      var values := map id | id in textFieldValues && HasTextId(blockList, id) :: textFieldValues[id];
      for i := 0 to |blockList|
        invariant values == FillFields(kept, blockList[..i])
      {
        var block := blockList[i];
        assert blockList[..i + 1][..i] == blockList[..i];
        if block.TextBlock? {
          if block.id !in values {
            values := values[block.id := TextFieldValue(block.text, Collapsed(|block.text|))];
          } else if values[block.id].text != block.text {
            values := values[block.id := TextFieldValue(block.text, ClampTo(values[block.id].selection, |block.text|))];
          } else {
            assert values == values[block.id := values[block.id]];
          }
        }
      }
      assert blockList[..|blockList|] == blockList;
      textFieldValues := values;
    }

    /** `recordOperation(op)`: fold into or push onto the undo stack, clear the redo stack. */
    method RecordOperation(op: DocOp)
      modifies this`undoStack, this`redoStack, this`canUndo, this`canRedo
      ensures suppressHistory ==>
        (undoStack == old(undoStack) && redoStack == old(redoStack) && canUndo == old(canUndo) && canRedo == old(canRedo))
      ensures !suppressHistory ==>
        (undoStack == Recorded(old(undoStack), op, mergeWith) && redoStack == [] && canUndo && !canRedo)
      ensures |old(undoStack)| <= MAX_HISTORY ==> |undoStack| <= MAX_HISTORY
      ensures old(HistoryOk()) ==> HistoryOk()
    {
      if suppressHistory {
        return;
      }
      ghost var before := undoStack;
      if |undoStack| <= MAX_HISTORY {
        RecordedSpec(undoStack, op, mergeWith);
      }
      var merged := if |undoStack| > 0 then mergeWith(undoStack[|undoStack| - 1], op) else None;
      if merged.Some? {
        undoStack := undoStack[..|undoStack| - 1] + [merged.value];
      } else {
        undoStack := TrimStackIfNeeded(undoStack + [op]);
      }
      assert undoStack == Recorded(before, op, mergeWith);
      redoStack := [];
      UpdateHistoryFlags();
    }

    /** `applyTextChangeFromHistory`: put `newText` into the block and the caret at the clamped selection. */
    method ApplyTextChangeFromHistory(blockId: string, newText: string, selection: TextRange)
      modifies this`blockList, this`textFieldValues, this`caret
      ensures blockList == TextApplied(old(blockList), blockId, newText)
      ensures var i := IndexOfId(old(blockList), blockId);
        if i >= 0 && old(blockList)[i].TextBlock? then
          var s := ClampTo(selection, |newText|);
          textFieldValues == old(textFieldValues)[blockId := TextFieldValue(newText, s)] && caret == Some(Caret(blockId, s.start, s.end))
        else textFieldValues == old(textFieldValues) && caret == old(caret)
    {
      var index := IndexOfId(blockList, blockId);
      if index < 0 {
        return;
      }
      var block := blockList[index];
      if block.TextBlock? {
        var clampedSelection := ClampTo(selection, |newText|);
        blockList := blockList[index := block.(text := newText)];
        textFieldValues := textFieldValues[blockId := TextFieldValue(newText, clampedSelection)];
        caret := Some(Caret(blockId, clampedSelection.start, clampedSelection.end));
      }
    }

    /** `replaceContentFromHistory`: restore a whole content snapshot and its caret. */
    method ReplaceContentFromHistory(contentSnapshot: NoteContent, caretSnapshot: Option<Caret>, freshId: string)
      modifies this`blockList, this`textFieldValues, this`caret, this`focusedBlockId, this`pendingFocusId, this`selectedImageBlockId
      ensures blockList == NormalizedBlocks(contentSnapshot.blocks, freshId)
      ensures textFieldValues == RefreshedFields(old(textFieldValues), blockList)
      ensures caret == BoundedCaret(caretSnapshot, blockList, freshId).1
      ensures focusedBlockId == pendingFocusId == (if caretSnapshot.Some? then Some(caretSnapshot.value.blockId) else None)
      ensures selectedImageBlockId.None?
    {
      ShowBlocks(NormalizedBlocks(contentSnapshot.blocks, freshId));
      RestoreCaret(caretSnapshot, freshId);
    }

    /** The end of `replaceContentFromHistory`: caret and focus from the snapshot, no image selected, caret bounded. */
    method RestoreCaret(caretSnapshot: Option<Caret>, freshId: string)
      requires HasText(blockList)
      modifies this`blockList, this`textFieldValues, this`caret, this`focusedBlockId, this`pendingFocusId, this`selectedImageBlockId
      ensures blockList == old(blockList) && textFieldValues == old(textFieldValues)
      ensures caret == BoundedCaret(caretSnapshot, blockList, freshId).1
      ensures focusedBlockId == pendingFocusId == (if caretSnapshot.Some? then Some(caretSnapshot.value.blockId) else None)
      ensures selectedImageBlockId.None?
    {
      caret := caretSnapshot;
      focusedBlockId := if caretSnapshot.Some? then Some(caretSnapshot.value.blockId) else None;
      pendingFocusId := if caretSnapshot.Some? then Some(caretSnapshot.value.blockId) else None;
      selectedImageBlockId := None;
      EnsureSelectedImageIsValid();
      BoundedCaretSpec(caret, blockList, freshId);
      EnsureCaretWithinBounds(freshId);
    }

    /** `undo()`: apply the top operation's inverse and move it to the redo stack. */
    method Undo(freshId: string) returns (done: bool)
      requires Valid()
      modifies this
      ensures Valid()
      ensures done <==> |old(undoStack)| > 0
      ensures !done ==> unchanged(this)
      ensures (undoStack, redoStack) == UndoStacks(old(undoStack), old(redoStack))
      ensures done ==>
        var op := old(undoStack)[|old(undoStack)| - 1];
        && (op.TextChangeOp? ==> blockList == TextApplied(old(blockList), op.blockId, op.beforeText))
        && (op.ContentReplaceOp? ==>
              blockList == NormalizedBlocks(op.beforeContent.blocks, freshId) && caret == BoundedCaret(op.beforeCaret, blockList, freshId).1)
    {
      if |undoStack| == 0 {
        return false;
      }
      var operation := undoStack[|undoStack| - 1];
      undoStack := undoStack[..|undoStack| - 1];
      ApplyFromHistory(operation, freshId, true);
      redoStack := TrimStackIfNeeded(redoStack + [operation]);
      UpdateHistoryFlags();
      done := true;
    }

    /** `redo()`: apply the top redo operation again and move it back to the undo stack. */
    method Redo(freshId: string) returns (done: bool)
      requires Valid()
      modifies this
      ensures Valid()
      ensures done <==> |old(redoStack)| > 0
      ensures !done ==> unchanged(this)
      ensures (undoStack, redoStack) == RedoStacks(old(undoStack), old(redoStack))
      ensures done ==>
        var op := old(redoStack)[|old(redoStack)| - 1];
        && (op.TextChangeOp? ==> blockList == TextApplied(old(blockList), op.blockId, op.afterText))
        && (op.ContentReplaceOp? ==>
              blockList == NormalizedBlocks(op.afterContent.blocks, freshId) && caret == BoundedCaret(op.afterCaret, blockList, freshId).1)
    {
      if |redoStack| == 0 {
        return false;
      }
      var operation := redoStack[|redoStack| - 1];
      redoStack := redoStack[..|redoStack| - 1];
      ApplyFromHistory(operation, freshId, false);
      undoStack := TrimStackIfNeeded(undoStack + [operation]);
      UpdateHistoryFlags();
      done := true;
    }

    /**
     * The body shared by `undo` and `redo`: with history suppressed, apply
     * `DocOp.undo` (`backwards`) or `DocOp.redo`. A text change puts back its
     * old or new text, a content replacement its old or new content and caret.
     */
    method ApplyFromHistory(op: DocOp, freshId: string, backwards: bool)
      requires ValuesOk(blockList, textFieldValues, caret, selectedImageBlockId) && !suppressHistory
      modifies this`blockList, this`textFieldValues, this`caret, this`focusedBlockId, this`pendingFocusId,
        this`selectedImageBlockId, this`suppressHistory
      ensures ValuesOk(blockList, textFieldValues, caret, selectedImageBlockId) && !suppressHistory
      ensures backwards && op.TextChangeOp? ==> blockList == TextApplied(old(blockList), op.blockId, op.beforeText)
      ensures !backwards && op.TextChangeOp? ==> blockList == TextApplied(old(blockList), op.blockId, op.afterText)
      ensures backwards && op.ContentReplaceOp? ==>
        (blockList == NormalizedBlocks(op.beforeContent.blocks, freshId) && caret == BoundedCaret(op.beforeCaret, blockList, freshId).1)
      ensures !backwards && op.ContentReplaceOp? ==>
        (blockList == NormalizedBlocks(op.afterContent.blocks, freshId) && caret == BoundedCaret(op.afterCaret, blockList, freshId).1)
    {
      suppressHistory := true;
      match op {
        case TextChangeOp(blockId, beforeText, afterText, beforeSelection, afterSelection) =>
          ApplyTextOp(blockId, if backwards then beforeText else afterText, if backwards then beforeSelection else afterSelection);
        case ContentReplaceOp(beforeContent, afterContent, beforeCaret, afterCaret) =>
          ApplyContentOp(if backwards then beforeContent else afterContent, if backwards then beforeCaret else afterCaret, freshId);
      }
      suppressHistory := false;
    }

    /** One half of a text change put back: the invariant on the values is kept. */
    method ApplyTextOp(blockId: string, text: string, selection: TextRange)
      requires ValuesOk(blockList, textFieldValues, caret, selectedImageBlockId)
      modifies this`blockList, this`textFieldValues, this`caret
      ensures ValuesOk(blockList, textFieldValues, caret, selectedImageBlockId)
      ensures blockList == TextApplied(old(blockList), blockId, text)
    {
      ghost var blocks := blockList;
      TextAppliedKeepsMembers(blockList, blockId, text);
      ApplyTextChangeFromHistory(blockId, text, selection);
      assert forall id :: id in textFieldValues <==> HasTextId(blocks, id);
    }

    /** One half of a content replacement put back: the invariant on the values is kept. */
    method ApplyContentOp(content: NoteContent, snapshot: Option<Caret>, freshId: string)
      modifies this`blockList, this`textFieldValues, this`caret, this`focusedBlockId, this`pendingFocusId, this`selectedImageBlockId
      ensures ValuesOk(blockList, textFieldValues, caret, selectedImageBlockId)
      ensures blockList == NormalizedBlocks(content.blocks, freshId) && caret == BoundedCaret(snapshot, blockList, freshId).1
    {
      var normalized := NormalizedBlocks(content.blocks, freshId);
      assert normalized[|normalized| - 1].TextBlock?;
      BoundedCaretSpec(snapshot, normalized, freshId);
      ReplaceContentFromHistory(content, snapshot, freshId);
    }

    /** `updateHistoryFlags()`. */
    method UpdateHistoryFlags()
      modifies this`canUndo, this`canRedo
      ensures canUndo == (|undoStack| > 0) && canRedo == (|redoStack| > 0)
    {
      canUndo := |undoStack| > 0;
      canRedo := |redoStack| > 0;
    }
  }
}
