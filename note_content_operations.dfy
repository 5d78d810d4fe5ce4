/**
 * Editing a note's block content at the caret: the caret itself, inserting an
 * image (which splits a text block around the selection) and clipping styled
 * spans to a sub-range of a text.
 */
module NoteContentOperations {
  import opened Wrappers
  import opened Kotlin
  import opened NoteModel

  /** The caret or selection `[start, end)` inside the block `blockId`, in either direction. */
  datatype Caret = Caret(blockId: string, start: int, end: int) {
    predicate Valid() { start >= 0 && end >= 0 }

    function NormalizedStart(): (r: int)
      ensures r == start || r == end
      ensures r <= start && r <= end
    {
      Min(start, end)
    }

    function NormalizedEnd(): (r: int)
      ensures r == start || r == end
      ensures r >= start && r >= end
    {
      Max(start, end)
    }

    predicate IsRange() { NormalizedEnd() > NormalizedStart() }
  }

  /** The `Caret` constructor: None where Kotlin's `require` throws. */
  function NewCaret(blockId: string, start: int, end: int): (r: Option<Caret>)
    ensures r.Some? <==> start >= 0 && end >= 0
    ensures r.Some? ==> r.value == Caret(blockId, start, end) && r.value.Valid()
  {
    if start >= 0 && end >= 0 then Some(Caret(blockId, start, end)) else None
  }

  /** The normalised ends are ordered, and the caret is a range exactly when its ends differ. */
  lemma CaretNormalized(c: Caret)
    requires c.Valid()
    ensures 0 <= c.NormalizedStart() <= c.NormalizedEnd()
    ensures c.IsRange() <==> c.start != c.end
  {
  }

  // ----- Clipping spans -----

  /** One span of `clipRange(start, end)`: clamped, cut to the range and shifted to start at 0. */
  function ClipSpan(span: NoteTextSpan, start: int, end: int): Option<NoteTextSpan>
    requires 0 <= end
  {
    var clippedStart := CoerceIn(span.start, 0, end);
    var clippedEnd := CoerceIn(span.end, 0, end);
    if clippedEnd <= start then None
    else if clippedStart >= end then None
    else if clippedStart < start && clippedEnd <= start then None
    else
      var newStart := Max(clippedStart, start);
      var newEnd := Min(clippedEnd, end);
      if newEnd > newStart then Some(span.(start := newStart - start, end := newEnd - start)) else None
  }

  /** `List<NoteTextSpan>.clipRange(start, end)`, span by span in order. */
  function ClipRange(spans: seq<NoteTextSpan>, start: int, end: int): seq<NoteTextSpan>
    requires 0 <= end
  {
    if |spans| == 0 then []
    else
      var rest := ClipRange(spans[1..], start, end);
      match ClipSpan(spans[0], start, end)
      case Some(s) => [s] + rest
      case None => rest
  }

  lemma {:induction false} ClipRangeSnoc(spans: seq<NoteTextSpan>, span: NoteTextSpan, start: int, end: int)
    requires 0 <= end
    ensures ClipRange(spans + [span], start, end) ==
      ClipRange(spans, start, end) + (match ClipSpan(span, start, end) case Some(s) => [s] case None => [])
    decreases |spans|
  {
    if |spans| > 0 {
      assert (spans + [span])[1..] == spans[1..] + [span];
      ClipRangeSnoc(spans[1..], span, start, end);
    }
  }

  /** The loop of `clipRange`, with its `continue`s. */
  method ClipRangeLoop(spans: seq<NoteTextSpan>, start: int, end: int) returns (r: seq<NoteTextSpan>)
    requires 0 <= end
    ensures r == ClipRange(spans, start, end)
  {
    r := [];
    for i := 0 to |spans|
      invariant r == ClipRange(spans[..i], start, end)
    {
      var span := spans[i];
      assert spans[..i + 1] == spans[..i] + [span];
      ClipRangeSnoc(spans[..i], span, start, end);
      var clippedStart := CoerceIn(span.start, 0, end);
      var clippedEnd := CoerceIn(span.end, 0, end);
      if clippedEnd <= start { continue; }
      if clippedStart >= end { continue; }
      if clippedStart < start && clippedEnd <= start { continue; }
      var newStart := Max(clippedStart, start);
      var newEnd := Min(clippedEnd, end);
      if newEnd > newStart {
        r := r + [span.(start := newStart - start, end := newEnd - start)];
      }
    }
    assert spans[..|spans|] == spans;
  }

  /** Every clipped span is non-empty and lies within `[0, end - start]`. */
  lemma {:induction false} ClipRangeBounds(spans: seq<NoteTextSpan>, start: int, end: int)
    requires 0 <= end
    ensures forall k :: 0 <= k < |ClipRange(spans, start, end)| ==>
      0 <= ClipRange(spans, start, end)[k].start < ClipRange(spans, start, end)[k].end <= end - start
    decreases |spans|
  {
    if |spans| > 0 {
      ClipRangeBounds(spans[1..], start, end);
    }
  }

  /**
   * Clipping keeps exactly the styling of the range: position `p` of the clipped
   * text has a style iff position `start + p` had it.
   */
  lemma {:induction false} ClipRangeExact(spans: seq<NoteTextSpan>, start: int, end: int, style: NoteTextStyle, p: int)
    requires 0 <= start <= end && 0 <= p < end - start
    ensures Covered(ClipRange(spans, start, end), style, p) <==> Covered(spans, style, start + p)
    decreases |spans|
  {
    if |spans| > 0 {
      ClipRangeExact(spans[1..], start, end, style, p);
      CoveredCons(spans[0], spans[1..], style, start + p);
      assert spans == [spans[0]] + spans[1..];
      var rest := ClipRange(spans[1..], start, end);
      match ClipSpan(spans[0], start, end)
      case Some(s) => CoveredCons(s, rest, style, p);
      case None =>
    }
  }

  // ----- Inserting an image -----

  datatype InsertImageResult = InsertImageResult(content: NoteContent, nextCaret: Caret)

  /** `blocks.drop(n)`. */
  function Drop(blocks: seq<NoteBlock>, n: nat): (r: seq<NoteBlock>)
    ensures n <= |blocks| ==> r == blocks[n..]
    ensures n > |blocks| ==> r == []
  {
    if n <= |blocks| then blocks[n..] else []
  }

  /**
   * The split of a text block at a caret: the text before the selection (kept
   * under the block's id, or a fresh empty block at the start of the note),
   * and the text after it in a fresh block.
   */
  function SplitText(target: NoteBlock, caret: Caret, first: bool, leadId: string, trailId: string): (r: (seq<NoteBlock>, NoteBlock))
    requires target.TextBlock?
  {
    var text := target.text;
    var start := CoerceIn(caret.NormalizedStart(), 0, |text|);
    var end := CoerceIn(caret.NormalizedEnd(), start, |text|);
    var before := text[..start];
    var after := text[end..];
    var lead :=
      if |before| > 0 then [target.(text := before, spans := ClipRange(target.spans, 0, start))]
      else if first then [EmptyText(leadId)]
      else [];
    var trailing := if |after| > 0 then TextBlock(trailId, after, ClipRange(target.spans, end, |text|)) else EmptyText(trailId);
    (lead, trailing)
  }

  /**
   * `insertImageAtCaret(content, caret, imageBlock)`. `leadId` and `trailId` are
   * the ids the new text blocks get.
   */
  function InsertImageAtCaret(content: NoteContent, caret: Caret, image: NoteBlock, leadId: string, trailId: string): InsertImageResult
    requires image.ImageBlock?
  {
    var blocks := content.blocks;
    if |blocks| == 0 then
      InsertImageResult(NoteContent([image, EmptyText(trailId)]), Caret(trailId, 0, 0))
    else
      var index := IndexOfId(blocks, caret.blockId);
      if index < 0 then
        InsertImageResult(NoteContent(blocks + [image, EmptyText(trailId)]), Caret(trailId, 0, 0))
      else
        var target := blocks[index];
        if target.TextBlock? then
          var (lead, trailing) := SplitText(target, caret, index == 0, leadId, trailId);
          InsertImageResult(
            NoteContent(blocks[..index] + lead + [image, trailing] + blocks[index + 1..]),
            Caret(trailing.id, 0, 0))
        else
          var built := blocks[..index] + [target, image];
          var trailing :=
            if index + 1 < |blocks| && blocks[index + 1].TextBlock? then blocks[index + 1] else EmptyText(trailId);
          var tail := if trailing in blocks then Drop(blocks, index + 2) else Drop(blocks, index + 1);
          InsertImageResult(
            NoteContent(built + (if trailing in built then [] else [trailing]) + tail),
            Caret(trailing.id, 0, 0))
  }

  /** Inserting into an empty note gives the image and an empty text block holding the caret. */
  lemma InsertIntoEmpty(content: NoteContent, caret: Caret, image: NoteBlock, leadId: string, trailId: string)
    requires image.ImageBlock? && |content.blocks| == 0
    ensures InsertImageAtCaret(content, caret, image, leadId, trailId)
      == InsertImageResult(NoteContent([image, EmptyText(trailId)]), Caret(trailId, 0, 0))
  {
  }

  /** A caret in no block appends the image and an empty text block; the earlier blocks stay. */
  lemma InsertAtUnknownCaret(content: NoteContent, caret: Caret, image: NoteBlock, leadId: string, trailId: string)
    requires image.ImageBlock? && |content.blocks| > 0
    requires forall k :: 0 <= k < |content.blocks| ==> content.blocks[k].id != caret.blockId
    ensures var r := InsertImageAtCaret(content, caret, image, leadId, trailId);
      r.content.blocks == content.blocks + [image, EmptyText(trailId)] && r.nextCaret == Caret(trailId, 0, 0)
  {
  }

  /** Splitting keeps the text outside the selection, before and after the image. */
  lemma SplitTextKeepsText(target: NoteBlock, caret: Caret, first: bool, leadId: string, trailId: string)
    requires target.TextBlock? && caret.Valid()
    ensures var (lead, trailing) := SplitText(target, caret, first, leadId, trailId);
      var start := Min(caret.NormalizedStart(), |target.text|);
      var end := Min(caret.NormalizedEnd(), |target.text|);
      && |lead| <= 1
      && (|lead| == 1 ==> lead[0].TextBlock? && lead[0].text == target.text[..start])
      && (|lead| == 1 && start > 0 ==> lead[0].id == target.id)
      && (|lead| == 0 <==> start == 0 && !first)
      && trailing == TextBlock(trailId, target.text[end..], trailing.spans)
  {
  }

  /**
   * A caret in a text block splits it: the blocks before it stay, then the text
   * before the selection, the image, a fresh block with the text after the
   * selection (holding the caret at 0), then the blocks after it.
   */
  lemma InsertAtTextCaret(content: NoteContent, caret: Caret, image: NoteBlock, leadId: string, trailId: string, index: nat)
    requires image.ImageBlock? && caret.Valid()
    requires index < |content.blocks| && content.blocks[index].TextBlock?
    requires IndexOfId(content.blocks, caret.blockId) == index
    ensures var r := InsertImageAtCaret(content, caret, image, leadId, trailId);
      var (lead, trailing) := SplitText(content.blocks[index], caret, index == 0, leadId, trailId);
      && r.content.blocks == content.blocks[..index] + lead + [image, trailing] + content.blocks[index + 1..]
      && r.nextCaret == Caret(trailId, 0, 0) && trailing.id == trailId
  {
  }

  /** A split at the very start of the first block leaves an empty text block above the image. */
  lemma InsertAtStartOfNote(content: NoteContent, caret: Caret, image: NoteBlock, leadId: string, trailId: string)
    requires image.ImageBlock? && caret.Valid()
    requires |content.blocks| > 0 && content.blocks[0].TextBlock? && content.blocks[0].id == caret.blockId
    requires caret.NormalizedStart() == 0
    ensures var r := InsertImageAtCaret(content, caret, image, leadId, trailId);
      |r.content.blocks| >= 3 && r.content.blocks[0] == EmptyText(leadId) && r.content.blocks[1] == image
  {
  }

  /**
   * A caret on an image followed by a text block puts the new image right
   * after it and reuses that text block for the caret. The ids of the note are
   * distinct.
   */
  lemma InsertAfterImageReusesText(content: NoteContent, caret: Caret, image: NoteBlock, leadId: string, trailId: string, index: nat)
    requires image.ImageBlock?
    requires index + 1 < |content.blocks| && content.blocks[index].ImageBlock? && content.blocks[index + 1].TextBlock?
    requires IndexOfId(content.blocks, caret.blockId) == index
    requires forall i, j :: 0 <= i < j < |content.blocks| ==> content.blocks[i].id != content.blocks[j].id
    ensures var r := InsertImageAtCaret(content, caret, image, leadId, trailId);
      && r.content.blocks == content.blocks[..index + 1] + [image] + content.blocks[index + 1..]
      && r.nextCaret == Caret(content.blocks[index + 1].id, 0, 0)
  {
    var blocks := content.blocks;
    var target := blocks[index];
    var built := blocks[..index] + [target, image];
    var trailing := blocks[index + 1];
    assert trailing in blocks;
    assert trailing !in built by {
      forall k | 0 <= k < |built| ensures built[k] != trailing {
        if k < index { assert built[k] == blocks[k]; } else if k == index { assert built[k] == target; }
      }
    }
    assert blocks[index + 1..] == [trailing] + blocks[index + 2..] by {
      assert blocks[index + 1..][0] == trailing;
      assert blocks[index + 1..][1..] == blocks[index + 2..];
    }
    assert blocks[..index + 1] == blocks[..index] + [target];
  }

  /**
   * A caret on an image not followed by a text block puts the new image and a
   * fresh empty text block right after it. `trailId` is new to the note.
   */
  lemma InsertAfterImageAddsText(content: NoteContent, caret: Caret, image: NoteBlock, leadId: string, trailId: string, index: nat)
    requires image.ImageBlock?
    requires index < |content.blocks| && content.blocks[index].ImageBlock?
    requires !(index + 1 < |content.blocks| && content.blocks[index + 1].TextBlock?)
    requires IndexOfId(content.blocks, caret.blockId) == index
    requires forall k :: 0 <= k < |content.blocks| ==> content.blocks[k].id != trailId
    requires image.id != trailId
    ensures var r := InsertImageAtCaret(content, caret, image, leadId, trailId);
      && r.content.blocks == content.blocks[..index + 1] + [image, EmptyText(trailId)] + content.blocks[index + 1..]
      && r.nextCaret == Caret(trailId, 0, 0)
  {
    var blocks := content.blocks;
    var target := blocks[index];
    var built := blocks[..index] + [target, image];
    var trailing := EmptyText(trailId);
    assert trailing !in blocks by {
      forall k | 0 <= k < |blocks| ensures blocks[k] != trailing { }
    }
    assert trailing !in built by {
      forall k | 0 <= k < |built| ensures built[k] != trailing {
        if k < index { assert built[k] == blocks[k]; }
      }
    }
    assert blocks[..index + 1] == blocks[..index] + [target];
  }

  /** The example from the editor's tests: "Hello world" split after "Hello" gives three blocks. */
  lemma InsertSplitsHelloWorld(text: string, id: string, image: NoteBlock, leadId: string, trailId: string)
    requires text == "Hello world" && image.ImageBlock?
    ensures var r := InsertImageAtCaret(NoteContent([TextBlock(id, text, [])]), Caret(id, 5, 5), image, leadId, trailId);
      |r.content.blocks| == 3
      && r.content.blocks[0] == TextBlock(id, text[..5], [])
      && r.content.blocks[1] == image
      && r.content.blocks[2] == TextBlock(trailId, text[5..], [])
      && r.content.blocks[2].text == " world"
      && r.nextCaret == Caret(trailId, 0, 0)
  {
    assert text[5..] == " world";
  }
}
