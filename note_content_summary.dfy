/**
 * The summary a note shows in lists: its description (the texts of the text
 * blocks joined by a blank line), the spans of the first text block, and one
 * attachment per image block; and the rule that only blank or empty parts of
 * a summary fall back to stored values.
 */
module NoteContentSummary {
  import opened Wrappers
  import opened Kotlin
  import opened NoteModel

  datatype Summary = Summary(description: string, spans: seq<NoteTextSpan>, attachments: seq<NoteAttachment>)

  /** `filterIsInstance<TextBlock>()`. */
  function TextBlocks(blocks: seq<NoteBlock>): (r: seq<NoteBlock>)
    ensures forall k :: 0 <= k < |r| ==> r[k].TextBlock? && r[k] in blocks
    ensures forall b :: b in blocks && b.TextBlock? ==> b in r
    ensures |r| <= |blocks|
  {
    if |blocks| == 0 then []
    else if blocks[0].TextBlock? then [blocks[0]] + TextBlocks(blocks[1..])
    else TextBlocks(blocks[1..])
  }

  /** `filterIsInstance<ImageBlock>()`. */
  function ImageBlocks(blocks: seq<NoteBlock>): (r: seq<NoteBlock>)
    ensures forall k :: 0 <= k < |r| ==> r[k].ImageBlock? && r[k] in blocks
    ensures forall b :: b in blocks && b.ImageBlock? ==> b in r
    ensures |r| <= |blocks|
  {
    if |blocks| == 0 then []
    else if blocks[0].ImageBlock? then [blocks[0]] + ImageBlocks(blocks[1..])
    else ImageBlocks(blocks[1..])
  }

  /** `joinToString(separator = "\n\n") { it.text }` over text blocks. */
  function JoinTexts(texts: seq<NoteBlock>): string
    requires forall k :: 0 <= k < |texts| ==> texts[k].TextBlock?
  {
    if |texts| == 0 then ""
    else if |texts| == 1 then texts[0].text
    else texts[0].text + "\n\n" + JoinTexts(texts[1..])
  }

  /** `ImageBlock.toAttachment()`: the fields an attachment carries, each with its fallbacks. */
  function ToAttachment(b: NoteBlock): (a: NoteAttachment)
    requires b.ImageBlock?
    ensures a.id == b.id
  {
    NoteAttachment(
      id := b.id,
      downloadUrl := b.storagePath.OrElse(b.legacyRemoteUri.OrElse(b.legacyUri.OrElse(b.localUri.OrElse("")))),
      thumbnailUrl := if b.thumbnailStoragePath.Some? then b.thumbnailStoragePath else b.thumbnailUri,
      mimeType := b.metadata.mimeType.OrElse(b.mimeType.OrElse("image/*")),
      fileName := if b.fileName.Some? then b.fileName else b.alt,
      width := if b.metadata.width.Some? then b.metadata.width else b.width,
      height := if b.metadata.height.Some? then b.metadata.height else b.height,
      storagePath := b.storagePath,
      thumbnailStoragePath := b.thumbnailStoragePath,
      localUri := b.localUri,
      syncState := b.syncState,
      fileSizeBytes := b.metadata.fileSizeBytes,
      createdAt := b.metadata.createdAt,
      updatedAt := b.metadata.updatedAt)
  }

  /** The download URL is the first present of the storage path, the two legacy URIs and the local URI, else empty. */
  lemma AttachmentDownloadUrl(b: NoteBlock)
    requires b.ImageBlock?
    ensures b.storagePath.Some? ==> ToAttachment(b).downloadUrl == b.storagePath.value
    ensures b.storagePath.None? && b.legacyRemoteUri.Some? ==> ToAttachment(b).downloadUrl == b.legacyRemoteUri.value
    ensures b.storagePath.None? && b.legacyRemoteUri.None? && b.legacyUri.Some? ==>
      ToAttachment(b).downloadUrl == b.legacyUri.value
    ensures b.storagePath.None? && b.legacyRemoteUri.None? && b.legacyUri.None? ==>
      ToAttachment(b).downloadUrl == (if b.localUri.Some? then b.localUri.value else "")
  {
  }

  /** The metadata's MIME type wins over the block's, which wins over the generic image type; likewise for the sizes. */
  lemma AttachmentMetadataFirst(b: NoteBlock)
    requires b.ImageBlock?
    ensures var a := ToAttachment(b);
      (b.metadata.mimeType.Some? ==> a.mimeType == b.metadata.mimeType.value)
      && (b.metadata.mimeType.None? && b.mimeType.Some? ==> a.mimeType == b.mimeType.value)
      && (b.metadata.mimeType.None? && b.mimeType.None? ==> a.mimeType == "image/*")
      && a.width == (if b.metadata.width.Some? then b.metadata.width else b.width)
      && a.height == (if b.metadata.height.Some? then b.metadata.height else b.height)
      && a.fileSizeBytes == b.metadata.fileSizeBytes
      && a.createdAt == b.metadata.createdAt && a.updatedAt == b.metadata.updatedAt
  {
  }

  /** The thumbnail prefers the uploaded copy; the file name falls back to the alt text; the rest is copied. */
  lemma AttachmentCopies(b: NoteBlock)
    requires b.ImageBlock?
    ensures var a := ToAttachment(b);
      a.thumbnailUrl == (if b.thumbnailStoragePath.Some? then b.thumbnailStoragePath else b.thumbnailUri)
      && a.fileName == (if b.fileName.Some? then b.fileName else b.alt)
      && a.storagePath == b.storagePath && a.thumbnailStoragePath == b.thumbnailStoragePath
      && a.localUri == b.localUri && a.syncState == b.syncState
  {
  }

  /** `images.map { it.toAttachment() }`. */
  function Attachments(images: seq<NoteBlock>): (r: seq<NoteAttachment>)
    requires forall k :: 0 <= k < |images| ==> images[k].ImageBlock?
    ensures |r| == |images|
    ensures forall k :: 0 <= k < |images| ==> r[k] == ToAttachment(images[k])
  {
    seq(|images|, k requires 0 <= k < |images| => ToAttachment(images[k]))
  }

  /** `NoteContent.toSummary()`. */
  function ToSummary(c: NoteContent): Summary {
    if |c.blocks| == 0 then Summary("", [], [])
    else
      var texts := TextBlocks(c.blocks);
      Summary(
        JoinTexts(texts),
        if |texts| > 0 then texts[0].spans else [],
        Attachments(ImageBlocks(c.blocks)))
  }

  /** `NoteContentSummary.withFallbacks(...)`: blank or empty parts take the fallback. */
  function WithFallbacks(s: Summary, description: string, spans: seq<NoteTextSpan>, attachments: seq<NoteAttachment>): (r: Summary)
    ensures r.description == (if IsBlank(s.description) then description else s.description)
    ensures r.spans == (if |s.spans| == 0 then spans else s.spans)
    ensures r.attachments == (if |s.attachments| == 0 then attachments else s.attachments)
  {
    Summary(
      if IsBlank(s.description) then description else s.description,
      if |s.spans| == 0 then spans else s.spans,
      if |s.attachments| == 0 then attachments else s.attachments)
  }

  /** `Note.withSummary(summary)`: only the three summary fields change. */
  function WithSummary(n: Note, s: Summary): (r: Note)
    ensures r.description == s.description && r.descriptionSpans == s.spans && r.attachments == s.attachments
    ensures r == n.(description := s.description, descriptionSpans := s.spans, attachments := s.attachments)
  {
    n.(description := s.description, descriptionSpans := s.spans, attachments := s.attachments)
  }

  /** `Note.withSummaryFromContent()`. */
  function WithSummaryFromContent(n: Note): Note {
    WithSummary(n, WithFallbacks(ToSummary(n.content), n.description, n.descriptionSpans, n.attachments))
  }

  // ----- Properties -----

  /** Content without blocks summarises to nothing. */
  lemma EmptyContentSummary(c: NoteContent)
    requires |c.blocks| == 0
    ensures ToSummary(c) == Summary("", [], [])
  {
  }

  /** Appending a text block adds its text after a blank line (or as the whole description). */
  lemma {:induction false} JoinTextsSnoc(texts: seq<NoteBlock>, b: NoteBlock)
    requires forall k :: 0 <= k < |texts| ==> texts[k].TextBlock?
    requires b.TextBlock?
    ensures JoinTexts(texts + [b]) == if |texts| == 0 then b.text else JoinTexts(texts) + "\n\n" + b.text
    decreases |texts|
  {
    if |texts| > 1 {
      assert (texts + [b])[1..] == texts[1..] + [b];
      JoinTextsSnoc(texts[1..], b);
    } else if |texts| == 1 {
      assert (texts + [b])[1..] == [b];
    }
  }

  lemma {:induction false} TextBlocksSnoc(blocks: seq<NoteBlock>, b: NoteBlock)
    ensures TextBlocks(blocks + [b]) == TextBlocks(blocks) + (if b.TextBlock? then [b] else [])
    decreases |blocks|
  {
    if |blocks| > 0 {
      assert (blocks + [b])[1..] == blocks[1..] + [b];
      TextBlocksSnoc(blocks[1..], b);
    }
  }

  lemma {:induction false} ImageBlocksSnoc(blocks: seq<NoteBlock>, b: NoteBlock)
    ensures ImageBlocks(blocks + [b]) == ImageBlocks(blocks) + (if b.ImageBlock? then [b] else [])
    decreases |blocks|
  {
    if |blocks| > 0 {
      assert (blocks + [b])[1..] == blocks[1..] + [b];
      ImageBlocksSnoc(blocks[1..], b);
    }
  }

  /** Appending a text block adds its text after a blank line (or as the whole description) and no attachment. */
  lemma SummarySnocText(blocks: seq<NoteBlock>, b: NoteBlock)
    requires |blocks| > 0 && b.TextBlock?
    ensures ToSummary(NoteContent(blocks + [b])).description ==
      if |TextBlocks(blocks)| == 0 then b.text else ToSummary(NoteContent(blocks)).description + "\n\n" + b.text
    ensures ToSummary(NoteContent(blocks + [b])).attachments == ToSummary(NoteContent(blocks)).attachments
  {
    TextBlocksSnoc(blocks, b);
    ImageBlocksSnoc(blocks, b);
    JoinTextsSnoc(TextBlocks(blocks), b);
  }

  /** Appending an image block leaves the description and adds its attachment at the end. */
  lemma SummarySnocImage(blocks: seq<NoteBlock>, b: NoteBlock)
    requires |blocks| > 0 && b.ImageBlock?
    ensures ToSummary(NoteContent(blocks + [b])).description == ToSummary(NoteContent(blocks)).description
    ensures ToSummary(NoteContent(blocks + [b])).attachments == ToSummary(NoteContent(blocks)).attachments + [ToAttachment(b)]
  {
    TextBlocksSnoc(blocks, b);
    ImageBlocksSnoc(blocks, b);
    assert TextBlocks(blocks + [b]) == TextBlocks(blocks) + [] == TextBlocks(blocks);
    var images := ImageBlocks(blocks);
    assert Attachments(images + [b]) == Attachments(images) + [ToAttachment(b)];
  }

  /** The spans come from the first text block, whatever follows it. */
  lemma {:induction false} SpansFromFirstText(prefix: seq<NoteBlock>, t: NoteBlock, rest: seq<NoteBlock>)
    requires forall k :: 0 <= k < |prefix| ==> prefix[k].ImageBlock?
    requires t.TextBlock?
    ensures ToSummary(NoteContent(prefix + [t] + rest)).spans == t.spans
  {
    FirstTextAfterImages(prefix, t, rest);
  }

  lemma {:induction false} FirstTextAfterImages(prefix: seq<NoteBlock>, t: NoteBlock, rest: seq<NoteBlock>)
    requires forall k :: 0 <= k < |prefix| ==> prefix[k].ImageBlock?
    requires t.TextBlock?
    ensures |TextBlocks(prefix + [t] + rest)| > 0 && TextBlocks(prefix + [t] + rest)[0] == t
    decreases |prefix|
  {
    var s := prefix + [t] + rest;
    if |prefix| == 0 {
      assert s[0] == t && s[1..] == rest;
    } else {
      assert s[1..] == prefix[1..] + [t] + rest;
      FirstTextAfterImages(prefix[1..], t, rest);
    }
  }

  /** Attachments keep the image blocks' ids, in order. */
  lemma AttachmentIds(c: NoteContent)
    requires |c.blocks| > 0
    ensures var images := ImageBlocks(c.blocks);
      |ToSummary(c).attachments| == |images|
      && forall k :: 0 <= k < |images| ==> ToSummary(c).attachments[k].id == images[k].id
  {
  }

  /** A stored value survives only where the computed summary part is blank or empty. */
  lemma FallbacksKeepComputed(s: Summary, description: string, spans: seq<NoteTextSpan>, attachments: seq<NoteAttachment>)
    requires !IsBlank(s.description) && |s.spans| > 0 && |s.attachments| > 0
    ensures WithFallbacks(s, description, spans, attachments) == s
  {
  }

  /** Refreshing a note's summary from its content twice changes nothing the second time. */
  lemma WithSummaryFromContentIdempotent(n: Note)
    ensures WithSummaryFromContent(WithSummaryFromContent(n)) == WithSummaryFromContent(n)
  {
    var m := WithSummaryFromContent(n);
    assert m.content == n.content;
  }
}
