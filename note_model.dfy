/**
 * The note domain: styled spans, the blocks of a note's content (text and
 * image), the attachment summary of an image, notes and folders. Ids of new
 * text blocks are random in the app; here they are always supplied by the
 * caller.
 */
module NoteModel {
  import opened Wrappers

  datatype NoteTextStyle = Bold | Italic | Underline {
    /** Declaration order, as Kotlin's `ordinal`. */
    function Ordinal(): nat {
      match this
      case Bold => 0
      case Italic => 1
      case Underline => 2
    }

    /** The enum constant's `name`. */
    function Name(): string {
      match this
      case Bold => "Bold"
      case Italic => "Italic"
      case Underline => "Underline"
    }
  }

  /** A style applied to the characters `[start, end)` of a text. */
  datatype NoteTextSpan = NoteTextSpan(start: int, end: int, style: NoteTextStyle)

  /** Some span of `spans` with style `style` covers position `p`. */
  predicate Covered(spans: seq<NoteTextSpan>, style: NoteTextStyle, p: int) {
    exists k :: 0 <= k < |spans| && spans[k].style == style && spans[k].start <= p < spans[k].end
  }

  lemma CoveredCons(s: NoteTextSpan, rest: seq<NoteTextSpan>, style: NoteTextStyle, p: int)
    ensures Covered([s] + rest, style, p) <==> (s.style == style && s.start <= p < s.end) || Covered(rest, style, p)
  {
    var all := [s] + rest;
    assert all[0] == s;
    if Covered(rest, style, p) {
      var k :| 0 <= k < |rest| && rest[k].style == style && rest[k].start <= p < rest[k].end;
      assert all[k + 1] == rest[k];
      assert Covered(all, style, p);
    }
    if Covered(all, style, p) {
      var k :| 0 <= k < |all| && all[k].style == style && all[k].start <= p < all[k].end;
      if k > 0 { assert rest[k - 1] == all[k]; assert Covered(rest, style, p); } else { assert all[0] == s; }
    }
  }

  /** Every position a style of `a + b` covers is covered in `a` or in `b`, and back. */
  lemma CoveredAppend(a: seq<NoteTextSpan>, b: seq<NoteTextSpan>, style: NoteTextStyle, p: int)
    ensures Covered(a + b, style, p) <==> Covered(a, style, p) || Covered(b, style, p)
  {
    var all := a + b;
    if Covered(a, style, p) {
      var k :| 0 <= k < |a| && a[k].style == style && a[k].start <= p < a[k].end;
      assert all[k] == a[k];
    }
    if Covered(b, style, p) {
      var k :| 0 <= k < |b| && b[k].style == style && b[k].start <= p < b[k].end;
      assert all[|a| + k] == b[k];
    }
    if Covered(all, style, p) {
      var k :| 0 <= k < |all| && all[k].style == style && all[k].start <= p < all[k].end;
      if k < |a| { assert a[k] == all[k]; } else { assert b[k - |a|] == all[k]; }
    }
  }

  /** Coverage depends only on which spans there are, not on their order. */
  lemma CoveredPermutation(a: seq<NoteTextSpan>, b: seq<NoteTextSpan>, style: NoteTextStyle, p: int)
    requires multiset(a) == multiset(b)
    ensures Covered(a, style, p) <==> Covered(b, style, p)
  {
    if Covered(a, style, p) {
      var k :| 0 <= k < |a| && a[k].style == style && a[k].start <= p < a[k].end;
      assert a[k] in multiset(b);
      var j :| 0 <= j < |b| && b[j] == a[k];
    }
    if Covered(b, style, p) {
      var k :| 0 <= k < |b| && b[k].style == style && b[k].start <= p < b[k].end;
      assert b[k] in multiset(a);
      var j :| 0 <= j < |a| && a[j] == b[k];
    }
  }

  datatype ImageSyncState = PendingUpload | Synced {
    function Name(): string {
      match this
      case PendingUpload => "PendingUpload"
      case Synced => "Synced"
    }
  }

  /** What the uploader learnt about an image file. */
  datatype ImageMetadata = ImageMetadata(
    mimeType: Option<string>,
    width: Option<int>,
    height: Option<int>,
    fileSizeBytes: Option<int>,
    createdAt: Option<int>,
    updatedAt: Option<int>)

  datatype NoteBlock =
    | TextBlock(id: string, text: string, spans: seq<NoteTextSpan>)
    | ImageBlock(
        id: string,
        uri: string,
        width: Option<int>,
        height: Option<int>,
        alt: Option<string>,
        mimeType: Option<string>,
        fileName: Option<string>,
        thumbnailUri: Option<string>,
        storagePath: Option<string>,
        thumbnailStoragePath: Option<string>,
        legacyRemoteUri: Option<string>,
        legacyUri: Option<string>,
        localUri: Option<string>,
        syncState: ImageSyncState,
        metadata: ImageMetadata)

  /** `TextBlock(text = "")` with the id the caller supplies. */
  function EmptyText(id: string): (b: NoteBlock)
    ensures b.TextBlock? && b.id == id && b.text == "" && b.spans == []
  {
    TextBlock(id, "", [])
  }

  datatype NoteContent = NoteContent(blocks: seq<NoteBlock>)

  datatype NoteAttachment = NoteAttachment(
    id: string,
    downloadUrl: string,
    thumbnailUrl: Option<string>,
    mimeType: string,
    fileName: Option<string>,
    width: Option<int>,
    height: Option<int>,
    storagePath: Option<string>,
    thumbnailStoragePath: Option<string>,
    localUri: Option<string>,
    syncState: ImageSyncState,
    fileSizeBytes: Option<int>,
    createdAt: Option<int>,
    updatedAt: Option<int>)

  datatype Note = Note(
    id: int,
    stableId: string,
    title: string,
    description: string,
    descriptionSpans: seq<NoteTextSpan>,
    attachments: seq<NoteAttachment>,
    content: NoteContent,
    deleted: bool,
    createdAt: int,
    updatedAt: int,
    dirty: bool,
    localUpdatedAt: int,
    folderId: Option<int>)

  datatype Folder = Folder(
    id: int,
    name: string,
    createdAt: int,
    updatedAt: int,
    deleted: bool,
    dirty: bool,
    localUpdatedAt: int)

  /** The ids of the blocks, in order. */
  function BlockIds(blocks: seq<NoteBlock>): (r: seq<string>)
    ensures |r| == |blocks| && forall k :: 0 <= k < |blocks| ==> r[k] == blocks[k].id
  {
    seq(|blocks|, k requires 0 <= k < |blocks| => blocks[k].id)
  }

  /** `indexOfFirst { it.id == id }`: the first block with that id, or -1. */
  function IndexOfId(blocks: seq<NoteBlock>, id: string): (r: int)
    ensures -1 <= r < |blocks|
    ensures r >= 0 ==> blocks[r].id == id && forall k :: 0 <= k < r ==> blocks[k].id != id
    ensures r == -1 <==> forall k :: 0 <= k < |blocks| ==> blocks[k].id != id
    decreases |blocks|
  {
    if |blocks| == 0 then -1
    else if blocks[0].id == id then 0
    else
      var r := IndexOfId(blocks[1..], id);
      if r < 0 then -1 else r + 1
  }
}
