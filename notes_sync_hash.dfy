/**
 * The content hashes the sync manager compares to decide whether a merge is
 * needed: 64-bit FNV-1a over the fields of every note or folder, taken in id
 * order. Kotlin's `Long` arithmetic wraps, so a hash is a `bv64` and a field
 * enters it as its two's-complement bits.
 */
module SyncHash {
  import opened Wrappers
  import opened Order
  import opened NoteModel

  /** The two's-complement bits of a `Long`; for an `Int` these are the bits of `toLong()`. */
  function LongBits(v: int): bv64 {
    (v % 0x1_0000_0000_0000_0000) as bv64
  }

  /** The FNV-1a offset basis: the bits of the `Long` literal `-0x340d631b7bdddcdbL`. */
  const FNV_OFFSET: bv64 := 0xcbf29ce484222325
  /** The 64-bit FNV prime. */
  const FNV_PRIME: bv64 := 0x100000001b3

  // ----- Mixing one value -----

  /** `hash = hash xor b; hash *= prime`: one FNV-1a step. */
  function FnvStep(h: bv64, b: bv64): bv64 {
    (h ^ b) * FNV_PRIME
  }

  /** `n` rounds of `mix`: fold in the low byte of `x`, multiply by the prime, shift `x` right by 8. */
  function MixRounds(h: bv64, x: bv64, n: nat): bv64
    decreases n
  {
    if n == 0 then h else MixRounds(FnvStep(h, x & 0xFF), x >> 8, n - 1)
  }

  /** `mix(v)`: the eight bytes of `v`, least significant first. */
  function Mix(h: bv64, v: bv64): bv64 {
    MixRounds(h, v, 8)
  }

  /** `ch.code.toLong()`. */
  function CharCode(c: char): bv64 {
    (c as int) as bv64
  }

  /** The code of every character folded in, one multiplication each. */
  function MixChars(h: bv64, s: string): bv64
    decreases |s|
  {
    if |s| == 0 then h else MixChars(FnvStep(h, CharCode(s[0])), s[1..])
  }

  /** `mixString(s)`: the characters, then the terminator `0xFF`. */
  function MixString(h: bv64, s: string): bv64 {
    FnvStep(MixChars(h, s), 0xFF)
  }

  /** The local `mix` of `folderListHash`/`noteListHash`, with its `repeat(8)` loop. */
  method MixLong(hash: bv64, v: bv64) returns (h: bv64)
    ensures h == Mix(hash, v)
  {
    h := hash;
    var x := v;
    for i := 0 to 8
      invariant MixRounds(h, x, 8 - i) == Mix(hash, v)
    {
      h := FnvStep(h, x & 0xFF);
      x := x >> 8;
    }
  }

  /** The local `mixString`, with its loop over the characters. */
  method MixText(hash: bv64, s: string) returns (h: bv64)
    ensures h == MixString(hash, s)
  {
    h := hash;
    for i := 0 to |s|
      invariant MixChars(h, s[i..]) == MixChars(hash, s)
    {
      assert s[i..][0] == s[i] && s[i..][1..] == s[i + 1..];
      h := FnvStep(h, CharCode(s[i]));
    }
    h := FnvStep(h, 0xFF);
  }

  // ----- What a note or folder contributes -----

  /** One call of the hash: `mix` of a number or `mixString` of a text. */
  datatype HashItem = Number(v: int) | Text(s: string)

  function MixItem(h: bv64, item: HashItem): bv64 {
    match item
    case Number(v) => Mix(h, LongBits(v))
    case Text(s) => MixString(h, s)
  }

  /** The calls in order. */
  function MixItems(h: bv64, items: seq<HashItem>): bv64
    decreases |items|
  {
    if |items| == 0 then h else MixItems(MixItem(h, items[0]), items[1..])
  }

  function SpanItems(spans: seq<NoteTextSpan>): seq<HashItem>
    decreases |spans|
  {
    if |spans| == 0 then []
    else [Number(spans[0].start), Number(spans[0].end), Text(spans[0].style.Name())] + SpanItems(spans[1..])
  }

  /** The storage path falls back to the download URL, the thumbnail path to the thumbnail URL. */
  function AttachmentItems(attachments: seq<NoteAttachment>): seq<HashItem>
    decreases |attachments|
  {
    if |attachments| == 0 then []
    else
      var a := attachments[0];
      [Text(a.id), Text(a.storagePath.OrElse(a.downloadUrl)),
       Text(a.thumbnailStoragePath.OrElse(a.thumbnailUrl.OrElse(""))), Text(a.mimeType)]
      + AttachmentItems(attachments[1..])
  }

  /** A block: its id, its kind and fields, then its index in the content. */
  function BlockItems(b: NoteBlock, index: int): seq<HashItem> {
    [Text(b.id)]
    + (match b
       case TextBlock(_, text, spans) => [Text("text"), Text(text)] + SpanItems(spans)
       case ImageBlock(_, _, width, height, alt, mimeType, fileName, _, storagePath, thumbnailStoragePath, _, _, _, syncState, metadata) =>
         [Text("image"), Text(storagePath.OrElse("")), Text(thumbnailStoragePath.OrElse("")),
          Number(if metadata.width.Some? then metadata.width.value else width.OrElse(-1)),
          Number(if metadata.height.Some? then metadata.height.value else height.OrElse(-1)),
          Number(metadata.fileSizeBytes.OrElse(-1)),
          Text(alt.OrElse("")),
          Text(if mimeType.Some? then mimeType.value else metadata.mimeType.OrElse("")),
          Text(fileName.OrElse("")),
          Text(syncState.Name())])
    + [Number(index)]
  }

  /** The blocks from position `from` on. */
  function BlocksItems(blocks: seq<NoteBlock>, from: nat): seq<HashItem>
    requires from <= |blocks|
    decreases |blocks| - from
  {
    if from == |blocks| then [] else BlockItems(blocks[from], from) + BlocksItems(blocks, from + 1)
  }

  function NoteItems(n: Note): seq<HashItem> {
    [Number(n.id), Text(n.stableId), Text(n.title), Text(n.description)]
    + SpanItems(n.descriptionSpans)
    + AttachmentItems(n.attachments)
    + BlocksItems(n.content.blocks, 0)
    + [Number(if n.deleted then 1 else 0), Number(n.folderId.OrElse(-1))]
  }

  function FolderItems(f: Folder): seq<HashItem> {
    [Number(f.id), Text(f.name), Number(f.createdAt), Number(f.updatedAt), Number(if f.deleted then 1 else 0)]
  }

  // ----- The list hashes -----

  predicate NoteIdLe(a: Note, b: Note) { a.id <= b.id }
  predicate FolderIdLe(a: Folder, b: Folder) { a.id <= b.id }

  lemma IdLeTotalPreorders()
    ensures TotalPreorder(NoteIdLe) && TotalPreorder(FolderIdLe)
  {
  }

  function MixNotes(h: bv64, notes: seq<Note>): bv64
    decreases |notes|
  {
    if |notes| == 0 then h else MixNotes(MixItems(h, NoteItems(notes[0])), notes[1..])
  }

  function MixFolders(h: bv64, folders: seq<Folder>): bv64
    decreases |folders|
  {
    if |folders| == 0 then h else MixFolders(MixItems(h, FolderItems(folders[0])), folders[1..])
  }

  /** `noteListHash`: every note, in the stable order by id. */
  function NoteListHash(list: seq<Note>): bv64 {
    IdLeTotalPreorders();
    MixNotes(FNV_OFFSET, SortStable(list, NoteIdLe))
  }

  /** `folderListHash`: every folder, in the stable order by id. */
  function FolderListHash(list: seq<Folder>): bv64 {
    IdLeTotalPreorders();
    MixFolders(FNV_OFFSET, SortStable(list, FolderIdLe))
  }

  /** `combinedHash`: the XOR of the two list hashes. */
  function CombinedHash(notes: seq<Note>, folders: seq<Folder>): bv64 {
    NoteListHash(notes) ^ FolderListHash(folders)
  }

  /** Folding in a sequence of calls one at a time. */
  method MixItemsLoop(hash: bv64, items: seq<HashItem>) returns (h: bv64)
    ensures h == MixItems(hash, items)
  {
    h := hash;
    for i := 0 to |items|
      invariant MixItems(h, items[i..]) == MixItems(hash, items)
    {
      assert items[i..][1..] == items[i + 1..];
      match items[i] {
        case Number(v) => h := MixLong(h, LongBits(v));
        case Text(s) => h := MixText(h, s);
      }
    }
  }

  /** `noteListHash`, with its loop over the sorted notes. */
  method ComputeNoteListHash(list: seq<Note>) returns (hash: bv64)
    ensures hash == NoteListHash(list)
  {
    IdLeTotalPreorders();
    var sorted := SortStable(list, NoteIdLe);
    hash := FNV_OFFSET;
    for i := 0 to |sorted|
      invariant MixNotes(hash, sorted[i..]) == MixNotes(FNV_OFFSET, sorted)
    {
      assert sorted[i..][1..] == sorted[i + 1..];
      hash := MixItemsLoop(hash, NoteItems(sorted[i]));
    }
  }

  /** `folderListHash`, with its loop over the sorted folders. */
  method ComputeFolderListHash(list: seq<Folder>) returns (hash: bv64)
    ensures hash == FolderListHash(list)
  {
    IdLeTotalPreorders();
    var sorted := SortStable(list, FolderIdLe);
    hash := FNV_OFFSET;
    for i := 0 to |sorted|
      invariant MixFolders(hash, sorted[i..]) == MixFolders(FNV_OFFSET, sorted)
    {
      assert sorted[i..][1..] == sorted[i + 1..];
      hash := MixItemsLoop(hash, FolderItems(sorted[i]));
    }
  }

  method ComputeCombinedHash(notes: seq<Note>, folders: seq<Folder>) returns (hash: bv64)
    ensures hash == CombinedHash(notes, folders)
  {
    var notesHash := ComputeNoteListHash(notes);
    var foldersHash := ComputeFolderListHash(folders);
    hash := notesHash ^ foldersHash;
  }

  // ----- Order does not matter -----

  /** No two different entries share an id. */
  predicate NoteIdsDetermine(list: seq<Note>) {
    forall i, j :: 0 <= i < |list| && 0 <= j < |list| && list[i].id == list[j].id ==> list[i] == list[j]
  }

  predicate FolderIdsDetermine(list: seq<Folder>) {
    forall i, j :: 0 <= i < |list| && 0 <= j < |list| && list[i].id == list[j].id ==> list[i] == list[j]
  }

  /**
   * Sorting by id makes the note hash independent of the order of the list,
   * as long as an id stands for one note.
   */
  lemma {:induction false} NoteListHashOrderFree(a: seq<Note>, b: seq<Note>)
    requires multiset(a) == multiset(b) && NoteIdsDetermine(a)
    ensures NoteListHash(a) == NoteListHash(b)
  {
    IdLeTotalPreorders();
    forall x, y | x in multiset(a) && y in multiset(a) && NoteIdLe(x, y) && NoteIdLe(y, x)
      ensures x == y
    {
      var i :| 0 <= i < |a| && a[i] == x;
      var j :| 0 <= j < |a| && a[j] == y;
    }
    SortStablePermutation(a, b, NoteIdLe);
  }

  lemma {:induction false} FolderListHashOrderFree(a: seq<Folder>, b: seq<Folder>)
    requires multiset(a) == multiset(b) && FolderIdsDetermine(a)
    ensures FolderListHash(a) == FolderListHash(b)
  {
    IdLeTotalPreorders();
    forall x, y | x in multiset(a) && y in multiset(a) && FolderIdLe(x, y) && FolderIdLe(y, x)
      ensures x == y
    {
      var i :| 0 <= i < |a| && a[i] == x;
      var j :| 0 <= j < |a| && a[j] == y;
    }
    SortStablePermutation(a, b, FolderIdLe);
  }

  /** Hence the combined hash of the same notes and folders, listed in any order, is the same. */
  lemma CombinedHashOrderFree(notes: seq<Note>, notes': seq<Note>, folders: seq<Folder>, folders': seq<Folder>)
    requires multiset(notes) == multiset(notes') && NoteIdsDetermine(notes)
    requires multiset(folders) == multiset(folders') && FolderIdsDetermine(folders)
    ensures CombinedHash(notes, folders) == CombinedHash(notes', folders')
  {
    NoteListHashOrderFree(notes, notes');
    FolderListHashOrderFree(folders, folders');
  }
}
