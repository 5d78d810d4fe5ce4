/**
 * The merge rules of the sync manager, as functions of the local tables and
 * the remote snapshot: the rows a merge writes, the local entries it pushes,
 * the placeholder folders it creates, and the pending deletions a retry
 * clears. A table is a map from id to row. The answers of the remote side and
 * the clock are parameters.
 */
module SyncMerge {
  import opened Wrappers
  import opened Kotlin
  import opened NoteModel
  import opened NoteContentSummary

  const PLACEHOLDER_FOLDER_NAME: string := "Untitled Folder"

  function NoteId(n: Note): int { n.id }
  function FolderId(f: Folder): int { f.id }

  /** Every row sits under its own id, as the primary key guarantees. */
  predicate NotesKeyed(rows: map<int, Note>) { forall id | id in rows :: rows[id].id == id }
  predicate FoldersKeyed(rows: map<int, Folder>) { forall id | id in rows :: rows[id].id == id }

  // ----- associateBy -----

  /** `associateBy(key)`: every key of the list, mapped to an element that has it. */
  function AssociateBy<T>(list: seq<T>, key: T -> int): (m: map<int, T>)
    ensures forall k | k in m :: key(m[k]) == k
    ensures forall i | 0 <= i < |list| :: key(list[i]) in m
    ensures forall k | k in m :: exists i :: 0 <= i < |list| && key(list[i]) == k
    decreases |list|
  {
    if |list| == 0 then map[]
    else
      var m := AssociateBy(list[..|list| - 1], key);
      var last := list[|list| - 1];
      assert forall k | k in m :: exists i :: 0 <= i < |list| && key(list[i]) == k by {
        forall k | k in m ensures exists i :: 0 <= i < |list| && key(list[i]) == k {
          var i :| 0 <= i < |list| - 1 && key(list[..|list| - 1][i]) == k;
          assert list[..|list| - 1][i] == list[i];
        }
      }
      m[key(last) := last]
  }

  /** The element a key maps to is the last one that has the key. */
  lemma {:induction false} AssociateByLast<T>(list: seq<T>, key: T -> int, k: int)
    requires k in AssociateBy(list, key)
    ensures exists i :: (0 <= i < |list| && list[i] == AssociateBy(list, key)[k]
      && forall j :: i < j < |list| ==> key(list[j]) != k)
    decreases |list|
  {
    var n := |list|;
    var init := list[..n - 1];
    if key(list[n - 1]) == k {
      assert list[n - 1] == AssociateBy(list, key)[k];
    } else {
      AssociateByLast(init, key, k);
      var i :| 0 <= i < |init| && init[i] == AssociateBy(init, key)[k]
        && forall j :: i < j < |init| ==> key(init[j]) != k;
      assert list[i] == AssociateBy(list, key)[k];
      forall j | i < j < n ensures key(list[j]) != k {
        if j < n - 1 { assert key(init[j]) != k; }
      }
    }
  }

  /** The iteration order of `associateBy`'s map: every key once, where it first occurs. */
  function KeyOrder<T>(list: seq<T>, key: T -> int): (r: seq<int>)
    ensures forall i, j | 0 <= i < j < |r| :: r[i] != r[j]
    ensures forall k :: k in r <==> k in AssociateBy(list, key)
    decreases |list|
  {
    if |list| == 0 then []
    else
      var init := KeyOrder(list[..|list| - 1], key);
      var k := key(list[|list| - 1]);
      if k in init then init else init + [k]
  }

  // ----- Rows -----

  /** The summary that `insertLocalNote`, `updateLocalNoteFromRemote` and `rowToNote` derive. */
  function SummaryOf(n: Note): Summary {
    WithFallbacks(ToSummary(n.content), n.description, n.descriptionSpans, n.attachments)
  }

  /** `rowToNote`: the summary derived again, and a blank stable id replaced by the decimal id. */
  function RowToNote(row: Note): Note {
    var s := SummaryOf(row);
    row.(description := s.description, descriptionSpans := s.spans, attachments := s.attachments,
         stableId := if IsBlank(row.stableId) then DecimalString(row.id) else row.stableId)
  }

  /** The row `insertLocalNote` writes: clean, never edited locally. */
  function InsertedNoteRow(r: Note): Note {
    var s := SummaryOf(r);
    r.(description := s.description, descriptionSpans := s.spans, attachments := s.attachments,
       dirty := false, localUpdatedAt := 0)
  }

  /** The row after `updateLocalNoteFromRemote`: creation time and local edit time are kept. */
  function UpdatedNoteRow(row: Note, r: Note): Note {
    var s := SummaryOf(r);
    row.(title := r.title, description := s.description, descriptionSpans := s.spans,
         attachments := s.attachments, content := r.content, deleted := r.deleted,
         updatedAt := r.updatedAt, dirty := false, folderId := r.folderId, stableId := r.stableId)
  }

  /** The row `insertLocalFolder` writes; a zero local edit time takes the update time. */
  function InsertedFolderRow(f: Folder): Folder {
    f.(localUpdatedAt := if f.localUpdatedAt != 0 then f.localUpdatedAt else f.updatedAt)
  }

  /** The row after `updateLocalFolderFromRemote`. */
  function UpdatedFolderRow(row: Folder, r: Folder): Folder {
    row.(name := r.name, updatedAt := r.updatedAt, deleted := r.deleted, dirty := false)
  }

  // ----- mergeRemoteNotes -----

  /** What the first loop writes under a remote id: insert, overwrite when newer, or keep. */
  function RemoteNoteOutcome(rows: map<int, Note>, id: int, r: Note): Note {
    if id !in rows then InsertedNoteRow(r)
    else if r.updatedAt > rows[id].updatedAt then UpdatedNoteRow(rows[id], r)
    else rows[id]
  }

  /** `rows` with the entry under every id of `done` taken from `outcome`. */
  function Overlay<T>(rows: map<int, T>, outcome: map<int, T>, done: set<int>): map<int, T>
    requires done <= outcome.Keys
  {
    map id | id in rows.Keys + done :: if id in done then outcome[id] else rows[id]
  }

  /** What the first loop writes under each remote id. */
  function RemoteNoteOutcomes(rows: map<int, Note>, rm: map<int, Note>): map<int, Note> {
    map id | id in rm :: RemoteNoteOutcome(rows, id, rm[id])
  }

  /** The note table once the remote ids in `done` are merged. */
  function NotesAfterRemote(rows: map<int, Note>, rm: map<int, Note>, done: set<int>): map<int, Note>
    requires done <= rm.Keys
  {
    Overlay(rows, RemoteNoteOutcomes(rows, rm), done)
  }

  /** The second loop over the local ids in `done`: a clean note the remote lacks is deleted. */
  function NotesAfterLocal(m: map<int, Note>, rows: map<int, Note>, remoteIds: set<int>, done: set<int>): map<int, Note> {
    map id | id in m && !(id in done && id in rows && id !in remoteIds && !rows[id].dirty) :: m[id]
  }

  /** The note table `mergeRemoteNotes` leaves. */
  function MergedNotes(rows: map<int, Note>, remote: seq<Note>): map<int, Note> {
    var rm := AssociateBy(remote, NoteId);
    NotesAfterLocal(NotesAfterRemote(rows, rm, rm.Keys), rows, rm.Keys, rows.Keys)
  }

  /** The local notes queued for upload by the two loops so far. */
  function NotePushes(rows: map<int, Note>, rm: map<int, Note>, remoteDone: set<int>, localDone: set<int>): map<int, Note> {
    map id | id in rows
      && ((id in remoteDone && id in rm && rows[id].updatedAt > rm[id].updatedAt)
          || (id in localDone && id !in rm && rows[id].dirty))
      :: RowToNote(rows[id])
  }

  /** The first result of `mergeRemoteNotes`. */
  function NotesToPush(rows: map<int, Note>, remote: seq<Note>): map<int, Note> {
    var rm := AssociateBy(remote, NoteId);
    NotePushes(rows, rm, rm.Keys, rows.Keys)
  }

  function OverwrittenIn(rows: map<int, Note>, rm: map<int, Note>, done: set<int>): set<int> {
    set id | id in done && id in rows && id in rm && rm[id].updatedAt > rows[id].updatedAt
  }

  /** The notes the remote snapshot overwrites; `overwrites` counts them. */
  function OverwrittenNotes(rows: map<int, Note>, remote: seq<Note>): set<int> {
    var rm := AssociateBy(remote, NoteId);
    OverwrittenIn(rows, rm, rm.Keys)
  }

  /** The per-id rules of `mergeRemoteNotes`. */
  lemma NoteMergeRules(rows: map<int, Note>, remote: seq<Note>, id: int)
    ensures var rm := AssociateBy(remote, NoteId);
      var merged := MergedNotes(rows, remote);
      var pushed := NotesToPush(rows, remote);
      var over := OverwrittenNotes(rows, remote);
      (id in rows && id in rm && rm[id].updatedAt > rows[id].updatedAt ==>
        id in merged && merged[id] == UpdatedNoteRow(rows[id], rm[id]) && id !in pushed && id in over)
      && (id in rows && id in rm && rows[id].updatedAt > rm[id].updatedAt ==>
        id in merged && merged[id] == rows[id] && id in pushed && pushed[id] == RowToNote(rows[id]) && id !in over)
      && (id in rows && id in rm && rows[id].updatedAt == rm[id].updatedAt ==>
        id in merged && merged[id] == rows[id] && id !in pushed && id !in over)
      && (id !in rows && id in rm ==>
        id in merged && merged[id] == InsertedNoteRow(rm[id]) && id !in pushed && id !in over)
      && (id in rows && id !in rm ==>
        (id in merged <==> rows[id].dirty) && (id in pushed <==> rows[id].dirty)
        && (id in merged ==> merged[id] == rows[id]) && id !in over)
      && (id !in rows && id !in rm ==> id !in merged && id !in pushed)
  {
  }

  /** After a merge every remote note is present and at least as new as its remote copy; only a newer local row stays ahead. */
  lemma MergedNotesAgainstRemote(rows: map<int, Note>, remote: seq<Note>, id: int)
    requires id in AssociateBy(remote, NoteId)
    ensures var rm := AssociateBy(remote, NoteId);
      var m := MergedNotes(rows, remote);
      id in m && m[id].updatedAt >= rm[id].updatedAt
      && (id in rows && rows[id].updatedAt > rm[id].updatedAt ==> m[id] == rows[id])
      && (m[id].updatedAt > rm[id].updatedAt ==> id in rows && rows[id].updatedAt > rm[id].updatedAt)
  {
    NoteMergeRules(rows, remote, id);
  }

  /** After a merge a note the remote lacks is a dirty local row, unchanged. */
  lemma MergedNotesWithoutRemote(rows: map<int, Note>, remote: seq<Note>, id: int)
    requires id in MergedNotes(rows, remote) && id !in AssociateBy(remote, NoteId)
    ensures id in rows && MergedNotes(rows, remote)[id] == rows[id] && rows[id].dirty
  {
    NoteMergeRules(rows, remote, id);
  }

  /** One id of a table merged twice with the same snapshot: present as often, with the same row. */
  lemma RemergeNoteRow(rows: map<int, Note>, remote: seq<Note>, id: int)
    ensures var m := MergedNotes(rows, remote);
      var m2 := MergedNotes(m, remote);
      (id in m2 <==> id in m) && (id in m ==> m2[id] == m[id])
  {
    NoteMergeRules(MergedNotes(rows, remote), remote, id);
    if id in AssociateBy(remote, NoteId) {
      MergedNotesAgainstRemote(rows, remote, id);
    } else if id in MergedNotes(rows, remote) {
      MergedNotesWithoutRemote(rows, remote, id);
    }
  }

  /** Merging the same snapshot again leaves the table as it is. */
  lemma RemergeNotesKeepsTable(rows: map<int, Note>, remote: seq<Note>)
    ensures MergedNotes(MergedNotes(rows, remote), remote) == MergedNotes(rows, remote)
  {
    var m := MergedNotes(rows, remote);
    var m2 := MergedNotes(m, remote);
    forall id ensures id in m2 <==> id in m
      ensures id in m ==> m2[id] == m[id]
    {
      RemergeNoteRow(rows, remote, id);
    }
    assert m2 == m;
  }

  /** Merging the same snapshot again overwrites nothing. */
  lemma RemergeNotesOverwritesNothing(rows: map<int, Note>, remote: seq<Note>)
    ensures OverwrittenNotes(MergedNotes(rows, remote), remote) == {}
  {
    var m := MergedNotes(rows, remote);
    forall id | id in OverwrittenNotes(m, remote) ensures false {
      MergedNotesAgainstRemote(rows, remote, id);
    }
  }

  /** One id queued for upload after merging twice exactly as after merging once. */
  lemma RemergeNotePush(rows: map<int, Note>, remote: seq<Note>, id: int)
    ensures var p := NotesToPush(rows, remote);
      var p2 := NotesToPush(MergedNotes(rows, remote), remote);
      (id in p2 <==> id in p) && (id in p ==> p2[id] == p[id])
  {
    NoteMergeRules(MergedNotes(rows, remote), remote, id);
    NoteMergeRules(rows, remote, id);
    if id in AssociateBy(remote, NoteId) {
      MergedNotesAgainstRemote(rows, remote, id);
    } else if id in MergedNotes(rows, remote) {
      MergedNotesWithoutRemote(rows, remote, id);
    }
  }

  /** Merging the same snapshot again queues the same notes for upload. */
  lemma RemergeNotesPushesSame(rows: map<int, Note>, remote: seq<Note>)
    ensures NotesToPush(MergedNotes(rows, remote), remote) == NotesToPush(rows, remote)
  {
    var p := NotesToPush(rows, remote);
    var p2 := NotesToPush(MergedNotes(rows, remote), remote);
    forall id ensures id in p2 <==> id in p
      ensures id in p ==> p2[id] == p[id]
    {
      RemergeNotePush(rows, remote, id);
    }
    assert p2 == p;
  }

  /** Merging the same snapshot again writes nothing, overwrites nothing and queues the same notes. */
  lemma RemergeNotesIsStable(rows: map<int, Note>, remote: seq<Note>)
    ensures MergedNotes(MergedNotes(rows, remote), remote) == MergedNotes(rows, remote)
    ensures OverwrittenNotes(MergedNotes(rows, remote), remote) == {}
    ensures NotesToPush(MergedNotes(rows, remote), remote) == NotesToPush(rows, remote)
  {
    RemergeNotesKeepsTable(rows, remote);
    RemergeNotesOverwritesNothing(rows, remote);
    RemergeNotesPushesSame(rows, remote);
  }

  // ----- mergeRemoteFolders -----

  /** A local folder wins over the remote one when it is a tombstone, or newer and dirty. */
  predicate LocalFolderWins(local: Folder, r: Folder) {
    local.deleted || (local.updatedAt > r.updatedAt && local.dirty)
  }

  /** What the first loop writes under a remote id: insert, keep a tombstone, overwrite when newer. */
  function RemoteFolderOutcome(rows: map<int, Folder>, id: int, r: Folder): Folder {
    if id !in rows then InsertedFolderRow(r)
    else if rows[id].deleted then rows[id]
    else if r.updatedAt > rows[id].updatedAt then UpdatedFolderRow(rows[id], r)
    else rows[id]
  }

  function FoldersAfterRemote(rows: map<int, Folder>, rf: map<int, Folder>, done: set<int>): map<int, Folder>
    requires done <= rf.Keys
  {
    map id | id in rows.Keys + done :: if id in done then RemoteFolderOutcome(rows, id, rf[id]) else rows[id]
  }

  /** The second loop: a folder the remote lacks is deleted unless it is dirty or a tombstone. */
  function FoldersAfterLocal(m: map<int, Folder>, rows: map<int, Folder>, remoteIds: set<int>, done: set<int>): map<int, Folder> {
    map id | id in m && !(id in done && id in rows && id !in remoteIds && !rows[id].dirty && !rows[id].deleted) :: m[id]
  }

  /** The folder table `mergeRemoteFolders` leaves. */
  function MergedFolders(rows: map<int, Folder>, remote: seq<Folder>): map<int, Folder> {
    var rf := AssociateBy(remote, FolderId);
    FoldersAfterLocal(FoldersAfterRemote(rows, rf, rf.Keys), rows, rf.Keys, rows.Keys)
  }

  function FolderPushes(rows: map<int, Folder>, rf: map<int, Folder>, remoteDone: set<int>, localDone: set<int>): map<int, Folder> {
    map id | id in rows
      && ((id in remoteDone && id in rf && LocalFolderWins(rows[id], rf[id]))
          || (id in localDone && id !in rf && (rows[id].dirty || rows[id].deleted)))
      :: rows[id]
  }

  /** The result of `mergeRemoteFolders`. */
  function FoldersToPush(rows: map<int, Folder>, remote: seq<Folder>): map<int, Folder> {
    var rf := AssociateBy(remote, FolderId);
    FolderPushes(rows, rf, rf.Keys, rows.Keys)
  }

  /** The per-id rules of `mergeRemoteFolders`. */
  lemma FolderMergeRules(rows: map<int, Folder>, remote: seq<Folder>, id: int)
    ensures var rf := AssociateBy(remote, FolderId);
      var merged := MergedFolders(rows, remote);
      var pushed := FoldersToPush(rows, remote);
      (id in rows && id in rf && rows[id].deleted ==>
        id in merged && merged[id] == rows[id] && id in pushed && pushed[id] == rows[id])
      && (id in rows && id in rf && !rows[id].deleted && rf[id].updatedAt > rows[id].updatedAt ==>
        id in merged && merged[id] == UpdatedFolderRow(rows[id], rf[id]) && id !in pushed)
      && (id in rows && id in rf && !rows[id].deleted && rf[id].updatedAt <= rows[id].updatedAt ==>
        id in merged && merged[id] == rows[id]
        && (id in pushed <==> rows[id].updatedAt > rf[id].updatedAt && rows[id].dirty))
      && (id !in rows && id in rf ==>
        id in merged && merged[id] == InsertedFolderRow(rf[id]) && id !in pushed)
      && (id in rows && id !in rf ==>
        (id in merged <==> rows[id].dirty || rows[id].deleted)
        && (id in pushed <==> rows[id].dirty || rows[id].deleted)
        && (id in merged ==> merged[id] == rows[id]))
      && (id !in rows && id !in rf ==> id !in merged && id !in pushed)
  {
  }

  /** Merging the same folder snapshot again writes nothing. */
  lemma RemergeFoldersIsStable(rows: map<int, Folder>, remote: seq<Folder>)
    ensures MergedFolders(MergedFolders(rows, remote), remote) == MergedFolders(rows, remote)
  {
    var rf := AssociateBy(remote, FolderId);
    var m := MergedFolders(rows, remote);
    var m2 := MergedFolders(m, remote);
    forall id ensures id in m2 <==> id in m
      ensures id in m ==> m2[id] == m[id]
    {
      FolderMergeRules(rows, remote, id);
      FolderMergeRules(m, remote, id);
    }
    assert m2 == m;
  }

  // ----- ensureFolderExists -----

  /** `ensureFolderExists`'s timestamp: the note's update time when positive, else the clock. */
  function PlaceholderTime(n: Note, now: int): int {
    if n.updatedAt > 0 then n.updatedAt else now
  }

  function Placeholder(id: int, timestamp: int): Folder {
    Folder(id, PLACEHOLDER_FOLDER_NAME, timestamp, timestamp, false, true, timestamp)
  }

  /** `ensureFolderIfReferenced`: a placeholder for a referenced folder that does not exist. */
  function EnsureReferenced(folders: map<int, Folder>, n: Note, now: int): map<int, Folder> {
    match n.folderId
    case None => folders
    case Some(fid) => if fid in folders then folders else folders[fid := Placeholder(fid, PlaceholderTime(n, now))]
  }

  /** The folder table after the remote notes of `ids`, in order, were checked for their folder. */
  function WithPlaceholders(folders: map<int, Folder>, rm: map<int, Note>, ids: seq<int>, now: int): map<int, Folder>
    requires forall k | 0 <= k < |ids| :: ids[k] in rm
    decreases |ids|
  {
    if |ids| == 0 then folders
    else EnsureReferenced(WithPlaceholders(folders, rm, ids[..|ids| - 1], now), rm[ids[|ids| - 1]], now)
  }

  /** Existing folders are untouched and every folder a remote note names exists afterwards. */
  lemma {:induction false} PlaceholdersCover(folders: map<int, Folder>, rm: map<int, Note>, ids: seq<int>, now: int)
    requires forall k | 0 <= k < |ids| :: ids[k] in rm
    ensures var w := WithPlaceholders(folders, rm, ids, now);
      (forall fid | fid in folders :: fid in w && w[fid] == folders[fid])
      && (forall k | 0 <= k < |ids| && rm[ids[k]].folderId.Some? :: rm[ids[k]].folderId.value in w)
    decreases |ids|
  {
    if |ids| > 0 {
      var n := |ids|;
      PlaceholdersCover(folders, rm, ids[..n - 1], now);
      forall k | 0 <= k < n - 1 ensures ids[..n - 1][k] == ids[k] { }
    }
  }

  /**
   * A folder the merge adds is the placeholder of the first remote note that
   * names it: "Untitled Folder", not deleted, dirty, stamped with that note's time.
   */
  lemma {:induction false} PlaceholdersAreFirstReferences(folders: map<int, Folder>, rm: map<int, Note>, ids: seq<int>, now: int, fid: int)
    requires forall k | 0 <= k < |ids| :: ids[k] in rm
    requires fid in WithPlaceholders(folders, rm, ids, now) && fid !in folders
    ensures exists k :: (0 <= k < |ids| && rm[ids[k]].folderId == Some(fid)
      && (forall j :: 0 <= j < k ==> rm[ids[j]].folderId != Some(fid))
      && WithPlaceholders(folders, rm, ids, now)[fid] == Placeholder(fid, PlaceholderTime(rm[ids[k]], now)))
    decreases |ids|
  {
    var n := |ids|;
    var init := ids[..n - 1];
    var w0 := WithPlaceholders(folders, rm, init, now);
    assert forall k | 0 <= k < n - 1 :: init[k] == ids[k];
    if fid in w0 {
      PlaceholdersAreFirstReferences(folders, rm, init, now, fid);
      var k :| 0 <= k < |init| && rm[init[k]].folderId == Some(fid)
        && (forall j :: 0 <= j < k ==> rm[init[j]].folderId != Some(fid))
        && w0[fid] == Placeholder(fid, PlaceholderTime(rm[init[k]], now));
      assert rm[ids[k]].folderId == Some(fid) && (forall j :: 0 <= j < k ==> rm[ids[j]].folderId != Some(fid));
    } else {
      PlaceholdersCover(folders, rm, init, now);
      forall j | 0 <= j < n - 1 ensures rm[ids[j]].folderId != Some(fid) {
        assert rm[init[j]].folderId.Some? ==> rm[init[j]].folderId.value in w0;
      }
    }
  }

  // ----- Pending deletions -----

  /** A row of the pending note deletions: the note's id and its storage paths as stored JSON. */
  datatype PendingNoteDeletion = PendingNoteDeletion(id: int, storagePaths: Option<string>)

  /**
   * The answers of the remote side: whether a remote note delete, a storage
   * delete of attachment files and a remote folder delete succeed, how the
   * stored JSON array of paths decodes, and the clock.
   */
  datatype Cloud = Cloud(
    deleteNote: int -> bool,
    deleteAttachments: seq<string> -> bool,
    deleteFolder: int -> bool,
    decodePaths: string -> Option<seq<string>>,
    now: int)

  /** `decodeStoragePaths`: paths only from a non-blank column that decodes. */
  function DecodeStoragePaths(raw: Option<string>, decode: string -> Option<seq<string>>): (r: seq<string>)
    ensures r != [] ==> raw.Some? && !IsBlank(raw.value) && decode(raw.value) == Some(r)
    ensures raw.Some? && !IsBlank(raw.value) && decode(raw.value).Some? ==> r == decode(raw.value).value
  {
    if raw.Some? && !IsBlank(raw.value) then decode(raw.value).OrElse([]) else []
  }

  /** The remote delete, then the storage delete when there are paths, both succeed. */
  predicate NoteDeletionPushed(cloud: Cloud, e: PendingNoteDeletion) {
    cloud.deleteNote(e.id)
    && (var paths := DecodeStoragePaths(e.storagePaths, cloud.decodePaths); |paths| == 0 || cloud.deleteAttachments(paths))
  }

  /** The pending note deletions one pass leaves, in their order. */
  function RemainingNoteDeletions(pending: seq<PendingNoteDeletion>, cloud: Cloud): seq<PendingNoteDeletion>
    decreases |pending|
  {
    if |pending| == 0 then []
    else
      var rest := RemainingNoteDeletions(pending[..|pending| - 1], cloud);
      var last := pending[|pending| - 1];
      if NoteDeletionPushed(cloud, last) then rest else rest + [last]
  }

  /** An entry stays exactly when one of its deletes fails; nothing changes when every entry fails. */
  lemma {:induction false} RemainingNoteDeletionsSpec(pending: seq<PendingNoteDeletion>, cloud: Cloud)
    ensures forall e :: e in RemainingNoteDeletions(pending, cloud) <==> e in pending && !NoteDeletionPushed(cloud, e)
    ensures (forall k :: 0 <= k < |pending| ==> !NoteDeletionPushed(cloud, pending[k])) ==>
      RemainingNoteDeletions(pending, cloud) == pending
    ensures (exists k :: 0 <= k < |pending| && NoteDeletionPushed(cloud, pending[k])) ==>
      |RemainingNoteDeletions(pending, cloud)| < |pending|
    ensures |RemainingNoteDeletions(pending, cloud)| <= |pending|
    decreases |pending|
  {
    if |pending| > 0 {
      var n := |pending|;
      var init := pending[..n - 1];
      RemainingNoteDeletionsSpec(init, cloud);
      assert pending == init + [pending[n - 1]];
      assert forall e :: e in pending <==> e in init || e == pending[n - 1];
      if exists k :: 0 <= k < n && NoteDeletionPushed(cloud, pending[k]) {
        var k :| 0 <= k < n && NoteDeletionPushed(cloud, pending[k]);
        if k < n - 1 { assert init[k] == pending[k]; }
      }
    }
  }

  /** No two pending note deletions share an id (it is the table's key). */
  predicate DistinctIds(pending: seq<PendingNoteDeletion>) {
    forall i, j | 0 <= i < |pending| && 0 <= j < |pending| && pending[i].id == pending[j].id :: i == j
  }

  lemma {:induction false} RemainingNoteDeletionsDistinct(pending: seq<PendingNoteDeletion>, cloud: Cloud)
    requires DistinctIds(pending)
    ensures DistinctIds(RemainingNoteDeletions(pending, cloud))
    decreases |pending|
  {
    if |pending| > 0 {
      var n := |pending|;
      var init := pending[..n - 1];
      assert DistinctIds(init) by {
        forall i, j | 0 <= i < |init| && 0 <= j < |init| && init[i].id == init[j].id ensures i == j {
          assert pending[i] == init[i] && pending[j] == init[j];
        }
      }
      RemainingNoteDeletionsDistinct(init, cloud);
      RemainingNoteDeletionsSpec(init, cloud);
      var rest := RemainingNoteDeletions(init, cloud);
      forall e | e in rest ensures e.id != pending[n - 1].id {
        var i :| 0 <= i < n - 1 && init[i] == e;
        assert pending[i] == e;
      }
    }
  }

  /** `deletePendingNoteDeletionById`. */
  function WithoutNoteDeletion(pending: seq<PendingNoteDeletion>, id: int): (r: seq<PendingNoteDeletion>)
    decreases |pending|
  {
    if |pending| == 0 then []
    else if pending[0].id == id then WithoutNoteDeletion(pending[1..], id)
    else [pending[0]] + WithoutNoteDeletion(pending[1..], id)
  }

  lemma {:induction false} WithoutAbsentNoteDeletion(pending: seq<PendingNoteDeletion>, id: int)
    requires forall e | e in pending :: e.id != id
    ensures WithoutNoteDeletion(pending, id) == pending
    decreases |pending|
  {
    if |pending| > 0 {
      assert pending[0] in pending;
      assert forall e | e in pending[1..] :: e in pending;
      WithoutAbsentNoteDeletion(pending[1..], id);
      assert pending == [pending[0]] + pending[1..];
    }
  }

  /** Deleting by id removes exactly the one entry that has the id. */
  lemma {:induction false} WithoutTheNoteDeletion(a: seq<PendingNoteDeletion>, e: PendingNoteDeletion, b: seq<PendingNoteDeletion>)
    requires forall x | x in a :: x.id != e.id
    requires forall x | x in b :: x.id != e.id
    ensures WithoutNoteDeletion(a + [e] + b, e.id) == a + b
    decreases |a|
  {
    if |a| == 0 {
      assert a + [e] + b == [e] + b;
      assert ([e] + b)[1..] == b;
      WithoutAbsentNoteDeletion(b, e.id);
    } else {
      assert (a + [e] + b)[0] == a[0] && (a + [e] + b)[1..] == a[1..] + [e] + b;
      assert a[0] in a;
      assert forall x | x in a[1..] :: x in a;
      WithoutTheNoteDeletion(a[1..], e, b);
      assert a + b == [a[0]] + (a[1..] + b);
    }
  }

  /** The pending folder deletions one pass leaves: those whose remote delete fails. */
  function RemainingFolderDeletions(pending: seq<int>, cloud: Cloud): seq<int>
    decreases |pending|
  {
    if |pending| == 0 then []
    else
      var rest := RemainingFolderDeletions(pending[..|pending| - 1], cloud);
      var last := pending[|pending| - 1];
      if cloud.deleteFolder(last) then rest else rest + [last]
  }

  /** The folders whose deletion reaches the remote side; their local rows go too. */
  function FoldersDeletedRemotely(pending: seq<int>, cloud: Cloud): set<int> {
    set id | id in pending && cloud.deleteFolder(id)
  }

  lemma {:induction false} RemainingFolderDeletionsSpec(pending: seq<int>, cloud: Cloud)
    ensures forall id :: id in RemainingFolderDeletions(pending, cloud) <==> id in pending && !cloud.deleteFolder(id)
    ensures FoldersDeletedRemotely(pending, cloud) == {} ==> RemainingFolderDeletions(pending, cloud) == pending
    decreases |pending|
  {
    if |pending| > 0 {
      var n := |pending|;
      var init := pending[..n - 1];
      RemainingFolderDeletionsSpec(init, cloud);
      assert pending == init + [pending[n - 1]];
      assert forall id :: id in pending <==> id in init || id == pending[n - 1];
      if FoldersDeletedRemotely(pending, cloud) == {} {
        assert FoldersDeletedRemotely(init, cloud) == {} by {
          forall id | id in init ensures !cloud.deleteFolder(id) {
            assert id in pending && id !in FoldersDeletedRemotely(pending, cloud);
          }
        }
        assert pending[n - 1] !in FoldersDeletedRemotely(pending, cloud);
      }
    }
  }

  predicate DistinctFolderIds(pending: seq<int>) {
    forall i, j | 0 <= i < |pending| && 0 <= j < |pending| && pending[i] == pending[j] :: i == j
  }

  lemma {:induction false} RemainingFolderDeletionsDistinct(pending: seq<int>, cloud: Cloud)
    requires DistinctFolderIds(pending)
    ensures DistinctFolderIds(RemainingFolderDeletions(pending, cloud))
    decreases |pending|
  {
    if |pending| > 0 {
      var n := |pending|;
      var init := pending[..n - 1];
      assert DistinctFolderIds(init) by {
        forall i, j | 0 <= i < |init| && 0 <= j < |init| && init[i] == init[j] ensures i == j {
          assert pending[i] == init[i] && pending[j] == init[j];
        }
      }
      RemainingFolderDeletionsDistinct(init, cloud);
      RemainingFolderDeletionsSpec(init, cloud);
      forall i | 0 <= i < n - 1 ensures init[i] != pending[n - 1] {
        assert pending[i] == init[i];
      }
    }
  }

  /** `deletePendingFolderDeletionById`. */
  function WithoutFolderDeletion(pending: seq<int>, id: int): seq<int>
    decreases |pending|
  {
    if |pending| == 0 then []
    else if pending[0] == id then WithoutFolderDeletion(pending[1..], id)
    else [pending[0]] + WithoutFolderDeletion(pending[1..], id)
  }

  lemma {:induction false} WithoutTheFolderDeletion(a: seq<int>, id: int, b: seq<int>)
    requires id !in a && id !in b
    ensures WithoutFolderDeletion(a + [id] + b, id) == a + b
    decreases |a| + |b|
  {
    if |a| == 0 {
      assert a + [id] + b == [id] + b;
      assert ([id] + b)[1..] == b;
      WithoutAbsentFolderDeletion(b, id);
    } else {
      assert (a + [id] + b)[0] == a[0] && (a + [id] + b)[1..] == a[1..] + [id] + b;
      WithoutTheFolderDeletion(a[1..], id, b);
      assert a + b == [a[0]] + (a[1..] + b);
    }
  }

  lemma {:induction false} WithoutAbsentFolderDeletion(pending: seq<int>, id: int)
    requires id !in pending
    ensures WithoutFolderDeletion(pending, id) == pending
    decreases |pending|
  {
    if |pending| > 0 {
      WithoutAbsentFolderDeletion(pending[1..], id);
      assert pending == [pending[0]] + pending[1..];
    }
  }
}
