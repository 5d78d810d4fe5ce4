/**
 * The sync manager as an object: the local tables it reads and writes, the
 * pending deletions it retries, and the merge throttle it keeps between runs.
 * The database is the four tables held as fields; the remote side answers
 * through a `Cloud` value. The coroutine plumbing and the event stream are
 * not part of this model.
 */
module NotesSync {
  import opened Wrappers
  import opened Order
  import opened NoteModel
  import opened SyncHash
  import opened SyncMerge

  predicate IntLt(a: int, b: int) { a < b }

  lemma IntLtStrictTotal()
    ensures StrictTotal(IntLt)
  {
  }

  /** `getAllLocalNotes`: every row as `rowToNote` reads it (listed by id; the hash ignores the order). */
  ghost function LocalNotes(rows: map<int, Note>): seq<Note> {
    IntLtStrictTotal();
    var ids := SortedOf(rows.Keys, IntLt);
    seq(|ids|, i requires 0 <= i < |ids| => assert ids[i] in Elems(ids); RowToNote(rows[ids[i]]))
  }

  /** `getAllLocalFolders`: every row (listed by id). */
  ghost function LocalFolders(rows: map<int, Folder>): seq<Folder> {
    IntLtStrictTotal();
    var ids := SortedOf(rows.Keys, IntLt);
    seq(|ids|, i requires 0 <= i < |ids| => assert ids[i] in Elems(ids); rows[ids[i]])
  }

  /** The remote ids the first loop of a merge has visited. */
  function Visited(keys: seq<int>, i: nat): set<int>
    requires i <= |keys|
  {
    set k | k in keys[..i]
  }

  /** `clearDirtyById` for every id in `ids`. */
  function ClearNotesDirty(rows: map<int, Note>, ids: set<int>): map<int, Note> {
    map id | id in rows :: if id in ids then rows[id].(dirty := false) else rows[id]
  }

  /** `pushFolders`' table writes: a pushed tombstone is deleted, any other pushed folder made clean. */
  function FoldersAfterPush(rows: map<int, Folder>, pushed: map<int, Folder>, done: set<int>): map<int, Folder>
    requires done <= pushed.Keys
  {
    map id | id in rows && !(id in done && pushed[id].deleted) ::
      if id in done then rows[id].(dirty := false) else rows[id]
  }

  /** Whether a merge's two retry passes deleted anything remotely. */
  ghost predicate PendingPushed(notes: seq<PendingNoteDeletion>, folders: seq<int>, cloud: Cloud) {
    FoldersDeletedRemotely(folders, cloud) != {}
    || exists k :: 0 <= k < |notes| && NoteDeletionPushed(cloud, notes[k])
  }

  /** How `mergeRemoteIntoLocalAndPushLocalNewer` ended. */
  datatype MergeOutcome =
    | SameAsLastRemote
    | Throttled
    | SameAsLocal
    | Merged(overwrites: nat, notesPushed: set<int>, foldersPushed: set<int>)

  // ----- Steps of the loops -----

  lemma PendingNoteStep(pending: seq<PendingNoteDeletion>, cloud: Cloud, i: nat)
    requires DistinctIds(pending) && i < |pending|
    ensures var a := RemainingNoteDeletions(pending[..i], cloud);
      var e := pending[i];
      a + pending[i..] == a + [e] + pending[i + 1..]
      && (NoteDeletionPushed(cloud, e) ==>
            WithoutNoteDeletion(a + [e] + pending[i + 1..], e.id) == RemainingNoteDeletions(pending[..i + 1], cloud) + pending[i + 1..])
      && (!NoteDeletionPushed(cloud, e) ==>
            a + [e] + pending[i + 1..] == RemainingNoteDeletions(pending[..i + 1], cloud) + pending[i + 1..])
  {
    var a := RemainingNoteDeletions(pending[..i], cloud);
    var e := pending[i];
    assert pending[..i + 1][..i] == pending[..i];
    assert pending[i..] == [e] + pending[i + 1..];
    if NoteDeletionPushed(cloud, e) {
      RemainingNoteDeletionsSpec(pending[..i], cloud);
      forall x | x in a ensures x.id != e.id {
        var j :| 0 <= j < i && pending[..i][j] == x;
        assert pending[j] == x;
      }
      forall x | x in pending[i + 1..] ensures x.id != e.id {
        var j :| 0 <= j < |pending[i + 1..]| && pending[i + 1..][j] == x;
        assert pending[i + 1 + j] == x;
      }
      WithoutTheNoteDeletion(a, e, pending[i + 1..]);
    }
  }

  lemma PendingFolderStep(pending: seq<int>, cloud: Cloud, i: nat)
    requires DistinctFolderIds(pending) && i < |pending|
    ensures var a := RemainingFolderDeletions(pending[..i], cloud);
      var id := pending[i];
      a + pending[i..] == a + [id] + pending[i + 1..]
      && (cloud.deleteFolder(id) ==>
            WithoutFolderDeletion(a + [id] + pending[i + 1..], id) == RemainingFolderDeletions(pending[..i + 1], cloud) + pending[i + 1..])
      && (!cloud.deleteFolder(id) ==>
            a + [id] + pending[i + 1..] == RemainingFolderDeletions(pending[..i + 1], cloud) + pending[i + 1..])
      && FoldersDeletedRemotely(pending[..i + 1], cloud)
         == FoldersDeletedRemotely(pending[..i], cloud) + (if cloud.deleteFolder(id) then {id} else {})
  {
    var a := RemainingFolderDeletions(pending[..i], cloud);
    var id := pending[i];
    assert pending[..i + 1][..i] == pending[..i];
    assert pending[..i + 1] == pending[..i] + [id];
    assert pending[i..] == [id] + pending[i + 1..];
    if cloud.deleteFolder(id) {
      RemainingFolderDeletionsSpec(pending[..i], cloud);
      assert id !in a by {
        forall j | 0 <= j < i ensures pending[..i][j] != id {
          assert pending[..i][j] == pending[j];
        }
      }
      assert id !in pending[i + 1..] by {
        forall j | i + 1 <= j < |pending| ensures pending[j] != id { }
      }
      WithoutTheFolderDeletion(a, id, pending[i + 1..]);
    }
  }

  /** The state of `pushPendingNoteDeletions` after `i` entries. */
  predicate NotePassAt(pending: seq<PendingNoteDeletion>, cloud: Cloud, i: nat, table: seq<PendingNoteDeletion>, pushed: bool) {
    i <= |pending|
    && table == RemainingNoteDeletions(pending[..i], cloud) + pending[i..]
    && |RemainingNoteDeletions(pending[..i], cloud)| <= i
    && (pushed <==> |RemainingNoteDeletions(pending[..i], cloud)| < i)
  }

  lemma NotePassStep(pending: seq<PendingNoteDeletion>, cloud: Cloud, i: nat, table: seq<PendingNoteDeletion>, pushed: bool)
    requires DistinctIds(pending) && i < |pending| && NotePassAt(pending, cloud, i, table, pushed)
    ensures NoteDeletionPushed(cloud, pending[i]) ==>
      NotePassAt(pending, cloud, i + 1, WithoutNoteDeletion(table, pending[i].id), true)
    ensures !NoteDeletionPushed(cloud, pending[i]) ==> NotePassAt(pending, cloud, i + 1, table, pushed)
  {
    PendingNoteStep(pending, cloud, i);
    assert pending[..i + 1][..i] == pending[..i];
    assert pending[..i + 1][i] == pending[i];
    assert |RemainingNoteDeletions(pending[..i + 1], cloud)|
      == |RemainingNoteDeletions(pending[..i], cloud)| + (if NoteDeletionPushed(cloud, pending[i]) then 0 else 1);
  }

  /** The state of `pushPendingFolderDeletions` after `i` entries. */
  predicate FolderPassAt(pending: seq<int>, cloud: Cloud, rows: map<int, Folder>, i: nat,
                         table: seq<int>, folderTable: map<int, Folder>, pushed: bool) {
    i <= |pending|
    && table == RemainingFolderDeletions(pending[..i], cloud) + pending[i..]
    && folderTable == rows - FoldersDeletedRemotely(pending[..i], cloud)
    && (pushed <==> FoldersDeletedRemotely(pending[..i], cloud) != {})
  }

  lemma FolderPassStep(pending: seq<int>, cloud: Cloud, rows: map<int, Folder>, i: nat,
                       table: seq<int>, folderTable: map<int, Folder>, pushed: bool)
    requires DistinctFolderIds(pending) && i < |pending| && FolderPassAt(pending, cloud, rows, i, table, folderTable, pushed)
    ensures cloud.deleteFolder(pending[i]) ==>
      FolderPassAt(pending, cloud, rows, i + 1, WithoutFolderDeletion(table, pending[i]), folderTable - {pending[i]}, true)
    ensures !cloud.deleteFolder(pending[i]) ==> FolderPassAt(pending, cloud, rows, i + 1, table, folderTable, pushed)
  {
    PendingFolderStep(pending, cloud, i);
  }

  /**
   * One entry of `pushPendingNoteDeletions`: the remote delete, then the
   * storage delete when there are paths, and `deletePendingNoteDeletionById`
   * when neither failed.
   */
  method PushNoteDeletionEntry(ghost pending: seq<PendingNoteDeletion>, cloud: Cloud, ghost i: nat,
                               table: seq<PendingNoteDeletion>, pushed: bool, entry: PendingNoteDeletion)
    returns (table': seq<PendingNoteDeletion>, pushed': bool)
    requires DistinctIds(pending) && i < |pending| && entry == pending[i]
    requires NotePassAt(pending, cloud, i, table, pushed)
    ensures NotePassAt(pending, cloud, i + 1, table', pushed')
  {
    NotePassStep(pending, cloud, i, table, pushed);
    table', pushed' := table, pushed;
    if !cloud.deleteNote(entry.id) {
      return;
    }
    var storagePaths := DecodeStoragePaths(entry.storagePaths, cloud.decodePaths);
    if |storagePaths| > 0 && !cloud.deleteAttachments(storagePaths) {
      return;
    }
    table' := WithoutNoteDeletion(table, entry.id);
    pushed' := true;
  }

  /**
   * The loop of `pushPendingNoteDeletions` over a snapshot of the pending
   * entries: the entries that remain, and whether any was removed.
   */
  method RetryNoteDeletions(pending: seq<PendingNoteDeletion>, cloud: Cloud)
    returns (table: seq<PendingNoteDeletion>, pushed: bool)
    requires DistinctIds(pending)
    ensures table == RemainingNoteDeletions(pending, cloud)
    ensures pushed <==> exists k :: 0 <= k < |pending| && NoteDeletionPushed(cloud, pending[k])
  {
    table := pending;
    pushed := false;
    NotePassStart(pending, cloud);
    for i := 0 to |pending|
      invariant NotePassAt(pending, cloud, i, table, pushed)
    {
      table, pushed := PushNoteDeletionEntry(pending, cloud, i, table, pushed, pending[i]);
    }
    NotePassEnd(pending, cloud, table, pushed);
  }

  lemma NotePassStart(pending: seq<PendingNoteDeletion>, cloud: Cloud)
    ensures NotePassAt(pending, cloud, 0, pending, false)
  {
    assert pending[..0] == [];
  }

  lemma NotePassEnd(pending: seq<PendingNoteDeletion>, cloud: Cloud, table: seq<PendingNoteDeletion>, pushed: bool)
    requires NotePassAt(pending, cloud, |pending|, table, pushed)
    ensures table == RemainingNoteDeletions(pending, cloud)
    ensures pushed <==> exists k :: 0 <= k < |pending| && NoteDeletionPushed(cloud, pending[k])
  {
    assert pending[..|pending|] == pending;
    RemainingNoteDeletionsSpec(pending, cloud);
  }

  /** The state of `pushPendingFolderDeletions` at its start and at its end. */
  lemma FolderPassStart(pending: seq<int>, cloud: Cloud, rows: map<int, Folder>)
    ensures FolderPassAt(pending, cloud, rows, 0, pending, rows, false)
  {
    assert pending[..0] == [];
  }

  lemma FolderPassEnd(pending: seq<int>, cloud: Cloud, rows: map<int, Folder>,
                      table: seq<int>, folderTable: map<int, Folder>, pushed: bool)
    requires FolderPassAt(pending, cloud, rows, |pending|, table, folderTable, pushed)
    ensures table == RemainingFolderDeletions(pending, cloud)
    ensures folderTable == rows - FoldersDeletedRemotely(pending, cloud)
    ensures pushed <==> FoldersDeletedRemotely(pending, cloud) != {}
  {
    assert pending[..|pending|] == pending;
  }

  /** One entry of `pushPendingFolderDeletions`: the entry and the folder row go when the remote delete succeeds. */
  method PushFolderDeletionEntry(ghost pending: seq<int>, cloud: Cloud, ghost rows: map<int, Folder>, ghost i: nat,
                                 table: seq<int>, folderTable: map<int, Folder>, pushed: bool, folderId: int)
    returns (table': seq<int>, folderTable': map<int, Folder>, pushed': bool)
    requires DistinctFolderIds(pending) && i < |pending| && folderId == pending[i]
    requires FolderPassAt(pending, cloud, rows, i, table, folderTable, pushed)
    ensures FolderPassAt(pending, cloud, rows, i + 1, table', folderTable', pushed')
  {
    FolderPassStep(pending, cloud, rows, i, table, folderTable, pushed);
    if cloud.deleteFolder(folderId) {
      table', folderTable', pushed' := WithoutFolderDeletion(table, folderId), folderTable - {folderId}, true;
    } else {
      table', folderTable', pushed' := table, folderTable, pushed;
    }
  }

  /**
   * The loop of `pushPendingFolderDeletions` over a snapshot of the pending
   * entries: the entries that remain, the folder table, and whether any
   * folder was deleted remotely.
   */
  method RetryFolderDeletions(pending: seq<int>, cloud: Cloud, rows: map<int, Folder>)
    returns (table: seq<int>, folderTable: map<int, Folder>, pushed: bool)
    requires DistinctFolderIds(pending)
    ensures table == RemainingFolderDeletions(pending, cloud)
    ensures folderTable == rows - FoldersDeletedRemotely(pending, cloud)
    ensures pushed <==> FoldersDeletedRemotely(pending, cloud) != {}
  {
    table, folderTable, pushed := pending, rows, false;
    FolderPassStart(pending, cloud, rows);
    for i := 0 to |pending|
      invariant FolderPassAt(pending, cloud, rows, i, table, folderTable, pushed)
    {
      table, folderTable, pushed := PushFolderDeletionEntry(pending, cloud, rows, i, table, folderTable, pushed, pending[i]);
    }
    FolderPassEnd(pending, cloud, rows, table, folderTable, pushed);
  }

  // ----- The merge loops -----

  /** No key occurs twice, as in the key set of a map. */
  predicate DistinctKeys(keys: seq<int>) {
    forall a, b | 0 <= a < b < |keys| :: keys[a] != keys[b]
  }

  lemma VisitedStep(keys: seq<int>, i: nat)
    requires i < |keys| && DistinctKeys(keys)
    ensures Visited(keys, i + 1) == Visited(keys, i) + {keys[i]}
    ensures keys[i] !in Visited(keys, i)
  {
    assert keys[..i + 1] == keys[..i] + [keys[i]];
    forall j | 0 <= j < i ensures keys[..i][j] != keys[i] {
      assert keys[..i][j] == keys[j];
    }
  }

  lemma VisitedAll(keys: seq<int>)
    ensures Visited(keys, |keys|) == set k | k in keys
  {
    assert keys[..|keys|] == keys;
  }

  /** The state of `mergeRemoteFolders`' first loop after `i` remote ids. */
  predicate FolderRemotePassAt(rows: map<int, Folder>, rf: map<int, Folder>, keys: seq<int>, i: nat,
                               table: map<int, Folder>, toPush: map<int, Folder>) {
    i <= |keys| && Visited(keys, i) <= rf.Keys
    && table == FoldersAfterRemote(rows, rf, Visited(keys, i))
    && toPush == FolderPushes(rows, rf, Visited(keys, i), {})
  }

  lemma FoldersAfterRemoteStep(rows: map<int, Folder>, rf: map<int, Folder>, done: set<int>, id: int)
    requires done <= rf.Keys && id in rf && id !in done
    ensures FoldersAfterRemote(rows, rf, done + {id}) == FoldersAfterRemote(rows, rf, done)[id := RemoteFolderOutcome(rows, id, rf[id])]
  {
    var a := FoldersAfterRemote(rows, rf, done + {id});
    var b := FoldersAfterRemote(rows, rf, done)[id := RemoteFolderOutcome(rows, id, rf[id])];
    assert a.Keys == b.Keys;
    forall k | k in a ensures a[k] == b[k] { }
  }

  lemma FolderPushesRemoteStep(rows: map<int, Folder>, rf: map<int, Folder>, done: set<int>, id: int)
    requires id in rf && id !in done
    ensures FolderPushes(rows, rf, done + {id}, {}) ==
      if id in rows && LocalFolderWins(rows[id], rf[id]) then FolderPushes(rows, rf, done, {})[id := rows[id]]
      else FolderPushes(rows, rf, done, {})
  {
    var a := FolderPushes(rows, rf, done + {id}, {});
    var b := if id in rows && LocalFolderWins(rows[id], rf[id]) then FolderPushes(rows, rf, done, {})[id := rows[id]]
      else FolderPushes(rows, rf, done, {});
    assert a.Keys == b.Keys;
  }

  /** One remote folder of `mergeRemoteFolders`: insert, queue a tombstone, overwrite, or queue a newer dirty folder. */
  method RemoteFolderEntry(rows: map<int, Folder>, rf: map<int, Folder>, keys: seq<int>, i: nat,
                           table: map<int, Folder>, toPush: map<int, Folder>)
    returns (table': map<int, Folder>, toPush': map<int, Folder>)
    requires DistinctKeys(keys) && i < |keys| && (forall j | 0 <= j < |keys| :: keys[j] in rf)
    requires FolderRemotePassAt(rows, rf, keys, i, table, toPush)
    ensures FolderRemotePassAt(rows, rf, keys, i + 1, table', toPush')
  {
    var id := keys[i];
    var remoteFolder := rf[id];
    VisitedStep(keys, i);
    FoldersAfterRemoteStep(rows, rf, Visited(keys, i), id);
    FolderPushesRemoteStep(rows, rf, Visited(keys, i), id);
    table', toPush' := table, toPush;
    if id !in rows {
      table' := table[id := InsertedFolderRow(remoteFolder)];
    } else if rows[id].deleted {
      toPush' := toPush[id := rows[id]];
    } else if remoteFolder.updatedAt > rows[id].updatedAt {
      table' := table[id := UpdatedFolderRow(rows[id], remoteFolder)];
    } else if rows[id].updatedAt > remoteFolder.updatedAt && rows[id].dirty {
      toPush' := toPush[id := rows[id]];
    }
  }

  /** The state of `mergeRemoteFolders`' second loop with the local ids `rest` still to visit. */
  predicate FolderLocalPassAt(afterRemote: map<int, Folder>, rows: map<int, Folder>, rf: map<int, Folder>,
                              rest: set<int>, table: map<int, Folder>, toPush: map<int, Folder>) {
    rest <= rows.Keys
    && table == FoldersAfterLocal(afterRemote, rows, rf.Keys, rows.Keys - rest)
    && toPush == FolderPushes(rows, rf, rf.Keys, rows.Keys - rest)
  }

  lemma FoldersAfterLocalStep(m: map<int, Folder>, rows: map<int, Folder>, remoteIds: set<int>, done: set<int>, id: int)
    requires id in rows && id !in done
    ensures FoldersAfterLocal(m, rows, remoteIds, done + {id}) ==
      if id !in remoteIds && !rows[id].dirty && !rows[id].deleted then FoldersAfterLocal(m, rows, remoteIds, done) - {id}
      else FoldersAfterLocal(m, rows, remoteIds, done)
  {
    var a := FoldersAfterLocal(m, rows, remoteIds, done + {id});
    var b := if id !in remoteIds && !rows[id].dirty && !rows[id].deleted then FoldersAfterLocal(m, rows, remoteIds, done) - {id}
      else FoldersAfterLocal(m, rows, remoteIds, done);
    assert a.Keys == b.Keys;
  }

  lemma FolderPushesLocalStep(rows: map<int, Folder>, rf: map<int, Folder>, done: set<int>, id: int)
    requires id in rows && id !in done
    ensures FolderPushes(rows, rf, rf.Keys, done + {id}) ==
      if id !in rf && (rows[id].dirty || rows[id].deleted) then FolderPushes(rows, rf, rf.Keys, done)[id := rows[id]]
      else FolderPushes(rows, rf, rf.Keys, done)
  {
    var a := FolderPushes(rows, rf, rf.Keys, done + {id});
    var b := if id !in rf && (rows[id].dirty || rows[id].deleted) then FolderPushes(rows, rf, rf.Keys, done)[id := rows[id]]
      else FolderPushes(rows, rf, rf.Keys, done);
    assert a.Keys == b.Keys;
  }

  /** One local folder of `mergeRemoteFolders`: one the remote lacks is queued when dirty or a tombstone, else deleted. */
  method LocalFolderEntry(ghost afterRemote: map<int, Folder>, rows: map<int, Folder>, rf: map<int, Folder>,
                          ghost rest: set<int>, table: map<int, Folder>, toPush: map<int, Folder>, id: int)
    returns (table': map<int, Folder>, toPush': map<int, Folder>)
    requires id in rest && FolderLocalPassAt(afterRemote, rows, rf, rest, table, toPush)
    ensures FolderLocalPassAt(afterRemote, rows, rf, rest - {id}, table', toPush')
  {
    assert rows.Keys - (rest - {id}) == (rows.Keys - rest) + {id};
    FoldersAfterLocalStep(afterRemote, rows, rf.Keys, rows.Keys - rest, id);
    FolderPushesLocalStep(rows, rf, rows.Keys - rest, id);
    table', toPush' := table, toPush;
    if id !in rf {
      if rows[id].dirty || rows[id].deleted {
        toPush' := toPush[id := rows[id]];
      } else {
        table' := table - {id};
      }
    }
  }

  lemma SomeElement(s: set<int>)
    requires s != {}
    ensures exists x :: x in s
  {
    if forall x :: x !in s {
      assert false;
    }
  }

  /** The first loop of `mergeRemoteFolders`, over the remote ids in map order. */
  method RemoteFolderPass(rows: map<int, Folder>, rf: map<int, Folder>, keys: seq<int>)
    returns (table: map<int, Folder>, toPush: map<int, Folder>)
    requires DistinctKeys(keys) && (forall j | 0 <= j < |keys| :: keys[j] in rf)
    ensures FolderRemotePassAt(rows, rf, keys, |keys|, table, toPush)
  {
    table, toPush := rows, map[];
    FolderRemotePassStart(rows, rf, keys);
    for i := 0 to |keys|
      invariant FolderRemotePassAt(rows, rf, keys, i, table, toPush)
    {
      table, toPush := RemoteFolderEntry(rows, rf, keys, i, table, toPush);
    }
  }

  lemma FolderRemotePassStart(rows: map<int, Folder>, rf: map<int, Folder>, keys: seq<int>)
    ensures FolderRemotePassAt(rows, rf, keys, 0, rows, map[])
  {
    assert Visited(keys, 0) == {};
    assert FoldersAfterRemote(rows, rf, {}) == rows;
  }

  /** The second loop of `mergeRemoteFolders`, over the local ids. */
  method LocalFolderPass(afterRemote: map<int, Folder>, rows: map<int, Folder>, rf: map<int, Folder>, pushed: map<int, Folder>)
    returns (table: map<int, Folder>, toPush: map<int, Folder>)
    requires pushed == FolderPushes(rows, rf, rf.Keys, {})
    ensures FolderLocalPassAt(afterRemote, rows, rf, {}, table, toPush)
  {
    table, toPush := afterRemote, pushed;
    var rest := rows.Keys;
    assert FoldersAfterLocal(afterRemote, rows, rf.Keys, {}) == afterRemote;
    while rest != {}
      invariant FolderLocalPassAt(afterRemote, rows, rf, rest, table, toPush)
      decreases rest
    {
      SomeElement(rest);
      var id :| id in rest;
      table, toPush := LocalFolderEntry(afterRemote, rows, rf, rest, table, toPush, id);
      rest := rest - {id};
    }
  }

  /** The loops of `mergeRemoteFolders` run against a snapshot of the folder table. */
  method MergeFolderTable(rows: map<int, Folder>, remote: seq<Folder>) returns (table: map<int, Folder>, toPush: map<int, Folder>)
    ensures table == MergedFolders(rows, remote)
    ensures toPush == FoldersToPush(rows, remote)
  {
    var rf := AssociateBy(remote, FolderId);
    var keys := KeyOrder(remote, FolderId);
    var afterRemote, pushed := RemoteFolderPass(rows, rf, keys);
    VisitedAll(keys);
    assert Visited(keys, |keys|) == rf.Keys;
    table, toPush := LocalFolderPass(afterRemote, rows, rf, pushed);
    assert rows.Keys - {} == rows.Keys;
  }

  /** The state of `mergeRemoteNotes`' first loop after `i` remote ids. */
  predicate NoteRemotePassAt(rows: map<int, Note>, folders0: map<int, Folder>, rm: map<int, Note>, keys: seq<int>,
                             now: int, i: nat, table: map<int, Note>, folderTable: map<int, Folder>,
                             toPush: map<int, Note>, overwrites: nat) {
    i <= |keys| && (forall j | 0 <= j < |keys| :: keys[j] in rm) && Visited(keys, i) <= rm.Keys
    && table == NotesAfterRemote(rows, rm, Visited(keys, i))
    && folderTable == WithPlaceholders(folders0, rm, keys[..i], now)
    && toPush == NotePushes(rows, rm, Visited(keys, i), {})
    && overwrites == |OverwrittenIn(rows, rm, Visited(keys, i))|
  }

  lemma NotesAfterRemoteStep(rows: map<int, Note>, rm: map<int, Note>, done: set<int>, id: int)
    requires done <= rm.Keys && id in rm && id !in done
    ensures NotesAfterRemote(rows, rm, done + {id}) == NotesAfterRemote(rows, rm, done)[id := RemoteNoteOutcome(rows, id, rm[id])]
  {
    OverlayStep(rows, RemoteNoteOutcomes(rows, rm), done, id);
  }

  lemma OverlayStep<T>(rows: map<int, T>, outcome: map<int, T>, done: set<int>, id: int)
    requires done <= outcome.Keys && id in outcome && id !in done
    ensures Overlay(rows, outcome, done + {id}) == Overlay(rows, outcome, done)[id := outcome[id]]
  {
    var a := Overlay(rows, outcome, done + {id});
    var b := Overlay(rows, outcome, done)[id := outcome[id]];
    assert a.Keys == b.Keys;
    forall k | k in a ensures a[k] == b[k] { }
  }

  lemma NotePushesRemoteStep(rows: map<int, Note>, rm: map<int, Note>, done: set<int>, id: int)
    requires id in rm && id !in done
    ensures NotePushes(rows, rm, done + {id}, {}) ==
      if id in rows && rows[id].updatedAt > rm[id].updatedAt then NotePushes(rows, rm, done, {})[id := RowToNote(rows[id])]
      else NotePushes(rows, rm, done, {})
  {
    var a := NotePushes(rows, rm, done + {id}, {});
    var b := if id in rows && rows[id].updatedAt > rm[id].updatedAt then NotePushes(rows, rm, done, {})[id := RowToNote(rows[id])]
      else NotePushes(rows, rm, done, {});
    assert a.Keys == b.Keys;
  }

  lemma OverwrittenStep(rows: map<int, Note>, rm: map<int, Note>, done: set<int>, id: int)
    requires id in rm && id !in done
    ensures |OverwrittenIn(rows, rm, done + {id})| ==
      |OverwrittenIn(rows, rm, done)| + (if id in rows && rm[id].updatedAt > rows[id].updatedAt then 1 else 0)
  {
    var s := OverwrittenIn(rows, rm, done);
    if id in rows && rm[id].updatedAt > rows[id].updatedAt {
      assert OverwrittenIn(rows, rm, done + {id}) == s + {id};
    } else {
      assert OverwrittenIn(rows, rm, done + {id}) == s;
    }
  }

  /**
   * One remote note of `mergeRemoteNotes`: its folder is made to exist, then
   * the note is inserted, overwritten when the remote one is newer, or queued
   * when the local one is.
   */
  method RemoteNoteEntry(rows: map<int, Note>, ghost folders0: map<int, Folder>, rm: map<int, Note>, keys: seq<int>,
                         now: int, i: nat, table: map<int, Note>, folderTable: map<int, Folder>,
                         toPush: map<int, Note>, overwrites: nat)
    returns (table': map<int, Note>, folderTable': map<int, Folder>, toPush': map<int, Note>, overwrites': nat)
    requires DistinctKeys(keys) && i < |keys|
    requires NoteRemotePassAt(rows, folders0, rm, keys, now, i, table, folderTable, toPush, overwrites)
    ensures NoteRemotePassAt(rows, folders0, rm, keys, now, i + 1, table', folderTable', toPush', overwrites')
  {
    var id := keys[i];
    var remoteNote := rm[id];
    VisitedStep(keys, i);
    NotesAfterRemoteStep(rows, rm, Visited(keys, i), id);
    NotePushesRemoteStep(rows, rm, Visited(keys, i), id);
    OverwrittenStep(rows, rm, Visited(keys, i), id);
    assert keys[..i + 1][..i] == keys[..i];
    folderTable' := EnsureReferenced(folderTable, remoteNote, now);
    table', toPush', overwrites' := MergeRemoteNote(rows, table, toPush, overwrites, id, remoteNote);
  }

  /**
   * One remote note against its local row, as `mergeRemoteNotes` branches:
   * inserted when missing, copied over an older row (counted), or queued to
   * push back when the local row is newer; equal times change nothing.
   */
  method MergeRemoteNote(rows: map<int, Note>, table: map<int, Note>, toPush: map<int, Note>, overwrites: nat,
                         id: int, remoteNote: Note)
    returns (table': map<int, Note>, toPush': map<int, Note>, overwrites': nat)
    requires id in rows ==> id in table && table[id] == rows[id]
    ensures table' == table[id := RemoteNoteOutcome(rows, id, remoteNote)]
    ensures toPush' == if id in rows && rows[id].updatedAt > remoteNote.updatedAt then toPush[id := RowToNote(rows[id])] else toPush
    ensures overwrites' == overwrites + if id in rows && remoteNote.updatedAt > rows[id].updatedAt then 1 else 0
  {
    table', toPush', overwrites' := table, toPush, overwrites;
    if id !in rows {
      table' := table[id := InsertedNoteRow(remoteNote)];
    } else if remoteNote.updatedAt > rows[id].updatedAt {
      table' := table[id := UpdatedNoteRow(rows[id], remoteNote)];
      overwrites' := overwrites + 1;
    } else if rows[id].updatedAt > remoteNote.updatedAt {
      toPush' := toPush[id := RowToNote(rows[id])];
    } else {
      assert table == table[id := rows[id]];
    }
  }

  /** The state of `mergeRemoteNotes`' second loop with the local ids `rest` still to visit. */
  predicate NoteLocalPassAt(afterRemote: map<int, Note>, rows: map<int, Note>, rm: map<int, Note>,
                            rest: set<int>, table: map<int, Note>, toPush: map<int, Note>) {
    rest <= rows.Keys
    && table == NotesAfterLocal(afterRemote, rows, rm.Keys, rows.Keys - rest)
    && toPush == NotePushes(rows, rm, rm.Keys, rows.Keys - rest)
  }

  lemma NotesAfterLocalStep(m: map<int, Note>, rows: map<int, Note>, remoteIds: set<int>, done: set<int>, id: int)
    requires id in rows && id !in done
    ensures NotesAfterLocal(m, rows, remoteIds, done + {id}) ==
      if id !in remoteIds && !rows[id].dirty then NotesAfterLocal(m, rows, remoteIds, done) - {id}
      else NotesAfterLocal(m, rows, remoteIds, done)
  {
    var a := NotesAfterLocal(m, rows, remoteIds, done + {id});
    var b := if id !in remoteIds && !rows[id].dirty then NotesAfterLocal(m, rows, remoteIds, done) - {id}
      else NotesAfterLocal(m, rows, remoteIds, done);
    assert a.Keys == b.Keys;
  }

  lemma NotePushesLocalStep(rows: map<int, Note>, rm: map<int, Note>, done: set<int>, id: int)
    requires id in rows && id !in done
    ensures NotePushes(rows, rm, rm.Keys, done + {id}) ==
      if id !in rm && rows[id].dirty then NotePushes(rows, rm, rm.Keys, done)[id := RowToNote(rows[id])]
      else NotePushes(rows, rm, rm.Keys, done)
  {
    var a := NotePushes(rows, rm, rm.Keys, done + {id});
    var b := if id !in rm && rows[id].dirty then NotePushes(rows, rm, rm.Keys, done)[id := RowToNote(rows[id])]
      else NotePushes(rows, rm, rm.Keys, done);
    assert a.Keys == b.Keys;
  }

  /** One local note of `mergeRemoteNotes`: one the remote lacks is queued when dirty, else deleted. */
  method LocalNoteEntry(ghost afterRemote: map<int, Note>, rows: map<int, Note>, rm: map<int, Note>,
                        ghost rest: set<int>, table: map<int, Note>, toPush: map<int, Note>, id: int)
    returns (table': map<int, Note>, toPush': map<int, Note>)
    requires id in rest && NoteLocalPassAt(afterRemote, rows, rm, rest, table, toPush)
    ensures NoteLocalPassAt(afterRemote, rows, rm, rest - {id}, table', toPush')
  {
    assert rows.Keys - (rest - {id}) == (rows.Keys - rest) + {id};
    NotesAfterLocalStep(afterRemote, rows, rm.Keys, rows.Keys - rest, id);
    NotePushesLocalStep(rows, rm, rows.Keys - rest, id);
    table', toPush' := table, toPush;
    if id !in rm {
      if rows[id].dirty {
        toPush' := toPush[id := RowToNote(rows[id])];
      } else {
        table' := table - {id};
      }
    }
  }

  /** The first loop of `mergeRemoteNotes`, over the remote ids in map order. */
  method RemoteNotePass(rows: map<int, Note>, folders: map<int, Folder>, rm: map<int, Note>, keys: seq<int>, now: int)
    returns (table: map<int, Note>, folderTable: map<int, Folder>, toPush: map<int, Note>, overwrites: nat)
    requires DistinctKeys(keys) && (forall j | 0 <= j < |keys| :: keys[j] in rm)
    ensures NoteRemotePassAt(rows, folders, rm, keys, now, |keys|, table, folderTable, toPush, overwrites)
  {
    table, folderTable, toPush, overwrites := rows, folders, map[], 0;
    NoteRemotePassStart(rows, folders, rm, keys, now);
    for i := 0 to |keys|
      invariant NoteRemotePassAt(rows, folders, rm, keys, now, i, table, folderTable, toPush, overwrites)
    {
      table, folderTable, toPush, overwrites := RemoteNoteEntry(rows, folders, rm, keys, now, i, table, folderTable, toPush, overwrites);
    }
  }

  lemma NoteRemotePassStart(rows: map<int, Note>, folders: map<int, Folder>, rm: map<int, Note>, keys: seq<int>, now: int)
    requires forall j | 0 <= j < |keys| :: keys[j] in rm
    ensures NoteRemotePassAt(rows, folders, rm, keys, now, 0, rows, folders, map[], 0)
  {
    assert Visited(keys, 0) == {} && keys[..0] == [];
    assert NotesAfterRemote(rows, rm, {}) == rows && OverwrittenIn(rows, rm, {}) == {};
  }

  /** The second loop of `mergeRemoteNotes`, over the local ids. */
  method LocalNotePass(afterRemote: map<int, Note>, rows: map<int, Note>, rm: map<int, Note>, pushed: map<int, Note>)
    returns (table: map<int, Note>, toPush: map<int, Note>)
    requires pushed == NotePushes(rows, rm, rm.Keys, {})
    ensures NoteLocalPassAt(afterRemote, rows, rm, {}, table, toPush)
  {
    table, toPush := afterRemote, pushed;
    var rest := rows.Keys;
    assert NotesAfterLocal(afterRemote, rows, rm.Keys, {}) == afterRemote;
    while rest != {}
      invariant NoteLocalPassAt(afterRemote, rows, rm, rest, table, toPush)
      decreases rest
    {
      SomeElement(rest);
      var id :| id in rest;
      table, toPush := LocalNoteEntry(afterRemote, rows, rm, rest, table, toPush, id);
      rest := rest - {id};
    }
  }

  /**
   * The loops of `mergeRemoteNotes` run against a snapshot of the note table:
   * the note table and folder table it leaves, the notes to push and the
   * overwrite count.
   */
  method MergeNoteTable(rows: map<int, Note>, folders: map<int, Folder>, remote: seq<Note>, now: int)
    returns (table: map<int, Note>, folderTable: map<int, Folder>, toPush: map<int, Note>, overwrites: nat)
    ensures table == MergedNotes(rows, remote)
    ensures folderTable == WithPlaceholders(folders, AssociateBy(remote, NoteId), KeyOrder(remote, NoteId), now)
    ensures toPush == NotesToPush(rows, remote)
    ensures overwrites == |OverwrittenNotes(rows, remote)|
  {
    var rm := AssociateBy(remote, NoteId);
    var keys := KeyOrder(remote, NoteId);
    var afterRemote, pushed;
    afterRemote, folderTable, pushed, overwrites := RemoteNotePass(rows, folders, rm, keys, now);
    VisitedAll(keys);
    assert Visited(keys, |keys|) == rm.Keys && keys[..|keys|] == keys;
    table, toPush := LocalNotePass(afterRemote, rows, rm, pushed);
    assert rows.Keys - {} == rows.Keys;
  }

  // ----- Pushing -----

  lemma FoldersAfterPushStep(rows: map<int, Folder>, pushed: map<int, Folder>, done: set<int>, id: int)
    requires done <= pushed.Keys && id in pushed && id !in done
    ensures FoldersAfterPush(rows, pushed, done + {id}) ==
      if pushed[id].deleted then FoldersAfterPush(rows, pushed, done) - {id}
      else if id in rows then FoldersAfterPush(rows, pushed, done)[id := rows[id].(dirty := false)]
      else FoldersAfterPush(rows, pushed, done)
  {
    var a := FoldersAfterPush(rows, pushed, done + {id});
    var b := if pushed[id].deleted then FoldersAfterPush(rows, pushed, done) - {id}
      else if id in rows then FoldersAfterPush(rows, pushed, done)[id := rows[id].(dirty := false)]
      else FoldersAfterPush(rows, pushed, done);
    assert a.Keys == b.Keys;
  }

  /**
   * `pushFolders`: a queued tombstone is deleted remotely and then locally,
   * any other queued folder is uploaded and made clean.
   */
  method PushFolders(rows: map<int, Folder>, pushed: map<int, Folder>) returns (table: map<int, Folder>)
    ensures table == FoldersAfterPush(rows, pushed, pushed.Keys)
  {
    table := rows;
    var rest := pushed.Keys;
    assert FoldersAfterPush(rows, pushed, {}) == rows;
    while rest != {}
      invariant rest <= pushed.Keys
      invariant table == FoldersAfterPush(rows, pushed, pushed.Keys - rest)
      decreases rest
    {
      SomeElement(rest);
      var id :| id in rest;
      assert pushed.Keys - (rest - {id}) == (pushed.Keys - rest) + {id};
      FoldersAfterPushStep(rows, pushed, pushed.Keys - rest, id);
      if pushed[id].deleted {
        table := table - {id};
      } else if id in table {
        table := table[id := table[id].(dirty := false)];
      }
      rest := rest - {id};
    }
    assert pushed.Keys - {} == pushed.Keys;
  }

  /** The upload loop over the queued notes: each one's row is made clean. */
  method PushNotes(rows: map<int, Note>, pushed: set<int>) returns (table: map<int, Note>)
    ensures table == ClearNotesDirty(rows, pushed)
  {
    table := rows;
    var rest := pushed;
    assert ClearNotesDirty(rows, {}) == rows;
    while rest != {}
      invariant rest <= pushed
      invariant table == ClearNotesDirty(rows, pushed - rest)
      decreases rest
    {
      SomeElement(rest);
      var id :| id in rest;
      assert pushed - (rest - {id}) == (pushed - rest) + {id};
      assert ClearNotesDirty(rows, (pushed - rest) + {id}) ==
        if id in rows then ClearNotesDirty(rows, pushed - rest)[id := rows[id].(dirty := false)]
        else ClearNotesDirty(rows, pushed - rest);
      if id in table {
        table := table[id := table[id].(dirty := false)];
      }
      rest := rest - {id};
    }
    assert pushed - {} == pushed;
  }

  /** `getAllLocalNotes` and `getAllLocalFolders`. */
  method LocalSnapshot(notes: map<int, Note>, folders: map<int, Folder>) returns (ln: seq<Note>, lf: seq<Folder>)
    ensures ln == LocalNotes(notes) && lf == LocalFolders(folders)
  {
    IntLtStrictTotal();
    var noteIds := SortSet(notes.Keys, IntLt);
    ln := seq(|noteIds|, i requires 0 <= i < |noteIds| => assert noteIds[i] in Elems(noteIds); RowToNote(notes[noteIds[i]]));
    var folderIds := SortSet(folders.Keys, IntLt);
    lf := seq(|folderIds|, i requires 0 <= i < |folderIds| => assert folderIds[i] in Elems(folderIds); folders[folderIds[i]]);
  }

  // ----- Keys stay keyed -----

  lemma NotesAfterRemoteKeyed(rows: map<int, Note>, rm: map<int, Note>, done: set<int>)
    requires NotesKeyed(rows) && done <= rm.Keys && (forall k | k in rm :: rm[k].id == k)
    ensures NotesKeyed(NotesAfterRemote(rows, rm, done))
  {
  }

  lemma FoldersAfterRemoteKeyed(rows: map<int, Folder>, rf: map<int, Folder>, done: set<int>)
    requires FoldersKeyed(rows) && done <= rf.Keys && (forall k | k in rf :: rf[k].id == k)
    ensures FoldersKeyed(FoldersAfterRemote(rows, rf, done))
  {
  }

  /** The note table a merge leaves, the pushed notes made clean. */
  function NoteTableAfterMerge(rows: map<int, Note>, remote: seq<Note>): map<int, Note> {
    ClearNotesDirty(MergedNotes(rows, remote), NotesToPush(rows, remote).Keys)
  }

  /** The folder table a merge leaves: merged, placeholders added for the remote notes, the queued folders pushed. */
  function FolderTableAfterMerge(rows: map<int, Folder>, remoteNotes: seq<Note>, remoteFolders: seq<Folder>, now: int): map<int, Folder> {
    var pushed := FoldersToPush(rows, remoteFolders);
    var placed := WithPlaceholders(MergedFolders(rows, remoteFolders), AssociateBy(remoteNotes, NoteId), KeyOrder(remoteNotes, NoteId), now);
    FoldersAfterPush(placed, pushed, pushed.Keys)
  }

  /** Every note row a merge leaves still sits under its own id. */
  lemma NoteMergeKeepsKeys(notes: map<int, Note>, remoteNotes: seq<Note>)
    requires NotesKeyed(notes)
    ensures NotesKeyed(NoteTableAfterMerge(notes, remoteNotes))
  {
    var rm := AssociateBy(remoteNotes, NoteId);
    NotesAfterRemoteKeyed(notes, rm, rm.Keys);
    var merged := MergedNotes(notes, remoteNotes);
    assert NotesKeyed(merged);
    assert NoteTableAfterMerge(notes, remoteNotes) == ClearNotesDirty(merged, NotesToPush(notes, remoteNotes).Keys);
  }

  /** Every folder row a merge leaves, placeholders included, still sits under its own id. */
  lemma FolderMergeKeepsKeys(folders: map<int, Folder>, remoteNotes: seq<Note>, remoteFolders: seq<Folder>, now: int)
    requires FoldersKeyed(folders)
    ensures FoldersKeyed(FolderTableAfterMerge(folders, remoteNotes, remoteFolders, now))
  {
    var rf := AssociateBy(remoteFolders, FolderId);
    FoldersAfterRemoteKeyed(folders, rf, rf.Keys);
    var m := MergedFolders(folders, remoteFolders);
    assert FoldersKeyed(m);
    var placed := WithPlaceholders(m, AssociateBy(remoteNotes, NoteId), KeyOrder(remoteNotes, NoteId), now);
    PlaceholdersKeyed(m, AssociateBy(remoteNotes, NoteId), KeyOrder(remoteNotes, NoteId), now);
    var pushed := FoldersToPush(folders, remoteFolders);
    assert FolderTableAfterMerge(folders, remoteNotes, remoteFolders, now) == FoldersAfterPush(placed, pushed, pushed.Keys);
  }

  lemma {:induction false} PlaceholdersKeyed(folders: map<int, Folder>, rm: map<int, Note>, ids: seq<int>, now: int)
    requires forall k | 0 <= k < |ids| :: ids[k] in rm
    requires FoldersKeyed(folders)
    ensures FoldersKeyed(WithPlaceholders(folders, rm, ids, now))
    decreases |ids|
  {
    if |ids| > 0 {
      PlaceholdersKeyed(folders, rm, ids[..|ids| - 1], now);
    }
  }

  // ----- The manager -----

  /** Rows sit under their ids and no pending entry is listed twice. */
  predicate TablesKeyed(notes: map<int, Note>, folders: map<int, Folder>,
                        pendingNotes: seq<PendingNoteDeletion>, pendingFolders: seq<int>) {
    NotesKeyed(notes) && FoldersKeyed(folders) && DistinctIds(pendingNotes) && DistinctFolderIds(pendingFolders)
  }

  /** The throttle holds a hash exactly while it is on, and that hash is the one last merged. */
  predicate ThrottleHolds(lastRemoteHash: Option<bv64>, mergingDisabled: bool, storedRemoteHash: Option<bv64>) {
    (mergingDisabled <==> storedRemoteHash.Some?) && (mergingDisabled ==> lastRemoteHash == storedRemoteHash)
  }

  class NotesSyncManager {
    /** The note table, by id. */
    var notes: map<int, Note>
    /** The folder table, by id. */
    var folders: map<int, Folder>
    /** The pending note deletions, in the order the query returns them. */
    var pendingNoteDeletions: seq<PendingNoteDeletion>
    /** The ids of the pending folder deletions, in query order. */
    var pendingFolderDeletions: seq<int>
    var lastRemoteHash: Option<bv64>
    var mergingDisabled: bool
    var storedRemoteHash: Option<bv64>
    /**
     * The hash the manager compares snapshots with, `combinedHash`; the
     * constructor sets it, and the other members rely on nothing more than
     * that it is a function of the two lists.
     */
    const snapshotHash: (seq<Note>, seq<Folder>) -> bv64

    /**
     * Rows sit under their ids, pending entries are keyed, and the throttle
     * holds a hash exactly while it is on, the hash last merged.
     */
    ghost predicate Valid()
      reads this
    {
      TablesKeyed(notes, folders, pendingNoteDeletions, pendingFolderDeletions)
      && ThrottleHolds(lastRemoteHash, mergingDisabled, storedRemoteHash)
    }

    /** A manager over a database with these tables, no hash remembered. */
    constructor (notes: map<int, Note>, folders: map<int, Folder>,
                 pendingNotes: seq<PendingNoteDeletion>, pendingFolders: seq<int>)
      requires NotesKeyed(notes) && FoldersKeyed(folders)
      requires DistinctIds(pendingNotes) && DistinctFolderIds(pendingFolders)
      ensures Valid()
      ensures this.notes == notes && this.folders == folders
      ensures pendingNoteDeletions == pendingNotes && pendingFolderDeletions == pendingFolders
      ensures lastRemoteHash == None && !mergingDisabled && storedRemoteHash == None
      ensures snapshotHash == CombinedHash
    {
      snapshotHash := CombinedHash;
      this.notes := notes;
      this.folders := folders;
      pendingNoteDeletions := pendingNotes;
      pendingFolderDeletions := pendingFolders;
      lastRemoteHash := None;
      mergingDisabled := false;
      storedRemoteHash := None;
    }

    /** `resetMergeThrottle`. */
    method ResetMergeThrottle()
      requires Valid()
      modifies this`mergingDisabled, this`storedRemoteHash
      ensures Valid() && !mergingDisabled && storedRemoteHash == None
    {
      mergingDisabled := false;
      storedRemoteHash := None;
    }

    /**
     * `pushPendingNoteDeletions`: an entry is removed only when the remote
     * delete and then the storage delete both succeed; the result says
     * whether any was.
     */
    method PushPendingNoteDeletions(cloud: Cloud) returns (pushed: bool)
      requires Valid()
      modifies this`pendingNoteDeletions
      ensures Valid()
      ensures pendingNoteDeletions == RemainingNoteDeletions(old(pendingNoteDeletions), cloud)
      ensures pushed <==> exists k :: 0 <= k < |old(pendingNoteDeletions)| && NoteDeletionPushed(cloud, old(pendingNoteDeletions)[k])
    {
      var table;
      table, pushed := RetryNoteDeletions(pendingNoteDeletions, cloud);
      RemainingNoteDeletionsDistinct(pendingNoteDeletions, cloud);
      pendingNoteDeletions := table;
    }

    /**
     * `pushPendingFolderDeletions`: an entry and its folder row go exactly
     * when the remote delete succeeds.
     */
    method PushPendingFolderDeletions(cloud: Cloud) returns (pushed: bool)
      requires Valid()
      modifies this`pendingFolderDeletions, this`folders
      ensures Valid()
      ensures pendingFolderDeletions == RemainingFolderDeletions(old(pendingFolderDeletions), cloud)
      ensures folders == old(folders) - FoldersDeletedRemotely(old(pendingFolderDeletions), cloud)
      ensures pushed <==> FoldersDeletedRemotely(old(pendingFolderDeletions), cloud) != {}
    {
      var table, folderTable;
      table, folderTable, pushed := RetryFolderDeletions(pendingFolderDeletions, cloud, folders);
      RemainingFolderDeletionsDistinct(pendingFolderDeletions, cloud);
      pendingFolderDeletions := table;
      folders := folderTable;
    }

    /**
     * The merging half of `mergeRemoteIntoLocalAndPushLocalNewer`: merge the
     * folders, then the notes, push the queued folders, then the queued notes.
     */
    method ApplyMerge(remoteHash: bv64, remoteNotes: seq<Note>, remoteFolders: seq<Folder>, now: int) returns (outcome: MergeOutcome)
      requires Valid()
      modifies this`notes, this`folders, this`lastRemoteHash, this`mergingDisabled, this`storedRemoteHash
      ensures Valid()
      ensures mergingDisabled && lastRemoteHash == storedRemoteHash == Some(remoteHash)
      ensures notes == NoteTableAfterMerge(old(notes), remoteNotes)
      ensures folders == FolderTableAfterMerge(old(folders), remoteNotes, remoteFolders, now)
      ensures outcome == Merged(|OverwrittenNotes(old(notes), remoteNotes)|,
                                NotesToPush(old(notes), remoteNotes).Keys, FoldersToPush(old(folders), remoteFolders).Keys)
    {
      NoteMergeKeepsKeys(notes, remoteNotes);
      FolderMergeKeepsKeys(folders, remoteNotes, remoteFolders, now);
      var foldersMerged, foldersToPush := MergeFolderTable(folders, remoteFolders);
      var notesMerged, foldersPlaced, notesToPush, overwrites := MergeNoteTable(notes, foldersMerged, remoteNotes, now);
      folders := PushFolders(foldersPlaced, foldersToPush);
      notes := PushNotes(notesMerged, notesToPush.Keys);
      outcome := Merged(overwrites, notesToPush.Keys, foldersToPush.Keys);
      lastRemoteHash := Some(remoteHash);
      mergingDisabled := true;
      storedRemoteHash := Some(remoteHash);
    }

    /** The two retry passes that open a merge: folders first, then notes. */
    method RetryPending(cloud: Cloud) returns (pushedPending: bool)
      requires Valid()
      modifies this`pendingFolderDeletions, this`folders, this`pendingNoteDeletions
      ensures Valid()
      ensures pendingNoteDeletions == RemainingNoteDeletions(old(pendingNoteDeletions), cloud)
      ensures pendingFolderDeletions == RemainingFolderDeletions(old(pendingFolderDeletions), cloud)
      ensures folders == old(folders) - FoldersDeletedRemotely(old(pendingFolderDeletions), cloud)
      ensures pushedPending <==> PendingPushed(old(pendingNoteDeletions), old(pendingFolderDeletions), cloud)
    {
      var pushedFolders := PushPendingFolderDeletions(cloud);
      var pushedNotes := PushPendingNoteDeletions(cloud);
      pushedPending := pushedFolders || pushedNotes;
    }

    /**
     * The rest of a merge once the pending deletions were retried and the
     * remote snapshot hashed: the two early stops on the hash, the throttle,
     * the comparison with the local hash, and the merge itself.
     */
    method MergeSnapshot(pushedPending: bool, remoteHash: bv64, remoteNotes: seq<Note>, remoteFolders: seq<Folder>, now: int)
      returns (outcome: MergeOutcome)
      requires Valid()
      modifies this`notes, this`folders, this`lastRemoteHash, this`mergingDisabled, this`storedRemoteHash
      ensures Valid()
      ensures outcome == SameAsLastRemote <==> !pushedPending && old(lastRemoteHash) == Some(remoteHash)
      ensures outcome == Throttled <==> pushedPending && old(storedRemoteHash) == Some(remoteHash)
      ensures outcome == SameAsLocal <==>
        !pushedPending && old(lastRemoteHash) != Some(remoteHash) && remoteHash == snapshotHash(LocalNotes(old(notes)), LocalFolders(old(folders)))
      ensures !outcome.Merged? ==> notes == old(notes) && folders == old(folders)
      ensures outcome == SameAsLastRemote || outcome == Throttled ==>
        lastRemoteHash == old(lastRemoteHash) && mergingDisabled == old(mergingDisabled)
        && storedRemoteHash == old(storedRemoteHash)
      ensures outcome == SameAsLocal ==> lastRemoteHash == Some(remoteHash) && !mergingDisabled
      ensures outcome.Merged? ==>
        notes == NoteTableAfterMerge(old(notes), remoteNotes)
        && folders == FolderTableAfterMerge(old(folders), remoteNotes, remoteFolders, now)
        && outcome == Merged(|OverwrittenNotes(old(notes), remoteNotes)|,
                             NotesToPush(old(notes), remoteNotes).Keys, FoldersToPush(old(folders), remoteFolders).Keys)
        && mergingDisabled && lastRemoteHash == storedRemoteHash == Some(remoteHash)
    {
      ghost var notes0, folders0 := notes, folders;
      var stop := CheckSnapshot(pushedPending, remoteHash);
      if stop.Some? {
        return stop.value;
      }
      assert notes == notes0 && folders == folders0;
      outcome := ApplyMerge(remoteHash, remoteNotes, remoteFolders, now);
    }

    /**
     * The early stops of a merge: the snapshot hashes as the last one seen
     * and nothing was pushed; the throttle is on with this hash (else it is
     * reset); nothing was pushed and the local tables hash the same, which
     * is remembered. `None` means the merge goes ahead.
     */
    method CheckSnapshot(pushedPending: bool, remoteHash: bv64) returns (stop: Option<MergeOutcome>)
      requires Valid()
      modifies this`lastRemoteHash, this`mergingDisabled, this`storedRemoteHash
      ensures Valid()
      ensures stop == Some(SameAsLastRemote) <==> !pushedPending && old(lastRemoteHash) == Some(remoteHash)
      ensures stop == Some(Throttled) <==> pushedPending && old(storedRemoteHash) == Some(remoteHash)
      ensures stop == Some(SameAsLocal) <==>
        !pushedPending && old(lastRemoteHash) != Some(remoteHash) && remoteHash == snapshotHash(LocalNotes(notes), LocalFolders(folders))
      ensures stop.Some? ==> !stop.value.Merged?
      ensures stop == Some(SameAsLastRemote) || stop == Some(Throttled) ==>
        lastRemoteHash == old(lastRemoteHash) && mergingDisabled == old(mergingDisabled)
        && storedRemoteHash == old(storedRemoteHash)
      ensures stop == Some(SameAsLocal) ==> lastRemoteHash == Some(remoteHash) && !mergingDisabled
      ensures stop.None? ==> lastRemoteHash == old(lastRemoteHash) && !mergingDisabled
    {
      if !pushedPending && lastRemoteHash == Some(remoteHash) {
        return Some(SameAsLastRemote);
      }
      if mergingDisabled {
        if storedRemoteHash == Some(remoteHash) {
          return Some(Throttled);
        }
        ResetMergeThrottle();
      }
      var localNotes, localFolders := LocalSnapshot(notes, folders);
      var localHash := snapshotHash(localNotes, localFolders);
      if !pushedPending && remoteHash == localHash {
        lastRemoteHash := Some(remoteHash);
        return Some(SameAsLocal);
      }
      return None;
    }

    /**
     * `mergeRemoteIntoLocalAndPushLocalNewer`: retry the pending deletions;
     * stop when nothing was pushed and the remote snapshot hashes as the last
     * one seen, or while the throttle holds this hash, or when nothing was
     * pushed and the local tables hash the same (remembering the hash); else
     * merge folders, then notes, push what they queued, and turn the throttle
     * on with this hash.
     */
    method MergeRemoteIntoLocal(cloud: Cloud, remoteNotes: seq<Note>, remoteFolders: seq<Folder>) returns (outcome: MergeOutcome)
      requires Valid()
      modifies this
      ensures Valid()
      ensures pendingNoteDeletions == RemainingNoteDeletions(old(pendingNoteDeletions), cloud)
      ensures pendingFolderDeletions == RemainingFolderDeletions(old(pendingFolderDeletions), cloud)
      ensures outcome == SameAsLastRemote <==>
        !PendingPushed(old(pendingNoteDeletions), old(pendingFolderDeletions), cloud)
        && old(lastRemoteHash) == Some(snapshotHash(remoteNotes, remoteFolders))
      ensures outcome == Throttled <==>
        PendingPushed(old(pendingNoteDeletions), old(pendingFolderDeletions), cloud)
        && old(storedRemoteHash) == Some(snapshotHash(remoteNotes, remoteFolders))
      ensures outcome == SameAsLocal <==>
        !PendingPushed(old(pendingNoteDeletions), old(pendingFolderDeletions), cloud)
        && old(lastRemoteHash) != Some(snapshotHash(remoteNotes, remoteFolders))
        && snapshotHash(remoteNotes, remoteFolders)
           == snapshotHash(LocalNotes(old(notes)), LocalFolders(old(folders) - FoldersDeletedRemotely(old(pendingFolderDeletions), cloud)))
      ensures !outcome.Merged? ==>
        notes == old(notes) && folders == old(folders) - FoldersDeletedRemotely(old(pendingFolderDeletions), cloud)
      ensures outcome == SameAsLastRemote || outcome == Throttled ==>
        lastRemoteHash == old(lastRemoteHash) && mergingDisabled == old(mergingDisabled)
        && storedRemoteHash == old(storedRemoteHash)
      ensures outcome == SameAsLocal ==>
        lastRemoteHash == Some(snapshotHash(remoteNotes, remoteFolders)) && !mergingDisabled
      ensures outcome.Merged? ==>
        var f1 := old(folders) - FoldersDeletedRemotely(old(pendingFolderDeletions), cloud);
        notes == NoteTableAfterMerge(old(notes), remoteNotes)
        && folders == FolderTableAfterMerge(f1, remoteNotes, remoteFolders, cloud.now)
        && outcome == Merged(|OverwrittenNotes(old(notes), remoteNotes)|,
                             NotesToPush(old(notes), remoteNotes).Keys, FoldersToPush(f1, remoteFolders).Keys)
        && mergingDisabled && lastRemoteHash == storedRemoteHash == Some(snapshotHash(remoteNotes, remoteFolders))
    {
      var pushedPending := RetryPending(cloud);
      var remoteHash := snapshotHash(remoteNotes, remoteFolders);
      outcome := MergeSnapshot(pushedPending, remoteHash, remoteNotes, remoteFolders, cloud.now);
    }
  }
}
