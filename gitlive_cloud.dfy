/**
 * The timestamp side of writing notes and folders to Firestore: epoch
 * milliseconds become a (seconds, nanoseconds) timestamp, and some fields
 * ask the server to stamp its own time instead.
 */
module GitLiveCloud {
  import opened Wrappers
  import opened Kotlin
  import opened NoteModel
  import opened FirestoreDocuments

  /** The earliest and latest seconds a Firestore timestamp may hold: 0001-01-01T00:00:00Z and 9999-12-31T23:59:59Z. */
  const MIN_SECONDS := -62_135_596_800
  const MAX_SECONDS := 253_402_300_799

  /** The range the SDK's `Timestamp(seconds, nanoseconds)` constructor accepts. */
  predicate TimestampAccepted(seconds: int, nanoseconds: int) {
    MIN_SECONDS <= seconds <= MAX_SECONDS && 0 <= nanoseconds <= 999_999_999
  }

  /**
   * `Long.toFirestoreTimestamp()`: truncating `/` and `%`, `toInt()` of the
   * nanoseconds, then the SDK's `Timestamp` constructor, which throws (`None`)
   * outside the accepted range.
   */
  function ToFirestoreTimestamp(ms: int): (t: Option<Timestamp>)
    ensures t.Some? <==> TimestampAccepted(KDiv(ms, 1000), KMod(ms, 1000) * 1_000_000)
    ensures t.Some? ==> t.value.seconds == KDiv(ms, 1000) && t.value.nanoseconds == KMod(ms, 1000) * 1_000_000
  {
    var seconds := KDiv(ms, 1000);
    var nanoseconds := WrapInt(KMod(ms, 1000) * 1_000_000);
    if TimestampAccepted(seconds, nanoseconds) then Some(Timestamp(seconds, nanoseconds)) else None
  }

  /**
   * The conversion succeeds exactly for times in years 1 to 9999 that are
   * not before the epoch or are whole seconds; a time before the epoch with
   * a fraction of a second gets negative nanoseconds, which the constructor
   * rejects. Accepted nanoseconds are whole milliseconds.
   */
  lemma ToFirestoreTimestampAccepts(ms: int)
    ensures ToFirestoreTimestamp(ms).Some? <==>
      (ms >= 0 || KMod(ms, 1000) == 0) && MIN_SECONDS <= KDiv(ms, 1000) <= MAX_SECONDS
    ensures ToFirestoreTimestamp(ms).Some? ==>
      0 <= ToFirestoreTimestamp(ms).value.nanoseconds <= 999_000_000
      && ToFirestoreTimestamp(ms).value.nanoseconds % 1_000_000 == 0
  {
    var r := KMod(ms, 1000);
    assert (r * 1_000_000) % 1_000_000 == 0;
    if ms < 0 && r != 0 {
      assert r < 0;
    }
  }

  /** A time one millisecond before the epoch is rejected by the constructor. */
  lemma JustBeforeEpochRejected()
    ensures ToFirestoreTimestamp(-1) == None
  {
    assert KMod(-1, 1000) == -1;
  }

  /** Truncating division undoes multiplication by a million. */
  lemma KDivOfMultiple(r: int)
    ensures KDiv(r * 1_000_000, 1_000_000) == r
  {
    assert Abs(r * 1_000_000) == Abs(r) * 1_000_000;
    assert Abs(r) * 1_000_000 / 1_000_000 == Abs(r);
  }

  /** Reading a written timestamp back gives the same milliseconds, whenever the constructor accepts it. */
  lemma TimestampRoundTrip(ms: int)
    requires InLong(ms)
    ensures ToFirestoreTimestamp(ms).Some? ==> ToMillis(ToFirestoreTimestamp(ms)) == Some(ms)
  {
    var t := ToFirestoreTimestamp(ms);
    if t.Some? {
      KDivOfMultiple(KMod(ms, 1000));
      assert t.value.seconds * 1000 + KDiv(t.value.nanoseconds, 1_000_000) == ms;
    }
  }

  /** A field value: the server-timestamp marker, or a client-side timestamp. */
  datatype FieldTimestamp = ServerTimestamp | ClientTimestamp(ts: Timestamp)

  /**
   * `if (createdAt == 0L) FieldValue.serverTimestamp else createdAt.toFirestoreTimestamp()`;
   * `None` when the conversion throws.
   */
  function CreatedAtField(createdAt: int): (f: Option<FieldTimestamp>)
    ensures f.Some? && f.value.ServerTimestamp? <==> createdAt == 0
    ensures createdAt != 0 ==> (f.Some? <==> ToFirestoreTimestamp(createdAt).Some?)
    ensures createdAt != 0 && f.Some? ==> f.value == ClientTimestamp(ToFirestoreTimestamp(createdAt).value)
  {
    if createdAt == 0 then Some(ServerTimestamp)
    else match ToFirestoreTimestamp(createdAt)
      case None => None
      case Some(ts) => Some(ClientTimestamp(ts))
  }

  /**
   * The timestamp fields of `Note.toFirestoreData(useServerUpdatedAt)`, as
   * (createdAt, updatedAt); `None` when either conversion throws.
   */
  function NoteTimestampFields(n: Note, useServerUpdatedAt: bool): (r: Option<(FieldTimestamp, FieldTimestamp)>)
    ensures r.Some? <==> CreatedAtField(n.createdAt).Some? && (useServerUpdatedAt || ToFirestoreTimestamp(n.updatedAt).Some?)
    ensures r.Some? ==> r.value.0 == CreatedAtField(n.createdAt).value
    ensures r.Some? ==> (r.value.1.ServerTimestamp? <==> useServerUpdatedAt)
    ensures r.Some? && !useServerUpdatedAt ==> r.value.1 == ClientTimestamp(ToFirestoreTimestamp(n.updatedAt).value)
  {
    var created := CreatedAtField(n.createdAt);
    var updated := if useServerUpdatedAt then Some(ServerTimestamp)
      else match ToFirestoreTimestamp(n.updatedAt)
        case None => None
        case Some(ts) => Some(ClientTimestamp(ts));
    if created.Some? && updated.Some? then Some((created.value, updated.value)) else None
  }

  /** The timestamp fields of `Folder.toFirestoreData()`: the server always stamps `updatedAt`. */
  function FolderTimestampFields(f: Folder): (r: Option<(FieldTimestamp, FieldTimestamp)>)
    ensures r.Some? <==> CreatedAtField(f.createdAt).Some?
    ensures r.Some? ==> r.value == (CreatedAtField(f.createdAt).value, ServerTimestamp)
  {
    match CreatedAtField(f.createdAt)
    case None => None
    case Some(created) => Some((created, ServerTimestamp))
  }

  /** What a client-side field reads back as; a server-stamped field holds the server's time. */
  function ReadBack(f: FieldTimestamp, serverTime: Timestamp): Timestamp {
    match f
    case ServerTimestamp => serverTime
    case ClientTimestamp(ts) => ts
  }

  /**
   * A note written without the server's update time, when the write does not
   * throw, reads back with its update time, and with its creation time when
   * that is set; an unset creation time becomes the server's. Times from the
   * epoch on within year 9999 are always written.
   */
  lemma NoteTimestampsRoundTrip(n: Note, serverTime: Timestamp)
    requires InLong(n.createdAt) && InLong(n.updatedAt)
    ensures 0 <= n.createdAt <= MAX_SECONDS * 1000 && 0 <= n.updatedAt <= MAX_SECONDS * 1000 ==>
      NoteTimestampFields(n, false).Some?
    ensures var fields := NoteTimestampFields(n, false);
      fields.Some? ==>
      && ToMillis(Some(ReadBack(fields.value.1, serverTime))) == Some(n.updatedAt)
      && (n.createdAt != 0 ==> ToMillis(Some(ReadBack(fields.value.0, serverTime))) == Some(n.createdAt))
      && (n.createdAt == 0 ==> ReadBack(fields.value.0, serverTime) == serverTime)
  {
    ToFirestoreTimestampAccepts(n.createdAt);
    ToFirestoreTimestampAccepts(n.updatedAt);
    TimestampRoundTrip(n.updatedAt);
    TimestampRoundTrip(n.createdAt);
  }
}
