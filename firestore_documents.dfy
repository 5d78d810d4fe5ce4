/**
 * Reading notes and folders back from Firestore documents: timestamps become
 * epoch milliseconds, and missing document fields take their defaults. The
 * JSON decoding of a document's content, spans and attachments happens
 * outside this model: a document here carries the decoded values.
 */
module FirestoreDocuments {
  import opened Wrappers
  import opened Kotlin
  import opened NoteModel
  import opened NoteContentSummary

  /** A Firestore timestamp: `seconds` is a `Long`, `nanoseconds` an `Int`. */
  datatype Timestamp = Timestamp(seconds: int, nanoseconds: int)

  /** `Timestamp?.toMillis()`: `seconds * 1000 + nanoseconds / 1_000_000` in `Long` arithmetic. */
  function ToMillis(t: Option<Timestamp>): (r: Option<int>)
    ensures r.None? <==> t.None?
    ensures r.Some? ==> InLong(r.value)
    ensures t.Some? && InLong(t.value.seconds * 1000 + KDiv(t.value.nanoseconds, 1_000_000)) ==>
      r.value == t.value.seconds * 1000 + KDiv(t.value.nanoseconds, 1_000_000)
  {
    match t
    case None => None
    case Some(ts) => Some(WrapLong(ts.seconds * 1000 + KDiv(ts.nanoseconds, 1_000_000)))
  }

  /**
   * A `Double`: a finite value, taken as the exact real number it denotes,
   * NaN, or one of the two infinities.
   */
  datatype Double = Finite(value: real) | NaN | PositiveInfinity | NegativeInfinity

  /** `x` rounded toward zero. */
  function TruncateReal(x: real): int {
    if x >= 0.0 then x.Floor else -((-x).Floor)
  }

  /**
   * `Double.toLong()`: a finite value rounded toward zero, saturating at the
   * `Long` bounds; an infinity gives the bound of its sign and NaN gives 0.
   */
  function DoubleToLong(d: Double): (r: int)
    ensures InLong(r)
    ensures d.NaN? ==> r == 0
    ensures d.PositiveInfinity? ==> r == LONG_MAX
    ensures d.NegativeInfinity? ==> r == LONG_MIN
    ensures d.Finite? && 0.0 <= d.value < LONG_MAX as real + 1.0 ==> r as real <= d.value < r as real + 1.0
    ensures d.Finite? && LONG_MIN as real - 1.0 < d.value <= 0.0 ==> r as real - 1.0 < d.value <= r as real
    ensures d.Finite? && d.value >= LONG_MAX as real + 1.0 ==> r == LONG_MAX
    ensures d.Finite? && d.value <= LONG_MIN as real - 1.0 ==> r == LONG_MIN
  {
    match d
    case NaN => 0
    case PositiveInfinity => LONG_MAX
    case NegativeInfinity => LONG_MIN
    case Finite(x) => Max(LONG_MIN, Min(LONG_MAX, TruncateReal(x)))
  }

  /** The dynamically typed values a raw document field can hold. */
  datatype AnyValue =
    | IntegerNumber(n: int)
    | FloatingNumber(d: Double)
    | TimestampValue(ts: Timestamp)
    | OtherValue

  /**
   * `Any?.toMillis()`: a number as a `Long` (an integer wraps, a floating
   * number is truncated as `toLong()` does), a timestamp converted, anything
   * else null.
   */
  function AnyToMillis(v: Option<AnyValue>): (r: Option<int>)
    ensures r.Some? <==> v.Some? && !v.value.OtherValue?
    ensures r.Some? ==> InLong(r.value)
    ensures v.Some? && v.value.IntegerNumber? ==> r == Some(WrapLong(v.value.n))
    ensures v.Some? && v.value.FloatingNumber? ==> r == Some(DoubleToLong(v.value.d))
    ensures v.Some? && v.value.TimestampValue? ==> r == ToMillis(Some(v.value.ts))
  {
    match v
    case Some(IntegerNumber(n)) => Some(WrapLong(n))
    case Some(FloatingNumber(d)) => Some(DoubleToLong(d))
    case Some(TimestampValue(ts)) => ToMillis(Some(ts))
    case _ => None
  }

  /**
   * A time stored as a whole number of milliseconds reads back the same
   * whether the field holds it as an integer or as a `Double`.
   */
  lemma WholeMillisReadAlike(millis: int)
    requires InLong(millis)
    ensures AnyToMillis(Some(FloatingNumber(Finite(millis as real)))) == Some(millis)
    ensures AnyToMillis(Some(IntegerNumber(millis))) == Some(millis)
  {
    var r := DoubleToLong(Finite(millis as real));
    var diff := r - millis;
    assert diff as real == r as real - millis as real;
    if millis >= 0 {
      assert millis as real < LONG_MAX as real + 1.0;
      assert -1.0 < diff as real <= 0.0;
    } else {
      assert LONG_MIN as real - 1.0 < millis as real;
      assert 0.0 <= diff as real < 1.0;
    }
    assert diff == 0;
  }

  /** A note document with every field optional; content, spans and attachments already decoded. */
  datatype NoteDoc = NoteDoc(
    id: Option<int>,
    stableId: Option<string>,
    title: string,
    description: string,
    descriptionSpans: seq<NoteTextSpan>,
    attachments: seq<NoteAttachment>,
    content: NoteContent,
    deleted: Option<bool>,
    createdAt: Option<Timestamp>,
    updatedAt: Option<Timestamp>,
    folderId: Option<int>)

  datatype FolderDoc = FolderDoc(
    id: Option<int>,
    name: string,
    createdAt: Option<Timestamp>,
    updatedAt: Option<Timestamp>)

  /** `id ?: fallbackId.toIntOrNull() ?: -1`. */
  function ResolvedNoteId(id: Option<int>, fallbackId: string): (r: int)
    ensures id.Some? ==> r == id.value
    ensures id.None? && ToIntOrNull(fallbackId).Some? ==> r == ToIntOrNull(fallbackId).value
    ensures id.None? && ToIntOrNull(fallbackId).None? ==> r == -1
  {
    if id.Some? then id.value else ToIntOrNull(fallbackId).OrElse(-1)
  }

  /** `stableId?.takeIf { it.isNotBlank() } ?: fallbackId`. */
  function ResolvedStableId(stableId: Option<string>, fallbackId: string): (r: string)
    ensures stableId.Some? && !IsBlank(stableId.value) ==> r == stableId.value
    ensures stableId.None? || IsBlank(stableId.value) ==> r == fallbackId
  {
    if stableId.Some? && !IsBlank(stableId.value) then stableId.value else fallbackId
  }

  /**
   * `NoteDoc.toDomainNote(fallbackId)`. A fresh `Note` is neither dirty nor
   * locally updated.
   */
  function ToDomainNote(doc: NoteDoc, fallbackId: string): (n: Note)
    ensures n.id == ResolvedNoteId(doc.id, fallbackId)
    ensures n.stableId == ResolvedStableId(doc.stableId, fallbackId)
    ensures n.deleted == (doc.deleted == Some(true))
    ensures n.createdAt == ToMillis(doc.createdAt).OrElse(0)
    ensures n.updatedAt == ToMillis(doc.updatedAt).OrElse(0)
    ensures doc.createdAt.None? ==> n.createdAt == 0
    ensures doc.updatedAt.None? ==> n.updatedAt == 0
    ensures n.title == doc.title && n.content == doc.content && n.folderId == doc.folderId
    ensures !n.dirty && n.localUpdatedAt == 0
  {
    var summary := WithFallbacks(ToSummary(doc.content), doc.description, doc.descriptionSpans, doc.attachments);
    Note(
      id := ResolvedNoteId(doc.id, fallbackId),
      stableId := ResolvedStableId(doc.stableId, fallbackId),
      title := doc.title,
      description := summary.description,
      descriptionSpans := summary.spans,
      attachments := summary.attachments,
      content := doc.content,
      deleted := doc.deleted.OrElse(false),
      createdAt := ToMillis(doc.createdAt).OrElse(0),
      updatedAt := ToMillis(doc.updatedAt).OrElse(0),
      dirty := false,
      localUpdatedAt := 0,
      folderId := doc.folderId)
  }

  /** `FolderDoc.toDomainFolder(fallbackId)`: null when no id can be found. */
  function ToDomainFolder(doc: FolderDoc, fallbackId: string): (r: Option<Folder>)
    ensures r.None? <==> doc.id.None? && ToLongOrNull(fallbackId).None?
    ensures r.Some? ==> r.value.id == (if doc.id.Some? then doc.id.value else ToLongOrNull(fallbackId).value)
    ensures r.Some? ==> (r.value.name == doc.name
      && r.value.createdAt == ToMillis(doc.createdAt).OrElse(0)
      && r.value.updatedAt == ToMillis(doc.updatedAt).OrElse(0)
      && !r.value.deleted && !r.value.dirty)
  {
    var resolved := if doc.id.Some? then doc.id else ToLongOrNull(fallbackId);
    match resolved
    case None => None
    case Some(id) =>
      Some(Folder(id, doc.name, ToMillis(doc.createdAt).OrElse(0), ToMillis(doc.updatedAt).OrElse(0), false, false, 0))
  }

  /** The summary of a decoded note is the same one `withSummaryFromContent` computes. */
  lemma DomainNoteSummaryIsFresh(doc: NoteDoc, fallbackId: string)
    ensures var n := ToDomainNote(doc, fallbackId);
      WithSummaryFromContent(n.(description := doc.description, descriptionSpans := doc.descriptionSpans,
        attachments := doc.attachments)) == n
  {
  }

  /** A document id that is the decimal text of a note id resolves to that id. */
  lemma FallbackIdParsed(doc: NoteDoc, id: int)
    requires doc.id.None? && InInt(id)
    ensures ToDomainNote(doc, DecimalString(id)).id == id
  {
    ParseDecimalString(id);
  }
}
