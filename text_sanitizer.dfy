/**
 * Cleaning user input before it is stored or shown: the text is trimmed,
 * control characters are dropped, markup characters are replaced by
 * look-alikes, whitespace is folded into single spaces, and the result is cut
 * to a maximum length. `modified` tells the caller whether anything changed.
 */
module TextSanitizer {
  import opened Wrappers
  import opened Kotlin
  import opened NoteModel

  datatype SanitizedText = SanitizedText(value: string, modified: bool)

  datatype SanitizedNoteContent = SanitizedNoteContent(value: NoteContent, modified: bool)

  /**
   * When the length limit is reached: `FlagAtLimit` marks the text as modified
   * whether or not anything was cut off (the code as written);
   * `FlagChangesOnly` leaves the decision to the final comparison, so that
   * only a real change is reported.
   */
  datatype FlagRule = FlagAtLimit | FlagChangesOnly

  /** The parameters of one sanitizing pass. */
  datatype Mode = Mode(maxLength: nat, allowNewLines: bool, rule: FlagRule)

  /** The five characters that are replaced by look-alikes. */
  predicate IsMarkup(c: char) {
    c == '<' || c == '>' || c == '"' || c == '\'' || c == '&'
  }

  /** The look-alike of a markup character; every other character is kept. */
  function Escape(c: char): (e: char)
    ensures IsMarkup(c) ==> !IsMarkup(e) && !IsISOControl(e) && !IsWhitespace(e) && e != c
    ensures !IsMarkup(c) ==> e == c
  {
    if c == '<' then '\U{2039}'
    else if c == '>' then '\U{203A}'
    else if c == '"' then '\U{FF02}'
    else if c == '\'' then '\U{02BC}'
    else if c == '&' then '\U{FF06}'
    else c
  }

  /**
   * The character loop of `sanitizeText` from position `i` of the trimmed text
   * `t`, with the builder `out` and the flags `previousWasSpace` and
   * `modified`; it yields the final builder and flag.
   */
  function Scan(t: string, i: nat, out: string, previousWasSpace: bool, modified: bool, m: Mode): (string, bool)
    requires i <= |t|
    decreases |t| - i
  {
    if i == |t| then (out, modified)
    else
      var c := t[i];
      if IsISOControl(c) && c != '\n' && c != '\t' then Scan(t, i + 1, out, previousWasSpace, true, m)
      else
        var e := Escape(c);
        var flagged := modified || IsMarkup(c);
        if e == '\n' && !m.allowNewLines then Scan(t, i + 1, out, previousWasSpace, true, m)
        else
          var s := if IsWhitespace(e) && e != '\n' then ' ' else e;
          if s == ' ' && previousWasSpace then Scan(t, i + 1, out, previousWasSpace, true, m)
          else
            var appended := out + [s];
            if |appended| >= m.maxLength then
              (if |appended| > m.maxLength then appended[..m.maxLength] else appended,
               flagged || m.rule == FlagAtLimit)
            else Scan(t, i + 1, appended, s == ' ', flagged, m)
  }

  /** `sanitizeText(rawInput, maxLength, allowNewLines)`. */
  function SanitizeText(raw: string, m: Mode): SanitizedText {
    var trimmed := Trim(raw);
    var scanned := Scan(trimmed, 0, "", false, trimmed != raw, m);
    var result := Trim(scanned.0);
    SanitizedText(result, scanned.1 || result != trimmed)
  }

  /** The loop of `sanitizeText`, with its `continue`s and its `break`. */
  method SanitizeTextLoop(raw: string, maxLength: int, allowNewLines: bool, rule: FlagRule) returns (r: SanitizedText)
    requires maxLength >= 0
    ensures r == SanitizeText(raw, Mode(maxLength, allowNewLines, rule))
  {
    var m := Mode(maxLength, allowNewLines, rule);
    var modified := false;
    var trimmed := Trim(raw);
    if trimmed != raw { modified := true; }
    var builder := "";
    var previousWasSpace := false;
    for i := 0 to |trimmed|
      invariant Scan(trimmed, i, builder, previousWasSpace, modified, m) == Scan(trimmed, 0, "", false, trimmed != raw, m)
    {
      var c := trimmed[i];
      if IsISOControl(c) && c != '\n' && c != '\t' {
        modified := true;
        continue;
      }
      var sanitized := Escape(c);
      if IsMarkup(c) { modified := true; }
      if sanitized == '\n' && !allowNewLines {
        modified := true;
        continue;
      }
      if IsWhitespace(sanitized) && sanitized != '\n' {
        sanitized := ' ';
      }
      if sanitized == ' ' {
        if previousWasSpace {
          modified := true;
          continue;
        }
        previousWasSpace := true;
      } else {
        previousWasSpace := false;
      }
      builder := builder + [sanitized];
      if |builder| >= maxLength {
        if |builder| > maxLength { builder := builder[..maxLength]; }
        if rule == FlagAtLimit { modified := true; }
        assert (builder, modified) == Scan(trimmed, 0, "", false, trimmed != raw, m);
        break;
      }
    }
    var result := Trim(builder);
    r := SanitizedText(result, modified || result != trimmed);
  }

  // ----- What the output looks like -----

  /**
   * A character the sanitizer can emit: no markup, no control character but
   * a permitted newline, and no whitespace other than a plain space or newline.
   */
  predicate CleanChar(c: char, allowNewLines: bool) {
    && !IsMarkup(c)
    && (c == '\n' || (!IsISOControl(c) && (IsWhitespace(c) ==> c == ' ')))
    && (c == '\n' ==> allowNewLines)
  }

  predicate Clean(s: string, allowNewLines: bool) {
    forall k :: 0 <= k < |s| ==> CleanChar(s[k], allowNewLines)
  }

  /** No two spaces in a row. */
  predicate NoDoubleSpace(s: string) {
    forall k :: 0 < k < |s| ==> s[k] != ' ' || s[k - 1] != ' '
  }

  /** What the loop keeps true of its builder, and that `modified` is never reset. */
  lemma {:induction false} ScanOutput(t: string, i: nat, out: string, previousWasSpace: bool, modified: bool, m: Mode)
    requires i <= |t|
    requires |out| <= m.maxLength && Clean(out, m.allowNewLines) && NoDoubleSpace(out)
    requires previousWasSpace == (|out| > 0 && out[|out| - 1] == ' ')
    ensures var r := Scan(t, i, out, previousWasSpace, modified, m);
      && |r.0| <= m.maxLength && Clean(r.0, m.allowNewLines) && NoDoubleSpace(r.0)
      && (modified ==> r.1)
    decreases |t| - i
  {
    if i < |t| {
      var c := t[i];
      if IsISOControl(c) && c != '\n' && c != '\t' {
        ScanOutput(t, i + 1, out, previousWasSpace, true, m);
      } else {
        var e := Escape(c);
        var flagged := modified || IsMarkup(c);
        if e == '\n' && !m.allowNewLines {
          ScanOutput(t, i + 1, out, previousWasSpace, true, m);
        } else {
          var s := if IsWhitespace(e) && e != '\n' then ' ' else e;
          if s == ' ' && previousWasSpace {
            ScanOutput(t, i + 1, out, previousWasSpace, true, m);
          } else {
            var appended := out + [s];
            assert CleanChar(s, m.allowNewLines);
            assert Clean(appended, m.allowNewLines) by {
              forall k | 0 <= k < |appended| ensures CleanChar(appended[k], m.allowNewLines) {
                if k < |out| { assert appended[k] == out[k]; }
              }
            }
            assert NoDoubleSpace(appended) by {
              forall k | 0 < k < |appended| ensures appended[k] != ' ' || appended[k - 1] != ' ' {
                if k < |out| { assert appended[k] == out[k] && appended[k - 1] == out[k - 1]; }
              }
            }
            if |appended| < m.maxLength {
              ScanOutput(t, i + 1, appended, s == ' ', flagged, m);
            } else if |appended| > m.maxLength {
              assert appended[..m.maxLength] == out;
            }
          }
        }
      }
    }
  }

  /** A slice of a clean text with no double spaces is again such a text. */
  lemma SliceKeepsClean(s: string, i: nat, j: nat, allowNewLines: bool)
    requires i <= j <= |s| && Clean(s, allowNewLines) && NoDoubleSpace(s)
    ensures Clean(s[i..j], allowNewLines) && NoDoubleSpace(s[i..j])
  {
    assert forall k :: 0 <= k < j - i ==> s[i..j][k] == s[i + k];
  }

  /** `trim()` keeps a prefix-free slice: it is never longer, and unchanged when as long. */
  lemma TrimSlice(s: string) returns (i: nat, j: nat)
    ensures i <= j <= |s| && Trim(s) == s[i..j]
  {
    TrimSpec(s);
    i, j :| 0 <= i <= j <= |s| && Trim(s) == s[i..j] && IsBlank(s[..i]) && IsBlank(s[j..]);
  }

  /**
   * The sanitized value is at most `maxLength` long, clean, free of double
   * spaces and of whitespace at either end; an unmodified result is the
   * input itself, and a value that differs from the input is always reported.
   */
  lemma SanitizeTextProperties(raw: string, m: Mode)
    ensures var r := SanitizeText(raw, m);
      && |r.value| <= m.maxLength
      && Clean(r.value, m.allowNewLines)
      && NoDoubleSpace(r.value)
      && Trimmed(r.value)
      && (!r.modified ==> r.value == raw && r.value == Trim(raw))
      && (r.value != raw ==> r.modified)
  {
    var trimmed := Trim(raw);
    var scanned := Scan(trimmed, 0, "", false, trimmed != raw, m);
    ScanOutput(trimmed, 0, "", false, trimmed != raw, m);
    var i, j := TrimSlice(scanned.0);
    SliceKeepsClean(scanned.0, i, j, m.allowNewLines);
    TrimSpec(scanned.0);
  }

  /** The loop never emits fewer differences than it flags; see `SanitizeTextReportsChanges`. */
  predicate Drifted(out: string, t: string, i: nat) {
    |out| < i || exists k :: 0 <= k < |out| && k < |t| && out[k] != t[k]
  }

  /**
   * Under `FlagChangesOnly`, every flag the loop raises is backed by a dropped
   * or a replaced character, unless the flag came in already set by `base`.
   */
  lemma {:induction false} ScanFlagsChanges(t: string, i: nat, out: string, previousWasSpace: bool, modified: bool, m: Mode, base: bool)
    requires m.rule == FlagChangesOnly
    requires i <= |t| && |out| <= i
    requires modified ==> base || Drifted(out, t, i)
    ensures var r := Scan(t, i, out, previousWasSpace, modified, m);
      && |r.0| <= |t|
      && (r.1 ==> base || Drifted(r.0, t, |t|))
    decreases |t| - i
  {
    if i < |t| {
      var c := t[i];
      if IsISOControl(c) && c != '\n' && c != '\t' {
        ScanFlagsChanges(t, i + 1, out, previousWasSpace, true, m, base);
      } else {
        var e := Escape(c);
        var flagged := modified || IsMarkup(c);
        if e == '\n' && !m.allowNewLines {
          ScanFlagsChanges(t, i + 1, out, previousWasSpace, true, m, base);
        } else {
          var s := if IsWhitespace(e) && e != '\n' then ' ' else e;
          if s == ' ' && previousWasSpace {
            ScanFlagsChanges(t, i + 1, out, previousWasSpace, true, m, base);
          } else {
            var appended := out + [s];
            assert flagged ==> base || Drifted(appended, t, i + 1) by {
              if modified && !base && |out| >= i {
                var k :| 0 <= k < |out| && k < |t| && out[k] != t[k];
                assert appended[k] == out[k];
              }
              if IsMarkup(c) && |out| == i {
                assert appended[i] == s && s != t[i];
              }
            }
            if |appended| < m.maxLength {
              ScanFlagsChanges(t, i + 1, appended, s == ' ', flagged, m, base);
            } else {
              var r := if |appended| > m.maxLength then appended[..m.maxLength] else appended;
              if |appended| > m.maxLength {
                assert |r| < |t|;
              } else {
                assert r == appended;
              }
            }
          }
        }
      }
    }
  }

  /**
   * With the corrected flag, `modified` holds exactly when the value differs
   * from the raw input.
   */
  lemma SanitizeTextReportsChanges(raw: string, maxLength: nat, allowNewLines: bool)
    ensures var r := SanitizeText(raw, Mode(maxLength, allowNewLines, FlagChangesOnly));
      r.modified <==> r.value != raw
  {
    var m := Mode(maxLength, allowNewLines, FlagChangesOnly);
    var trimmed := Trim(raw);
    var base := trimmed != raw;
    var scanned := Scan(trimmed, 0, "", false, base, m);
    var result := Trim(scanned.0);
    SanitizeTextProperties(raw, m);
    ScanFlagsChanges(trimmed, 0, "", false, base, m, base);
    var a, b := TrimSlice(raw);
    var i, j := TrimSlice(scanned.0);
    if base {
      assert |trimmed| < |raw|;
      assert |result| < |raw|;
    } else if scanned.1 {
      if |result| == |trimmed| {
        assert result == scanned.0;
        var k :| 0 <= k < |scanned.0| && k < |trimmed| && scanned.0[k] != trimmed[k];
        assert result[k] != raw[k];
      }
    }
  }

  /**
   * The code as written reports a change for a clean text exactly as long as
   * the limit: "ab" with a limit of 2 comes back unchanged yet marked
   * modified. The corrected flag reports no change.
   */
  lemma CleanTextAtLimitFlagged(raw: string)
    requires raw == "ab"
    ensures SanitizeText(raw, Mode(2, false, FlagAtLimit)) == SanitizedText(raw, true)
    ensures SanitizeText(raw, Mode(2, false, FlagChangesOnly)) == SanitizedText(raw, false)
  {
    assert !IsWhitespace(raw[0]) && !IsWhitespace(raw[1]);
    TrimOfTrimmed(raw);
    assert Trim(raw) == raw;
    assert raw[..1] == "a" && ['a'] + ['b'] == raw;
    TrimOfTrimmed(['a', 'b']);
  }

  /**
   * The two limit rules scan to the same text, and a change the corrected
   * rule reports is also reported as written.
   */
  lemma {:induction false} ScanRuleOnlyFlags(t: string, i: nat, out: string, previousWasSpace: bool, modified: bool,
                                             maxLength: nat, allowNewLines: bool)
    requires i <= |t|
    ensures var asWritten := Scan(t, i, out, previousWasSpace, modified, Mode(maxLength, allowNewLines, FlagAtLimit));
      var corrected := Scan(t, i, out, previousWasSpace, modified, Mode(maxLength, allowNewLines, FlagChangesOnly));
      asWritten.0 == corrected.0 && (corrected.1 ==> asWritten.1)
    decreases |t| - i
  {
    if i < |t| {
      var c := t[i];
      if IsISOControl(c) && c != '\n' && c != '\t' {
        ScanRuleOnlyFlags(t, i + 1, out, previousWasSpace, true, maxLength, allowNewLines);
      } else {
        var e := Escape(c);
        if e == '\n' && !allowNewLines {
          ScanRuleOnlyFlags(t, i + 1, out, previousWasSpace, true, maxLength, allowNewLines);
        } else {
          var s := if IsWhitespace(e) && e != '\n' then ' ' else e;
          if s == ' ' && previousWasSpace {
            ScanRuleOnlyFlags(t, i + 1, out, previousWasSpace, true, maxLength, allowNewLines);
          } else if |out + [s]| < maxLength {
            ScanRuleOnlyFlags(t, i + 1, out + [s], s == ' ', modified || IsMarkup(c), maxLength, allowNewLines);
          }
        }
      }
    }
  }

  /**
   * The limit rule changes only the `modified` flag: the value is the same
   * under both rules, and the corrected rule reports no change that the code
   * as written does not.
   */
  lemma SanitizeRuleOnlyFlags(raw: string, maxLength: nat, allowNewLines: bool)
    ensures SanitizeText(raw, Mode(maxLength, allowNewLines, FlagAtLimit)).value
         == SanitizeText(raw, Mode(maxLength, allowNewLines, FlagChangesOnly)).value
    ensures SanitizeText(raw, Mode(maxLength, allowNewLines, FlagChangesOnly)).modified
         ==> SanitizeText(raw, Mode(maxLength, allowNewLines, FlagAtLimit)).modified
  {
    var trimmed := Trim(raw);
    ScanRuleOnlyFlags(trimmed, 0, "", false, trimmed != raw, maxLength, allowNewLines);
  }

  // ----- The entry points -----

  /** `sanitizeInlineInput(input, maxLength)`: one line, no newlines kept. */
  function SanitizeInlineInput(input: string, maxLength: nat): (r: SanitizedText)
    ensures |r.value| <= maxLength && Clean(r.value, false) && NoDoubleSpace(r.value) && Trimmed(r.value)
    ensures r.modified <==> r.value != input
  {
    SanitizeTextProperties(input, Mode(maxLength, false, FlagChangesOnly));
    SanitizeTextReportsChanges(input, maxLength, false);
    SanitizeText(input, Mode(maxLength, false, FlagChangesOnly))
  }

  /** `sanitizeMultilineInput(input, maxLength)`: newlines kept. */
  function SanitizeMultilineInput(input: string, maxLength: nat): (r: SanitizedText)
    ensures |r.value| <= maxLength && Clean(r.value, true) && NoDoubleSpace(r.value) && Trimmed(r.value)
    ensures r.modified <==> r.value != input
  {
    SanitizeTextProperties(input, Mode(maxLength, true, FlagChangesOnly));
    SanitizeTextReportsChanges(input, maxLength, true);
    SanitizeText(input, Mode(maxLength, true, FlagChangesOnly))
  }

  /** `sanitizeOptionalInlineInput`: null stays null. */
  function SanitizeOptionalInlineInput(input: Option<string>, maxLength: nat): (r: Option<SanitizedText>)
    ensures r.None? <==> input.None?
    ensures r.Some? ==> |r.value.value| <= maxLength && Clean(r.value.value, false)
    ensures r.Some? ==> (r.value.modified <==> r.value.value != input.value)
  {
    match input
    case None => None
    case Some(s) => Some(SanitizeInlineInput(s, maxLength))
  }

  /** `sanitizeUserDisplay(input)`: a display name of at most 64 characters on one line. */
  function SanitizeUserDisplay(input: Option<string>): (r: string)
    ensures |r| <= 64 && Clean(r, false) && Trimmed(r)
    ensures input.None? ==> r == ""
  {
    var r := SanitizeInlineInput(input.OrElse(""), 64).value;
    assert input.None? ==> Trim("") == "";
    r
  }

  // ----- Note content -----

  /** The 120-character cap `sanitizeNoteContent` puts on an image's alt text and file name. */
  const IMAGE_TEXT_LIMIT: nat := 120

  /** A sanitized optional field: the new value and whether it changed. */
  function SanitizeField(field: Option<string>): (r: (Option<string>, bool))
    ensures r.1 <==> r.0 != field
    ensures r.0.None? <==> field.None?
    ensures r.0.Some? ==> |r.0.value| <= IMAGE_TEXT_LIMIT && Clean(r.0.value, false)
  {
    match SanitizeOptionalInlineInput(field, IMAGE_TEXT_LIMIT)
    case Some(s) => if s.modified then (Some(s.value), true) else (field, false)
    case None => (field, false)
  }

  /** The lambda of `sanitizeNoteContent` for one block; the flag tells whether it changed. */
  function SanitizeBlock(block: NoteBlock, maxBlockLength: nat): (NoteBlock, bool) {
    match block
    case TextBlock(_, text, _) =>
      var s := SanitizeMultilineInput(text, maxBlockLength);
      if s.modified then (block.(text := s.value), true) else (block, false)
    case ImageBlock(_, _, _, _, alt, _, fileName, _, _, _, _, _, _, _, _) =>
      var a := SanitizeField(alt);
      var f := SanitizeField(fileName);
      (block.(alt := a.0, fileName := f.0), a.1 || f.1)
  }

  /** What sanitizing does to a block: text blocks get clean text, images clean alt texts and file names, nothing else changes. */
  predicate SanitizedFrom(b: NoteBlock, original: NoteBlock, maxBlockLength: nat) {
    match original
    case TextBlock(_, _, _) =>
      && b.TextBlock? && b == original.(text := b.text)
      && |b.text| <= maxBlockLength && Clean(b.text, true)
    case ImageBlock(_, _, _, _, _, _, _, _, _, _, _, _, _, _, _) =>
      && b.ImageBlock? && b == original.(alt := b.alt, fileName := b.fileName)
      && (b.alt.None? <==> original.alt.None?) && (b.fileName.None? <==> original.fileName.None?)
      && (b.alt.Some? ==> |b.alt.value| <= IMAGE_TEXT_LIMIT && Clean(b.alt.value, false))
      && (b.fileName.Some? ==> |b.fileName.value| <= IMAGE_TEXT_LIMIT && Clean(b.fileName.value, false))
  }

  /** A block's flag is set exactly when the block changed, and the new block is sanitized. */
  lemma SanitizeBlockChanges(block: NoteBlock, maxBlockLength: nat)
    ensures var r := SanitizeBlock(block, maxBlockLength);
      && (r.1 <==> r.0 != block)
      && SanitizedFrom(r.0, block, maxBlockLength)
  {
    if block.TextBlock? {
      var s := SanitizeMultilineInput(block.text, maxBlockLength);
      if s.modified {
        assert block.(text := s.value).text != block.text;
      }
    } else {
      var a := SanitizeField(block.alt);
      var f := SanitizeField(block.fileName);
      if a.1 { assert block.(alt := a.0, fileName := f.0).alt != block.alt; }
      if f.1 { assert block.(alt := a.0, fileName := f.0).fileName != block.fileName; }
    }
  }

  /** The mapped blocks and the captured `modified` flag. */
  function SanitizeBlocks(blocks: seq<NoteBlock>, maxBlockLength: nat): (seq<NoteBlock>, bool)
    decreases |blocks|
  {
    if |blocks| == 0 then ([], false)
    else
      var init := SanitizeBlocks(blocks[..|blocks| - 1], maxBlockLength);
      var last := SanitizeBlock(blocks[|blocks| - 1], maxBlockLength);
      (init.0 + [last.0], init.1 || last.1)
  }

  /** `sanitizeNoteContent(content, maxBlockLength)`: the original object when no block changed. */
  function SanitizeNoteContent(content: NoteContent, maxBlockLength: nat): SanitizedNoteContent {
    var r := SanitizeBlocks(content.blocks, maxBlockLength);
    if r.1 then SanitizedNoteContent(NoteContent(r.0), true) else SanitizedNoteContent(content, false)
  }

  /** The mapping loop of `sanitizeNoteContent`, setting `modified` as it goes. */
  method SanitizeNoteContentLoop(content: NoteContent, maxBlockLength: int) returns (r: SanitizedNoteContent)
    requires maxBlockLength >= 0
    ensures r == SanitizeNoteContent(content, maxBlockLength)
  {
    var modified := false;
    var sanitizedBlocks := [];
    for i := 0 to |content.blocks|
      invariant (sanitizedBlocks, modified) == SanitizeBlocks(content.blocks[..i], maxBlockLength)
    {
      assert content.blocks[..i + 1][..i] == content.blocks[..i];
      var block := content.blocks[i];
      var updated := SanitizeBlock(block, maxBlockLength);
      if updated.1 { modified := true; }
      sanitizedBlocks := sanitizedBlocks + [updated.0];
    }
    assert content.blocks[..|content.blocks|] == content.blocks;
    if modified {
      r := SanitizedNoteContent(NoteContent(sanitizedBlocks), true);
    } else {
      r := SanitizedNoteContent(content, false);
    }
  }

  /** Block by block, sanitizing keeps the order and the ids and changes only the cleaned fields; the flag tells whether any block changed. */
  lemma {:induction false} SanitizeBlocksSpec(blocks: seq<NoteBlock>, maxBlockLength: nat)
    ensures var r := SanitizeBlocks(blocks, maxBlockLength);
      && |r.0| == |blocks|
      && (forall k :: 0 <= k < |blocks| ==> SanitizedFrom(r.0[k], blocks[k], maxBlockLength))
      && (r.1 <==> r.0 != blocks)
    decreases |blocks|
  {
    if |blocks| > 0 {
      var init := blocks[..|blocks| - 1];
      var last := blocks[|blocks| - 1];
      SanitizeBlocksSpec(init, maxBlockLength);
      SanitizeBlockChanges(last, maxBlockLength);
      var ri := SanitizeBlocks(init, maxBlockLength);
      var rl := SanitizeBlock(last, maxBlockLength);
      assert blocks == init + [last];
      SanitizedAppend(ri.0, init, rl.0, last, maxBlockLength);
      AppendDiffers(ri.0, init, rl.0, last);
    }
  }

  /** Appending a sanitized block to sanitized blocks keeps every position sanitized. */
  lemma SanitizedAppend(ri: seq<NoteBlock>, init: seq<NoteBlock>, rl: NoteBlock, last: NoteBlock, maxBlockLength: nat)
    requires |ri| == |init|
    requires forall k :: 0 <= k < |init| ==> SanitizedFrom(ri[k], init[k], maxBlockLength)
    requires SanitizedFrom(rl, last, maxBlockLength)
    ensures forall k :: 0 <= k < |init| + 1 ==> SanitizedFrom((ri + [rl])[k], (init + [last])[k], maxBlockLength)
  {
    forall k | 0 <= k < |init| + 1 ensures SanitizedFrom((ri + [rl])[k], (init + [last])[k], maxBlockLength) {
      if k < |init| { assert (ri + [rl])[k] == ri[k] && (init + [last])[k] == init[k]; }
    }
  }

  /** Two equally long sequences with one element appended differ exactly when their prefixes or their last elements do. */
  lemma AppendDiffers<T>(a: seq<T>, b: seq<T>, x: T, y: T)
    requires |a| == |b|
    ensures (a + [x] != b + [y]) <==> (a != b || x != y)
  {
    if a + [x] == b + [y] {
      assert (a + [x])[..|a|] == a && (b + [y])[..|b|] == b;
      assert (a + [x])[|a|] == x && (b + [y])[|b|] == y;
    }
  }

  /**
   * `sanitizeNoteContent` reports a change exactly when the content changed,
   * keeps the blocks' order, kinds and ids, and leaves every text block, alt
   * text and file name sanitized.
   */
  lemma SanitizeNoteContentSpec(content: NoteContent, maxBlockLength: nat)
    ensures var r := SanitizeNoteContent(content, maxBlockLength);
      && (r.modified <==> r.value != content)
      && (!r.modified ==> r.value == content)
      && |r.value.blocks| == |content.blocks|
      && forall k :: 0 <= k < |content.blocks| ==> SanitizedFrom(r.value.blocks[k], content.blocks[k], maxBlockLength)
  {
    SanitizeBlocksSpec(content.blocks, maxBlockLength);
    var r := SanitizeBlocks(content.blocks, maxBlockLength);
    if !r.1 {
      assert r.0 == content.blocks;
    }
  }
}
