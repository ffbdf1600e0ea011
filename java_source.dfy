/**
 * Translation of program source files line by line (`Applier.apply_java_line`
 * and `Applier.apply_java`): each dictionary entry names a line, the text
 * expected on it and its translation; the first literal occurrence of the
 * expected text is replaced, after three advisory checks on the translation.
 */
module JavaSource {
  import opened Wrappers
  import opened Strings

  /** The two-character escape `\n`: a backslash followed by the letter n. */
  const NewlineEscape: string := ['\\', 'n']

  /** The two-character escaped quote `\"`. */
  const EscapedQuote: string := ['\\', '"']

  /** The kinds of diagnostics applying one entry to one line can log. */
  datatype Warning =
    | OddQuoteCount      // the translation has an odd number of unescaped double quotes
    | InjectedNewline    // the translation has a `\n` escape the original does not
    | MissingComma       // the original ends with `,`, the trimmed translation does not
    | MissingSemicolon   // the original ends with `;`, the trimmed translation does not
    | NoMatch            // the original text is not on the line; the line is left alone

  /** The line after applying one entry, and the diagnostics logged on the way, in order. */
  datatype LineResult = LineResult(text: string, warnings: seq<Warning>)

  /** One entry of a source file's dictionary: 0-based line (Python-indexed), expected text, translation. */
  datatype CodeEntry = CodeEntry(line: int, original: string, translation: string)

  /** `text[entry.line]` raised IndexError: the line number and the number of lines in the file. */
  datatype JavaError = LineOutOfRange(line: int, count: nat)

  // ---------------------------------------------------------------------------
  // The advisory checks
  // ---------------------------------------------------------------------------

  /**
   * The quote check: double quotes minus escaped double quotes is odd, and
   * the translation opens no comment (neither of the two Java comment openers).
   * Every escaped quote is also a quote, so the check fires only on a
   * translation with at least one quote that is not escaped.
   */
  predicate OddQuotes(translation: string): (r: bool)
    ensures r ==> Count(translation, ['"']) > Count(translation, EscapedQuote)
  {
    EscapedQuotesAreQuotes(translation);
    (Count(translation, ['"']) - Count(translation, EscapedQuote)) % 2 == 1
    && !Contains(translation, ['/', '/']) && !Contains(translation, ['/', '*'])
  }

  /**
   * The difference the quote check takes is never negative: each escaped
   * quote found by the count contributes its own quote to the other count.
   */
  lemma {:induction false} EscapedQuotesAreQuotes(s: string)
    ensures Count(s, EscapedQuote) <= Count(s, ['"'])
    decreases |s|
  {
    if |s| >= 2 {
      assert s[..1] == [s[0]];
      if s[..2] == EscapedQuote {
        assert s[1..][..1] == ['"'] && s[1..][1..] == s[2..];
        EscapedQuotesAreQuotes(s[2..]);
      } else {
        EscapedQuotesAreQuotes(s[1..]);
      }
    }
  }

  /**
   * The newline check: the translation has a `\n` escape and the original
   * has none; it can therefore fire only on a translation that differs
   * from its original.
   */
  predicate InjectsNewline(original: string, translation: string): (r: bool)
    ensures r ==> translation != original
  {
    Contains(translation, NewlineEscape) && !Contains(original, NewlineEscape)
  }

  /**
   * The separator check on the text that will be spliced in. The comma test
   * comes first and the semicolon test is its `elif`, so at most one fires.
   */
  function SeparatorWarnings(original: string, spliced: string): (w: seq<Warning>)
    ensures |w| <= 1
    ensures MissingComma in w <==> EndsWith(original, [',']) && !EndsWith(Strip(spliced), [','])
    ensures MissingSemicolon in w <==> EndsWith(original, [';']) && !EndsWith(Strip(spliced), [';'])
    ensures OddQuoteCount !in w && InjectedNewline !in w && NoMatch !in w
  {
    if EndsWith(original, [',']) && !EndsWith(Strip(spliced), [',']) then [MissingComma]
    else if EndsWith(original, [';']) && !EndsWith(Strip(spliced), [';']) then [MissingSemicolon]
    else []
  }

  // ---------------------------------------------------------------------------
  // Stripping an injected newline escape
  // ---------------------------------------------------------------------------

  /**
   * One pass of `replace("\\n", "")` can create a new `\n` escape out of a
   * backslash that stood before a deleted one: on backslash, backslash, n, n
   * the pass deletes the middle pair and leaves backslash, n.
   */
  lemma SinglePassLeavesNewlineEscape()
    ensures Contains(RemoveAll(['\\', '\\', 'n', 'n'], NewlineEscape), NewlineEscape)
  {
    var s: string := ['\\', '\\', 'n', 'n'];
    assert s[..2][1] == '\\' != NewlineEscape[1];
    assert s[1..][..2] == NewlineEscape;
    assert s[1..][2..] == ['n'];
    assert RemoveAll(s[1..], NewlineEscape) == ['n'];
    assert RemoveAll(s, NewlineEscape) == ['\\', 'n'];
    assert OccursAt(['\\', 'n'], NewlineEscape, 0);
  }

  /**
   * Removes `\n` escapes until none is left: the text spliced in for a
   * translation that injects a newline.
   */
  function StripNewlineEscapes(s: string): (r: string)
    ensures !Contains(r, NewlineEscape)
    ensures |r| <= |s|
    ensures !Contains(s, NewlineEscape) ==> r == s
    decreases |s|
  {
    if Contains(s, NewlineEscape) then
      RemoveAllShrinks(s, NewlineEscape);
      StripNewlineEscapes(RemoveAll(s, NewlineEscape))
    else s
  }

  /** Where one removal pass already leaves no `\n` escape, stripping is that one pass. */
  lemma StripAgreesWithSinglePass(s: string)
    requires !Contains(RemoveAll(s, NewlineEscape), NewlineEscape)
    ensures StripNewlineEscapes(s) == RemoveAll(s, NewlineEscape)
  {
    RemoveAllShrinks(s, NewlineEscape);
  }

  /**
   * The translation that is spliced into the line: after one removal pass
   * over its `\n` escapes when it injects a newline, verbatim otherwise.
   * The pass always removes something; it leaves no `\n` escape exactly
   * when it agrees with `StripNewlineEscapes`.
   */
  function SplicedTranslation(original: string, translation: string): (t: string)
    ensures InjectsNewline(original, translation) ==> t == RemoveAll(translation, NewlineEscape)
    ensures InjectsNewline(original, translation) ==> |t| < |translation|
    ensures InjectsNewline(original, translation) ==>
      (!Contains(t, NewlineEscape) <==> t == StripNewlineEscapes(translation))
    ensures !InjectsNewline(original, translation) ==> t == translation
  {
    if InjectsNewline(original, translation) then
      RemoveAllShrinks(translation, NewlineEscape);
      var t := RemoveAll(translation, NewlineEscape);
      assert !Contains(t, NewlineEscape) ==> t == StripNewlineEscapes(translation) by {
        if !Contains(t, NewlineEscape) { StripAgreesWithSinglePass(translation); }
      }
      t
    else translation
  }

  // ---------------------------------------------------------------------------
  // One line
  // ---------------------------------------------------------------------------

  /** The warnings of the three checks, in the order they are logged. */
  function CheckWarnings(original: string, translation: string): (w: seq<Warning>)
    ensures OddQuoteCount in w <==> OddQuotes(translation)
    ensures InjectedNewline in w <==> InjectsNewline(original, translation)
    ensures MissingComma in w <==>
      EndsWith(original, [',']) && !EndsWith(Strip(SplicedTranslation(original, translation)), [','])
    ensures MissingSemicolon in w <==>
      EndsWith(original, [';']) && !EndsWith(Strip(SplicedTranslation(original, translation)), [';'])
    ensures NoMatch !in w
  {
    var quoteWarning := if OddQuotes(translation) then [OddQuoteCount] else [];
    var newlineWarning := if InjectsNewline(original, translation) then [InjectedNewline] else [];
    quoteWarning + newlineWarning + SeparatorWarnings(original, SplicedTranslation(original, translation))
  }

  /**
   * `apply_java_line`: an empty translation returns the line untouched.
   * Otherwise the three checks log their warnings (quote, newline,
   * separator) and the spliced translation replaces the first occurrence of
   * `original`; when there is none the line is returned as it was.
   */
  function ApplyJavaLine(text: string, original: string, translation: string): (r: LineResult)
    ensures translation == [] ==> r == LineResult(text, [])
    ensures !Contains(text, original) ==> r.text == text
    ensures NoMatch in r.warnings <==> translation != [] && !Contains(text, original)
    ensures OddQuoteCount in r.warnings <==> translation != [] && OddQuotes(translation)
    ensures InjectedNewline in r.warnings <==> translation != [] && InjectsNewline(original, translation)
    ensures MissingComma in r.warnings <==>
      translation != [] && EndsWith(original, [',']) && !EndsWith(Strip(SplicedTranslation(original, translation)), [','])
    ensures MissingSemicolon in r.warnings <==>
      translation != [] && EndsWith(original, [';']) && !EndsWith(Strip(SplicedTranslation(original, translation)), [';'])
  {
    if |translation| <= 0 then LineResult(text, [])
    else
      var t := SplicedTranslation(original, translation);
      var warnings := CheckWarnings(original, translation);
      var index := Find(text, original);
      if index == -1 then LineResult(text, warnings + [NoMatch])
      else LineResult(text[..index] + t + text[index + |original|..], warnings)
  }

  /** The text `ApplyJavaLine` returns, without its diagnostics. */
  lemma ApplyJavaLineText(text: string, original: string, translation: string)
    requires translation != []
    ensures var index := Find(text, original);
      ApplyJavaLine(text, original, translation).text
      == if index == -1 then text
         else text[..index] + SplicedTranslation(original, translation) + text[index + |original|..]
  {
  }

  /** The three parts of `pre + mid + post`, read back by position. */
  lemma SpliceParts(pre: string, mid: string, post: string)
    ensures var r := pre + mid + post;
      r[..|pre|] == pre && r[|pre|..|pre| + |mid|] == mid && r[|pre| + |mid|..] == post
  {
  }

  /**
   * Splice precision: on a match whose first occurrence is at `i`, the
   * line keeps everything before `i` and everything after the matched text
   * (later occurrences included), with the spliced translation in between.
   */
  lemma SplicePrecision(text: string, original: string, translation: string, i: int)
    requires translation != [] && FirstOccurrence(text, original, i)
    ensures var t := SplicedTranslation(original, translation);
      var r := ApplyJavaLine(text, original, translation).text;
      && |r| == |text| - |original| + |t|
      && r[..i] == text[..i]
      && r[i..i + |t|] == t
      && r[i + |t|..] == text[i + |original|..]
  {
    var t := SplicedTranslation(original, translation);
    assert ApplyJavaLine(text, original, translation).text == text[..i] + t + text[i + |original|..] by {
      FindIsFirstOccurrence(text, original, i);
      ApplyJavaLineText(text, original, translation);
    }
    SpliceParts(text[..i], t, text[i + |original|..]);
  }

  /** An empty original matches at the front: the translation is put before the line. */
  lemma EmptyOriginalPrepends(text: string, translation: string)
    requires translation != []
    ensures ApplyJavaLine(text, [], translation).text == SplicedTranslation([], translation) + text
  {
    var t := SplicedTranslation([], translation);
    assert FirstOccurrence(text, [], 0);
    SplicePrecision(text, [], translation, 0);
    var r := ApplyJavaLine(text, [], translation).text;
    assert r == r[..|t|] + r[|t|..];
  }

  /**
   * What an injected newline leaves in the line: the text spliced in is
   * shorter than the translation, and it is free of `\n` escapes exactly
   * when one removal pass already agrees with `StripNewlineEscapes`; any
   * other translation is spliced in verbatim.
   */
  lemma InjectedNewlineRemoved(text: string, original: string, translation: string, i: int)
    requires translation != [] && FirstOccurrence(text, original, i)
    ensures var r := ApplyJavaLine(text, original, translation).text;
      var n := |SplicedTranslation(original, translation)|;
      && i + n <= |r|
      && (InjectsNewline(original, translation) ==>
            n < |translation|
            && (!Contains(r[i..i + n], NewlineEscape) <==> r[i..i + n] == StripNewlineEscapes(translation)))
      && (!InjectsNewline(original, translation) ==> r[i..i + n] == translation)
  {
    SplicePrecision(text, original, translation, i);
  }

  /**
   * On the line `x` with original `x`, the translation backslash,
   * backslash, n, n injects a newline, and the line written back still
   * holds a `\n` escape.
   */
  lemma SinglePassLineKeepsNewline()
    ensures Contains(ApplyJavaLine(['x'], ['x'], ['\\', '\\', 'n', 'n']).text, NewlineEscape)
  {
    var translation: string := ['\\', '\\', 'n', 'n'];
    assert OccursAt(translation, NewlineEscape, 1);
    assert !Contains(['x'], NewlineEscape);
    SinglePassLeavesNewlineEscape();
    var t := SplicedTranslation(['x'], translation);
    assert FirstOccurrence(['x'], ['x'], 0);
    SplicePrecision(['x'], ['x'], translation, 0);
    var r := ApplyJavaLine(['x'], ['x'], translation).text;
    assert r == t;
  }

  /**
   * The quote and separator checks are advisory: two translations that
   * splice in the same text produce the same line, whatever the checks
   * logged for each.
   */
  lemma ChecksAreAdvisory(text: string, original: string, t1: string, t2: string)
    requires t1 != [] && t2 != []
    requires SplicedTranslation(original, t1) == SplicedTranslation(original, t2)
    ensures ApplyJavaLine(text, original, t1).text == ApplyJavaLine(text, original, t2).text
    ensures (MissingComma in ApplyJavaLine(text, original, t1).warnings)
         == (MissingComma in ApplyJavaLine(text, original, t2).warnings)
  {
  }

  /** At most one separator warning is logged, and never together with a separator the original lacks. */
  lemma SeparatorChecksExclusive(text: string, original: string, translation: string)
    ensures var w := ApplyJavaLine(text, original, translation).warnings;
      !(MissingComma in w && MissingSemicolon in w)
      && (MissingComma in w ==> EndsWith(original, [',']))
      && (MissingSemicolon in w ==> EndsWith(original, [';']))
  {
  }

  // ---------------------------------------------------------------------------
  // A whole file
  // ---------------------------------------------------------------------------

  /**
   * The lines of a file after applying `entries` one after another, each to
   * the current text of its line; the first entry whose line number is out
   * of range raises, and then nothing is written.
   */
  function ApplyEntries(lines: seq<string>, entries: seq<CodeEntry>): (r: Result<seq<string>, JavaError>)
    ensures r.Ok? ==> |r.value| == |lines|
    decreases |entries|
  {
    if entries == [] then Ok(lines)
    else
      var e := entries[0];
      match PyIndex(|lines|, e.line)
      case None => Err(LineOutOfRange(e.line, |lines|))
      case Some(k) =>
        ApplyEntries(lines[k := ApplyJavaLine(lines[k], e.original, e.translation).text], entries[1..])
  }

  /**
   * `apply_java`: reads the file's lines into a list, applies the entries in
   * dictionary order, and returns what is written back; Err is the
   * IndexError that stops it before the write.
   */
  method ApplyJava(file: seq<string>, entries: seq<CodeEntry>) returns (r: Result<seq<string>, JavaError>)
    ensures r == ApplyEntries(file, entries)
  {
    var text := new string[|file|](i requires 0 <= i < |file| => file[i]);
    assert text[..] == file;
    var n := 0;
    while n < |entries|
      invariant 0 <= n <= |entries|
      invariant text.Length == |file|
      invariant ApplyEntries(file, entries) == ApplyEntries(text[..], entries[n..])
    {
      var entry := entries[n];
      assert entries[n..][0] == entry && entries[n..][1..] == entries[n + 1..];
      var k := PyIndex(text.Length, entry.line);
      if k.None? {
        return Err(LineOutOfRange(entry.line, text.Length));
      }
      var lineText := text[k.value];
      var applied := ApplyJavaLine(lineText, entry.original, entry.translation);
      text[k.value] := applied.text;
      n := n + 1;
    }
    return Ok(text[..]);
  }

  /** Line `k` is the target of some entry. */
  predicate Targeted(count: nat, entries: seq<CodeEntry>, k: nat)
  {
    exists j :: 0 <= j < |entries| && PyIndex(count, entries[j].line) == Some(k)
  }

  /** Lines that no entry names come out exactly as they went in. */
  lemma {:induction false} UntargetedLinesUnchanged(lines: seq<string>, entries: seq<CodeEntry>, k: nat)
    requires k < |lines| && !Targeted(|lines|, entries, k)
    requires ApplyEntries(lines, entries).Ok?
    ensures ApplyEntries(lines, entries).value[k] == lines[k]
    decreases |entries|
  {
    if entries != [] {
      var e := entries[0];
      var m := PyIndex(|lines|, e.line).value;
      assert m != k by { assert PyIndex(|lines|, entries[0].line) == Some(m); }
      var next := lines[m := ApplyJavaLine(lines[m], e.original, e.translation).text];
      assert !Targeted(|next|, entries[1..], k);
      UntargetedLinesUnchanged(next, entries[1..], k);
    }
  }

  /** Applying the file raises exactly when some entry's line number is outside the file. */
  lemma {:induction false} FailsIffLineOutOfRange(lines: seq<string>, entries: seq<CodeEntry>)
    ensures ApplyEntries(lines, entries).Err?
        <==> exists j :: 0 <= j < |entries| && PyIndex(|lines|, entries[j].line).None?
    decreases |entries|
  {
    if entries != [] {
      var e := entries[0];
      match PyIndex(|lines|, e.line)
      case None =>
      case Some(m) =>
        var next := lines[m := ApplyJavaLine(lines[m], e.original, e.translation).text];
        FailsIffLineOutOfRange(next, entries[1..]);
        if exists j :: 0 <= j < |entries| && PyIndex(|lines|, entries[j].line).None? {
          var j :| 0 <= j < |entries| && PyIndex(|lines|, entries[j].line).None?;
          assert j != 0;
          assert PyIndex(|next|, entries[1..][j - 1].line).None?;
        }
        if exists j :: 0 <= j < |entries[1..]| && PyIndex(|next|, entries[1..][j].line).None? {
          var j :| 0 <= j < |entries[1..]| && PyIndex(|next|, entries[1..][j].line).None?;
          assert PyIndex(|lines|, entries[j + 1].line).None?;
        }
    }
  }

  /** The error names the first entry whose line is out of range. */
  lemma {:induction false} ErrorNamesFirstBadEntry(lines: seq<string>, entries: seq<CodeEntry>, j: nat)
    requires j < |entries| && PyIndex(|lines|, entries[j].line).None?
    requires forall i :: 0 <= i < j ==> PyIndex(|lines|, entries[i].line).Some?
    ensures ApplyEntries(lines, entries) == Err(LineOutOfRange(entries[j].line, |lines|))
    decreases j
  {
    if j > 0 {
      var e := entries[0];
      var m := PyIndex(|lines|, e.line).value;
      var next := lines[m := ApplyJavaLine(lines[m], e.original, e.translation).text];
      assert entries[1..][j - 1] == entries[j];
      ErrorNamesFirstBadEntry(next, entries[1..], j - 1);
    }
  }

  /** Entries compose sequentially: applying `a + b` is applying `a`, then `b` to its result. */
  lemma {:induction false} ApplyEntriesAppend(lines: seq<string>, a: seq<CodeEntry>, b: seq<CodeEntry>)
    ensures ApplyEntries(lines, a + b)
         == match ApplyEntries(lines, a)
            case Err(e) => Err(e)
            case Ok(mid) => ApplyEntries(mid, b)
    decreases |a|
  {
    if a == [] {
      assert a + b == b;
    } else {
      assert (a + b)[0] == a[0] && (a + b)[1..] == a[1..] + b;
      match PyIndex(|lines|, a[0].line)
      case None =>
      case Some(m) =>
        ApplyEntriesAppend(lines[m := ApplyJavaLine(lines[m], a[0].original, a[0].translation).text], a[1..], b);
    }
  }

  /** A second entry on the same line works on the line the first one produced. */
  lemma SameLineComposes(lines: seq<string>, e1: CodeEntry, e2: CodeEntry, k: nat)
    requires PyIndex(|lines|, e1.line) == Some(k) && PyIndex(|lines|, e2.line) == Some(k)
    ensures ApplyEntries(lines, [e1, e2])
         == Ok(lines[k := ApplyJavaLine(ApplyJavaLine(lines[k], e1.original, e1.translation).text,
                                        e2.original, e2.translation).text])
  {
    var first := lines[k := ApplyJavaLine(lines[k], e1.original, e1.translation).text];
    assert [e1, e2][1..] == [e2];
    assert ApplyEntries(lines, [e1, e2]) == ApplyEntries(first, [e2]);
    assert [e2][1..] == [];
    var second := ApplyJavaLine(first[k], e2.original, e2.translation).text;
    assert |first| == |lines| && first[k] == ApplyJavaLine(lines[k], e1.original, e1.translation).text;
    assert ApplyEntries(first, [e2]) == ApplyEntries(first[k := second], []);
    assert first[k := second] == lines[k := second];
  }

  /**
   * A file none of whose entries applies (each translation is empty or its
   * original is not on its line) is written back exactly as it was read.
   */
  lemma {:induction false} NothingMatchesRoundTrip(lines: seq<string>, entries: seq<CodeEntry>)
    requires forall j :: 0 <= j < |entries| ==> PyIndex(|lines|, entries[j].line).Some?
    requires forall j :: 0 <= j < |entries| ==>
      var k := PyIndex(|lines|, entries[j].line).value;
      entries[j].translation == [] || !Contains(lines[k], entries[j].original)
    ensures ApplyEntries(lines, entries) == Ok(lines)
    decreases |entries|
  {
    if entries != [] {
      var e := entries[0];
      var m := PyIndex(|lines|, e.line).value;
      assert lines[m := ApplyJavaLine(lines[m], e.original, e.translation).text] == lines;
      assert forall j :: 0 <= j < |entries[1..]| ==> entries[1..][j] == entries[j + 1];
      NothingMatchesRoundTrip(lines, entries[1..]);
    }
  }
}
