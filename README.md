# Applying translations to the game's files

This project is a Dafny model of the core of `applier.py`, the part of the
localization tool that writes translated text back into the game's files.
The game is Lilith's Throne.

- **Source files.** Each dictionary entry names a line of a `.java` file,
  the text expected on it and its translation. `apply_java_line` replaces the
  first occurrence of the expected text. Before that it runs three advisory
  checks (quotes, injected `\n`, a lost trailing comma or semicolon) and
  strips an injected `\n`. `apply_java` applies a file's entries one after
  another to the file's list of lines.
- **Resource files.** Each XML dictionary entry names a node tag and the
  node's ordinal among that tag's *eligible* nodes. `valid_element` decides
  which nodes are eligible. `apply_xml` groups the entries by tag, in
  insertion order, and writes each group.
  - An ordinary tag addresses nodes by Python list index, so a negative
    ordinal counts from the end and an ordinal out of range aborts the file.
  - `htmlContent` entries are grouped once more by their `tag` attribute.
    Each attribute group is written into every `htmlContent` node carrying
    that attribute. A group with no such node aborts the file.

The model is organised in five modules:

- `Wrappers`: `Option`, `Result` and Python list indexing.
- `Strings`: the `str` operations the code relies on. These are `find`,
  `count`, a `replace(p, "")` pass, `strip`, `endswith` and the `in` test.
- `JavaSource`: `apply_java_line` as a pure function and `apply_java` as a
  method over an array of lines.
- `XmlGrouping`: the dictionary-of-lists grouping, as a method checked
  against functions over the entry sequence.
- `XmlResource`: `valid_element`, the eligible-node filter, the ordinal and
  broadcast writes, and `apply_xml` as a method over an array of nodes.

A parsed XML file is the sequence of its elements in document order. That is
the order both `tree.iter(tag)` and the `//htmlContent[@tag=...]` query
produce. Each element is modelled as its tag, its parent's tag (none for
the root), its text payload and its `tag` attribute. The methods return
`Ok(content to write back)` or `Err(the exception that aborted the file)`.
An `Err` means nothing of that file is written.

## Model

| member | source | states |
|---|---|---|
| Wrappers.PyIndex | applier.py:419 | Python list subscript: defined exactly for `-n <= i < n`; a non-negative index is itself, a negative one counts back from the end |
| Strings.Find | applier.py:472 | `str.find`: -1 exactly when the pattern does not occur; otherwise the leftmost occurrence; an empty pattern is found at 0 |
| Strings.FindIsFirstOccurrence | applier.py:472 | any leftmost occurrence is what `find` returns |
| Strings.Count | applier.py:435 | `str.count` of a non-empty pattern, non-overlapping, left to right; never more than the length |
| Strings.CountStep | applier.py:435 | `count` is 0 when `find` gives -1; otherwise it is 1 plus the count in the text after the first occurrence |
| Strings.CountAt | applier.py:435 | the same step stated at an explicit leftmost occurrence `i`: 1 plus the count after the occurrence |
| Strings.CountAbsent | applier.py:435 | a pattern that does not occur is counted 0 times |
| Strings.RemoveAll | applier.py:453 | one `replace(p, "")` pass, as written; never lengthens the string |
| Strings.RemoveAllStep | applier.py:453 | one `replace(p, "")` pass keeps the text before the first occurrence, drops that occurrence and continues on the rest; a string without the pattern is returned as it is |
| Strings.RemoveAllAt | applier.py:453 | the same step stated at an explicit leftmost occurrence `i` |
| Strings.RemovedLengthIsCount | applier.py:453 | the pass removes exactly `count` occurrences: the length drops by the pattern length times `count` |
| Strings.RemoveAllShrinks | applier.py:453 | a removal pass strictly shortens a string that contains the pattern and leaves any other string unchanged |
| Strings.Strip | applier.py:455 | `str.strip`: empty exactly when the string is all whitespace; otherwise it starts and ends with a non-whitespace character |
| Strings.StripIsSlice | applier.py:455 | `strip` returns a contiguous slice of the string with only whitespace cut from either end |
| Strings.StrippedEndsWith | applier.py:455-463 | `strip().endswith(c)` is decided by the last non-whitespace character of the string |
| JavaSource.OddQuotes | applier.py:435-436 | the quote check fires only on a translation with more double quotes than escaped double quotes, that is, with an unescaped quote |
| JavaSource.EscapedQuotesAreQuotes | applier.py:435 | `quote_count` is never negative: there are never more escaped quotes than quotes |
| JavaSource.InjectsNewline | applier.py:445 | the newline check fires only on a translation that differs from its original |
| JavaSource.SeparatorWarnings | applier.py:455-470 | comma warning iff the original ends with `,` and the stripped translation does not; same for `;`; at most one of the two (`elif`) |
| JavaSource.SinglePassLeavesNewlineEscape | applier.py:453 | on backslash, backslash, n, n one removal pass leaves a `\n` escape behind |
| JavaSource.StripNewlineEscapes | applier.py:445-453 | the stripped text contains no `\n` escape, is no longer than the input, and equals the input when there was none |
| JavaSource.StripAgreesWithSinglePass | applier.py:453 | where one pass already leaves no `\n`, stripping is exactly that pass |
| JavaSource.SplicedTranslation | applier.py:445-453 | a translation that injects `\n` is exactly one `RemoveAll` pass of it, as written: it comes out strictly shorter, and it is free of `\n` exactly when it equals the fully stripped text; any other translation is spliced in verbatim |
| JavaSource.CheckWarnings | applier.py:435-470 | the three checks log the quote, newline, comma and semicolon warnings each exactly when its condition holds, the separator ones on the stripped spliced text |
| JavaSource.ApplyJavaLine | applier.py:428-478 | empty translation returns the line with no warning; no match leaves the line as it was; the no-match, odd-quote, injected-newline, missing-comma and missing-semicolon warnings each fire exactly when their condition holds, the separator ones judged on the stripped spliced text (where the text goes is stated by `SplicePrecision`, what is spliced by `SplicedTranslation`) |
| JavaSource.SplicePrecision | applier.py:472-478 | on a match at the first occurrence `i`: the length changes by the translation length minus the original length; the text before `i` and after the match (later occurrences included) is kept; `t` sits at `i` |
| JavaSource.EmptyOriginalPrepends | applier.py:472-478 | an empty original matches at index 0, so the translation is put before the line |
| JavaSource.InjectedNewlineRemoved | applier.py:445-478 | in the written line, the text placed at the match is shorter than a translation that injected `\n`, and free of `\n` exactly when one pass agrees with full stripping; any other translation appears verbatim |
| JavaSource.SinglePassLineKeepsNewline | applier.py:445-478 | on line `x`, original `x` and translation backslash, backslash, n, n, the injected-newline check fires and the written line still holds a `\n` escape |
| JavaSource.ChecksAreAdvisory | applier.py:435-470 | the warnings never change the line: translations that splice in the same text give the same line |
| JavaSource.SeparatorChecksExclusive | applier.py:455-470 | never both separator warnings; each only when the original ends with that separator |
| JavaSource.ApplyEntries | applier.py:418-423 | applying entries in order keeps the number of lines |
| JavaSource.ApplyJava | applier.py:406-426 | the array loop over entries returns exactly the lines `ApplyEntries` specifies, or the IndexError of the first bad entry |
| JavaSource.UntargetedLinesUnchanged | applier.py:418-423 | a line no entry names is written back unchanged |
| JavaSource.FailsIffLineOutOfRange | applier.py:419 | the file raises iff some entry's line number is outside `-n <= line < n` |
| JavaSource.ErrorNamesFirstBadEntry | applier.py:418-419 | the error carries the first out-of-range line number and the line count |
| JavaSource.ApplyEntriesAppend | applier.py:418-423 | entries compose sequentially: `a + b` is `a`, then `b` on its result |
| JavaSource.SameLineComposes | applier.py:419-423 | a second entry on a line works on the text the first one produced |
| JavaSource.NothingMatchesRoundTrip | applier.py:406-426 | when no entry applies (empty translation or no match), the file is written back as read |
| XmlGrouping.GroupEntries | applier.py:338-343 | the dictionary loop yields keys in first-appearance order, one list per key, holding that key's entries in order (also the attribute grouping at 348-353) |
| XmlGrouping.NewKeyHasNoMembers | applier.py:340-341 | a key not yet seen has an empty list, so its first entry starts a new one |
| XmlGrouping.MembersAppend | applier.py:339-343 | grouping preserves insertion order: the group of `a + b` is the group of `a` followed by the group of `b` |
| XmlGrouping.MembersSingle | applier.py:340-343 | one entry forms a group of itself exactly under its own key |
| XmlGrouping.GroupKeysExact | applier.py:338-343 | a key is listed iff some entry has it |
| XmlGrouping.GroupKeysDistinct | applier.py:345 | no key is listed twice, so each group is applied once |
| XmlGrouping.MembersExact | applier.py:338-343 | a group holds exactly the entries with its key |
| XmlResource.ValidElement | applier.py:43-54 | eligible (Ok true) iff the payload is present, not blank, and the parent is neither `formattingNames` nor `statusEffects`; raises iff a root element with visible text is asked for its parent |
| XmlResource.EligibleFrom | applier.py:367-369 | the filtered list holds exactly the eligible nodes of the tag, in document order; it fails only with the root's error |
| XmlResource.EligibleFailsIff | applier.py:367-369 | filtering raises iff a node of the tag is the root and has visible text |
| XmlResource.HtmlNodesFrom | applier.py:356 | the query result holds exactly the `htmlContent` nodes with that `tag` attribute, in document order |
| XmlResource.SetPayload | applier.py:383 | writing one entry keeps the node's tag, parent and attribute and sets its payload to the entry's translation |
| XmlResource.ApplyToNode | applier.py:359-364 | writing a group into a node keeps its tag, parent and attribute; the payload ends as the last entry's translation |
| XmlResource.ApplyOrdinals | applier.py:370-383 | an ordinary tag's entries are written in order by ordinal; the node count is kept (effect and failure stated by `OrdinalsEffect` and `OrdinalsFailIff`) |
| XmlResource.Broadcast | applier.py:357-364 | every entry of an attribute group written into every target node; the node count is kept (effect stated by `BroadcastEffect`) |
| XmlResource.WriteEntries | applier.py:359-364 | the array after the inner entry loop on one node is the old array with that node replaced by `ApplyToNode` of its old value |
| XmlResource.ApplyOrdinalCluster | applier.py:366-383 | the array loop over an ordinary tag's cluster ends in exactly the document `ApplyTagGroup` specifies, or returns its error before the rest of the cluster |
| XmlResource.ApplyAttributeGroup | applier.py:355-364 | returns the no-node error when no `htmlContent` node carries the attribute; otherwise the array ends as `Broadcast` of the group to the matching nodes |
| XmlResource.ApplyHtmlCluster | applier.py:347-364 | the loop over attribute groups ends in exactly the document `ApplyTagGroup` specifies for `htmlContent`, or returns the first error |
| XmlResource.ApplyCluster | applier.py:345-383 | one cluster, routed by its tag, ends in exactly the document `ApplyTagGroup` specifies |
| XmlResource.ApplyXml | applier.py:320-391 | the grouped, per-cluster array updates produce exactly the document `ApplyXmlSpec` specifies, or the exception that aborts the file |
| XmlResource.OrdinalTarget | applier.py:370-383 | an entry with an in-range ordinal writes exactly the node at that position of the eligible list, which is a node of its tag and eligible |
| XmlResource.OneOrdinal | applier.py:371-383 | one in-range ordinal rewrites exactly that node's payload |
| XmlResource.OrdinalOutOfRange | applier.py:371-382 | an out-of-range ordinal raises, naming tag, ordinal and eligible count |
| XmlResource.OrdinalsFailIff | applier.py:370-382 | a tag group raises exactly when some ordinal is out of range for the eligible list; with all in range it succeeds |
| XmlResource.LastSelectorWins | applier.py:370-383 | when several entries name the same node, the node ends with the payload of the last one |
| XmlResource.OrdinalsEffect | applier.py:370-383 | after a tag group, each node carries the translation of the last entry whose ordinal names it, or is unchanged when none does |
| XmlResource.UnselectedNodesUnchanged | applier.py:370-383 | nodes that no entry of the group selects are left as parsed |
| XmlResource.BadOrdinalRaises | applier.py:370-382 | one out-of-range ordinal anywhere in a group makes the group raise |
| XmlResource.ErrorNamesFirstBadOrdinal | applier.py:370-382 | the error is that of the first out-of-range entry |
| XmlResource.BroadcastEffect | applier.py:357-364 | every target receives the whole group in order; every other node is unchanged |
| XmlResource.HtmlGroupBroadcast | applier.py:355-364 | an attribute group raises iff no `htmlContent` node has the attribute; otherwise every matching node receives the group and nothing else changes |
| XmlResource.BroadcastSamePayload | applier.py:357-360 | duplicated `htmlContent` containers end with the same payload, the group's last translation |
| XmlResource.OrdinalsOnlyPayloadsOf | applier.py:370-383 | ordinal writes change only payloads of that tag's nodes |
| XmlResource.BroadcastOnlyPayloadsOf | applier.py:355-364 | broadcasting changes only payloads of `htmlContent` nodes |
| XmlResource.HtmlGroupsOnlyPayloadsOf | applier.py:347-364 | the whole `htmlContent` cluster changes only payloads of `htmlContent` nodes |
| XmlResource.TagGroupOnlyPayloadsOf | applier.py:345-383 | a tag cluster changes only payloads of its own tag's nodes |
| XmlResource.EligibleDependsOnTag | applier.py:367-369 | the eligible list of a tag depends only on that tag's nodes |
| XmlResource.OtherGroupsKeepOrdinals | applier.py:345-383 | applying one tag's group leaves every other tag's eligible list unchanged, so ordinals keep their meaning across groups |
| XmlResource.BadOrdinalAbortsGroups | applier.py:345-382 | an out-of-range ordinal in any visited group aborts the cluster loop |
| XmlResource.BadOrdinalAbortsFile | applier.py:370-385 | an entry whose ordinal is out of range for its tag in the parsed file aborts the whole file before the write |
| XmlResource.TagGroupsOnlyPayloads | applier.py:345-383 | the cluster loop keeps every node's tag, parent and attribute and touches no node of a tag without entries |
| XmlResource.XmlOnlyRewritesPayloads | applier.py:320-391 | applying a file adds, removes and moves no node; nodes of a tag without entries are written back exactly as parsed |
| XmlResource.TagGroupsOrdinalEffect | applier.py:345-383 | across the remaining clusters, a node of an ordinary tag is written only by its own tag's cluster, by ordinal in its current eligible list |
| XmlResource.XmlOrdinalEffect | applier.py:320-391 | in a file that is written, a node of an ordinary tag is rewritten exactly when an entry of its tag names it by ordinal in the eligible list of the parsed document, and then holds the last such entry's translation; otherwise it is written back as parsed |
| XmlResource.HtmlGroupsNodeEffect | applier.py:347-364 | across the remaining attribute groups, an `htmlContent` node receives exactly the group of its own `tag` attribute, and nothing if that attribute is not among them |
| XmlResource.TagGroupsHtmlEffect | applier.py:345-364 | across the remaining clusters, an `htmlContent` node is written only by the `htmlContent` cluster |
| XmlResource.XmlHtmlEffect | applier.py:320-391 | in a file that is written, an `htmlContent` node receives, in order, every `htmlContent` entry whose attribute equals its `tag` attribute; a node without such entries is written back as parsed |
| XmlResource.HtmlNodesKeep | applier.py:356 | the attribute query gives the same nodes after any payload writes |
| XmlResource.EntryFailsKept | applier.py:345-383 | whether an entry of another tag can be applied is not changed by a tag group |
| XmlResource.HtmlGroupsFailIff | applier.py:355-362 | the attribute groups raise exactly when some attribute has no `htmlContent` node |
| XmlResource.TagGroupFailsIff | applier.py:347-383 | one tag cluster raises exactly when one of its entries cannot be applied |
| XmlResource.TagGroupsFailIff | applier.py:345-383 | the remaining clusters raise exactly when one of their entries cannot be applied to the current document |
| XmlResource.XmlFailsIff | applier.py:320-391 | a file raises, and is not written, exactly when some entry cannot be applied to the document as parsed: an ordinary tag whose eligible list cannot be built or does not reach the entry's ordinal, or an `htmlContent` attribute that no node carries |

## Left out

- File I/O is not modelled: globbing, opening and writing files, copying, and the existence checks of `apply_res` and `apply_src`. A file is its list of lines, or its element sequence.
- lxml parsing and serialisation are not modelled, nor CDATA handling. A node's payload is an `Option<string>`; none stands for the case where `get_element_CDATA` returns `None`.
- `util.xml_node_replace_translation` is not part of this model. Writing an entry into a node sets the node's payload to the entry's translation (`SetPayload`).
- XmlResource.SetPayload: an entry with an empty translation is written as an empty payload, not skipped as for source files (applier.py:431-432). `apply_xml` passes every entry on without a check (applier.py:359-364, 383), and the helper that decides the case is not part of this model.
- `XmlEntry.from_json` and `CodeEntry.from_json` are not part of this model. Entries are given already decoded, in dictionary order.
- Logging, `print`, and building the review URL are not modelled. `ApplyJavaLine` returns its warnings as a list instead of logging them. The ordinal error's log call has more arguments than format fields; that only affects the log, which is left out.
- `apply_res` and `apply_src` are not modelled. In the code, an exception raised in `apply_xml` propagates out of `apply_res` and stops every file after it. The model follows the code only as far as one file: `Err` means that file is not written.
- The bare `raise Exception` of an out-of-range ordinal is modelled as `IndexOutOfRange(tag, ordinal, count)`, and an `htmlContent` attribute with no node as `NoHtmlContent(attribute)`. Only which case raises, and that the file is not written, is modelled, not the Python exception class.
- `ui_value_modify` is not modelled because it does floating-point arithmetic.
- The cosmetic rewrite tables (`modify_css`, `modify_java`, `modify_xml`) are not modelled. On `UtilText.java` lines the `addBro` replacement runs but never matches, because the replacement just before it has already rewritten the same pattern.
- XPath quoting of the attribute value is not modelled. The query is taken to select exactly the `htmlContent` elements whose `tag` attribute equals the string.
- Strings.Strip: Python's `str.isspace` is modelled by its fixed list of whitespace code points, not the full Unicode database lookup.

## Findings

| source | as written | input that shows it | evidently intended | confidence | as-written member | corrected member |
|---|---|---|---|---|---|---|
| applier.py:453 | an injected `\n` escape is removed with one `replace("\\n", "")` pass, which can join a preceding backslash with a following `n` into a new `\n` | translation made of backslash, backslash, n, n (with no `\n` in the original): the pass leaves backslash, n | the spliced translation carries no `\n` escape, as the warning's purpose implies | low; not executed | JavaSource.SinglePassLineKeepsNewline | JavaSource.StripNewlineEscapes |

`ApplyJavaLine` follows the code as written and splices the single-pass result. `StripNewlineEscapes` is the corrected stripping, with no `\n` escape left in any input. `SplicedTranslation` and `StripAgreesWithSinglePass` prove the two agree exactly when the single pass leaves no `\n` escape.
