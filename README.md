# DSV rows, string utilities and the XML writer, in Dafny

This project models four pieces of a small C++ library and proves properties of them.

**The DSV row reader (`DSVReader`).** It splits a character stream into newline-terminated rows of fields.
- The delimiter is configurable. A requested `"` falls back to `,`.
- Quoted spans keep delimiters and newlines literally, and `""` inside a span stands for one quote.
- A bare newline is a row with no fields.
- The last row may lack its newline, and an unterminated quote is accepted.
- The end flag is set once the source is exhausted, and it is never cleared.

The class `DSVReader.Reader` holds the source as `input: seq<char>` with a cursor `pos`. `ReadRow` and its inner quoted-span loop are methods with `while` loops. They are proved against the position-based functions `ScanQuoted`, `ScanRow` and `ReadRowSpec`. `ReadAll` stands for calling `ReadRow` until the source is exhausted, and the method `DSVRoundTrip.ReadRows` proves that a `Reader` driven that way returns `ReadAll`.

**The DSV row writer (`DSVWriter`).** It quotes a field only when needed, or always when `quoteAll` is set. It doubles quotes inside quoted fields, puts the delimiter only between fields, and ends every row with a newline. The class `DSVWriter.Writer` appends to `output: seq<char>`. `WriteRow` is proved against `EncodeRow`. `EncodeRows` is the text of several rows, `EncodeRowsSnoc` and the method `DSVRoundTrip.WriteRows` show that it is what successive `WriteRow` calls append.

**The round trip (`DSVRoundTrip`).** Reading back what the writer wrote gives the rows back, row by row and for whole streams, under three conditions:
- the reader and the writer use the same delimiter;
- the delimiter is not the newline;
- the row is not `[""]` written without `quoteAll`.

The last exception comes from the code. The writer writes `[""]` exactly as it writes `[]`, as a bare newline, and the reader reads that as `[]` (`EmptyFieldLost`).

**`StringUtils`.** Python-style string functions:
- `Slice` with negative indices;
- case mapping;
- stripping and padding;
- `Replace`;
- `Split` on a separator or on whitespace, and `Join`;
- `ExpandTabs`;
- the Levenshtein `EditDistance`, filled into a 2-D array.

The functions the source writes as loops are methods, each proved against a specification function. Lemmas about those functions state what the library promises. Examples: `Join(sep, Split(s, sep)) == s`; `Replace` equals split-then-join and never rescans inserted text; whitespace splitting yields non-empty words without whitespace that together hold every non-space character; edit distance is 0 exactly for equal strings, is symmetric, and lies between the difference of the lengths and the longer length.

**The XML writer (`XMLWriter`).**
- `EscapeText` and `EscapeAttr` are modelled as functions, proved safe (no raw `<`/`>`, and for attributes no quotes either) and invertible by an entity decoder.
- The class `XMLWriter.Writer` holds the sink's `output` and the stack `openTags` of open element names.
- `WriteEntity` pushes a name only after its start tag has been accepted, and pops only when an end tag matches the top.
- `Flush` closes the open elements innermost first.
- The sink either accepts a whole string or refuses it. The model leaves that choice open and proves every contract for both outcomes.

Characters are Dafny `char`s in the C locale. Whitespace is space, `\t`, `\n`, `\v`, `\f` and `\r`, and case mapping touches only `a`-`z` and `A`-`Z`. Integers are unbounded.

## Model

| member | source | states |
|---|---|---|
| DSVCommon.NormalizeDelimiter | src/DSVReader.cpp:13 | a requested `"` becomes `,`, every other delimiter is kept, and the result is never the quote |
| DSVReader.ScanQuoted | src/DSVReader.cpp:59-76 | scanning a quoted span stays inside the input and consumes at least one character when any remains |
| DSVReader.ScanQuotedAppends | src/DSVReader.cpp:59-76 | a quoted span appends its content to the pending field without depending on it |
| DSVReader.ScanRow | src/DSVReader.cpp:34-89 | a row scan stays inside the input and consumes at least one character when any remains |
| DSVReader.ReadRowSpec | src/DSVReader.cpp:24-28 | there is no row exactly when the source is exhausted; a row always consumes at least one character |
| DSVReader.ScanRowStopsAfterNewline | src/DSVReader.cpp:44-53 | a row that ends before the end of the input ends just after a newline |
| DSVReader.BlankLine | src/DSVReader.cpp:44-51 | a row that starts with a newline has zero fields and consumes only that newline |
| DSVReader.ReadAllBound | src/DSVReader.cpp:34-89 | reading until exhaustion yields at most one row per remaining character, and at least one row when input remains |
| DSVReader.FieldCount | src/DSVReader.cpp:78-83 | a row has as many fields as its unquoted delimiters plus one, plus the fields already completed, unless it is a blank line |
| DSVReader.RowFieldCount | src/DSVReader.cpp:52 | a blank line reads as `[]`; any other row has exactly one more field than unquoted delimiters |
| DSVReader.NoTrailingNewline | testsrc/DSVTest.cpp:153-159 | `a,b` with no newline reads as the single row `["a","b"]` |
| DSVReader.Reader.constructor | src/DSVReader.cpp:9-15 | the reader starts at the beginning of the source, with the normalised delimiter and the end flag clear |
| DSVReader.Reader.End | src/DSVReader.cpp:19-21 | the end flag is set only when the source is exhausted |
| DSVReader.Reader.ReadQuoted | src/DSVReader.cpp:59-76 | the quoted-span loop consumes exactly the span `ScanQuoted` describes and yields its field |
| DSVReader.Reader.ReadRow | src/DSVReader.cpp:23-90 | returns false exactly when the source is exhausted on entry, with an empty row; otherwise the row and the new cursor are those of `ReadRowSpec`; afterwards the end flag says whether the source is exhausted, and it is never cleared |
| DSVWriter.EncodeRowsSnoc | src/DSVWriter.cpp:19-49 | writing one more row appends its text after the text of the earlier rows |
| DSVWriter.EscapeConcat | src/DSVWriter.cpp:30-33 | doubling quotes distributes over concatenation |
| DSVWriter.EscapeCounts | src/DSVWriter.cpp:30-33 | a field with n quotes escapes to 2n quotes, every other character count is unchanged, and the length grows by n |
| DSVWriter.EscapeCharCounts | src/DSVWriter.cpp:31-32 | one escaped character contributes two quotes if it is a quote and itself once otherwise |
| DSVWriter.OccurrencesConcat | src/DSVWriter.cpp:30-33 | character counts add up over concatenation |
| DSVWriter.QuotingDecision | src/DSVWriter.cpp:23-40 | an encoded field starts with a quote exactly when it needs quoting; an unquoted field is written verbatim; a quoted one carries 2n+2 quotes |
| DSVWriter.EmptyRowWritten | testsrc/DSVTest.cpp:21-26 | the empty row is written as a bare newline |
| DSVWriter.EmptyFieldsWritten | testsrc/DSVTest.cpp:77-82 | `["","a",""]` is written as `,a,` and a newline |
| DSVWriter.QuoteAllWritten | testsrc/DSVTest.cpp:49-54 | with `quoteAll`, `["a","b"]` is written with both fields quoted |
| DSVWriter.QuoteDelimiterWritten | testsrc/DSVTest.cpp:70-75 | a requested quote delimiter writes `a,b` |
| DSVWriter.Writer.constructor | src/DSVWriter.cpp:9-15 | the writer starts with empty output, the normalised delimiter and the given `quoteAll` |
| DSVWriter.Writer.Put | src/DSVWriter.cpp:29 | the sink accepts one character, appended to the output |
| DSVWriter.Writer.PutEscaped | src/DSVWriter.cpp:30-33 | the quoted-field loop appends the field with its quotes doubled |
| DSVWriter.Writer.PutVerbatim | src/DSVWriter.cpp:37-39 | the unquoted-field loop appends the field unchanged |
| DSVWriter.Writer.PutField | src/DSVWriter.cpp:28-40 | one field is appended as `EncodeField` says |
| DSVWriter.Writer.PutFieldOfRow | src/DSVWriter.cpp:20-45 | a field of a row is appended, followed by the delimiter unless it is the last |
| DSVWriter.Writer.WriteRow | src/DSVWriter.cpp:19-49 | always returns true and appends exactly `EncodeRow` of the row |
| DSVRoundTrip.ReadPlain | src/DSVReader.cpp:84-88 | an unquoted field without delimiter, quote or newline is read character by character into the pending field |
| DSVRoundTrip.ReadEscaped | src/DSVReader.cpp:59-76 | an escaped field followed by a closing quote reads back as the field and ends just after that quote |
| DSVRoundTrip.ReadUnterminated | src/DSVReader.cpp:59-60 | an escaped field that runs to the end of the input, with no closing quote, reads back whole and the span ends at the end of the input |
| DSVRoundTrip.UnterminatedField | src/DSVReader.cpp:35-38 | a field whose opening quote is never closed ends the row at the end of the input, and the row gets that field with its doubled quotes halved |
| DSVRoundTrip.UnterminatedInput | src/DSVReader.cpp:35-38 | an input made of a quote and an escaped field, with no closing quote, reads as one row of that one field |
| DSVRoundTrip.UnterminatedQuote | src/DSVReader.cpp:59-60 | `"abc` reads as the row `["abc"]` |
| DSVRoundTrip.ReadField | src/DSVReader.cpp:56-88 | an encoded field, in either form, followed by a delimiter or a newline reads back as the field |
| DSVRoundTrip.ReadFieldsFrom | src/DSVReader.cpp:78-83 | the encoded remaining fields of a row followed by a newline read back as those fields |
| DSVRoundTrip.EncodedFieldsNonEmpty | src/DSVReader.cpp:49-51 | every written row other than `[]` and the unquoted `[""]` has something before its newline, so it is not taken for a blank line |
| DSVRoundTrip.ReadRowAt | src/DSVReader.cpp:23-90 | a written row found at a position reads back as that row and consumes exactly its text |
| DSVRoundTrip.RoundTrip | src/DSVWriter.cpp:19-49 | a written row embedded anywhere in a stream reads back as the original row |
| DSVRoundTrip.ReadAllStep | src/DSVReader.cpp:23-90 | reading until exhaustion is the first row followed by the rows after it |
| DSVRoundTrip.RoundTripRows | testsrc/DSVTest.cpp:161-176 | a sequence of written rows reads back, in order, as the same rows |
| DSVRoundTrip.ReadWritten | testsrc/DSVTest.cpp:161-189 | `ReadAll` of `EncodeRows` of recoverable rows, with a usable delimiter, is exactly those rows |
| DSVRoundTrip.WrittenDelimiters | src/DSVWriter.cpp:43-45 | a written non-empty row holds exactly one unquoted delimiter between each pair of neighbouring fields |
| DSVRoundTrip.EmptyFieldsRead | testsrc/DSVTest.cpp:133-139 | `,a,` and a newline read as `["","a",""]` |
| DSVRoundTrip.TwoRowsRead | testsrc/DSVTest.cpp:141-151 | two newline-terminated rows read as two rows |
| DSVRoundTrip.EmptyFieldLost | src/DSVWriter.cpp:36-47 | without quoting, `[""]` is written exactly as `[]` is and reads back as `[]` |
| DSVRoundTrip.FixtureRoundTrip | testsrc/DSVTest.cpp:161-189 | the round-trip fixtures, including fields with a delimiter, a quote and a newline, read back unchanged |
| DSVRoundTrip.WriteRows | testsrc/DSVTest.cpp:161-165 | a `Writer` given the rows one `WriteRow` at a time leaves `EncodeRows` of them, with its normalised delimiter, in its sink |
| DSVRoundTrip.ReadRows | testsrc/DSVTest.cpp:167-175 | a `Reader` asked for rows until its end flag is set returns `ReadAll` of its source, and the flag is then set |
| DSVRoundTrip.WriteThenRead | testsrc/DSVTest.cpp:161-189 | a `Writer` given the rows one `WriteRow` at a time and a `Reader` over its output, read until its end flag is set, return `ReadAll` of `EncodeRows`; the end flag is then set; with a usable delimiter and recoverable rows the rows read are exactly the rows written |
| StringUtils.ToUpper | src/StringUtils.cpp:42 | `a`-`z` map to `A`-`Z`; every other character is kept; the result is never a lower-case letter |
| StringUtils.ToLower | src/StringUtils.cpp:50 | `A`-`Z` map to `a`-`z`; every other character is kept; the result is never an upper-case letter |
| StringUtils.CaseRoundTrip | src/StringUtils.cpp:39-53 | mapping a character's case twice is the same as mapping it once to the final case |
| StringUtils.ClampIndex | src/StringUtils.cpp:10-22 | a negative index counts from the end, and the result is clamped to `[0, len]` |
| StringUtils.Slice | src/StringUtils.cpp:7-26 | with `end == 0` meaning the whole length and both ends clamped, the result is empty when `start >= end` and is otherwise the characters in `[start, end)` |
| StringUtils.SliceSplit | src/StringUtils.cpp:14-16 | slicing before and after a cut point gives back the string, and `Slice(s, 0, 0)` is `s` |
| StringUtils.SliceNegative | src/StringUtils.cpp:10-12 | a negative start `-k` is the same as `len - k` |
| StringUtils.SliceExamples | testsrc/StringUtilsTest.cpp:4-14 | the test's slices that give a positive end: `("ponyo", 0, 3)` is `"pon"` and `("cleave", 2, 4)` is `"ea"` |
| StringUtils.SliceNegativeEndExamples | testsrc/StringUtilsTest.cpp:4-14 | the test's slices with a negative end: `("snake plant", 1, -1)` is `"nake plan"` and `("monstera", -3, -1)` is `"er"` |
| StringUtils.SliceToEndExamples | testsrc/StringUtilsTest.cpp:4-14 | the test's slices with the end left at its default 0, including the empty string, a positive start, and a start of minus the whole length |
| StringUtils.Uppercased | src/StringUtils.cpp:39-45 | the result has the same length, with each character upper-cased on its own |
| StringUtils.Lowercased | src/StringUtils.cpp:47-53 | the result has the same length, with each character lower-cased on its own |
| StringUtils.Capitalized | src/StringUtils.cpp:28-37 | the first character is upper-cased, every other one lower-cased, and the length is kept |
| StringUtils.Upper | src/StringUtils.cpp:39-45 | the in-place loop yields `Uppercased` of the input |
| StringUtils.Lower | src/StringUtils.cpp:47-53 | the in-place loop yields `Lowercased` of the input |
| StringUtils.Capitalize | src/StringUtils.cpp:28-37 | the in-place loop yields `Capitalized` of the input |
| StringUtils.CaseMappings | testsrc/StringUtilsTest.cpp:27-48 | upper- and lower-casing are idempotent, and lower- (upper-) casing after the other mapping is the same as lower- (upper-) casing directly |
| StringUtils.CapitalizeIdempotent | testsrc/StringUtilsTest.cpp:16-25 | capitalizing is idempotent and ignores the previous case of the string |
| StringUtils.TrimLeftSpec | src/StringUtils.cpp:55-61 | the left strip is a suffix of the input; everything removed is whitespace; the result does not start with whitespace |
| StringUtils.TrimRightSpec | src/StringUtils.cpp:63-75 | the right strip is a prefix of the input; everything removed is whitespace; the result does not end with whitespace |
| StringUtils.TrimsCommute | src/StringUtils.cpp:77-79 | stripping the left then the right gives the same as the other order |
| StringUtils.LStrip | src/StringUtils.cpp:55-61 | the index loop yields `TrimLeft` of the input |
| StringUtils.RStrip | src/StringUtils.cpp:63-75 | the backward index loop, with its empty and all-whitespace cases, yields `TrimRight` of the input |
| StringUtils.Strip | src/StringUtils.cpp:77-79 | the result is the left strip of the right strip |
| StringUtils.StripSpec | src/StringUtils.cpp:77-79 | the strip is a substring of the input with only whitespace removed before and after it |
| StringUtils.StripEnds | testsrc/StringUtilsTest.cpp:70-79 | a non-empty strip neither starts nor ends with whitespace, and an all-whitespace string strips to `""` |
| StringUtils.Fill | src/StringUtils.cpp:89 | `n` copies of the fill character, none for a negative count |
| StringUtils.LJust | src/StringUtils.cpp:92-98 | a string at least `width` long is kept; otherwise the result has length `width`, starts with the string and is filled on the right |
| StringUtils.RJust | src/StringUtils.cpp:100-106 | a string at least `width` long is kept; otherwise the result has length `width`, ends with the string and is filled on the left |
| StringUtils.Center | src/StringUtils.cpp:81-90 | a string at least `width` long is kept; otherwise the result has length `width`, with the string at `(width - len) / 2` and fill everywhere else |
| StringUtils.CenterBalance | src/StringUtils.cpp:86-88 | the right padding equals the left one or exceeds it by one |
| StringUtils.PaddingStrips | testsrc/StringUtilsTest.cpp:81-107 | padding with spaces is undone by stripping, for strings without edge whitespace |
| StringUtils.CenterStrips | src/StringUtils.cpp:81-90 | a string without edge whitespace, centred in spaces wider than itself, comes back from stripping both sides |
| StringUtils.Find | src/StringUtils.cpp:114 | a found occurrence lies at or after the start position and inside the string |
| StringUtils.FindSpec | src/StringUtils.cpp:114 | `Find` returns the first occurrence at or after the start position, and none exactly when there is none |
| StringUtils.ReplaceScanStep | src/StringUtils.cpp:114-117 | one replacement step continues the scan just after the inserted text, with the same final result |
| StringUtils.Replace | src/StringUtils.cpp:108-119 | the in-place replace loop yields `ReplaceAll` |
| StringUtils.ReplaceScanSplit | src/StringUtils.cpp:113-117 | the scan from a position keeps the text before it and joins the pieces after it with the replacement |
| StringUtils.ReplaceIsSplitJoin | src/StringUtils.cpp:108-119 | for a non-empty pattern, replacing is splitting on the pattern and joining with the replacement; inserted text is never rescanned |
| StringUtils.ReplaceSame | testsrc/StringUtilsTest.cpp:109-118 | replacing a pattern by itself changes nothing, including for the empty pattern |
| StringUtils.ReplaceAbsent | src/StringUtils.cpp:109-111 | a string that does not contain the pattern is returned unchanged |
| StringUtils.Join | src/StringUtils.cpp:156-165 | the join loop yields `JoinOf` |
| StringUtils.JoinCons | src/StringUtils.cpp:160-163 | joining puts the separator between the first part and the join of the rest |
| StringUtils.JoinLength | src/StringUtils.cpp:156-165 | the join's length is the total length of the parts plus one separator between each pair |
| StringUtils.TotalLengthSnoc | src/StringUtils.cpp:161-163 | appending a part adds its length to the total |
| StringUtils.SplitFrom | src/StringUtils.cpp:143-153 | splitting from any position yields at least one piece |
| StringUtils.SplitJoin | src/StringUtils.cpp:143-153 | joining the pieces with the separator gives back the text they came from |
| StringUtils.PieceFree | src/StringUtils.cpp:146-151 | each piece cut before the next occurrence contains no occurrence of the separator |
| StringUtils.SplitPiecesFree | src/StringUtils.cpp:143-153 | no piece contains the separator |
| StringUtils.SplitFromShift | src/StringUtils.cpp:143-153 | the pieces depend only on the text from the start position on |
| StringUtils.SplitSeparatorSpec | testsrc/StringUtilsTest.cpp:120-137 | with a non-empty separator the result is never empty, joins back to the input, and no piece contains the separator |
| StringUtils.WordScanGood | src/StringUtils.cpp:124-141 | whitespace splitting yields only non-empty words without whitespace |
| StringUtils.WordScanChars | src/StringUtils.cpp:124-141 | the words hold, in order, exactly the non-whitespace characters of the input |
| StringUtils.WordsSpec | src/StringUtils.cpp:124-141 | the words are non-empty and whitespace-free, concatenate to the non-space characters, and an all-whitespace string has none |
| StringUtils.SplitWords | src/StringUtils.cpp:124-141 | the whitespace loop yields `Words` of the input |
| StringUtils.Split | src/StringUtils.cpp:121-154 | the result is `SplitAll`: words for the empty separator, pieces otherwise |
| StringUtils.ExpandTabs | src/StringUtils.cpp:167-183 | the loop, with its column counter equal to the output length, yields `Expanded` |
| StringUtils.ExpandedNoTabs | src/StringUtils.cpp:172-176 | the result contains no tab |
| StringUtils.ExpandedPlain | src/StringUtils.cpp:177-180 | text without tabs is copied unchanged |
| StringUtils.ExpandedLast | src/StringUtils.cpp:171-181 | each character adds between 1 and `tabsize` characters |
| StringUtils.ExpandedLength | src/StringUtils.cpp:167-183 | the result is at least as long as the input and at most `tabsize` times as long |
| StringUtils.ExpandedTabStop | src/StringUtils.cpp:172-176 | after a tab the column is the next multiple of `tabsize` |
| StringUtils.ExpandedPrefix | src/StringUtils.cpp:171-181 | expanding a longer text extends the expansion of its prefix |
| StringUtils.Min3 | src/StringUtils.cpp:207 | the minimum is one of the three values and no larger than any |
| StringUtils.LevZero | src/StringUtils.cpp:194-210 | the distance of two prefixes is 0 exactly when they are equal |
| StringUtils.LevUpper | src/StringUtils.cpp:194-210 | the distance is at most the longer length |
| StringUtils.LevLower | src/StringUtils.cpp:194-210 | the distance is at least the difference of the lengths |
| StringUtils.LevSymmetric | src/StringUtils.cpp:194-210 | the distance does not depend on the order of the strings |
| StringUtils.DistanceSpec | src/StringUtils.cpp:185-213 | the distance is 0 exactly for equal strings (lower-cased with `ignorecase`), is symmetric and is bounded by the lengths |
| StringUtils.LevCell | src/StringUtils.cpp:203-208 | one table cell is the diagonal for equal characters and one more than the least neighbour otherwise |
| StringUtils.FillRow | src/StringUtils.cpp:202-209 | filling row `i` makes rows 0 to `i` of the table equal to the recurrence and leaves column 0 of the other rows alone |
| StringUtils.EditDistance | src/StringUtils.cpp:185-213 | the nested loops over the 2-D table yield `Distance` |
| XMLWriter.EscapeText | src/XMLWriter.cpp:6-15 | replaces `&`, `<` and `>` by entity references and copies every other character: never shorter than the input, a plain first character comes out unchanged and a special one opens a reference with `&` |
| XMLWriter.EscapeAttr | src/XMLWriter.cpp:17-28 | the same for attribute values, where `"` and `'` are special too |
| XMLWriter.EscapeTextAppend | src/XMLWriter.cpp:6-15 | escaping character data distributes over concatenation |
| XMLWriter.EscapeAttrAppend | src/XMLWriter.cpp:17-28 | escaping an attribute value distributes over concatenation |
| XMLWriter.EscapeTextSafe | src/XMLWriter.cpp:6-15 | escaped character data contains no raw `<` or `>` |
| XMLWriter.EscapeAttrSafe | src/XMLWriter.cpp:17-28 | an escaped attribute value contains no raw `<`, `>`, `"` or `'` |
| XMLWriter.EscapeTextLength | src/XMLWriter.cpp:6-15 | escaping never shortens text, and keeps its length exactly when there is nothing to escape |
| XMLWriter.EscapeTextIdentity | src/XMLWriter.cpp:6-15 | character data is unchanged by escaping exactly when it holds no `&`, `<` or `>` |
| XMLWriter.EscapeTextPlain | src/XMLWriter.cpp:12 | text without special characters is copied |
| XMLWriter.EscapeAttrAsText | src/XMLWriter.cpp:17-28 | an attribute value without quotes is escaped as character data is |
| XMLWriter.UnescapeChar | src/XMLWriter.cpp:19-25 | decoding one escaped character gives it back, whatever follows |
| XMLWriter.UnescapeText | src/XMLWriter.cpp:6-15 | decoding escaped character data gives the original text |
| XMLWriter.UnescapeAttr | src/XMLWriter.cpp:17-28 | decoding an escaped attribute value gives the original value |
| XMLWriter.EscapeTextInjective | src/XMLWriter.cpp:6-15 | distinct texts are written as distinct character data |
| XMLWriter.ClosingTagsAppend | src/XMLWriter.cpp:94-100 | closing a stack closes its upper part before its lower part, in reverse order of opening |
| XMLWriter.StartEndBalanced | src/XMLWriter.cpp:58-69 | a start entity, character data or a complete element, and the matching end entity leave the stack as it was |
| XMLWriter.StackChangesAtTop | src/XMLWriter.cpp:47-90 | a write leaves the stack alone, pushes a start name or pops an end name; an end entity pops exactly when its name is on top |
| XMLWriter.StartMarkup | src/XMLWriter.cpp:48-59 | a start entity's markup opens with `<` and its name, and its name goes on top of the stack |
| XMLWriter.Writer.constructor | src/XMLWriter.cpp:42-43 | the writer starts with an empty sink and no open elements |
| XMLWriter.Writer.WriteString | src/XMLWriter.cpp:36-39 | the sink either appends the whole string or refuses it and keeps its contents |
| XMLWriter.Writer.AttributesText | src/XMLWriter.cpp:51-53 | the attribute loop yields the attributes in order, each as ` name="escaped value"` |
| XMLWriter.Writer.WriteEntity | src/XMLWriter.cpp:47-90 | on success the sink gains the entity's markup and the stack follows `OpenAfter`; on failure and for an unrecognized kind nothing changes |
| XMLWriter.Writer.Flush | src/XMLWriter.cpp:92-102 | on success the stack is empty and the sink gained the closing tags innermost first; on a refusal the stack is a lower part of the old one, shorter by at least one, and the sink holds the closing tags above the refused one |
| XMLWriter.BareStart | src/XMLWriter.cpp:49-55 | a start entity without attributes is written as `<name>` |
| XMLWriter.StartWithAttribute | src/XMLWriter.cpp:49-55 | a start entity with one attribute is written as `<name`, the attribute and `>` |
| XMLWriter.ClosingTwo | src/XMLWriter.cpp:94-100 | a two-element stack is closed inner element first |
| XMLWriter.EscapedAttributeValue | testsrc/XMLTest.cpp:99-103 | `1&2` is escaped as `1&amp;2` |
| XMLWriter.EscapeAround | src/XMLWriter.cpp:6-15 | escaping a text splits around any one of its characters |
| XMLWriter.EscapedCharacterData | testsrc/XMLTest.cpp:99-103 | `x < y & z` is escaped as `x &lt; y &amp; z` |
| XMLWriter.WritesAndEscapes | testsrc/XMLTest.cpp:67-104 | when every write succeeds, a root with an attribute around a child holding text produces the document with the attribute and text escaped, and the flush adds nothing |
| XMLWriter.FlushClosesOpenTags | testsrc/XMLTest.cpp:106-124 | two start tags and a flush produce the inner closing tag before the outer one |

## Left out

- src/XMLReader.cpp is not part of this model. It is a façade over the expat streaming parser, whose callbacks and chunking cannot be seen.
- The concrete data sources and sinks, `shared_ptr` and the pimpl plumbing are not modelled. A source is a `seq<char>` with a cursor, and a sink is an append-only `seq<char>`.
- The DSV writer ignores the results of `Put`, so `DSVWriter.Writer.Put` always accepts its character. No failure propagation is modelled.
- The XML sink's `Write` is modelled only as "append the whole string or refuse it", chosen nondeterministically. A refused write is modelled as leaving the sink unchanged, not as a partial write.
- `isspace`, `toupper` and `tolower` follow the C locale only. No other locale is modelled.
- Machine-integer widths are not modelled. This covers `ssize_t` in `Slice`, `int` widths in the padding functions, the `int` table of `EditDistance` and `size_t` positions. All are unbounded integers.
- StringUtils.ExpandTabs: requires `tabsize > 0`. The source divides by `tabsize` when it meets a tab, so a non-positive `tabsize` on text containing a tab is undefined there. Non-positive `tabsize` on tab-free text is not modelled either.
- XMLWriter.Writer.WriteEntity: the final `return false` is modelled by an `Unrecognized` kind that stands for any other value of the C++ enumeration. The header declaring that enumeration is not part of this model.
- `XMLWriter.Unescape` is not code from the library. It is the decoding an XML reader applies, and it exists only to state that escaping loses nothing.
- Some loops are factored into helper methods, each called exactly where the source's inline loop runs: DSVReader.Reader.ReadQuoted, DSVWriter.Writer.PutEscaped, PutVerbatim, PutField and PutFieldOfRow, StringUtils.SplitWords, StringUtils.FillRow and XMLWriter.Writer.AttributesText.
- `std::string::find` is modelled by the function `StringUtils.Find`, and `substr` and `replace` by sequence slicing and concatenation.
- The test files are not modelled as code. Their expectations appear as example lemmas, as the XML writer's two scenario methods and as `DSVRoundTrip.WriteThenRead`, which drives the two DSV classes the way the round-trip tests do.
