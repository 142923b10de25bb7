# XML provider codec — a Dafny model

The XML provider of the data-integration framework moves rows between the
framework's in-memory model (rows as `Dictionary<string, object>`, table
mappings with column mappings, conditionals and options) and an XML dialect
of the form `tables/table[@tableName]/item/column[@columnName]`.  This
project models the streaming codec that sits on top of the host XML reader
and writer, and proves what it does:

- **The table cursor** (`XmlProvider.SkipToBeginning`, `FillMappingOptions`,
  `GetXmlReader`): seeking a document to the `table` a mapping reads,
  skipping other tables whole, collecting the extra attributes of `table`
  elements as table options, and falling back to an empty one-table document
  when no source file has the table.
- **The schema pass** (`AddTableToSchema`): a table's columns are the
  `columnName`s of the elements inside its first `item`.
- **The row reader** (`XmlSourceReader`): `IsDone` pulls one `item` at a
  time, `SetNextRow` decodes its `column` children into a row and null-fills
  the mapped columns, `ReplaceDecimalSeparator` rewrites decimal separators,
  and `RowMatchesConditions` filters the row.
- **The row writer** (`XmlDestinationWriter`): one `item` per row, one
  `column` per active, source-bound column mapping, the content chosen in
  priority order (script value, `isNull` marker, date layout, formatted
  value), and rows holding characters XML cannot carry dropped and logged
  when skipping is on.
- **The small decisions**: the separator mode `GetReader` picks, the options
  `WriteMappingOptions` writes, and the element nesting of `RunJob`.

The host `XmlReader` is a cursor over a sequence of nodes
(`HostXml.HostReader`), the host `XmlWriter` an append-only list of events
that refuses text outside the XML `Char` production and attribute names
that are not names or are already on the element (`HostXml.HostWriter`), and the job log an append-only list of lines.  A
cell value is a C# `null`, `DBNull.Value` or a string (`Model.Val`); a row
is a sequence of key/value pairs in insertion order.  Calls into the
framework and the culture (script values, value conversion and formatting,
`DateTime.Parse`, the culture's separators, `Converter.ToDouble`) are
uninterpreted function parameters (`Model.WriterHost`,
`Model.ReaderCulture`).

The code that changes state step by step is modelled as classes and
methods with loops (`XmlSourceReader`, `XmlDestinationWriter`,
`XmlProvider`, `Schema`, the `JobRunner` methods), each proved against a
function of the node sequence or of the old state (`PullFrom`,
`SetNextRowSpec`, `EncodeItem`, `Seek`, `TableSchemaAsWritten`, `Job`);
the properties are proved about those functions.  Where the code departs
from what its design evidently intends (see "Findings"), the methods do
what the code does, and the intended behaviour is defined beside it and
proved.

Behaviour kept as the code has it, where a reader of the design might
expect something else:

- The row filter implements only `EqualTo`, `DifferentFrom` and `Contains`
  (on the value's text, `DBNull` reading as ""); `LessThan` and
  `GreaterThan` throw, and every other operator lets the row through.
- The explicit decimal-separator rewrite is not idempotent: a second pass
  deletes the separator the first one put in
  (`DecimalSeparator.RewriteTextNotIdempotent`).
- An empty `<item/>` element is decoded as the code reads it: the decoding
  loop runs on into the following nodes up to the next `</item>`.
- `FillMappingOptions` walks the attributes after `tableName`; on a
  `table` element without `tableName` it walks all of them, and
  attributes written before `tableName` are never collected
  (`Provider.CollectedAttrs`).

## Model

| member | source | states |
|---|---|---|
| SourceReader.XmlSourceReader.IsDone | src/XMLSourceReader.cs:28-59 | A call with no reader returns true and keeps the row; otherwise the result, the row `GetNext` then returns, where the reader stops and whether it is closed are those of `PullFrom` over the document's nodes, which the lemmas below characterise |
| SourceReader.TableEndCloses | src/XMLSourceReader.cs:32-44 | A `table` start tag or a `table`/`tables` end tag met before any `item` makes `IsDone` close the reader, move it to the end and return true, keeping the row it held |
| SourceReader.DoneCloses | src/XMLSourceReader.cs:28-59 | `IsDone` returns true exactly when it closes the reader, and then the reader is at the end; it never returns true with the reader left open |
| SourceReader.ReturnedRowPasses | src/XMLSourceReader.cs:46-53 | Whenever `IsDone` returns false, the row it leaves passes the mapping's conditionals and has a key for every active, source-bound column mapping: rejected rows are passed over by re-entering `IsDone` |
| SourceReader.RowTurnPasses | src/XMLSourceReader.cs:46-53 | The part after the read loop hands out only a row that passes the filter and covers the mapped columns |
| SourceReader.RowTurn | src/XMLSourceReader.cs:46-53 | After the read loop, `IsDone` never returns true nor closes the reader; a re-entry always starts strictly further on in the document |
| SourceReader.FindRowStart | src/XMLSourceReader.cs:32-44 | The read loop stops at the first `item` start tag or table end from where it starts, or at the end of the stream |
| SourceReader.FindRowStartFirst | src/XMLSourceReader.cs:32-44 | Any position that starts a row or ends the table, with none before it, is where the read loop stops |
| SourceReader.FallbackYieldsNoRows | src/XMLProvider.cs:1115 | On the empty-table document of a table no source file has, the first `IsDone` returns true at once and closes the reader: the mapping gets no rows |
| SourceReader.PullWrittenItem | src/XMLSourceReader.cs:28-173 | An `item` laid out as `ItemBody` of a row with unique keys and no C# `null` is pulled back as that row, null-filled and rewritten by the source's separator loop, when that row passes the filter; the reader stops on the item's end tag |
| SourceReader.TurnWrittenItem | src/XMLSourceReader.cs:46-53 | On an item laid out as `ItemBody`, the part after the read loop returns false with that row, null-filled and rewritten by the source's separator loop, when it passes the filter |
| SourceReader.DecodeWrittenItem | src/XMLSourceReader.cs:96-163 | `SetNextRow` on an item laid out as `ItemBody` gives back its columns, in order, with the missing mapped columns null-filled |
| SourceReader.SetNextRowFacts | src/XMLSourceReader.cs:96-173 | The row `SetNextRow` leaves, complete or partial, has unique keys; a complete one has a key for every active, source-bound column mapping |
| SourceReader.NullFillCovers | src/XMLSourceReader.cs:157-163 | Null-filling over the active, source-bound mappings gives each of them a key |
| SourceReader.DecodeUnique | src/XMLSourceReader.cs:129-153 | The decoding loop keeps keys unique, because `Dictionary.Add` refuses a key already present |
| SourceReader.DecodeStep | src/XMLSourceReader.cs:105-156 | One turn of the decoding loop on a node other than the item's end tag either refuses a duplicate key, stopping there with the partial row, or moves on with the updated accumulators |
| SourceReader.RewriteKeepsKeys | src/XMLSourceReader.cs:175-206 | The separator rewrite keeps the row's keys, in order |
| SourceReader.XmlSourceReader.constructor | src/XMLSourceReader.cs:20-27 | The reader takes the provider's reader for the mapping's table, with the separator settings and culture it is given, and holds no row yet |
| SourceReader.XmlSourceReader.ReadToRow | src/XMLSourceReader.cs:32-44 | The read loop moves the host reader to the position `FindRowStart` gives and reports whether it stopped on a table end |
| SourceReader.XmlSourceReader.SetNextRow | src/XMLSourceReader.cs:96-173 | The reader ends where `SetNextRowSpec` says; a decoded item becomes the row; a refused `Add` leaves the partial row and throws "Read from file failed. Partial read from table '…': …." naming the source table |
| SourceReader.XmlSourceReader.DecodeItem | src/XMLSourceReader.cs:101-156 | The decoding loop with its `key`/`value` accumulators computes `DecodeFrom` from the node after the item, up to the end tag named like the item |
| SourceReader.XmlSourceReader.DecodeNode | src/XMLSourceReader.cs:107-155 | One node of the decoding loop is handled as `StepToken` says, and the reader stays on it |
| SourceReader.XmlSourceReader.ScanAttributes | src/XMLSourceReader.cs:109-124 | The attribute loop computes `ScanAttrs` over the element's attributes, in order |
| SourceReader.XmlSourceReader.FillNulls | src/XMLSourceReader.cs:157-163 | The null-fill loop computes `NullFill` |
| SourceReader.XmlSourceReader.ReplaceDecimalSeparator | src/XMLSourceReader.cs:175-206 | The row becomes `RewriteRowAsWritten` of the old row: the loop over the column mappings rewrites the non-empty text of each eligible mapping's source column once per such mapping, so a column two eligible mappings share is rewritten twice; keys stay unique |
| SourceReader.XmlSourceReader.Dispose | src/XMLSourceReader.cs:208-212 | A reader that exists ends closed, at the end of the stream |
| ItemDecoder.ScanAttrsSpec | src/XMLSourceReader.cs:109-124 | The attribute loop leaves as key the value of the last `columnName` attribute (the key carried in when there is none); the value becomes the null marker, and the null flag is raised, exactly when some attribute is `isNull="true"` |
| ItemDecoder.DecodeFrom | src/XMLSourceReader.cs:105-156 | The decoding loop never moves back; a complete row ends on the end tag named like the item or at the end of the stream |
| ItemDecoder.DecodeTextColumn | src/XMLSourceReader.cs:144-153 | A column element with content and without `isNull="true"` adds, at its end tag, its text and CDATA pieces concatenated in document order, under its `columnName`; a key already present stops the decoder there |
| ItemDecoder.DecodeNullColumn | src/XMLSourceReader.cs:113-117 | A column element with `isNull="true"` adds the null marker, whatever text it holds |
| ItemDecoder.DecodeEmptyColumn | src/XMLSourceReader.cs:125-140 | An empty column element adds "" without `isNull="true"` and the null marker with it |
| ItemDecoder.DecodePieces | src/XMLSourceReader.cs:144-150 | A run of text and CDATA nodes appends its text, in document order, to the value being built |
| ItemDecoder.DecodePiecesNull | src/XMLSourceReader.cs:144-150 | A run of text and CDATA nodes leaves a null-marker value unchanged |
| ItemDecoder.NullFill | src/XMLSourceReader.cs:157-163 | Null-filling keeps every existing entry unchanged and in place, adds only null markers, gives every mapped column a key, adds no other key and keeps keys unique |
| ItemDecoder.PartialRowTextIsJoin | src/XMLSourceReader.cs:167-169 | The partial row in the exception message is the values' text joined by ", ", with no trailing separator |
| ItemDecoder.AggregateIsJoin | src/XMLSourceReader.cs:167 | The `Aggregate` dump is the values' text joined by ", " with one trailing ", " |
| ItemDecoder.DecodeItemBody | src/XMLSourceReader.cs:105-156 | Decoding the column elements of `ItemBody` for a row with unique keys and no C# `null` adds exactly that row's entries, in order, and stops on `</item>` |
| ItemDecoder.ItemRoundTrip | src/XMLSourceReader.cs:96-156 | Decoding an `item` laid out as `ItemBody` of a row gives that row back: the same keys in the same order, strings unchanged, null markers as null markers |
| ItemDecoder.DecodeColumnTokens | src/XMLSourceReader.cs:105-155 | One column element laid out as `ColumnTokens` adds its key and value to the row |
| RowFilter.RowMatchesConditions | src/XMLSourceReader.cs:61-90 | The filter accepts exactly when every conditional accepts (the empty list accepts); otherwise the result is that of the first conditional that rejects the row or throws, all earlier ones accepting |
| RowFilter.CellText | src/XMLSourceReader.cs:68-78 | A value's text exists exactly when the column is in the row and is not a C# `null` (a missing key or a `null` throws), and it is the value's text, `DBNull` reading as "" |
| RowFilter.RowMatchesConditionsAppend | src/XMLSourceReader.cs:63-89 | Filtering by two lists of conditionals in a row is filtering by the first, then, if the row passed, by the second |
| RowFilter.PassingRowFacts | src/XMLSourceReader.cs:63-89 | A row passes only a filter without `LessThan` or `GreaterThan`, and only when every column compared by `EqualTo`, `DifferentFrom` or `Contains` is in the row and holds no C# `null` |
| RowFilter.NullMarkerComparesAsEmpty | src/XMLSourceReader.cs:67-80 | A null marker equals "", contains "" and is not different from "" |
| DecimalSeparator.RewriteKeys | src/XMLSourceReader.cs:179-203 | Rewriting entries keeps the row's length and its keys in order |
| DecimalSeparator.RewriteLoopKeys | src/XMLSourceReader.cs:179-203 | The source's loop keeps the row's keys, in order |
| DecimalSeparator.RewriteLoopLeavesOthers | src/XMLSourceReader.cs:179-200 | The source's loop leaves unchanged, in place, every entry no eligible mapping targets and every entry that is not non-empty text |
| DecimalSeparator.RewriteStepIsRewriteKeys | src/XMLSourceReader.cs:181-200 | One turn of the source's loop rewrites the non-empty text of the mapping's source column when the mapping is eligible, and changes nothing else |
| DecimalSeparator.RewriteKeysCompose | src/XMLSourceReader.cs:179-204 | Rewriting two disjoint sets of columns one after the other is rewriting their union once |
| DecimalSeparator.RewriteKeysEmpty | src/XMLSourceReader.cs:179-204 | Rewriting no column changes nothing |
| DecimalSeparator.RewriteTextIsSwap | src/XMLSourceReader.cs:195-199 | With one-character separators that differ, the explicit rewrite drops every culture separator, turns every file separator into the culture separator and keeps every other character |
| DecimalSeparator.ReplaceTwiceIsSwap | src/XMLSourceReader.cs:195-199 | The two `Replace` calls on one-character separators are the character-by-character swap |
| DecimalSeparator.SwapSeparatorCounts | src/XMLSourceReader.cs:195-199 | After the rewrite no file separator is left, there are as many culture separators as there were file separators, and every other character keeps its count |
| DecimalSeparator.ReplaceCharAppend | src/XMLSourceReader.cs:195-199 | The character-by-character replacement distributes over concatenation |
| DecimalSeparator.RewriteTextNotIdempotent | src/XMLSourceReader.cs:195-199 | "19.99" read with file separator "." in a "," culture becomes "19,99", and a second pass makes it "1999" |
| DecimalSeparator.SameSeparatorChangesNothing | src/XMLSourceReader.cs:193 | An explicit separator equal to the culture's changes no entry |
| DecimalSeparator.AsWrittenAgreesWhenSingleTarget | src/XMLSourceReader.cs:179-204 | When no two eligible column mappings share a source column, the source's loop gives the once-per-entry rewrite |
| DecimalSeparator.DoubleTargetCorruptsValue | src/XMLSourceReader.cs:179-200 | With "Price" mapped to a double and a float column, the source's loop turns "19.99" into "1999" where the once-per-entry rewrite gives "19,99" |
| DecimalSeparator.DoubleTargetAsWritten | src/XMLSourceReader.cs:179-200 | The source's loop on the doubly-targeted price gives "1999" |
| DecimalSeparator.DoubleTargetCorrected | src/XMLSourceReader.cs:179-200 | The once-per-entry rewrite on the doubly-targeted price gives "19,99" |
| DestinationWriter.StringIsFreeOfTroublesomeCharacters | src/XMLDestinationWriter.cs:137-151 | True for `null`; otherwise true exactly when every character of the string is in the `Char` production of section 2.2 of XML 1.0 |
| DestinationWriter.XmlDestinationWriter.constructor | src/XMLDestinationWriter.cs:25-33 | The columns the writer encodes are the active column mappings with a source column, in mapping order |
| DestinationWriter.XmlDestinationWriter.Write | src/XMLDestinationWriter.cs:35-124 | One call appends to the host writer exactly the events of `WriteRowAsWritten`, logs exactly its lines and reports its outcome: dropped, written, or the exception that stopped it (a refused value, a missing column, a C# `null` in a dropped row's dump, the handler's `Substring` on an empty row) with the events before it kept |
| DestinationWriter.XmlDestinationWriter.FindTroublesome | src/XMLDestinationWriter.cs:37-44 | The skip check finds the first pair whose text is not XML text, or none |
| DestinationWriter.XmlDestinationWriter.DumpRow | src/XMLDestinationWriter.cs:45-52 | The dump loop builds `key:value,` per pair and trims the trailing commas; it throws exactly when a value is a C# `null` |
| DestinationWriter.XmlDestinationWriter.WriteItem | src/XMLDestinationWriter.cs:58-115 | The `item` element is written as `EncodeItem` says, a refused character ending it |
| DestinationWriter.XmlDestinationWriter.WriteColumns | src/XMLDestinationWriter.cs:63-114 | The column loop appends the events of each column in mapping order and stops at the first error, as `EncodeColumns` says |
| DestinationWriter.XmlDestinationWriter.WriteColumn | src/XMLDestinationWriter.cs:65-113 | One column is written as `EncodeColumn` says: a missing key throws before anything is written |
| DestinationWriter.XmlDestinationWriter.WriteContent | src/XMLDestinationWriter.cs:70-107 | A column's content is chosen in the source's priority order and written |
| DestinationWriter.XmlDestinationWriter.Emit | src/XMLDestinationWriter.cs:75-106 | A chosen content is the `isNull` attribute, which never fails, or a CDATA section, refused when not XML text |
| DestinationWriter.XmlDestinationWriter.Close | src/XMLDestinationWriter.cs:127-130 | `Close` appends exactly one end-element event |
| DestinationWriter.SkipRule | src/XMLDestinationWriter.cs:37-56 | With skipping on, a row is dropped exactly when one of its pairs is troublesome; a dropped row writes nothing and logs one line naming the first troublesome pair and holding the row's dump; a row not dropped logs nothing |
| DestinationWriter.SkipKeepsCleanRows | src/XMLDestinationWriter.cs:37-57 | For a row without a troublesome pair, skipping on or off writes the same |
| DestinationWriter.SkipRuleAsWritten | src/XMLDestinationWriter.cs:37-56 | With skipping on, the source's `Write` drops a row holding a troublesome pair exactly when the row holds no C# `null`, and throws in the dump exactly when it does; such a row writes nothing, and a dropped one logs one line naming the first troublesome pair |
| DestinationWriter.HandlerRethrows | src/XMLDestinationWriter.cs:117-123 | A row that reaches the item is written exactly when encoding it succeeds; an exception is rethrown unchanged, except that on an empty row the `ArgumentException` handler's `Substring` throws instead, which happens only when the table name is refused |
| DestinationWriter.EncodeItemErrors | src/XMLDestinationWriter.cs:58-115 | Writing an item never raises the dump's or the handler's own exceptions |
| DestinationWriter.TroublesomeIff | src/XMLDestinationWriter.cs:42 | A pair is troublesome exactly when its key or its value's text holds a character outside the `Char` production |
| DestinationWriter.FirstTroublesome | src/XMLDestinationWriter.cs:39-43 | The pair found is troublesome and none before it is; none is found exactly when no pair is troublesome |
| DestinationWriter.DumpIsJoin | src/XMLDestinationWriter.cs:45-52 | The logged dump is the `key:value` texts joined by ",", unless the last value itself ends in a comma, which the trimming also removes |
| DestinationWriter.DumpTextIsJoin | src/XMLDestinationWriter.cs:45-50 | Before trimming, the dump is the `key:value` texts joined by "," with one trailing "," |
| DestinationWriter.ItemShape | src/XMLDestinationWriter.cs:61-115 | A row written without error is one balanced `item` element: start tag, `table` attribute with the destination table's name, one column element per encoded mapping in mapping order, end tag |
| DestinationWriter.EncodeColumnsShape | src/XMLDestinationWriter.cs:63-114 | A column loop without error writes one four-event column element per mapping, in mapping order, named after the destination column |
| DestinationWriter.EncodeColumnsBalanced | src/XMLDestinationWriter.cs:63-114 | A column loop without error leaves no element open |
| DestinationWriter.EncodeColumnsSucceed | src/XMLDestinationWriter.cs:63-114 | The column loop succeeds exactly when every column does |
| DestinationWriter.EncodeColumnsFail | src/XMLDestinationWriter.cs:63-114 | A failing column loop holds the columns before the first failing one, then what that one wrote before its error, and reports that error |
| DestinationWriter.MissingColumnStops | src/XMLDestinationWriter.cs:65-113 | A mapped column missing from the row stops the row with an error naming the source table and column; no later column is written |
| DestinationWriter.EncodeColumnShape | src/XMLDestinationWriter.cs:67-108 | A column written without error is a start tag, the `columnName` attribute with the destination column's name, one content event and an end tag |
| DestinationWriter.EncodeColumnBalanced | src/XMLDestinationWriter.cs:67-108 | A column written without error leaves no element open |
| DestinationWriter.NullMarkerIff | src/XMLDestinationWriter.cs:70-92 | A column carries `isNull="true"` exactly when its mapping has no script and its value is `null` or `DBNull`, and then it has no CDATA section |
| DestinationWriter.DateColumn | src/XMLDestinationWriter.cs:93-103 | A date column without a script never fails on its value: a value that converts to a date is written in the fixed layout, from which the date reads back; any other is written as "01-01-0001 00:00:00:000" |
| DestinationWriter.DateLayoutFacts | src/XMLDestinationWriter.cs:95-102 | The date text is legal XML text, the date reads back from it, and a value that is not a date gives "01-01-0001 00:00:00:000" |
| DestinationWriter.FormatDateIsXmlText | src/XMLDestinationWriter.cs:97 | The fixed date layout is legal XML text when the time separator is |
| DestinationWriter.ContentEventsShape | src/XMLDestinationWriter.cs:75-106 | Content written without error is one event, neither a start nor an end tag |
| DestinationWriter.HeadDepth | src/XMLDestinationWriter.cs:61-62 | A start tag with one attribute leaves one element open |
| DestinationWriter.NullValueInDroppedRow | src/XMLDestinationWriter.cs:48 | With skipping on, the row [Name: U+0001, Note: `null`] makes the source's `Write` throw in the dump, where the corrected one drops it |
| DestinationWriter.AsWrittenAgreesWithoutNull | src/XMLDestinationWriter.cs:35-124 | On rows without a C# `null` value the source's `Write` and the corrected one do the same |
| Dates.FormatDateRoundTrip | src/XMLDestinationWriter.cs:97 | `dd-MM-yyyy HH:mm:ss:fff` with time separator `sep` is 20 + 3·\|sep\| characters long and the date reads back from it |
| Dates.DigitsRoundTrip | src/XMLDestinationWriter.cs:97 | A zero-padded field has its width and reads back as its number |
| Dates.MinValueText | src/XMLDestinationWriter.cs:101 | `DateTime.MinValue` in the invariant culture is "01-01-0001 00:00:00:000" |
| XmlChars.VerifyXmlCharsIsCharProduction | src/XMLDestinationWriter.cs:144 | The host's scan of a string's UTF-16 code units accepts it exactly when every character is in the `Char` production |
| XmlChars.XmlTextAppend | src/XMLDestinationWriter.cs:144 | Text is legal exactly when both of its parts are |
| XmlChars.Utf16Char | src/XMLDestinationWriter.cs:144 | A character is one UTF-16 unit outside the surrogate range below U+10000 and a high/low surrogate pair above |
| Strings.ReplaceAllOneChar | src/XMLSourceReader.cs:195-199 | `Replace` with a one-character pattern replaces character by character |
| Strings.ReplaceAllAbsent | src/XMLSourceReader.cs:195-199 | `Replace` of a pattern that does not occur changes nothing |
| Strings.TrimEnd | src/XMLDestinationWriter.cs:52 | `TrimEnd(c)` gives a prefix that does not end in `c`, with only `c`s removed |
| Strings.TrimEndOne | src/XMLDestinationWriter.cs:52 | A single trailing `c` after text not ending in `c` is all that is removed |
| Strings.LowerAscii | src/XMLProvider.cs:1125 | Lower-casing changes exactly the upper-case letters and keeps the length |
| Provider.ReaderSeparatorsSpec | src/XMLProvider.cs:1015-1025 | Auto-detect and an explicit separator exclude each other; auto-detect is on exactly for "Detect automatically"; an explicit separator is the configured one and differs from the culture's; the rewrite is on exactly when the configured value is set, not empty, not "Use system culture" and either "Detect automatically" or different from the culture's separator |
| Provider.Seek | src/XMLProvider.cs:1118-1160 | The seek never moves back, and it reports a find exactly when it stops on a node whose `tableName` is the name sought |
| Provider.SeekFirst | src/XMLProvider.cs:1118-1160 | The seek finds the name exactly when one of the nodes it compares (the first `table` start tag, then the skip loop's nodes) has that `tableName`; it then stops on the first such node |
| Provider.SkipSeek | src/XMLProvider.cs:1143-1157 | The skip loop reports a find exactly when it stops before the end of the stream, on a node whose `tableName` is the name sought |
| Provider.SkipSeekFirst | src/XMLProvider.cs:1143-1157 | The skip loop finds the name exactly when a node it can stop on (`Skip` after `Skip`, before the end) has that `tableName`; it then stops on such a node, and no earlier such node has it |
| Provider.FindStart | src/XMLProvider.cs:1123-1137 | The search stops at the first start tag with the name (lower-cased first for `tables`), or at the end of the stream |
| Provider.FallbackSeeks | src/XMLProvider.cs:1115 | The seek finds the one table of the fallback document |
| Provider.FirstSeeking | src/XMLProvider.cs:1069-1113 | The document kept is the first in which the table is found; none is kept when no document has it |
| Provider.XmlProvider.SkipToBeginning | src/XMLProvider.cs:1118-1160 | The reader is moved as `Seek` says, on a fresh stream first to `tables` (case-insensitively), then to `table` elements matched case-sensitively, past non-matching ones by whole subtrees; found exactly when it stops on a node whose `tableName` is the mapping's source table; collected options are kept, and a found table carrying options leaves the mapping with options including every attribute after its `tableName` |
| Provider.XmlProvider.SkipToTable | src/XMLProvider.cs:1143-1157 | The skip loop moves the reader as `SkipSeek` says and keeps what was collected |
| Provider.XmlProvider.SkipTable | src/XMLProvider.cs:1145-1152 | One turn of the skip loop moves past the current subtree and reads the next node's `tableName`, collecting its options when the reader is on the attribute |
| Provider.XmlProvider.EnterFirstTable | src/XMLProvider.cs:1133-1142 | The second loop stops at the next `table` start tag, reads its `tableName` and collects its options; no table at the end of the stream |
| Provider.XmlProvider.GatherTableOptions | src/XMLProvider.cs:1136-1153 | On an element with more than one attribute, every attribute after the current one becomes an option of the table, and a mapping reading that table holds options |
| Provider.XmlProvider.ReadToTables | src/XMLProvider.cs:1121-1130 | A reader on no node moves to the first `tables` start tag, compared after lower-casing; a reader on a node stays |
| Provider.XmlProvider.ReadToTable | src/XMLProvider.cs:1133-1142 | The reader moves to the next `table` start tag, or to the end of the stream |
| Provider.XmlProvider.FillMappingOptions | src/XMLProvider.cs:720-741 | Nothing changes unless the element has more than one attribute; then the table's dictionary (created when missing) gains each following attribute whose name it lacks, no existing option is overwritten, no other dictionary changes, and the mapping's options are set to the table's only when they were `null` |
| Provider.XmlProvider.CollectOptions | src/XMLProvider.cs:729-735 | The attribute loop adds the following attributes as `AddMissing` says and ends on the last attribute |
| Provider.XmlProvider.OptionsOf | src/XMLProvider.cs:724-728 | The table's dictionary, added empty when missing |
| Provider.XmlProvider.AdoptOptions | src/XMLProvider.cs:736-739 | A mapping without options takes those of its source table, when there are any |
| Provider.AddMissingKeeps | src/XMLProvider.cs:729-735 | Existing options are never overwritten or removed |
| Provider.AddMissingFrom | src/XMLProvider.cs:729-735 | Every new option is one of the attributes, name and value |
| Provider.AddMissingCovers | src/XMLProvider.cs:729-735 | Every attribute walked ends up as an option |
| Provider.AddMissingUnique | src/XMLProvider.cs:729-735 | Option names stay unique |
| Provider.AddMissingFirstWins | src/XMLProvider.cs:729-735 | Of several attributes with a new name, the first one's value is recorded |
| Provider.XmlProvider.AddTableToSchema | src/XMLProvider.cs:684-718 | The table is added under its `tableName` with the columns `TableSchemaAsWritten` gives, its options are collected, and the reader ends where the pass ends, with its exception if any |
| Provider.XmlProvider.CollectTableOptions | src/XMLProvider.cs:686-689 | The table's name is its `tableName`, under which its options are collected |
| Provider.XmlProvider.ReadTableColumns | src/XMLProvider.cs:696-716 | The three loops after the table is added give the last table the columns `TableSchemaAsWritten` gives and leave the reader where it ends |
| Provider.XmlProvider.ReadToItem | src/XMLProvider.cs:699-700 | The first loop stops where the unbounded `FindItem` says: at the first node called `item`, even past the table's end tag, or at the end of the stream; it reports whether it is on a node |
| Provider.XmlProvider.ReadColumns | src/XMLProvider.cs:702-710 | Each start tag up to the next `</item>` adds its `columnName` to the last table, in document order |
| Provider.XmlProvider.AddColumnAt | src/XMLProvider.cs:704-709 | A start tag adds its `columnName` as a column of the last table |
| Provider.XmlProvider.SkipToTableEnd | src/XMLProvider.cs:711-716 | The last loop stops on an end tag `table`, or throws "Unexpected EOF" at the end of the stream |
| Provider.XmlProvider.GetXmlReader | src/XMLProvider.cs:1027-1116 | The open document is kept when the seek finds the table in it; otherwise it is closed and the first source document in which the table is found is kept open, sought to the table; when none has it, the reader is over the one-table fallback document |
| Provider.XmlProvider.OpenFirstSeeking | src/XMLProvider.cs:1069-1115 | The file loop keeps open the first document in which the table is found, or gives the fallback reader |
| Provider.XmlProvider.TryDocument | src/XMLProvider.cs:1081-1107 | A document is kept open exactly when the seek finds the table in it |
| Provider.XmlProvider.constructor | src/XMLProvider.cs:196 | The provider starts with no table options and no open document |
| SourceSchema.TablePass | src/XMLProvider.cs:693-716 | The pass never moves back, and unless the table is self-closing it ends on an end tag `table` or at the end of the stream |
| SourceSchema.SelfClosingTableHasNoColumns | src/XMLProvider.cs:693-694 | A self-closing table has no columns and the reader stays on it |
| SourceSchema.ColumnsBetweenSpec | src/XMLProvider.cs:702-710 | The columns are exactly the `columnName`s of the start tags between the first `item` and the next `</item>`, none when there is no start tag |
| SourceSchema.UnclosedTableThrows | src/XMLProvider.cs:711-716 | With no end tag `table` ahead, the last loop throws "Unexpected EOF" |
| SourceSchema.FindItem | src/XMLProvider.cs:699-700 | The item search stops at the first node called `item` (or, bounded, an end tag `table`), or at the end of the stream |
| SourceSchema.FindItemEnd | src/XMLProvider.cs:702 | The column loop stops at the first `</item>`, or at the end of the stream |
| SourceSchema.FindItemFirst | src/XMLProvider.cs:699-700 | The first stopping position is where the item search stops |
| SourceSchema.StopsItemSearchAt | src/XMLProvider.cs:699-700 | The search stops at a node exactly when the reader's `Name` there is `item`, or, bounded, on an end tag `table` |
| SourceSchema.ItemlessTableBorrowsNextTable | src/XMLProvider.cs:699-700 | As written, an item-less table followed by a table with a column takes that column and ends on the second table's end tag; the intended pass gives it no column and ends on its own end tag |
| SourceSchema.ItemlessTableStaysInside | src/XMLProvider.cs:699-700 | The intended pass never reads past a table's end tag when no `item` comes before it |
| SourceSchema.PassesAgreeWithItem | src/XMLProvider.cs:699-700 | Both passes agree on every table whose first `item` comes before its end tag |
| SourceSchema.Schema.AddTable | src/XMLProvider.cs:692 | Appends a table without columns |
| SourceSchema.Schema.AddColumn | src/XMLProvider.cs:707 | Appends a column to the table added last |
| ExportJob.JobNesting | src/XMLProvider.cs:919-958 | The job succeeds exactly when every active mapping's table does; it then writes one `tables` root holding the tables of the active mappings in mapping order, each balanced, nothing for an inactive one, and leaves no element open |
| ExportJob.JobStopsAtFirstFailure | src/XMLProvider.cs:926-976 | A failing job fails with the error of the first active mapping whose table fails: earlier tables are written whole, that one up to its error, nothing after it |
| ExportJob.TableSucceeds | src/XMLProvider.cs:928-954 | A table is written without error exactly when its name is XML text, the options it writes have distinct names that are `NCName`s other than `tableName` and values that are XML text, no row fails in the source's `Write`, and its source does not throw |
| ExportJob.TableShape | src/XMLProvider.cs:931-954 | A table written without error is its start tag, `tableName`, one attribute per written option, the items of its rows in order, and its end tag, leaving no element open |
| ExportJob.TableEvents | src/XMLProvider.cs:931-954 | A table written without error is its head, its options, its rows and its end tag, in that order |
| ExportJob.RowsBalanced | src/XMLProvider.cs:942-951 | The items of a table's rows, written without error, leave no element open |
| ExportJob.RowStepShape | src/XMLProvider.cs:946 | A row written without error is either dropped, writing nothing, or one balanced `item` element of the table |
| ExportJob.OptionsWritten | src/XMLProvider.cs:984-997 | Writing a mapping's options succeeds exactly when the options with a value that is not empty or white space have distinct names that are `NCName`s other than `tableName` and values that are XML text; it then writes one attribute per such option, in order |
| ExportJob.OptionStepWritten | src/XMLProvider.cs:988-994 | An option with an empty or white-space value is skipped; any other is written exactly when it is writable and no option written before it has its name |
| ExportJob.OptionsBalanced | src/XMLProvider.cs:984-997 | Writing options never opens or closes an element |
| ExportJob.ActiveMappingsBound | src/XMLDestinationWriter.cs:32 | The columns a table's writer encodes all have a source column |
| JobRunner.RunJob | src/XMLProvider.cs:911-982 | The events written are exactly those of `Job` over the mappings and what their sources yield, and the job reports success exactly when no exception stopped it |
| JobRunner.WriteTables | src/XMLProvider.cs:926-957 | The mapping loop writes each mapping's contribution in order and stops at the first error |
| JobRunner.WriteMapping | src/XMLProvider.cs:928-956 | An active mapping writes its table; an inactive one writes nothing |
| JobRunner.WriteTable | src/XMLProvider.cs:930-955 | One active mapping writes the `table` element `ExportTable` describes |
| JobRunner.WriteTableHead | src/XMLProvider.cs:931-934 | The `table` start tag, its `tableName` and the mapping's options; an attribute the writer refuses, name or value, ends it |
| JobRunner.WriteRows | src/XMLProvider.cs:942-951 | The row loop writes each row through the table's writer in order and stops at the first failing row |
| JobRunner.WriteRow | src/XMLProvider.cs:946 | One row through the table's writer, as the source's `Write` does it |
| JobRunner.WriteMappingOptions | src/XMLProvider.cs:984-997 | Each option whose value is not empty or white space becomes an attribute, in order; a name that is not an `NCName` or is already on the element, or a value that is not XML text, ends it; a mapping without options writes nothing |
| JobRunner.Jobs | src/XMLProvider.cs:926 | One job entry per mapping, in order, with what its source yields |
| Model.ActiveSourceMappings | src/XMLDestinationWriter.cs:32 | Exactly the active column mappings with a source column, each from the list |
| Model.Add | src/XMLSourceReader.cs:129 | `Dictionary.Add` refuses a key already present, otherwise appends the pair and keeps keys unique |
| Model.Set | src/XMLSourceReader.cs:199 | The indexer write replaces the value of a present key in place and keeps the keys |
| Model.IndexOf | src/XMLSourceReader.cs:159 | The position of the key's entry, or -1 exactly when the key is absent |
| Model.OptionsDict.Add | src/XMLProvider.cs:733 | Appends an option whose name is not there |
| HostXml.HostReader.Read | src/XMLSourceReader.cs:32 | `Read` moves one node on, to the end at most, and reports whether the reader is on a node |
| HostXml.HostReader.Skip | src/XMLProvider.cs:1146 | `Skip` moves past the end node of a non-empty element, to the next node otherwise |
| HostXml.HostReader.MoveToAttribute | src/XMLProvider.cs:1138 | Moves onto the first attribute of the name, and reports whether there is one |
| HostXml.HostReader.MoveToNextAttribute | src/XMLProvider.cs:729 | Moves onto the next attribute, when there is one |
| HostXml.HostReader.MoveToAttributeAt | src/XMLSourceReader.cs:112 | Moves onto the attribute at the index |
| HostXml.HostReader.MoveToElement | src/XMLSourceReader.cs:124 | Moves back from an attribute to its element |
| HostXml.HostReader.Close | src/XMLSourceReader.cs:40 | Closes the reader and moves it to the end |
| HostXml.HostWriter.WriteAttributeString | src/XMLProvider.cs:993 | Writes the attribute, refusing first a name that is not an `NCName`, then one already on the open element, then a value that is not XML text; an accepted name joins the open element's names |
| HostXml.AttributeRefusal | src/XMLProvider.cs:993 | An attribute is accepted exactly when its name is an `NCName` not yet on the element and its value is XML text |
| HostXml.FixedAttributeName | src/XMLDestinationWriter.cs:62 | The attribute names the code itself writes are names, so only a value can make the writer refuse one not yet on the element |
| HostXml.HostWriter.WriteCData | src/XMLDestinationWriter.cs:75 | Writes the CDATA section, refusing text that is not XML text |
| HostXml.HostWriter.WriteStartElement | src/XMLDestinationWriter.cs:61 | Appends one start tag; the new element has no attributes yet |
| HostXml.HostWriter.WriteEndElement | src/XMLDestinationWriter.cs:129 | Appends one end tag |
| HostXml.Logger.Log | src/XMLDestinationWriter.cs:53 | Appends one line |
| HostXml.DepthAppend | src/XMLProvider.cs:919-958 | The number of elements left open is additive over concatenation |
| Emission.SequenceError | src/XMLDestinationWriter.cs:63-114 | A run of steps succeeds exactly when every step does; a failing run holds the steps before the first failing one, then that step's events and error |
| Emission.SequenceConcat | src/XMLProvider.cs:926-957 | A run in which no step fails writes the events of all its steps, in order |
| Emission.SequenceBalanced | src/XMLProvider.cs:926-957 | A successful run of balanced steps is balanced |
| Emission.SequenceBlocks | src/XMLDestinationWriter.cs:63-114 | A successful run of four-event steps lays their events out in blocks of four, in order |
| Emission.SequenceStopped | src/XMLDestinationWriter.cs:63-114 | Once a step has failed, later steps add nothing |

## Left out

- File and folder resolution, the existence checks and the path helpers are not modelled: the source files' contents are a parameter (`documents`) of `GetXmlReader` and of the reader's constructor.
- XSLT transforms, archiving, deletion, file-size polling, settings parsing, product field descriptions (`writeProductFieldDescriptions`), `GetOptions`, serialization and encoding setup are not modelled: they are I/O, timing or configuration plumbing.
- `GetOriginalSourceSchema`'s loop over the files is not modelled: `AddTableToSchema` is modelled on its own, on one reader.
- `RunJob`'s logging, its `ProcessInputRow` call, the time stamp, `ReplaceMappingConditionalsWithValuesFromRequest`, the failure message and the provider's `Close` in `finally` are not modelled: they are logging or foreign calls. The rows each mapping's source yields are a parameter of `RunJob` (`SourceRows`), not read through `XmlSourceReader`.
- JobRunner.RunJob: does not distinguish `EncoderFallbackException` from other exceptions; both report failure.
- Auto-detect separator mode, `Converter.ToDouble(value).ToString()`, is floating point and is an uninterpreted function of the culture; only the gate that selects it is modelled.
- `DateTime.Parse`/`TryParse`, `ValueFormatter.GetFormattedValue`, `ConvertInputValueToOutputValue`, `GetScriptValue` and `string.Format` are uninterpreted functions (`WriterHost`); `DateTime.Parse` throwing on a script value is the `ScriptDateUnparseable` error.
- `GetRowValueNotFoundMessage` is not modelled: the missing-column error carries the table and column it names.
- `Debug.WriteLine` and the text of the `ArgumentException` handler's dump are not modelled: the handler rethrows the exception unchanged, reported as `InvalidCharacter`, except on an empty row, where its `Substring(0, -2)` throws `ArgumentOutOfRangeException` instead (`EmptyRowInHandler`).
- DestinationWriter.DateColumn: the date layout prints the Gregorian year, month and day; with a culture whose calendar is not Gregorian (th-TH, say) `ToString` prints that calendar's fields, which is not modelled.
- DestinationWriter.DateLayoutFacts: the same Gregorian fields as `DateColumn`; a culture's own calendar is not modelled.
- ItemDecoder.ItemRoundTrip: the item decoded is `ItemBody`, a layout keyed by the row's own keys holding the values' raw text; it is not proved to be what `EncodeItem` writes, which names columns after the destination column, writes the converted and formatted value, follows the mapping order and is indented by the host writer, which also normalises line breaks.
- ItemDecoder.DecodeItemBody: decodes `ItemBody`, with the same gap to `EncodeItem` as `ItemRoundTrip`.
- ItemDecoder.DecodeColumnTokens: decodes `ColumnTokens`, not shown to be what `WriteColumn` writes.
- SourceReader.PullWrittenItem: the item pulled is `ItemBody`, with the same gap to `EncodeItem` as `ItemRoundTrip`.
- SourceReader.TurnWrittenItem: the item is `ItemBody`, with the same gap to `EncodeItem`.
- SourceReader.DecodeWrittenItem: the item is `ItemBody`, with the same gap to `EncodeItem`.
- HostXml.HostWriter.WriteAttributeString: names are checked against the `NCName` production of Namespaces in XML 1.0 with the character classes of section 2.3 of XML 1.0 (fifth edition); the host's own character tables, which may differ outside ASCII, and the special handling of `xmlns` and `xml`-prefixed names as namespace declarations are not modelled.
- Lone UTF-16 surrogates are not representable in Dafny strings; the scan over code units is modelled, and strings with lone surrogates, which the host rejects, are not.
- The fallback document is built in the source by string concatenation; the model builds its nodes directly, so a table name holding a quote character, which would make that document malformed, is not modelled.
- `FillMappingOptions`'s check that the mapping's `SourceTable` is not `null` is not modelled: every mapping has a source table name.
- SourceReader.PullFrom: the re-entry of `IsDone` at the end of the stream, which the source repeats until the stack overflows, is the `EndlessRecursion` error rather than non-termination.
- SourceReader.DoneCloses: does not state which row the reader holds after returning true; it is the last row decoded, which may be one the filter rejected (`RunJob` does not call `GetNext` then).
- SourceReader.XmlSourceReader.ReplaceDecimalSeparator: requires the row's keys to be unique, which every `Dictionary` guarantees.
- The host reader's own well-formedness checks are not modelled: any node sequence is accepted.
- Provider.XmlProvider.GetXmlReader: the source files are given as node sequences already parsed; a missing source folder or file (which returns `null`), a file that fails to open or parse, and the files the loop passes over (the destination file itself, files no longer than the XML declaration, files already processed in the request) are not modelled, and neither is the list of processed files it keeps.

## Findings

| source | as written | input that shows it | evidently intended | confidence | as-written member | corrected member |
|---|---|---|---|---|---|---|
| src/XMLSourceReader.cs:179-200 | The separator rewrite runs once per eligible column mapping, so a source column mapped to two double or float destinations is rewritten twice, and the explicit rewrite is not idempotent | Row {Price: "19.99"}, file separator ".", culture separator ",", Price mapped to a double and a float column: the value becomes "1999" | Each targeted entry rewritten once, giving "19,99" | not executed | DecimalSeparator.DoubleTargetAsWritten | DecimalSeparator.DoubleTargetCorrected |
| src/XMLDestinationWriter.cs:48 | The skip dump calls `ToString` on every value, which throws on a C# `null`, so a row that should be dropped fails the job instead | Skipping on, row [Name: U+0001, Note: `null`] | The row is dropped and logged, `null` reading as nothing | not executed | DestinationWriter.NullValueInDroppedRow | DestinationWriter.SkipRule |
| src/XMLProvider.cs:699-700 | The search for the first `item` is not bounded by the table's end tag, so an item-less table takes the columns of the next table's first item and the pass ends inside that table | `<table tableName="A"></table><table tableName="B"><item><column columnName="c"/></item></table>`: A gets column "c" and B is never added | An item-less table gets no columns and the pass ends on its own end tag | not executed | SourceSchema.ItemlessTableBorrowsNextTable | SourceSchema.ItemlessTableStaysInside |

In each row the methods follow the as-written half: `ReplaceDecimalSeparator`
rewrites with `RewriteRowAsWritten`, `Write` with `WriteRowAsWritten`, and
`AddTableToSchema` reads with `TableSchemaAsWritten`.  The corrected half
(`RewriteRow`, `WriteRow`, `TableSchema`) is defined beside each and its
intended property proved.
