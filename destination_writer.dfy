/** The row encoder (`XmlDestinationWriter`): one `item` element per row,
    with one `column` element per active, source-bound column mapping, in
    mapping order.  The content of a column is chosen in priority order:
    the script value, then the `isNull` marker, then the date layout, then
    the formatted value.  With skipping on, a row holding a character that
    XML cannot carry is dropped and logged instead.

    The functions below say what `Write` asks the host writer for, as
    `Emitted` values: the events written, and the error that stopped the
    row, if one did (the events before it stay written). */
module DestinationWriter {
  import opened Wrappers
  import opened Model
  import opened Dates
  import opened HostXml
  import opened Emission
  import XmlChars
  import Strings

  /** `StringIsFreeOfTroublesomeCharacters`: true for `null`, otherwise
      whether `XmlConvert.VerifyXmlChars` accepts the string's UTF-16 code
      units, which is membership of every character in the XML `Char`
      production. */
  function StringIsFreeOfTroublesomeCharacters(s: Option<string>): (r: bool)
    ensures s.None? ==> r
    ensures s.Some? ==> (r <==> XmlChars.IsXmlText(s.value))
  {
    if s.None? then true
    else
      XmlChars.VerifyXmlCharsIsCharProduction(s.value);
      XmlChars.VerifyXmlChars(XmlChars.Utf16(s.value))
  }

  /** Why `Write` threw: the host writer refused a character
      (`ArgumentException`, rethrown), a mapped column is not in the row,
      a mapping has no destination column (`NullReferenceException`), a
      script date did not parse (`FormatException`), in the skip dump a
      C# `null` value was asked for its text (`NullReferenceException`), or
      the handler of an `ArgumentException` cut two characters off the text
      of an empty row (`ArgumentOutOfRangeException`). */
  datatype WriteError =
    | InvalidCharacter
    | RowValueNotFound(table: string, column: string)
    | NullDestination
    | ScriptDateUnparseable
    | NullValueInDump
    | EmptyRowInHandler

  datatype WriteOutcome = Written | Skipped | Failed(error: WriteError)

  /** `WriteCData`: refused when the text is not XML text. */
  function CDataOf(t: string): Emitted<WriteError> {
    if XmlChars.IsXmlText(t) then Emitted([CDataEvent(t)], None) else Emitted([], Some(InvalidCharacter))
  }

  /** What a column holds: the null marker attribute, a CDATA section, or
      nothing because the script date did not parse. */
  datatype Content = NullMarker | CDataText(text: string) | BadScriptDate

  /** The text of a date value: the date in the fixed layout, or
      `DateTime.MinValue` in the invariant culture when the value is not a
      date. */
  function DateLayout(parsed: Option<ValidDateTime>, sep: string): string {
    if parsed.Some? then FormatDate(parsed.value, sep) else FormatDate(MinValue, ":")
  }

  /** The content of a column, in priority order: the script value (a
      date script reformatted into the fixed layout, a number script
      formatted, any other script as is), then the null marker for a `null`
      or `DBNull` value, then, for a date column, the converted value
      reformatted into the fixed layout (`DateTime.MinValue` in the
      invariant culture when it does not parse), then the converted value
      formatted in the job's culture (`null` formats as ""). */
  function ChooseContent(cm: ColumnMapping, v: Val, host: WriterHost): Content
    requires cm.source.Some?
  {
    var src := cm.source.value;
    if cm.hasScriptWithValue then
      if src.columnType == DateTimeType then
        var parsed := host.parseDate(host.scriptValue(cm));
        if parsed.None? then BadScriptDate else CDataText(FormatDate(parsed.value, host.timeSeparator))
      else if src.columnType == DecimalType || src.columnType == DoubleType || src.columnType == FloatType then
        CDataText(host.formatScriptNumber(cm))
      else CDataText(host.scriptValue(cm))
    else if v.Null? || v.DbNull? then NullMarker
    else if src.columnType == DateTimeType then
      var converted := host.convert(cm, v);
      var parsed := if converted.Null? then None else host.parseDate(AsText(converted));
      CDataText(DateLayout(parsed, host.timeSeparator))
    else
      var converted := host.convert(cm, v);
      CDataText(if converted.Null? then "" else host.format(converted))
  }

  /** What writing a content asks of the host writer. */
  function ContentEvents(c: Content): Emitted<WriteError> {
    match c
    case NullMarker => Emitted([AttributeEvent("isNull", "true")], None)
    case CDataText(t) => CDataOf(t)
    case BadScriptDate => Emitted([], Some(ScriptDateUnparseable))
  }

  /** Content written without error is one event, neither a start nor an
      end tag. */
  lemma ContentEventsShape(c: Content)
    requires ContentEvents(c).error.None?
    ensures |ContentEvents(c).events| == 1 && Depth(ContentEvents(c).events) == 0
  {
    var e := ContentEvents(c).events;
    DepthSnoc([], e[0]);
    assert [] + [e[0]] == e;
  }

  /** One turn of the column loop. */
  function EncodeColumn(cm: ColumnMapping, row: Row, host: WriterHost): Emitted<WriteError>
    requires cm.source.Some?
  {
    var name := cm.source.value.name;
    if !HasKey(row, name) then Emitted([], Some(RowValueNotFound(cm.source.value.table, name)))
    else if cm.destination.None? then Emitted([StartTag("column")], Some(NullDestination))
    else if !XmlChars.IsXmlText(cm.destination.value.name) then Emitted([StartTag("column")], Some(InvalidCharacter))
    else
      var head := [StartTag("column"), AttributeEvent("columnName", cm.destination.value.name)];
      var body := ContentEvents(ChooseContent(cm, Get(row, name), host));
      if body.error.Some? then Emitted(head + body.events, body.error)
      else Emitted(head + body.events + [EndTag], None)
  }

  predicate SourceBound(cms: seq<ColumnMapping>) {
    forall i | 0 <= i < |cms| :: cms[i].source.Some?
  }

  /** The result of each column mapping, in mapping order. */
  function ColumnSteps(cms: seq<ColumnMapping>, row: Row, host: WriterHost): (r: seq<Emitted<WriteError>>)
    requires SourceBound(cms)
    ensures |r| == |cms| && forall i | 0 <= i < |cms| :: r[i] == EncodeColumn(cms[i], row, host)
  {
    seq(|cms|, i requires 0 <= i < |cms| => EncodeColumn(cms[i], row, host))
  }

  /** The column loop over `cms`, stopping at the first error. */
  function EncodeColumns(cms: seq<ColumnMapping>, row: Row, host: WriterHost): Emitted<WriteError>
    requires SourceBound(cms)
  {
    Sequence(ColumnSteps(cms, row, host))
  }

  /** The `item` element of a row. */
  function EncodeItem(row: Row, cms: seq<ColumnMapping>, table: string, host: WriterHost): Emitted<WriteError>
    requires SourceBound(cms)
  {
    if !XmlChars.IsXmlText(table) then Emitted([StartTag("item")], Some(InvalidCharacter))
    else
      var head := [StartTag("item"), AttributeEvent("table", table)];
      var cols := EncodeColumns(cms, row, host);
      if cols.error.Some? then Emitted(head + cols.events, cols.error)
      else Emitted(head + cols.events + [EndTag], None)
  }

  /** `KeyValuePair.ToString()`: `[key, value]`, a `null` value printing as
      nothing. */
  function PairText(p: (string, Val)): string {
    "[" + p.0 + ", " + AsText(p.1) + "]"
  }

  predicate Troublesome(p: (string, Val)) {
    !StringIsFreeOfTroublesomeCharacters(Some(PairText(p)))
  }

  /** The first pair of the row whose text the host cannot write. */
  function FirstTroublesome(row: Row): (r: Option<nat>)
    ensures r.None? <==> forall i | 0 <= i < |row| :: !Troublesome(row[i])
    ensures r.Some? ==>
      && r.value < |row| && Troublesome(row[r.value])
      && forall j | 0 <= j < r.value :: !Troublesome(row[j])
    decreases |row|
  {
    if row == [] then None
    else if Troublesome(row[0]) then Some(0)
    else
      var rest := FirstTroublesome(row[1..]);
      assert forall i | 1 <= i < |row| :: row[i] == row[1..][i - 1];
      if rest.None? then None else Some(rest.value + 1)
  }

  /** One entry of the skip dump, `key:value,`. */
  function DumpEntry(p: (string, Val)): string {
    p.0 + ":" + AsText(p.1) + ","
  }

  function DumpText(row: Row): string
    decreases |row|
  {
    if row == [] then "" else DumpText(row[..|row| - 1]) + DumpEntry(row[|row| - 1])
  }

  /** The skip dump with its trailing commas trimmed. */
  function Dump(row: Row): string {
    Strings.TrimEnd(DumpText(row), ',')
  }

  function SkipMessage(pair: string, table: string, dump: string): string {
    "Encountered invalid character in string '" + pair + "' in table " + table + ". Skipping row: " + dump + "."
  }

  /** What one call of `Write` does: the events, the outcome and the log
      lines. */
  datatype WriteResult = WriteResult(events: seq<Event>, outcome: WriteOutcome, log: seq<string>)

  /** The exception `Write` ends with when the item fails with `e`.  An
      `ArgumentException` is caught, the row's pairs are joined into one
      text ending in ", " and the last two characters are cut off before
      the exception is rethrown; on an empty row that text is empty and the
      cut throws `ArgumentOutOfRangeException` in its place. */
  function Rethrown(e: WriteError, row: Row): WriteError {
    if e == InvalidCharacter && row == [] then EmptyRowInHandler else e
  }

  function Outcome(e: Emitted<WriteError>, row: Row): WriteOutcome {
    if e.error.None? then Written else Failed(Rethrown(e.error.value, row))
  }

  /** `Write` as evidently intended: a dropped row is logged with a dump in
      which a C# `null` value reads as nothing. */
  function WriteRow(row: Row, skip: bool, cms: seq<ColumnMapping>, table: string, host: WriterHost): WriteResult
    requires SourceBound(cms)
  {
    var bad := FirstTroublesome(row);
    if skip && bad.Some? then WriteResult([], Skipped, [SkipMessage(PairText(row[bad.value]), table, Dump(row))])
    else
      var e := EncodeItem(row, cms, table, host);
      WriteResult(e.events, Outcome(e, row), [])
  }

  /** The source's `Write`: the dump calls `ToString` on every value, which
      throws on a C# `null`. */
  function WriteRowAsWritten(row: Row, skip: bool, cms: seq<ColumnMapping>, table: string, host: WriterHost): WriteResult
    requires SourceBound(cms)
  {
    var bad := FirstTroublesome(row);
    if skip && bad.Some? then
      if exists i | 0 <= i < |row| :: row[i].1.Null? then WriteResult([], Failed(NullValueInDump), [])
      else WriteResult([], Skipped, [SkipMessage(PairText(row[bad.value]), table, Dump(row))])
    else
      var e := EncodeItem(row, cms, table, host);
      WriteResult(e.events, Outcome(e, row), [])
  }

  /** `XmlDestinationWriter`: the writer of one table mapping's rows. */
  class XmlDestinationWriter {
    const mapping: Mapping
    const writer: HostWriter
    const skipTroublesomeRows: bool
    const host: WriterHost
    const logger: Logger
    /** The active mappings with a source column, chosen once. */
    const columnMappings: seq<ColumnMapping>

    constructor (mapping: Mapping, writer: HostWriter, skipTroublesomeRows: bool, host: WriterHost, logger: Logger)
      ensures this.mapping == mapping && this.writer == writer && this.skipTroublesomeRows == skipTroublesomeRows
      ensures this.host == host && this.logger == logger
      ensures columnMappings == ActiveSourceMappings(mapping.columnMappings)
    {
      this.mapping := mapping;
      this.writer := writer;
      this.skipTroublesomeRows := skipTroublesomeRows;
      this.host := host;
      this.logger := logger;
      columnMappings := ActiveSourceMappings(mapping.columnMappings);
    }

    /** `Write(p)`. */
    method Write(row: Row) returns (outcome: WriteOutcome)
      requires SourceBound(columnMappings)
      modifies writer, logger
      ensures var r := WriteRowAsWritten(row, skipTroublesomeRows, columnMappings, mapping.destinationTable, host);
        && outcome == r.outcome
        && writer.events == old(writer.events) + r.events
        && logger.lines == old(logger.lines) + r.log
    {
      if skipTroublesomeRows {
        var bad := FindTroublesome(row);
        if bad.Some? {
          var dump := DumpRow(row);
          if dump.None? {
            return Failed(NullValueInDump);
          }
          logger.Log(SkipMessage(PairText(row[bad.value]), mapping.destinationTable, dump.value));
          return Skipped;
        }
      }
      var err := WriteItem(row);
      if err.None? {
        outcome := Written;
      } else if err.value == InvalidCharacter && |row| == 0 {
        outcome := Failed(EmptyRowInHandler);
      } else {
        outcome := Failed(err.value);
      }
    }

    /** The skip check: the first pair whose text is not XML text. */
    static method FindTroublesome(row: Row) returns (bad: Option<nat>)
      ensures bad == FirstTroublesome(row)
    {
      var i := 0;
      while i < |row|
        invariant 0 <= i <= |row|
        invariant forall j | 0 <= j < i :: !Troublesome(row[j])
      {
        if !StringIsFreeOfTroublesomeCharacters(Some(PairText(row[i]))) {
          FirstTroublesomeAt(row, i);
          return Some(i);
        }
        i := i + 1;
      }
      return None;
    }

    /** The `item` element: start tag, `table` attribute, columns, end tag. */
    method WriteItem(row: Row) returns (err: Option<WriteError>)
      requires SourceBound(columnMappings)
      modifies writer
      ensures err == EncodeItem(row, columnMappings, mapping.destinationTable, host).error
      ensures writer.events == old(writer.events) + EncodeItem(row, columnMappings, mapping.destinationTable, host).events
    {
      writer.WriteStartElement("item");
      FixedAttributeName([], "table", mapping.destinationTable);
      var refused := writer.WriteAttributeString("table", mapping.destinationTable);
      if refused.Some? {
        return Some(InvalidCharacter);
      }
      err := WriteColumns(row);
      if err.Some? {
        return;
      }
      writer.WriteEndElement();
    }

    /** The dump of a dropped row: `key:value,` per pair, trailing commas
        trimmed; `None` where `ToString` is called on a C# `null` value. */
    static method DumpRow(row: Row) returns (dump: Option<string>)
      ensures dump.None? <==> exists i | 0 <= i < |row| :: row[i].1.Null?
      ensures dump.Some? ==> dump.value == Dump(row)
    {
      var text := "";
      var k := 0;
      while k < |row|
        invariant 0 <= k <= |row|
        invariant text == DumpText(row[..k])
        invariant forall i | 0 <= i < k :: !row[i].1.Null?
      {
        if row[k].1.Null? {
          return None;
        }
        assert row[..k + 1][..k] == row[..k];
        text := text + row[k].0 + ":" + AsText(row[k].1) + ",";
        k := k + 1;
      }
      assert row[..|row|] == row;
      return Some(Strings.TrimEnd(text, ','));
    }

    /** The column loop. */
    method WriteColumns(row: Row) returns (err: Option<WriteError>)
      requires SourceBound(columnMappings)
      modifies writer
      ensures err == EncodeColumns(columnMappings, row, host).error
      ensures writer.events == old(writer.events) + EncodeColumns(columnMappings, row, host).events
    {
      var i := 0;
      ghost var steps := ColumnSteps(columnMappings, row, host);
      ghost var done: seq<Event> := [];
      while i < |columnMappings|
        invariant 0 <= i <= |columnMappings|
        invariant Sequence(steps[..i]) == Emitted(done, None)
        invariant writer.events == old(writer.events) + done
      {
        assert steps[i] == EncodeColumn(columnMappings[i], row, host);
        err := WriteColumn(columnMappings[i], row);
        SequenceStep(steps, i);
        EventsAssoc(old(writer.events), done, steps[i].events);
        if err.Some? {
          return;
        }
        done := done + steps[i].events;
        i := i + 1;
      }
      assert steps[..i] == steps;
      return None;
    }

    /** One turn of the column loop. */
    method WriteColumn(cm: ColumnMapping, row: Row) returns (err: Option<WriteError>)
      requires cm.source.Some?
      modifies writer
      ensures err == EncodeColumn(cm, row, host).error
      ensures writer.events == old(writer.events) + EncodeColumn(cm, row, host).events
    {
      var name := cm.source.value.name;
      if !HasKey(row, name) {
        return Some(RowValueNotFound(cm.source.value.table, name));
      }
      writer.WriteStartElement("column");
      if cm.destination.None? {
        return Some(NullDestination);
      }
      FixedAttributeName([], "columnName", cm.destination.value.name);
      var refused := writer.WriteAttributeString("columnName", cm.destination.value.name);
      if refused.Some? {
        return Some(InvalidCharacter);
      }
      err := WriteContent(cm, Get(row, name));
      if err.Some? {
        return;
      }
      writer.WriteEndElement();
    }

    /** The content of one column: chosen in the source's priority order,
        then written. */
    method WriteContent(cm: ColumnMapping, v: Val) returns (err: Option<WriteError>)
      requires cm.source.Some? && writer.attributes == ["columnName"]
      modifies writer
      ensures err == ContentEvents(ChooseContent(cm, v, host)).error
      ensures writer.events == old(writer.events) + ContentEvents(ChooseContent(cm, v, host)).events
    {
      var src := cm.source.value;
      var c: Content;
      if cm.hasScriptWithValue {
        if src.columnType == DateTimeType {
          var parsed := host.parseDate(host.scriptValue(cm));
          c := if parsed.None? then BadScriptDate else CDataText(FormatDate(parsed.value, host.timeSeparator));
        } else if src.columnType == DecimalType || src.columnType == DoubleType || src.columnType == FloatType {
          c := CDataText(host.formatScriptNumber(cm));
        } else {
          c := CDataText(host.scriptValue(cm));
        }
      } else if v.Null? || v.DbNull? {
        c := NullMarker;
      } else if src.columnType == DateTimeType {
        var converted := host.convert(cm, v);
        var parsed := if converted.Null? then None else host.parseDate(AsText(converted));
        c := CDataText(DateLayout(parsed, host.timeSeparator));
      } else {
        var converted := host.convert(cm, v);
        c := CDataText(if converted.Null? then "" else host.format(converted));
      }
      err := Emit(c);
    }

    /** Writes a chosen content. */
    method Emit(c: Content) returns (err: Option<WriteError>)
      requires writer.attributes == ["columnName"]
      modifies writer
      ensures err == ContentEvents(c).error
      ensures writer.events == old(writer.events) + ContentEvents(c).events
    {
      match c
      case NullMarker =>
        FixedAttributeName(["columnName"], "isNull", "true");
        var refused := writer.WriteAttributeString("isNull", "true");
        err := None;
      case CDataText(t) =>
        var ok := writer.WriteCData(t);
        err := if ok then None else Some(InvalidCharacter);
      case BadScriptDate =>
        err := Some(ScriptDateUnparseable);
    }

    /** `Close`: ends the element the writer has open. */
    method Close()
      modifies writer
      ensures writer.events == old(writer.events) + [EndTag]
    {
      writer.WriteEndElement();
    }
  }

  lemma FirstTroublesomeAt(row: Row, i: int)
    requires 0 <= i < |row| && Troublesome(row[i]) && forall j | 0 <= j < i :: !Troublesome(row[j])
    ensures FirstTroublesome(row) == Some(i)
  {
  }

  /** The steps of a prefix of the mappings are a prefix of the steps. */
  lemma ColumnStepsPrefix(cms: seq<ColumnMapping>, i: int, row: Row, host: WriterHost)
    requires SourceBound(cms) && 0 <= i <= |cms|
    ensures SourceBound(cms[..i]) && ColumnSteps(cms[..i], row, host) == ColumnSteps(cms, row, host)[..i]
  {
  }

  /** The columns of a row written without error: one column element per
      mapping, in mapping order. */
  lemma EncodeColumnsShape(cms: seq<ColumnMapping>, row: Row, host: WriterHost)
    requires SourceBound(cms) && EncodeColumns(cms, row, host).error.None?
    ensures var es := EncodeColumns(cms, row, host).events;
      && |es| == 4 * |cms|
      && forall i | 0 <= i < |cms| ::
           cms[i].destination.Some? && IsColumnElement(es[4 * i..4 * i + 4], cms[i].destination.value.name)
  {
    var steps := ColumnSteps(cms, row, host);
    SequenceError(steps);
    forall i | 0 <= i < |cms|
      ensures cms[i].destination.Some? && IsColumnElement(steps[i].events, cms[i].destination.value.name)
    {
      EncodeColumnShape(cms[i], row, host);
    }
    SequenceBlocks(steps);
  }

  /** The columns of a row written without error leave no element open. */
  lemma EncodeColumnsBalanced(cms: seq<ColumnMapping>, row: Row, host: WriterHost)
    requires SourceBound(cms) && EncodeColumns(cms, row, host).error.None?
    ensures Depth(EncodeColumns(cms, row, host).events) == 0
  {
    var steps := ColumnSteps(cms, row, host);
    SequenceError(steps);
    forall i | 0 <= i < |cms| ensures Depth(steps[i].events) == 0 {
      EncodeColumnBalanced(cms[i], row, host);
    }
    SequenceBalanced(steps);
  }

  /** The column loop succeeds exactly when every column does. */
  lemma EncodeColumnsSucceed(cms: seq<ColumnMapping>, row: Row, host: WriterHost)
    requires SourceBound(cms)
    ensures EncodeColumns(cms, row, host).error.None? <==> forall i | 0 <= i < |cms| :: EncodeColumn(cms[i], row, host).error.None?
  {
    var steps := ColumnSteps(cms, row, host);
    SequenceError(steps);
    assert (forall i | 0 <= i < |cms| :: EncodeColumn(cms[i], row, host).error.None?)
       <==> (forall i | 0 <= i < |steps| :: steps[i].error.None?);
  }

  /** When the column loop fails, it has written the columns before the
      first failing one and the part of that one written before its error,
      and it reports that error. */
  lemma EncodeColumnsFail(cms: seq<ColumnMapping>, row: Row, host: WriterHost)
    requires SourceBound(cms) && EncodeColumns(cms, row, host).error.Some?
    ensures exists i | 0 <= i < |cms| ::
      && (forall j | 0 <= j < i :: EncodeColumn(cms[j], row, host).error.None?)
      && var c := EncodeColumn(cms[i], row, host);
         EncodeColumns(cms, row, host) == Emitted(EncodeColumns(cms[..i], row, host).events + c.events, c.error)
  {
    var steps := ColumnSteps(cms, row, host);
    SequenceError(steps);
    var i :| 0 <= i < |steps|
      && (forall j | 0 <= j < i :: steps[j].error.None?)
      && Sequence(steps) == Emitted(Sequence(steps[..i]).events + steps[i].events, steps[i].error);
    ColumnStepsPrefix(cms, i, row, host);
    assert forall j | 0 <= j < i :: EncodeColumn(cms[j], row, host).error.None?;
  }

  /** A mapped column missing from the row stops the row with an error
      naming the source table and column; no later column is written. */
  lemma MissingColumnStops(cms: seq<ColumnMapping>, i: int, row: Row, host: WriterHost)
    requires SourceBound(cms) && 0 <= i < |cms|
    requires forall j | 0 <= j < i :: EncodeColumn(cms[j], row, host).error.None?
    requires !HasKey(row, cms[i].source.value.name)
    ensures EncodeColumns(cms, row, host)
         == Emitted(EncodeColumns(cms[..i], row, host).events,
                    Some(RowValueNotFound(cms[i].source.value.table, cms[i].source.value.name)))
  {
    var steps := ColumnSteps(cms, row, host);
    ColumnStepsPrefix(cms, i, row, host);
    SequenceError(steps[..i]);
    SequenceStep(steps, i);
    assert Sequence(steps[..i]).events + [] == Sequence(steps[..i]).events;
  }

  /** A column written without error is one balanced element. */
  lemma EncodeColumnBalanced(cm: ColumnMapping, row: Row, host: WriterHost)
    requires cm.source.Some? && EncodeColumn(cm, row, host).error.None?
    ensures Depth(EncodeColumn(cm, row, host).events) == 0
  {
    var name := cm.source.value.name;
    var head := [StartTag("column"), AttributeEvent("columnName", cm.destination.value.name)];
    var c := ChooseContent(cm, Get(row, name), host);
    HeadDepth("column", "columnName", cm.destination.value.name);
    ContentEventsShape(c);
    DepthAppend(head, ContentEvents(c).events);
    DepthSnoc(head + ContentEvents(c).events, EndTag);
  }

  /** A start tag and one attribute leave one element open. */
  lemma HeadDepth(element: string, attribute: string, value: string)
    ensures Depth([StartTag(element), AttributeEvent(attribute, value)]) == 1
  {
    DepthSnoc([StartTag(element)], AttributeEvent(attribute, value));
    DepthSnoc([], StartTag(element));
    assert [] + [StartTag(element)] == [StartTag(element)];
  }

  /** The text `KeyValuePair.ToString` adds around a pair is legal, so a
      pair is troublesome exactly when its key or its value's text is. */
  lemma TroublesomeIff(p: (string, Val))
    ensures Troublesome(p) <==> !XmlChars.IsXmlText(p.0) || !XmlChars.IsXmlText(AsText(p.1))
  {
    var k, v := p.0, AsText(p.1);
    XmlChars.XmlTextAppend("[", k);
    XmlChars.XmlTextAppend("[" + k, ", ");
    XmlChars.XmlTextAppend("[" + k + ", ", v);
    XmlChars.XmlTextAppend("[" + k + ", " + v, "]");
    assert XmlChars.IsXmlText("[") && XmlChars.IsXmlText(", ") && XmlChars.IsXmlText("]");
  }

  /** The fixed date layout is legal XML text whenever the time separator
      is: it is made of digits, `-`, a space and the separator. */
  lemma FormatDateIsXmlText(d: DateTime, sep: string)
    requires ValidDate(d) && XmlChars.IsXmlText(sep)
    ensures XmlChars.IsXmlText(FormatDate(d, sep))
  {
    var ms := Digits(d.millisecond, 3);
    FieldIsXmlText(d.millisecond, 3);
    XmlChars.XmlTextAppend(sep, ms);
    var t := FieldThen(d.second, 2, sep, ms);
    t := FieldThen(d.minute, 2, sep, t);
    t := FieldThen(d.hour, 2, sep, t);
    t := FieldThen(d.year, 4, " ", t);
    t := FieldThen(d.month, 2, "-", t);
    t := FieldThen(d.day, 2, "-", t);
  }

  lemma FieldIsXmlText(n: nat, width: nat)
    ensures XmlChars.IsXmlText(Digits(n, width))
  {
    DigitsAreDigits(n, width);
    var f := Digits(n, width);
    forall i | 0 <= i < |f| ensures XmlChars.IsXmlChar(f[i]) {
      assert f[i] in f;
    }
  }

  /** A field, then `glue` and legal text, is legal text. */
  lemma FieldThen(n: nat, width: nat, glue: string, rest: string) returns (t: string)
    requires XmlChars.IsXmlText(glue) && XmlChars.IsXmlText(rest)
    ensures t == Digits(n, width) + (glue + rest) && XmlChars.IsXmlText(t)
  {
    FieldIsXmlText(n, width);
    XmlChars.XmlTextAppend(glue, rest);
    XmlChars.XmlTextAppend(Digits(n, width), glue + rest);
    t := Digits(n, width) + (glue + rest);
  }

  /** A `column` element as the writer leaves it: start tag, `columnName`
      attribute, one content event (the null marker or a CDATA section), end
      tag. */
  predicate IsColumnElement(es: seq<Event>, destination: string) {
    && |es| == 4
    && es[0] == StartTag("column") && es[1] == AttributeEvent("columnName", destination)
    && (es[2] == AttributeEvent("isNull", "true") || es[2].CDataEvent?)
    && es[3] == EndTag
  }

  /** A column written without error is a column element named after the
      destination column. */
  lemma EncodeColumnShape(cm: ColumnMapping, row: Row, host: WriterHost)
    requires cm.source.Some? && EncodeColumn(cm, row, host).error.None?
    ensures cm.destination.Some? && IsColumnElement(EncodeColumn(cm, row, host).events, cm.destination.value.name)
  {
    ContentEventsShape(ChooseContent(cm, Get(row, cm.source.value.name), host));
  }

  /** A column carries the `isNull` marker exactly when its mapping has no
      script and its value is `null` or `DBNull` (a script takes priority
      over a null value), and then it has no CDATA section. */
  lemma NullMarkerIff(cm: ColumnMapping, row: Row, host: WriterHost)
    requires cm.source.Some? && EncodeColumn(cm, row, host).error.None?
    ensures HasKey(row, cm.source.value.name)
    ensures var es := EncodeColumn(cm, row, host).events;
      && (AttributeEvent("isNull", "true") in es <==> !cm.hasScriptWithValue && Get(row, cm.source.value.name) in {Null, DbNull})
      && (AttributeEvent("isNull", "true") in es <==> forall e | e in es :: !e.CDataEvent?)
  {
    EncodeColumnShape(cm, row, host);
    var es := EncodeColumn(cm, row, host).events;
    var c := ChooseContent(cm, Get(row, cm.source.value.name), host);
    assert es[2] == ContentEvents(c).events[0];
    assert es == [es[0], es[1], es[2], es[3]];
    assert AttributeEvent("isNull", "true") in es <==> c.NullMarker?;
  }

  /** The text of a date value is legal XML text; a date reads back from
      it, and a value that is not a date is written as
      "01-01-0001 00:00:00:000". */
  lemma DateLayoutFacts(parsed: Option<ValidDateTime>, sep: string)
    requires XmlChars.IsXmlText(sep)
    ensures XmlChars.IsXmlText(DateLayout(parsed, sep))
    ensures parsed.Some? ==> ParseFixedDate(DateLayout(parsed, sep), sep) == Some(parsed.value)
    ensures parsed.None? ==> DateLayout(parsed, sep) == "01-01-0001 00:00:00:000"
  {
    if parsed.Some? {
      FormatDateIsXmlText(parsed.value, sep);
      FormatDateRoundTrip(parsed.value, sep);
    } else {
      MinValueText();
      FormatDateIsXmlText(MinValue, ":");
    }
  }

  /** A date column without a script is never failed by its value.  A value
      that converts to a date is written in the fixed layout, from which the
      date reads back; any other value is written as `DateTime.MinValue` in
      the invariant culture, "01-01-0001 00:00:00:000". */
  lemma DateColumn(cm: ColumnMapping, row: Row, host: WriterHost)
    requires cm.source.Some? && cm.source.value.columnType == DateTimeType && !cm.hasScriptWithValue
    requires HasKey(row, cm.source.value.name) && Get(row, cm.source.value.name).Str?
    requires cm.destination.Some? && XmlChars.IsXmlText(cm.destination.value.name)
    requires XmlChars.IsXmlText(host.timeSeparator)
    ensures var e := EncodeColumn(cm, row, host);
      && e.error.None? && |e.events| == 4 && e.events[2].CDataEvent?
      && var converted := host.convert(cm, Get(row, cm.source.value.name));
         var parsed := if converted.Null? then None else host.parseDate(AsText(converted));
         && (parsed.Some? ==> ParseFixedDate(e.events[2].text, host.timeSeparator) == Some(parsed.value))
         && (parsed.None? ==> e.events[2].text == "01-01-0001 00:00:00:000")
  {
    var v := Get(row, cm.source.value.name);
    var converted := host.convert(cm, v);
    var parsed := if converted.Null? then None else host.parseDate(AsText(converted));
    DateLayoutFacts(parsed, host.timeSeparator);
    assert ChooseContent(cm, v, host) == CDataText(DateLayout(parsed, host.timeSeparator));
  }

  /** A row written without error is one `item` element: start tag, the
      destination table as `table` attribute, one column element per
      mapping in mapping order, end tag; it leaves no element open. */
  lemma ItemShape(row: Row, cms: seq<ColumnMapping>, table: string, host: WriterHost)
    requires SourceBound(cms) && EncodeItem(row, cms, table, host).error.None?
    ensures var es := EncodeItem(row, cms, table, host).events;
      && |es| == 4 * |cms| + 3
      && es[0] == StartTag("item") && es[1] == AttributeEvent("table", table) && es[|es| - 1] == EndTag
      && (forall i | 0 <= i < |cms| ::
            cms[i].destination.Some? && IsColumnElement(es[2 + 4 * i..6 + 4 * i], cms[i].destination.value.name))
      && Depth(es) == 0
  {
    var head := [StartTag("item"), AttributeEvent("table", table)];
    var cols := EncodeColumns(cms, row, host).events;
    EncodeColumnsShape(cms, row, host);
    var es := head + cols + [EndTag];
    forall i | 0 <= i < |cms|
      ensures cms[i].destination.Some? && IsColumnElement(es[2 + 4 * i..6 + 4 * i], cms[i].destination.value.name)
    {
      assert es[2 + 4 * i..6 + 4 * i] == cols[4 * i..4 * i + 4];
    }
    HeadDepth("item", "table", table);
    EncodeColumnsBalanced(cms, row, host);
    DepthAppend(head, cols);
    DepthSnoc(head + cols, EndTag);
  }

  /** With skipping on, a row is dropped exactly when one of its pairs is
      troublesome.  A dropped row writes nothing and logs one line naming
      the first troublesome pair and holding the dump of the row; a row
      that is not dropped logs nothing. */
  lemma SkipRule(row: Row, cms: seq<ColumnMapping>, table: string, host: WriterHost)
    requires SourceBound(cms)
    ensures var r := WriteRow(row, true, cms, table, host);
      && (r.outcome == Skipped <==> exists i | 0 <= i < |row| :: Troublesome(row[i]))
      && (r.outcome == Skipped ==>
            && r.events == []
            && exists i | 0 <= i < |row| ::
                 && Troublesome(row[i]) && (forall j | 0 <= j < i :: !Troublesome(row[j]))
                 && r.log == [SkipMessage(PairText(row[i]), table, Dump(row))])
      && (r.outcome != Skipped ==> r.log == [])
  {
  }

  /** Skipping changes nothing for a row without a troublesome pair. */
  lemma SkipKeepsCleanRows(row: Row, cms: seq<ColumnMapping>, table: string, host: WriterHost)
    requires SourceBound(cms)
    requires forall i | 0 <= i < |row| :: !Troublesome(row[i])
    ensures WriteRowAsWritten(row, true, cms, table, host) == WriteRowAsWritten(row, false, cms, table, host)
  {
  }

  /** The source's skip rule: with skipping on, a row with a troublesome
      pair writes nothing; it is dropped and logged when none of its values
      is a C# `null`, and otherwise the dump throws before anything is
      logged.  A row without a troublesome pair is not dropped and logs
      nothing. */
  lemma SkipRuleAsWritten(row: Row, cms: seq<ColumnMapping>, table: string, host: WriterHost)
    requires SourceBound(cms)
    ensures var r := WriteRowAsWritten(row, true, cms, table, host);
      var troubled := exists i | 0 <= i < |row| :: Troublesome(row[i]);
      var hasNull := exists i | 0 <= i < |row| :: row[i].1.Null?;
      && (r.outcome == Skipped <==> troubled && !hasNull)
      && (r.outcome == Failed(NullValueInDump) <==> troubled && hasNull)
      && (troubled ==> r.events == [])
      && (r.outcome == Skipped ==>
            exists i | 0 <= i < |row| ::
              && Troublesome(row[i]) && (forall j | 0 <= j < i :: !Troublesome(row[j]))
              && r.log == [SkipMessage(PairText(row[i]), table, Dump(row))])
      && (r.outcome != Skipped ==> r.log == [])
  {
    EncodeItemErrors(row, cms, table, host);
  }

  /** The exceptions the item itself can throw: neither the skip dump's nor
      the handler's. */
  lemma EncodeItemErrors(row: Row, cms: seq<ColumnMapping>, table: string, host: WriterHost)
    requires SourceBound(cms)
    ensures var e := EncodeItem(row, cms, table, host);
      e.error.Some? ==> !e.error.value.NullValueInDump? && !e.error.value.EmptyRowInHandler?
  {
    if XmlChars.IsXmlText(table) && EncodeColumns(cms, row, host).error.Some? {
      EncodeColumnsFail(cms, row, host);
    }
  }

  /** An `ArgumentException` the host writer raises is rethrown unchanged,
      except on an empty row, where the handler's cut throws in its place;
      on an empty row the only such exception is a refused table name,
      since every column needs its key in the row.  Every other exception
      passes the handler by. */
  lemma HandlerRethrows(row: Row, skip: bool, cms: seq<ColumnMapping>, table: string, host: WriterHost)
    requires SourceBound(cms)
    requires !skip || FirstTroublesome(row).None?
    ensures var e := EncodeItem(row, cms, table, host);
      var r := WriteRowAsWritten(row, skip, cms, table, host);
      && (e.error.None? <==> r.outcome == Written)
      && (e.error.Some? && (row != [] || e.error.value != InvalidCharacter) ==> r.outcome == Failed(e.error.value))
      && (row == [] && e.error == Some(InvalidCharacter) ==> r.outcome == Failed(EmptyRowInHandler))
      && (row == [] && r.outcome == Failed(EmptyRowInHandler) ==> !XmlChars.IsXmlText(table))
  {
    var e := EncodeItem(row, cms, table, host);
    if row == [] && XmlChars.IsXmlText(table) && e.error.Some? {
      var cols := EncodeColumns(cms, row, host);
      EncodeColumnsFail(cms, row, host);
      var i :| 0 <= i < |cms| && EncodeColumns(cms, row, host).error == EncodeColumn(cms[i], row, host).error;
      assert !HasKey(row, cms[i].source.value.name);
    }
  }

  /** The `key:value` texts of a row, in order. */
  function DumpPairs(row: Row): (r: seq<string>)
    ensures |r| == |row| && forall i | 0 <= i < |row| :: r[i] == row[i].0 + ":" + AsText(row[i].1)
  {
    seq(|row|, i requires 0 <= i < |row| => row[i].0 + ":" + AsText(row[i].1))
  }

  /** Before trimming, the dump is the `key:value` texts joined by commas,
      with a comma after the last one. */
  lemma {:induction false} DumpTextIsJoin(row: Row)
    ensures DumpText(row) == if row == [] then "" else Strings.Join(DumpPairs(row), ",") + ","
    decreases |row|
  {
    if |row| > 1 {
      var n := |row| - 1;
      DumpTextIsJoin(row[..n]);
      assert DumpPairs(row) == DumpPairs(row[..n]) + [DumpPairs(row)[n]];
      Strings.JoinSnoc(DumpPairs(row[..n]), DumpPairs(row)[n], ",");
    } else if |row| == 1 {
      assert row[..0] == [];
    }
  }

  /** The logged dump is the `key:value` texts joined by commas, unless the
      last value itself ends in a comma, which the trimming also removes. */
  lemma DumpIsJoin(row: Row)
    requires row != [] ==> var last := AsText(row[|row| - 1].1); last == [] || last[|last| - 1] != ','
    ensures Dump(row) == Strings.Join(DumpPairs(row), ",")
  {
    DumpTextIsJoin(row);
    if row != [] {
      var n := |row| - 1;
      var ps := DumpPairs(row);
      var j := Strings.Join(ps, ",");
      if n > 0 {
        assert ps == ps[..n] + [ps[n]];
        Strings.JoinSnoc(ps[..n], ps[n], ",");
      }
      assert j[|j| - 1] == ps[n][|ps[n]| - 1];
      Strings.TrimEndOne(j, ',');
    }
  }

  /** The source's dump calls `ToString` on a C# `null` value, so a row
      that should be dropped makes `Write` throw instead: the row
      [Name: U+0001, Note: null] with skipping on. */
  lemma NullValueInDroppedRow(cms: seq<ColumnMapping>, table: string, host: WriterHost)
    requires SourceBound(cms)
    ensures var row := [("Name", Str([1 as char])), ("Note", Null)];
      && WriteRowAsWritten(row, true, cms, table, host).outcome == Failed(NullValueInDump)
      && WriteRow(row, true, cms, table, host).outcome == Skipped
  {
    var row := [("Name", Str([1 as char])), ("Note", Null)];
    TroublesomeIff(row[0]);
    assert !XmlChars.IsXmlChar(AsText(row[0].1)[0]);
    assert row[1].1.Null?;
  }

  /** On rows without a C# `null` value the source's `Write` and the
      corrected one agree. */
  lemma AsWrittenAgreesWithoutNull(row: Row, skip: bool, cms: seq<ColumnMapping>, table: string, host: WriterHost)
    requires SourceBound(cms)
    requires forall i | 0 <= i < |row| :: !row[i].1.Null?
    ensures WriteRowAsWritten(row, skip, cms, table, host) == WriteRow(row, skip, cms, table, host)
  {
  }
}
