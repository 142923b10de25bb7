/** The row reader of the XML provider (`XmlSourceReader`): it pulls one
    `item` at a time from the table the provider's reader was sought to,
    decodes it into a row, null-fills the mapped columns, rewrites decimal
    separators and filters the row by the mapping's conditionals.  A
    `table` start tag or a `table`/`tables` end tag met before the next
    item ends the table and closes the reader.

    `PullFrom` is the whole of one `IsDone` call as a function of the token
    stream; the class's methods are proved to do what it says. */
module SourceReader {
  import opened Wrappers
  import opened Model
  import opened HostXml
  import opened ItemDecoder
  import RowFilter
  import DecimalSeparator
  import Provider

  /** What an `IsDone` call can throw: the wrapped exception of a failed
      item (`Read from file failed. Partial read ...`), an exception of the
      row filter, or the stack overflow of the re-entry at the end of the
      stream (see `PullFrom`). */
  datatype ReadError = PartialRead(message: string) | FilterFailed(error: RowFilter.FilterError) | EndlessRecursion

  /** The reader's configuration: the source table's name, the mapping's
      column mappings and conditionals, and the separator settings and
      culture `GetReader` chose. */
  datatype ReaderConfig = ReaderConfig(
    table: string,
    columnMappings: seq<ColumnMapping>,
    conditionals: seq<Conditional>,
    settings: DecimalSeparator.SeparatorSettings,
    culture: ReaderCulture)

  /** A node that starts a row: an element called `item`. */
  predicate StartsRow(t: Token) {
    t.StartElement? && t.name == "item"
  }

  /** A node that ends the table: an end tag `table` or `tables`, or the
      start of another `table`. */
  predicate EndsTable(t: Token) {
    (t.EndElement? && (t.name == "table" || t.name == "tables")) || (t.StartElement? && t.name == "table")
  }

  /** The read loop of `IsDone` from position `q` on: the first node that
      starts a row or ends the table; the end of the stream when there is
      none. */
  function FindRowStart(toks: seq<Token>, q: int): (k: int)
    requires 0 <= q <= |toks|
    ensures q <= k <= |toks|
    ensures k < |toks| ==> StartsRow(toks[k]) || EndsTable(toks[k])
    ensures forall i | q <= i < k :: !StartsRow(toks[i]) && !EndsTable(toks[i])
    decreases |toks| - q
  {
    if q == |toks| || StartsRow(toks[q]) || EndsTable(toks[q]) then q else FindRowStart(toks, q + 1)
  }

  /** The result of one `IsDone` call: what it returns or throws, the row
      `GetNext` then returns, where the reader ends, and whether it was
      closed. */
  datatype Pull = Pull(outcome: Result<bool, ReadError>, row: Option<Row>, pos: int, closes: bool)

  /** One `IsDone` call with the reader on position `p` and `last` the row
      held before.  The read loop stops at a row start or a table end; a
      table end closes the reader and returns true, anything else goes on
      as `RowTurn` says. */
  function PullFrom(toks: seq<Token>, p: int, cfg: ReaderConfig, last: Option<Row>): Pull
    requires -1 <= p <= |toks|
    decreases |toks| - p
  {
    var k := FindRowStart(toks, Provider.NextPos(toks, p));
    if k < |toks| && EndsTable(toks[k]) then Pull(Ok(true), last, |toks|, true)
    else match RowTurn(toks, k, cfg)
      case Final(r) => r
      case Again(q, row) => PullFrom(toks, q, cfg, Some(row))
  }

  /** How the part of `IsDone` after the read loop ends: with a result, or
      by re-entering `IsDone` from position `pos` holding `row`. */
  datatype Turn = Final(result: Pull) | Again(pos: int, row: Row)

  /** The part of `IsDone` after the read loop, the reader on position `k`:
      `SetNextRow` decodes from there (also when the stream ran out), the
      separators are rewritten and the filter decides.  A row that passes
      returns false, a row that fails re-enters `IsDone`; at the end of the
      stream the re-entry meets the same state again and recurses without
      end.  It never closes the reader nor returns true. */
  function RowTurn(toks: seq<Token>, k: int, cfg: ReaderConfig): (t: Turn)
    requires 0 <= k <= |toks|
    ensures t.Final? ==> t.result.outcome != Ok(true) && !t.result.closes && t.result.row.Some?
    ensures t.Again? ==> k < t.pos <= |toks|
  {
    var d := SetNextRowSpec(toks, k, cfg.columnMappings);
    match d.row
    case Err(partial) => Final(Pull(Err(PartialRead(PartialReadMessage(cfg.table, partial))), Some(partial), d.pos, false))
    case Ok(decoded) =>
      var row := DecimalSeparator.RewriteRowAsWritten(decoded, cfg.columnMappings, cfg.settings, cfg.culture);
      match RowFilter.RowMatchesConditions(row, cfg.conditionals)
      case Err(e) => Final(Pull(Err(FilterFailed(e)), Some(row), d.pos, false))
      case Ok(passes) =>
        if passes then Final(Pull(Ok(false), Some(row), d.pos, false))
        else if k == |toks| then Final(Pull(Err(EndlessRecursion), Some(row), d.pos, false))
        else Again(d.pos, row)
  }

  /** Every active mapping with a source column has a key in the row. */
  predicate CoversMappings(row: Row, cms: seq<ColumnMapping>) {
    forall i | 0 <= i < |cms| && cms[i].active && cms[i].source.Some? :: HasKey(row, cms[i].source.value.name)
  }

  /** One turn of the decoding loop on a node that is not the item's end
      tag. */
  lemma DecodeStep(toks: seq<Token>, j: int, itemName: string, st: DecodeState)
    requires 0 <= j < |toks| && toks[j] != EndElement(itemName)
    ensures DecodeFrom(toks, j, itemName, st)
         == match StepToken(st, toks[j])
            case None => Decoded(Err(st.row), j)
            case Some(next) => DecodeFrom(toks, j + 1, itemName, next)
  {
  }

  /** The decoder keeps keys unique: `Add` refuses a key that is there. */
  lemma {:induction false} DecodeUnique(toks: seq<Token>, j: int, itemName: string, st: DecodeState)
    requires j >= 0 && UniqueKeys(st.row)
    ensures var d := DecodeFrom(toks, j, itemName, st);
      UniqueKeys(if d.row.Ok? then d.row.value else d.row.error)
    decreases |toks| - j
  {
    if j < |toks| && toks[j] != EndElement(itemName) {
      var next := StepToken(st, toks[j]);
      if next.Some? {
        assert UniqueKeys(next.value.row);
        DecodeUnique(toks, j + 1, itemName, next.value);
      }
    }
  }

  /** Null-filling over the active, source-bound mappings gives every one
      of them a key. */
  lemma NullFillCovers(row: Row, cms: seq<ColumnMapping>)
    ensures CoversMappings(NullFill(row, ActiveSourceMappings(cms)), cms)
  {
    var acts := ActiveSourceMappings(cms);
    var r := NullFill(row, acts);
    forall i | 0 <= i < |cms| && cms[i].active && cms[i].source.Some? ensures HasKey(r, cms[i].source.value.name) {
      assert cms[i] in acts;
      var m :| 0 <= m < |acts| && acts[m] == cms[i];
    }
  }

  /** A decoded row has unique keys and a key for every active, source-bound
      mapping. */
  lemma SetNextRowFacts(toks: seq<Token>, k: int, cms: seq<ColumnMapping>)
    requires -1 <= k <= |toks|
    ensures var d := SetNextRowSpec(toks, k, cms);
      && UniqueKeys(if d.row.Ok? then d.row.value else d.row.error)
      && (d.row.Ok? ==> CoversMappings(d.row.value, cms))
  {
    var j := if k < |toks| then k + 1 else |toks|;
    var d := DecodeFrom(toks, j, NodeName(toks, k), Initial);
    DecodeUnique(toks, j, NodeName(toks, k), Initial);
    if d.row.Ok? {
      NullFillCovers(d.row.value, cms);
    }
  }

  /** The separator rewrite keeps the keys. */
  lemma RewriteKeepsKeys(row: Row, cms: seq<ColumnMapping>, s: DecimalSeparator.SeparatorSettings, c: ReaderCulture)
    ensures Keys(DecimalSeparator.RewriteRowAsWritten(row, cms, s, c)) == Keys(row)
    ensures forall k :: HasKey(DecimalSeparator.RewriteRowAsWritten(row, cms, s, c), k) <==> HasKey(row, k)
  {
    DecimalSeparator.RewriteLoopKeys(row, cms, s, c);
    var r := DecimalSeparator.RewriteRowAsWritten(row, cms, s, c);
    forall k ensures HasKey(r, k) <==> HasKey(row, k) {
      if HasKey(r, k) {
        var i :| 0 <= i < |r| && r[i].0 == k;
        assert Keys(r)[i] == Keys(row)[i];
      }
      if HasKey(row, k) {
        var i :| 0 <= i < |row| && row[i].0 == k;
        assert Keys(r)[i] == Keys(row)[i];
      }
    }
  }

  /** A row the part after the read loop hands out passes the filter and
      has a key for every active, source-bound mapping. */
  lemma RowTurnPasses(toks: seq<Token>, k: int, cfg: ReaderConfig)
    requires 0 <= k <= |toks|
    ensures var t := RowTurn(toks, k, cfg);
      t.Final? && t.result.outcome == Ok(false) ==>
        && RowFilter.RowMatchesConditions(t.result.row.value, cfg.conditionals) == Ok(true)
        && CoversMappings(t.result.row.value, cfg.columnMappings)
  {
    var d := SetNextRowSpec(toks, k, cfg.columnMappings);
    SetNextRowFacts(toks, k, cfg.columnMappings);
    if d.row.Ok? {
      RewriteKeepsKeys(d.row.value, cfg.columnMappings, cfg.settings, cfg.culture);
    }
  }

  /** A row that `IsDone` hands out (it returned false) passes the
      mapping's filter and has a key for every active, source-bound
      mapping. */
  lemma {:induction false} ReturnedRowPasses(toks: seq<Token>, p: int, cfg: ReaderConfig, last: Option<Row>)
    requires -1 <= p <= |toks|
    requires PullFrom(toks, p, cfg, last).outcome == Ok(false)
    ensures var r := PullFrom(toks, p, cfg, last).row;
      && r.Some?
      && RowFilter.RowMatchesConditions(r.value, cfg.conditionals) == Ok(true)
      && CoversMappings(r.value, cfg.columnMappings)
    decreases |toks| - p
  {
    var k := FindRowStart(toks, Provider.NextPos(toks, p));
    var t := RowTurn(toks, k, cfg);
    if t.Again? {
      ReturnedRowPasses(toks, t.pos, cfg, Some(t.row));
    } else {
      RowTurnPasses(toks, k, cfg);
    }
  }

  /** `IsDone` returns true only by closing the reader on a table end, at
      the end of the stream; it never returns true with the reader left
      open. */
  lemma {:induction false} DoneCloses(toks: seq<Token>, p: int, cfg: ReaderConfig, last: Option<Row>)
    requires -1 <= p <= |toks|
    ensures var r := PullFrom(toks, p, cfg, last);
      (r.outcome == Ok(true) <==> r.closes) && (r.closes ==> r.pos == |toks|)
    decreases |toks| - p
  {
    var k := FindRowStart(toks, Provider.NextPos(toks, p));
    if !(k < |toks| && EndsTable(toks[k])) {
      var t := RowTurn(toks, k, cfg);
      if t.Again? {
        DoneCloses(toks, t.pos, cfg, Some(t.row));
      }
    }
  }

  /** As soon as a table end comes before any row start, `IsDone` closes
      the reader and returns true, keeping the row it held. */
  lemma TableEndCloses(toks: seq<Token>, p: int, e: int, cfg: ReaderConfig, last: Option<Row>)
    requires -1 <= p < e < |toks| && EndsTable(toks[e])
    requires forall i | p < i < e :: !StartsRow(toks[i]) && !EndsTable(toks[i])
    ensures PullFrom(toks, p, cfg, last) == Pull(Ok(true), last, |toks|, true)
  {
    FindRowStartFirst(toks, p + 1, e);
    assert FindRowStart(toks, Provider.NextPos(toks, p)) == e;
  }

  /** The read loop stops at the first row start or table end. */
  lemma {:induction false} FindRowStartFirst(toks: seq<Token>, q: int, e: int)
    requires 0 <= q <= e < |toks| && (StartsRow(toks[e]) || EndsTable(toks[e]))
    requires forall i | q <= i < e :: !StartsRow(toks[i]) && !EndsTable(toks[i])
    ensures FindRowStart(toks, q) == e
    decreases e - q
  {
    if q < e {
      FindRowStartFirst(toks, q + 1, e);
    }
  }

  /** The document of a table no source file has yields no rows: the
      reader, fresh on it, meets the self-closing `table` first. */
  lemma FallbackYieldsNoRows(table: string, cfg: ReaderConfig, last: Option<Row>)
    ensures PullFrom(Provider.FallbackDocument(table), -1, cfg, last) == Pull(Ok(true), last, 3, true)
  {
    var toks := Provider.FallbackDocument(table);
    TableEndCloses(toks, -1, 1, cfg, last);
  }

  /** Round trip with the writer's layout: an `item` whose body is the
      column elements of `cols`, with unique keys and no C# `null`, is
      pulled back as `cols` null-filled and separator-rewritten, when that
      row passes the filter. */
  lemma PullWrittenItem(toks: seq<Token>, p: int, cfg: ReaderConfig, last: Option<Row>, attrs: seq<Attr>, cols: Row)
    requires -1 <= p && p + 2 + |ItemBody(cols)| < |toks|
    requires toks[p + 1] == StartElement("item", attrs, false)
    requires toks[p + 2..p + 2 + |ItemBody(cols)|] == ItemBody(cols) && toks[p + 2 + |ItemBody(cols)|] == EndElement("item")
    requires UniqueKeys(cols) && NoCSharpNull(cols)
    requires var row := DecimalSeparator.RewriteRowAsWritten(NullFill(cols, ActiveSourceMappings(cfg.columnMappings)),
                                                     cfg.columnMappings, cfg.settings, cfg.culture);
      RowFilter.RowMatchesConditions(row, cfg.conditionals) == Ok(true)
    ensures PullFrom(toks, p, cfg, last)
         == Pull(Ok(false),
                 Some(DecimalSeparator.RewriteRowAsWritten(NullFill(cols, ActiveSourceMappings(cfg.columnMappings)),
                                                  cfg.columnMappings, cfg.settings, cfg.culture)),
                 p + 2 + |ItemBody(cols)|, false)
  {
    FindRowStartFirst(toks, p + 1, p + 1);
    assert FindRowStart(toks, Provider.NextPos(toks, p)) == p + 1;
    TurnWrittenItem(toks, p, cfg, attrs, cols);
  }

  /** The part after the read loop on an `item` (at `p + 1`) laid out by
      the writer whose row passes the filter hands that row out. */
  lemma TurnWrittenItem(toks: seq<Token>, p: int, cfg: ReaderConfig, attrs: seq<Attr>, cols: Row)
    requires -1 <= p && p + 2 + |ItemBody(cols)| < |toks|
    requires toks[p + 1] == StartElement("item", attrs, false)
    requires toks[p + 2..p + 2 + |ItemBody(cols)|] == ItemBody(cols) && toks[p + 2 + |ItemBody(cols)|] == EndElement("item")
    requires UniqueKeys(cols) && NoCSharpNull(cols)
    requires var row := DecimalSeparator.RewriteRowAsWritten(NullFill(cols, ActiveSourceMappings(cfg.columnMappings)),
                                                     cfg.columnMappings, cfg.settings, cfg.culture);
      RowFilter.RowMatchesConditions(row, cfg.conditionals) == Ok(true)
    ensures RowTurn(toks, p + 1, cfg)
         == Final(Pull(Ok(false),
                       Some(DecimalSeparator.RewriteRowAsWritten(NullFill(cols, ActiveSourceMappings(cfg.columnMappings)),
                                                        cfg.columnMappings, cfg.settings, cfg.culture)),
                       p + 2 + |ItemBody(cols)|, false))
  {
    DecodeWrittenItem(toks, p, attrs, cols, cfg.columnMappings);
  }

  /** `SetNextRow` on an `item` (at `p + 1`) laid out by the writer decodes
      its columns and null-fills the rest. */
  lemma DecodeWrittenItem(toks: seq<Token>, p: int, attrs: seq<Attr>, cols: Row, cms: seq<ColumnMapping>)
    requires -1 <= p && p + 2 + |ItemBody(cols)| < |toks|
    requires toks[p + 1] == StartElement("item", attrs, false)
    requires toks[p + 2..p + 2 + |ItemBody(cols)|] == ItemBody(cols) && toks[p + 2 + |ItemBody(cols)|] == EndElement("item")
    requires UniqueKeys(cols) && NoCSharpNull(cols)
    ensures SetNextRowSpec(toks, p + 1, cms) == Decoded(Ok(NullFill(cols, ActiveSourceMappings(cms))), p + 2 + |ItemBody(cols)|)
  {
    var e: Row := [];
    assert e + cols == cols;
    DecodeItemBody(toks, p + 2, "", e, cols);
    assert NodeName(toks, p + 1) == "item";
  }

  lemma UniqueKeysOfKeys(a: Row, b: Row)
    requires Keys(a) == Keys(b) && UniqueKeys(a)
    ensures UniqueKeys(b)
  {
    forall i, j | 0 <= i < j < |b| ensures b[i].0 != b[j].0 {
      assert Keys(a)[i] == Keys(b)[i] && Keys(a)[j] == Keys(b)[j];
    }
  }

  /** The reader of one mapping: the provider's reader, sought to the
      mapping's source table, and the row last decoded. */
  class XmlSourceReader {
    var xmlReader: HostReader?
    const mapping: Mapping
    var nextRow: Option<Row>
    const provider: Provider.XmlProvider
    const settings: DecimalSeparator.SeparatorSettings
    const culture: ReaderCulture

    ghost predicate Valid()
      reads this, xmlReader
    {
      && (xmlReader != null ==> xmlReader.Valid())
      && (nextRow.Some? ==> UniqueKeys(nextRow.value))
    }

    function Config(): ReaderConfig
      reads this
    {
      ReaderConfig(mapping.sourceTable, mapping.columnMappings, mapping.conditionals, settings, culture)
    }

    /** The reader takes the provider's reader for the mapping's table;
        `documents` are the source files' contents. */
    constructor (provider: Provider.XmlProvider, mapping: Mapping, documents: seq<seq<Token>>,
                 settings: DecimalSeparator.SeparatorSettings, culture: ReaderCulture)
      requires provider.Valid()
      modifies provider, provider.xmlReader, mapping, provider.Dicts()
      ensures Valid() && xmlReader != null && xmlReader.attr == -1 && nextRow.None?
      ensures this.provider == provider && this.mapping == mapping && this.settings == settings && this.culture == culture
    {
      this.provider := provider;
      this.mapping := mapping;
      this.settings := settings;
      this.culture := culture;
      nextRow := None;
      new;
      xmlReader := provider.GetXmlReader(mapping, documents);
    }

    /** `GetNext`: the row the last `IsDone` left. */
    function GetNext(): Option<Row>
      reads this
    {
      nextRow
    }

    /** `IsDone`: true when the table has no more rows (and the reader is
        closed), false with the next row that passes the filter ready. */
    method IsDone() returns (done: Result<bool, ReadError>)
      requires Valid()
      modifies this, xmlReader
      ensures Valid() && xmlReader == old(xmlReader)
      ensures old(xmlReader) == null ==> done == Ok(true) && nextRow == old(nextRow)
      ensures old(xmlReader) != null ==>
        var r := PullFrom(xmlReader.tokens, old(xmlReader.pos), Config(), old(nextRow));
        && done == r.outcome && nextRow == r.row
        && xmlReader.pos == r.pos && xmlReader.attr == -1
        && xmlReader.closed == (old(xmlReader.closed) || r.closes)
      decreases if xmlReader == null then 0 else |xmlReader.tokens| - xmlReader.pos + 1
    {
      if xmlReader == null {
        return Ok(true);
      }
      var reader := xmlReader;
      var ended := ReadToRow(reader);
      if ended {
        reader.Close();
        return Ok(true);
      }
      var atEnd := !reader.OnNode();
      ghost var k := reader.pos;
      var error := SetNextRow();
      if error.Some? {
        return Err(PartialRead(error.value));
      }
      ghost var decoded := nextRow.value;
      ReplaceDecimalSeparator();
      var passes := RowFilter.RowMatchesConditions(nextRow.value, mapping.conditionals);
      if passes.Err? {
        return Err(FilterFailed(passes.error));
      }
      if passes.value {
        return Ok(false);
      }
      if atEnd {
        return Err(EndlessRecursion);
      }
      done := IsDone();
    }

    /** The read loop of `IsDone`: on to the next row start or table end. */
    static method ReadToRow(reader: HostReader) returns (ended: bool)
      requires reader.Valid()
      modifies reader
      ensures reader.Valid() && reader.closed == old(reader.closed) && reader.attr == -1
      ensures reader.pos == FindRowStart(reader.tokens, Provider.NextPos(reader.tokens, old(reader.pos)))
      ensures ended <==> reader.OnNode() && EndsTable(reader.tokens[reader.pos])
    {
      ghost var start := Provider.NextPos(reader.tokens, reader.pos);
      var more := reader.Read();
      while more
        invariant reader.Valid() && reader.closed == old(reader.closed) && reader.attr == -1
        invariant start <= reader.pos <= |reader.tokens| && (more <==> reader.OnNode())
        invariant FindRowStart(reader.tokens, reader.pos) == FindRowStart(reader.tokens, start)
        decreases |reader.tokens| - reader.pos
      {
        if reader.NodeType() == ElementNode && reader.Name() == "item" {
          return false;
        } else if (reader.NodeType() == EndElementNode && (reader.Name() == "table" || reader.Name() == "tables"))
                  || (reader.NodeType() == ElementNode && reader.Name() == "table") {
          return true;
        }
        more := reader.Read();
      }
      return false;
    }

    /** `SetNextRow`: the item the reader is on, decoded and null-filled;
        a refused `Add` throws with the partial row. */
    method SetNextRow() returns (error: Option<string>)
      requires Valid() && xmlReader != null && xmlReader.attr == -1
      modifies this, xmlReader
      ensures Valid() && xmlReader == old(xmlReader)
      ensures xmlReader.closed == old(xmlReader.closed) && xmlReader.attr == -1
      ensures var d := SetNextRowSpec(xmlReader.tokens, old(xmlReader.pos), mapping.columnMappings);
        && xmlReader.pos == d.pos
        && (d.row.Ok? ==> nextRow == Some(d.row.value) && error.None?)
        && (d.row.Err? ==> nextRow == Some(d.row.error) && error == Some(PartialReadMessage(mapping.sourceTable, d.row.error)))
    {
      ghost var toks := xmlReader.tokens;
      ghost var p := xmlReader.pos;
      ghost var cms := mapping.columnMappings;
      SetNextRowFacts(toks, p, cms);
      ghost var d0 := DecodeFrom(toks, Provider.NextPos(toks, p), NodeName(toks, p), Initial);
      assert SetNextRowSpec(toks, p, cms) == if d0.row.Err? then d0 else Decoded(Ok(NullFill(d0.row.value, ActiveSourceMappings(cms))), d0.pos);
      var row, ok := DecodeItem(xmlReader);
      if !ok {
        nextRow := Some(row);
        return Some(PartialReadMessage(mapping.sourceTable, row));
      }
      row := FillNulls(row, ActiveSourceMappings(mapping.columnMappings));
      nextRow := Some(row);
      return None;
    }

    /** The decoding loop of `SetNextRow`, with its accumulators `key` and
        `value`. */
    static method DecodeItem(reader: HostReader) returns (row: Row, ok: bool)
      requires reader.Valid() && reader.attr == -1
      modifies reader
      ensures reader.Valid() && reader.closed == old(reader.closed) && reader.attr == -1
      ensures var d := DecodeFrom(reader.tokens, Provider.NextPos(reader.tokens, old(reader.pos)), NodeName(reader.tokens, old(reader.pos)), Initial);
        && reader.pos == d.pos
        && (ok <==> d.row.Ok?)
        && row == (if d.row.Ok? then d.row.value else d.row.error)
    {
      ghost var toks := reader.tokens;
      var itemName := reader.Name();
      ghost var d := DecodeFrom(toks, Provider.NextPos(toks, reader.pos), itemName, Initial);
      var key := "";
      var value := Str("");
      row := [];
      var more := reader.Read();
      while more && !(reader.NodeType() == EndElementNode && reader.Name() == itemName)
        invariant reader.Valid() && reader.closed == old(reader.closed) && reader.attr == -1
        invariant 0 <= reader.pos <= |toks| && (more <==> reader.OnNode())
        invariant DecodeFrom(toks, reader.pos, itemName, DecodeState(key, value, row)) == d
        decreases |toks| - reader.pos
      {
        DecodeStep(toks, reader.pos, itemName, DecodeState(key, value, row));
        var next := DecodeNode(reader, DecodeState(key, value, row));
        if next.None? {
          return row, false;
        }
        key, value, row := next.value.key, next.value.value, next.value.row;
        more := reader.Read();
      }
      assert reader.pos < |toks| ==> toks[reader.pos] == EndElement(itemName);
      return row, true;
    }

    /** One node of the decoding loop: `StepToken` on the node the reader
        is on. */
    static method DecodeNode(reader: HostReader, st: DecodeState) returns (next: Option<DecodeState>)
      requires reader.Valid() && reader.OnNode() && reader.attr == -1
      modifies reader
      ensures reader.Valid() && reader.closed == old(reader.closed) && reader.attr == -1 && reader.pos == old(reader.pos)
      ensures next == StepToken(st, reader.tokens[reader.pos])
    {
      var key, value, row := st.key, st.value, st.row;
      if reader.NodeType() == ElementNode {
        var isNull;
        key, value, isNull := ScanAttributes(reader, key, value);
        var _ := reader.MoveToElement();
        if reader.IsEmptyElement() {
          var added := Add(row, key, if isNull then DbNull else Str(""));
          if added.None? {
            return None;
          }
          row := added.value;
          value := Str("");
        }
      }
      if reader.NodeType() == CDataNode || reader.NodeType() == TextNode {
        if value != DbNull {
          value := Str(AsText(value) + reader.Value());
        }
      }
      if reader.NodeType() == EndElementNode {
        var added := Add(row, key, value);
        if added.None? {
          return None;
        }
        row := added.value;
        value := Str("");
      }
      return Some(DecodeState(key, value, row));
    }

    /** The attribute loop: `isNull="true"` switches the value to the null
        marker, `columnName` sets the key. */
    static method ScanAttributes(reader: HostReader, key: string, value: Val) returns (k: string, v: Val, isNull: bool)
      requires reader.Valid() && reader.OnNode() && reader.attr == -1 && reader.tokens[reader.pos].StartElement?
      modifies reader
      ensures reader.Valid() && reader.closed == old(reader.closed) && reader.pos == old(reader.pos)
      ensures (k, v, isNull) == ScanAttrs(reader.tokens[reader.pos].attrs, key, value, false)
    {
      ghost var attrs := reader.tokens[reader.pos].attrs;
      k, v, isNull := key, value, false;
      var i := 0;
      while i < reader.AttributeCount()
        invariant reader.Valid() && reader.closed == old(reader.closed) && reader.pos == old(reader.pos)
        invariant reader.Attributes() == attrs && 0 <= i <= |attrs|
        invariant (k, v, isNull) == ScanAttrs(attrs[..i], key, value, false)
      {
        reader.MoveToAttributeAt(i);
        if reader.Name() == "isNull" && reader.Value() == "true" {
          v := DbNull;
          isNull := true;
        }
        if reader.Name() == "columnName" {
          k := reader.Value();
        }
        assert attrs[..i + 1][..i] == attrs[..i];
        i := i + 1;
      }
      assert attrs[..i] == attrs;
    }

    /** The null-fill loop: each mapped column missing from the row is
        added with the null marker. */
    static method FillNulls(row: Row, cms: seq<ColumnMapping>) returns (r: Row)
      requires forall i | 0 <= i < |cms| :: cms[i].source.Some?
      ensures r == NullFill(row, cms)
    {
      r := row;
      for i := 0 to |cms|
        invariant r == NullFill(row, cms[..i])
      {
        assert cms[..i + 1][..i] == cms[..i];
        var k := cms[i].source.value.name;
        if IndexOf(r, k) == -1 {
          r := r + [(k, DbNull)];
        }
      }
      assert cms[..|cms|] == cms;
    }

    /** `ReplaceDecimalSeparator`: when the rewrite is on, each column
        mapping that asks for it rewrites its source column's current
        value, so a column two mappings target is rewritten twice. */
    method ReplaceDecimalSeparator()
      requires nextRow.Some? && UniqueKeys(nextRow.value)
      modifies this
      ensures nextRow == Some(DecimalSeparator.RewriteRowAsWritten(old(nextRow.value), mapping.columnMappings, settings, culture))
      ensures UniqueKeys(nextRow.value) && xmlReader == old(xmlReader)
    {
      var row := nextRow.value;
      if DecimalSeparator.Enabled(settings) {
        var cms := mapping.columnMappings;
        ghost var target := DecimalSeparator.RewriteLoop(row, cms, settings, culture);
        for i := 0 to |cms|
          invariant DecimalSeparator.RewriteLoop(row, cms[i..], settings, culture) == target
          invariant UniqueKeys(row) && xmlReader == old(xmlReader)
        {
          var cm := cms[i];
          assert cms[i..][1..] == cms[i + 1..];
          ghost var before := row;
          if DecimalSeparator.Eligible(cm) {
            var k := cm.source.value.name;
            var at := IndexOf(row, k);
            if at >= 0 && row[at].1.Str? && row[at].1.text != "" {
              row := Set(row, k, Str(DecimalSeparator.RewriteValue(row[at].1.text, settings, culture)));
            }
          }
          assert row == DecimalSeparator.RewriteStep(before, cm, settings, culture);
          UniqueKeysOfKeys(before, row);
        }
      }
      nextRow := Some(row);
    }

    /** `Dispose`: closes the reader, if there is one. */
    method Dispose()
      requires Valid()
      modifies xmlReader
      ensures Valid()
      ensures xmlReader != null ==> xmlReader.closed && xmlReader.pos == |xmlReader.tokens|
    {
      if xmlReader != null {
        xmlReader.Close();
      }
    }
  }
}
