/** The export job of the XML provider (`RunJob` with `WriteMappingOptions`
    and `XmlDestinationWriter`): one `tables` root, one `table` element per
    active mapping carrying its destination table name and its options, and
    inside it one `item` per row the mapping's source yields.  The job is a
    function of the mappings as values and of the rows their sources yield;
    the first exception ends it. */
module ExportJob {
  import opened Wrappers
  import opened Model
  import opened HostXml
  import opened Emission
  import Strings
  import XmlChars
  import DestinationWriter

  /** Why the job stopped: the host writer refused the `tableName` or an
      option attribute, writing a row threw, or reading the source threw. */
  datatype JobError = AttributeRefused(refusal: Refusal) | RowFailed(error: DestinationWriter.WriteError) | ReadFailed(message: string)

  /** What a mapping's source reader yields: its rows, in order, and the
      message of the exception that ended the reading, if one did. */
  datatype SourceRows = SourceRows(rows: seq<Row>, failure: Option<string>)

  /** A table mapping as the job reads it: whether it is active, its
      destination table's name, its options (`None` for a `null`
      dictionary), its column mappings, and what its source yields. */
  datatype TableJob = TableJob(
    active: bool,
    destinationTable: string,
    options: Option<seq<(string, string)>>,
    columnMappings: seq<ColumnMapping>,
    source: SourceRows)

  /** One attribute event per option, in order. */
  function OptionAttributes(options: seq<(string, string)>): (r: seq<Event>)
    ensures |r| == |options| && forall i | 0 <= i < |options| :: r[i] == AttributeEvent(options[i].0, options[i].1)
  {
    seq(|options|, i requires 0 <= i < |options| => AttributeEvent(options[i].0, options[i].1))
  }

  function OptionNames(options: seq<(string, string)>): (r: seq<string>)
    ensures |r| == |options| && forall i | 0 <= i < |options| :: r[i] == options[i].0
  {
    seq(|options|, i requires 0 <= i < |options| => options[i].0)
  }

  /** One option as `WriteMappingOptions` writes it after the options
      `earlier`: skipped when its value is empty or white space, otherwise
      an attribute of the `table` element, which already has `tableName`
      and the options written before it. */
  function OptionStep(option: (string, string), earlier: seq<(string, string)>): Emitted<JobError> {
    if Strings.IsNullOrWhiteSpace(Some(option.1)) then Emitted([], None)
    else AttributeStep(["tableName"] + WrittenNames(earlier), option.0, option.1)
  }

  /** The names of the options written, in order. */
  function WrittenNames(options: seq<(string, string)>): seq<string>
    decreases |options|
  {
    if options == [] then []
    else
      var o := options[|options| - 1];
      WrittenNames(options[..|options| - 1]) + if Strings.IsNullOrWhiteSpace(Some(o.1)) then [] else [o.0]
  }

  lemma {:induction false} WrittenNamesOfWritten(options: seq<(string, string)>)
    ensures WrittenNames(options) == OptionNames(WrittenOptions(options))
    decreases |options|
  {
    if options != [] {
      var n := |options| - 1;
      WrittenNamesOfWritten(options[..n]);
      var w := WrittenOptions(options[..n]);
      if Strings.IsNullOrWhiteSpace(Some(options[n].1)) {
        assert w + [] == w;
      } else {
        assert OptionNames(w + [options[n]]) == OptionNames(w) + [options[n].0];
      }
    }
  }

  /** The steps of `WriteMappingOptions`, one per option, in order. */
  function OptionSteps(options: seq<(string, string)>): (r: seq<Emitted<JobError>>)
    ensures |r| == |options|
    decreases |options|
  {
    if options == [] then []
    else
      var n := |options| - 1;
      OptionSteps(options[..n]) + [OptionStep(options[n], options[..n])]
  }

  /** The `i`th step is the `i`th option's, written after the first `i`. */
  lemma {:induction false} OptionStepsAt(options: seq<(string, string)>, i: int)
    requires 0 <= i < |options|
    ensures OptionSteps(options)[i] == OptionStep(options[i], options[..i])
    decreases |options|
  {
    var n := |options| - 1;
    if i < n {
      OptionStepsAt(options[..n], i);
      assert options[..n][..i] == options[..i];
    }
  }

  /** An option the host writer takes: its name is an `NCName` other than
      `tableName` and its value is XML text. */
  predicate OptionWritable(o: (string, string)) {
    XmlChars.IsNCName(o.0) && o.0 != "tableName" && XmlChars.IsXmlText(o.1)
  }

  lemma WrittenNamesNext(options: seq<(string, string)>, i: int)
    requires 0 <= i < |options|
    ensures WrittenNames(options[..i + 1]) ==
      WrittenNames(options[..i]) + if Strings.IsNullOrWhiteSpace(Some(options[i].1)) then [] else [options[i].0]
  {
    assert options[..i + 1][..i] == options[..i];
  }

  /** Every option of `options` is one the host writer takes. */
  predicate AllWritable(options: seq<(string, string)>) {
    forall o | o in options :: OptionWritable(o)
  }

  lemma AllWritableSnoc(w: seq<(string, string)>, o: (string, string))
    ensures AllWritable(w + [o]) <==> AllWritable(w) && OptionWritable(o)
  {
    assert forall x | x in w + [o] :: x in w || x == o;
  }

  lemma UniqueOptionsSnoc(w: seq<(string, string)>, o: (string, string))
    ensures UniqueOptions(w + [o]) <==> UniqueOptions(w) && o.0 !in OptionNames(w)
  {
    var v := w + [o];
    if UniqueOptions(v) {
      forall i | 0 <= i < |w| ensures OptionNames(w)[i] != o.0 {
        assert v[i] == w[i] && v[|w|] == o;
      }
      forall i, j | 0 <= i < j < |w| ensures w[i].0 != w[j].0 {
        assert v[i] == w[i] && v[j] == w[j];
      }
    }
  }

  /** The option after `earlier` is skipped, or written exactly when it is
      writable and its name is not yet taken. */
  lemma OptionStepWritten(o: (string, string), earlier: seq<(string, string)>)
    ensures var step := OptionStep(o, earlier);
      if Strings.IsNullOrWhiteSpace(Some(o.1)) then step == Emitted([], None)
      else
        && (step.error.None? <==> OptionWritable(o) && o.0 !in OptionNames(WrittenOptions(earlier)))
        && (step.error.None? ==> step.events == [AttributeEvent(o.0, o.1)])
  {
    WrittenNamesOfWritten(earlier);
  }

  /** The options whose value is not empty or white space, in order. */
  function WrittenOptions(options: seq<(string, string)>): seq<(string, string)>
    decreases |options|
  {
    if options == [] then []
    else
      var o := options[|options| - 1];
      WrittenOptions(options[..|options| - 1]) + if Strings.IsNullOrWhiteSpace(Some(o.1)) then [] else [o]
  }

  /** Writing the options of a table succeeds exactly when every option it
      writes has a name the host takes, other than `tableName`, and a value
      that is XML text, and no two of them share a name; it then writes one
      attribute per such option, in order: those with an empty or
      white-space value are left out. */
  lemma {:induction false} OptionsWritten(options: seq<(string, string)>)
    ensures var e := Sequence(OptionSteps(options));
      var w := WrittenOptions(options);
      && (e.error.None? <==> AllWritable(w) && UniqueOptions(w))
      && (e.error.None? ==> e.events == OptionAttributes(w))
    decreases |options|
  {
    if options != [] {
      var n := |options| - 1;
      var init := options[..n];
      var o := options[n];
      OptionsWritten(init);
      var steps := OptionSteps(options);
      assert steps[..n] == OptionSteps(init);
      SequenceSnoc(steps, n);
      assert steps[..n + 1] == steps;
      assert steps[n] == OptionStep(o, init);
      OptionStepWritten(o, init);
      var skipped := Strings.IsNullOrWhiteSpace(Some(o.1));
      var w := WrittenOptions(init);
      assert WrittenOptions(options) == if skipped then w + [] else w + [o];
      assert w + [] == w;
      OptionsWrittenStep(Sequence(steps[..n]), steps[n], w, o, skipped);
    }
  }

  /** The step of `OptionsWritten`, over the outcome `prev` of the earlier
      options and the `step` of the next one. */
  lemma OptionsWrittenStep(prev: Emitted<JobError>, step: Emitted<JobError>, w: seq<(string, string)>, o: (string, string), skipped: bool)
    requires prev.error.None? <==> AllWritable(w) && UniqueOptions(w)
    requires prev.error.None? ==> prev.events == OptionAttributes(w)
    requires skipped ==> step == Emitted([], None)
    requires !skipped ==> (step.error.None? <==> OptionWritable(o) && o.0 !in OptionNames(w))
    requires !skipped && step.error.None? ==> step.events == [AttributeEvent(o.0, o.1)]
    ensures var e := if prev.error.Some? then prev else Emitted(prev.events + step.events, step.error);
      var v := if skipped then w else w + [o];
      && (e.error.None? <==> AllWritable(v) && UniqueOptions(v))
      && (e.error.None? ==> e.events == OptionAttributes(v))
  {
    if !skipped {
      UniqueOptionsSnoc(w, o);
      AllWritableSnoc(w, o);
      assert OptionAttributes(w + [o]) == OptionAttributes(w) + [AttributeEvent(o.0, o.1)];
    } else {
      assert prev.events + [] == prev.events;
    }
  }

  /** Writing options never opens or closes an element. */
  lemma {:induction false} OptionsBalanced(options: seq<(string, string)>)
    ensures Depth(Sequence(OptionSteps(options)).events) == 0
    decreases |options|
  {
    if options != [] {
      var n := |options| - 1;
      var steps := OptionSteps(options);
      OptionsBalanced(options[..n]);
      assert steps[..n] == OptionSteps(options[..n]);
      SequenceSnoc(steps, n);
      assert steps[..n + 1] == steps;
      var prev := Sequence(steps[..n]);
      if prev.error.None? {
        DepthAppend(prev.events, steps[n].events);
        if steps[n].events != [] {
          DepthSnoc([], steps[n].events[0]);
          assert [] + [steps[n].events[0]] == steps[n].events;
        }
      }
    }
  }

  /** `WriteAttributeString(name, value)` on an element that already has
      the attributes `taken`. */
  function AttributeStep(taken: seq<string>, name: string, value: string): Emitted<JobError> {
    var r := AttributeRefusal(taken, name, value);
    if r.None? then Emitted([AttributeEvent(name, value)], None) else Emitted([], Some(AttributeRefused(r.value)))
  }

  /** `WriteMappingOptions`: nothing for a mapping without options. */
  function OptionsEmitted(options: Option<seq<(string, string)>>): Emitted<JobError> {
    if options.None? then Emitted([], None) else Sequence(OptionSteps(options.value))
  }

  /** One row through the table's `XmlDestinationWriter`: a failed row
      ends the job. */
  function RowStep(row: Row, cms: seq<ColumnMapping>, table: string, skip: bool, host: WriterHost): Emitted<JobError>
    requires DestinationWriter.SourceBound(cms)
  {
    var r := DestinationWriter.WriteRowAsWritten(row, skip, cms, table, host);
    Emitted(r.events, if r.outcome.Failed? then Some(RowFailed(r.outcome.error)) else None)
  }

  function RowSteps(rows: seq<Row>, cms: seq<ColumnMapping>, table: string, skip: bool, host: WriterHost): (r: seq<Emitted<JobError>>)
    requires DestinationWriter.SourceBound(cms)
    ensures |r| == |rows| && forall i | 0 <= i < |rows| :: r[i] == RowStep(rows[i], cms, table, skip, host)
  {
    seq(|rows|, i requires 0 <= i < |rows| => RowStep(rows[i], cms, table, skip, host))
  }

  /** The columns the table's writer encodes satisfy the writer's demand. */
  lemma ActiveMappingsBound(cms: seq<ColumnMapping>)
    ensures DestinationWriter.SourceBound(ActiveSourceMappings(cms))
  {
  }

  /** The options a table writes: those whose value is not empty or white
      space. */
  function WrittenTableOptions(t: TableJob): seq<(string, string)> {
    if t.options.Some? then WrittenOptions(t.options.value) else []
  }

  /** The row steps of a table. */
  function TableRowSteps(t: TableJob, skip: bool, host: WriterHost): seq<Emitted<JobError>> {
    ActiveMappingsBound(t.columnMappings);
    RowSteps(t.source.rows, ActiveSourceMappings(t.columnMappings), t.destinationTable, skip, host)
  }

  /** The `table` element of an active mapping: start tag, `tableName`,
      options, one item per row, end tag; the first exception ends it. */
  function ExportTable(t: TableJob, skip: bool, host: WriterHost): Emitted<JobError> {
    var name := AttributeStep([], "tableName", t.destinationTable);
    if name.error.Some? then Emitted([StartTag("table")], name.error)
    else
      var opts := OptionsEmitted(t.options);
      var head := [StartTag("table")] + name.events + opts.events;
      if opts.error.Some? then Emitted(head, opts.error)
      else
        var rows := Sequence(TableRowSteps(t, skip, host));
        if rows.error.Some? then Emitted(head + rows.events, rows.error)
        else if t.source.failure.Some? then Emitted(head + rows.events, Some(ReadFailed(t.source.failure.value)))
        else Emitted(head + rows.events + [EndTag], None)
  }

  /** What each mapping contributes: its table when active, nothing
      otherwise. */
  function TableSteps(ts: seq<TableJob>, skip: bool, host: WriterHost): (r: seq<Emitted<JobError>>)
    ensures |r| == |ts| && forall i | 0 <= i < |ts| :: r[i] == if ts[i].active then ExportTable(ts[i], skip, host) else Emitted([], None)
  {
    seq(|ts|, i requires 0 <= i < |ts| => if ts[i].active then ExportTable(ts[i], skip, host) else Emitted([], None))
  }

  /** `RunJob`: the `tables` root around the tables of the mappings, in
      order; an exception leaves the elements open and ends the job. */
  function Job(ts: seq<TableJob>, skip: bool, host: WriterHost): Emitted<JobError> {
    var tables := Sequence(TableSteps(ts, skip, host));
    if tables.error.Some? then Emitted([StartTag("tables")] + tables.events, tables.error)
    else Emitted([StartTag("tables")] + tables.events + [EndTag], None)
  }

  /** A row written without error is either dropped, writing nothing, or
      one balanced `item` element of the table. */
  lemma RowStepShape(row: Row, cms: seq<ColumnMapping>, table: string, skip: bool, host: WriterHost)
    requires DestinationWriter.SourceBound(cms) && RowStep(row, cms, table, skip, host).error.None?
    ensures var es := RowStep(row, cms, table, skip, host).events;
      && Depth(es) == 0
      && (es == [] || (|es| >= 3 && es[0] == StartTag("item") && es[1] == AttributeEvent("table", table) && es[|es| - 1] == EndTag))
  {
    var r := DestinationWriter.WriteRowAsWritten(row, skip, cms, table, host);
    if r.outcome == DestinationWriter.Written {
      DestinationWriter.ItemShape(row, cms, table, host);
    }
  }

  /** A table is written without error exactly when its name is XML text,
      the options it writes have distinct names the host takes, other than
      `tableName`, and values that are XML text, no row fails and the
      source does not throw. */
  lemma TableSucceeds(t: TableJob, skip: bool, host: WriterHost)
    ensures ExportTable(t, skip, host).error.None? <==>
      && XmlChars.IsXmlText(t.destinationTable)
      && AllWritable(WrittenTableOptions(t))
      && UniqueOptions(WrittenTableOptions(t))
      && (forall i | 0 <= i < |t.source.rows| :: TableRowSteps(t, skip, host)[i].error.None?)
      && t.source.failure.None?
  {
    FixedAttributeName([], "tableName", t.destinationTable);
    if t.options.Some? {
      OptionsWritten(t.options.value);
    }
    SequenceError(TableRowSteps(t, skip, host));
  }

  /** A table written without error: its start tag, its `tableName`, one
      attribute per option it writes, the items of its rows in order, and
      its end tag; it leaves no element open. */
  lemma TableShape(t: TableJob, skip: bool, host: WriterHost)
    requires ExportTable(t, skip, host).error.None?
    ensures var e := ExportTable(t, skip, host).events;
      && e == [StartTag("table"), AttributeEvent("tableName", t.destinationTable)]
              + OptionAttributes(WrittenTableOptions(t)) + Concat(EventsOf(TableRowSteps(t, skip, host))) + [EndTag]
      && Depth(e) == 0
  {
    var head := [StartTag("table"), AttributeEvent("tableName", t.destinationTable)];
    var oe := OptionsEmitted(t.options).events;
    var rows := Sequence(TableRowSteps(t, skip, host)).events;
    TableEvents(t, skip, host);
    TableSucceeds(t, skip, host);
    if t.options.Some? {
      OptionsWritten(t.options.value);
      OptionsBalanced(t.options.value);
    }
    RowsBalanced(t, skip, host);
    SequenceConcat(TableRowSteps(t, skip, host));
    DestinationWriter.HeadDepth("table", "tableName", t.destinationTable);
    DepthAppend(head, oe);
    DepthAppend(head + oe, rows);
    DepthSnoc(head + oe + rows, EndTag);
  }

  /** The events of a table written without error, step by step. */
  lemma TableEvents(t: TableJob, skip: bool, host: WriterHost)
    requires ExportTable(t, skip, host).error.None?
    ensures ExportTable(t, skip, host).events
      == [StartTag("table"), AttributeEvent("tableName", t.destinationTable)]
         + OptionsEmitted(t.options).events + Sequence(TableRowSteps(t, skip, host)).events + [EndTag]
  {
  }

  /** The items of a table's rows, written without error, leave no element
      open. */
  lemma RowsBalanced(t: TableJob, skip: bool, host: WriterHost)
    requires forall i | 0 <= i < |t.source.rows| :: TableRowSteps(t, skip, host)[i].error.None?
    ensures Depth(Sequence(TableRowSteps(t, skip, host)).events) == 0
  {
    var steps := TableRowSteps(t, skip, host);
    var cms := ActiveSourceMappings(t.columnMappings);
    forall i | 0 <= i < |steps| ensures steps[i].error.None? && Depth(steps[i].events) == 0 {
      RowStepShape(t.source.rows[i], cms, t.destinationTable, skip, host);
    }
    SequenceBalanced(steps);
  }

  /** The job succeeds exactly when every active mapping's table does.
      Then it writes one `tables` root holding the tables of the active
      mappings, in mapping order, each one balanced; an inactive mapping
      writes nothing, and the whole leaves no element open. */
  lemma JobNesting(ts: seq<TableJob>, skip: bool, host: WriterHost)
    ensures var steps := TableSteps(ts, skip, host);
      var e := Job(ts, skip, host);
      && (e.error.None? <==> forall i | 0 <= i < |ts| && ts[i].active :: ExportTable(ts[i], skip, host).error.None?)
      && (e.error.None? ==>
            && e.events == [StartTag("tables")] + Concat(EventsOf(steps)) + [EndTag]
            && (forall i | 0 <= i < |ts| && !ts[i].active :: steps[i].events == [])
            && (forall i | 0 <= i < |ts| && ts[i].active :: Depth(steps[i].events) == 0)
            && Depth(e.events) == 0)
  {
    var steps := TableSteps(ts, skip, host);
    SequenceError(steps);
    if Job(ts, skip, host).error.None? {
      forall i | 0 <= i < |ts| ensures Depth(steps[i].events) == 0 {
        if ts[i].active {
          TableShape(ts[i], skip, host);
        } else {
          assert steps[i].events == [];
        }
      }
      SequenceConcat(steps);
      SequenceBalanced(steps);
      var tables := Sequence(steps).events;
      DepthSnoc([], StartTag("tables"));
      DepthAppend([StartTag("tables")], tables);
      DepthSnoc([StartTag("tables")] + tables, EndTag);
    }
  }

  /** When the job fails, it is with the error of the first active mapping
      whose table fails: the tables before it are written whole, that
      table is written up to its error, and nothing after it is written. */
  lemma JobStopsAtFirstFailure(ts: seq<TableJob>, skip: bool, host: WriterHost)
    requires Job(ts, skip, host).error.Some?
    ensures exists i | 0 <= i < |ts| ::
      && ts[i].active
      && (forall j | 0 <= j < i && ts[j].active :: ExportTable(ts[j], skip, host).error.None?)
      && var steps := TableSteps(ts, skip, host);
         var failing := ExportTable(ts[i], skip, host);
         Job(ts, skip, host) == Emitted([StartTag("tables")] + Sequence(steps[..i]).events + failing.events, failing.error)
  {
    var steps := TableSteps(ts, skip, host);
    SequenceError(steps);
    var i :| 0 <= i < |steps|
      && (forall j | 0 <= j < i :: steps[j].error.None?)
      && Sequence(steps) == Emitted(Sequence(steps[..i]).events + steps[i].events, steps[i].error);
    assert ts[i].active;
    EventsAssoc([StartTag("tables")], Sequence(steps[..i]).events, steps[i].events);
  }
}
