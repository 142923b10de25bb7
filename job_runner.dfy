/** The export job as the provider runs it (`RunJob` and
    `WriteMappingOptions`), over the provider's host writer and job log:
    each method is proved to write exactly what the functions of
    `ExportJob` describe. */
module JobRunner {
  import opened Wrappers
  import opened Model
  import opened HostXml
  import opened Emission
  import opened ExportJob
  import Strings
  import DestinationWriter

  /** The options of a mapping as the job reads them; `None` for a `null`
      dictionary. */
  function MappingOptions(m: Mapping): Option<seq<(string, string)>>
    reads m, m.options
  {
    if m.options == null then None else Some(m.options.entries)
  }

  /** A mapping as the job reads it, with what its source yields. */
  function JobOf(m: Mapping, src: SourceRows): TableJob
    reads m, m.options
  {
    TableJob(m.active, m.destinationTable, MappingOptions(m), m.columnMappings, src)
  }

  /** The option dictionaries of some mappings. */
  function MappingDicts(ms: seq<Mapping>): set<OptionsDict?>
    reads ms
  {
    set i | 0 <= i < |ms| :: ms[i].options
  }

  function Jobs(ms: seq<Mapping>, srcs: seq<SourceRows>): (ts: seq<TableJob>)
    requires |srcs| == |ms|
    reads ms, MappingDicts(ms)
    ensures |ts| == |ms| && forall i | 0 <= i < |ms| :: ts[i] == JobOf(ms[i], srcs[i])
  {
    seq(|ms|, i requires 0 <= i < |ms| reads ms, MappingDicts(ms) => JobOf(ms[i], srcs[i]))
  }

  /** `WriteMappingOptions`: each option whose value is not empty or white
      space becomes an attribute of the open `table` element, in order; an
      attribute the writer refuses ends it. */
  method WriteMappingOptions(writer: HostWriter, m: Mapping) returns (err: Option<JobError>)
    requires writer.attributes == ["tableName"]
    modifies writer
    ensures var e := OptionsEmitted(MappingOptions(m));
      writer.events == old(writer.events) + e.events && err == e.error
  {
    if m.options != null {
      var entries := m.options.entries;
      ghost var steps := OptionSteps(entries);
      var i := 0;
      while i < |entries|
        invariant 0 <= i <= |entries|
        invariant Sequence(steps[..i]).error.None?
        invariant writer.events == old(writer.events) + Sequence(steps[..i]).events
        invariant writer.attributes == ["tableName"] + WrittenNames(entries[..i])
      {
        OptionStepsAt(entries, i);
        SequenceStep(steps, i);
        WrittenNamesNext(entries, i);
        var (key, value) := entries[i];
        if !Strings.IsNullOrWhiteSpace(Some(value)) {
          var refused := writer.WriteAttributeString(key, value);
          if refused.Some? {
            return Some(AttributeRefused(refused.value));
          }
        }
        i := i + 1;
      }
      assert steps[..i] == steps;
    }
    return None;
  }

  /** The body of `RunJob` for one active mapping: its `table` element,
      with the rows its source yields written by an
      `XmlDestinationWriter`. */
  method WriteTable(writer: HostWriter, logger: Logger, m: Mapping, src: SourceRows, skip: bool, host: WriterHost) returns (err: Option<JobError>)
    modifies writer, logger
    ensures var e := ExportTable(JobOf(m, src), skip, host);
      writer.events == old(writer.events) + e.events && err == e.error
  {
    ghost var t := JobOf(m, src);
    ghost var w0 := writer.events;
    ghost var name := AttributeStep([], "tableName", t.destinationTable);
    ghost var opts := OptionsEmitted(t.options);
    err := WriteTableHead(writer, m);
    assert JobOf(m, src) == t;
    if err.Some? {
      return;
    }
    ghost var head := [StartTag("table")] + name.events + opts.events;
    assert writer.events == w0 + head;
    var rowWriter := new DestinationWriter.XmlDestinationWriter(m, writer, skip, host, logger);
    ActiveMappingsBound(m.columnMappings);
    ghost var steps := TableRowSteps(t, skip, host);
    assert steps == RowSteps(src.rows, rowWriter.columnMappings, m.destinationTable, skip, host);
    err := WriteRows(rowWriter, src.rows, steps);
    ghost var rows := Sequence(steps);
    EventsAssoc(w0, head, rows.events);
    assert JobOf(m, src) == t;
    if err.Some? {
      return;
    }
    if src.failure.Some? {
      return Some(ReadFailed(src.failure.value));
    }
    writer.WriteEndElement();
    assert writer.events == old(writer.events) + (head + rows.events + [EndTag]);
  }

  /** The start of a `table` element: its start tag, its `tableName` and
      the mapping's options; a value the writer refuses ends it. */
  method WriteTableHead(writer: HostWriter, m: Mapping) returns (err: Option<JobError>)
    modifies writer
    ensures var name := AttributeStep([], "tableName", m.destinationTable);
      var opts := OptionsEmitted(MappingOptions(m));
      if name.error.Some? then writer.events == old(writer.events) + [StartTag("table")] && err == name.error
      else writer.events == old(writer.events) + ([StartTag("table")] + name.events + opts.events) && err == opts.error
  {
    writer.WriteStartElement("table");
    var refused := writer.WriteAttributeString("tableName", m.destinationTable);
    if refused.Some? {
      return Some(AttributeRefused(refused.value));
    }
    err := WriteMappingOptions(writer, m);
  }

  /** The row loop of `RunJob`: each row through the table's writer, in
      order; a row that fails ends it. */
  method WriteRows(rowWriter: DestinationWriter.XmlDestinationWriter, rows: seq<Row>, ghost steps: seq<Emitted<JobError>>)
    returns (err: Option<JobError>)
    requires DestinationWriter.SourceBound(rowWriter.columnMappings)
    requires |steps| == |rows|
    requires forall k | 0 <= k < |rows| :: steps[k] == RowStep(rows[k], rowWriter.columnMappings, rowWriter.mapping.destinationTable,
                                                                  rowWriter.skipTroublesomeRows, rowWriter.host)
    modifies rowWriter.writer, rowWriter.logger
    ensures rowWriter.writer.events == old(rowWriter.writer.events) + Sequence(steps).events && err == Sequence(steps).error
  {
    var i := 0;
    while i < |rows|
      invariant 0 <= i <= |rows|
      invariant Sequence(steps[..i]).error.None?
      invariant rowWriter.writer.events == old(rowWriter.writer.events) + Sequence(steps[..i]).events
    {
      SequenceStep(steps, i);
      err := WriteRow(rowWriter, rows[i], steps[i]);
      EventsAssoc(old(rowWriter.writer.events), Sequence(steps[..i]).events, steps[i].events);
      if err.Some? {
        return;
      }
      i := i + 1;
    }
    assert steps[..i] == steps;
    return None;
  }

  /** One row through the table's writer. */
  method WriteRow(rowWriter: DestinationWriter.XmlDestinationWriter, row: Row, ghost step: Emitted<JobError>) returns (err: Option<JobError>)
    requires DestinationWriter.SourceBound(rowWriter.columnMappings)
    requires step == RowStep(row, rowWriter.columnMappings, rowWriter.mapping.destinationTable,
                             rowWriter.skipTroublesomeRows, rowWriter.host)
    modifies rowWriter.writer, rowWriter.logger
    ensures rowWriter.writer.events == old(rowWriter.writer.events) + step.events && err == step.error
  {
    var outcome := rowWriter.Write(row);
    err := if outcome.Failed? then Some(RowFailed(outcome.error)) else None;
  }

  /** `RunJob`: the `tables` root, then the table of each active mapping
      in order, then the root's end tag; the first exception ends the job
      and makes it report failure.  `sources[i]` is what the source of
      `mappings[i]` yields. */
  method RunJob(writer: HostWriter, logger: Logger, mappings: seq<Mapping>, sources: seq<SourceRows>, skip: bool, host: WriterHost) returns (ok: bool)
    requires |sources| == |mappings|
    modifies writer, logger
    ensures var e := Job(Jobs(mappings, sources), skip, host);
      writer.events == old(writer.events) + e.events && (ok <==> e.error.None?)
  {
    ghost var ts := Jobs(mappings, sources);
    ghost var steps := TableSteps(ts, skip, host);
    ghost var w0 := writer.events;
    writer.WriteStartElement("tables");
    var err := WriteTables(writer, logger, mappings, sources, skip, host, steps);
    EventsAssoc(w0, [StartTag("tables")], Sequence(steps).events);
    if err.Some? {
      assert Jobs(mappings, sources) == ts;
      return false;
    }
    writer.WriteEndElement();
    assert Jobs(mappings, sources) == ts;
    return true;
  }

  /** The mapping loop of `RunJob`. */
  method WriteTables(writer: HostWriter, logger: Logger, mappings: seq<Mapping>, sources: seq<SourceRows>, skip: bool, host: WriterHost,
                     ghost steps: seq<Emitted<JobError>>) returns (err: Option<JobError>)
    requires |sources| == |mappings| && |steps| == |mappings|
    requires forall k | 0 <= k < |mappings| :: steps[k] == MappingStep(mappings[k], sources[k], skip, host)
    modifies writer, logger
    ensures writer.events == old(writer.events) + Sequence(steps).events && err == Sequence(steps).error
  {
    err := None;
    var i := 0;
    while i < |mappings|
      invariant 0 <= i <= |mappings|
      invariant Sequence(steps[..i]).error.None?
      invariant writer.events == old(writer.events) + Sequence(steps[..i]).events
    {
      SequenceStep(steps, i);
      err := WriteMapping(writer, logger, mappings[i], sources[i], skip, host, steps[i]);
      EventsAssoc(old(writer.events), Sequence(steps[..i]).events, steps[i].events);
      if err.Some? {
        return;
      }
      i := i + 1;
    }
    assert steps[..i] == steps;
    return None;
  }

  /** What a mapping contributes to the job: its table when active. */
  function MappingStep(m: Mapping, src: SourceRows, skip: bool, host: WriterHost): Emitted<JobError>
    reads m, m.options
  {
    if m.active then ExportTable(JobOf(m, src), skip, host) else Emitted([], None)
  }

  /** One mapping of the job. */
  method WriteMapping(writer: HostWriter, logger: Logger, m: Mapping, src: SourceRows, skip: bool, host: WriterHost,
                      ghost step: Emitted<JobError>) returns (err: Option<JobError>)
    requires step == MappingStep(m, src, skip, host)
    modifies writer, logger
    ensures writer.events == old(writer.events) + step.events && err == step.error
  {
    if m.active {
      err := WriteTable(writer, logger, m, src, skip, host);
    } else {
      assert writer.events == old(writer.events) + [];
      err := None;
    }
  }
}
