/** The in-memory side of the codec: cell values, rows, column mappings and
    the table mappings of an integration job, as the framework hands them to
    the XML provider. */
module Model {
  import opened Wrappers
  import opened Dates

  /** A cell value: a C# `null`, the database null marker `DBNull.Value`, or a
      string.  Every value the XML side produces or consumes is one of these. */
  datatype Val = Null | DbNull | Str(text: string)

  /** The text form of a value where the source uses one that tolerates
      `null` (`KeyValuePair.ToString`, `Converter.ToString`): both nulls read
      as the empty string. */
  function AsText(v: Val): string {
    if v.Str? then v.text else ""
  }

  /** A row, `Dictionary<string, object>`: key/value pairs in insertion order. */
  type Row = seq<(string, Val)>

  function Keys(row: Row): (ks: seq<string>)
    ensures |ks| == |row|
    ensures forall i | 0 <= i < |row| :: ks[i] == row[i].0
  {
    seq(|row|, i requires 0 <= i < |row| => row[i].0)
  }

  predicate HasKey(row: Row, k: string) {
    exists i | 0 <= i < |row| :: row[i].0 == k
  }

  /** No key occurs twice, as in every dictionary. */
  predicate UniqueKeys(row: Row) {
    forall i, j | 0 <= i < j < |row| :: row[i].0 != row[j].0
  }

  /** Position of key `k`, or -1. */
  function IndexOf(row: Row, k: string): (i: int)
    ensures -1 <= i < |row|
    ensures i >= 0 ==> row[i].0 == k && forall j | 0 <= j < i :: row[j].0 != k
    ensures i == -1 <==> !HasKey(row, k)
    decreases |row|
  {
    if row == [] then -1
    else if row[0].0 == k then 0
    else
      var j := IndexOf(row[1..], k);
      assert HasKey(row[1..], k) ==> HasKey(row, k) by {
        if HasKey(row[1..], k) {
          var m :| 0 <= m < |row[1..]| && row[1..][m].0 == k;
          assert row[m + 1].0 == k;
        }
      }
      assert HasKey(row, k) ==> HasKey(row[1..], k) by {
        if HasKey(row, k) {
          var m :| 0 <= m < |row| && row[m].0 == k;
          assert m > 0 && row[1..][m - 1].0 == k;
        }
      }
      if j == -1 then -1 else j + 1
  }

  /** The indexer read `row[k]`. */
  function Get(row: Row, k: string): Val
    requires HasKey(row, k)
  {
    row[IndexOf(row, k)].1
  }

  /** The indexer write `row[k] = v` on a key that is present: the entry
      keeps its place. */
  function Set(row: Row, k: string, v: Val): (r: Row)
    requires HasKey(row, k)
    ensures Keys(r) == Keys(row)
    ensures forall i | 0 <= i < |row| :: r[i] == if row[i].0 == k && i == IndexOf(row, k) then (k, v) else row[i]
  {
    row[IndexOf(row, k) := (k, v)]
  }

  /** `Dictionary.Add`: refused (`ArgumentException`) when the key is
      present, otherwise the pair goes last. */
  function Add(row: Row, k: string, v: Val): (r: Option<Row>)
    ensures r.None? <==> HasKey(row, k)
    ensures r.Some? ==> |r.value| == |row| + 1 && r.value[..|row|] == row && r.value[|row|] == (k, v)
    ensures r.Some? && UniqueKeys(row) ==> UniqueKeys(r.value)
  {
    if HasKey(row, k) then None else Some(row + [(k, v)])
  }

  /** `Type` of a column, as far as the codec distinguishes it. */
  datatype ColumnType = StringType | IntType | DecimalType | DoubleType | FloatType | DateTimeType | OtherType

  datatype Column = Column(name: string, columnType: ColumnType, table: string)

  /** One column mapping of a table mapping.  `source` or `destination` is
      `None` where the framework's property is `null`; `hasScriptWithValue`
      is the framework's `HasScriptWithValue`. */
  datatype ColumnMapping = ColumnMapping(
    active: bool,
    source: Option<Column>,
    destination: Option<Column>,
    hasScriptWithValue: bool)

  /** The active mappings that have a source column, in mapping order: the
      columns the row encoder writes and the row decoder null-fills. */
  function ActiveSourceMappings(cms: seq<ColumnMapping>): (r: seq<ColumnMapping>)
    ensures forall i | 0 <= i < |r| :: r[i] in cms && r[i].active && r[i].source.Some?
    ensures forall cm | cm in cms && cm.active && cm.source.Some? :: cm in r
    decreases |cms|
  {
    if cms == [] then []
    else if cms[0].active && cms[0].source.Some? then [cms[0]] + ActiveSourceMappings(cms[1..])
    else ActiveSourceMappings(cms[1..])
  }

  /** The comparison operators of a conditional; `OtherOperator` stands for
      every operator the XML reader does not handle. */
  datatype ConditionalOperator = EqualTo | DifferentFrom | Contains | LessThan | GreaterThan | OtherOperator(name: string)

  /** A row filter of a table mapping. */
  datatype Conditional = Conditional(sourceColumn: string, op: ConditionalOperator, condition: string)

  /** An option list holds an entry named `name`. */
  predicate HasOption(entries: seq<(string, string)>, name: string) {
    exists i | 0 <= i < |entries| :: entries[i].0 == name
  }

  /** No option name occurs twice, as in every dictionary. */
  predicate UniqueOptions(entries: seq<(string, string)>) {
    forall i, j | 0 <= i < j < |entries| :: entries[i].0 != entries[j].0
  }

  /** A dictionary of table options (`Dictionary<string, string>`), shared by
      reference between the provider's `TableOptions` and a mapping's
      `Options`. */
  class OptionsDict {
    var entries: seq<(string, string)>

    constructor ()
      ensures entries == []
    {
      entries := [];
    }

    /** `ContainsKey`. */
    predicate Has(name: string)
      reads this
    {
      HasOption(entries, name)
    }

    method Add(name: string, value: string)
      requires !HasOption(entries, name)
      modifies this
      ensures entries == old(entries) + [(name, value)]
    {
      entries := entries + [(name, value)];
    }
  }

  /** A table mapping of the job.  Only `options` changes while the job runs. */
  class Mapping {
    const active: bool
    const sourceTable: string
    const destinationTable: string
    const columnMappings: seq<ColumnMapping>
    const conditionals: seq<Conditional>
    var options: OptionsDict?

    constructor (active: bool, sourceTable: string, destinationTable: string,
                 columnMappings: seq<ColumnMapping>, conditionals: seq<Conditional>, options: OptionsDict?)
      ensures this.active == active && this.sourceTable == sourceTable && this.destinationTable == destinationTable
      ensures this.columnMappings == columnMappings && this.conditionals == conditionals && this.options == options
    {
      this.active := active;
      this.sourceTable := sourceTable;
      this.destinationTable := destinationTable;
      this.columnMappings := columnMappings;
      this.conditionals := conditionals;
      this.options := options;
    }
  }

  /** A date that `DateTime` can hold. */
  type ValidDateTime = d: DateTime | ValidDate(d) witness MinValue

  /** The calls into the framework and the culture the writer depends on,
      left uninterpreted: `GetScriptValue`, `ValueFormatter.GetFormattedValue`
      on the script value, `ConvertInputValueToOutputValue`,
      `string.Format(culture, "{0}", v)`, `DateTime.Parse`/`TryParse` in the
      job's culture (`None` when the text is not a date) and the culture's
      time separator. */
  datatype WriterHost = WriterHost(
    scriptValue: ColumnMapping -> string,
    formatScriptNumber: ColumnMapping -> string,
    convert: (ColumnMapping, Val) -> Val,
    format: Val -> string,
    parseDate: string -> Option<ValidDateTime>,
    timeSeparator: string)

  /** A culture's decimal separator is never empty. */
  type NonEmptyString = s: string | |s| > 0 witness " "

  /** The culture the reader runs in: its decimal separator, and the
      round-trip `Converter.ToDouble(value).ToString()` of auto-detect mode,
      which is floating point and left uninterpreted. */
  datatype ReaderCulture = ReaderCulture(decimalSeparator: NonEmptyString, reformatNumber: string -> string)
}
