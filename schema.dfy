/** The schema pass over one `table` element of a source document
    (`AddTableToSchema`): the table is named after its `tableName`, and its
    columns are the `columnName`s of the elements inside its first `item`.
    The pass is a function of the document's nodes and the position of the
    `table` start tag; `Schema` holds the tables found so far. */
module SourceSchema {
  import opened Wrappers
  import opened HostXml

  const UnexpectedEof := "Unexpected EOF"

  datatype SchemaTable = SchemaTable(name: string, columns: seq<string>)

  /** The source schema, grown table by table and column by column (the
      host's `Schema.AddTable` and `Table.AddColumn`). */
  class Schema {
    var tables: seq<SchemaTable>

    constructor ()
      ensures tables == []
    {
      tables := [];
    }

    method AddTable(name: string)
      modifies this
      ensures tables == old(tables) + [SchemaTable(name, [])]
    {
      tables := tables + [SchemaTable(name, [])];
    }

    /** Adds a column to the table added last. */
    method AddColumn(name: string)
      requires tables != []
      modifies this
      ensures var last := old(tables)[|old(tables)| - 1];
        tables == old(tables)[..|old(tables)| - 1] + [SchemaTable(last.name, last.columns + [name])]
    {
      var last := tables[|tables| - 1];
      tables := tables[..|tables| - 1] + [SchemaTable(last.name, last.columns + [name])];
    }
  }

  /** Whether the item search stops at `t`: a node called `item` or, when
      `bounded`, the end tag of a `table`. */
  predicate StopsItemSearch(t: Token, bounded: bool) {
    (match t
     case StartElement(n, _, _) => n == "item"
     case EndElement(n) => n == "item" || (bounded && n == "table")
     case Text(_) => false
     case CData(_) => false
     case Other(n, _) => n == "item")
  }

  /** The search stops at a node exactly when the reader's `Name` there is
      `item`, or, when `bounded`, when it is on an end tag `table`. */
  lemma StopsItemSearchAt(toks: seq<Token>, q: int, bounded: bool)
    requires 0 <= q < |toks|
    ensures StopsItemSearch(toks[q], bounded) <==> NodeName(toks, q) == "item" || (bounded && toks[q] == EndElement("table"))
  {
  }

  /** First position from `q` on where the item search stops; the end of the
      stream when there is none. */
  function FindItem(toks: seq<Token>, q: int, bounded: bool): (j: int)
    requires 0 <= q <= |toks|
    ensures q <= j <= |toks|
    ensures j < |toks| ==> StopsItemSearch(toks[j], bounded)
    ensures forall k | q <= k < j :: !StopsItemSearch(toks[k], bounded)
    decreases |toks| - q
  {
    if q == |toks| || StopsItemSearch(toks[q], bounded) then q else FindItem(toks, q + 1, bounded)
  }

  /** First `</item>` from `q` on; the end of the stream when there is none. */
  function FindItemEnd(toks: seq<Token>, q: int): (j: int)
    requires 0 <= q <= |toks|
    ensures q <= j <= |toks|
    ensures j < |toks| ==> toks[j] == EndElement("item")
    ensures forall k | q <= k < j :: toks[k] != EndElement("item")
    decreases |toks| - q
  {
    if q == |toks| || toks[q] == EndElement("item") then q else FindItemEnd(toks, q + 1)
  }

  /** The column a node contributes: a start tag gives its `columnName`,
      or "" when it has none; any other node gives none. */
  function ColumnAt(toks: seq<Token>, k: int): (cols: seq<string>)
    requires 0 <= k < |toks|
    ensures |cols| == (if toks[k].StartElement? then 1 else 0)
  {
    if toks[k].StartElement? then [AttributeValue(toks, k, "columnName")] else []
  }

  /** The column names of the start tags in positions `a` up to `b`, in
      document order. */
  function ColumnsBetween(toks: seq<Token>, a: int, b: int): (cols: seq<string>)
    requires 0 <= a <= b <= |toks|
    ensures |cols| <= b - a
    decreases b - a
  {
    if a == b then [] else ColumnsBetween(toks, a, b - 1) + ColumnAt(toks, b - 1)
  }

  /** The last loop: from `q`, by whole subtrees, on to an end tag `table`;
      reaching the end of the stream on the way fails. */
  function SkipTableRest(toks: seq<Token>, q: int): (r: Result<int, string>)
    requires 0 <= q < |toks|
    ensures r.Ok? ==> q <= r.value < |toks| && toks[r.value] == EndElement("table")
    ensures r.Err? ==> r.error == UnexpectedEof
    decreases |toks| - q
  {
    if toks[q] == EndElement("table") then Ok(q)
    else
      var s := SkipTarget(toks, q);
      if s == |toks| then Err(UnexpectedEof) else SkipTableRest(toks, s)
  }

  /** What the pass yields: the columns, where the reader ends, and the
      exception it throws, if any. */
  datatype SchemaPass = SchemaPass(columns: seq<string>, pos: int, error: Option<string>)

  /** The schema pass over the `table` start tag at `p`.  A self-closing
      table has no columns.  Otherwise the reader searches for a node called
      `item` (when `bounded`, no further than an end tag `table`), takes the
      start tags up to the next `</item>` as columns and skips on to an end
      tag `table`.  Running off the end in the two searches ends the pass
      quietly; running off it in the skip throws. */
  function TablePass(toks: seq<Token>, p: int, bounded: bool): (r: SchemaPass)
    requires 0 <= p < |toks| && toks[p].StartElement?
    ensures p <= r.pos <= |toks|
    ensures r.pos < |toks| && !toks[p].isEmpty ==> toks[r.pos] == EndElement("table")
  {
    if toks[p].isEmpty then SchemaPass([], p, None)
    else
      var q1 := FindItem(toks, p, bounded);
      if q1 == |toks| then SchemaPass([], |toks|, None)
      else if toks[q1] == EndElement("table") then SchemaPass([], q1, None)
      else
        var q2 := FindItemEnd(toks, q1 + 1);
        var cols := ColumnsBetween(toks, q1 + 1, q2);
        if q2 == |toks| then SchemaPass(cols, |toks|, None)
        else match SkipTableRest(toks, q2)
          case Ok(r) => SchemaPass(cols, r, None)
          case Err(e) => SchemaPass(cols, |toks|, Some(e))
  }

  /** The pass as the source has it: the item search is not bounded by the
      table's end. */
  function TableSchemaAsWritten(toks: seq<Token>, p: int): SchemaPass
    requires 0 <= p < |toks| && toks[p].StartElement?
  {
    TablePass(toks, p, false)
  }

  /** The pass as evidently intended: a table without an `item` stops at
      its own end tag. */
  function TableSchema(toks: seq<Token>, p: int): SchemaPass
    requires 0 <= p < |toks| && toks[p].StartElement?
  {
    TablePass(toks, p, true)
  }

  /** A table written `<table tableName="A"></table>` followed by
      `<table tableName="B"><item><column columnName="c"/></item></table>`. */
  function ItemlessThenItem(): seq<Token> {
    [ StartElement("tables", [], false)
    , StartElement("table", [Attr("tableName", "A")], false)
    , EndElement("table")
    , StartElement("table", [Attr("tableName", "B")], false)
    , StartElement("item", [], false)
    , StartElement("column", [Attr("columnName", "c")], true)
    , EndElement("item")
    , EndElement("table")
    , EndElement("tables") ]
  }

  /** As written, table A, which has no item, takes B's column and the
      reader ends on B's end tag, so B never reaches the schema; the
      intended pass gives A no columns and stops on A's own end tag. */
  lemma ItemlessTableBorrowsNextTable()
    ensures TableSchemaAsWritten(ItemlessThenItem(), 1) == SchemaPass(["c"], 7, None)
    ensures TableSchema(ItemlessThenItem(), 1) == SchemaPass([], 2, None)
  {
    var toks := ItemlessThenItem();
    assert FindItem(toks, 1, false) == 4;
    assert FindItem(toks, 1, true) == 2;
    assert FindItemEnd(toks, 5) == 6;
    assert ColumnsBetween(toks, 5, 5) == [];
    assert AttrIndex(toks[5].attrs, "columnName") == 0;
    assert ColumnsBetween(toks, 5, 6) == ["c"];
    assert SkipTarget(toks, 6) == 7;
    assert SkipTableRest(toks, 6) == Ok(7);
  }

  /** A self-closing table has no columns and the reader stays on it. */
  lemma SelfClosingTableHasNoColumns(toks: seq<Token>, p: int, bounded: bool)
    requires 0 <= p < |toks| && toks[p].StartElement? && toks[p].isEmpty
    ensures TablePass(toks, p, bounded) == SchemaPass([], p, None)
  {
  }

  /** The intended pass never reads past the first end tag `table` when no
      node called `item` comes before it: the table gets no columns and the
      reader rests on that end tag. */
  lemma ItemlessTableStaysInside(toks: seq<Token>, p: int, e: int)
    requires 0 <= p < e < |toks| && toks[p].StartElement? && !toks[p].isEmpty
    requires toks[e] == EndElement("table")
    requires forall k | p <= k < e :: NodeName(toks, k) != "item" && toks[k] != EndElement("table")
    ensures TableSchema(toks, p) == SchemaPass([], e, None)
  {
    forall k | p <= k < e ensures !StopsItemSearch(toks[k], true) {
      assert NodeName(toks, k) != "item";
    }
    FindItemFirst(toks, p, e, true);
  }

  /** Both passes agree on every table whose first `item` comes before any
      end tag `table`; only an item-less table tells them apart. */
  lemma PassesAgreeWithItem(toks: seq<Token>, p: int)
    requires 0 <= p < |toks| && toks[p].StartElement? && !toks[p].isEmpty
    requires FindItem(toks, p, true) < |toks| && NodeName(toks, FindItem(toks, p, true)) == "item"
    ensures TableSchema(toks, p) == TableSchemaAsWritten(toks, p)
  {
    var j := FindItem(toks, p, true);
    forall k | p <= k < j ensures !StopsItemSearch(toks[k], false) {
      assert !StopsItemSearch(toks[k], true);
    }
    assert StopsItemSearch(toks[j], false);
    FindItemFirst(toks, p, j, false);
  }

  /** The search result is the first stopping position. */
  lemma {:induction false} FindItemFirst(toks: seq<Token>, q: int, j: int, bounded: bool)
    requires 0 <= q <= j < |toks| && StopsItemSearch(toks[j], bounded)
    requires forall k | q <= k < j :: !StopsItemSearch(toks[k], bounded)
    ensures FindItem(toks, q, bounded) == j
    decreases j - q
  {
    if q < j {
      FindItemFirst(toks, q + 1, j, bounded);
    }
  }

  /** The skip throws "Unexpected EOF" exactly when no end tag `table` is
      reached: in particular whenever none follows `q` at all. */
  lemma {:induction false} UnclosedTableThrows(toks: seq<Token>, q: int)
    requires 0 <= q < |toks|
    requires forall k | q <= k < |toks| :: toks[k] != EndElement("table")
    ensures SkipTableRest(toks, q) == Err(UnexpectedEof)
    decreases |toks| - q
  {
    var s := SkipTarget(toks, q);
    if s < |toks| {
      UnclosedTableThrows(toks, s);
    }
  }

  /** The columns are the start tags strictly between the first item and
      the next `</item>`, and each is named by its `columnName`. */
  lemma {:induction false} ColumnsBetweenSpec(toks: seq<Token>, a: int, b: int)
    requires 0 <= a <= b <= |toks|
    ensures var cols := ColumnsBetween(toks, a, b);
      && (forall k | a <= k < b && toks[k].StartElement? :: AttributeValue(toks, k, "columnName") in cols)
      && (forall c | c in cols :: exists k | a <= k < b :: toks[k].StartElement? && c == AttributeValue(toks, k, "columnName"))
      && ((forall k | a <= k < b :: !toks[k].StartElement?) <==> cols == [])
    decreases b - a
  {
    if a < b {
      ColumnsBetweenSpec(toks, a, b - 1);
      var cols := ColumnsBetween(toks, a, b);
      var prev := ColumnsBetween(toks, a, b - 1);
      forall c | c in cols ensures exists k | a <= k < b :: toks[k].StartElement? && c == AttributeValue(toks, k, "columnName") {
        if c in prev {
          var k :| a <= k < b - 1 && toks[k].StartElement? && c == AttributeValue(toks, k, "columnName");
        } else {
          assert toks[b - 1].StartElement? && c == AttributeValue(toks, b - 1, "columnName");
        }
      }
    }
  }
}
