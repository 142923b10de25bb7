/** What `SetNextRow` computes, as functions of the token stream: one `item`
    element decoded into a row.  The decoder carries two accumulators across
    the children of the item, the current column name and the value being
    built, and adds an entry to the row at every empty element and at every
    end tag.  Afterwards every active, source-bound mapped column missing
    from the row is filled with the null marker. */
module ItemDecoder {
  import opened Wrappers
  import opened Model
  import opened HostXml
  import Strings

  /** The accumulators: the column name (`key`), the value being built
      (`value`: a string, or the null marker) and the row so far. */
  datatype DecodeState = DecodeState(key: string, value: Val, row: Row)

  const Initial := DecodeState("", Str(""), [])

  /** One turn of the attribute loop: `isNull="true"` switches the value to
      the null marker, `columnName` sets the key. */
  function ScanAttr(a: Attr, key: string, value: Val, isNull: bool): (string, Val, bool) {
    var (v, n) := if a.name == "isNull" && a.value == "true" then (DbNull, true) else (value, isNull);
    (if a.name == "columnName" then a.value else key, v, n)
  }

  /** The attribute loop over a whole element, attribute by attribute. */
  function ScanAttrs(attrs: seq<Attr>, key: string, value: Val, isNull: bool): (string, Val, bool)
    decreases |attrs|
  {
    if attrs == [] then (key, value, isNull)
    else
      var prev := ScanAttrs(attrs[..|attrs| - 1], key, value, isNull);
      ScanAttr(attrs[|attrs| - 1], prev.0, prev.1, prev.2)
  }

  /** What the attribute loop leaves: the key is the value of the last
      `columnName` attribute (unchanged without one); the value becomes the
      null marker, and the flag is raised, exactly when some attribute is
      `isNull="true"`. */
  lemma {:induction false} ScanAttrsSpec(attrs: seq<Attr>, key: string, value: Val, isNull: bool)
    ensures var r := ScanAttrs(attrs, key, value, isNull);
      && (r.2 <==> isNull || !NoNullAttr(attrs))
      && r.1 == (if NoNullAttr(attrs) then value else DbNull)
      && ((forall i | 0 <= i < |attrs| :: attrs[i].name != "columnName") ==> r.0 == key)
      && ((exists i | 0 <= i < |attrs| :: attrs[i].name == "columnName") ==>
           exists i | 0 <= i < |attrs| :: attrs[i].name == "columnName" && r.0 == attrs[i].value
             && forall j | i < j < |attrs| :: attrs[j].name != "columnName")
  {
    ScanAttrsNull(attrs, key, value, isNull);
    ScanAttrsKey(attrs, key, value, isNull);
  }

  lemma {:induction false} ScanAttrsNull(attrs: seq<Attr>, key: string, value: Val, isNull: bool)
    ensures var r := ScanAttrs(attrs, key, value, isNull);
      && (r.2 <==> isNull || !NoNullAttr(attrs))
      && r.1 == (if NoNullAttr(attrs) then value else DbNull)
    decreases |attrs|
  {
    if attrs != [] {
      var init := attrs[..|attrs| - 1];
      ScanAttrsNull(init, key, value, isNull);
      assert forall i | 0 <= i < |init| :: init[i] == attrs[i];
      assert NoNullAttr(attrs) <==> NoNullAttr(init) && !(attrs[|attrs| - 1].name == "isNull" && attrs[|attrs| - 1].value == "true");
    }
  }

  lemma {:induction false} ScanAttrsKey(attrs: seq<Attr>, key: string, value: Val, isNull: bool)
    ensures var r := ScanAttrs(attrs, key, value, isNull);
      && ((forall i | 0 <= i < |attrs| :: attrs[i].name != "columnName") ==> r.0 == key)
      && ((exists i | 0 <= i < |attrs| :: attrs[i].name == "columnName") ==>
           exists i | 0 <= i < |attrs| :: attrs[i].name == "columnName" && r.0 == attrs[i].value
             && forall j | i < j < |attrs| :: attrs[j].name != "columnName")
    decreases |attrs|
  {
    if attrs != [] {
      var n := |attrs| - 1;
      var init := attrs[..n];
      var r := ScanAttrs(attrs, key, value, isNull);
      var prev := ScanAttrs(init, key, value, isNull);
      ScanAttrsKey(init, key, value, isNull);
      assert forall i | 0 <= i < n :: init[i] == attrs[i];
      if attrs[n].name == "columnName" {
        assert r.0 == attrs[n].value;
      } else {
        assert r.0 == prev.0;
        if exists i | 0 <= i < |attrs| :: attrs[i].name == "columnName" {
          var k :| 0 <= k < |attrs| && attrs[k].name == "columnName";
          assert init[k].name == "columnName";
          var i :| 0 <= i < n && init[i].name == "columnName" && prev.0 == init[i].value
            && forall j | i < j < n :: init[j].name != "columnName";
          assert forall j | i < j < |attrs| :: attrs[j].name != "columnName";
        }
      }
    }
  }

  /** One token of the item, read by the decoding loop (never the item's own
      end tag).  `None` is the duplicate key that `Dictionary.Add` refuses. */
  function StepToken(st: DecodeState, t: Token): Option<DecodeState> {
    match t
    case StartElement(_, attrs, empty) =>
      var (k, v, isNull) := ScanAttrs(attrs, st.key, st.value, false);
      if !empty then Some(DecodeState(k, v, st.row))
      else
        var added := Add(st.row, k, if isNull then DbNull else Str(""));
        if added.None? then None else Some(DecodeState(k, Str(""), added.value))
    case Text(s) => if st.value == DbNull then Some(st) else Some(st.(value := Str(AsText(st.value) + s)))
    case CData(s) => if st.value == DbNull then Some(st) else Some(st.(value := Str(AsText(st.value) + s)))
    case EndElement(_) =>
      var added := Add(st.row, st.key, st.value);
      if added.None? then None else Some(DecodeState(st.key, Str(""), added.value))
    case Other(_, _) => Some(st)
  }

  /** Where the decoding loop stops and what it has: the row, or the partial
      row when an `Add` was refused (`Err`). */
  datatype Decoded = Decoded(row: Result<Row, Row>, pos: int)

  /** The decoding loop from token `j` on: it stops at the end of the stream
      or at the end tag named `itemName`. */
  function DecodeFrom(toks: seq<Token>, j: int, itemName: string, st: DecodeState): (d: Decoded)
    requires j >= 0
    ensures 0 <= d.pos <= |toks|
    ensures j <= |toks| ==> j <= d.pos
    ensures d.pos < |toks| && d.row.Ok? ==> toks[d.pos] == EndElement(itemName)
    decreases |toks| - j
  {
    if j >= |toks| then Decoded(Ok(st.row), |toks|)
    else if toks[j] == EndElement(itemName) then Decoded(Ok(st.row), j)
    else match StepToken(st, toks[j])
      case None => Decoded(Err(st.row), j)
      case Some(next) => DecodeFrom(toks, j + 1, itemName, next)
  }

  /** The null-fill loop over the active, source-bound mappings: each column
      missing from the row is added with the null marker. */
  function NullFill(row: Row, cms: seq<ColumnMapping>): (r: Row)
    requires forall i | 0 <= i < |cms| :: cms[i].source.Some?
    ensures |row| <= |r| && r[..|row|] == row
    ensures forall i | |row| <= i < |r| :: r[i].1 == DbNull
    ensures forall i | 0 <= i < |cms| :: HasKey(r, cms[i].source.value.name)
    ensures forall k :: HasKey(r, k) <==> HasKey(row, k) || exists i | 0 <= i < |cms| :: cms[i].source.value.name == k
    ensures UniqueKeys(row) ==> UniqueKeys(r)
    decreases |cms|
  {
    if cms == [] then row
    else
      var init := cms[..|cms| - 1];
      var k := cms[|cms| - 1].source.value.name;
      var prev := NullFill(row, init);
      assert forall i | 0 <= i < |init| :: init[i] == cms[i];
      if HasKey(prev, k) then prev
      else
        var r := prev + [(k, DbNull)];
        assert forall k' :: HasKey(r, k') <==> HasKey(prev, k') || k' == k by {
          forall k' | HasKey(r, k') ensures HasKey(prev, k') || k' == k {
            var i :| 0 <= i < |r| && r[i].0 == k';
            if i < |prev| { assert prev[i].0 == k'; }
          }
          forall k' | HasKey(prev, k') ensures HasKey(r, k') {
            var i :| 0 <= i < |prev| && prev[i].0 == k';
            assert r[i].0 == k';
          }
          assert r[|prev|].0 == k;
        }
        assert r[..|row|] == prev[..|row|];
        r
  }

  /** `SetNextRow` with the reader on position `p`: decode from the next
      token on, then null-fill; a refused `Add` stops it with the partial
      row. */
  function SetNextRowSpec(toks: seq<Token>, p: int, cms: seq<ColumnMapping>): Decoded
    requires -1 <= p <= |toks|
  {
    var d := DecodeFrom(toks, if p < |toks| then p + 1 else |toks|, NodeName(toks, p), Initial);
    if d.row.Err? then d else Decoded(Ok(NullFill(d.row.value, ActiveSourceMappings(cms))), d.pos)
  }

  /** The values' text, each followed by ", " (`Aggregate`). */
  function AggregateValues(row: Row): string
    decreases |row|
  {
    if row == [] then "" else AggregateValues(row[..|row| - 1]) + AsText(row[|row| - 1].1) + ", "
  }

  /** The dump of a partial row: the aggregate with its last two characters
      cut when it is not empty. */
  function PartialRowText(row: Row): string {
    var agg := AggregateValues(row);
    if agg != "" && |agg| >= 2 then agg[..|agg| - 2] else agg
  }

  /** The message of the exception `SetNextRow` throws. */
  function PartialReadMessage(table: string, row: Row): string {
    "Read from file failed. Partial read from table '" + table + "': " + PartialRowText(row) + "."
  }

  function ValueTexts(row: Row): (ts: seq<string>)
    ensures |ts| == |row| && forall i | 0 <= i < |row| :: ts[i] == AsText(row[i].1)
  {
    seq(|row|, i requires 0 <= i < |row| => AsText(row[i].1))
  }

  lemma {:induction false} AggregateIsJoin(row: Row)
    ensures AggregateValues(row) == if row == [] then "" else Strings.Join(ValueTexts(row), ", ") + ", "
    decreases |row|
  {
    if |row| > 1 {
      var init := row[..|row| - 1];
      AggregateIsJoin(init);
      Strings.JoinSnoc(ValueTexts(init), AsText(row[|row| - 1].1), ", ");
      assert ValueTexts(row) == ValueTexts(init) + [AsText(row[|row| - 1].1)];
    } else if |row| == 1 {
      assert row[..0] == [];
    }
  }

  /** The exception message lists the partial row's values joined by ", ",
      with no trailing separator. */
  lemma PartialRowTextIsJoin(row: Row)
    ensures PartialRowText(row) == Strings.Join(ValueTexts(row), ", ")
  {
    AggregateIsJoin(row);
    if row != [] {
      var j := Strings.Join(ValueTexts(row), ", ");
      assert AggregateValues(row) == j + ", ";
      assert (j + ", ")[..|j + ", "| - 2] == j;
    }
  }

  /** A text-like node: its pieces make up a column's value. */
  predicate IsPiece(t: Token) {
    t.Text? || t.CData?
  }

  /** The text of a run of text-like nodes, in document order. */
  function PiecesText(ts: seq<Token>): string
    requires forall i | 0 <= i < |ts| :: IsPiece(ts[i])
    decreases |ts|
  {
    if ts == [] then ""
    else
      assert IsPiece(ts[0]);
      ts[0].text + PiecesText(ts[1..])
  }

  predicate NoNullAttr(attrs: seq<Attr>) {
    forall i | 0 <= i < |attrs| :: !(attrs[i].name == "isNull" && attrs[i].value == "true")
  }

  lemma {:induction false} DecodePieces(toks: seq<Token>, j: int, e: int, itemName: string, key: string, acc: string, row: Row)
    requires 0 <= j <= e <= |toks|
    requires forall i | j <= i < e :: IsPiece(toks[i])
    ensures DecodeFrom(toks, j, itemName, DecodeState(key, Str(acc), row))
         == DecodeFrom(toks, e, itemName, DecodeState(key, Str(acc + PiecesText(toks[j..e])), row))
    decreases e - j
  {
    if j < e {
      assert toks[j..e][1..] == toks[j + 1..e];
      DecodePieces(toks, j + 1, e, itemName, key, acc + toks[j].text, row);
      assert acc + toks[j].text + PiecesText(toks[j + 1..e]) == acc + (toks[j].text + PiecesText(toks[j + 1..e]));
    } else {
      assert acc + PiecesText(toks[j..e]) == acc;
    }
  }

  lemma {:induction false} DecodePiecesNull(toks: seq<Token>, j: int, e: int, itemName: string, key: string, row: Row)
    requires 0 <= j <= e <= |toks|
    requires forall i | j <= i < e :: IsPiece(toks[i])
    ensures DecodeFrom(toks, j, itemName, DecodeState(key, DbNull, row)) == DecodeFrom(toks, e, itemName, DecodeState(key, DbNull, row))
    decreases e - j
  {
    if j < e {
      DecodePiecesNull(toks, j + 1, e, itemName, key, row);
    }
  }

  /** A column element with content and without `isNull="true"`: its text
      and CDATA children are appended, in document order, to the value
      carried in, and the entry is added under the element's `columnName`
      at its end tag; a key already in the row stops the decoder there. */
  lemma DecodeTextColumn(toks: seq<Token>, j: int, e: int, itemName: string, st: DecodeState, attrs: seq<Attr>)
    requires 0 <= j < e < |toks|
    requires toks[j].StartElement? && toks[j].attrs == attrs && !toks[j].isEmpty && NoNullAttr(attrs)
    requires toks[e].EndElement? && toks[e].name != itemName
    requires forall i | j < i < e :: IsPiece(toks[i])
    requires st.value.Str?
    ensures var k := ScanAttrs(attrs, st.key, st.value, false).0;
      var v := Str(st.value.text + PiecesText(toks[j + 1..e]));
      DecodeFrom(toks, j, itemName, st)
        == if HasKey(st.row, k) then Decoded(Err(st.row), e)
           else DecodeFrom(toks, e + 1, itemName, DecodeState(k, Str(""), st.row + [(k, v)]))
  {
    var k := ScanAttrs(attrs, st.key, st.value, false).0;
    ScanAttrsSpec(attrs, st.key, st.value, false);
    assert DecodeFrom(toks, j, itemName, st) == DecodeFrom(toks, j + 1, itemName, DecodeState(k, st.value, st.row));
    DecodePieces(toks, j + 1, e, itemName, k, st.value.text, st.row);
  }

  /** A column element with content and `isNull="true"`: its text is
      ignored and the entry is the null marker. */
  lemma DecodeNullColumn(toks: seq<Token>, j: int, e: int, itemName: string, st: DecodeState, attrs: seq<Attr>)
    requires 0 <= j < e < |toks|
    requires toks[j].StartElement? && toks[j].attrs == attrs && !toks[j].isEmpty && !NoNullAttr(attrs)
    requires toks[e].EndElement? && toks[e].name != itemName
    requires forall i | j < i < e :: IsPiece(toks[i])
    ensures var k := ScanAttrs(attrs, st.key, st.value, false).0;
      DecodeFrom(toks, j, itemName, st)
        == if HasKey(st.row, k) then Decoded(Err(st.row), e)
           else DecodeFrom(toks, e + 1, itemName, DecodeState(k, Str(""), st.row + [(k, DbNull)]))
  {
    var k := ScanAttrs(attrs, st.key, st.value, false).0;
    ScanAttrsSpec(attrs, st.key, st.value, false);
    assert DecodeFrom(toks, j, itemName, st) == DecodeFrom(toks, j + 1, itemName, DecodeState(k, DbNull, st.row));
    DecodePiecesNull(toks, j + 1, e, itemName, k, st.row);
  }

  /** An empty column element: the entry is "" without `isNull="true"` and
      the null marker with it, whatever value was carried in. */
  lemma DecodeEmptyColumn(toks: seq<Token>, j: int, itemName: string, st: DecodeState, attrs: seq<Attr>)
    requires 0 <= j < |toks|
    requires toks[j].StartElement? && toks[j].attrs == attrs && toks[j].isEmpty
    ensures var k := ScanAttrs(attrs, st.key, st.value, false).0;
      DecodeFrom(toks, j, itemName, st)
        == if HasKey(st.row, k) then Decoded(Err(st.row), j)
           else DecodeFrom(toks, j + 1, itemName, DecodeState(k, Str(""), st.row + [(k, if NoNullAttr(attrs) then Str("") else DbNull)]))
  {
    ScanAttrsSpec(attrs, st.key, st.value, false);
  }

  /** How the writer lays out one entry: a null marker as an empty element
      with `isNull="true"`, a string as an element holding one CDATA
      section. */
  function ColumnTokens(k: string, v: Val): seq<Token> {
    if v == DbNull then [StartElement("column", [Attr("columnName", k), Attr("isNull", "true")], true)]
    else [StartElement("column", [Attr("columnName", k)], false), CData(AsText(v)), EndElement("column")]
  }

  /** The columns of a row, in row order. */
  function ItemBody(row: Row): seq<Token>
    decreases |row|
  {
    if row == [] then [] else ColumnTokens(row[0].0, row[0].1) + ItemBody(row[1..])
  }

  predicate NoCSharpNull(row: Row) {
    forall i | 0 <= i < |row| :: row[i].1 != Null
  }

  lemma DecodeColumnTokens(toks: seq<Token>, j: int, key: string, acc: Row, k: string, v: Val)
    requires v != Null && !HasKey(acc, k)
    requires 0 <= j && j + |ColumnTokens(k, v)| <= |toks| && toks[j..j + |ColumnTokens(k, v)|] == ColumnTokens(k, v)
    ensures DecodeFrom(toks, j, "item", DecodeState(key, Str(""), acc))
         == DecodeFrom(toks, j + |ColumnTokens(k, v)|, "item", DecodeState(k, Str(""), acc + [(k, v)]))
  {
    var ct := ColumnTokens(k, v);
    assert toks[j] == ct[0];
    if v == DbNull {
      DecodeEmptyColumn(toks, j, "item", DecodeState(key, Str(""), acc), ct[0].attrs);
    } else {
      assert toks[j + 1] == ct[1] && toks[j + 2] == ct[2];
      DecodeTextColumn(toks, j, j + 2, "item", DecodeState(key, Str(""), acc), ct[0].attrs);
      assert ScanAttrs(ct[0].attrs, key, Str(""), false).0 == k;
      assert toks[j + 1..j + 2] == [CData(AsText(v))];
      assert PiecesText([CData(AsText(v))]) == AsText(v);
      assert "" + AsText(v) == AsText(v);
      assert v == Str(AsText(v));
      assert |ct| == 3;
    }
  }

  lemma SliceSplit(toks: seq<Token>, j: int, a: seq<Token>, b: seq<Token>)
    requires 0 <= j && j + |a + b| <= |toks| && toks[j..j + |a + b|] == a + b
    ensures toks[j..j + |a|] == a && toks[j + |a|..j + |a| + |b|] == b
  {
    assert toks[j..j + |a|] == (a + b)[..|a|];
    assert toks[j + |a|..j + |a| + |b|] == (a + b)[|a|..];
  }

  lemma FirstKeyFresh(acc: Row, cols: Row)
    requires UniqueKeys(acc + cols) && cols != []
    ensures !HasKey(acc, cols[0].0) && UniqueKeys((acc + [cols[0]]) + cols[1..])
    ensures (acc + [cols[0]]) + cols[1..] == acc + cols
  {
    assert acc + cols == (acc + [cols[0]]) + cols[1..];
    forall i | 0 <= i < |acc|
      ensures acc[i].0 != cols[0].0
    {
      assert (acc + cols)[i] == acc[i] && (acc + cols)[|acc|] == cols[0];
    }
  }

  lemma DecodeItemEnd(toks: seq<Token>, j: int, key: string, acc: Row)
    requires 0 <= j < |toks| && toks[j] == EndElement("item")
    ensures DecodeFrom(toks, j, "item", DecodeState(key, Str(""), acc)) == Decoded(Ok(acc), j)
  {
  }

  /** The body of a non-empty row is its first column followed by the
      body of the rest, so the rest of the body follows the first column's
      tokens. */
  lemma BodyHead(toks: seq<Token>, j: int, cols: Row, ct: seq<Token>, tail: seq<Token>)
    requires cols != [] && ct == ColumnTokens(cols[0].0, cols[0].1) && tail == ItemBody(cols[1..])
    requires 0 <= j && j + |ItemBody(cols)| <= |toks| && toks[j..j + |ItemBody(cols)|] == ItemBody(cols)
    ensures |ct| + |tail| == |ItemBody(cols)|
    ensures toks[j..j + |ct|] == ct && toks[j + |ct|..j + |ct| + |tail|] == tail
  {
    assert ItemBody(cols) == ct + tail;
    SliceSplit(toks, j, ct, tail);
  }

  lemma NoCSharpNullTail(cols: Row)
    requires cols != [] && NoCSharpNull(cols)
    ensures cols[0].1 != Null && NoCSharpNull(cols[1..])
  {
    forall i | 0 <= i < |cols[1..]| ensures cols[1..][i].1 != Null {
      assert cols[1..][i] == cols[i + 1];
    }
  }

  /** The columns of `cols` lie one after the other from token `j` on, and
      the item's end tag follows the last of them. */
  predicate BodyAt(toks: seq<Token>, j: int, cols: Row)
    decreases |cols|
  {
    if cols == [] then 0 <= j < |toks| && toks[j] == EndElement("item")
    else
      var ct := ColumnTokens(cols[0].0, cols[0].1);
      && 0 <= j && j + |ct| <= |toks| && toks[j..j + |ct|] == ct
      && BodyAt(toks, j + |ct|, cols[1..])
  }

  lemma {:induction false} BodyAtOfItemBody(toks: seq<Token>, j: int, cols: Row)
    requires 0 <= j && j + |ItemBody(cols)| < |toks|
    requires toks[j..j + |ItemBody(cols)|] == ItemBody(cols) && toks[j + |ItemBody(cols)|] == EndElement("item")
    ensures BodyAt(toks, j, cols)
    decreases |cols|
  {
    if cols != [] {
      var ct := ColumnTokens(cols[0].0, cols[0].1);
      BodyHead(toks, j, cols, ct, ItemBody(cols[1..]));
      BodyAtOfItemBody(toks, j + |ct|, cols[1..]);
    }
  }

  lemma {:induction false} DecodeBodyAt(toks: seq<Token>, j: int, key: string, acc: Row, cols: Row)
    requires UniqueKeys(acc + cols) && NoCSharpNull(cols) && BodyAt(toks, j, cols)
    ensures DecodeFrom(toks, j, "item", DecodeState(key, Str(""), acc)) == Decoded(Ok(acc + cols), j + |ItemBody(cols)|)
    decreases |cols|
  {
    if cols == [] {
      DecodeItemEnd(toks, j, key, acc);
      assert acc + cols == acc;
    } else {
      var k, v := cols[0].0, cols[0].1;
      var n := j + |ColumnTokens(k, v)|;
      FirstKeyFresh(acc, cols);
      NoCSharpNullTail(cols);
      assert cols[0] == (k, v);
      DecodeColumnTokens(toks, j, key, acc, k, v);
      DecodeBodyAt(toks, n, k, acc + [cols[0]], cols[1..]);
      assert ItemBody(cols) == ColumnTokens(k, v) + ItemBody(cols[1..]);
    }
  }

  lemma DecodeItemBody(toks: seq<Token>, j: int, key: string, acc: Row, cols: Row)
    requires UniqueKeys(acc + cols) && NoCSharpNull(cols)
    requires 0 <= j && j + |ItemBody(cols)| < |toks|
    requires toks[j..j + |ItemBody(cols)|] == ItemBody(cols) && toks[j + |ItemBody(cols)|] == EndElement("item")
    ensures DecodeFrom(toks, j, "item", DecodeState(key, Str(""), acc)) == Decoded(Ok(acc + cols), j + |ItemBody(cols)|)
  {
    BodyAtOfItemBody(toks, j, cols);
    DecodeBodyAt(toks, j, key, acc, cols);
  }

  /** Decoding an item laid out as the writer lays out a row gives back the
      row: same keys in the same order, strings as they were, null markers
      as null markers. */
  lemma ItemRoundTrip(row: Row, itemAttrs: seq<Attr>, rest: seq<Token>)
    requires UniqueKeys(row) && NoCSharpNull(row)
    ensures var toks := [StartElement("item", itemAttrs, false)] + ItemBody(row) + [EndElement("item")] + rest;
      DecodeFrom(toks, 1, NodeName(toks, 0), Initial) == Decoded(Ok(row), 1 + |ItemBody(row)|)
  {
    var toks := [StartElement("item", itemAttrs, false)] + ItemBody(row) + [EndElement("item")] + rest;
    assert toks[1..1 + |ItemBody(row)|] == ItemBody(row);
    assert toks[1 + |ItemBody(row)|] == EndElement("item");
    assert [] + row == row;
    DecodeItemBody(toks, 1, "", [], row);
  }
}
