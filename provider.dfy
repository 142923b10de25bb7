/** The XML provider (`XmlProvider`): the table cursor that seeks a source
    document to the `table` a mapping reads, the table options it collects on
    the way, the schema pass over a `table`, the reader's separator mode, and
    the export job that nests `tables` > `table` > `item`. */
module Provider {
  import opened Wrappers
  import opened Model
  import opened HostXml
  import opened Emission
  import Strings
  import XmlChars
  import DecimalSeparator
  import DestinationWriter
  import opened SourceSchema

  const DetectAutomaticallySeparator := "Detect automatically"
  const NoneDecimalSeparator := "Use system culture"

  /** `GetReader`'s separator mode: auto-detect when the configured separator
      is "Detect automatically"; otherwise the configured separator, when it
      is set, not empty, not "Use system culture" and not the culture's own. */
  function ReaderSeparators(configured: Option<string>, cultureSeparator: string): DecimalSeparator.SeparatorSettings {
    var auto := configured == Some(DetectAutomaticallySeparator);
    var explicit :=
      if !auto && configured.Some? && configured.value != "" && configured.value != NoneDecimalSeparator
         && configured.value != cultureSeparator
      then configured else None;
    DecimalSeparator.SeparatorSettings(auto, explicit)
  }

  /** The two modes exclude each other; an explicit separator is one the
      configuration names and that differs from the culture's, so the rewrite
      is on exactly when auto-detect is chosen or such a separator is
      configured.  An unset separator turns both off. */
  lemma ReaderSeparatorsSpec(configured: Option<string>, cultureSeparator: string)
    ensures var s := ReaderSeparators(configured, cultureSeparator);
      && !(s.autoDetect && s.decimalSeparator.Some?)
      && (s.autoDetect <==> configured == Some(DetectAutomaticallySeparator))
      && (s.decimalSeparator.Some? ==> s.decimalSeparator == configured && configured.value != cultureSeparator)
      && (DecimalSeparator.Enabled(s) <==>
            configured.Some? && configured.value != "" && configured.value != NoneDecimalSeparator
            && (configured.value == DetectAutomaticallySeparator || configured.value != cultureSeparator))
      && (configured.None? ==> !DecimalSeparator.Enabled(s))
  {
  }

  /** The options loop of `FillMappingOptions`: each attribute in turn is
      added unless an option of its name is already there. */
  function AddMissing(entries: seq<(string, string)>, attrs: seq<Attr>): seq<(string, string)>
    decreases |attrs|
  {
    if attrs == [] then entries
    else
      var prev := AddMissing(entries, attrs[..|attrs| - 1]);
      var a := attrs[|attrs| - 1];
      if HasOption(prev, a.name) then prev else prev + [(a.name, a.value)]
  }

  /** Existing options are never overwritten or removed. */
  lemma {:induction false} AddMissingKeeps(entries: seq<(string, string)>, attrs: seq<Attr>)
    ensures var r := AddMissing(entries, attrs); |entries| <= |r| && r[..|entries|] == entries
    decreases |attrs|
  {
    if attrs != [] {
      AddMissingKeeps(entries, attrs[..|attrs| - 1]);
    }
  }

  /** Every new option is one of the attributes, name and value. */
  lemma {:induction false} AddMissingFrom(entries: seq<(string, string)>, attrs: seq<Attr>)
    ensures forall k | |entries| <= k < |AddMissing(entries, attrs)| ::
      exists i | 0 <= i < |attrs| :: AddMissing(entries, attrs)[k] == (attrs[i].name, attrs[i].value)
    decreases |attrs|
  {
    if attrs != [] {
      var n := |attrs| - 1;
      var prev := AddMissing(entries, attrs[..n]);
      AddMissingFrom(entries, attrs[..n]);
      var r := AddMissing(entries, attrs);
      forall k | |entries| <= k < |r|
        ensures exists i | 0 <= i < |attrs| :: r[k] == (attrs[i].name, attrs[i].value)
      {
        if k < |prev| {
          assert exists i | 0 <= i < n :: prev[k] == (attrs[..n][i].name, attrs[..n][i].value);
          var i :| 0 <= i < n && prev[k] == (attrs[..n][i].name, attrs[..n][i].value);
          assert r[k] == (attrs[i].name, attrs[i].value);
        } else {
          assert r[k] == (attrs[n].name, attrs[n].value);
        }
      }
    } else {
      assert AddMissing(entries, attrs) == entries;
    }
  }

  /** Every attribute's name ends up as an option. */
  lemma {:induction false} AddMissingCovers(entries: seq<(string, string)>, attrs: seq<Attr>)
    ensures forall i | 0 <= i < |attrs| :: HasOption(AddMissing(entries, attrs), attrs[i].name)
    decreases |attrs|
  {
    if attrs != [] {
      var n := |attrs| - 1;
      var prev := AddMissing(entries, attrs[..n]);
      AddMissingCovers(entries, attrs[..n]);
      var r := AddMissing(entries, attrs);
      forall i | 0 <= i < |attrs| ensures HasOption(r, attrs[i].name) {
        if i < n {
          assert attrs[..n][i] == attrs[i];
          var k :| 0 <= k < |prev| && prev[k].0 == attrs[i].name;
          assert r[k] == prev[k];
        } else if !HasOption(prev, attrs[n].name) {
          assert r[|prev|].0 == attrs[n].name;
        }
      }
    }
  }

  /** Option names stay unique. */
  lemma {:induction false} AddMissingUnique(entries: seq<(string, string)>, attrs: seq<Attr>)
    requires UniqueOptions(entries)
    ensures UniqueOptions(AddMissing(entries, attrs))
    decreases |attrs|
  {
    if attrs != [] {
      AddMissingUnique(entries, attrs[..|attrs| - 1]);
    }
  }

  /** The first attribute of a name no option has yet is the one recorded. */
  lemma {:induction false} AddMissingFirstWins(entries: seq<(string, string)>, attrs: seq<Attr>, i: int)
    requires 0 <= i < |attrs| && !HasOption(entries, attrs[i].name)
    requires forall j | 0 <= j < i :: attrs[j].name != attrs[i].name
    ensures (attrs[i].name, attrs[i].value) in AddMissing(entries, attrs)
    decreases |attrs|
  {
    var n := |attrs| - 1;
    var prev := AddMissing(entries, attrs[..n]);
    if i < n {
      AddMissingFirstWins(entries, attrs[..n], i);
    } else {
      AddMissingKeeps(entries, attrs[..n]);
      AddMissingFrom(entries, attrs[..n]);
      forall k | 0 <= k < |prev| ensures prev[k].0 != attrs[n].name {
        if k < |entries| {
          assert prev[..|entries|][k] == entries[k];
        } else {
          var j :| 0 <= j < n && prev[k] == (attrs[..n][j].name, attrs[..n][j].value);
          assert attrs[..n][j] == attrs[j];
        }
      }
      assert AddMissing(entries, attrs)[|prev|] == (attrs[n].name, attrs[n].value);
    }
  }

  /** One more attribute of a slice. */
  lemma AddMissingStep(entries: seq<(string, string)>, attrs: seq<Attr>, first: int, j: int)
    requires 0 <= first <= j < |attrs|
    ensures var prev := AddMissing(entries, attrs[first..j]);
      AddMissing(entries, attrs[first..j + 1])
        == if HasOption(prev, attrs[j].name) then prev else prev + [(attrs[j].name, attrs[j].value)]
  {
    assert attrs[first..j + 1][..j - first] == attrs[first..j];
  }

  /** The position after `Read` from `p`. */
  function NextPos(toks: seq<Token>, p: int): int
    requires -1 <= p <= |toks|
  {
    if p < |toks| then p + 1 else |toks|
  }

  /** A start tag called `name`, compared after lower-casing when `fold`. */
  predicate IsStartNamed(t: Token, name: string, fold: bool) {
    t.StartElement? && (if fold then Strings.LowerAscii(t.name) else t.name) == name
  }

  /** The first start tag called `name` from position `q` on; the end of the
      stream when there is none. */
  function FindStart(toks: seq<Token>, q: int, name: string, fold: bool): (j: int)
    requires 0 <= q <= |toks|
    ensures q <= j <= |toks|
    ensures j < |toks| ==> IsStartNamed(toks[j], name, fold)
    ensures forall k | q <= k < j :: !IsStartNamed(toks[k], name, fold)
    decreases |toks| - q
  {
    if q == |toks| || IsStartNamed(toks[q], name, fold) then q else FindStart(toks, q + 1, name, fold)
  }

  /** The skip loop of `SkipToBeginning` from position `q`: skip the node
      and its subtree, then compare the next node's table name; the end of
      the stream ends the search. */
  function SkipSeek(toks: seq<Token>, q: int, name: string): (r: (bool, int))
    requires 0 <= q <= |toks|
    ensures q <= r.1 <= |toks|
    ensures r.0 <==> r.1 < |toks|
    ensures r.0 ==> AttributeValue(toks, r.1, "tableName") == name
    decreases |toks| - q
  {
    var s := SkipTarget(toks, q);
    if s == |toks| then (false, |toks|)
    else if AttributeValue(toks, s, "tableName") == name then (true, s)
    else SkipSeek(toks, s, name)
  }

  /** `SkipToBeginning` from a reader at `p`: on a fresh (or finished)
      reader, first up to the `tables` start tag, its name compared
      case-insensitively; then up to the next `table` start tag; then, while
      the table name differs, on by whole subtrees.  The result says whether
      a node with the name was found, and where the reader stops. */
  function Seek(toks: seq<Token>, p: int, name: string): (r: (bool, int))
    requires -1 <= p <= |toks|
    ensures (if 0 <= p < |toks| then p else -1) <= r.1 <= |toks|
    ensures r.0 <==> r.1 < |toks|
    ensures r.0 ==> AttributeValue(toks, r.1, "tableName") == name
  {
    var p2 := SeekStart(toks, p);
    if p2 < |toks| && AttributeValue(toks, p2, "tableName") == name then (true, p2) else SkipSeek(toks, p2, name)
  }

  /** The first `table` start tag after the reader's node, or after the
      `tables` start tag on a fresh (or finished) reader. */
  function SeekStart(toks: seq<Token>, p: int): (p2: int)
    requires -1 <= p <= |toks|
    ensures (if 0 <= p < |toks| then p else -1) < p2 <= |toks|
    ensures p2 < |toks| ==> IsStartNamed(toks[p2], "table", false)
  {
    var p1 := if p < 0 || p == |toks| then FindStart(toks, NextPos(toks, p), "tables", true) else p;
    FindStart(toks, NextPos(toks, p1), "table", false)
  }

  /** `s` is a node the skip loop stops on from `q`: one `Skip` after
      another, before the end of the stream. */
  predicate OnSkipChain(toks: seq<Token>, q: int, s: int)
    requires 0 <= q <= |toks|
    decreases |toks| - q
  {
    var t := SkipTarget(toks, q);
    t < |toks| && (s == t || OnSkipChain(toks, t, s))
  }

  lemma {:induction false} SkipChainAfter(toks: seq<Token>, q: int, s: int)
    requires 0 <= q <= |toks| && OnSkipChain(toks, q, s)
    ensures q < s < |toks|
    decreases |toks| - q
  {
    var t := SkipTarget(toks, q);
    if s != t {
      SkipChainAfter(toks, t, s);
    }
  }

  /** The skip loop stops on the first node of its chain whose table name
      is the name sought, and finds nothing exactly when no node of the
      chain has it. */
  lemma {:induction false} SkipSeekFirst(toks: seq<Token>, q: int, name: string)
    requires 0 <= q <= |toks|
    ensures var r := SkipSeek(toks, q, name);
      && (r.0 <==> exists s | OnSkipChain(toks, q, s) :: AttributeValue(toks, s, "tableName") == name)
      && (r.0 ==> OnSkipChain(toks, q, r.1))
      && (forall s | OnSkipChain(toks, q, s) && s < r.1 :: AttributeValue(toks, s, "tableName") != name)
    decreases |toks| - q
  {
    var t := SkipTarget(toks, q);
    if t == |toks| {
    } else if AttributeValue(toks, t, "tableName") == name {
      forall s | OnSkipChain(toks, q, s) && s < t ensures false {
        if s != t {
          SkipChainAfter(toks, t, s);
        }
      }
    } else {
      SkipSeekFirst(toks, t, name);
      var r := SkipSeek(toks, t, name);
      if r.0 {
        var s :| OnSkipChain(toks, t, s) && AttributeValue(toks, s, "tableName") == name;
        assert OnSkipChain(toks, q, s);
      }
    }
  }

  /** The nodes the seek compares: the first `table` start tag, then the
      nodes of the skip loop from it. */
  predicate SeekVisits(toks: seq<Token>, p: int, s: int)
    requires -1 <= p <= |toks|
  {
    var p2 := SeekStart(toks, p);
    (s == p2 && p2 < |toks|) || OnSkipChain(toks, p2, s)
  }

  /** The seek stops on the first node it compares whose table name is the
      name sought, and finds nothing exactly when no node it compares has
      it. */
  lemma SeekFirst(toks: seq<Token>, p: int, name: string)
    requires -1 <= p <= |toks|
    ensures var r := Seek(toks, p, name);
      && (r.0 <==> exists s | SeekVisits(toks, p, s) :: AttributeValue(toks, s, "tableName") == name)
      && (r.0 ==> SeekVisits(toks, p, r.1))
      && (forall s | SeekVisits(toks, p, s) && s < r.1 :: AttributeValue(toks, s, "tableName") != name)
  {
    var p2 := SeekStart(toks, p);
    SkipSeekFirst(toks, p2, name);
    forall s | OnSkipChain(toks, p2, s) ensures p2 < s {
      SkipChainAfter(toks, p2, s);
    }
  }

  /** The empty-table document `GetXmlReader` falls back to:
      `<tables><table tableName="X" /></tables>`. */
  function FallbackDocument(table: string): seq<Token> {
    [StartElement("tables", [], false), StartElement("table", [Attr("tableName", table)], true), EndElement("tables")]
  }

  /** On the fallback document the seek finds its one table. */
  lemma FallbackSeeks(table: string)
    ensures Seek(FallbackDocument(table), -1, table) == (true, 1)
  {
    var toks := FallbackDocument(table);
    assert Strings.LowerAscii("tables") == "tables";
    assert FindStart(toks, 0, "tables", true) == 0;
    assert FindStart(toks, 1, "table", false) == 1;
    assert AttrIndex(toks[1].attrs, "tableName") == 0;
  }

  /** A fresh reader over `doc` finds the table called `name`. */
  predicate Seeks(doc: seq<Token>, name: string) {
    Seek(doc, -1, name).0
  }

  /** The first of `docs` in which the table called `name` is found. */
  function FirstSeeking(docs: seq<seq<Token>>, name: string): (r: Option<nat>)
    ensures r.Some? ==> r.value < |docs| && Seeks(docs[r.value], name) && forall j | 0 <= j < r.value :: !Seeks(docs[j], name)
    ensures r.None? ==> forall j | 0 <= j < |docs| :: !Seeks(docs[j], name)
    decreases |docs|
  {
    if docs == [] then None
    else if Seeks(docs[0], name) then Some(0)
    else
      var rest := FirstSeeking(docs[1..], name);
      assert forall j | 1 <= j < |docs| :: docs[j] == docs[1..][j - 1];
      if rest.None? then None else Some(rest.value + 1)
  }

  /** The attributes `FillMappingOptions` walks on element `t` after
      `MoveToAttribute("tableName")`: those after `tableName` when there is
      one, all of them otherwise. */
  function CollectedAttrs(t: Token): seq<Attr>
    requires t.StartElement?
  {
    var k := AttrIndex(t.attrs, "tableName");
    if k >= 0 then t.attrs[k + 1..] else t.attrs
  }

  /** A table element whose options `FillMappingOptions` collects while
      seeking: it has a `tableName` and at least one attribute besides. */
  predicate CarriesOptions(t: Token) {
    t.StartElement? && AttrIndex(t.attrs, "tableName") >= 0 && |t.attrs| > 1
  }

  /** What a seek keeps of the options collected so far: every table keeps
      its dictionary, a new table gets a new one, no dictionary loses or
      rewrites an entry, and a mapping's options, once set, stay. */
  twostate predicate OptionsKept(p: XmlProvider, m: Mapping?)
    reads *
  {
    && (forall k | k in old(p.tableOptions) :: k in p.tableOptions && p.tableOptions[k] == old(p.tableOptions[k]))
    && (forall k | k in p.tableOptions && k !in old(p.tableOptions) :: fresh(p.tableOptions[k]))
    && (forall d | d in old(p.Dicts()) :: old(d.entries) <= d.entries)
    && (m != null && old(m.options) != null ==> m.options == old(m.options))
  }

  /** The provider's state while a job runs: the options collected per source
      table, the open source document, and the output writer and log. */
  class XmlProvider {
    var tableOptions: map<string, OptionsDict>
    var xmlReader: HostReader?
    const writer: HostWriter
    const logger: Logger

    ghost predicate Valid()
      reads this, xmlReader
    {
      xmlReader != null ==> xmlReader.Valid()
    }

    constructor (writer: HostWriter, logger: Logger)
      ensures Valid()
      ensures tableOptions == map[] && xmlReader == null && this.writer == writer && this.logger == logger
    {
      tableOptions := map[];
      xmlReader := null;
      this.writer := writer;
      this.logger := logger;
    }

    /** The option dictionaries the provider holds. */
    function Dicts(): set<OptionsDict>
      reads this
    {
      tableOptions.Values
    }

    /** The attribute loop of `FillMappingOptions`: from the reader's current
        attribute on, each following attribute is added to `options` unless
        an option of its name is there; the reader ends on the last one. */
    static method CollectOptions(options: OptionsDict, reader: HostReader)
      requires reader.Valid() && reader.AttributeCount() > 0
      modifies reader, options
      ensures reader.Valid() && reader.pos == old(reader.pos) && reader.closed == old(reader.closed)
      ensures reader.attr == old(reader.AttributeCount()) - 1
      ensures options.entries == AddMissing(old(options.entries), old(reader.FollowingAttributes()))
    {
      ghost var attrs := reader.Attributes();
      ghost var first := reader.attr + 1;
      ghost var base := options.entries;
      ghost var done := first;
      var moved := reader.MoveToNextAttribute();
      while moved
        invariant reader.Valid() && reader.pos == old(reader.pos) && reader.closed == old(reader.closed)
        invariant reader.Attributes() == attrs
        invariant first <= done <= |attrs|
        invariant options.entries == AddMissing(base, attrs[first..done])
        invariant moved ==> reader.attr == done && done < |attrs|
        invariant !moved ==> reader.attr == |attrs| - 1 && done == |attrs|
        decreases |attrs| - done
      {
        AddMissingStep(base, attrs, first, done);
        ghost var prev := options.entries;
        ghost var a := attrs[done];
        assert reader.Name() == a.name && reader.Value() == a.value;
        var name := reader.Name();
        if !options.Has(name) {
          options.Add(name, reader.Value());
        }
        assert options.entries == if HasOption(prev, a.name) then prev else prev + [(a.name, a.value)];
        done := done + 1;
        moved := reader.MoveToNextAttribute();
      }
      assert attrs[first..done] == attrs[first..];
    }

    /** On an element with more than one attribute: every attribute after the
        current one becomes an option of `tablename` unless the table already
        has an option of that name (the dictionary is created on first use),
        and a mapping without options takes those of its source table when
        there are any.  The reader ends on the last attribute; no other
        dictionary changes. */
    method FillMappingOptions(tablename: string, reader: HostReader, mapping: Mapping?)
      requires reader.Valid()
      modifies this, reader, mapping, Dicts()
      ensures reader.Valid() && reader.pos == old(reader.pos) && reader.closed == old(reader.closed)
      ensures xmlReader == old(xmlReader)
      ensures OptionsKept(this, mapping)
      ensures old(reader.AttributeCount()) <= 1 ==>
        && reader.attr == old(reader.attr) && tableOptions == old(tableOptions)
        && (mapping != null ==> mapping.options == old(mapping.options))
        && forall d | d in old(Dicts()) :: d.entries == old(d.entries)
      ensures old(reader.AttributeCount()) > 1 ==>
        && reader.attr == old(reader.AttributeCount()) - 1
        && tablename in tableOptions
        && tableOptions == old(tableOptions)[tablename := tableOptions[tablename]]
        && (tablename in old(tableOptions) ==> tableOptions[tablename] == old(tableOptions[tablename]))
        && (tablename !in old(tableOptions) ==> fresh(tableOptions[tablename]))
        && tableOptions[tablename].entries
           == AddMissing(if tablename in old(tableOptions) then old(tableOptions[tablename].entries) else [],
                         old(reader.FollowingAttributes()))
        && (forall d | d in old(Dicts()) && d != tableOptions[tablename] :: d.entries == old(d.entries))
        && (mapping != null ==>
              mapping.options == (if old(mapping.options) == null && mapping.sourceTable in tableOptions
               then tableOptions[mapping.sourceTable] else old(mapping.options)))
    {
      if reader.AttributeCount() > 1 {
        ghost var walked := reader.FollowingAttributes();
        var options := OptionsOf(tablename);
        ghost var prior := options.entries;
        CollectOptions(options, reader);
        AddMissingKeeps(prior, walked);
        AdoptOptions(mapping);
        assert tableOptions == old(tableOptions)[tablename := options];
        assert forall d | d in old(Dicts()) && d != options :: d.entries == old(d.entries);
        forall d | d in old(Dicts()) ensures old(d.entries) <= d.entries {
          if d != options {
            assert d.entries == old(d.entries);
          }
        }
      }
    }

    /** `TableOptions[tablename]`, added empty when missing. */
    method OptionsOf(tablename: string) returns (options: OptionsDict)
      modifies this
      ensures xmlReader == old(xmlReader)
      ensures tableOptions == old(tableOptions)[tablename := options]
      ensures tablename in old(tableOptions) ==> options == old(tableOptions[tablename])
      ensures tablename !in old(tableOptions) ==> fresh(options) && options.entries == []
    {
      if tablename in tableOptions {
        options := tableOptions[tablename];
        assert tableOptions == tableOptions[tablename := options];
      } else {
        options := new OptionsDict();
        tableOptions := tableOptions[tablename := options];
      }
    }

    /** A mapping without options takes those of its source table, when the
        provider has any. */
    method AdoptOptions(mapping: Mapping?)
      modifies mapping
      ensures mapping != null ==>
        mapping.options == (if old(mapping.options) == null && mapping.sourceTable in tableOptions
                            then tableOptions[mapping.sourceTable] else old(mapping.options))
    {
      if mapping != null && mapping.options == null && mapping.sourceTable in tableOptions {
        mapping.options := tableOptions[mapping.sourceTable];
      }
    }

    /** The first loop of `SkipToBeginning`: a reader on no node (fresh, or
        at the end) reads on to the `tables` start tag, its name compared
        after lower-casing; a reader on a node stays. */
    static method ReadToTables(reader: HostReader)
      requires reader.Valid()
      modifies reader
      ensures reader.Valid() && reader.closed == old(reader.closed)
      ensures reader.pos == if old(reader.OnNode()) then old(reader.pos)
                            else FindStart(reader.tokens, NextPos(reader.tokens, old(reader.pos)), "tables", true)
    {
      if reader.NodeType() == NoneNode {
        ghost var toks := reader.tokens;
        ghost var p0 := reader.pos;
        var more := reader.Read();
        while more && !(reader.NodeType() == ElementNode && Strings.LowerAscii(reader.Name()) == "tables")
          invariant reader.Valid() && reader.closed == old(reader.closed) && 0 <= reader.pos <= |toks| && reader.attr == -1
          invariant more <==> reader.pos < |toks|
          invariant FindStart(toks, reader.pos, "tables", true) == FindStart(toks, NextPos(toks, p0), "tables", true)
          decreases |toks| - reader.pos
        {
          more := reader.Read();
        }
      }
    }

    /** The second loop of `SkipToBeginning`: reads on to the next `table`
        start tag, or to the end. */
    static method ReadToTable(reader: HostReader) returns (more: bool)
      requires reader.Valid()
      modifies reader
      ensures reader.Valid() && reader.closed == old(reader.closed) && reader.attr == -1
      ensures reader.pos == FindStart(reader.tokens, NextPos(reader.tokens, old(reader.pos)), "table", false)
      ensures more <==> reader.pos < |reader.tokens|
    {
      ghost var toks := reader.tokens;
      ghost var p0 := reader.pos;
      more := reader.Read();
      while more && !(reader.NodeType() == ElementNode && reader.Name() == "table")
        invariant reader.Valid() && reader.closed == old(reader.closed) && 0 <= reader.pos <= |toks| && reader.attr == -1
        invariant more <==> reader.pos < |toks|
        invariant FindStart(toks, reader.pos, "table", false) == FindStart(toks, NextPos(toks, p0), "table", false)
        decreases |toks| - reader.pos
      {
        more := reader.Read();
      }
    }

    /** The mapping holds options, and its source table's options include
        every attribute of `t` that a seek collects. */
    ghost predicate HoldsOptions(mapping: Mapping, t: Token)
      reads this, mapping, Dicts()
      requires t.StartElement?
    {
      && mapping.sourceTable in tableOptions && mapping.options != null
      && forall a | a in CollectedAttrs(t) :: HasOption(tableOptions[mapping.sourceTable].entries, a.name)
    }

    /** The second loop of `SkipToBeginning` and what follows it: on to the
        next `table` element, onto its `tableName`, whose options are
        collected; `None` at the end of the stream. */
    method EnterFirstTable(mapping: Mapping) returns (tableName: Option<string>)
      requires Valid() && xmlReader != null
      modifies this, xmlReader, mapping, Dicts()
      ensures xmlReader == old(xmlReader) && Valid() && xmlReader.closed == old(xmlReader.closed)
      ensures xmlReader.pos == FindStart(xmlReader.tokens, NextPos(xmlReader.tokens, old(xmlReader.pos)), "table", false)
      ensures tableName.None? <==> !xmlReader.OnNode()
      ensures tableName.None? ==> xmlReader.attr == -1
      ensures tableName.Some? ==> tableName.value == AttributeValue(xmlReader.tokens, xmlReader.pos, "tableName")
      ensures OptionsKept(this, mapping)
      ensures tableName == Some(mapping.sourceTable) && CarriesOptions(xmlReader.tokens[xmlReader.pos]) ==>
        HoldsOptions(mapping, xmlReader.tokens[xmlReader.pos])
    {
      var reader := xmlReader;
      tableName := None;
      var more := ReadToTable(reader);
      if more {
        var _ := reader.MoveToAttribute("tableName");
        var name := reader.Value();
        assert name == AttributeValue(reader.tokens, reader.pos, "tableName");
        GatherTableOptions(name, mapping);
        tableName := Some(name);
      }
    }

    /** `FillMappingOptions` on the element the reader is on, with what a
        seek needs of it: when the element has more than one attribute, the
        attributes after the current one are all options of `tablename`,
        and a mapping that reads that table holds options. */
    method GatherTableOptions(tablename: string, mapping: Mapping)
      requires Valid() && xmlReader != null
      modifies this, xmlReader, mapping, Dicts()
      ensures xmlReader == old(xmlReader) && Valid()
      ensures xmlReader.pos == old(xmlReader.pos) && xmlReader.closed == old(xmlReader.closed)
      ensures old(xmlReader.AttributeCount()) <= 1 ==> xmlReader.attr == old(xmlReader.attr)
      ensures OptionsKept(this, mapping)
      ensures tablename == mapping.sourceTable && old(xmlReader.AttributeCount()) > 1 ==>
        && mapping.sourceTable in tableOptions && mapping.options != null
        && forall a | a in old(xmlReader.FollowingAttributes()) :: HasOption(tableOptions[mapping.sourceTable].entries, a.name)
    {
      var reader := xmlReader;
      ghost var walked := reader.FollowingAttributes();
      ghost var prior := if tablename in tableOptions then tableOptions[tablename].entries else [];
      FillMappingOptions(tablename, reader, mapping);
      if reader.AttributeCount() > 1 {
        ghost var entries := tableOptions[tablename].entries;
        assert entries == AddMissing(prior, walked);
        AddMissingCovers(prior, walked);
        forall a | a in walked ensures HasOption(entries, a.name) {
          var i :| 0 <= i < |walked| && walked[i] == a;
        }
      }
    }

    /** The body of the skip loop of `SkipToBeginning`: past the current
        node and its subtree, then onto the next node's `tableName`, whose
        options are collected when it has one. */
    method SkipTable(mapping: Mapping) returns (tableName: string)
      requires Valid() && xmlReader != null
      modifies this, xmlReader, mapping, Dicts()
      ensures xmlReader == old(xmlReader) && Valid() && xmlReader.closed == old(xmlReader.closed)
      ensures xmlReader.pos == SkipTarget(xmlReader.tokens, old(xmlReader.pos))
      ensures tableName == AttributeValue(xmlReader.tokens, xmlReader.pos, "tableName")
      ensures !xmlReader.OnNode() ==> xmlReader.attr == -1
      ensures OptionsKept(this, mapping)
      ensures tableName == mapping.sourceTable && xmlReader.OnNode() && CarriesOptions(xmlReader.tokens[xmlReader.pos]) ==>
        HoldsOptions(mapping, xmlReader.tokens[xmlReader.pos])
    {
      var reader := xmlReader;
      var _ := reader.MoveToElement();
      reader.Skip();
      var _ := reader.MoveToAttribute("tableName");
      tableName := reader.Value();
      assert tableName == AttributeValue(reader.tokens, reader.pos, "tableName");
      if reader.NodeType() == AttributeNode {
        GatherTableOptions(tableName, mapping);
      }
    }

    /** `SkipToBeginning`: seeks the open document to the `table` element
        that `mapping` reads, as `Seek` describes, and reports whether there
        is one; the reader ends on the element itself.  Every table element
        passed on the way contributes its options; what was collected before
        is kept.  When the table found carries options, the mapping ends up
        with options that include every attribute after its `tableName`. */
    method SkipToBeginning(mapping: Mapping) returns (found: bool)
      requires Valid() && xmlReader != null
      modifies this, xmlReader, mapping, Dicts()
      ensures xmlReader == old(xmlReader) && Valid() && xmlReader.closed == old(xmlReader.closed)
      ensures (found, xmlReader.pos) == Seek(xmlReader.tokens, old(xmlReader.pos), mapping.sourceTable)
      ensures xmlReader.attr == -1
      ensures OptionsKept(this, mapping)
      ensures found && CarriesOptions(xmlReader.tokens[xmlReader.pos]) ==> HoldsOptions(mapping, xmlReader.tokens[xmlReader.pos])
    {
      var reader := xmlReader;
      ghost var toks := reader.tokens;
      ghost var p0 := reader.pos;
      ReadToTables(reader);
      var tableName := EnterFirstTable(mapping);
      assert reader.pos == SeekStart(toks, p0);
      label Skipping:
      found := SkipToTable(mapping, tableName);
      assert (found, reader.pos) == Seek(toks, p0, mapping.sourceTable);
      forall d | d in old(Dicts()) ensures old(d.entries) <= d.entries {
        var k :| k in old(tableOptions) && old(tableOptions[k]) == d;
        assert d in old@Skipping(Dicts());
      }
      forall k | k in tableOptions && k !in old(tableOptions) ensures fresh(tableOptions[k]) {
        if k in old@Skipping(tableOptions) {
          assert tableOptions[k] == old@Skipping(tableOptions[k]);
        }
      }
      var _ := reader.MoveToElement();
    }

    /** The skip loop of `SkipToBeginning`: while the table name read differs
        from the mapping's source table, on by whole subtrees, collecting the
        options of every table element on the way; not found at the end of
        the stream. */
    method SkipToTable(mapping: Mapping, first: Option<string>) returns (found: bool)
      requires Valid() && xmlReader != null && 0 <= xmlReader.pos
      requires first.None? ==> xmlReader.pos == |xmlReader.tokens| && xmlReader.attr == -1
      requires first.Some? ==> xmlReader.pos < |xmlReader.tokens| && first.value == AttributeValue(xmlReader.tokens, xmlReader.pos, "tableName")
      requires first == Some(mapping.sourceTable) && CarriesOptions(xmlReader.tokens[xmlReader.pos]) ==>
        HoldsOptions(mapping, xmlReader.tokens[xmlReader.pos])
      modifies this, xmlReader, mapping, Dicts()
      ensures xmlReader == old(xmlReader) && Valid() && xmlReader.closed == old(xmlReader.closed)
      ensures (found, xmlReader.pos) ==
        if first == Some(mapping.sourceTable) then (true, old(xmlReader.pos))
        else SkipSeek(xmlReader.tokens, old(xmlReader.pos), mapping.sourceTable)
      ensures OptionsKept(this, mapping)
      ensures found && CarriesOptions(xmlReader.tokens[xmlReader.pos]) ==> HoldsOptions(mapping, xmlReader.tokens[xmlReader.pos])
    {
      var reader := xmlReader;
      ghost var toks := reader.tokens;
      ghost var p0 := reader.pos;
      ghost var name := mapping.sourceTable;
      var tableName := first;
      while tableName != Some(mapping.sourceTable)
        invariant xmlReader == reader && Valid() && reader.closed == old(reader.closed) && 0 <= reader.pos <= |toks|
        invariant tableName.None? ==> reader.pos == |toks| && reader.attr == -1
        invariant tableName.Some? ==> reader.pos < |toks| && tableName.value == AttributeValue(toks, reader.pos, "tableName")
        invariant (if first == Some(name) then (true, p0) else SkipSeek(toks, p0, name))
               == if tableName == Some(name) then (true, reader.pos) else SkipSeek(toks, reader.pos, name)
        invariant OptionsKept(this, mapping)
        invariant tableName == Some(name) && CarriesOptions(toks[reader.pos]) ==> HoldsOptions(mapping, toks[reader.pos])
        decreases |toks| - reader.pos
      {
        label Step:
        var next := SkipTable(mapping);
        tableName := Some(next);
        forall d | d in old(Dicts()) ensures old(d.entries) <= d.entries {
          var k :| k in old(tableOptions) && old(tableOptions[k]) == d;
          assert d in old@Step(Dicts());
        }
        forall k | k in tableOptions && k !in old(tableOptions) ensures fresh(tableOptions[k]) {
          if k in old@Step(tableOptions) {
            assert tableOptions[k] == old@Step(tableOptions[k]);
          }
        }
        if reader.NodeType() == NoneNode {
          return false;
        }
      }
      return true;
    }
  

    /** The options of table `name` include every attribute of `t` that
        `FillMappingOptions` collects. */
    ghost predicate HoldsTableOptions(name: string, t: Token)
      reads this, Dicts()
      requires t.StartElement?
    {
      name in tableOptions && forall a | a in CollectedAttrs(t) :: HasOption(tableOptions[name].entries, a.name)
    }

    /** `AddTableToSchema`: the table element's options are collected under
        its `tableName`, the table is added to `schema` with the columns
        `TableSchemaAsWritten` gives (the item search is not bounded by the
        table's end tag), and the reader ends where that pass ends; the
        pass's exception, if any, is returned. */
    method AddTableToSchema(schema: Schema, reader: HostReader) returns (error: Option<string>)
      requires reader.Valid() && reader.OnNode() && reader.attr == -1 && reader.tokens[reader.pos].StartElement?
      modifies this, schema, reader, Dicts()
      ensures reader.Valid() && reader.closed == old(reader.closed) && xmlReader == old(xmlReader)
      ensures var name := AttributeValue(reader.tokens, old(reader.pos), "tableName");
              var r := TableSchemaAsWritten(reader.tokens, old(reader.pos));
        && schema.tables == old(schema.tables) + [SchemaTable(name, r.columns)]
        && reader.pos == r.pos && error == r.error
      ensures OptionsKept(this, null)
      ensures CarriesOptions(reader.tokens[old(reader.pos)]) ==>
        HoldsTableOptions(AttributeValue(reader.tokens, old(reader.pos), "tableName"), reader.tokens[old(reader.pos)])
    {
      ghost var p := reader.pos;
      var tablename := CollectTableOptions(reader);
      var _ := reader.MoveToElement();
      schema.AddTable(tablename);
      if reader.IsEmptyElement() {
        return None;
      }
      error := ReadTableColumns(schema, reader);
      ghost var r := TableSchemaAsWritten(reader.tokens, p);
      assert [] + r.columns == r.columns;
    }

    /** The start of `AddTableToSchema`: the table's name is its `tableName`,
        under which the element's options are collected. */
    method CollectTableOptions(reader: HostReader) returns (tablename: string)
      requires reader.Valid() && reader.OnNode() && reader.attr == -1 && reader.tokens[reader.pos].StartElement?
      modifies this, reader, Dicts()
      ensures reader.Valid() && reader.closed == old(reader.closed) && xmlReader == old(xmlReader)
      ensures reader.pos == old(reader.pos)
      ensures tablename == AttributeValue(reader.tokens, reader.pos, "tableName")
      ensures OptionsKept(this, null)
      ensures CarriesOptions(reader.tokens[reader.pos]) ==> HoldsTableOptions(tablename, reader.tokens[reader.pos])
    {
      var _ := reader.MoveToAttribute("tableName");
      tablename := reader.Value();
      ghost var walked := reader.FollowingAttributes();
      ghost var prior := if tablename in tableOptions then tableOptions[tablename].entries else [];
      FillMappingOptions(tablename, reader, null);
      if reader.AttributeCount() > 1 {
        AddMissingCovers(prior, walked);
      }
    }

    /** The three loops of `AddTableToSchema` after the table is added: to
        the next node called `item`, wherever it is, the start tags up to
        `</item>` as columns of the last table, then on to an end tag
        `table`. */
    static method ReadTableColumns(schema: Schema, reader: HostReader) returns (error: Option<string>)
      requires reader.Valid() && reader.OnNode() && reader.attr == -1
      requires reader.tokens[reader.pos].StartElement? && !reader.tokens[reader.pos].isEmpty
      requires schema.tables != []
      modifies schema, reader
      ensures reader.Valid() && reader.closed == old(reader.closed)
      ensures var r := TableSchemaAsWritten(reader.tokens, old(reader.pos));
              var last := old(schema.tables)[|old(schema.tables)| - 1];
        && schema.tables == old(schema.tables)[..|old(schema.tables)| - 1] + [SchemaTable(last.name, last.columns + r.columns)]
        && reader.pos == r.pos && error == r.error
    {
      ghost var toks := reader.tokens;
      ghost var p := reader.pos;
      ghost var tables := schema.tables;
      var exist := ReadToItem(reader);
      if !exist {
        ghost var last := tables[|tables| - 1];
        assert SchemaTable(last.name, last.columns + []) == last;
        assert tables == tables[..|tables| - 1] + [last];
        return None;
      }
      exist := ReadColumns(schema, reader);
      if !exist {
        return None;
      }
      error := SkipToTableEnd(reader);
    }

    /** The first loop: on to the next node called `item`; nothing stops it
        at the table's end tag. */
    static method ReadToItem(reader: HostReader) returns (exist: bool)
      requires reader.Valid() && reader.OnNode() && reader.attr == -1
      modifies reader
      ensures reader.Valid() && reader.closed == old(reader.closed) && reader.attr == -1
      ensures reader.pos == FindItem(reader.tokens, old(reader.pos), false)
      ensures exist <==> reader.OnNode()
      ensures exist ==> reader.Name() == "item"
    {
      ghost var toks := reader.tokens;
      ghost var p := reader.pos;
      exist := true;
      while exist && reader.Name() != "item"
        invariant reader.Valid() && reader.closed == old(reader.closed) && reader.attr == -1 && p <= reader.pos <= |toks|
        invariant exist <==> reader.pos < |toks|
        invariant FindItem(toks, reader.pos, false) == FindItem(toks, p, false)
        decreases |toks| - reader.pos
      {
        StopsItemSearchAt(toks, reader.pos, false);
        exist := reader.Read();
      }
      if exist {
        StopsItemSearchAt(toks, reader.pos, false);
      }
    }

    /** The second loop: each start tag up to the next `</item>` adds a
        column named by its `columnName` to the last table. */
    static method ReadColumns(schema: Schema, reader: HostReader) returns (exist: bool)
      requires reader.Valid() && reader.OnNode() && schema.tables != []
      modifies schema, reader
      ensures reader.Valid() && reader.closed == old(reader.closed) && reader.attr == -1
      ensures reader.pos == FindItemEnd(reader.tokens, old(reader.pos) + 1)
      ensures exist <==> reader.OnNode()
      ensures var last := old(schema.tables)[|old(schema.tables)| - 1];
        schema.tables == old(schema.tables)[..|old(schema.tables)| - 1]
          + [SchemaTable(last.name, last.columns + ColumnsBetween(reader.tokens, old(reader.pos) + 1, reader.pos))]
    {
      ghost var toks := reader.tokens;
      ghost var q := reader.pos + 1;
      ghost var init := schema.tables[..|schema.tables| - 1];
      ghost var last := schema.tables[|schema.tables| - 1];
      exist := reader.Read();
      assert schema.tables == WithColumns(init, last, ColumnsBetween(toks, q, reader.pos)) by {
        assert last.columns + [] == last.columns;
      }
      while exist && !(reader.NodeType() == EndElementNode && reader.Name() == "item")
        invariant reader.Valid() && reader.closed == old(reader.closed) && reader.attr == -1 && q <= reader.pos <= |toks|
        invariant exist <==> reader.pos < |toks|
        invariant FindItemEnd(toks, reader.pos) == FindItemEnd(toks, q)
        invariant schema.tables == WithColumns(init, last, ColumnsBetween(toks, q, reader.pos))
        decreases |toks| - reader.pos
      {
        ghost var at := reader.pos;
        assert toks[at] != EndElement("item");
        ghost var cols := ColumnsBetween(toks, q, at);
        ghost var before := schema.tables;
        ghost var added := ColumnAt(toks, at);
        AddColumnAt(schema, reader);
        LastTableGrows(before, init, last, cols, added);
        exist := reader.Read();
        assert reader.pos == at + 1;
        assert ColumnsBetween(toks, q, at + 1) == cols + added;
        assert FindItemEnd(toks, at) == FindItemEnd(toks, at + 1);
      }
      assert schema.tables == init + [SchemaTable(last.name, last.columns + ColumnsBetween(toks, q, reader.pos))];
    }

    /** The tables `init` followed by `last` with `cols` added. */
    static function WithColumns(init: seq<SchemaTable>, last: SchemaTable, cols: seq<string>): (r: seq<SchemaTable>)
      ensures |r| == |init| + 1 && r[..|init|] == init && r[|init|].name == last.name
    {
      init + [SchemaTable(last.name, last.columns + cols)]
    }

    /** Adding columns to the last table of `WithColumns(init, last, cols)`. */
    static lemma LastTableGrows(before: seq<SchemaTable>, init: seq<SchemaTable>, last: SchemaTable, cols: seq<string>, added: seq<string>)
      requires before == WithColumns(init, last, cols)
      ensures before[..|before| - 1] + [SchemaTable(before[|before| - 1].name, before[|before| - 1].columns + added)]
        == WithColumns(init, last, cols + added)
    {
      assert before[..|before| - 1] == init;
      assert last.columns + cols + added == last.columns + (cols + added);
    }

    /** The body of the column loop: a start tag adds its `columnName` to
        the table added last. */
    static method AddColumnAt(schema: Schema, reader: HostReader)
      requires reader.Valid() && reader.OnNode() && reader.attr == -1 && schema.tables != []
      modifies schema, reader
      ensures reader.Valid() && reader.closed == old(reader.closed) && reader.attr == -1 && reader.pos == old(reader.pos)
      ensures var last := old(schema.tables)[|old(schema.tables)| - 1];
        schema.tables == old(schema.tables)[..|old(schema.tables)| - 1]
          + [SchemaTable(last.name, last.columns + ColumnAt(reader.tokens, reader.pos))]
    {
      if reader.NodeType() == ElementNode {
        var _ := reader.MoveToAttribute("columnName");
        var name := reader.Value();
        schema.AddColumn(name);
        var _ := reader.MoveToElement();
      } else {
        ghost var last := schema.tables[|schema.tables| - 1];
        assert last.columns + [] == last.columns;
        assert schema.tables == schema.tables[..|schema.tables| - 1] + [last];
      }
    }

    /** The last loop: by whole subtrees on to an end tag `table`; running
        off the end throws "Unexpected EOF". */
    static method SkipToTableEnd(reader: HostReader) returns (error: Option<string>)
      requires reader.Valid() && reader.OnNode() && reader.attr == -1
      modifies reader
      ensures reader.Valid() && reader.closed == old(reader.closed)
      ensures match SkipTableRest(reader.tokens, old(reader.pos))
        case Ok(r) => reader.pos == r && error.None?
        case Err(e) => reader.pos == |reader.tokens| && error == Some(e)
    {
      ghost var toks := reader.tokens;
      ghost var p := reader.pos;
      while !(reader.NodeType() == EndElementNode && reader.Name() == "table")
        invariant reader.Valid() && reader.closed == old(reader.closed) && reader.attr == -1 && p <= reader.pos < |toks|
        invariant SkipTableRest(toks, reader.pos) == SkipTableRest(toks, p)
        decreases |toks| - reader.pos
      {
        reader.Skip();
        if reader.NodeType() == NoneNode {
          return Some(UnexpectedEof);
        }
      }
      return None;
    }
  

    /** `GetXmlReader`: the open document when the seek finds the mapping's
        table in it; otherwise that document is closed and each of
        `documents` (the source files, in order) is opened and sought in
        turn, and the first where the table is found is kept open; when
        none has it, a reader over the one-table fallback document, which
        yields no rows. */
    method GetXmlReader(mapping: Mapping, documents: seq<seq<Token>>) returns (reader: HostReader)
      requires Valid()
      modifies this, xmlReader, mapping, Dicts()
      ensures Valid() && OptionsKept(this, mapping)
      ensures var kept := old(xmlReader) != null && Seek(old(xmlReader).tokens, old(xmlReader.pos), mapping.sourceTable).0;
        && (kept ==>
              && reader == xmlReader == old(xmlReader)
              && reader.pos == Seek(reader.tokens, old(xmlReader.pos), mapping.sourceTable).1 && reader.attr == -1)
        && (!kept ==>
              && (old(xmlReader) != null ==> old(xmlReader).closed)
              && fresh(reader) && !reader.closed && reader.attr == -1
              && match FirstSeeking(documents, mapping.sourceTable)
                 case Some(i) =>
                   xmlReader == reader && reader.tokens == documents[i]
                   && reader.pos == Seek(documents[i], -1, mapping.sourceTable).1
                 case None =>
                   xmlReader == null && reader.tokens == FallbackDocument(mapping.sourceTable) && reader.pos == -1)
    {
      if xmlReader != null {
        var found := SkipToBeginning(mapping);
        if found {
          return xmlReader;
        }
        xmlReader.Close();
        xmlReader := null;
      }
      label Files:
      reader := OpenFirstSeeking(mapping, documents);
      forall d | d in old(Dicts()) ensures old(d.entries) <= d.entries {
        var k :| k in old(tableOptions) && old(tableOptions[k]) == d;
        assert d in old@Files(Dicts());
      }
      forall k | k in tableOptions && k !in old(tableOptions) ensures fresh(tableOptions[k]) {
        if k in old@Files(tableOptions) {
          assert tableOptions[k] == old@Files(tableOptions[k]);
        }
      }
    }

    /** The file loop of `GetXmlReader`: each document opened and sought in
        turn, the first that has the table kept open, the fallback reader
        when none has. */
    method OpenFirstSeeking(mapping: Mapping, documents: seq<seq<Token>>) returns (reader: HostReader)
      requires Valid() && xmlReader == null
      modifies this, mapping, Dicts()
      ensures Valid() && OptionsKept(this, mapping)
      ensures fresh(reader) && !reader.closed && reader.attr == -1
      ensures match FirstSeeking(documents, mapping.sourceTable)
        case Some(i) =>
          xmlReader == reader && reader.tokens == documents[i] && reader.pos == Seek(documents[i], -1, mapping.sourceTable).1
        case None =>
          xmlReader == null && reader.tokens == FallbackDocument(mapping.sourceTable) && reader.pos == -1
    {
      var i := 0;
      while i < |documents|
        invariant 0 <= i <= |documents| && xmlReader == null && Valid()
        invariant forall j | 0 <= j < i :: !Seeks(documents[j], mapping.sourceTable)
        invariant OptionsKept(this, mapping)
        invariant forall d | d in Dicts() :: d in old(Dicts()) || fresh(d)
      {
        label Try:
        var found, candidate := TryDocument(mapping, documents[i]);
        forall d | d in old(Dicts()) ensures old(d.entries) <= d.entries {
          var k :| k in old(tableOptions) && old(tableOptions[k]) == d;
          assert d in old@Try(Dicts());
        }
        forall k | k in tableOptions && k !in old(tableOptions) ensures fresh(tableOptions[k]) {
          if k in old@Try(tableOptions) {
            assert tableOptions[k] == old@Try(tableOptions[k]);
          }
        }
        if found {
          assert FirstSeeking(documents, mapping.sourceTable) == Some(i);
          return candidate;
        }
        i := i + 1;
      }
      reader := new HostReader(FallbackDocument(mapping.sourceTable));
    }

    /** One document of the file loop: opened and sought; kept open as the
        provider's reader when the table is found, closed otherwise. */
    method TryDocument(mapping: Mapping, doc: seq<Token>) returns (found: bool, candidate: HostReader)
      requires Valid() && xmlReader == null
      modifies this, mapping, Dicts()
      ensures Valid() && OptionsKept(this, mapping)
      ensures forall d | d in Dicts() :: d in old(Dicts()) || fresh(d)
      ensures fresh(candidate) && candidate.tokens == doc
      ensures found <==> Seeks(doc, mapping.sourceTable)
      ensures found ==> xmlReader == candidate && !candidate.closed && candidate.attr == -1
                        && candidate.pos == Seek(doc, -1, mapping.sourceTable).1
      ensures !found ==> xmlReader == null
    {
      candidate := new HostReader(doc);
      xmlReader := candidate;
      found := SkipToBeginning(mapping);
      forall d | d in Dicts() ensures d in old(Dicts()) || fresh(d) {
        var k :| k in tableOptions && tableOptions[k] == d;
      }
      if !found {
        candidate.Close();
        xmlReader := null;
      }
    }
  }
}
