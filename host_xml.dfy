/** The host XML reader and writer the codec is built on, reduced to what the
    codec observes of them.  The reader is a forward-only cursor over the
    document's nodes (`System.Xml.XmlReader`): an empty element `<a/>` is one
    node with no end node, and `Skip` jumps over a whole subtree.  The writer
    (`System.Xml.XmlWriter`) is an append-only list of events that refuses text
    holding a character outside the XML `Char` production, as the host does
    with `ArgumentException`, and an attribute whose name is not an `NCName`
    or is already on the element.  The logger is an append-only list of
    lines. */
module HostXml {
  import opened Wrappers
  import XmlChars

  datatype Attr = Attr(name: string, value: string)

  /** One node of the document as the host reader reports it.  `Other` stands
      for whitespace, comments, processing instructions and the declaration,
      with the name and value the host gives them. */
  datatype Token =
    | StartElement(name: string, attrs: seq<Attr>, isEmpty: bool)
    | EndElement(name: string)
    | Text(text: string)
    | CData(text: string)
    | Other(name: string, text: string)

  /** `XmlNodeType` as far as the codec distinguishes it. */
  datatype NodeType = NoneNode | ElementNode | EndElementNode | TextNode | CDataNode | AttributeNode | OtherNode

  /** Index of the end node that closes the open elements counted by `depth`,
      scanning from `j`; the end of the stream when none does. */
  function CloseFrom(toks: seq<Token>, j: int, depth: nat): (e: int)
    requires 0 <= j <= |toks| && depth >= 1
    ensures j <= e <= |toks|
    ensures e < |toks| ==> toks[e].EndElement?
    decreases |toks| - j
  {
    if j == |toks| then |toks|
    else match toks[j]
      case StartElement(_, _, empty) => CloseFrom(toks, j + 1, if empty then depth else depth + 1)
      case EndElement(_) => if depth == 1 then j else CloseFrom(toks, j + 1, depth - 1)
      case _ => CloseFrom(toks, j + 1, depth)
  }

  /** Index of the end node of the non-empty element that starts at `i`. */
  function MatchingEnd(toks: seq<Token>, i: int): (e: int)
    requires 0 <= i < |toks| && toks[i].StartElement? && !toks[i].isEmpty
    ensures i < e <= |toks|
  {
    CloseFrom(toks, i + 1, 1)
  }

  /** Where `XmlReader.Skip` leaves a cursor at `p`: past the end node of a
      non-empty element, on the next node otherwise, and nowhere new before
      the first read or at the end of the stream. */
  function SkipTarget(toks: seq<Token>, p: int): (q: int)
    requires -1 <= p <= |toks|
    ensures -1 <= q <= |toks|
    ensures 0 <= p < |toks| ==> p < q
    ensures (p < 0 || p == |toks|) ==> q == p
  {
    if p < 0 || p == |toks| then p
    else if toks[p].StartElement? && !toks[p].isEmpty then
      var e := MatchingEnd(toks, p);
      if e < |toks| then e + 1 else |toks|
    else p + 1
  }

  /** The reader's `Name` at position `p` (on the node itself). */
  function NodeName(toks: seq<Token>, p: int): string {
    if 0 <= p < |toks| then
      match toks[p]
      case StartElement(n, _, _) => n
      case EndElement(n) => n
      case Text(_) => ""
      case CData(_) => ""
      case Other(n, _) => n
    else ""
  }

  /** The reader's `Value` at position `p` (on the node itself): the text of
      a text-like node, "" on an element, an end tag or off the stream. */
  function NodeValue(toks: seq<Token>, p: int): string {
    if 0 <= p < |toks| then
      match toks[p]
      case StartElement(_, _, _) => ""
      case EndElement(_) => ""
      case Text(t) => t
      case CData(t) => t
      case Other(_, t) => t
    else ""
  }

  /** Index of the first attribute called `name`, or -1. */
  function AttrIndex(attrs: seq<Attr>, name: string): (k: int)
    ensures -1 <= k < |attrs|
    ensures k >= 0 ==> attrs[k].name == name && forall j | 0 <= j < k :: attrs[j].name != name
    ensures k == -1 ==> forall j | 0 <= j < |attrs| :: attrs[j].name != name
    decreases |attrs|
  {
    if attrs == [] then -1
    else if attrs[0].name == name then 0
    else
      var k := AttrIndex(attrs[1..], name);
      if k == -1 then -1 else k + 1
  }

  /** The reader's `Value` after `MoveToAttribute(name)` at `q`: the
      attribute's value on an element that has one, the node's own value
      otherwise. */
  function AttributeValue(toks: seq<Token>, q: int, name: string): string {
    if 0 <= q < |toks| && toks[q].StartElement? && AttrIndex(toks[q].attrs, name) >= 0 then
      toks[q].attrs[AttrIndex(toks[q].attrs, name)].value
    else NodeValue(toks, q)
  }

  /** The host reader: a cursor `pos` over `tokens` (-1 before the first read,
      |tokens| at the end of the stream or once closed) and, on an element,
      the attribute `attr` it has moved to (-1 when on the node itself). */
  class HostReader {
    const tokens: seq<Token>
    var pos: int
    var attr: int
    var closed: bool

    ghost predicate Valid()
      reads this
    {
      && -1 <= pos <= |tokens|
      && (closed ==> pos == |tokens|)
      && (attr == -1 || (0 <= pos < |tokens| && tokens[pos].StartElement? && 0 <= attr < |tokens[pos].attrs|))
    }

    constructor (toks: seq<Token>)
      ensures Valid()
      ensures tokens == toks && pos == -1 && attr == -1 && !closed
    {
      tokens := toks;
      pos := -1;
      attr := -1;
      closed := false;
    }

    /** The reader is on a node (not before the first read, not at the end). */
    predicate OnNode()
      reads this
    {
      0 <= pos < |tokens|
    }

    function NodeType(): (t: NodeType)
      reads this
      requires Valid()
      ensures t == NoneNode <==> !OnNode()
    {
      if !OnNode() then NoneNode
      else if attr >= 0 then AttributeNode
      else match tokens[pos]
        case StartElement(_, _, _) => ElementNode
        case EndElement(_) => EndElementNode
        case Text(_) => TextNode
        case CData(_) => CDataNode
        case Other(_, _) => OtherNode
    }

    function Name(): string
      reads this
      requires Valid()
    {
      if OnNode() && attr >= 0 then tokens[pos].attrs[attr].name else NodeName(tokens, pos)
    }

    /** `Value`: an attribute's value, a text-like node's text, "" otherwise. */
    function Value(): string
      reads this
      requires Valid()
    {
      if OnNode() && attr >= 0 then tokens[pos].attrs[attr].value else NodeValue(tokens, pos)
    }

    function IsEmptyElement(): bool
      reads this
      requires Valid()
    {
      OnNode() && attr == -1 && tokens[pos].StartElement? && tokens[pos].isEmpty
    }

    /** The attributes of the element the reader is on, or of the element
        owning the attribute it is on. */
    function Attributes(): seq<Attr>
      reads this
      requires Valid()
    {
      if OnNode() && tokens[pos].StartElement? then tokens[pos].attrs else []
    }

    /** The attributes `MoveToNextAttribute` visits from here on. */
    function FollowingAttributes(): seq<Attr>
      reads this
      requires Valid()
    {
      Attributes()[attr + 1..]
    }

    function AttributeCount(): nat
      reads this
      requires Valid()
    {
      |Attributes()|
    }

    method Read() returns (more: bool)
      requires Valid()
      modifies this
      ensures Valid() && closed == old(closed)
      ensures pos == if old(pos) < |tokens| then old(pos) + 1 else |tokens|
      ensures attr == -1
      ensures more <==> OnNode()
    {
      if pos < |tokens| {
        pos := pos + 1;
      }
      attr := -1;
      more := pos < |tokens|;
    }

    method Skip()
      requires Valid()
      modifies this
      ensures Valid() && closed == old(closed)
      ensures pos == SkipTarget(tokens, old(pos)) && attr == -1
    {
      pos := SkipTarget(tokens, pos);
      attr := -1;
    }

    method MoveToAttribute(name: string) returns (found: bool)
      requires Valid()
      modifies this
      ensures Valid() && pos == old(pos) && closed == old(closed)
      ensures found <==> AttrIndex(Attributes(), name) >= 0
      ensures attr == if found then AttrIndex(Attributes(), name) else old(attr)
    {
      var k := AttrIndex(Attributes(), name);
      found := k >= 0;
      if found {
        attr := k;
      }
    }

    /** `MoveToAttribute(int i)`: onto the attribute at index `i`. */
    method MoveToAttributeAt(i: int)
      requires Valid() && 0 <= i < AttributeCount()
      modifies this
      ensures Valid() && pos == old(pos) && closed == old(closed)
      ensures attr == i
    {
      attr := i;
    }

    method MoveToNextAttribute() returns (moved: bool)
      requires Valid()
      modifies this
      ensures Valid() && pos == old(pos) && closed == old(closed)
      ensures moved <==> old(attr) + 1 < AttributeCount()
      ensures attr == if moved then old(attr) + 1 else old(attr)
    {
      moved := attr + 1 < AttributeCount();
      if moved {
        attr := attr + 1;
      }
    }

    method MoveToElement() returns (moved: bool)
      requires Valid()
      modifies this
      ensures Valid() && pos == old(pos) && closed == old(closed)
      ensures moved <==> old(attr) >= 0
      ensures attr == -1
    {
      moved := attr >= 0;
      attr := -1;
    }

    method Close()
      requires Valid()
      modifies this
      ensures Valid() && closed && pos == |tokens| && attr == -1
    {
      closed := true;
      pos := |tokens|;
      attr := -1;
    }
  }

  /** What the host writer has been asked to write. */
  datatype Event = StartTag(name: string) | AttributeEvent(name: string, value: string) | CDataEvent(text: string) | EndTag

  /** Number of elements left open by `events`. */
  function Depth(events: seq<Event>): int
    decreases |events|
  {
    if events == [] then 0
    else
      var last := events[|events| - 1];
      Depth(events[..|events| - 1]) + (if last.StartTag? then 1 else if last.EndTag? then -1 else 0)
  }

  /** Appending `e` changes the depth by one step. */
  lemma DepthSnoc(events: seq<Event>, e: Event)
    ensures Depth(events + [e]) == Depth(events) + (if e.StartTag? then 1 else if e.EndTag? then -1 else 0)
  {
    assert (events + [e])[..|events|] == events;
  }

  /** Depth is additive over concatenation. */
  lemma {:induction false} DepthAppend(a: seq<Event>, b: seq<Event>)
    ensures Depth(a + b) == Depth(a) + Depth(b)
    decreases |b|
  {
    if b == [] {
      assert a + b == a;
    } else {
      var init := b[..|b| - 1];
      var last := b[|b| - 1];
      assert b == init + [last];
      assert a + b == (a + init) + [last];
      DepthAppend(a, init);
      DepthSnoc(a + init, last);
      DepthSnoc(init, last);
    }
  }

  /** Why the host writer refuses an attribute: its name is not an `NCName`
      (`ArgumentException`, the empty name included), the element already
      has an attribute of that name (`XmlException`), or its value holds a
      character outside the `Char` production (`ArgumentException`). */
  datatype Refusal = BadName | DuplicateName | BadCharacter

  /** `WriteAttributeString(name, value)` on an element that already has
      the attributes `taken`: the name is checked first, then the value. */
  function AttributeRefusal(taken: seq<string>, name: string, value: string): (r: Option<Refusal>)
    ensures r.None? <==> XmlChars.IsNCName(name) && name !in taken && XmlChars.IsXmlText(value)
  {
    if !XmlChars.IsNCName(name) then Some(BadName)
    else if name in taken then Some(DuplicateName)
    else if !XmlChars.IsXmlText(value) then Some(BadCharacter)
    else None
  }

  /** The writer's own attribute names are names, so only a value can make
      it refuse one that is not yet on the element. */
  lemma FixedAttributeName(taken: seq<string>, name: string, value: string)
    requires name in ["table", "columnName", "isNull", "tableName"] && name !in taken
    ensures AttributeRefusal(taken, name, value) == if XmlChars.IsXmlText(value) then None else Some(BadCharacter)
  {
    XmlChars.LettersAreNCName(name);
  }

  /** The host writer.  Text that is not legal XML, or an attribute name
      that is not a name or is already on the element, is refused and
      nothing is written. */
  class HostWriter {
    var events: seq<Event>
    /** The names of the attributes of the element whose start tag is still
        open. */
    var attributes: seq<string>

    constructor ()
      ensures events == [] && attributes == []
    {
      events := [];
      attributes := [];
    }

    method WriteStartElement(name: string)
      modifies this
      ensures events == old(events) + [StartTag(name)] && attributes == []
    {
      events := events + [StartTag(name)];
      attributes := [];
    }

    method WriteAttributeString(name: string, value: string) returns (refusal: Option<Refusal>)
      modifies this
      ensures refusal == AttributeRefusal(old(attributes), name, value)
      ensures events == old(events) + if refusal.None? then [AttributeEvent(name, value)] else []
      ensures attributes == old(attributes) + if refusal.None? then [name] else []
    {
      refusal := AttributeRefusal(attributes, name, value);
      if refusal.None? {
        events := events + [AttributeEvent(name, value)];
        attributes := attributes + [name];
      }
    }

    method WriteCData(text: string) returns (ok: bool)
      modifies this
      ensures ok == XmlChars.IsXmlText(text)
      ensures events == old(events) + if ok then [CDataEvent(text)] else []
      ensures attributes == if ok then [] else old(attributes)
    {
      ok := XmlChars.IsXmlText(text);
      if ok {
        events := events + [CDataEvent(text)];
        attributes := [];
      }
    }

    method WriteEndElement()
      modifies this
      ensures events == old(events) + [EndTag] && attributes == []
    {
      events := events + [EndTag];
      attributes := [];
    }
  }

  /** The job logger: each call appends one line. */
  class Logger {
    var lines: seq<string>

    constructor ()
      ensures lines == []
    {
      lines := [];
    }

    method Log(line: string)
      modifies this
      ensures lines == old(lines) + [line]
    {
      lines := lines + [line];
    }
  }
}
