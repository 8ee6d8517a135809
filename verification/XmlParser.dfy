/** Parsing elements and text, as far as printed documents need it. A position in the text is what
  * is left of it, so that every function gives back what it did not read. */
module XmlParser {
  import opened Bytes
  import opened XmlText
  import opened XmlPrinter

  function SkipWhiteSpace(s: seq<byte>): (r: seq<byte>)
    ensures |r| <= |s| && (r == [] || !IsSpace(r[0]))
  {
    if s != [] && IsSpace(s[0]) then SkipWhiteSpace(s[1..]) else s
  }

  /** A piece that was read and what is left behind it. */
  datatype Piece = Piece(text: seq<byte>, rest: seq<byte>)

  /** Everything up to the end tag, which is passed over. */
  function ParseText(s: seq<byte>, endTag: byte): (r: Option<Piece>)
    ensures r.Some? ==> |r.value.text| + 1 + |r.value.rest| == |s|
  {
    if s == [] then None
    else if s[0] == endTag then Some(Piece([], s[1..]))
    else match ParseText(s[1..], endTag)
      case None => None
      case Some(p) => Some(Piece([s[0]] + p.text, p.rest))
  }

  function NameLength(s: seq<byte>, n: nat): (r: nat)
    requires n <= |s|
    ensures n <= r <= |s|
    decreases |s| - n
  {
    if n < |s| && (if n == 0 then IsNameStart(s[n]) else IsNameChar(s[n])) then NameLength(s, n + 1) else n
  }

  function ParseName(s: seq<byte>): (r: Option<Piece>)
    ensures r.Some? ==> r.value.text != [] && |r.value.text| + |r.value.rest| == |s|
  {
    var n := NameLength(s, 0);
    if n > 0 then Some(Piece(s[..n], s[n..])) else None
  }

  // ---- attributes ----

  /** `Unmodelled` is met where the text uses what printed documents do not. */
  datatype Error = Parsing | Mismatched | ParsingAttribute | ParsingElement | ParsingText | Unmodelled

  datatype AttributeResult = GotAttribute(attribute: Attribute, rest: seq<byte>) | NoAttribute(error: Error)

  function ParseAttribute(s: seq<byte>): (r: AttributeResult)
    ensures r.GotAttribute? ==> |r.rest| < |s|
  {
    match ParseName(s)
    case None => NoAttribute(ParsingAttribute)
    case Some(name) => if name.rest == [] then NoAttribute(ParsingAttribute) else ParseEquals(name.text, name.rest)
  }

  function ParseEquals(name: seq<byte>, s: seq<byte>): (r: AttributeResult)
    ensures r.GotAttribute? ==> |r.rest| < |s|
  {
    var t := SkipWhiteSpace(s);
    if t == [] || t[0] != EQUALS then NoAttribute(ParsingAttribute) else ParseValue(name, SkipWhiteSpace(t[1..]))
  }

  function ParseValue(name: seq<byte>, s: seq<byte>): (r: AttributeResult)
    ensures r.GotAttribute? ==> |r.rest| < |s|
  {
    if s == [] || (s[0] != QUOT && s[0] != APOS) then NoAttribute(ParsingAttribute)
    else match ParseText(s[1..], s[0])
      case None => NoAttribute(ParsingAttribute)
      case Some(raw) =>
        match Value(raw.text, TEXT)
        case None => NoAttribute(Unmodelled)
        case Some(value) => GotAttribute(Attribute(name, value), raw.rest)
  }

  datatype ClosingType = Open | Closed | Closing

  datatype AttributesResult = GotAttributes(attributes: seq<Attribute>, closed: bool, rest: seq<byte>) | NoAttributes(error: Error)

  predicate HasAttribute(attributes: seq<Attribute>, name: seq<byte>) {
    exists i | 0 <= i < |attributes| :: attributes[i].name == name
  }

  /** The attributes behind those read before, to the end of the tag. */
  function ParseAttributes(s: seq<byte>, before: seq<Attribute>): (r: AttributesResult)
    ensures r.GotAttributes? ==> |r.rest| < |s|
    decreases |s|
  {
    var t := SkipWhiteSpace(s);
    if t == [] then NoAttributes(ParsingElement)
    else if IsNameStart(t[0]) then
      match ParseAttribute(t)
      case NoAttribute(error) => NoAttributes(error)
      case GotAttribute(a, rest) =>
        if HasAttribute(before, a.name) then NoAttributes(ParsingAttribute) else ParseAttributes(rest, before + [a])
    else if |t| > 1 && t[0] == SLASH && t[1] == GT then GotAttributes(before, true, t[2..])
    else if t[0] == GT then GotAttributes(before, false, t[1..])
    else NoAttributes(ParsingElement)
  }

  // ---- elements ----

  datatype Kind = NothingThere | ElementThere(rest: seq<byte>) | TextThere | OtherThere

  /** What comes next; declarations, comments, CDATA and the like are not followed. */
  function Identify(s: seq<byte>): (k: Kind)
    ensures k.ElementThere? ==> |k.rest| < |s|
  {
    var t := SkipWhiteSpace(s);
    if t == [] then NothingThere
    else if t[0] != LT then TextThere
    else if |t| > 1 && (t[1] == 33 || t[1] == 63) then OtherThere
    else ElementThere(t[1..])
  }

  /** An element that was read with the end tag that its children met, or an end tag itself. */
  datatype ElementResult = GotElement(element: Node, closing: ClosingType, endTag: seq<byte>, rest: seq<byte>)
                         | NoElement(error: Error)

  /** The nodes up to an end tag, or to the end of the text. */
  datatype NodesResult = UpToTag(nodes: seq<Node>, endTag: seq<byte>, rest: seq<byte>)
                       | UpToEnd(nodes: seq<Node>)
                       | NoNodes(error: Error)

  function ParseElement(s: seq<byte>): (r: ElementResult)
    ensures r.GotElement? ==> |r.rest| < |s| && r.element.Element?
    decreases |s|, 0
  {
    var t := SkipWhiteSpace(s);
    var isEnd := t != [] && t[0] == SLASH;
    match ParseName(if isEnd then t[1..] else t)
    case None => NoElement(Parsing)
    case Some(name) =>
      match ParseAttributes(name.rest, [])
      case NoAttributes(error) => NoElement(error)
      case GotAttributes(attributes, closed, rest) =>
        var closing := if closed then Closed else if isEnd then Closing else Open;
        if rest == [] || closing != Open then GotElement(Element(name.text, attributes, []), closing, [], rest)
        else match ParseNodes(rest)
          case UpToTag(nodes, endTag, more) => GotElement(Element(name.text, attributes, nodes), Open, endTag, more)
          case UpToEnd(_) => NoElement(Parsing)
          case NoNodes(error) => NoElement(error)
  }

  function Prepend(n: Node, r: NodesResult): NodesResult {
    match r
    case UpToTag(nodes, endTag, rest) => UpToTag([n] + nodes, endTag, rest)
    case UpToEnd(nodes) => UpToEnd([n] + nodes)
    case NoNodes(error) => r
  }

  function ParseNodes(s: seq<byte>): (r: NodesResult)
    ensures r.UpToTag? ==> |r.rest| < |s|
    decreases |s|, 1
  {
    match Identify(s)
    case NothingThere => UpToEnd([])
    case OtherThere => NoNodes(Unmodelled)
    case TextThere =>
      (match ParseText(s, LT)
       case None => NoNodes(ParsingText)
       case Some(raw) =>
         assert s[0] != LT;
         if raw.rest == [] then NoNodes(Parsing)
         else match Value(raw.text, TEXT)
           case None => NoNodes(Unmodelled)
           case Some(text) => Prepend(Text(text), ParseNodes([LT] + raw.rest)))
    case ElementThere(t) =>
      match ParseElement(t)
      case NoElement(error) => NoNodes(error)
      case GotElement(element, closing, endTag, rest) =>
        if closing.Closing? then UpToTag([], element.name, rest)
        else if endTag == [] && closing.Open? then NoNodes(Mismatched)
        else if endTag != [] && !closing.Open? then NoNodes(Mismatched)
        else if endTag != [] && endTag != element.name then NoNodes(Mismatched)
        else Prepend(element, ParseNodes(rest))
  }

  datatype ParseResult = Document(nodes: seq<Node>) | Failed(error: Error) | EmptyDocument

  function SkipByteOrderMark(s: seq<byte>): seq<byte> {
    if StartsWith(s, [0xef, 0xbb, 0xbf]) then s[3..] else s
  }

  /** A document ends with its text, or quietly at an end tag that nothing began. */
  function Parse(text: seq<byte>): ParseResult {
    if SkipByteOrderMark(SkipWhiteSpace(text)) == [] then EmptyDocument
    else match ParseNodes(text)
      case UpToTag(nodes, _, _) => Document(nodes)
      case UpToEnd(nodes) => Document(nodes)
      case NoNodes(error) => Failed(error)
  }
}
