/** The parser as it runs: a pointer into the text, loops, and descent into elements. */
module XmlReader {
  import opened Bytes
  import opened XmlText
  import opened XmlPrinter
  import opened XmlParser
  import opened XmlRoundTrip
  import opened XmlExact

  method SkipSpace(text: seq<byte>, p0: nat) returns (p: nat)
    requires p0 <= |text|
    ensures p0 <= p <= |text| && text[p..] == SkipWhiteSpace(text[p0..])
  {
    p := p0;
    while p < |text| && IsSpace(text[p])
      invariant p0 <= p <= |text| && SkipWhiteSpace(text[p..]) == SkipWhiteSpace(text[p0..])
    {
      assert text[p..][1..] == text[p + 1..];
      p := p + 1;
    }
  }

  /** Looks for the end tag; the text before it is what was read. */
  method ReadText(text: seq<byte>, start: nat, endTag: byte) returns (found: bool, p: nat)
    requires start <= |text|
    ensures found ==> start <= p < |text| && text[p] == endTag && ParseText(text[start..], endTag) == Some(Piece(text[start..p], text[p + 1..]))
    ensures !found ==> ParseText(text[start..], endTag) == None
  {
    p := start;
    LongerByNothing(ParseText(text[p..], endTag));
    assert text[start..p] == [];
    while p < |text|
      invariant start <= p <= |text|
      invariant ParseText(text[start..], endTag) == Longer(text[start..p], ParseText(text[p..], endTag))
    {
      assert text[p..][1..] == text[p + 1..];
      if text[p] == endTag {
        assert text[start..p] + [] == text[start..p];
        return true, p;
      }
      LongerByOne(text[start..p], text[p], ParseText(text[p + 1..], endTag));
      assert text[start..p + 1] == text[start..p] + [text[p]];
      p := p + 1;
    }
    return false, p;
  }

  function Longer(a: seq<byte>, r: Option<Piece>): Option<Piece> {
    match r
    case None => None
    case Some(p) => Some(Piece(a + p.text, p.rest))
  }

  lemma LongerByNothing(r: Option<Piece>)
    ensures Longer([], r) == r
  {
    if r.Some? { assert [] + r.value.text == r.value.text; }
  }

  lemma LongerByOne(a: seq<byte>, c: byte, r: Option<Piece>)
    ensures Longer(a, Longer([c], r)) == Longer(a + [c], r)
  {
    if r.Some? { assert a + ([c] + r.value.text) == a + [c] + r.value.text; }
  }

  method ReadName(text: seq<byte>, start: nat) returns (p: nat)
    requires start <= |text|
    ensures start <= p <= |text|
    ensures ParseName(text[start..]) == if p > start then Some(Piece(text[start..p], text[p..])) else None
  {
    ghost var s := text[start..];
    p := start;
    while p < |text| && (if p == start then IsNameStart(text[p]) else IsNameChar(text[p]))
      invariant start <= p <= |text| && NameLength(s, p - start) == NameLength(s, 0)
    {
      assert s[p - start] == text[p];
      p := p + 1;
    }
    if p < |text| { assert s[p - start] == text[p]; }
    assert s[..p - start] == text[start..p] && s[p - start..] == text[p..];
  }

  method ReadAttribute(text: seq<byte>, start: nat) returns (r: AttributeResult, p: nat)
    requires start <= |text|
    ensures r == ParseAttribute(text[start..])
    ensures r.GotAttribute? ==> start < p <= |text| && r.rest == text[p..]
  {
    hide ParseEquals;
    p := ReadName(text, start);
    if p == start || p == |text| { return NoAttribute(ParsingAttribute), p; }
    r, p := ReadEquals(text, text[start..p], p);
  }

  method ReadEquals(text: seq<byte>, name: seq<byte>, start: nat) returns (r: AttributeResult, p: nat)
    requires start <= |text|
    ensures r == ParseEquals(name, text[start..])
    ensures r.GotAttribute? ==> start < p <= |text| && r.rest == text[p..]
  {
    hide ParseValue;
    p := SkipSpace(text, start);
    if p == |text| || text[p] != EQUALS { return NoAttribute(ParsingAttribute), p; }
    assert text[p..][1..] == text[p + 1..];
    p := SkipSpace(text, p + 1);
    r, p := ReadValue(text, name, p);
  }

  method ReadValue(text: seq<byte>, name: seq<byte>, start: nat) returns (r: AttributeResult, p: nat)
    requires start <= |text|
    ensures r == ParseValue(name, text[start..])
    ensures r.GotAttribute? ==> start < p <= |text| && r.rest == text[p..]
  {
    hide Value, ParseText;
    p := start;
    if p == |text| || (text[p] != QUOT && text[p] != APOS) { return NoAttribute(ParsingAttribute), p; }
    assert text[p..][1..] == text[p + 1..];
    var from, found := p + 1, false;
    found, p := ReadText(text, from, text[start]);
    if !found { return NoAttribute(ParsingAttribute), p; }
    var value := Unescape(text[from..p], TEXT);
    p := p + 1;
    return if value.None? then NoAttribute(Unmodelled) else GotAttribute(Attribute(name, value.value), text[p..]), p;
  }

  method ReadAttributes(text: seq<byte>, start: nat) returns (r: AttributesResult, p: nat)
    requires start <= |text|
    ensures r == ParseAttributes(text[start..], [])
    ensures r.GotAttributes? ==> start < p <= |text| && r.rest == text[p..]
  {
    hide ParseAttribute;
    p := start;
    var attributes: seq<Attribute> := [];
    while true
      invariant start <= p <= |text| && ParseAttributes(text[p..], attributes) == ParseAttributes(text[start..], [])
      decreases |text| - p
    {
      p := SkipSpace(text, p);
      if p == |text| { return NoAttributes(ParsingElement), p; }
      if IsNameStart(text[p]) {
        var a;
        a, p := ReadAttribute(text, p);
        if a.NoAttribute? { return NoAttributes(a.error), p; }
        if HasAttribute(attributes, a.attribute.name) { return NoAttributes(ParsingAttribute), p; }
        attributes := attributes + [a.attribute];
      } else if p + 1 < |text| && text[p] == SLASH && text[p + 1] == GT {
        assert text[p..][2..] == text[p + 2..];
        return GotAttributes(attributes, true, text[p + 2..]), p + 2;
      } else if text[p] == GT {
        assert text[p..][1..] == text[p + 1..];
        return GotAttributes(attributes, false, text[p + 1..]), p + 1;
      } else {
        return NoAttributes(ParsingElement), p;
      }
    }
  }

  // ---- elements and lists of nodes ----

  /** Reads a tag, and if it is a start tag what follows up to its end tag. */
  method ReadElement(text: seq<byte>, start: nat) returns (r: ElementResult, p: nat)
    requires start <= |text|
    ensures r == ParseElement(text[start..])
    ensures r.GotElement? ==> start < p <= |text| && r.rest == text[p..]
    decreases |text| - start, 0
  {
    hide ParseNodes, ParseAttributes;
    p := SkipSpace(text, start);
    var isEnd := p < |text| && text[p] == SLASH;
    if isEnd {
      assert text[p..][1..] == text[p + 1..];
      p := p + 1;
    }
    var from := p;
    p := ReadName(text, p);
    if p == from { return NoElement(Parsing), p; }
    var name := text[from..p];
    var a;
    a, p := ReadAttributes(text, p);
    if a.NoAttributes? { return NoElement(a.error), p; }
    var closing := if a.closed then Closed else if isEnd then Closing else Open;
    if p == |text| || closing != Open {
      return GotElement(Element(name, a.attributes, []), closing, [], text[p..]), p;
    }
    var nodes;
    nodes, p := ReadNodes(text, p);
    match nodes {
      case UpToTag(children, endTag, rest) => return GotElement(Element(name, a.attributes, children), Open, endTag, rest), p;
      case UpToEnd(_) => return NoElement(Parsing), p;
      case NoNodes(error) => return NoElement(error), p;
    }
  }

  /** What a list that begins with these nodes goes on to be. */
  function PrependAll(nodes: seq<Node>, r: NodesResult): NodesResult {
    match r
    case UpToTag(more, endTag, rest) => UpToTag(nodes + more, endTag, rest)
    case UpToEnd(more) => UpToEnd(nodes + more)
    case NoNodes(error) => r
  }

  lemma PrependOne(nodes: seq<Node>, n: Node, r: NodesResult)
    ensures PrependAll(nodes, Prepend(n, r)) == PrependAll(nodes + [n], r)
  {
    match r
    case UpToTag(more, endTag, rest) => assert nodes + ([n] + more) == nodes + [n] + more;
    case UpToEnd(more) => assert nodes + ([n] + more) == nodes + [n] + more;
    case NoNodes(error) =>
  }

  /** Reads node after node and links each behind the last. */
  method ReadNodes(text: seq<byte>, start: nat) returns (r: NodesResult, p: nat)
    requires start <= |text|
    ensures r == ParseNodes(text[start..])
    ensures r.UpToTag? ==> start < p <= |text| && r.rest == text[p..]
    decreases |text| - start, 1
  {
    hide ParseNodes;
    p := start;
    var nodes: seq<Node> := [];
    while true
      invariant start <= p <= |text|
      invariant PrependAll(nodes, ParseNodes(text[p..])) == ParseNodes(text[start..])
      decreases |text| - p
    {
      var one, next := ReadNode(text, p);
      if one.NextNode? {
        PrependOne(nodes, one.node, ParseNodes(text[next..]));
        nodes := nodes + [one.node];
        p := next;
      } else {
        r := PrependAll(nodes, one.last);
        p := next;
        return;
      }
    }
  }

  /** One more node, or how the list ends. */
  datatype NodeResult = NextNode(node: Node) | LastNode(last: NodesResult)

  method ReadNode(text: seq<byte>, start: nat) returns (r: NodeResult, p: nat)
    requires start <= |text|
    ensures r.NextNode? ==> start < p <= |text| && ParseNodes(text[start..]) == Prepend(r.node, ParseNodes(text[p..]))
    ensures r.LastNode? ==> r.last == ParseNodes(text[start..])
    ensures r.LastNode? && r.last.UpToTag? ==> start < p <= |text| && r.last.rest == text[p..]
    decreases |text| - start, 0
  {
    hide ParseElement, ParseText, Value;
    p := SkipSpace(text, start);
    if p == |text| { return LastNode(UpToEnd([])), p; }
    if text[p] != LT {
      r, p := ReadTextNode(text, start);
    } else if p + 1 < |text| && (text[p + 1] == 33 || text[p + 1] == 63) {
      return LastNode(NoNodes(Unmodelled)), p;
    } else {
      assert text[p..][1..] == text[p + 1..];
      var e;
      e, p := ReadElement(text, p + 1);
      if e.NoElement? { return LastNode(NoNodes(e.error)), p; }
      if e.closing.Closing? { return LastNode(UpToTag([], e.element.name, e.rest)), p; }
      if (e.endTag == []) == e.closing.Open? || (e.endTag != [] && e.endTag != e.element.name) {
        return LastNode(NoNodes(Mismatched)), p;
      }
      return NextNode(e.element), p;
    }
  }

  method ReadTextNode(text: seq<byte>, start: nat) returns (r: NodeResult, p: nat)
    requires start <= |text| && Identify(text[start..]).TextThere?
    ensures r.NextNode? ==> start < p <= |text| && ParseNodes(text[start..]) == Prepend(r.node, ParseNodes(text[p..]))
    ensures r.LastNode? ==> r.last == ParseNodes(text[start..]) && !r.last.UpToTag?
  {
    assert start < |text| && text[start] != LT;
    hide ParseElement, Value, Identify;
    var found;
    found, p := ReadText(text, start, LT);
    if !found { return LastNode(NoNodes(ParsingText)), p; }
    if p + 1 == |text| { return LastNode(NoNodes(Parsing)), p; }
    var value := Unescape(text[start..p], TEXT);
    if value.None? { return LastNode(NoNodes(Unmodelled)), p; }
    assert text[p] == LT && [LT] + text[p + 1..] == text[p..];
    return NextNode(Text(value.value)), p;
  }

  /** A whole document, from white space and byte order mark on. */
  method ReadDocument(text: seq<byte>) returns (r: ParseResult)
    ensures r == Parse(text)
  {
    hide ParseNodes, SkipWhiteSpace, StartsWith;
    if text == [] {
      NothingToParse();
      return EmptyDocument;
    }
    assert text[0..] == text;
    var start := SkipSpace(text, 0);
    var p := ReadByteOrderMark(text, start);
    if p == |text| { return EmptyDocument; }
    var nodes;
    nodes, p := ReadNodes(text, 0);
    r := match nodes
      case UpToTag(ns, _, _) => Document(ns)
      case UpToEnd(ns) => Document(ns)
      case NoNodes(error) => Failed(error);
  }

  lemma NothingToParse()
    ensures Parse([]) == EmptyDocument
  {
  }

  method ReadByteOrderMark(text: seq<byte>, start: nat) returns (p: nat)
    requires start <= |text|
    ensures start <= p <= |text| && text[p..] == SkipByteOrderMark(text[start..])
  {
    p := start;
    if start + 3 <= |text| && text[start] == 0xef && text[start + 1] == 0xbb && text[start + 2] == 0xbf {
      assert text[start..][..3] == [0xef, 0xbb, 0xbf];
      p := start + 3;
    }
  }

  /** Prints and reads back. */
  method PrintAndParse(doc: seq<Node>, compact: bool) returns (r: ParseResult)
    requires forall i | 0 <= i < |doc| :: ZeroFree(doc[i])
    ensures r == Document(doc) <==> GoodNodes(doc) && TopFits(doc, compact)
  {
    hide Parse, PrintDocument, GoodNodes, ZeroFree, TopFits;
    var text := PrintAll(doc, compact);
    RoundTripExactly(doc, compact);
    r := ReadDocument(text);
  }
}
