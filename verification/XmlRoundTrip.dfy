/** Reading back what was printed: names, attributes, text and elements piece by piece, then whole
  * documents, with text at their top. */
module XmlRoundTrip {
  import opened Bytes
  import opened XmlText
  import opened XmlPrinter
  import opened XmlParser

  // ---- the documents this holds for ----

  predicate GoodAttributes(attributes: seq<Attribute>) {
    && (forall i | 0 <= i < |attributes| :: IsName(attributes[i].name) && Printable(attributes[i].value))
    && (forall i, j | 0 <= i < j < |attributes| :: attributes[i].name != attributes[j].name)
  }

  /** Valid names, different attributes; text that is not blank, and never two in a row. */
  predicate GoodNode(n: Node) {
    match n
    case Text(text) => Printable(text) && !AllSpace(text)
    case Element(name, attributes, children) =>
      IsName(name) && GoodAttributes(attributes)
      && (forall i | 0 <= i < |children| :: GoodNode(children[i])) && NoTwoTexts(children)
  }

  predicate NoTwoTexts(ns: seq<Node>) {
    forall i | 0 < i < |ns| :: !(ns[i - 1].Text? && ns[i].Text?)
  }

  predicate GoodNodes(ns: seq<Node>) {
    (forall i | 0 <= i < |ns| :: GoodNode(ns[i])) && NoTwoTexts(ns)
  }

  // ---- reading pieces ----

  lemma {:induction false} SkipsSpace(w: seq<byte>, s: seq<byte>)
    requires AllSpace(w)
    ensures SkipWhiteSpace(w + s) == SkipWhiteSpace(s)
  {
    if w == [] {
      assert w + s == s;
    } else {
      assert (w + s)[1..] == w[1..] + s;
      SkipsSpace(w[1..], s);
    }
  }

  lemma {:induction false} NameIsRead(name: seq<byte>, s: seq<byte>, n: nat)
    requires IsName(name) && (s == [] || !IsNameChar(s[0])) && n <= |name|
    ensures NameLength(name + s, n) == |name|
    decreases |name| - n
  {
    if n < |name| {
      assert (name + s)[n] == name[n];
      NameIsRead(name, s, n + 1);
    }
  }

  lemma ParsesName(name: seq<byte>, s: seq<byte>)
    requires IsName(name) && (s == [] || !IsNameChar(s[0]))
    ensures ParseName(name + s) == Some(Piece(name, s))
  {
    NameIsRead(name, s, 0);
    assert (name + s)[..|name|] == name && (name + s)[|name|..] == s;
  }

  lemma {:induction false} ParsesText(a: seq<byte>, c: byte, s: seq<byte>)
    requires Lacks(a, c)
    ensures ParseText(a + ([c] + s), c) == Some(Piece(a, s))
  {
    if a == [] {
      assert a + ([c] + s) == [c] + s && ([c] + s)[1..] == s;
    } else {
      assert (a + ([c] + s))[1..] == a[1..] + ([c] + s) && a == [a[0]] + a[1..];
      ParsesText(a[1..], c, s);
    }
  }

  // ---- attributes ----

  lemma ParsesAttribute(a: Attribute, s: seq<byte>)
    requires IsName(a.name) && Printable(a.value)
    ensures PrintAttribute(a) + s == [SPACE] + (PrintAttribute(a)[1..] + s)
    ensures ParseAttribute(PrintAttribute(a)[1..] + s) == GotAttribute(a, s)
    ensures IsNameStart((PrintAttribute(a)[1..] + s)[0])
  {
    hide Escape, Value, ParseText, ParseName, IsName, ParseEquals;
    var value := Escape(a.value, false);
    var t := [EQUALS] + ([QUOT] + (value + ([QUOT] + s)));
    assert PrintAttribute(a)[1..] + s == a.name + t;
    NameBegins(a.name);
    ParsesName(a.name, t);
    ParsesEquals(a, s);
  }

  lemma ParsesEquals(a: Attribute, s: seq<byte>)
    requires Printable(a.value)
    ensures ParseEquals(a.name, [EQUALS] + ([QUOT] + (Escape(a.value, false) + ([QUOT] + s)))) == GotAttribute(a, s)
  {
    hide Escape, Value, ParseText, Printable;
    var value := Escape(a.value, false);
    var u := [QUOT] + (value + ([QUOT] + s));
    var t := [EQUALS] + u;
    assert SkipWhiteSpace(t) == t && t[1..] == u && SkipWhiteSpace(u) == u;
    EscapedIsPlain(a.value, false);
    assert u[1..] == value + ([QUOT] + s);
    ParsesText(value, QUOT, s);
    DecodeEscaped(a.value, false);
  }

  lemma NameBegins(name: seq<byte>)
    requires IsName(name)
    ensures name != [] && IsNameStart(name[0])
  {
  }

  lemma {:induction false} FirstAttribute(attributes: seq<Attribute>)
    requires attributes != []
    ensures PrintAttributes(attributes) == PrintAttribute(attributes[0]) + PrintAttributes(attributes[1..])
  {
    hide *;
    var n := |attributes|;
    LastAttribute(attributes);
    if n == 1 {
      assert attributes[..0] == [] && attributes[1..] == [];
      NoAttributes();
    } else {
      FirstAttribute(attributes[..n - 1]);
      FirstAndLast(attributes);
      LastAttribute(attributes[1..]);
    }
  }

  lemma LastAttribute(attributes: seq<Attribute>)
    requires attributes != []
    ensures PrintAttributes(attributes)
      == PrintAttributes(attributes[..|attributes| - 1]) + PrintAttribute(attributes[|attributes| - 1])
  {
  }

  lemma NoAttributes()
    ensures PrintAttributes([]) == []
  {
  }

  /** Both ends of a sequence can be taken off in either order. */
  lemma FirstAndLast<T>(s: seq<T>)
    requires |s| > 1
    ensures var n := |s|;
      && s[..n - 1] != [] && s[1..] != [] && s[..n - 1][0] == s[0] && s[1..][n - 2] == s[n - 1]
      && s[..n - 1][1..] == s[1..][..n - 2]
  {
  }

  /** The rest of a start tag. */
  function TagEnd(closed: bool, s: seq<byte>): seq<byte> {
    if closed then [SLASH, GT] + s else [GT] + s
  }

  lemma {:induction false} ParsesAttributes(before: seq<Attribute>, attributes: seq<Attribute>, closed: bool, s: seq<byte>)
    requires GoodAttributes(before + attributes)
    ensures ParseAttributes(PrintAttributes(attributes) + TagEnd(closed, s), before) == GotAttributes(before + attributes, closed, s)
    decreases |attributes|
  {
    hide PrintAttribute, PrintAttributes, ParseAttribute, ParseAttributes, IsName, TagEnd, HasAttribute, SkipWhiteSpace;
    if attributes == [] {
      ParsesTagEnd(before, closed, s);
    } else {
      var a, more := attributes[0], PrintAttributes(attributes[1..]) + TagEnd(closed, s);
      FirstAttribute(attributes);
      assert PrintAttributes(attributes) + TagEnd(closed, s) == PrintAttribute(a) + more;
      assert (before + attributes)[|before|] == a;
      NotBefore(before, attributes);
      ParsesFirst(before, a, more);
      assert before + attributes == before + [a] + attributes[1..];
      ParsesAttributes(before + [a], attributes[1..], closed, s);
    }
  }

  lemma ParsesTagEnd(before: seq<Attribute>, closed: bool, s: seq<byte>)
    ensures ParseAttributes(PrintAttributes([]) + TagEnd(closed, s), before) == GotAttributes(before + [], closed, s)
  {
    var t := TagEnd(closed, s);
    assert PrintAttributes([]) + t == t && SkipWhiteSpace(t) == t && before + [] == before;
    if closed { assert t[2..] == s; } else { assert t[1..] == s; }
  }

  lemma ParsesFirst(before: seq<Attribute>, a: Attribute, more: seq<byte>)
    requires IsName(a.name) && Printable(a.value) && !HasAttribute(before, a.name)
    ensures ParseAttributes(PrintAttribute(a) + more, before) == ParseAttributes(more, before + [a])
  {
    hide PrintAttribute, ParseAttribute, IsName, HasAttribute;
    ParsesAttribute(a, more);
    var t := PrintAttribute(a)[1..] + more;
    SkipsSpace([SPACE], t);
    assert SkipWhiteSpace(t) == t;
  }

  lemma NotBefore(before: seq<Attribute>, attributes: seq<Attribute>)
    requires GoodAttributes(before + attributes) && attributes != []
    ensures !HasAttribute(before, attributes[0].name)
  {
    var all := before + attributes;
    assert all[|before|] == attributes[0];
    assert forall i | 0 <= i < |before| :: all[i] == before[i];
  }

  // ---- nodes, first to last ----

  lemma {:induction false} FirstNode(ns: seq<Node>, depth: nat, quiet: bool, compact: bool)
    requires ns != []
    ensures PrintNodes(ns, depth, quiet, compact)
      == PrintNode(ns[0], depth, quiet, false, compact) + PrintNodes(ns[1..], depth, QuietAfter(quiet, ns[0]), compact)
    ensures QuietAfterAll(quiet, ns) == QuietAfterAll(QuietAfter(quiet, ns[0]), ns[1..])
    decreases |ns|
  {
    hide PrintNode, HasText, QuietAfter, PrintNodes, QuietAfterAll;
    var n := |ns|;
    LastNode(ns, depth, quiet, compact);
    NoNodes(depth, quiet, compact);
    NoNodes(depth, QuietAfter(quiet, ns[0]), compact);
    if n == 1 {
      assert ns[..0] == [] && ns[1..] == [];
      var one := PrintNode(ns[0], depth, quiet, false, compact);
      assert [] + one == one + [];
    } else {
      FirstNode(ns[..n - 1], depth, quiet, compact);
      FirstAndLast(ns);
      LastNode(ns[1..], depth, QuietAfter(quiet, ns[0]), compact);
    }
  }

  lemma LastNode(ns: seq<Node>, depth: nat, quiet: bool, compact: bool)
    requires ns != []
    ensures var init, last := ns[..|ns| - 1], ns[|ns| - 1];
      && QuietAfterAll(quiet, ns) == QuietAfter(QuietAfterAll(quiet, init), last)
      && PrintNodes(ns, depth, quiet, compact)
        == PrintNodes(init, depth, quiet, compact) + PrintNode(last, depth, QuietAfterAll(quiet, init), false, compact)
  {
  }

  lemma NoNodes(depth: nat, quiet: bool, compact: bool)
    ensures PrintNodes([], depth, quiet, compact) == [] && QuietAfterAll(quiet, []) == quiet
  {
  }

  /** An element without the white space around it and its first character. */
  function Core(n: Node, depth: nat, quiet: bool, compact: bool): seq<byte>
    requires n.Element?
  {
    n.name + PrintAttributes(n.attributes) + Inner(n.children, depth + 1, quiet, compact)
    + EndTag(n.name, n.children != [], depth, QuietAfterAll(quiet, n.children), compact)
  }

  lemma CoreIsPrinted(n: Node, depth: nat, quiet: bool, first: bool, compact: bool, more: seq<byte>)
    requires n.Element?
    ensures PrintNode(n, depth, quiet, first, compact) + more
      == Lead(depth, quiet || first, compact) + ([LT] + (Core(n, depth, quiet, compact) + (LastLine(depth, compact) + more)))
  {
    hide Lead, PrintAttributes, Inner, EndTag, LastLine;
  }

  /** White space in front of a tag, or at the end, is passed over. */
  lemma NodesSkipSpace(w: seq<byte>, s: seq<byte>)
    requires AllSpace(w) && (s == [] || s[0] == LT)
    ensures ParseNodes(w + s) == ParseNodes(s)
  {
    hide ParseElement, ParseText, Value;
    SkipsSpace(w, s);
  }

  /** The end tag of an element ends the list of its children. */
  lemma EndTagEnds(w: seq<byte>, name: seq<byte>, rest: seq<byte>)
    requires AllSpace(w) && IsName(name)
    ensures ParseNodes(w + ([LT, SLASH] + name + [GT]) + rest) == UpToTag([], name, rest)
  {
    hide IsName, ParseNodes;
    var s := [LT] + ([SLASH] + (name + ([GT] + rest)));
    assert w + ([LT, SLASH] + name + [GT]) + rest == w + s;
    NodesSkipSpace(w, s);
    NodesAtEndTag(name, rest);
  }

  lemma NodesAtEndTag(name: seq<byte>, rest: seq<byte>)
    requires IsName(name)
    ensures ParseNodes([LT] + ([SLASH] + (name + ([GT] + rest)))) == UpToTag([], name, rest)
  {
    hide IsName, ParseElement;
    var t := [SLASH] + (name + ([GT] + rest));
    var s := [LT] + t;
    assert SkipWhiteSpace(s) == s && s[1..] == t && s[1] == SLASH;
    EndTagParses(name, rest);
  }

  lemma EndTagParses(name: seq<byte>, rest: seq<byte>)
    requires IsName(name)
    ensures ParseElement([SLASH] + (name + ([GT] + rest))) == GotElement(Element(name, [], []), Closing, [], rest)
  {
    hide IsName, ParseName;
    var t := [GT] + rest;
    var e := [SLASH] + (name + t);
    assert SkipWhiteSpace(e) == e && e[1..] == name + t;
    ParsesName(name, t);
    assert PrintAttributes([]) + TagEnd(false, rest) == t;
    ParsesAttributes([], [], false, rest);
  }

  // ---- the round trip ----

  /** What follows the children of an element. */
  function Behind(name: seq<byte>, depth: nat, quiet: bool, compact: bool, rest: seq<byte>): seq<byte> {
    Lead(depth, quiet, compact) + ([LT, SLASH] + name + [GT]) + rest
  }

  lemma FirstOfName(name: seq<byte>, s: seq<byte>)
    requires IsName(name)
    ensures (name + s)[0] != 33 && (name + s)[0] != 63 && (name + s)[0] != SLASH && !IsSpace((name + s)[0])
  {
  }

  /** The start tag up to its end, by its children. */
  lemma ParsesStart(n: Node, closed: bool, rest: seq<byte>)
    requires n.Element? && IsName(n.name) && GoodAttributes(n.attributes)
    ensures var s := n.name + (PrintAttributes(n.attributes) + TagEnd(closed, rest));
      ParseElement(s) == if closed then GotElement(Element(n.name, n.attributes, []), Closed, [], rest)
        else if rest == [] then GotElement(Element(n.name, n.attributes, []), Open, [], rest)
        else match ParseNodes(rest)
          case UpToTag(nodes, endTag, more) => GotElement(Element(n.name, n.attributes, nodes), Open, endTag, more)
          case UpToEnd(_) => NoElement(Parsing)
          case NoNodes(error) => NoElement(error)
  {
    hide ParseNodes, ParseAttributes, GoodAttributes, ParseName, PrintAttribute;
    var t := PrintAttributes(n.attributes) + TagEnd(closed, rest);
    FirstOfName(n.name, t);
    AfterName(n.attributes, closed, rest);
    ParsesName(n.name, t);
    assert [] + n.attributes == n.attributes;
    ParsesAttributes([], n.attributes, closed, rest);
  }

  lemma AfterName(attributes: seq<Attribute>, closed: bool, rest: seq<byte>)
    ensures var t := PrintAttributes(attributes) + TagEnd(closed, rest); t != [] && !IsNameChar(t[0])
  {
    if attributes != [] {
      FirstAttribute(attributes);
      assert PrintAttribute(attributes[0])[0] == SPACE;
    }
  }

  lemma CoreStarts(n: Node, depth: nat, quiet: bool, compact: bool, more: seq<byte>)
    requires n.Element?
    ensures Core(n, depth, quiet, compact) + more
      == n.name + (PrintAttributes(n.attributes)
        + if n.children == [] then TagEnd(true, more)
          else TagEnd(false, PrintNodes(n.children, depth + 1, quiet, compact)
            + Behind(n.name, depth, QuietAfterAll(quiet, n.children), compact, more)))
  {
    hide PrintAttributes, PrintNodes, Lead;
    var name, attributes := n.name, PrintAttributes(n.attributes);
    if n.children == [] {
      assert (name + attributes + [] + [SLASH, GT]) + more == name + (attributes + ([SLASH, GT] + more));
    } else {
      var inner, lead := PrintNodes(n.children, depth + 1, quiet, compact), Lead(depth, QuietAfterAll(quiet, n.children), compact);
      var tag := [LT, SLASH] + name + [GT];
      Parts(name, attributes, inner, lead + tag, more);
    }
  }

  lemma Parts(name: seq<byte>, attributes: seq<byte>, inner: seq<byte>, end: seq<byte>, more: seq<byte>)
    ensures name + attributes + ([GT] + inner) + end + more == name + (attributes + ([GT] + (inner + (end + more))))
  {
  }

  /** An element, read from behind its first character. */
  lemma ElementRoundTrip(n: Node, depth: nat, quiet: bool, compact: bool, more: seq<byte>)
    requires GoodNode(n) && n.Element?
    ensures ParseElement(Core(n, depth, quiet, compact) + more)
      == if n.children == [] then GotElement(n, Closed, [], more) else GotElement(n, Open, n.name, more)
    decreases n, 0
  {
    hide ParseElement, PrintAttributes, PrintNodes, Core, TagEnd, ParseNodes, GoodAttributes;
    CoreStarts(n, depth, quiet, compact, more);
    if n.children == [] {
      ParsesStart(n, true, more);
    } else {
      var rest := PrintNodes(n.children, depth + 1, quiet, compact)
        + Behind(n.name, depth, QuietAfterAll(quiet, n.children), compact, more);
      ParsesStart(n, false, rest);
      NodesRoundTrip(n.children, depth, quiet, compact, n.name, more);
    }
  }

  /** The children of an element, up to and including its end tag. */
  lemma {:induction false} NodesRoundTrip(ns: seq<Node>, depth: nat, quiet: bool, compact: bool, name: seq<byte>, rest: seq<byte>)
    requires GoodNodes(ns) && IsName(name)
    ensures ParseNodes(PrintNodes(ns, depth + 1, quiet, compact) + Behind(name, depth, QuietAfterAll(quiet, ns), compact, rest))
      == UpToTag(ns, name, rest)
    decreases ns, 1
  {
    hide ParseNodes, PrintNodes, PrintNode, Behind, IsName, QuietAfterAll, QuietAfter, GoodNode;
    if ns == [] {
      NoNodesRoundTrip(depth, quiet, compact, name, rest);
    } else {
      var n, next := ns[0], QuietAfter(quiet, ns[0]);
      var more := PrintNodes(ns[1..], depth + 1, next, compact) + Behind(name, depth, QuietAfterAll(next, ns[1..]), compact, rest);
      FirstThenMore(ns, depth, quiet, compact, name, rest);
      GoodTail(ns);
      NodesRoundTrip(ns[1..], depth, next, compact, name, rest);
      if n.Element? {
        ElementRoundTrip(n, depth + 1, quiet, compact, more);
        OneElement(n, depth + 1, quiet, false, compact, more);
      } else {
        TagFollows(ns, depth, quiet, compact, name, rest);
        OneText(n, depth + 1, quiet, compact, more);
      }
      PrependFirst(ns, name, rest);
    }
  }

  lemma FirstThenMore(ns: seq<Node>, depth: nat, quiet: bool, compact: bool, name: seq<byte>, rest: seq<byte>)
    requires ns != []
    ensures var next := QuietAfter(quiet, ns[0]);
      PrintNodes(ns, depth + 1, quiet, compact) + Behind(name, depth, QuietAfterAll(quiet, ns), compact, rest)
      == PrintNode(ns[0], depth + 1, quiet, false, compact)
        + (PrintNodes(ns[1..], depth + 1, next, compact) + Behind(name, depth, QuietAfterAll(next, ns[1..]), compact, rest))
  {
    hide *;
    FirstNode(ns, depth + 1, quiet, compact);
  }

  lemma PrependFirst(ns: seq<Node>, endTag: seq<byte>, rest: seq<byte>)
    requires ns != []
    ensures Prepend(ns[0], UpToTag(ns[1..], endTag, rest)) == UpToTag(ns, endTag, rest)
  {
    assert [ns[0]] + ns[1..] == ns;
  }

  /** An element whose end tag has another name is an error, whatever its children are. */
  lemma WrongEndTag(n: Node, name: seq<byte>, depth: nat, quiet: bool, compact: bool, rest: seq<byte>)
    requires GoodNode(n) && n.Element? && IsName(name) && name != n.name
    ensures var inner := PrintNodes(n.children, depth + 1, quiet, compact)
        + Behind(name, depth, QuietAfterAll(quiet, n.children), compact, rest);
      ParseNodes([LT] + (n.name + (PrintAttributes(n.attributes) + TagEnd(false, inner)))) == NodesResult.NoNodes(Mismatched)
  {
    hide ParseElement, PrintAttributes, PrintNodes, GoodAttributes, QuietAfterAll, Behind;
    var inner := PrintNodes(n.children, depth + 1, quiet, compact)
      + Behind(name, depth, QuietAfterAll(quiet, n.children), compact, rest);
    var t := n.name + (PrintAttributes(n.attributes) + TagEnd(false, inner));
    ParsesStart(n, false, inner);
    NodesRoundTrip(n.children, depth, quiet, compact, name, rest);
    FirstOfName(n.name, PrintAttributes(n.attributes) + TagEnd(false, inner));
    EndTagIsThere(n.children, name, depth, quiet, compact, rest);
    var s := [LT] + t;
    assert SkipWhiteSpace(s) == s && s[1..] == t && s[1] == t[0];
  }

  lemma EndTagIsThere(ns: seq<Node>, name: seq<byte>, depth: nat, quiet: bool, compact: bool, rest: seq<byte>)
    ensures PrintNodes(ns, depth + 1, quiet, compact) + Behind(name, depth, QuietAfterAll(quiet, ns), compact, rest) != []
  {
    hide PrintNodes, QuietAfterAll, Lead;
  }

  lemma GoodTail(ns: seq<Node>)
    requires GoodNodes(ns) && ns != []
    ensures GoodNode(ns[0]) && GoodNodes(ns[1..])
  {
    hide GoodNode;
  }

  lemma NoNodesRoundTrip(depth: nat, quiet: bool, compact: bool, name: seq<byte>, rest: seq<byte>)
    requires IsName(name)
    ensures ParseNodes(PrintNodes([], depth + 1, quiet, compact) + Behind(name, depth, QuietAfterAll(quiet, []), compact, rest))
      == UpToTag([], name, rest)
  {
    hide ParseNodes, IsName;
    EndTagEnds(Lead(depth, quiet, compact), name, rest);
    var t := Behind(name, depth, quiet, compact, rest);
    assert [] + t == t;
  }

  /** An element among others. */
  lemma OneElement(n: Node, depth: nat, quiet: bool, first: bool, compact: bool, more: seq<byte>)
    requires GoodNode(n) && n.Element? && depth > 0
    requires ParseElement(Core(n, depth, quiet, compact) + more)
      == if n.children == [] then GotElement(n, Closed, [], more) else GotElement(n, Open, n.name, more)
    ensures ParseNodes(PrintNode(n, depth, quiet, first, compact) + more) == Prepend(n, ParseNodes(more))
  {
    hide ParseElement, PrintNode, Core, Lead;
    CoreIsPrinted(n, depth, quiet, first, compact, more);
    assert LastLine(depth, compact) + more == more;
    TagOfElement(n, depth, quiet, compact, more);
    NodesSkipSpace(Lead(depth, quiet || first, compact), [LT] + (Core(n, depth, quiet, compact) + more));
  }

  lemma TagOfElement(n: Node, depth: nat, quiet: bool, compact: bool, more: seq<byte>)
    requires GoodNode(n) && n.Element?
    requires ParseElement(Core(n, depth, quiet, compact) + more)
      == if n.children == [] then GotElement(n, Closed, [], more) else GotElement(n, Open, n.name, more)
    ensures ParseNodes([LT] + (Core(n, depth, quiet, compact) + more)) == Prepend(n, ParseNodes(more))
  {
    hide ParseElement, Core, PrintNodes, PrintAttributes, TagEnd;
    var t := Core(n, depth, quiet, compact) + more;
    CoreStarts(n, depth, quiet, compact, more);
    FirstOfName(n.name, t[|n.name|..]);
    var s := [LT] + t;
    assert SkipWhiteSpace(s) == s && s[1..] == t && s[1] == t[0];
  }

  /** Behind text comes a tag at once. */
  lemma TagFollows(ns: seq<Node>, depth: nat, quiet: bool, compact: bool, name: seq<byte>, rest: seq<byte>)
    requires GoodNodes(ns) && ns != [] && ns[0].Text? && IsName(name)
    ensures var next := QuietAfter(quiet, ns[0]);
      var more := PrintNodes(ns[1..], depth + 1, next, compact) + Behind(name, depth, QuietAfterAll(next, ns[1..]), compact, rest);
      |more| > 1 && more[0] == LT
  {
    hide PrintNode, GoodNode;
    var tail := ns[1..];
    if tail != [] {
      assert tail[0] == ns[1] && tail[0].Element?;
      FirstNode(tail, depth + 1, true, compact);
      hide PrintNodes;
      CoreIsPrinted(tail[0], depth + 1, true, false, compact, []);
      var printed := PrintNode(tail[0], depth + 1, true, false, compact);
      assert printed + [] == printed;
      GoodTail(ns);
      GoodTail(tail);
      CoreIsThere(tail[0], depth + 1, true, compact);
    }
  }

  lemma CoreIsThere(n: Node, depth: nat, quiet: bool, compact: bool)
    requires GoodNode(n) && n.Element?
    ensures Core(n, depth, quiet, compact) != []
  {
    hide PrintAttributes, Inner, EndTag;
  }

  /** Text up to the tag behind it. */
  lemma OneText(n: Node, depth: nat, quiet: bool, compact: bool, more: seq<byte>)
    requires GoodNode(n) && n.Text? && |more| > 1 && more[0] == LT
    ensures ParseNodes(PrintNode(n, depth, quiet, false, compact) + more) == Prepend(n, ParseNodes(more))
  {
    hide ParseElement, ParseText, Value, Escape;
    var raw, x := Escape(n.text, true), more[1..];
    assert more == [LT] + x;
    EscapedIsPlain(n.text, true);
    ParsesText(raw, LT, x);
    DecodeEscaped(n.text, true);
    NotBlank(n.text);
    SkipsToText(raw, more);
  }

  lemma {:induction false} NotBlank(text: seq<byte>)
    requires !AllSpace(text)
    ensures !AllSpace(Escape(text, true))
  {
    var escaped := Escape(text, true);
    if IsSpace(text[0]) {
      assert text == [text[0]] + text[1..];
      NotBlank(text[1..]);
      var k :| 0 <= k < |Escape(text[1..], true)| && !IsSpace(Escape(text[1..], true)[k]);
      assert escaped[k + |EscapeOne(text[0], true)|] == Escape(text[1..], true)[k];
    } else {
      assert !IsSpace(escaped[0]);
    }
  }

  lemma {:induction false} SkipsToText(raw: seq<byte>, more: seq<byte>)
    requires !AllSpace(raw) && Lacks(raw, LT)
    ensures SkipWhiteSpace(raw + more) != [] && SkipWhiteSpace(raw + more)[0] != LT
  {
    if IsSpace(raw[0]) {
      assert (raw + more)[1..] == raw[1..] + more && raw == [raw[0]] + raw[1..];
      SkipsToText(raw[1..], more);
    }
  }

  // ---- documents ----

  /** What is read back of good nodes at the top: white space around text there becomes part of it. */
  function AsRead(w: seq<byte>, ns: seq<Node>, first: bool, compact: bool): seq<Node>
    decreases |ns|
  {
    if ns == [] then []
    else if ns[0].Text? then [Text(w + ns[0].text + Lead(0, first, compact))] + AsRead([], ns[1..], first, compact)
    else [ns[0]] + AsRead(LastLine(0, compact), ns[1..], false, compact)
  }

  predicate EndsWithText(ns: seq<Node>) {
    ns != [] && ns[|ns| - 1].Text?
  }

  /** Nodes at the top, with a line break in front or not. */
  lemma {:induction false} TopRead(w: seq<byte>, ns: seq<Node>, first: bool, compact: bool)
    requires (w == [] || w == [LF]) && GoodNodes(ns)
    ensures var r := ParseNodes(w + PrintTop(ns, first, compact));
      if EndsWithText(ns) then r.NoNodes? else r == UpToEnd(AsRead(w, ns, first, compact))
    decreases |ns|
  {
    hide ParseNodes, PrintNode, GoodNode, Lead;
    if ns == [] {
      SkipsSpace(w, []);
      NothingAtTop(w, first, compact);
    } else {
      GoodTail(ns);
      if ns[0].Element? {
        TopRead(LastLine(0, compact), ns[1..], false, compact);
        TopElement(w, ns, first, compact);
      } else if |ns| == 1 {
        TextIsGood(ns[0]);
        TextAtEnd(w, ns[0].text, first, compact);
        assert ns == [Text(ns[0].text)];
      } else {
        TopRead([], ns[1..], first, compact);
        TopText(w, ns, first, compact);
      }
    }
  }

  lemma NothingAtTop(w: seq<byte>, first: bool, compact: bool)
    requires AllSpace(w)
    ensures ParseNodes(w + PrintTop([], first, compact)) == UpToEnd([])
  {
    SkipsSpace(w, []);
  }

  lemma TopElement(w: seq<byte>, ns: seq<Node>, first: bool, compact: bool)
    requires AllSpace(w) && GoodNodes(ns) && ns != [] && ns[0].Element?
    ensures ParseNodes(w + PrintTop(ns, first, compact))
      == Prepend(ns[0], ParseNodes(LastLine(0, compact) + PrintTop(ns[1..], false, compact)))
  {
    hide ParseNodes, ParseElement, PrintNode, Core, Lead, GoodNode, LastLine;
    var n, tail := ns[0], PrintTop(ns[1..], false, compact);
    var more := LastLine(0, compact) + tail;
    GoodTail(ns);
    CoreIsPrinted(n, 0, false, first, compact, tail);
    var lead, tag := Lead(0, false || first, compact), [LT] + (Core(n, 0, false, compact) + more);
    assert w + (lead + tag) == (w + lead) + tag;
    NodesSkipSpace(w + lead, tag);
    ElementRoundTrip(n, 0, false, compact, more);
    TagOfElement(n, 0, false, compact, more);
  }

  /** Text up to the element behind it. */
  lemma TopText(w: seq<byte>, ns: seq<Node>, first: bool, compact: bool)
    requires (w == [] || w == [LF]) && GoodNodes(ns) && |ns| > 1 && ns[0].Text?
    ensures ParseNodes(w + PrintTop(ns, first, compact))
      == Prepend(Text(w + ns[0].text + Lead(0, first, compact)), ParseNodes([] + PrintTop(ns[1..], first, compact)))
  {
    var tag := TopTag(ns, first, compact);
    LeadIsLine(first, compact);
    var lead := Lead(0, first, compact);
    hide *;
    FirstIsGood(ns);
    TextUpToTag(w, ns[0].text, lead, tag, compact);
    assert [] + PrintTop(ns[1..], first, compact) == PrintTop(ns[1..], first, compact);
  }

  lemma FirstIsGood(ns: seq<Node>)
    requires GoodNodes(ns) && ns != []
    ensures GoodNode(ns[0])
  {
  }

  lemma {:induction false} TextUpToTag(w: seq<byte>, text: seq<byte>, v: seq<byte>, tag: seq<byte>, compact: bool)
    requires (w == [] || w == [LF]) && (v == [] || v == [LF]) && GoodNode(Text(text)) && |tag| > 1 && tag[0] == LT
    ensures ParseNodes(w + (Escape(text, true) + (v + tag))) == Prepend(Text(w + text + v), ParseNodes(v + tag))
  {
    hide *;
    var around := Text(w + text + v);
    EscapeAround(w, text, v);
    GoodAround(w, text, v);
    TextIsEscaped(around, compact);
    LineIsSpace(v);
    OneText(around, 0, false, compact, tag);
    NodesSkipSpace(v, tag);
    RegroupText(w, Escape(text, true), v, tag);
  }

  lemma RegroupText(a: seq<byte>, b: seq<byte>, c: seq<byte>, d: seq<byte>)
    ensures a + (b + (c + d)) == (a + b + c) + d
  {
  }

  lemma LineIsSpace(w: seq<byte>)
    requires w == [] || w == [LF]
    ensures AllSpace(w)
  {
  }

  lemma TextIsEscaped(n: Node, compact: bool)
    requires n.Text?
    ensures PrintNode(n, 0, false, false, compact) == Escape(n.text, true)
  {
  }

  /** The tag behind text at the top. */
  lemma TopTag(ns: seq<Node>, first: bool, compact: bool) returns (tag: seq<byte>)
    requires GoodNodes(ns) && |ns| > 1 && ns[0].Text?
    ensures |tag| > 1 && tag[0] == LT
    ensures PrintTop(ns[1..], first, compact) == Lead(0, first, compact) + tag
    ensures PrintTop(ns, first, compact) == Escape(ns[0].text, true) + (Lead(0, first, compact) + tag)
  {
    hide Core, Lead, GoodNode, LastLine, Inner;
    var n, more := ns[1], PrintTop(ns[2..], false, compact);
    assert n.Element? && ns[1..][0] == n && ns[1..][1..] == ns[2..];
    CoreIsPrinted(n, 0, false, first, compact, more);
    CoreIsThere(n, 0, false, compact);
    tag := [LT] + (Core(n, 0, false, compact) + (LastLine(0, compact) + more));
  }

  lemma LeadIsLine(quiet: bool, compact: bool)
    ensures Lead(0, quiet, compact) == if quiet || compact then [] else [LF]
  {
  }

  lemma EscapeAround(w: seq<byte>, text: seq<byte>, v: seq<byte>)
    requires (w == [] || w == [LF]) && (v == [] || v == [LF])
    ensures Escape(w + text + v, true) == w + Escape(text, true) + v
  {
    EscapeConcat(w + text, v, true);
    EscapeConcat(w, text, true);
    LineIsItself(w);
    LineIsItself(v);
  }

  lemma LineIsItself(w: seq<byte>)
    requires w == [] || w == [LF]
    ensures Escape(w, true) == w
  {
  }

  lemma GoodAround(w: seq<byte>, text: seq<byte>, v: seq<byte>)
    requires (w == [] || w == [LF]) && (v == [] || v == [LF]) && GoodNode(Text(text))
    ensures GoodNode(Text(w + text + v))
  {
    var k :| 0 <= k < |text| && !IsSpace(text[k]);
    assert (w + text + v)[|w| + k] == text[k];
  }

  /** Behind the last text no tag comes. */
  lemma TextAtEnd(w: seq<byte>, text: seq<byte>, first: bool, compact: bool)
    requires (w == [] || w == [LF]) && !AllSpace(text)
    ensures ParseNodes(w + PrintTop([Text(text)], first, compact)).NoNodes?
  {
    hide Escape, Value, ParseElement, PrintTop;
    var raw := w + Escape(text, true);
    OnlyText(text, first, compact);
    LineIsItself(w);
    EscapedIsPlain(text, true);
    NotBlank(text);
    var k :| 0 <= k < |Escape(text, true)| && !IsSpace(Escape(text, true)[k]);
    assert raw[|w| + k] == Escape(text, true)[k];
    SkipsToText(raw, []);
    NoTagThere(raw);
    assert raw + [] == raw;
  }

  lemma TextIsGood(n: Node)
    requires GoodNode(n) && n.Text?
    ensures !AllSpace(n.text)
  {
  }

  lemma OnlyText(text: seq<byte>, first: bool, compact: bool)
    ensures PrintTop([Text(text)], first, compact) == Escape(text, true)
  {
    var ns := [Text(text)];
    assert ns[1..] == [];
  }

  lemma {:induction false} NoTagThere(s: seq<byte>)
    requires Lacks(s, LT)
    ensures ParseText(s, LT) == None
  {
    if s != [] { NoTagThere(s[1..]); }
  }

  /** What becomes of good documents: nothing if they end with text, else the same but for line
    * breaks around text at the top. */
  lemma DocumentRead(doc: seq<Node>, compact: bool)
    requires GoodNodes(doc) && doc != []
    ensures var r := Parse(PrintDocument(doc, compact));
      if EndsWithText(doc) then !r.Document? else r == Document(AsRead([], doc, true, compact))
  {
    hide ParseNodes, PrintTop, GoodNode, AsRead, StartsWith, SkipWhiteSpace;
    var text := PrintDocument(doc, compact);
    TopRead([], doc, true, compact);
    assert [] + text == text;
    if !EndsWithText(doc) {
      HasTag(doc, true, compact);
      TagStays(text);
    }
  }

  lemma {:induction false} HasTag(ns: seq<Node>, first: bool, compact: bool)
    requires ns != [] && ns[|ns| - 1].Element?
    ensures LT in PrintTop(ns, first, compact)
    decreases |ns|
  {
    hide PrintNode;
    if ns[0].Element? {
      CoreIsPrinted(ns[0], 0, false, first, compact, []);
      var one := PrintNode(ns[0], 0, false, first, compact);
      hide *;
      assert one + [] == one;
      TopStarts(ns, first, compact);
    } else {
      HasTag(ns[1..], first, compact);
    }
  }

  lemma TopStarts(ns: seq<Node>, first: bool, compact: bool)
    requires ns != []
    ensures PrintTop(ns, first, compact) == PrintNode(ns[0], 0, false, first, compact) + PrintTop(ns[1..], first && ns[0].Text?, compact)
  {
  }

  lemma {:induction false} TagStays(s: seq<byte>)
    requires LT in s
    ensures LT in SkipWhiteSpace(s) && SkipByteOrderMark(SkipWhiteSpace(s)) != []
  {
    if IsSpace(s[0]) { TagStays(s[1..]); }
  }

  /** Only the last node may not be text; with indentation no other than the first may be. */
  predicate TopFits(doc: seq<Node>, compact: bool) {
    doc != [] && doc[|doc| - 1].Element? && (compact || forall i | 0 < i < |doc| :: doc[i].Element?)
  }

  lemma {:induction false} AsReadExactly(w: seq<byte>, ns: seq<Node>, first: bool, compact: bool)
    requires NoTwoTexts(ns) && w == if first || compact then [] else LastLine(0, compact)
    ensures AsRead(w, ns, first, compact) == ns
      <==> compact || forall i | 0 <= i < |ns| :: ns[i].Element? || (first && i == 0)
    decreases |ns|
  {
    LeadIsLine(first, compact);
    hide Lead;
    if ns != [] {
      var rest := ns[1..];
      assert forall i | 0 <= i < |rest| :: rest[i] == ns[i + 1];
      assert ns == [ns[0]] + rest;
      if ns[0].Element? {
        AsReadExactly(LastLine(0, compact), rest, false, compact);
        SameParts(ns[0], rest, ns[0], AsRead(LastLine(0, compact), rest, false, compact));
      } else {
        var text := Text(w + ns[0].text + if first || compact then [] else [LF]);
        SameParts(ns[0], rest, text, AsRead([], rest, first, compact));
        if first || compact {
          assert w + ns[0].text + [] == ns[0].text;
          AsReadExactly([], rest, first, compact);
          assert rest != [] ==> rest[0] == ns[1] && ns[1].Element?;
        } else {
          assert |text.text| > |ns[0].text|;
        }
      }
    }
  }

  lemma SameParts(m: Node, ms: seq<Node>, n: Node, ns: seq<Node>)
    ensures [n] + ns == [m] + ms <==> n == m && ns == ms
  {
    if [n] + ns == [m] + ms {
      assert ([n] + ns)[0] == n && ([n] + ns)[1..] == ns;
      assert ([m] + ms)[0] == m && ([m] + ms)[1..] == ms;
    }
  }

  /** Printing a document and parsing the result gives the same document, compact or indented. */
  lemma RoundTrip(doc: seq<Node>, compact: bool)
    requires GoodNodes(doc) && TopFits(doc, compact)
    ensures Parse(PrintDocument(doc, compact)) == Document(doc)
  {
    hide Parse, PrintDocument, GoodNode, AsRead;
    DocumentRead(doc, compact);
    AsReadExactly([], doc, true, compact);
  }
}
