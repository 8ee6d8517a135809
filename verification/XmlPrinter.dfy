/** Documents and how they are printed: once by structure, and once as the printer does it, which
  * remembers only whether a tag is still open, how deep it is, and where text was written. */
module XmlPrinter {
  import opened Bytes
  import opened XmlText

  datatype Attribute = Attribute(name: seq<byte>, value: seq<byte>)

  datatype Node = Element(name: seq<byte>, attributes: seq<Attribute>, children: seq<Node>)
                | Text(text: seq<byte>)

  // ---- what is printed ----

  function Spaces(depth: nat): (s: seq<byte>)
    ensures AllSpace(s)
  {
    if depth == 0 then [] else Spaces(depth - 1) + [SPACE, SPACE, SPACE, SPACE]
  }

  /** A new line, indented. */
  function NewLine(depth: nat): (s: seq<byte>)
    ensures AllSpace(s)
  {
    [LF] + Spaces(depth)
  }

  function PrintAttribute(a: Attribute): seq<byte> {
    [SPACE] + a.name + [EQUALS, QUOT] + Escape(a.value, false) + [QUOT]
  }

  function PrintAttributes(attributes: seq<Attribute>): seq<byte> {
    if attributes == [] then []
    else PrintAttributes(attributes[..|attributes| - 1]) + PrintAttribute(attributes[|attributes| - 1])
  }

  predicate HasText(n: Node) {
    n.Text? || exists i | 0 <= i < |n.children| :: HasText(n.children[i])
  }

  /** Where lines must not be broken: within an element that has text, from its first text on
    * until an element with text of its own ends. */
  function QuietAfter(quiet: bool, n: Node): bool {
    if n.Text? then true else quiet && !HasText(n)
  }

  function QuietAfterAll(quiet: bool, ns: seq<Node>): bool {
    if ns == [] then quiet else QuietAfter(QuietAfterAll(quiet, ns[..|ns| - 1]), ns[|ns| - 1])
  }

  /** The white space in front of a tag. */
  function Lead(depth: nat, quiet: bool, compact: bool): (s: seq<byte>)
    ensures AllSpace(s)
  {
    if quiet || compact then [] else NewLine(depth)
  }

  /** How a start tag begins. */
  function OpenTag(name: seq<byte>, depth: nat, quiet: bool, compact: bool): seq<byte> {
    Lead(depth, quiet, compact) + ([LT] + name)
  }

  /** The end of the start tag if anything follows. */
  function Inner(children: seq<Node>, depth: nat, quiet: bool, compact: bool): seq<byte>
    decreases children, 2
  {
    if children == [] then [] else [GT] + PrintNodes(children, depth, quiet, compact)
  }

  /** The end tag, or the end of a tag that has none. */
  function EndTag(name: seq<byte>, sealed: bool, depth: nat, quiet: bool, compact: bool): seq<byte> {
    if sealed then Lead(depth, quiet, compact) + ([LT, SLASH] + name + [GT]) else [SLASH, GT]
  }

  function LastLine(depth: nat, compact: bool): seq<byte> {
    if depth == 0 && !compact then [LF] else []
  }

  function PrintNode(n: Node, depth: nat, quiet: bool, first: bool, compact: bool): seq<byte>
    decreases n, 0
  {
    match n
    case Text(text) => Escape(text, true)
    case Element(name, attributes, children) =>
      OpenTag(name, depth, quiet || first, compact) + PrintAttributes(attributes)
      + Inner(children, depth + 1, quiet, compact)
      + EndTag(name, children != [], depth, QuietAfterAll(quiet, children), compact) + LastLine(depth, compact)
  }

  /** Nodes below the top. */
  function PrintNodes(ns: seq<Node>, depth: nat, quiet: bool, compact: bool): seq<byte>
    decreases ns, 1
  {
    if ns == [] then []
    else
      var init := ns[..|ns| - 1];
      PrintNodes(init, depth, quiet, compact) + PrintNode(ns[|ns| - 1], depth, QuietAfterAll(quiet, init), false, compact)
  }

  /** Nodes at the top. Only the very first element does not start on a new line; text does not keep
    * lines from being broken there. */
  function PrintTop(ns: seq<Node>, first: bool, compact: bool): seq<byte>
    decreases ns, 1
  {
    if ns == [] then []
    else PrintNode(ns[0], 0, false, first, compact) + PrintTop(ns[1..], first && ns[0].Text?, compact)
  }

  /** A whole document. */
  function PrintDocument(doc: seq<Node>, compact: bool): seq<byte> {
    PrintTop(doc, true, compact)
  }

  // ---- the printer ----

  class XmlPrinter {
    var elementJustOpened: bool
    var firstElement: bool
    var depth: nat
    var textDepth: int
    const compactMode: bool
    var stack: seq<seq<byte>>
    var buffer: seq<byte>

    constructor (compact: bool)
      ensures compactMode == compact && !elementJustOpened && firstElement && depth == 0 && textDepth == -1
      ensures stack == [] && buffer == []
    {
      elementJustOpened, firstElement, depth, textDepth := false, true, 0, -1;
      compactMode := compact;
      stack, buffer := [], [];
    }

    predicate Valid()
      reads this
    {
      |stack| == depth && -1 <= textDepth < depth && (depth > 0 ==> !firstElement) && (elementJustOpened ==> depth > 0)
    }

    predicate Quiet()
      reads this
    {
      textDepth >= 0
    }

    /** What closes the start tag that is still open. */
    function Seal(): seq<byte>
      reads this
    {
      if elementJustOpened then [GT] else []
    }

    method Print(s: seq<byte>)
      modifies this`buffer
      ensures buffer == old(buffer) + s
    {
      buffer := buffer + s;
    }

    method PrintSpace(depth: nat)
      modifies this`buffer
      ensures buffer == old(buffer) + Spaces(depth)
    {
      for i := 0 to depth
        invariant buffer == old(buffer) + Spaces(i)
      {
        Print([SPACE, SPACE, SPACE, SPACE]);
      }
    }

    /** Looks for runs of bytes between special characters: `p` is printed up to, `q` looked at. */
    method PrintString(s: seq<byte>, restricted: bool)
      modifies this`buffer
      ensures buffer == old(buffer) + Escape(s, restricted)
    {
      hide Escape, EscapeOne;
      var p, q := 0, 0;
      EscapeNothing(s, restricted, buffer);
      while q < |s|
        invariant 0 <= p <= q <= |s| && buffer == old(buffer) + Escape(s[..p], restricted)
        invariant forall i | p <= i < q :: !IsSpecial(s[i], restricted)
      {
        if IsSpecial(s[q], restricted) {
          EscapeRun(s, p, q, restricted);
          assert old(buffer) + Escape(s[..p], restricted) + s[p..q] == old(buffer) + (Escape(s[..p], restricted) + s[p..q]);
          PrintRun(s, p, q);
          EscapeNext(s, q, restricted);
          PrintEntity(s[q], restricted);
          p := q + 1;
        }
        q := q + 1;
      }
      EscapeRun(s, p, q, restricted);
      assert s[..|s|] == s;
      if q > p { Print(s[p..]); }
    }

    /** Character by character. */
    method PrintRun(s: seq<byte>, p0: nat, q: nat)
      requires p0 <= q <= |s|
      modifies this`buffer
      ensures buffer == old(buffer) + s[p0..q]
    {
      var p := p0;
      while p < q
        invariant p0 <= p <= q && buffer == old(buffer) + s[p0..p]
      {
        assert s[p0..p + 1] == s[p0..p] + [s[p]];
        Print([s[p]]);
        p := p + 1;
      }
    }

    method PrintEntity(c: byte, restricted: bool)
      requires IsSpecial(c, restricted)
      modifies this`buffer
      ensures buffer == old(buffer) + EscapeOne(c, restricted)
    {
      Print([AMP] + EntityName(c) + [SEMICOLON]);
    }

    method SealElement()
      modifies this`elementJustOpened, this`buffer
      ensures !elementJustOpened && buffer == old(buffer) + [GT]
    {
      elementJustOpened := false;
      Print([GT]);
    }

    method OpenElement(name: seq<byte>)
      requires Valid()
      modifies this
      ensures Valid() && elementJustOpened && !firstElement && depth == old(depth) + 1 && textDepth == old(textDepth)
      ensures stack == old(stack) + [name]
      ensures buffer == old(buffer) + old(Seal()) + OpenTag(name, old(depth), old(Quiet()) || old(firstElement), compactMode)
    {
      hide Lead;
      if elementJustOpened { SealElement(); }
      ghost var sealed := buffer;
      stack := stack + [name];
      BreakLine(firstElement);
      Print([LT] + name);
      elementJustOpened := true;
      firstElement := false;
      depth := depth + 1;
    }

    method BreakLine(skip: bool)
      modifies this`buffer
      ensures buffer == old(buffer) + Lead(depth, Quiet() || skip, compactMode)
    {
      hide Spaces;
      if textDepth < 0 && !skip && !compactMode {
        Print([LF]);
        PrintSpace(depth);
      }
    }

    method PushAttribute(a: Attribute)
      requires elementJustOpened
      modifies this`buffer
      ensures buffer == old(buffer) + PrintAttribute(a)
    {
      Print([SPACE] + a.name + [EQUALS, QUOT]);
      PrintString(a.value, false);
      Print([QUOT]);
    }

    method CloseElement()
      requires Valid() && depth > 0
      modifies this
      ensures Valid() && !elementJustOpened && firstElement == old(firstElement) && depth == old(depth) - 1
      ensures textDepth == if old(textDepth) == depth then -1 else old(textDepth)
      ensures stack == old(stack)[..depth]
      ensures buffer == old(buffer)
        + EndTag(old(stack)[depth], !old(elementJustOpened), depth, old(Quiet()), compactMode) + LastLine(depth, compactMode)
    {
      hide Lead;
      depth := depth - 1;
      var name := stack[|stack| - 1];
      stack := stack[..|stack| - 1];
      EndElement(name);
      if textDepth == depth { textDepth := -1; }
      if depth == 0 && !compactMode { Print([LF]); }
      elementJustOpened := false;
    }

    method EndElement(name: seq<byte>)
      modifies this`buffer
      ensures buffer == old(buffer) + EndTag(name, !elementJustOpened, depth, Quiet(), compactMode)
    {
      hide Lead;
      ghost var before := buffer;
      if elementJustOpened {
        Print([SLASH, GT]);
      } else {
        BreakLine(false);
        Print([LT, SLASH] + name + [GT]);
        assert buffer == before + (Lead(depth, Quiet(), compactMode) + ([LT, SLASH] + name + [GT]));
      }
    }

    method PushText(text: seq<byte>)
      requires Valid()
      modifies this
      ensures Valid() && !elementJustOpened && firstElement == old(firstElement) && depth == old(depth) && stack == old(stack)
      ensures textDepth == depth - 1
      ensures buffer == old(buffer) + old(Seal()) + Escape(text, true)
    {
      textDepth := depth - 1;
      if elementJustOpened { SealElement(); }
      PrintString(text, true);
    }
  
    /** Prints a node and everything below it. */
    method Accept(n: Node)
      requires Valid()
      modifies this
      ensures Valid() && !elementJustOpened && depth == old(depth) && stack == old(stack)
      ensures firstElement == (n.Text? && old(firstElement))
      ensures textDepth == TextDepthAfter(old(textDepth), depth - 1, n)
      ensures buffer == old(buffer) + old(Seal()) + PrintNode(n, depth, old(Quiet()), old(firstElement), compactMode)
      decreases n, 1
    {
      if n.Text? {
        PushText(n.text);
      } else {
        AcceptElement(n);
      }
    }

    method AcceptElement(n: Node)
      requires Valid() && n.Element?
      modifies this
      ensures Valid() && !elementJustOpened && !firstElement && depth == old(depth) && stack == old(stack)
      ensures textDepth == TextDepthAfter(old(textDepth), depth - 1, n)
      ensures buffer == old(buffer) + old(Seal()) + PrintNode(n, depth, old(Quiet()), old(firstElement), compactMode)
      decreases n, 0
    {
      hide HasText, OpenTag, PrintAttributes, Inner, EndTag, LastLine, TextDepthAfterAll, QuietAfterAll, TextDepthAfter, PrintNode;
      ghost var quiet, first, sealed := Quiet(), firstElement, buffer + Seal();
      OpenElement(n.name);
      PushAttributes(n.attributes);
      QuietIs(textDepth, depth - 1, n.children);
      AcceptAll(n.children);
      CloseElement();
      assert stack == old(stack);
      ClosedDepth(old(textDepth), depth, n);
      ElementParts(sealed, n, depth, quiet, first, compactMode);
    }

    method PushAttributes(attributes: seq<Attribute>)
      requires Valid() && elementJustOpened
      modifies this`buffer
      ensures buffer == old(buffer) + PrintAttributes(attributes)
    {
      for i := 0 to |attributes|
        invariant buffer == old(buffer) + PrintAttributes(attributes[..i])
      {
        assert attributes[..i + 1][..i] == attributes[..i];
        PushAttribute(attributes[i]);
      }
      assert attributes[..|attributes|] == attributes;
    }

    method AcceptAll(children: seq<Node>)
      requires Valid() && elementJustOpened
      modifies this
      ensures Valid() && depth == old(depth) && stack == old(stack) && elementJustOpened == (children == []) && !firstElement
      ensures textDepth == TextDepthAfterAll(old(textDepth), depth - 1, children)
      ensures buffer == old(buffer) + Inner(children, depth, old(Quiet()), compactMode)
      decreases children, 2
    {
      hide TextDepthAfter, PrintNode, Inner;
      ghost var quiet := Quiet();
      NoInner(buffer, depth, quiet, compactMode);
      for i := 0 to |children|
        invariant Valid() && depth == old(depth) && stack == old(stack) && elementJustOpened == (i == 0) && !firstElement
        invariant textDepth == TextDepthAfterAll(old(textDepth), depth - 1, children[..i])
        invariant buffer == old(buffer) + Inner(children[..i], depth, quiet, compactMode)
      {
        assert children[..i + 1][..i] == children[..i];
        QuietIs(old(textDepth), depth - 1, children[..i]);
        InnerNext(old(buffer), children, i, depth, quiet, compactMode);
        Accept(children[i]);
      }
      assert children[..|children|] == children;
    }
  }

  lemma ElementParts(before: seq<byte>, n: Node, depth: nat, quiet: bool, first: bool, compact: bool)
    requires n.Element?
    ensures before + OpenTag(n.name, depth, quiet || first, compact) + PrintAttributes(n.attributes)
        + Inner(n.children, depth + 1, quiet, compact)
        + EndTag(n.name, n.children != [], depth, QuietAfterAll(quiet, n.children), compact) + LastLine(depth, compact)
      == before + PrintNode(n, depth, quiet, first, compact)
  {
    hide OpenTag, PrintAttributes, Inner, EndTag, LastLine;
    Regroup(before, OpenTag(n.name, depth, quiet || first, compact), PrintAttributes(n.attributes),
            Inner(n.children, depth + 1, quiet, compact),
            EndTag(n.name, n.children != [], depth, QuietAfterAll(quiet, n.children), compact), LastLine(depth, compact));
  }

  lemma NoInner(before: seq<byte>, depth: nat, quiet: bool, compact: bool)
    ensures before + Inner([], depth, quiet, compact) == before
  {
  }

  lemma InnerNext(before: seq<byte>, children: seq<Node>, i: nat, depth: nat, quiet: bool, compact: bool)
    requires i < |children|
    ensures before + Inner(children[..i], depth, quiet, compact) + (if i == 0 then [GT] else [])
        + PrintNode(children[i], depth, QuietAfterAll(quiet, children[..i]), false, compact)
      == before + Inner(children[..i + 1], depth, quiet, compact)
  {
    hide PrintNode;
    assert children[..i + 1][..i] == children[..i];
    var one := PrintNode(children[i], depth, QuietAfterAll(quiet, children[..i]), false, compact);
    if i == 0 {
      assert before + [] + [GT] + one == before + ([GT] + ([] + one));
    } else {
      var many := PrintNodes(children[..i], depth, quiet, compact);
      assert before + ([GT] + many) + [] + one == before + ([GT] + (many + one));
    }
  }

  lemma Regroup(a: seq<byte>, b: seq<byte>, c: seq<byte>, d: seq<byte>, e: seq<byte>, f: seq<byte>)
    ensures a + b + c + d + e + f == a + (b + c + d + e + f)
  {
  }

  /** A whole document, with a new printer. */
  method PrintAll(doc: seq<Node>, compact: bool) returns (text: seq<byte>)
    ensures text == PrintDocument(doc, compact)
  {
    hide PrintNode, HasText;
    var printer := new XmlPrinter(compact);
    assert doc[0..] == doc;
    for i := 0 to |doc|
      invariant fresh(printer) && printer.Valid() && printer.depth == 0 && printer.compactMode == compact
      invariant !printer.elementJustOpened
      invariant printer.buffer + PrintTop(doc[i..], printer.firstElement, compact) == PrintDocument(doc, compact)
    {
      assert doc[i..][0] == doc[i] && doc[i..][1..] == doc[i + 1..];
      ghost var before, one := printer.buffer, PrintNode(doc[i], 0, false, printer.firstElement, compact);
      ghost var rest := PrintTop(doc[i + 1..], printer.firstElement && doc[i].Text?, compact);
      assert before + [] == before && before + (one + rest) == before + one + rest;
      printer.Accept(doc[i]);
    }
    text := printer.buffer;
    assert text + [] == text;
  }

  /** The depth of the element whose text is being printed, or -1. */
  function TextDepthAfter(textDepth: int, depth: int, n: Node): int {
    if n.Text? then depth else if HasText(n) then -1 else textDepth
  }

  function TextDepthAfterAll(textDepth: int, depth: int, ns: seq<Node>): int {
    if ns == [] then textDepth
    else TextDepthAfter(TextDepthAfterAll(textDepth, depth, ns[..|ns| - 1]), depth, ns[|ns| - 1])
  }

  lemma {:induction false} QuietIs(textDepth: int, depth: int, ns: seq<Node>)
    requires depth >= 0
    ensures TextDepthAfterAll(textDepth, depth, ns) >= 0 <==> QuietAfterAll(textDepth >= 0, ns)
  {
    if ns != [] { QuietIs(textDepth, depth, ns[..|ns| - 1]); }
  }

  lemma {:induction false} DepthsSeen(textDepth: int, depth: int, ns: seq<Node>)
    ensures var t := TextDepthAfterAll(textDepth, depth, ns);
      if exists i | 0 <= i < |ns| :: HasText(ns[i]) then t == -1 || t == depth else t == textDepth
  {
    hide HasText;
    if ns != [] {
      var init := ns[..|ns| - 1];
      DepthsSeen(textDepth, depth, init);
      assert forall i | 0 <= i < |init| :: ns[i] == init[i];
      TextIsText(ns[|ns| - 1]);
    }
  }

  lemma TextIsText(n: Node)
    ensures n.Text? ==> HasText(n)
  {
  }

  /** When an element ends, its own text and that of elements within are forgotten. */
  lemma ClosedDepth(textDepth: int, depth: nat, n: Node)
    requires n.Element? && textDepth < depth
    ensures var t := TextDepthAfterAll(textDepth, depth, n.children);
      (if t == depth then -1 else t) == TextDepthAfter(textDepth, depth - 1, n)
  {
    DepthsSeen(textDepth, depth, n.children);
  }

  lemma EscapeNothing(s: seq<byte>, restricted: bool, before: seq<byte>)
    ensures before + Escape(s[..0], restricted) == before
  {
  }

  lemma EscapeNext(s: seq<byte>, p: nat, restricted: bool)
    requires p < |s|
    ensures Escape(s[..p + 1], restricted) == Escape(s[..p], restricted) + EscapeOne(s[p], restricted)
  {
    assert s[..p + 1] == s[..p] + [s[p]];
    EscapeConcat(s[..p], [s[p]], restricted);
    assert [s[p]][1..] == [];
  }

  lemma {:induction false} EscapeRun(s: seq<byte>, p: nat, q: nat, restricted: bool)
    requires p <= q <= |s| && forall i | p <= i < q :: !IsSpecial(s[i], restricted)
    ensures Escape(s[..q], restricted) == Escape(s[..p], restricted) + s[p..q]
  {
    if p < q {
      EscapeRun(s, p, q - 1, restricted);
      EscapeNext(s, q - 1, restricted);
      OneIsItself(s[q - 1], restricted);
      hide *;
      assert s[p..q] == s[p..q - 1] + [s[q - 1]];
    }
  }

  lemma OneIsItself(c: byte, restricted: bool)
    ensures !IsSpecial(c, restricted) ==> EscapeOne(c, restricted) == [c]
  {
  }
}
