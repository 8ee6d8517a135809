/** Line ends do not matter (section 2.11 of XML 1.0). */
module XmlLines {
  import opened Bytes
  import opened XmlText
  import opened XmlPrinter
  import opened XmlParser
  import opened XmlRoundTrip
  import opened XmlExact

  predicate IsBreak(c: byte) { c == LF || c == CR }

  /** How many bytes the line end at the front has: a carriage return and a line feed, in either
    * order, are one. */
  function BreakLength(s: seq<byte>): (n: nat)
    requires s != [] && IsBreak(s[0])
    ensures 1 <= n <= |s|
  {
    if |s| > 1 && IsBreak(s[1]) && s[1] != s[0] then 2 else 1
  }

  /** Every line end as a line feed. */
  function Normalized(s: seq<byte>): (r: seq<byte>)
    ensures |r| <= |s| && (r == [] <==> s == [])
    ensures s != [] ==> r[0] == if IsBreak(s[0]) then LF else s[0]
    decreases |s|
  {
    if s == [] then []
    else if IsBreak(s[0]) then [LF] + Normalized(s[BreakLength(s)..])
    else [s[0]] + Normalized(s[1..])
  }

  /** No line end goes across the place between them. */
  predicate Apart(a: seq<byte>, b: seq<byte>) {
    a == [] || b == [] || !IsBreak(a[|a| - 1]) || !IsBreak(b[0])
  }

  lemma {:induction false} NormalizedConcat(a: seq<byte>, b: seq<byte>)
    requires Apart(a, b)
    ensures Normalized(a + b) == Normalized(a) + Normalized(b)
    decreases |a|
  {
    if a == [] {
      assert a + b == b;
    } else {
      var n := SameFirst(a, b);
      NormalizedConcat(a[n..], b);
      FirstNormalized(a);
      FirstNormalized(a + b);
      hide Normalized;
    }
  }

  /** How many bytes the first character has. */
  function FirstLength(s: seq<byte>): (n: nat)
    requires s != []
    ensures 1 <= n <= |s|
  {
    if IsBreak(s[0]) then BreakLength(s) else 1
  }

  lemma FirstNormalized(s: seq<byte>)
    requires s != []
    ensures Normalized(s) == [if IsBreak(s[0]) then LF else s[0]] + Normalized(s[FirstLength(s)..])
  {
  }

  lemma SameFirst(a: seq<byte>, b: seq<byte>) returns (n: nat)
    requires a != [] && Apart(a, b)
    ensures n == FirstLength(a) == FirstLength(a + b) && (a + b)[0] == a[0] && (a + b)[n..] == a[n..] + b && Apart(a[n..], b)
  {
    n := FirstLength(a);
    if |a| > 1 { assert (a + b)[1] == a[1]; }
    if n < |a| { assert a[n..][|a| - n - 1] == a[|a| - 1]; }
  }

  lemma {:induction false} PlainNormalized(s: seq<byte>)
    requires CR !in s
    ensures Normalized(s) == s
  {
    if s != [] {
      PlainNormalized(s[1..]);
      assert s == [s[0]] + s[1..];
    }
  }

  // ---- values ----

  lemma {:induction false} EntityNormalized(s: seq<byte>, pattern: seq<byte>)
    requires LF !in pattern && CR !in pattern
    ensures StartsWith(Normalized(s), pattern) <==> StartsWith(s, pattern)
    decreases |pattern|
  {
    if pattern != [] {
      if s != [] && s[0] == pattern[0] {
        EntityNormalized(s[1..], pattern[1..]);
        StartsNext(s, pattern);
        StartsNext(Normalized(s), pattern);
        assert Normalized(s)[1..] == Normalized(s[1..]);
      } else {
        StartsFirst(s, pattern);
        StartsFirst(Normalized(s), pattern);
      }
    }
  }

  lemma StartsFirst(s: seq<byte>, pattern: seq<byte>)
    requires pattern != []
    ensures StartsWith(s, pattern) ==> s != [] && s[0] == pattern[0]
  {
    if StartsWith(s, pattern) { assert s[..|pattern|][0] == s[0]; }
  }

  lemma StartsNext(s: seq<byte>, pattern: seq<byte>)
    requires pattern != [] && s != [] && s[0] == pattern[0]
    ensures StartsWith(s, pattern) <==> StartsWith(s[1..], pattern[1..])
  {
    if StartsWith(s, pattern) { assert s[1..][..|pattern| - 1] == s[..|pattern|][1..]; }
    if StartsWith(s[1..], pattern[1..]) {
      assert s[..|pattern|] == [s[0]] + s[1..][..|pattern| - 1];
      assert pattern == [pattern[0]] + pattern[1..];
    }
  }

  lemma EntitySame(s: seq<byte>)
    ensures EntityAt(Normalized(s)) == EntityAt(s)
  {
    EntityNormalized(s, EntityName(QUOT) + [SEMICOLON]);
    EntityNormalized(s, EntityName(AMP) + [SEMICOLON]);
    EntityNormalized(s, EntityName(APOS) + [SEMICOLON]);
    EntityNormalized(s, EntityName(LT) + [SEMICOLON]);
    EntityNormalized(s, EntityName(GT) + [SEMICOLON]);
  }

  /** The next character is the same, and so is what is left. */
  lemma ReadNormalized(s: seq<byte>)
    requires s != []
    ensures var t := Normalized(s);
      var one, two := ReadOne(s, TEXT), ReadOne(t, TEXT);
      && (one.Some? <==> two.Some?)
      && (one.Some? ==> one.value.c == two.value.c && t[two.value.length..] == Normalized(s[one.value.length..]))
  {
    var t := Normalized(s);
    if IsBreak(s[0]) {
      var rest := s[BreakLength(s)..];
      assert t[1..] == Normalized(rest);
    } else {
      assert t[1..] == Normalized(s[1..]);
      if s[0] == AMP {
        EntitySame(s[1..]);
        if EntityAt(s[1..]).Some? { EntityPassed(s, EntityAt(s[1..]).value); }
      }
    }
  }

  lemma EntityPassed(s: seq<byte>, c: byte)
    requires s != [] && s[0] == AMP && StartsWith(s[1..], EntityName(c) + [SEMICOLON])
    ensures var n := |EntityName(c)| + 2;
      n <= |s| && n <= |Normalized(s)| && Normalized(s)[n..] == Normalized(s[n..])
  {
    var n := |EntityName(c)| + 2;
    EntityIsPlain(c);
    var a, b := s[..n], s[n..];
    assert a == [AMP] + (EntityName(c) + [SEMICOLON]);
    hide EntityName, Normalized;
    assert s == a + b;
    NormalizedConcat(a, b);
    PlainNormalized(a);
  }

  /** Line ends do not matter for a value. */
  lemma {:induction false} DecodeNormalized(s: seq<byte>)
    ensures Decode(Normalized(s), TEXT) == Decode(s, TEXT)
    decreases |s|
  {
    hide ReadOne;
    if s != [] {
      ReadNormalized(s);
      var one := ReadOne(s, TEXT);
      if one.Some? { DecodeNormalized(s[one.value.length..]); }
    }
  }

  lemma {:induction false} DecodePlainText(s: seq<byte>)
    requires CR !in s && AMP !in s
    ensures Decode(s, TEXT) == Some(s)
  {
    if s != [] {
      DecodePlainText(s[1..]);
      assert s == [s[0]] + s[1..];
    }
  }

  /** Whichever way a line is ended, its value has one line feed there. */
  lemma LineEnds(a: seq<byte>, b: seq<byte>)
    requires CR !in a && LF !in a && AMP !in a && CR !in b && LF !in b && AMP !in b
    ensures Value(a + [CR, LF] + b, TEXT) == Some(a + [LF] + b) == Value(a + [LF] + b, TEXT)
    ensures Value(a + [CR] + b, TEXT) == Some(a + [LF] + b) == Value(a + [LF, CR] + b, TEXT)
  {
    LineEnd(a, [CR, LF], b);
    LineEnd(a, [CR], b);
    LineEnd(a, [LF, CR], b);
    LineEnd(a, [LF], b);
  }

  predicate IsLineEnd(e: seq<byte>) { e == [LF] || e == [CR] || e == [CR, LF] || e == [LF, CR] }

  lemma LineEnd(a: seq<byte>, e: seq<byte>, b: seq<byte>)
    requires CR !in a && LF !in a && AMP !in a && CR !in b && LF !in b && AMP !in b && IsLineEnd(e)
    ensures Value(a + e + b, TEXT) == Some(a + [LF] + b)
  {
    hide Decode, Value;
    var s := a + e + b;
    NormalizedConcat(a + e, b);
    NormalizedConcat(a, e);
    PlainNormalized(a);
    PlainNormalized(b);
    OneLineEnd(e);
    DecodePlainText(a + [LF] + b);
    DecodeNormalized(s);
    CleanValue(s, TEXT);
  }

  lemma OneLineEnd(e: seq<byte>)
    requires IsLineEnd(e)
    ensures Normalized(e) == [LF]
  {
    assert e[BreakLength(e)..] == [];
  }

  lemma ValueNormalized(s: seq<byte>)
    requires Clean(s)
    ensures Value(Normalized(s), TEXT) == Value(s, TEXT)
  {
    hide Clean, Value, Decode;
    DecodesClean(s);
    DecodeNormalized(s);
    CleanValue(s, TEXT);
    CleanValue(Normalized(s), TEXT);
  }

  // ---- pieces of text ----

  lemma {:induction false} SkipNormalized(s: seq<byte>)
    ensures SkipWhiteSpace(Normalized(s)) == Normalized(SkipWhiteSpace(s))
    decreases |s|
  {
    if s != [] && IsSpace(s[0]) {
      if IsBreak(s[0]) {
        var n := BreakLength(s);
        assert Normalized(s)[1..] == Normalized(s[n..]);
        SkipNormalized(s[n..]);
        if n == 2 { assert s[1..][1..] == s[2..]; }
      } else {
        assert Normalized(s)[1..] == Normalized(s[1..]);
        SkipNormalized(s[1..]);
      }
    }
  }

  lemma {:induction false} LacksNormalized(s: seq<byte>, c: byte)
    requires !IsBreak(c) && Lacks(s, c)
    ensures Lacks(Normalized(s), c)
    decreases |s|
  {
    if s != [] { LacksNormalized(s[if IsBreak(s[0]) then BreakLength(s) else 1..], c); }
  }

  lemma {:induction false} TextLacks(s: seq<byte>, c: byte)
    ensures var r := ParseText(s, c); Lacks(if r.Some? then r.value.text else s, c)
  {
    if s != [] && s[0] != c { TextLacks(s[1..], c); }
  }

  lemma {:induction false} NoTextThere(s: seq<byte>, c: byte)
    requires Lacks(s, c)
    ensures ParseText(s, c) == None
  {
    if s != [] { NoTextThere(s[1..], c); }
  }

  lemma TextNormalized(s: seq<byte>, c: byte)
    requires !IsBreak(c)
    ensures ParseText(Normalized(s), c) == match ParseText(s, c)
      case None => None
      case Some(p) => Some(Piece(Normalized(p.text), Normalized(p.rest)))
  {
    hide ParseText;
    TextLacks(s, c);
    TextFound(s, c);
    match ParseText(s, c)
    case None =>
      LacksNormalized(s, c);
      NoTextThere(Normalized(s), c);
    case Some(p) =>
      NormalizedConcat(p.text, [c] + p.rest);
      NormalizedConcat([c], p.rest);
      OneNormalized(c);
      LacksNormalized(p.text, c);
      ParsesText(Normalized(p.text), c, Normalized(p.rest));
  }

  lemma OneNormalized(c: byte)
    requires !IsBreak(c)
    ensures Normalized([c]) == [c]
  {
    assert [c][1..] == [];
  }

  lemma {:induction false} NameEnds(s: seq<byte>, n: nat)
    requires n <= |s|
    ensures var m := NameLength(s, n);
      m < |s| ==> !(if m == 0 then IsNameStart(s[m]) else IsNameChar(s[m]))
    decreases |s| - n
  {
    if n < |s| && (if n == 0 then IsNameStart(s[n]) else IsNameChar(s[n])) { NameEnds(s, n + 1); }
  }

  lemma NameIsPlain(name: seq<byte>)
    requires IsName(name)
    ensures CR !in name && !IsBreak(name[|name| - 1])
  {
  }

  lemma NameNormalized(s: seq<byte>)
    ensures ParseName(Normalized(s)) == match ParseName(s)
      case None => None
      case Some(p) => Some(Piece(p.text, Normalized(p.rest)))
  {
    hide NameLength, IsName;
    NameFound(s);
    NameEnds(s, 0);
    match ParseName(s)
    case None => NoName(Normalized(s));
    case Some(p) =>
      assert p.rest != [] ==> p.rest[0] == s[|p.text|];
      NameIsPlain(p.text);
      NormalizedConcat(p.text, p.rest);
      PlainNormalized(p.text);
      ParsesName(p.text, Normalized(p.rest));
  }

  lemma NoName(s: seq<byte>)
    requires s == [] || !IsNameStart(s[0])
    ensures ParseName(s) == None
  {
  }

  // ---- attributes ----

  function OfAttribute(r: AttributeResult): AttributeResult {
    match r
    case GotAttribute(a, rest) => GotAttribute(a, Normalized(rest))
    case NoAttribute(_) => r
  }

  /** What is left behind a first character that ends no line. */
  lemma NormalizedTail(s: seq<byte>)
    requires s != [] && !IsBreak(s[0])
    ensures Normalized(s)[1..] == Normalized(s[1..])
  {
  }

  lemma ParseValueNormalized(name: seq<byte>, s: seq<byte>)
    requires Clean(s)
    ensures ParseValue(name, Normalized(s)) == OfAttribute(ParseValue(name, s))
  {
    hide Value, ParseText, Clean;
    if s != [] && (s[0] == QUOT || s[0] == APOS) {
      NormalizedTail(s);
      CleanSuffix(s, 1);
      TextIsClean(s[1..], s[0]);
      TextNormalized(s[1..], s[0]);
      var raw := ParseText(s[1..], s[0]);
      if raw.Some? { ValueNormalized(raw.value.text); }
    }
  }

  lemma EqualsNormalized(name: seq<byte>, s: seq<byte>)
    requires Clean(s)
    ensures ParseEquals(name, Normalized(s)) == OfAttribute(ParseEquals(name, s))
  {
    hide ParseValue, Clean, SkipWhiteSpace;
    SkipNormalized(s);
    var t := SkipWhiteSpace(s);
    if t != [] && t[0] == EQUALS {
      NormalizedTail(t);
      SkippedIsClean(s);
      CleanSuffix(t, 1);
      SkipNormalized(t[1..]);
      SkippedIsClean(t[1..]);
      ParseValueNormalized(name, SkipWhiteSpace(t[1..]));
    }
  }

  lemma AttributeNormalized(s: seq<byte>)
    requires Clean(s)
    ensures ParseAttribute(Normalized(s)) == OfAttribute(ParseAttribute(s))
  {
    hide ParseEquals, Clean, ParseName;
    NameNormalized(s);
    NameFound(s);
    var name := ParseName(s);
    if name.Some? {
      assert s[|name.value.text|..] == name.value.rest;
      CleanSuffix(s, |name.value.text|);
      EqualsNormalized(name.value.text, name.value.rest);
    }
  }

  function OfAttributes(r: AttributesResult): AttributesResult {
    match r
    case GotAttributes(attributes, closed, rest) => GotAttributes(attributes, closed, Normalized(rest))
    case NoAttributes(_) => r
  }

  lemma SecondNormalized(s: seq<byte>)
    requires s != [] && !IsBreak(s[0])
    ensures |Normalized(s)| > 1 <==> |s| > 1
    ensures |s| > 1 ==> Normalized(s)[1] == if IsBreak(s[1]) then LF else s[1]
    ensures |s| > 1 && !IsBreak(s[1]) ==> Normalized(s)[2..] == Normalized(s[2..])
  {
    NormalizedTail(s);
    if |s| > 1 {
      assert Normalized(s)[1] == Normalized(s[1..])[0];
      if !IsBreak(s[1]) {
        NormalizedTail(s[1..]);
        assert s[1..][1..] == s[2..] && Normalized(s)[1..][1..] == Normalized(s)[2..];
      }
    }
  }

  lemma {:induction false} AttributesNormalized(s: seq<byte>, before: seq<Attribute>)
    requires Clean(s)
    ensures ParseAttributes(Normalized(s), before) == OfAttributes(ParseAttributes(s, before))
    decreases |s|
  {
    hide ParseAttribute, HasAttribute, Clean, SkipWhiteSpace, Normalized;
    SkipNormalized(s);
    SkippedIsClean(s);
    var t := SkipWhiteSpace(s);
    Shorter(s);
    if t != [] {
      if IsNameStart(t[0]) {
        AttributeNormalized(t);
        AttributeFound(t, true);
        var one := ParseAttribute(t);
        if one.GotAttribute? && !HasAttribute(before, one.attribute.name) {
          AttributesNormalized(one.rest, before + [one.attribute]);
        }
      } else if t[0] == SLASH || t[0] == GT {
        SecondNormalized(t);
        NormalizedTail(t);
      }
    }
  }

  // ---- elements and nodes ----

  function OfElement(r: ElementResult): ElementResult {
    match r
    case GotElement(e, closing, endTag, rest) => GotElement(e, closing, endTag, Normalized(rest))
    case NoElement(_) => r
  }

  function OfNodes(r: NodesResult): NodesResult {
    match r
    case UpToTag(nodes, endTag, rest) => UpToTag(nodes, endTag, Normalized(rest))
    case UpToEnd(_) => r
    case NoNodes(_) => r
  }

  lemma {:induction false} ElementNormalized(s: seq<byte>)
    requires Clean(s)
    ensures ParseElement(Normalized(s)) == OfElement(ParseElement(s))
    decreases |s|, 0
  {
    hide ParseNodes, ParseAttributes, ParseName, Clean, SkipWhiteSpace, Normalized;
    var t := SkipWhiteSpace(s);
    Shorter(s);
    SkipNormalized(s);
    SkippedIsClean(s);
    var isEnd := t != [] && t[0] == SLASH;
    if isEnd {
      CleanSuffix(t, 1);
      NormalizedTail(t);
    }
    var u := if isEnd then t[1..] else t;
    NameNormalized(u);
    NameFound(u);
    var name := ParseName(u);
    if name.Some? {
      assert u[|name.value.text|..] == name.value.rest;
      CleanSuffix(u, |name.value.text|);
      NoAttributesFound(true);
      AttributesAreFound(name.value.rest, [], true);
      AttributesNormalized(name.value.rest, []);
      var found := ParseAttributes(name.value.rest, []);
      if found.GotAttributes? && !(found.rest == [] || found.closed || isEnd) {
        NodesNormalized(found.rest);
      }
    }
  }

  function OfKind(k: Kind): Kind {
    match k
    case ElementThere(rest) => ElementThere(Normalized(rest))
    case _ => k
  }

  lemma IdentifyNormalized(s: seq<byte>)
    ensures Identify(Normalized(s)) == OfKind(Identify(s))
  {
    hide SkipWhiteSpace, Normalized;
    SkipNormalized(s);
    var t := SkipWhiteSpace(s);
    if t != [] && t[0] == LT {
      SecondNormalized(t);
      NormalizedTail(t);
    }
  }

  lemma PrependNormalized(n: Node, r: NodesResult)
    ensures Prepend(n, OfNodes(r)) == OfNodes(Prepend(n, r))
  {
  }

  lemma {:induction false} NodesNormalized(s: seq<byte>)
    requires Clean(s)
    ensures ParseNodes(Normalized(s)) == OfNodes(ParseNodes(s))
    decreases |s|, 1
  {
    hide ParseElement, ParseText, Value, Clean, Prepend, Identify, Normalized;
    IdentifyNormalized(s);
    match Identify(s)
    case NothingThere =>
    case OtherThere =>
    case TextThere => TextNodeNormalized(s);
    case ElementThere(t) =>
      ElementAhead(s);
      ElementNormalized(t);
      ElementIsFound(t, true);
      var e := ParseElement(t);
      if e.GotElement? && Follows(e) {
        NodesNormalized(e.rest);
        PrependNormalized(e.element, ParseNodes(e.rest));
      }
  }

  lemma ElementAhead(s: seq<byte>)
    requires Clean(s) && Identify(s).ElementThere?
    ensures Clean(Identify(s).rest) && |Identify(s).rest| < |s|
  {
    hide Clean;
    SkippedIsClean(s);
    CleanSuffix(SkipWhiteSpace(s), 1);
  }

  lemma {:induction false} TextNodeNormalized(s: seq<byte>)
    requires Clean(s) && Identify(s).TextThere? && Identify(Normalized(s)).TextThere?
    ensures ParseNodes(Normalized(s)) == OfNodes(ParseNodes(s))
    decreases |s|, 0
  {
    hide ParseElement, ParseText, Value, Clean, Prepend, Identify, Normalized;
    TextNormalized(s, LT);
    var raw := ParseText(s, LT);
    if raw.Some? && raw.value.rest != [] {
      var rest := raw.value.rest;
      TextFound(s, LT);
      TextIsClean(s, LT);
      PlainIsClean([LT]);
      CleanConcat([LT], rest);
      ValueNormalized(raw.value.text);
      var value := Value(raw.value.text, TEXT);
      StartIsText(s, raw.value.text, rest);
      NormalizedConcat([LT], rest);
      OneNormalized(LT);
      if value.Some? {
        NodesNormalized([LT] + rest);
        PrependNormalized(Text(value.value), ParseNodes([LT] + rest));
      }
    }
  }

  // ---- documents ----

  /** Line ends do not matter for a document all of whose entities are known. */
  lemma ParseNormalized(s: seq<byte>)
    requires Clean(s)
    ensures Parse(Normalized(s)) == Parse(s)
  {
    hide ParseNodes, Clean, SkipWhiteSpace;
    SkipNormalized(s);
    var t := SkipWhiteSpace(s);
    var bom: seq<byte> := [0xef, 0xbb, 0xbf];
    EntityNormalized(t, bom);
    if StartsWith(t, bom) {
      assert t == bom + t[3..];
      NormalizedConcat(bom, t[3..]);
      PlainNormalized(bom);
    }
    NodesNormalized(s);
  }

  lemma {:induction false} CleanNormalized(s: seq<byte>)
    requires Clean(Normalized(s))
    ensures Clean(s)
    decreases |s|
  {
    hide EntityAt;
    if s != [] {
      var n := if IsBreak(s[0]) then BreakLength(s) else 1;
      var t := Normalized(s);
      assert t[1..] == Normalized(s[n..]);
      CleanSuffix(t, 1);
      CleanNormalized(s[n..]);
      if s[0] == AMP {
        assert t[0] == AMP;
        EntitySame(s[1..]);
      }
      CleanBehind(s, n);
    }
  }

  lemma CleanBehind(s: seq<byte>, n: nat)
    requires 1 <= n <= 2 && n <= |s| && Clean(s[n..]) && s[0] != 0 && (s[0] == AMP ==> n == 1 && EntityAt(s[1..]).Some?)
    requires n == 2 ==> s[1] != 0 && s[1] != AMP
    ensures Clean(s)
  {
    hide EntityAt;
    forall i | 0 <= i < |s| && s[i] == AMP ensures EntityAt(s[i + 1..]).Some? {
      if i >= n {
        assert s[n..][i - n] == AMP && s[n..][i - n + 1..] == s[i + 1..];
      }
    }
    forall i | 0 <= i < |s| ensures s[i] != 0 {
      if i >= n { assert s[n..][i - n] == s[i]; }
    }
  }

  lemma {:induction false} GoodIsNamed(n: Node)
    requires GoodNode(n)
    ensures Named(n)
  {
    if n.Element? {
      forall i | 0 <= i < |n.children| ensures Named(n.children[i]) { GoodIsNamed(n.children[i]); }
    }
  }

  /** A printed document comes back also if its lines are ended in any other way, here and there. */
  lemma LineEndsDoNotMatter(doc: seq<Node>, compact: bool, text: seq<byte>)
    requires (forall i | 0 <= i < |doc| :: ZeroFree(doc[i])) && GoodNodes(doc) && TopFits(doc, compact)
    requires Normalized(text) == PrintDocument(doc, compact)
    ensures Parse(text) == Document(doc)
  {
    hide Parse, PrintDocument, GoodNode, Clean, ZeroFree;
    RoundTrip(doc, compact);
    forall i | 0 <= i < |doc| ensures Named(doc[i]) { GoodIsNamed(doc[i]); }
    DocumentIsClean(doc, compact);
    CleanNormalized(text);
    ParseNormalized(text);
  }

  // ---- all line ends written in one way ----

  /** Every line feed written as `e`. */
  function WithEnds(s: seq<byte>, e: seq<byte>): seq<byte> {
    if s == [] then [] else (if s[0] == LF then e else [s[0]]) + WithEnds(s[1..], e)
  }

  lemma {:induction false} WithEndsNormalized(s: seq<byte>, e: seq<byte>)
    requires CR !in s && IsLineEnd(e)
    ensures Normalized(WithEnds(s, e)) == s
  {
    if s != [] {
      var rest := WithEnds(s[1..], e);
      WithEndsNormalized(s[1..], e);
      assert s == [s[0]] + s[1..];
      if s[0] == LF {
        NextEnd(s[1..], e);
        assert BreakLength(e + rest) == |e| && (e + rest)[|e|..] == rest;
      } else {
        assert ([s[0]] + rest)[1..] == rest;
      }
    }
  }

  lemma NextEnd(s: seq<byte>, e: seq<byte>)
    requires CR !in s && IsLineEnd(e)
    ensures var t := WithEnds(s, e); t != [] && IsBreak(t[0]) ==> t[0] == e[0]
  {
  }

  lemma {:induction false} EscapedHasNoCr(s: seq<byte>, restricted: bool)
    requires CR !in s
    ensures CR !in Escape(s, restricted)
  {
    if s != [] {
      EntityIsPlain(s[0]);
      EscapedHasNoCr(s[1..], restricted);
    }
  }

  lemma {:induction false} SpacesHaveNoCr(depth: nat)
    ensures CR !in Spaces(depth)
  {
    if depth > 0 { SpacesHaveNoCr(depth - 1); }
  }

  lemma TagsHaveNoCr(name: seq<byte>, sealed: bool, depth: nat, quiet: bool, compact: bool)
    requires IsName(name)
    ensures CR !in OpenTag(name, depth, quiet, compact) && CR !in EndTag(name, sealed, depth, quiet, compact)
    ensures CR !in LastLine(depth, compact)
  {
    SpacesHaveNoCr(depth);
    NameIsPlain(name);
    hide Spaces;
  }

  lemma AttributeHasNoCr(a: Attribute)
    requires IsName(a.name) && CR !in a.value
    ensures CR !in PrintAttribute(a)
  {
    NameIsPlain(a.name);
    EscapedHasNoCr(a.value, false);
    hide Escape, IsName;
  }

  lemma {:induction false} AttributesHaveNoCr(attributes: seq<Attribute>)
    requires GoodAttributes(attributes)
    ensures CR !in PrintAttributes(attributes)
  {
    hide PrintAttribute, IsName;
    if attributes != [] {
      var n := |attributes| - 1;
      AttributesHaveNoCr(attributes[..n]);
      AttributeHasNoCr(attributes[n]);
    }
  }

  lemma {:induction false} NodeHasNoCr(n: Node, depth: nat, quiet: bool, first: bool, compact: bool)
    requires GoodNode(n)
    ensures CR !in PrintNode(n, depth, quiet, first, compact)
    decreases n, 0
  {
    hide OpenTag, EndTag, LastLine, PrintAttributes, GoodAttributes, IsName, PrintNodes;
    if n.Text? {
      EscapedHasNoCr(n.text, true);
    } else {
      TagsHaveNoCr(n.name, true, depth, quiet || first, compact);
      TagsHaveNoCr(n.name, n.children != [], depth, QuietAfterAll(quiet, n.children), compact);
      AttributesHaveNoCr(n.attributes);
      NodesHaveNoCr(n.children, depth + 1, quiet, compact);
    }
  }

  lemma {:induction false} NodesHaveNoCr(ns: seq<Node>, depth: nat, quiet: bool, compact: bool)
    requires forall i | 0 <= i < |ns| :: GoodNode(ns[i])
    ensures CR !in PrintNodes(ns, depth, quiet, compact)
    decreases ns, 1
  {
    hide PrintNode, GoodNode, QuietAfterAll;
    if ns != [] {
      var n := |ns| - 1;
      NodesHaveNoCr(ns[..n], depth, quiet, compact);
      NodeHasNoCr(ns[n], depth, QuietAfterAll(quiet, ns[..n]), false, compact);
    }
  }

  lemma {:induction false} TopHasNoCr(ns: seq<Node>, first: bool, compact: bool)
    requires forall i | 0 <= i < |ns| :: GoodNode(ns[i])
    ensures CR !in PrintTop(ns, first, compact)
    decreases ns, 1
  {
    hide PrintNode, GoodNode;
    if ns != [] {
      NodeHasNoCr(ns[0], 0, false, first, compact);
      TopHasNoCr(ns[1..], first && ns[0].Text?, compact);
    }
  }

  /** So it does with all lines ended by a carriage return, or by it and a line feed. */
  lemma WithAnyEnds(doc: seq<Node>, compact: bool, e: seq<byte>)
    requires (forall i | 0 <= i < |doc| :: ZeroFree(doc[i])) && GoodNodes(doc) && TopFits(doc, compact) && IsLineEnd(e)
    ensures Parse(WithEnds(PrintDocument(doc, compact), e)) == Document(doc)
  {
    hide Parse, PrintTop, GoodNode, ZeroFree, WithEnds, IsLineEnd, TopFits;
    TopHasNoCr(doc, true, compact);
    WithEndsNormalized(PrintDocument(doc, compact), e);
    LineEndsDoNotMatter(doc, compact, WithEnds(PrintDocument(doc, compact), e));
  }
}
