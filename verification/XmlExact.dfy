/** Exactly which documents come back from printing and parsing. */
module XmlExact {
  import opened Bytes
  import opened XmlText
  import opened XmlPrinter
  import opened XmlParser
  import opened XmlRoundTrip

  // ---- text in which every ampersand begins an entity ----

  /** No zero byte, which would end it, and no ampersand but those of known entities. */
  predicate Clean(s: seq<byte>) {
    0 !in s && forall i | 0 <= i < |s| && s[i] == AMP :: EntityAt(s[i + 1..]).Some?
  }

  lemma CleanSuffix(s: seq<byte>, k: nat)
    requires Clean(s) && k <= |s|
    ensures Clean(s[k..])
  {
    var t := s[k..];
    forall i | 0 <= i < |t| && t[i] == AMP ensures EntityAt(t[i + 1..]).Some? {
      assert t[i + 1..] == s[k + i + 1..];
    }
  }

  /** Entities end before a bracket or a quote. */
  lemma CleanPrefix(s: seq<byte>, k: nat)
    requires Clean(s) && k < |s| && (s[k] == LT || s[k] == QUOT || s[k] == APOS)
    ensures Clean(s[..k])
  {
    hide EntityAt;
    var t := s[..k];
    forall i | 0 <= i < |t| && t[i] == AMP ensures EntityAt(t[i + 1..]).Some? {
      assert s[i] == AMP;
      assert s[i + 1..][..k - i - 1] == t[i + 1..];
      EntityBefore(s[i + 1..], k - i - 1);
    }
  }

  lemma EntityBefore(s: seq<byte>, k: nat)
    requires EntityAt(s).Some? && k < |s| && (s[k] == LT || s[k] == QUOT || s[k] == APOS)
    ensures EntityAt(s[..k]).Some?
  {
    var e := EntityName(EntityAt(s).value) + [SEMICOLON];
    EntityIsPlain(EntityAt(s).value);
    assert s[..|e|] == e;
    assert forall i | 0 <= i < |e| :: s[i] == e[i] && (e[i] == SEMICOLON || 97 <= e[i] <= 122);
    assert s[..k][..|e|] == e;
  }

  lemma EntityIsPlain(c: byte)
    ensures forall i | 0 <= i < |EntityName(c)| :: 97 <= EntityName(c)[i] <= 122
  {
  }

  lemma CleanConcat(a: seq<byte>, b: seq<byte>)
    requires Clean(a) && Clean(b)
    ensures Clean(a + b)
  {
    hide EntityAt;
    var s := a + b;
    forall i | 0 <= i < |s| && s[i] == AMP ensures EntityAt(s[i + 1..]).Some? {
      if i < |a| {
        assert s[i + 1..] == a[i + 1..] + b;
        EntityAndMore(a[i + 1..], b);
      } else {
        assert s[i + 1..] == b[i - |a| + 1..];
      }
    }
  }

  lemma EntityAndMore(s: seq<byte>, more: seq<byte>)
    requires EntityAt(s).Some?
    ensures EntityAt(s + more).Some?
  {
    var e := EntityName(EntityAt(s).value) + [SEMICOLON];
    assert (s + more)[..|e|] == s[..|e|];
  }

  lemma PlainIsClean(s: seq<byte>)
    requires 0 !in s && AMP !in s
    ensures Clean(s)
  {
  }

  // ---- what such text decodes to ----

  lemma ReadsClean(s: seq<byte>)
    requires Clean(s) && s != []
    ensures var one := ReadOne(s, TEXT);
      one.Some? && one.value.c != 0 && one.value.c != CR
    ensures IsSpace(s[0]) <==> IsSpace(ReadOne(s, TEXT).value.c)
    ensures var one := ReadOne(s, TEXT).value;
      one.length <= |s| && (IsSpace(s[0]) ==> AllSpace(s[..one.length]))
  {
    if s[0] == AMP {
      assert EntityAt(s[1..]).Some?;
      NoHash(s[1..]);
    }
  }

  lemma NoHash(s: seq<byte>)
    requires EntityAt(s).Some?
    ensures s != [] && s[0] != HASH
    ensures var c := EntityAt(s).value; c == QUOT || c == AMP || c == APOS || c == LT || c == GT
  {
    var e := EntityName(EntityAt(s).value) + [SEMICOLON];
    EntityIsPlain(EntityAt(s).value);
    assert s[0] == s[..|e|][0] == e[0];
  }

  lemma {:induction false} DecodesClean(s: seq<byte>)
    requires Clean(s)
    ensures Decode(s, TEXT).Some? && Printable(Decode(s, TEXT).value)
    ensures AllSpace(Decode(s, TEXT).value) ==> AllSpace(s)
    decreases |s|
  {
    hide ReadOne, Clean, EntityAt;
    if s != [] {
      ReadsClean(s);
      var one := ReadOne(s, TEXT).value;
      CleanSuffix(s, one.length);
      DecodesClean(s[one.length..]);
      var value := Decode(s, TEXT).value;
      assert value == [one.c] + Decode(s[one.length..], TEXT).value;
      if AllSpace(value) {
        assert IsSpace(value[0]);
        assert forall i | 1 <= i < |value| :: value[i] == value[1..][i - 1];
        assert value[1..] == Decode(s[one.length..], TEXT).value;
        assert s == s[..one.length] + s[one.length..];
      }
    }
  }

  lemma ValueIsClean(s: seq<byte>)
    requires Clean(s)
    ensures Value(s, TEXT).Some? && Printable(Value(s, TEXT).value)
    ensures AllSpace(Value(s, TEXT).value) ==> AllSpace(s)
  {
    hide Clean, Value, Decode;
    DecodesClean(s);
    CleanValue(s, TEXT);
  }

  // ---- what the parser finds ----

  /** Valid names and different attributes: of whatever was parsed. */
  predicate NamedAttributes(attributes: seq<Attribute>) {
    && (forall i | 0 <= i < |attributes| :: IsName(attributes[i].name))
    && (forall i, j | 0 <= i < j < |attributes| :: attributes[i].name != attributes[j].name)
  }

  predicate Named(n: Node) {
    n.Element? ==>
      IsName(n.name) && NamedAttributes(n.attributes) && forall i | 0 <= i < |n.children| :: Named(n.children[i])
  }

  /** What holds of attributes and nodes that were parsed, from clean text or any. */
  predicate AttributesFound(attributes: seq<Attribute>, clean: bool) {
    NamedAttributes(attributes) && (clean ==> GoodAttributes(attributes))
  }

  predicate NodesFound(ns: seq<Node>, clean: bool) {
    (forall i | 0 <= i < |ns| :: Named(ns[i])) && (clean ==> GoodNodes(ns))
  }

  lemma {:induction false} NameChars(s: seq<byte>, n: nat)
    requires n <= |s| && (n > 0 ==> IsNameStart(s[0])) && forall i | 0 <= i < n :: IsNameChar(s[i])
    ensures var m := NameLength(s, n); (m > 0 ==> IsNameStart(s[0])) && forall i | 0 <= i < m :: IsNameChar(s[i])
    decreases |s| - n
  {
    if n < |s| && (if n == 0 then IsNameStart(s[n]) else IsNameChar(s[n])) { NameChars(s, n + 1); }
  }

  lemma NameFound(s: seq<byte>)
    ensures var r := ParseName(s); r.Some? ==> IsName(r.value.text) && s == r.value.text + r.value.rest
  {
    NameChars(s, 0);
  }

  lemma {:induction false} SpaceSkipped(s: seq<byte>)
    ensures exists k | 0 <= k <= |s| :: SkipWhiteSpace(s) == s[k..]
  {
    if s != [] && IsSpace(s[0]) {
      SpaceSkipped(s[1..]);
      var k :| 0 <= k <= |s[1..]| && SkipWhiteSpace(s[1..]) == s[1..][k..];
      assert s[1..][k..] == s[k + 1..];
    } else {
      assert s[0..] == s;
    }
  }

  lemma SkippedIsClean(s: seq<byte>)
    requires Clean(s)
    ensures Clean(SkipWhiteSpace(s))
  {
    hide Clean, SkipWhiteSpace;
    SpaceSkipped(s);
    var k :| 0 <= k <= |s| && SkipWhiteSpace(s) == s[k..];
    CleanSuffix(s, k);
  }

  lemma {:induction false} TextFound(s: seq<byte>, c: byte)
    ensures var r := ParseText(s, c);
      r.Some? ==> s == r.value.text + ([c] + r.value.rest)
  {
    if s != [] && s[0] != c {
      TextFound(s[1..], c);
      assert s == [s[0]] + s[1..];
    } else if s != [] {
      assert s == [] + ([c] + s[1..]);
    }
  }

  lemma TextIsClean(s: seq<byte>, c: byte)
    requires Clean(s) && (c == LT || c == QUOT || c == APOS)
    ensures var r := ParseText(s, c); r.Some? ==> Clean(r.value.text) && Clean(r.value.rest)
  {
    hide Clean, ParseText;
    TextFound(s, c);
    var r := ParseText(s, c);
    if r.Some? {
      var k := |r.value.text|;
      assert s[..k] == r.value.text && s[k] == c && s[k + 1..] == r.value.rest;
      CleanPrefix(s, k);
      CleanSuffix(s, k + 1);
    }
  }

  // ---- attributes ----

  lemma AttributeFound(s: seq<byte>, clean: bool)
    requires clean ==> Clean(s)
    ensures var r := ParseAttribute(s);
      r.GotAttribute? ==> IsName(r.attribute.name) && (clean ==> Printable(r.attribute.value) && Clean(r.rest))
  {
    hide ParseEquals, Clean, IsName, Printable;
    NameFound(s);
    var name := ParseName(s);
    if name.Some? {
      if clean {
        assert s[|name.value.text|..] == name.value.rest;
        CleanSuffix(s, |name.value.text|);
      }
      EqualsFound(name.value.text, name.value.rest, clean);
    }
  }

  lemma EqualsFound(name: seq<byte>, s: seq<byte>, clean: bool)
    requires clean ==> Clean(s)
    ensures var r := ParseEquals(name, s);
      r.GotAttribute? ==> r.attribute.name == name && (clean ==> Printable(r.attribute.value) && Clean(r.rest))
  {
    hide ParseValue, Clean, Printable, SkipWhiteSpace;
    var t := SkipWhiteSpace(s);
    if t != [] && t[0] == EQUALS {
      if clean {
        SkippedIsClean(s);
        CleanSuffix(t, 1);
        SkippedIsClean(t[1..]);
      }
      ValueFound(name, SkipWhiteSpace(t[1..]), clean);
    }
  }

  lemma ValueFound(name: seq<byte>, s: seq<byte>, clean: bool)
    requires clean ==> Clean(s)
    ensures var r := ParseValue(name, s);
      r.GotAttribute? ==> r.attribute.name == name && (clean ==> Printable(r.attribute.value) && Clean(r.rest))
  {
    hide Value, ParseText, Clean, Printable;
    if clean && s != [] && (s[0] == QUOT || s[0] == APOS) {
      CleanSuffix(s, 1);
      TextIsClean(s[1..], s[0]);
      var raw := ParseText(s[1..], s[0]);
      if raw.Some? { ValueIsClean(raw.value.text); }
    }
  }

  lemma OneMoreFound(before: seq<Attribute>, a: Attribute, clean: bool)
    requires AttributesFound(before, clean) && IsName(a.name) && !HasAttribute(before, a.name) && (clean ==> Printable(a.value))
    ensures AttributesFound(before + [a], clean)
  {
    hide IsName, Printable;
  }

  lemma {:induction false} AttributesAreFound(s: seq<byte>, before: seq<Attribute>, clean: bool)
    requires (clean ==> Clean(s)) && AttributesFound(before, clean)
    ensures var r := ParseAttributes(s, before);
      r.GotAttributes? ==> AttributesFound(r.attributes, clean) && (clean ==> Clean(r.rest))
    decreases |s|
  {
    hide AttributesFound, ParseAttribute, HasAttribute, Clean, IsName, Printable, SkipWhiteSpace;
    var t := SkipWhiteSpace(s);
    Shorter(s);
    if clean { SkippedIsClean(s); }
    if t != [] && IsNameStart(t[0]) {
      AttributeFound(t, clean);
      var one := ParseAttribute(t);
      if one.GotAttribute? && !HasAttribute(before, one.attribute.name) {
        OneMoreFound(before, one.attribute, clean);
        AttributesAreFound(one.rest, before + [one.attribute], clean);
      }
    } else if clean {
      if |t| > 1 { CleanSuffix(t, 2); }
      if |t| > 0 { CleanSuffix(t, 1); }
    }
  }

  lemma Shorter(s: seq<byte>)
    ensures |SkipWhiteSpace(s)| <= |s|
  {
  }

  // ---- elements and nodes ----

  /** An element that was found: its children too, unless it is an end tag. */
  predicate ElementFound(r: ElementResult, clean: bool) {
    r.GotElement? ==>
      && r.element.Element? && IsName(r.element.name) && AttributesFound(r.element.attributes, clean)
      && NodesFound(r.element.children, clean)
  }

  predicate ResultFound(r: NodesResult, clean: bool) {
    !r.NoNodes? ==> NodesFound(r.nodes, clean)
  }

  lemma {:induction false} ElementIsFound(s: seq<byte>, clean: bool)
    requires clean ==> Clean(s)
    ensures ElementFound(ParseElement(s), clean)
    ensures clean && ParseElement(s).GotElement? ==> Clean(ParseElement(s).rest)
    decreases |s|, 0
  {
    hide ParseNodes, ParseAttributes, ParseName, AttributesFound, NodesFound, Clean, IsName, SkipWhiteSpace;
    var t := SkipWhiteSpace(s);
    Shorter(s);
    if clean { SkippedIsClean(s); }
    var isEnd := t != [] && t[0] == SLASH;
    if isEnd && clean { CleanSuffix(t, 1); }
    var u := if isEnd then t[1..] else t;
    NameFound(u);
    NoneFound(clean);
    var name := ParseName(u);
    if name.Some? {
      if clean {
        assert u[|name.value.text|..] == name.value.rest;
        CleanSuffix(u, |name.value.text|);
      }
      NoAttributesFound(clean);
      AttributesAreFound(name.value.rest, [], clean);
      var found := ParseAttributes(name.value.rest, []);
      if found.GotAttributes? && !(found.rest == [] || found.closed || isEnd) {
        NodesAreFound(found.rest, clean);
      }
    }
  }

  lemma NoneFound(clean: bool)
    ensures NodesFound([], clean)
  {
  }

  lemma NoAttributesFound(clean: bool)
    ensures AttributesFound([], clean)
  {
  }

  lemma PrependFound(n: Node, r: NodesResult, clean: bool)
    requires ResultFound(r, clean) && Named(n) && (clean ==> GoodNode(n))
    requires n.Text? ==> r.NoNodes? || r.nodes == [] || r.nodes[0].Element?
    ensures ResultFound(Prepend(n, r), clean)
  {
    hide Named, GoodNode;
    if !r.NoNodes? {
      var ns := [n] + r.nodes;
      assert forall i | 0 < i < |ns| :: ns[i] == r.nodes[i - 1];
    }
  }

  /** No text comes next at a tag. */
  lemma NoTextNext(s: seq<byte>)
    requires s != [] && s[0] == LT
    ensures var r := ParseNodes(s); r.NoNodes? || r.nodes == [] || r.nodes[0].Element?
  {
    hide ParseElement, ParseText;
    assert SkipWhiteSpace(s) == s;
  }

  lemma {:induction false} NodesAreFound(s: seq<byte>, clean: bool)
    requires clean ==> Clean(s)
    ensures ResultFound(ParseNodes(s), clean)
    ensures clean && ParseNodes(s).UpToTag? ==> Clean(ParseNodes(s).rest)
    decreases |s|, 1
  {
    hide ParseElement, ParseText, Value, Clean, NodesFound, Named, GoodNode, AttributesFound, IsName, Prepend;
    NoneFound(clean);
    match Identify(s)
    case NothingThere =>
    case OtherThere =>
    case TextThere => TextNodeFound(s, clean);
    case ElementThere(t) =>
      if clean {
        SkippedIsClean(s);
        CleanSuffix(SkipWhiteSpace(s), 1);
      }
      ElementIsFound(t, clean);
      var e := ParseElement(t);
      if e.GotElement? {
        ElementIsGood(e, clean);
        if Follows(e) {
          NodesAreFound(e.rest, clean);
          PrependFound(e.element, ParseNodes(e.rest), clean);
          PrependRest(e.element, ParseNodes(e.rest));
        }
      }
  }

  /** An element behind which the next node is looked for. */
  predicate Follows(e: ElementResult)
    requires e.GotElement? && e.element.Element?
  {
    && !e.closing.Closing? && !(e.endTag == [] && e.closing.Open?) && !(e.endTag != [] && !e.closing.Open?)
    && !(e.endTag != [] && e.endTag != e.element.name)
  }

  lemma ElementIsGood(r: ElementResult, clean: bool)
    requires r.GotElement? && ElementFound(r, clean)
    ensures Named(r.element) && (clean ==> GoodNode(r.element))
  {
    hide IsName;
  }

  lemma PrependRest(n: Node, r: NodesResult)
    ensures Prepend(n, r).UpToTag? <==> r.UpToTag?
    ensures r.UpToTag? ==> Prepend(n, r).rest == r.rest
  {
  }

  lemma {:induction false} TextNodeFound(s: seq<byte>, clean: bool)
    requires (clean ==> Clean(s)) && Identify(s).TextThere?
    ensures ResultFound(ParseNodes(s), clean)
    ensures clean && ParseNodes(s).UpToTag? ==> Clean(ParseNodes(s).rest)
    decreases |s|, 0
  {
    hide ParseElement, ParseText, Value, Clean, NodesFound, Named, GoodNode, Prepend;
    var raw := ParseText(s, LT);
    if raw.Some? && raw.value.rest != [] {
      TextFound(s, LT);
      if clean {
        TextIsClean(s, LT);
        PlainIsClean([LT]);
        CleanConcat([LT], raw.value.rest);
      }
      var value := Value(raw.value.text, TEXT);
      var next := [LT] + raw.value.rest;
      StartIsText(s, raw.value.text, raw.value.rest);
      if value.Some? {
        NodesAreFound(next, clean);
        NoTextNext(next);
        TextIsGood(s, raw.value.text, raw.value.rest, clean);
        PrependFound(Text(value.value), ParseNodes(next), clean);
        PrependRest(Text(value.value), ParseNodes(next));
      }
    }
  }

  lemma StartIsText(s: seq<byte>, raw: seq<byte>, rest: seq<byte>)
    requires s == raw + ([LT] + rest) && Identify(s).TextThere?
    ensures raw != [] && !AllSpace(raw)
  {
    assert SkipWhiteSpace([LT] + rest) == [LT] + rest;
    if AllSpace(raw) { SkipsSpace(raw, [LT] + rest); }
  }

  lemma TextIsGood(s: seq<byte>, raw: seq<byte>, rest: seq<byte>, clean: bool)
    requires (clean ==> Clean(raw)) && raw != [] && !AllSpace(raw) && Value(raw, TEXT).Some?
    ensures var n := Text(Value(raw, TEXT).value); Named(n) && (clean ==> GoodNode(n))
  {
    hide Value, Clean;
    if clean { ValueIsClean(raw); }
  }

  // ---- what is printed is clean ----

  predicate ZeroFreeAttributes(attributes: seq<Attribute>) {
    forall i | 0 <= i < |attributes| :: 0 !in attributes[i].name && 0 !in attributes[i].value
  }

  /** Strings end at their first zero byte, so they have none inside. */
  predicate ZeroFree(n: Node) {
    match n
    case Text(text) => 0 !in text
    case Element(name, attributes, children) =>
      0 !in name && ZeroFreeAttributes(attributes) && forall i | 0 <= i < |children| :: ZeroFree(children[i])
  }

  lemma {:induction false} EscapedIsClean(s: seq<byte>, restricted: bool)
    requires 0 !in s
    ensures Clean(Escape(s, restricted))
  {
    hide Clean, EscapeOne;
    if s == [] {
      PlainIsClean([]);
    } else {
      OneIsClean(s[0], restricted);
      EscapedIsClean(s[1..], restricted);
      CleanConcat(EscapeOne(s[0], restricted), Escape(s[1..], restricted));
    }
  }

  lemma OneIsClean(c: byte, restricted: bool)
    requires c != 0
    ensures Clean(EscapeOne(c, restricted))
  {
    var s := EscapeOne(c, restricted);
    if IsSpecial(c, restricted) {
      EntityIsPlain(c);
      EntityIsFound(c, []);
      assert s[1..] == EntityName(c) + [SEMICOLON] + [];
    }
  }

  lemma NameIsClean(name: seq<byte>)
    requires IsName(name) && 0 !in name
    ensures Clean(name)
  {
  }

  lemma SpaceIsClean(w: seq<byte>)
    requires AllSpace(w)
    ensures Clean(w)
  {
  }

  lemma AttributeIsClean(a: Attribute)
    requires IsName(a.name) && 0 !in a.name && 0 !in a.value
    ensures Clean(PrintAttribute(a))
  {
    hide Clean, Escape, IsName;
    NameIsClean(a.name);
    EscapedIsClean(a.value, false);
    PlainIsClean([SPACE]);
    PlainIsClean([EQUALS, QUOT]);
    PlainIsClean([QUOT]);
    CleanConcat([SPACE], a.name);
    CleanConcat([SPACE] + a.name, [EQUALS, QUOT]);
    CleanConcat([SPACE] + a.name + [EQUALS, QUOT], Escape(a.value, false));
    CleanConcat([SPACE] + a.name + [EQUALS, QUOT] + Escape(a.value, false), [QUOT]);
  }

  lemma {:induction false} AttributesAreClean(attributes: seq<Attribute>)
    requires NamedAttributes(attributes) && ZeroFreeAttributes(attributes)
    ensures Clean(PrintAttributes(attributes))
  {
    hide Clean, PrintAttribute, IsName;
    if attributes == [] {
      PlainIsClean([]);
    } else {
      var n := |attributes| - 1;
      AttributesAreClean(attributes[..n]);
      AttributeIsClean(attributes[n]);
      CleanConcat(PrintAttributes(attributes[..n]), PrintAttribute(attributes[n]));
    }
  }

  lemma {:induction false} NodeIsClean(n: Node, depth: nat, quiet: bool, first: bool, compact: bool)
    requires Named(n) && ZeroFree(n)
    ensures Clean(PrintNode(n, depth, quiet, first, compact))
    decreases n, 0
  {
    hide Clean, IsName, NamedAttributes, ZeroFreeAttributes, Lead, PrintNodes, PrintAttributes, Escape;
    if n.Text? {
      EscapedIsClean(n.text, true);
    } else {
      var name, lead := n.name, Lead(depth, quiet || first, compact);
      NameIsClean(name);
      AttributesAreClean(n.attributes);
      PlainIsClean([LT]);
      PlainIsClean([]);
      SpaceIsClean(lead);
      CleanConcat([LT], name);
      CleanConcat(lead, [LT] + name);
      CleanConcat(OpenTag(name, depth, quiet || first, compact), PrintAttributes(n.attributes));
      InnerIsClean(n, depth, quiet, compact);
      EndTagIsClean(name, n.children != [], depth, QuietAfterAll(quiet, n.children), compact);
      LastLineIsClean(depth, compact);
      hide OpenTag, Inner, EndTag, LastLine;
      var open := OpenTag(name, depth, quiet || first, compact) + PrintAttributes(n.attributes);
      var inner := Inner(n.children, depth + 1, quiet, compact);
      var end := EndTag(name, n.children != [], depth, QuietAfterAll(quiet, n.children), compact);
      CleanConcat(open, inner);
      CleanConcat(open + inner, end);
      CleanConcat(open + inner + end, LastLine(depth, compact));
    }
  }

  lemma {:induction false} InnerIsClean(n: Node, depth: nat, quiet: bool, compact: bool)
    requires n.Element? && Named(n) && ZeroFree(n)
    ensures Clean(Inner(n.children, depth + 1, quiet, compact))
    decreases n.children, 2
  {
    hide Clean, PrintNodes, IsName;
    PlainIsClean([]);
    PlainIsClean([GT]);
    NodesAreClean(n.children, depth + 1, quiet, compact);
    CleanConcat([GT], PrintNodes(n.children, depth + 1, quiet, compact));
  }

  lemma EndTagIsClean(name: seq<byte>, sealed: bool, depth: nat, quiet: bool, compact: bool)
    requires Clean(name)
    ensures Clean(EndTag(name, sealed, depth, quiet, compact))
  {
    hide Clean, Lead;
    var lead := Lead(depth, quiet, compact);
    SpaceIsClean(lead);
    PlainIsClean([SLASH, GT]);
    PlainIsClean([LT, SLASH]);
    PlainIsClean([GT]);
    CleanConcat([LT, SLASH], name);
    CleanConcat([LT, SLASH] + name, [GT]);
    CleanConcat(lead, [LT, SLASH] + name + [GT]);
  }

  lemma LastLineIsClean(depth: nat, compact: bool)
    ensures Clean(LastLine(depth, compact))
  {
  }

  lemma {:induction false} NodesAreClean(ns: seq<Node>, depth: nat, quiet: bool, compact: bool)
    requires forall i | 0 <= i < |ns| :: Named(ns[i]) && ZeroFree(ns[i])
    ensures Clean(PrintNodes(ns, depth, quiet, compact))
    decreases ns, 1
  {
    hide Clean, PrintNode, Named, ZeroFree, QuietAfterAll;
    if ns == [] {
      PlainIsClean([]);
    } else {
      var n := |ns| - 1;
      NodesAreClean(ns[..n], depth, quiet, compact);
      NodeIsClean(ns[n], depth, QuietAfterAll(quiet, ns[..n]), false, compact);
      CleanConcat(PrintNodes(ns[..n], depth, quiet, compact), PrintNode(ns[n], depth, QuietAfterAll(quiet, ns[..n]), false, compact));
    }
  }

  lemma {:induction false} TopIsClean(ns: seq<Node>, first: bool, compact: bool)
    requires forall i | 0 <= i < |ns| :: Named(ns[i]) && ZeroFree(ns[i])
    ensures Clean(PrintTop(ns, first, compact))
    decreases ns, 1
  {
    hide Clean, PrintNode, Named, ZeroFree;
    if ns == [] {
      PlainIsClean([]);
    } else {
      var later := first && ns[0].Text?;
      NodeIsClean(ns[0], 0, false, first, compact);
      TopIsClean(ns[1..], later, compact);
      CleanConcat(PrintNode(ns[0], 0, false, first, compact), PrintTop(ns[1..], later, compact));
    }
  }

  lemma DocumentIsClean(doc: seq<Node>, compact: bool)
    requires forall i | 0 <= i < |doc| :: Named(doc[i]) && ZeroFree(doc[i])
    ensures Clean(PrintDocument(doc, compact))
  {
    TopIsClean(doc, true, compact);
  }

  // ---- the class of documents ----

  /** A document comes back exactly if all its names are valid, no attribute is there twice, no text
    * is blank, behind another text, or has a carriage return in it, the last node at the top is an
    * element and, if lines are broken, at most the first one there is text. */
  lemma RoundTripExactly(doc: seq<Node>, compact: bool)
    requires forall i | 0 <= i < |doc| :: ZeroFree(doc[i])
    ensures Parse(PrintDocument(doc, compact)) == Document(doc) <==> GoodNodes(doc) && TopFits(doc, compact)
  {
    hide ParseNodes, PrintTop, GoodNode, Clean, Named, ZeroFree, SkipWhiteSpace, StartsWith, AsRead;
    if doc == [] {
      NothingPrinted(compact);
    } else {
      var text := PrintDocument(doc, compact);
      if Parse(text) == Document(doc) {
        NodesAreFound(text, false);
        DocumentIsClean(doc, compact);
        NodesAreFound(text, true);
      }
      if GoodNodes(doc) {
        DocumentRead(doc, compact);
        AsReadExactly([], doc, true, compact);
      }
    }
  }

  lemma NothingPrinted(compact: bool)
    ensures Parse(PrintDocument([], compact)) == EmptyDocument
  {
  }
}
