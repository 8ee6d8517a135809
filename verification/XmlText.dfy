/** Text of XML: writing special characters as entities, and undoing it in place with a pointer that
  * reads and one that writes. */
module XmlText {
  import opened Bytes

  const LF: byte := 10
  const CR: byte := 13
  const SPACE: byte := 32
  const QUOT: byte := 34
  const HASH: byte := 35
  const AMP: byte := 38
  const APOS: byte := 39
  const SLASH: byte := 47
  const SEMICOLON: byte := 59
  const LT: byte := 60
  const EQUALS: byte := 61
  const GT: byte := 62

  /** White space as isspace has it; bytes above 127 are none. */
  predicate IsSpace(c: byte) { c == SPACE || 9 <= c <= 13 }

  predicate IsNameStart(c: byte) {
    c >= 128 || 65 <= c <= 90 || 97 <= c <= 122 || c == 58 || c == 95
  }

  predicate IsNameChar(c: byte) {
    IsNameStart(c) || 48 <= c <= 57 || c == 45 || c == 46
  }

  predicate IsName(s: seq<byte>) {
    s != [] && IsNameStart(s[0]) && forall i | 0 <= i < |s| :: IsNameChar(s[i])
  }

  predicate AllSpace(s: seq<byte>) { forall i | 0 <= i < |s| :: IsSpace(s[i]) }

  // ---- writing ----

  /** Text keeps its quotes, attribute values do not. */
  predicate IsSpecial(c: byte, restricted: bool) {
    c == AMP || c == LT || c == GT || (!restricted && (c == QUOT || c == APOS))
  }

  function EntityName(c: byte): (r: seq<byte>)
    ensures c == QUOT || c == AMP || c == APOS || c == LT || c == GT ==> r != []
  {
    if c == QUOT then [113, 117, 111, 116]
    else if c == AMP then [97, 109, 112]
    else if c == APOS then [97, 112, 111, 115]
    else if c == LT then [108, 116]
    else if c == GT then [103, 116]
    else []
  }

  function EscapeOne(c: byte, restricted: bool): (r: seq<byte>)
    ensures r != []
  {
    if IsSpecial(c, restricted) then [AMP] + EntityName(c) + [SEMICOLON] else [c]
  }

  function Escape(s: seq<byte>, restricted: bool): seq<byte> {
    if s == [] then [] else EscapeOne(s[0], restricted) + Escape(s[1..], restricted)
  }

  lemma {:induction false} EscapeConcat(a: seq<byte>, b: seq<byte>, restricted: bool)
    ensures Escape(a + b, restricted) == Escape(a, restricted) + Escape(b, restricted)
  {
    if a == [] {
      assert a + b == b;
    } else {
      assert (a + b)[1..] == a[1..] + b;
      EscapeConcat(a[1..], b, restricted);
    }
  }

  /** Nothing special is left but the ampersands of entities. */
  lemma {:induction false} EscapedIsPlain(s: seq<byte>, restricted: bool)
    ensures Lacks(Escape(s, restricted), LT) && (!restricted ==> Lacks(Escape(s, restricted), QUOT))
  {
    if s != [] {
      EscapedIsPlain(s[1..], restricted);
      OneIsPlain(s[0], restricted);
      hide EscapeOne;
      LacksConcat(EscapeOne(s[0], restricted), Escape(s[1..], restricted), LT);
      if !restricted { LacksConcat(EscapeOne(s[0], restricted), Escape(s[1..], restricted), QUOT); }
    }
  }

  predicate Lacks(s: seq<byte>, c: byte) { forall i | 0 <= i < |s| :: s[i] != c }

  lemma LacksConcat(a: seq<byte>, b: seq<byte>, c: byte)
    requires Lacks(a, c) && Lacks(b, c)
    ensures Lacks(a + b, c)
  {
  }

  lemma OneIsPlain(c: byte, restricted: bool)
    ensures Lacks(EscapeOne(c, restricted), LT) && (!restricted ==> Lacks(EscapeOne(c, restricted), QUOT))
  {
  }

  // ---- reading ----

  /** What a string may have to be put through. */
  datatype Flags = Flags(newlines: bool, entities: bool)

  const TEXT := Flags(true, true)

  predicate StartsWith(s: seq<byte>, pattern: seq<byte>) {
    |pattern| <= |s| && s[..|pattern|] == pattern
  }

  /** The character of the entity that `s` begins with, in the order of the table. */
  function EntityAt(s: seq<byte>): (c: Option<byte>)
    ensures c.Some? ==> StartsWith(s, EntityName(c.value) + [SEMICOLON]) && EntityName(c.value) != []
  {
    if StartsWith(s, EntityName(QUOT) + [SEMICOLON]) then Some(QUOT)
    else if StartsWith(s, EntityName(AMP) + [SEMICOLON]) then Some(AMP)
    else if StartsWith(s, EntityName(APOS) + [SEMICOLON]) then Some(APOS)
    else if StartsWith(s, EntityName(LT) + [SEMICOLON]) then Some(LT)
    else if StartsWith(s, EntityName(GT) + [SEMICOLON]) then Some(GT)
    else None
  }

  /** The next character read and how many bytes stood for it; nothing for a numeric reference
    * or an unknown entity. */
  datatype Read = Read(c: byte, length: nat)

  function ReadOne(raw: seq<byte>, flags: Flags): (r: Option<Read>)
    requires raw != []
    ensures r.Some? ==> 0 < r.value.length <= |raw|
  {
    if flags.newlines && raw[0] == CR then Some(Read(LF, if |raw| > 1 && raw[1] == LF then 2 else 1))
    else if flags.newlines && raw[0] == LF then Some(Read(LF, if |raw| > 1 && raw[1] == CR then 2 else 1))
    else if flags.entities && raw[0] == AMP then
      if |raw| > 1 && raw[1] == HASH then None
      else match EntityAt(raw[1..])
        case Some(c) => Some(Read(c, |EntityName(c)| + 2))
        case None => None
    else Some(Read(raw[0], 1))
  }

  function Decode(raw: seq<byte>, flags: Flags): Option<seq<byte>> {
    if raw == [] then Some([])
    else match ReadOne(raw, flags)
      case None => None
      case Some(one) =>
        match Decode(raw[one.length..], flags)
          case None => None
          case Some(rest) => Some([one.c] + rest)
  }

  /** Text that survives: no zero byte ends it, no carriage return is normalised. */
  predicate Printable(s: seq<byte>) { 0 !in s && CR !in s }

  lemma EntityIsFound(c: byte, more: seq<byte>)
    requires c == QUOT || c == AMP || c == APOS || c == LT || c == GT
    ensures EntityAt(EntityName(c) + [SEMICOLON] + more) == Some(c)
    ensures EntityName(c)[0] != HASH
  {
    var s := EntityName(c) + [SEMICOLON] + more;
    assert StartsWith(s, EntityName(c) + [SEMICOLON]);
    assert s[0] == EntityName(c)[0] && s[1] == EntityName(c)[1];
    if StartsWith(s, EntityName(QUOT) + [SEMICOLON]) { assert s[0] == 113; }
    if StartsWith(s, EntityName(AMP) + [SEMICOLON]) { assert s[1] == 109; }
    if StartsWith(s, EntityName(APOS) + [SEMICOLON]) { assert s[1] == 112; }
    if StartsWith(s, EntityName(LT) + [SEMICOLON]) { assert s[0] == 108; }
  }

  lemma ReadEscaped(c: byte, restricted: bool, more: seq<byte>)
    requires c != CR && (c == LF ==> more == [] || more[0] != CR)
    ensures var s := EscapeOne(c, restricted) + more;
      ReadOne(s, TEXT) == Some(Read(c, |EscapeOne(c, restricted)|)) && s[|EscapeOne(c, restricted)|..] == more
  {
    var s := EscapeOne(c, restricted) + more;
    if IsSpecial(c, restricted) {
      EntityIsFound(c, more);
      assert s[1..] == EntityName(c) + [SEMICOLON] + more;
    } else {
      assert s[0] == c && (more != [] ==> s[1] == more[0]);
    }
  }

  /** Reading undoes writing. */
  lemma {:induction false} DecodeEscaped(s: seq<byte>, restricted: bool)
    requires Printable(s)
    ensures Decode(Escape(s, restricted), TEXT) == Some(s) == Value(Escape(s, restricted), TEXT)
  {
    hide ReadOne, EscapeOne, Value;
    CleanValue(Escape(s, restricted), TEXT);
    if s != [] {
      var rest := Escape(s[1..], restricted);
      DecodeEscaped(s[1..], restricted);
      FirstEscaped(s[1..], restricted);
      ReadEscaped(s[0], restricted, rest);
      assert s == [s[0]] + s[1..];
    }
  }

  lemma FirstEscaped(s: seq<byte>, restricted: bool)
    requires Printable(s)
    ensures Escape(s, restricted) == [] || Escape(s, restricted)[0] != CR
  {
  }

  // ---- in place ----

  /** What the rewriting makes of the rest of a string when it has written `out`. A numeric
    * reference is not modelled. An unknown entity is skipped by both pointers without a copy, so
    * that what stood at the write pointer stays: a byte of the string itself. */
  function ValueFrom(raw: seq<byte>, p: nat, out: seq<byte>, flags: Flags): Option<seq<byte>>
    requires |out| <= p <= |raw|
    decreases |raw| - p
  {
    if p == |raw| then Some(out)
    else match ReadOne(raw[p..], flags)
      case Some(one) => ValueFrom(raw, p + one.length, out + [one.c], flags)
      case None =>
        if p + 1 < |raw| && raw[p + 1] == HASH then None else ValueFrom(raw, p + 1, out + [raw[|out|]], flags)
  }

  function Value(raw: seq<byte>, flags: Flags): Option<seq<byte>> { ValueFrom(raw, 0, [], flags) }

  /** Without numeric references and unknown entities it is decoding, character by character. */
  lemma {:induction false} CleanValueFrom(raw: seq<byte>, p: nat, out: seq<byte>, flags: Flags)
    requires |out| <= p <= |raw| && Decode(raw[p..], flags).Some?
    ensures ValueFrom(raw, p, out, flags) == Some(out + Decode(raw[p..], flags).value)
    decreases |raw| - p
  {
    hide ReadOne;
    if p == |raw| {
      assert raw[p..] == [] && out + [] == out;
    } else {
      var rest := raw[p..];
      var one := ReadOne(rest, flags).value;
      assert rest[one.length..] == raw[p + one.length..];
      CleanValueFrom(raw, p + one.length, out + [one.c], flags);
      var more := Decode(raw[p + one.length..], flags).value;
      assert out + [one.c] + more == out + ([one.c] + more);
    }
  }

  lemma CleanValue(raw: seq<byte>, flags: Flags)
    ensures Decode(raw, flags).Some? ==> Value(raw, flags) == Decode(raw, flags)
  {
    hide Decode;
    assert raw[0..] == raw;
    if Decode(raw, flags).Some? {
      CleanValueFrom(raw, 0, [], flags);
      assert [] + Decode(raw, flags).value == Decode(raw, flags).value;
    }
  }

  /** No ampersand begins an entity that is known, or a numeric reference. */
  predicate AllUnknown(s: seq<byte>) {
    forall i | 0 <= i < |s| && s[i] == AMP :: EntityAt(s[i + 1..]).None? && (i + 1 < |s| ==> s[i + 1] != HASH)
  }

  /** Such text stays as it is. */
  lemma UnknownStays(s: seq<byte>)
    requires CR !in s && AllUnknown(s)
    ensures Value(s, TEXT) == Some(s)
  {
    assert s[..0] == [];
    UnknownStaysFrom(s, 0);
  }

  lemma {:induction false} UnknownStaysFrom(s: seq<byte>, p: nat)
    requires CR !in s && AllUnknown(s) && p <= |s|
    ensures ValueFrom(s, p, s[..p], TEXT) == Some(s)
    decreases |s| - p
  {
    hide EntityAt;
    if p == |s| {
      assert s[..p] == s;
    } else {
      assert s[p..][1..] == s[p + 1..] && s[..p + 1] == s[..p] + [s[p]];
      UnknownStaysFrom(s, p + 1);
    }
  }

  /** Behind a known entity an unknown one leaves a byte of the first: "&lt;&x" becomes "<lx". */
  lemma UnknownBehindKnown()
    ensures Value([AMP, 108, 116, SEMICOLON, AMP, 120], TEXT) == Some([LT, 108, 120])
  {
    var s: seq<byte> := [AMP, 108, 116, SEMICOLON, AMP, 120];
    EntityIsFound(LT, [AMP, 120]);
    assert s[0..] == s && s[1..] == EntityName(LT) + [SEMICOLON] + [AMP, 120];
    assert s[4..] == [AMP, 120] && s[4..][1..] == [120] && s[5..] == [120];
    assert EntityAt([120]).None?;
    assert ReadOne(s[0..], TEXT) == Some(Read(LT, 4)) && ReadOne(s[4..], TEXT).None? && ReadOne(s[5..], TEXT) == Some(Read(120, 1));
    hide *;
    ReadsOn(s, 0, [], TEXT);
    ReadsOn(s, 4, [LT], TEXT);
    ReadsOn(s, 5, [LT, 108], TEXT);
    AllRead(s, [LT, 108, 120], TEXT);
    assert [] + [LT] == [LT] && [LT] + [s[1]] == [LT, 108] && [LT, 108] + [120] == [LT, 108, 120];
    assert Value(s, TEXT) == ValueFrom(s, 0, [], TEXT) by { ValueIs(s); }
  }

  lemma ValueIs(s: seq<byte>)
    ensures Value(s, TEXT) == ValueFrom(s, 0, [], TEXT)
  {
  }

  /** Rewrites the string between `start` and `end` with a read and a write pointer, and ends it
    * with a zero. Gives up at a numeric reference. */
  method GetStr(mem: array<byte>, start: nat, end: nat, flags: Flags) returns (length: nat, modelled: bool)
    requires start <= end < mem.Length
    modifies mem
    ensures start + length <= end
    ensures var value := Value(old(mem[start..end]), flags);
      if value.Some? then modelled && mem[start..start + length] == value.value && mem[start + length] == 0 else !modelled
    ensures mem[..start] == old(mem[..start]) && mem[end + 1..] == old(mem[end + 1..])
  {
    hide Value;
    ghost var raw := mem[start..end];
    mem[end] := 0;
    if flags == Flags(false, false) {
      DecodePlain(raw);
      CleanValue(raw, flags);
      return end - start, true;
    }
    var q;
    q, modelled := Rewrite(mem, start, end, flags);
    length := q - start;
    if modelled { mem[q] := 0; }
  }

  method Rewrite(mem: array<byte>, start: nat, end: nat, flags: Flags) returns (q: nat, modelled: bool)
    requires start <= end < mem.Length && mem[end] == 0
    modifies mem
    ensures start <= q <= end
    ensures var value := Value(old(mem[start..end]), flags);
      if value.Some? then modelled && mem[start..q] == value.value else !modelled
    ensures mem[..start] == old(mem[..start]) && mem[end..] == old(mem[end..])
  {
    hide ReadOne, ValueFrom;
    ghost var raw := mem[start..end];
    var p := start;
    q, modelled := start, true;
    assert mem[start..start] == [];
    while p < end && modelled
      invariant q <= p <= end && Rewriting(mem, start, q, end, raw)
      invariant mem[..start] == old(mem[..start]) && mem[end..] == old(mem[end..])
      invariant if modelled then ValueFrom(raw, p - start, mem[start..q], flags) == Value(raw, flags) else Value(raw, flags).None?
      decreases end - p, modelled
    {
      hide Value;
      p, q, modelled := RewriteOne(mem, start, p, q, end, flags, raw);
    }
    if modelled { AllRead(raw, mem[start..q], flags); }
  }

  /** What the write pointer has not reached is as it was. */
  ghost predicate Rewriting(mem: array<byte>, start: nat, q: nat, end: nat, raw: seq<byte>)
    reads mem
  {
    start <= q <= end < mem.Length && |raw| == end - start && mem[end] == 0 && mem[q..end] == raw[q - start..]
  }

  /** One character or entity. */
  method RewriteOne(mem: array<byte>, start: nat, p0: nat, q0: nat, end: nat, flags: Flags, ghost raw: seq<byte>)
    returns (p: nat, q: nat, modelled: bool)
    requires Rewriting(mem, start, q0, end, raw) && q0 <= p0 < end
    modifies mem
    ensures q <= p <= end && Rewriting(mem, start, q, end, raw) && p0 <= p && (modelled ==> p0 < p)
    ensures mem[..start] == old(mem[..start]) && mem[end..] == old(mem[end..])
    ensures old(ValueFrom(raw, p0 - start, mem[start..q0], flags))
      == if modelled then ValueFrom(raw, p - start, mem[start..q], flags) else None
  {
    hide ReadOne, ValueFrom, Rewriting;
    p, q, modelled := p0, q0, true;
    ReadingBehind(mem, start, q, p, end, raw);
    ghost var out := mem[start..q];
    ReadsOn(raw, p - start, out, flags);
    var one := ReadAt(mem, p, end, flags);
    if one.Some? {
      Put(mem, start, q, p, end, one.value.c, raw);
      p, q := p + one.value.length, q + 1;
    } else if mem[p + 1] == HASH {
      modelled := false;
    } else {
      p, q := p + 1, q + 1;
    }
  }

  method Put(mem: array<byte>, start: nat, q: nat, p: nat, end: nat, c: byte, ghost raw: seq<byte>)
    requires Rewriting(mem, start, q, end, raw) && q <= p < end
    modifies mem
    ensures Rewriting(mem, start, q + 1, end, raw) && mem[start..q + 1] == old(mem[start..q]) + [c]
    ensures mem[..start] == old(mem[..start]) && mem[end..] == old(mem[end..])
  {
    ghost var rest := mem[q + 1..end];
    assert rest == raw[q + 1 - start..] by { assert rest == mem[q..end][1..]; }
    mem[q] := c;
    assert mem[q + 1..end] == rest;
  }

  /** What is still to be read was not written over, and what is skipped stays. */
  lemma ReadingBehind(mem: array<byte>, start: nat, q: nat, p: nat, end: nat, raw: seq<byte>)
    requires Rewriting(mem, start, q, end, raw) && q <= p < end
    ensures start <= q && end < mem.Length && mem[end] == 0 && |raw| == end - start
    ensures mem[p..end] == raw[p - start..] && mem[p] == raw[p - start]
    ensures p + 1 < end ==> mem[p + 1] == raw[p + 1 - start]
    ensures Rewriting(mem, start, q + 1, end, raw) && mem[start..q + 1] == mem[start..q] + [raw[q - start]]
  {
    assert mem[p..end] == mem[q..end][p - q..];
    assert mem[q] == mem[q..end][0] && mem[p] == mem[p..end][0];
    assert mem[q + 1..end] == mem[q..end][1..];
    if p + 1 < end { assert mem[p + 1] == mem[p..end][1]; }
  }

  lemma AllRead(raw: seq<byte>, out: seq<byte>, flags: Flags)
    requires |out| <= |raw|
    ensures ValueFrom(raw, |raw|, out, flags) == Some(out)
  {
  }

  lemma ReadsOn(raw: seq<byte>, p: nat, out: seq<byte>, flags: Flags)
    requires |out| <= p < |raw|
    ensures var one := ReadOne(raw[p..], flags); var unknown := p + 1 >= |raw| || raw[p + 1] != HASH;
      ValueFrom(raw, p, out, flags)
      == if one.Some? then ValueFrom(raw, p + one.value.length, out + [one.value.c], flags)
         else if unknown then ValueFrom(raw, p + 1, out + [raw[|out|]], flags) else None
  {
    hide ReadOne;
  }

  lemma {:induction false} DecodePlain(raw: seq<byte>)
    ensures Decode(raw, Flags(false, false)) == Some(raw)
  {
    if raw != [] {
      DecodePlain(raw[1..]);
      assert raw == [raw[0]] + raw[1..];
    }
  }

  /** Looks at the character under the read pointer. */
  method ReadAt(mem: array<byte>, p: nat, end: nat, flags: Flags) returns (one: Option<Read>)
    requires p < end < mem.Length && mem[end] == 0
    ensures one == ReadOne(mem[p..end], flags)
    ensures one.None? ==> mem[p] == AMP
  {
    var c := mem[p];
    if flags.newlines && c == CR {
      return Some(Read(LF, if mem[p + 1] == LF then 2 else 1));
    } else if flags.newlines && c == LF {
      return Some(Read(LF, if mem[p + 1] == CR then 2 else 1));
    } else if flags.entities && c == AMP {
      if mem[p + 1] == HASH { return None; }
      assert mem[p..end][1..] == mem[p + 1..end];
      var found := EntityAt(mem[p + 1..end]);
      return if found.Some? then Some(Read(found.value, |EntityName(found.value)| + 2)) else None;
    } else {
      return Some(Read(c, 1));
    }
  }

  /** The value of a piece of text, rewritten where it lies. */
  method Unescape(raw: seq<byte>, flags: Flags) returns (value: Option<seq<byte>>)
    ensures value == Value(raw, flags)
  {
    hide Value;
    var mem := new byte[|raw| + 1](i requires 0 <= i <= |raw| => if i < |raw| then raw[i] else 0);
    assert mem[0..|raw|] == raw;
    var length, modelled := GetStr(mem, 0, |raw|, flags);
    value := if modelled then Some(mem[0..length]) else None;
  }
}
