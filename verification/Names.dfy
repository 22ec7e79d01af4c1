/** Object identifiers, attribute values and distinguished names: Name, RelativeDistinguishedName and
    AttributeTypeAndValue of x509.c. */
module Names {
  import opened Bytes
  import opened Der
  import opened Containers
  import Utf8

  // ---------------------------------------------------------------- OBJECT IDENTIFIER

  /** Number of base-128 groups that make up `s`, if they do. */
  function Arcs(s: Octets): Option<nat>
    decreases |s|
  {
    if s == [] then Some(0)
    else
      var (_, k) :- ArcAt(s);
      var n :- Arcs(s[k..]);
      Some(1 + n)
  }

  function OidAt(s: Octets): (r: Option<nat>)
    ensures r.Some? ==> 3 <= r.value <= |s|
  {
    var e :- TlvAt(s, UNIVERSAL, OID);
    var arcs :- Arcs(s[e.header..e.Total()]);
    if 1 <= arcs <= 21 then Some(e.Total()) else None
  }

  method ParseOid(input: Octets) returns (r: Option<nat>)
    ensures r == OidAt(input)
  {
    hide TlvAt, ArcAt;
    if |input| == 0 {
      return None;
    }
    var e := ParseIdLen(input, UNIVERSAL, OID);
    if e.None? || e.value.content < 1 {
      return None;
    }
    var remain := e.value.content;
    var buf := input[e.value.header..e.value.header + remain];
    ghost var content := buf;
    var num := 0;
    while remain > 0
      invariant remain == |buf| && num <= 21
      invariant buf == content ==> num == 0
      invariant Arcs(content).Some? <==> Arcs(buf).Some?
      invariant Arcs(buf).Some? ==> Arcs(content).value == num + Arcs(buf).value
      decreases remain
    {
      if num > 20 {
        return None;
      }
      var arc := ScanBase128(buf);
      if arc.None? {
        return None;
      }
      num := num + 1;
      buf := buf[arc.value.1..];
      remain := remain - arc.value.1;
    }
    if num < 1 {
      return None;
    }
    return Some(e.value.header + e.value.content);
  }

  lemma OidStable(s: Octets, rest: Octets, n: nat)
    requires n <= |s|
    ensures OidAt(s) == Some(n) <==> OidAt(s + rest) == Some(n)
  {
    hide TlvAt, Arcs;
    ElementStable(s, rest, UNIVERSAL, OID, n);
  }

  /** An element of `n` octets is found with or without appended octets, with the same content. */
  lemma ElementStable(s: Octets, rest: Octets, cls: nat, tag: nat, n: nat)
    requires n <= |s|
    ensures var e, f := TlvAt(s, cls, tag), TlvAt(s + rest, cls, tag);
            || (e.Some? && e.value.Total() == n && f == e && s[e.value.header..n] == (s + rest)[e.value.header..n])
            || ((e.None? || e.value.Total() != n) && (f.None? || f.value.Total() != n))
  {
    hide TlvAt;
    var e, f := TlvAt(s, cls, tag), TlvAt(s + rest, cls, tag);
    if e.Some? && e.value.Total() == n {
      AppendStable(s, rest, cls, tag, e.value);
    }
    if f.Some? && f.value.Total() == n {
      AppendStable(s, rest, cls, tag, f.value);
    }
  }

  // ---------------------------------------------------------------- attribute values

  const UTF8_STRING: byte := 12
  const NUMERIC_STRING: byte := 18
  const PRINTABLE_STRING: byte := 19
  const TELETEX_STRING: byte := 20
  const IA5_STRING: byte := 22

  predicate IsDigit(c: byte) {
    0x30 <= c <= 0x39
  }

  predicate IsAlpha(c: byte) {
    0x61 <= c <= 0x7A || 0x41 <= c <= 0x5A
  }

  predicate PrintableChar(c: byte) {
    IsAlpha(c) || IsDigit(c) || c in {0x27, 0x3D, 0x28, 0x29, 0x2B, 0x2C, 0x2D, 0x2E, 0x2F, 0x3A, 0x3F, 0x20}
  }

  /** Visible characters; the commercial at is not on the list of the code. */
  predicate VisibleChar(c: byte) {
    0x20 <= c <= 0x7E && c != 0x40
  }

  /** The character rule of each string type a directory string may have. */
  ghost predicate Charset(kind: byte, c: Octets) {
    && c != []
    && if kind == PRINTABLE_STRING then forall i :: 0 <= i < |c| ==> PrintableChar(c[i])
       else if kind == NUMERIC_STRING then forall i :: 0 <= i < |c| ==> IsDigit(c[i])
       else if kind == TELETEX_STRING then forall i :: 0 <= i < |c| ==> VisibleChar(c[i])
       else if kind == IA5_STRING then forall i :: 0 <= i < |c| ==> c[i] < 0x80
       else kind == UTF8_STRING && Utf8.IsEncoding(c)
  }

  /** `v` is a string of one of `kinds`, its length read from one raw octet and within bounds. */
  ghost predicate StringValue(v: Octets, kinds: set<byte>, lb: nat, ub: nat) {
    && |v| >= 2
    && v[0] in kinds
    && v[1] == |v| - 2
    && lb <= |v| - 2 <= ub
    && Charset(v[0], v[2..])
  }

  const DIRECTORY_KINDS: set<byte> := {PRINTABLE_STRING, UTF8_STRING, TELETEX_STRING, IA5_STRING, NUMERIC_STRING}

  predicate IsAlnum(c: byte) {
    IsAlpha(c) || IsDigit(c)
  }

  /** A domain component: letters and digits at both ends, hyphens allowed between. The scan of the middle
      starts at the third character, so the second one is only looked at when it is the last. */
  ghost predicate DomainComponentValue(v: Octets) {
    && StringValue(v, {IA5_STRING}, 1, 63)
    && IsAlnum(v[2])
    && IsAlnum(v[|v| - 1])
    && forall i :: 4 <= i < |v| ==> IsAlnum(v[i]) || v[i] == 0x2D
  }

  /** A label as RFC 1034 has it: every character a letter, a digit or a hyphen, no hyphen at either end. */
  ghost predicate ProperLabel(v: Octets) {
    && StringValue(v, {IA5_STRING}, 1, 63)
    && IsAlnum(v[2]) && IsAlnum(v[|v| - 1])
    && forall i :: 2 <= i < |v| ==> IsAlnum(v[i]) || v[i] == 0x2D
  }

  /** The proper labels are the accepted components whose second character, if there is one, is a letter, a digit or
      a hyphen. */
  lemma DomainComponentExact(v: Octets)
    ensures ProperLabel(v) <==> DomainComponentValue(v) && (|v| > 3 ==> IsAlnum(v[3]) || v[3] == 0x2D)
  {
    hide Charset;
  }

  /** A component with an exclamation mark for its second character is accepted. */
  lemma SecondCharacterIsFree()
    ensures var v: Octets := [IA5_STRING, 3, 0x61, 0x21, 0x62]; DomainComponentValue(v) && !ProperLabel(v)
  {
    var v: Octets := [IA5_STRING, 3, 0x61, 0x21, 0x62];
    assert v[3] == 0x21 && v[2..] == [0x61, 0x21, 0x62];
  }

  /** The rules of the attribute table; a type that is not in the table is not checked. */
  datatype Rule =
    | DirectoryString(lb: nat, ub: nat)
    | PrintableString(lb: nat, ub: nat)
    | NumericString(lb: nat, ub: nat)
    | EmailAddress
    | SerialNumber
    | DomainComponent
    | Unchecked

  ghost predicate Accepts(rule: Rule, v: Octets) {
    match rule
    case DirectoryString(lb, ub) => StringValue(v, DIRECTORY_KINDS, lb, ub)
    case PrintableString(lb, ub) => StringValue(v, {PRINTABLE_STRING}, lb, ub)
    case NumericString(lb, ub) => StringValue(v, {NUMERIC_STRING}, lb, ub)
    case EmailAddress => StringValue(v, {IA5_STRING}, 1, 255) || LooseEmail(v)
    case SerialNumber => StringValue(v, {PRINTABLE_STRING}, 1, 64) || StringValue(v, {IA5_STRING}, 1, 64)
    case DomainComponent => DomainComponentValue(v)
    case Unchecked => true
  }

  /** UTF-8 text in an address that calls itself an IA5String is let through. */
  ghost predicate LooseEmail(v: Octets) {
    |v| >= 2 && v[0] == IA5_STRING && v[1] == |v| - 2 && 1 <= |v| - 2 <= 255 && Charset(UTF8_STRING, v[2..])
  }

  method CheckString(c: Octets, kind: byte) returns (ok: bool)
    ensures ok <==> Charset(kind, c)
  {
    if kind == UTF8_STRING {
      ok := Utf8.CheckUtf8String(c);
      return;
    }
    if |c| == 0 || kind !in {PRINTABLE_STRING, NUMERIC_STRING, TELETEX_STRING, IA5_STRING} {
      return false;
    }
    var i := 0;
    while i < |c|
      invariant i <= |c|
      invariant forall j :: 0 <= j < i ==> CharOk(kind, c[j])
    {
      if !CharOk(kind, c[i]) {
        return false;
      }
      i := i + 1;
    }
    return true;
  }

  predicate CharOk(kind: byte, c: byte) {
    if kind == PRINTABLE_STRING then PrintableChar(c)
    else if kind == NUMERIC_STRING then IsDigit(c)
    else if kind == TELETEX_STRING then VisibleChar(c)
    else c < 0x80
  }

  method ParseStringValue(input: Octets, kinds: set<byte>, lb: nat, ub: nat) returns (ok: bool)
    ensures ok <==> StringValue(input, kinds, lb, ub)
  {
    hide Charset;
    if |input| < 2 {
      return false;
    }
    var strType := input[0];
    var len := |input| - 2;
    if input[1] != len {
      return false;
    }
    if len < lb || len > ub {
      return false;
    }
    if strType !in kinds {
      return false;
    }
    ok := CheckString(input[2..], strType);
  }

  method ParseDomainComponent(input: Octets) returns (ok: bool)
    ensures ok <==> DomainComponentValue(input)
  {
    hide Charset;
    if |input| == 0 {
      return false;
    }
    ok := ParseStringValue(input, {IA5_STRING}, 1, 63);
    if !ok {
      return false;
    }
    var buf := input[2..];
    if !IsAlnum(buf[0]) {
      return false;
    }
    buf := buf[1..];
    if |buf| == 0 {
      return true;
    }
    if !IsAlnum(buf[|buf| - 1]) {
      return false;
    }
    buf := buf[1..];
    var i := 0;
    while i < |buf|
      invariant i <= |buf|
      invariant forall j :: 4 <= j < 4 + i ==> IsAlnum(input[j]) || input[j] == 0x2D
    {
      if !(IsDigit(buf[i]) || IsAlpha(buf[i]) || buf[i] == 0x2D) {
        return false;
      }
      i := i + 1;
    }
    return true;
  }

  method ParseAttributeValue(rule: Rule, v: Octets) returns (ok: bool)
    ensures ok <==> Accepts(rule, v)
  {
    hide StringValue, Charset, DomainComponentValue;
    match rule {
      case DirectoryString(lb, ub) =>
        ok := ParseStringValue(v, DIRECTORY_KINDS, lb, ub);
      case PrintableString(lb, ub) =>
        ok := ParseStringValue(v, {PRINTABLE_STRING}, lb, ub);
      case NumericString(lb, ub) =>
        ok := ParseStringValue(v, {NUMERIC_STRING}, lb, ub);
      case EmailAddress =>
        ok := ParseStringValue(v, {IA5_STRING}, 1, 255);
        if !ok {
          if |v| < 2 || v[0] != IA5_STRING || v[1] != |v| - 2 || |v| - 2 < 1 || |v| - 2 > 255 {
            return false;
          }
          ok := CheckString(v[2..], UTF8_STRING);
        }
      case SerialNumber =>
        ok := ParseStringValue(v, {PRINTABLE_STRING}, 1, 64);
        if !ok {
          ok := ParseStringValue(v, {IA5_STRING}, 1, 64);
        }
      case DomainComponent =>
        ok := ParseDomainComponent(v);
      case Unchecked =>
        ok := true;
    }
  }

  /** `c` as the DER encoding of a string of type `kind`. */
  function StringOctets(kind: byte, c: Octets): Octets
    requires kind < 31 && |c| < U32_LIMIT
  {
    Tlv(UNIVERSAL, false, kind, c)
  }

  /** Because the length is compared as one raw octet, a DER-encoded string meets its rule exactly when its
      characters and bounds do and it is shorter than 128 octets. */
  lemma StringRuleExact(kind: byte, c: Octets, kinds: set<byte>, lb: nat, ub: nat)
    requires kind < 31 && |c| < U32_LIMIT
    ensures StringValue(StringOctets(kind, c), kinds, lb, ub) <==>
            |c| < 128 && kind in kinds && lb <= |c| <= ub && Charset(kind, c)
  {
    hide Charset;
    var v := StringOctets(kind, c);
    if |c| < 128 {
      assert v == [kind, |c|] + c;
      assert v[2..] == c;
    } else {
      LongFormMisread(kind, c, kind);
    }
  }

  /** A long form announces itself with 128 plus the number of length octets. That equals the raw count of
      what follows only for 128 octets of content, and then the octet 0x80 is taken for the first character. */
  lemma LongFormMisread(kind: byte, c: Octets, charset: byte)
    requires kind < 31 && 128 <= |c| < U32_LIMIT
    ensures var v := StringOctets(kind, c); |v| >= 2 && v[0] == kind && !(v[1] == |v| - 2 && Charset(charset, v[2..]))
  {
    hide Charset;
    BeWidth(|c|);
    var k := |BeOctets(|c|)|;
    var v := StringOctets(kind, c);
    assert |v| == 2 + k + |c|;
    assert v[1] == LengthOctets(|c|)[0] == 128 + k;
    if v[1] == |v| - 2 {
      assert BeOctets(128) == [128];
      assert v[2] == LengthOctets(|c|)[1] == 0x80;
      StrayContinuation(charset, v[2..]);
    }
  }

  /** So no rule that looks at its value lets an encoded string of 128 octets or more through, whatever its type and
      characters; that includes the second chance of electronic mail addresses. */
  lemma LongStringIsRefused(rule: Rule, kind: byte, c: Octets)
    requires kind < 31 && 128 <= |c| < U32_LIMIT
    ensures Accepts(rule, StringOctets(kind, c)) <==> rule.Unchecked?
  {
    hide Charset, StringOctets;
    LongFormMisread(kind, c, kind);
    LongFormMisread(kind, c, UTF8_STRING);
  }

  /** No string type begins with the octet 0x80. */
  lemma StrayContinuation(kind: byte, c: Octets)
    requires c != [] && c[0] == 0x80
    ensures !Charset(kind, c)
  {
    Utf8.EncodingStep(c);
  }

  // ---------------------------------------------------------------- names

  /** The attribute table: encoded object identifiers to rules. */
  type Table = map<Octets, Rule>

  function RuleFor(table: Table, oid: Octets): Rule {
    if oid in table then table[oid] else Unchecked
  }

  ghost function AttributeAt(table: Table, s: Octets): (r: Option<nat>)
    ensures r.Some? ==> 1 <= r.value <= |s|
  {
    var e :- TlvAt(s, UNIVERSAL, SEQUENCE);
    var body := s[e.header..e.Total()];
    var n :- OidAt(body);
    if Accepts(RuleFor(table, body[..n]), body[n..]) then Some(e.Total()) else None
  }

  ghost function AttributeParser(table: Table): (p: ElementParser)
    ensures forall s :: p(s) == AttributeAt(table, s)
  {
    s => AttributeAt(table, s)
  }

  ghost function RdnAt(table: Table, s: Octets): (r: Option<nat>)
    ensures r.Some? ==> 1 <= r.value <= |s|
  {
    var e :- TlvAt(s, UNIVERSAL, SET);
    var _ :- Split(AttributeParser(table), s[e.header..e.Total()]);
    Some(e.Total())
  }

  ghost function RdnParser(table: Table): (p: ElementParser)
    ensures forall s :: p(s) == RdnAt(table, s)
  {
    s => RdnAt(table, s)
  }

  datatype NameExtent = NameExtent(eaten: nat, empty: bool)

  ghost function NameAt(table: Table, s: Octets): (r: Option<NameExtent>)
    ensures r.Some? ==> 1 <= r.value.eaten <= |s|
  {
    var e :- TlvAt(s, UNIVERSAL, SEQUENCE);
    var _ :- Split(RdnParser(table), s[e.header..e.Total()]);
    Some(NameExtent(e.Total(), e.content == 0))
  }

  method ParseAttributeTypeAndValue(table: Table, input: Octets) returns (r: Option<nat>)
    ensures r == AttributeAt(table, input)
  {
    hide TlvAt, OidAt, Accepts;
    if |input| == 0 {
      return None;
    }
    var e := ParseIdLen(input, UNIVERSAL, SEQUENCE);
    if e.None? {
      return None;
    }
    var dataLen := e.value.content;
    var buf := input[e.value.header..e.value.header + dataLen];
    var oidLen := ParseOid(buf);
    if oidLen.None? {
      return None;
    }
    var ok := ParseAttributeValue(RuleFor(table, buf[..oidLen.value]), buf[oidLen.value..]);
    if !ok {
      return None;
    }
    return Some(e.value.header + dataLen);
  }

  method ParseRelativeDistinguishedName(table: Table, input: Octets) returns (r: Option<nat>)
    ensures r == RdnAt(table, input)
  {
    hide TlvAt, AttributeAt, Split, AttributeParser;
    if |input| == 0 {
      return None;
    }
    var e := ParseIdLen(input, UNIVERSAL, SET);
    if e.None? {
      return None;
    }
    var rdnRemain := e.value.content;
    var buf := input[e.value.header..e.value.header + rdnRemain];
    ghost var content, p := buf, AttributeParser(table);
    while rdnRemain > 0
      invariant rdnRemain == |buf|
      invariant Split(p, buf).Some? <==> Split(p, content).Some?
      decreases rdnRemain
    {
      SplitStep(p, buf);
      var parsed := ParseAttributeTypeAndValue(table, buf);
      if parsed.None? {
        return None;
      }
      rdnRemain := rdnRemain - parsed.value;
      buf := buf[parsed.value..];
    }
    SplitStep(p, buf);
    return Some(e.value.header + e.value.content);
  }

  method ParseName(table: Table, input: Octets) returns (r: Option<NameExtent>)
    ensures r == NameAt(table, input)
  {
    hide TlvAt, RdnAt, Split, RdnParser;
    if |input| == 0 {
      return None;
    }
    var e := ParseIdLen(input, UNIVERSAL, SEQUENCE);
    if e.None? {
      return None;
    }
    var remain := e.value.content;
    var buf := input[e.value.header..e.value.header + remain];
    ghost var content, p := buf, RdnParser(table);
    while remain > 0
      invariant remain == |buf|
      invariant Split(p, buf).Some? <==> Split(p, content).Some?
      decreases remain
    {
      SplitStep(p, buf);
      var parsed := ParseRelativeDistinguishedName(table, buf);
      if parsed.None? {
        return None;
      }
      buf := buf[parsed.value..];
      remain := remain - parsed.value;
    }
    SplitStep(p, buf);
    return Some(NameExtent(e.value.header + e.value.content, e.value.content == 0));
  }

  // ---------------------------------------------------------------- stability and unique splitting

  lemma AttributesStable(table: Table)
    ensures Stable(AttributeParser(table))
  {
    hide TlvAt, OidAt, Accepts;
    forall s: Octets, rest: Octets, n: nat | n <= |s|
      ensures AttributeAt(table, s) == Some(n) <==> AttributeAt(table, s + rest) == Some(n)
    {
      ElementStable(s, rest, UNIVERSAL, SEQUENCE, n);
    }
  }

  lemma RdnsStable(table: Table)
    ensures Stable(RdnParser(table))
  {
    hide TlvAt, Split, AttributeParser;
    forall s: Octets, rest: Octets, n: nat | n <= |s|
      ensures RdnAt(table, s) == Some(n) <==> RdnAt(table, s + rest) == Some(n)
    {
      ElementStable(s, rest, UNIVERSAL, SET, n);
    }
  }

  lemma NameStable(table: Table, s: Octets, rest: Octets, n: NameExtent)
    requires n.eaten <= |s|
    ensures NameAt(table, s) == Some(n) <==> NameAt(table, s + rest) == Some(n)
  {
    hide TlvAt, Split, RdnParser;
    ElementStable(s, rest, UNIVERSAL, SEQUENCE, n.eaten);
  }

  /** A name is accepted exactly when its content is a concatenation of relative names, which are then the
      only way to cut it; the empty flag is raised for zero relative names alone. */
  lemma NameSplits(table: Table, s: Octets, e: Extent, parts: seq<Octets>)
    requires TlvAt(s, UNIVERSAL, SEQUENCE) == Some(e)
    ensures AllWhole(RdnParser(table), parts) && Concat(parts) == s[e.header..e.Total()] <==>
            && NameAt(table, s) == Some(NameExtent(e.Total(), parts == []))
            && Split(RdnParser(table), s[e.header..e.Total()]) == Some(parts)
  {
    hide TlvAt, RdnAt, RdnParser;
    RdnsStable(table);
    var content := s[e.header..e.Total()];
    SplitExact(RdnParser(table), content, parts);
  }

  /** One level down: a relative name is accepted exactly when its content is a concatenation of attributes. */
  lemma RdnSplits(table: Table, s: Octets, e: Extent, parts: seq<Octets>)
    requires TlvAt(s, UNIVERSAL, SET) == Some(e)
    ensures AllWhole(AttributeParser(table), parts) && Concat(parts) == s[e.header..e.Total()] <==>
            && RdnAt(table, s) == Some(e.Total())
            && Split(AttributeParser(table), s[e.header..e.Total()]) == Some(parts)
  {
    hide TlvAt, AttributeAt, AttributeParser;
    AttributesStable(table);
    SplitExact(AttributeParser(table), s[e.header..e.Total()], parts);
  }

  // ---------------------------------------------------------------- name trees and their encoding

  datatype Attribute = Attribute(oid: Octets, value: Octets)
  type Rdn = seq<Attribute>
  type Name = seq<Rdn>

  /** An attribute the table lets through, small enough to encode. */
  ghost predicate GoodAttribute(table: Table, a: Attribute) {
    && OidAt(a.oid) == Some(|a.oid|)
    && Accepts(RuleFor(table, a.oid), a.value)
    && |a.oid| + |a.value| < U32_LIMIT
  }

  function AttributeOctets(a: Attribute): Octets
    requires |a.oid| + |a.value| < U32_LIMIT
  {
    Tlv(UNIVERSAL, true, SEQUENCE, a.oid + a.value)
  }

  ghost predicate GoodRdn(table: Table, rdn: Rdn) {
    && (forall i :: 0 <= i < |rdn| ==> GoodAttribute(table, rdn[i]))
    && |Concat(AttributeParts(table, rdn))| < U32_LIMIT
  }

  ghost function AttributeParts(table: Table, rdn: Rdn): (r: seq<Octets>)
    requires forall i :: 0 <= i < |rdn| ==> GoodAttribute(table, rdn[i])
    ensures |r| == |rdn|
  {
    seq(|rdn|, i requires 0 <= i < |rdn| => assert GoodAttribute(table, rdn[i]); AttributeOctets(rdn[i]))
  }

  ghost function RdnOctets(table: Table, rdn: Rdn): Octets
    requires GoodRdn(table, rdn)
  {
    Tlv(UNIVERSAL, true, SET, Concat(AttributeParts(table, rdn)))
  }

  ghost function RdnParts(table: Table, name: Name): (r: seq<Octets>)
    requires forall i :: 0 <= i < |name| ==> GoodRdn(table, name[i])
    ensures |r| == |name|
  {
    seq(|name|, i requires 0 <= i < |name| => RdnOctets(table, name[i]))
  }

  ghost predicate GoodName(table: Table, name: Name) {
    && (forall i :: 0 <= i < |name| ==> GoodRdn(table, name[i]))
    && |Concat(RdnParts(table, name))| < U32_LIMIT
  }

  ghost function NameOctets(table: Table, name: Name): Octets
    requires GoodName(table, name)
  {
    Tlv(UNIVERSAL, true, SEQUENCE, Concat(RdnParts(table, name)))
  }

  lemma AttributeRoundTrip(table: Table, a: Attribute)
    requires GoodAttribute(table, a)
    ensures Whole(AttributeParser(table), AttributeOctets(a))
  {
    hide TlvAt, OidAt, Accepts, Header;
    var body := a.oid + a.value;
    EncodeThenParse(UNIVERSAL, true, SEQUENCE, body, []);
    assert AttributeOctets(a) + [] == AttributeOctets(a);
    OidStable(a.oid, a.value, |a.oid|);
    assert body[..|a.oid|] == a.oid && body[|a.oid|..] == a.value;
  }

  lemma RdnRoundTrip(table: Table, rdn: Rdn)
    requires GoodRdn(table, rdn)
    ensures Whole(RdnParser(table), RdnOctets(table, rdn))
  {
    hide TlvAt, AttributeAt, AttributeParser, Header, GoodAttribute;
    var parts := AttributeParts(table, rdn);
    forall i | 0 <= i < |parts|
      ensures Whole(AttributeParser(table), parts[i])
    {
      AttributeRoundTrip(table, rdn[i]);
    }
    EncodeThenParse(UNIVERSAL, true, SET, Concat(parts), []);
    assert RdnOctets(table, rdn) + [] == RdnOctets(table, rdn);
    AttributesStable(table);
    SplitExact(AttributeParser(table), Concat(parts), parts);
  }

  /** Encode a name tree, parse it, whatever follows: all of it is eaten, nothing more, and only the name
      without relative names reports itself empty. */
  lemma NameRoundTrip(table: Table, name: Name, rest: Octets)
    requires GoodName(table, name)
    ensures NameAt(table, NameOctets(table, name) + rest) == Some(NameExtent(|NameOctets(table, name)|, name == []))
  {
    hide TlvAt, RdnAt, RdnParser, Header, GoodRdn, RdnOctets;
    var parts := RdnParts(table, name);
    forall i | 0 <= i < |parts|
      ensures Whole(RdnParser(table), parts[i])
    {
      RdnRoundTrip(table, name[i]);
    }
    EncodeThenParse(UNIVERSAL, true, SEQUENCE, Concat(parts), rest);
    RdnsStable(table);
    SplitExact(RdnParser(table), Concat(parts), parts);
    ConcatEmpty(RdnParser(table), parts);
  }

  lemma ConcatEmpty(p: ElementParser, parts: seq<Octets>)
    requires AllWhole(p, parts)
    ensures Concat(parts) == [] <==> parts == []
  {
    if parts != [] {
      assert Whole(p, parts[0]);
    }
  }
}
