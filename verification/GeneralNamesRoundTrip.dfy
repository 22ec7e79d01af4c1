/** General names, lists of them and access descriptions, encoded and parsed again. */
module GeneralNamesRoundTrip {
  import opened Bytes
  import opened Der
  import opened Containers
  import opened Elements
  import opened Names
  import opened GeneralNames

  /** The kinds the parser lets through: text forms by identifier octet, and directory names. */
  datatype GeneralName = Text(kind: byte, content: Octets) | Directory(name: Name)

  ghost predicate GoodGeneralName(table: Table, g: GeneralName) {
    match g
    case Text(kind, content) =>
      && kind in {RFC822_NAME, DNS_NAME, URI, IP_ADDRESS} && |content| < U32_LIMIT
      && (kind != IP_ADDRESS ==> Charset(IA5_STRING, content))
    case Directory(name) => GoodName(table, name) && |NameOctets(table, name)| < U32_LIMIT
  }

  ghost function GeneralNameOctets(table: Table, g: GeneralName): Octets
    requires GoodGeneralName(table, g)
  {
    match g
    case Text(kind, content) => [kind] + LengthOctets(|content|) + content
    case Directory(name) => Tlv(CONTEXT_SPECIFIC, true, 4, NameOctets(table, name))
  }

  /** Encoded text is found again behind its identifier octet. */
  lemma TextReads(kind: byte, content: Octets, rest: Octets)
    requires |content| < U32_LIMIT
    ensures var s, h := [kind] + LengthOctets(|content|) + content + rest, 1 + |LengthOctets(|content|)|;
            TextAt(s) == Some(Extent(h, |content|)) && s[h..h + |content|] == content
  {
    hide LengthAt, LengthOctets;
    var l := LengthOctets(|content|);
    var s := [kind] + l + content + rest;
    assert s[1..] == l + content + rest;
    assert s[1..][..|l|] == l;
    LengthExact(s[1..], Extent(|l|, |content|));
  }

  /** Every general name the parser knows, encoded and followed by anything, is eaten exactly; empty are addresses
      of no octets and names without relative names. */
  lemma GeneralNameRoundTrip(table: Table, g: GeneralName, rest: Octets)
    requires GoodGeneralName(table, g)
    ensures var w := GeneralNameOctets(table, g);
            GeneralNameAt(table, w + rest)
            == Some(NameExtent(|w|, match g case Text(_, content) => content == [] case Directory(name) => name == []))
  {
    hide TlvAt, TextAt, NameAt, NameOctets, LengthOctets, GoodName, Charset;
    match g
    case Text(kind, content) =>
      TextReads(kind, content, rest);
    case Directory(name) =>
      var inner := NameOctets(table, name);
      EncodeThenParse(CONTEXT_SPECIFIC, true, 4, inner, rest);
      NameRoundTrip(table, name, []);
      assert inner + [] == inner;
      var s := GeneralNameOctets(table, g) + rest;
      assert s[0] == DIRECTORY_NAME;
  }

  lemma GeneralNameIsWhole(table: Table, g: GeneralName)
    requires GoodGeneralName(table, g)
    ensures Whole(GeneralNameParser(table), GeneralNameOctets(table, g))
  {
    hide GeneralNameAt, GeneralNameOctets, GoodGeneralName;
    GeneralNameRoundTrip(table, g, []);
    assert GeneralNameOctets(table, g) + [] == GeneralNameOctets(table, g);
  }

  ghost function Encoded(table: Table, gs: seq<GeneralName>): (parts: seq<Octets>)
    requires forall i :: 0 <= i < |gs| ==> GoodGeneralName(table, gs[i])
    ensures |parts| == |gs|
  {
    seq(|gs|, i requires 0 <= i < |gs| => GeneralNameOctets(table, gs[i]))
  }

  /** Every list of general names, encoded under the expected tag and followed by anything, is eaten exactly. */
  lemma GeneralNamesRoundTrip(table: Table, gs: seq<GeneralName>, cls: nat, p: bool, tag: nat, rest: Octets)
    requires cls < 4 && tag < 31 && forall i :: 0 <= i < |gs| ==> GoodGeneralName(table, gs[i])
    requires |Concat(Encoded(table, gs))| < U32_LIMIT
    ensures var w := Tlv(cls, p, tag, Concat(Encoded(table, gs)));
            GeneralNamesAt(table, w + rest, cls, tag) == Some(|w|)
  {
    hide TlvAt, GeneralNameOctets, GeneralNameParser, GoodGeneralName, Header;
    var parts := Encoded(table, gs);
    forall i | 0 <= i < |parts| ensures Whole(GeneralNameParser(table), parts[i]) {
      GeneralNameIsWhole(table, gs[i]);
    }
    var w := Tlv(cls, p, tag, Concat(parts));
    EncodeThenParse(cls, p, tag, Concat(parts), rest);
    var e := TlvAt(w + rest, cls, tag).value;
    GeneralNamesSplit(table, w + rest, cls, tag, e, parts);
  }

  /** Text: one of four identifier octets, length octets, and characters below 128, at least one, unless it is an
      address. */
  predicate TextForm(part: Octets, kind: byte, content: Octets) {
    && kind in {0x81, 0x82, 0x86, 0x87} && |content| < U32_LIMIT
    && part == [kind] + LengthOctets(|content|) + content
    && (kind != 0x87 ==> content != [] && forall i :: 0 <= i < |content| ==> content[i] < 128)
  }

  /** A name that fills the element with the identifier octet 0xA4. */
  ghost predicate DirectoryForm(table: Table, part: Octets, inner: Octets) {
    && |inner| < U32_LIMIT && part == [0xA4] + LengthOctets(|inner|) + inner
    && NameAt(table, inner).Some? && NameAt(table, inner).value.eaten == |inner|
  }

  /** A general name is accepted exactly when it has one of these two forms. */
  lemma GeneralNameExact(table: Table, part: Octets)
    ensures Whole(GeneralNameParser(table), part) <==>
            || (exists kind, content :: TextForm(part, kind, content))
            || (exists inner :: DirectoryForm(table, part, inner))
  {
    hide TextForm, DirectoryForm, GeneralNameAt, LengthOctets;
    if Whole(GeneralNameParser(table), part) {
      if part[0] == DIRECTORY_NAME {
        var inner := DirectoryFound(table, part);
      } else {
        var content := TextFound(table, part);
        assert TextForm(part, part[0], content);
      }
    }
    if kind, content :| TextForm(part, kind, content) {
      TextAccepted(table, part, kind, content);
    }
    if inner :| DirectoryForm(table, part, inner) {
      DirectoryAccepted(table, part, inner);
    }
  }

  lemma TextFound(table: Table, part: Octets) returns (content: Octets)
    requires part != [] && Whole(GeneralNameParser(table), part) && part[0] != DIRECTORY_NAME
    ensures TextForm(part, part[0], content)
  {
    hide LengthAt, LengthOctets, TlvAt, NameAt;
    var e := TextAt(part).value;
    LengthExact(part[1..], Extent(e.header - 1, e.content));
    content := part[e.header..];
    assert content == part[e.header..e.Total()];
    assert part == [part[0]] + part[1..][..e.header - 1] + content;
  }

  lemma TextAccepted(table: Table, part: Octets, kind: byte, content: Octets)
    requires TextForm(part, kind, content)
    ensures Whole(GeneralNameParser(table), part)
  {
    hide LengthAt, LengthOctets;
    TextReads(kind, content, []);
    assert part + [] == part;
  }

  lemma DirectoryFound(table: Table, part: Octets) returns (inner: Octets)
    requires part != [] && Whole(GeneralNameParser(table), part) && part[0] == DIRECTORY_NAME
    ensures DirectoryForm(table, part, inner)
  {
    hide TlvAt, NameAt, LengthOctets;
    var p;
    p, inner := FillsBuffer(part, CONTEXT_SPECIFIC, 4);
    DirectoryOctet(p, inner);
  }

  lemma DirectoryAccepted(table: Table, part: Octets, inner: Octets)
    requires DirectoryForm(table, part, inner)
    ensures Whole(GeneralNameParser(table), part)
  {
    hide TlvAt, NameAt, LengthOctets;
    DirectoryOctet(true, inner);
    EncodedFills(CONTEXT_SPECIFIC, true, 4, inner);
  }

  lemma DirectoryOctet(p: bool, inner: Octets)
    requires |inner| < U32_LIMIT
    ensures var s := Tlv(CONTEXT_SPECIFIC, p, 4, inner);
            |s| >= 2 && (s[0] == 0xA4 <==> p) && (p ==> s == [0xA4] + LengthOctets(|inner|) + inner)
  {
    ShortestLength(|inner|);
  }

  lemma ShortestLength(n: nat)
    requires n < U32_LIMIT
    ensures |LengthOctets(n)| >= 1
  {
  }

  // ---------------------------------------------------------------- access descriptions

  datatype Access = Access(ocsp: bool, location: GeneralName)

  function MethodOid(ocsp: bool): Octets {
    if ocsp then OCSP else CA_ISSUERS
  }

  ghost predicate GoodAccess(table: Table, a: Access) {
    GoodGeneralName(table, a.location) && 10 + |GeneralNameOctets(table, a.location)| < U32_LIMIT
  }

  ghost function AccessOctets(table: Table, a: Access): Octets
    requires GoodAccess(table, a)
  {
    Tlv(UNIVERSAL, true, SEQUENCE, MethodOid(a.ocsp) + GeneralNameOctets(table, a.location))
  }

  /** The two access methods are object identifiers of ten octets. */
  lemma MethodIsOid(ocsp: bool)
    ensures OidAt(MethodOid(ocsp)) == Some(10)
  {
    var s := MethodOid(ocsp);
    var content := s[2..];
    assert LengthOctets(8) == [8];
    assert s[..2] == Header(UNIVERSAL, false, OID, 8);
    AcceptsExactlyEncodings(s, UNIVERSAL, OID, Extent(2, 8));
    SingleOctetArcs(content);
    assert s[2..10] == content;
  }

  /** Octets below 128 are one arc each. */
  lemma {:induction false} SingleOctetArcs(s: Octets)
    requires forall i :: 0 <= i < |s| ==> s[i] < 128
    ensures Arcs(s) == Some(|s|)
  {
    if s != [] {
      assert FirstEnd(s[..1]) == 0;
      ArcExact(s, Base128(s[..1]), 1);
      SingleOctetArcs(s[1..]);
    }
  }

  lemma AccessIsWhole(table: Table, a: Access)
    requires GoodAccess(table, a)
    ensures Whole(AccessParser(table), AccessOctets(table, a))
  {
    hide TlvAt, OidAt, GeneralNameAt, GeneralNameOctets, GoodGeneralName, Header;
    var oid, location := MethodOid(a.ocsp), GeneralNameOctets(table, a.location);
    var body := oid + location;
    EncodeThenParse(UNIVERSAL, true, SEQUENCE, body, []);
    assert AccessOctets(table, a) + [] == AccessOctets(table, a);
    MethodIsOid(a.ocsp);
    OidStable(oid, location, 10);
    GeneralNameRoundTrip(table, a.location, []);
    assert location + [] == location;
    assert body[..10] == oid && body[10..] == location;
  }

  /** One of two identifiers, which differ in their last octet, and one general name. */
  ghost predicate AccessForm(table: Table, content: Octets, last: byte, g: Octets) {
    && last in {1, 2} && Whole(GeneralNameParser(table), g)
    && content == [0x06, 0x08, 0x2b, 0x06, 0x01, 0x05, 0x05, 0x07, 0x30, last] + g
  }

  /** An access description is accepted exactly when it is one SEQUENCE around contents of that form. */
  lemma AccessExact(table: Table, part: Octets)
    ensures Whole(AccessParser(table), part) <==>
            exists p, content, last: byte, g ::
              && |content| < U32_LIMIT && part == Tlv(UNIVERSAL, p, SEQUENCE, content)
              && AccessForm(table, content, last, g)
  {
    hide TlvAt, Tlv, AccessParser, AccessBody, AccessForm;
    AccessIs(table, part);
    if Whole(AccessParser(table), part) {
      var p, content := FillsBuffer(part, UNIVERSAL, SEQUENCE);
      var last, g := AccessFound(table, content);
    }
    if p, content, last: byte, g :| |content| < U32_LIMIT && part == Tlv(UNIVERSAL, p, SEQUENCE, content)
                                    && AccessForm(table, content, last, g) {
      EncodedFills(UNIVERSAL, p, SEQUENCE, content);
      AccessAccepted(table, content, last, g);
    }
  }

  lemma AccessIs(table: Table, part: Octets)
    ensures Whole(AccessParser(table), part) <==>
            var e := TlvAt(part, UNIVERSAL, SEQUENCE);
            e.Some? && e.value.Total() == |part| && AccessBody(table, part[e.value.header..e.value.Total()])
  {
    hide TlvAt, OidAt, GeneralNameAt;
  }

  lemma AccessFound(table: Table, body: Octets) returns (last: byte, g: Octets)
    requires AccessBody(table, body)
    ensures AccessForm(table, body, last, g)
  {
    hide OidAt, GeneralNameAt;
    var oid := body[..OidAt(body).value];
    last, g := oid[9], body[10..];
    assert body == oid + g;
  }

  lemma AccessAccepted(table: Table, body: Octets, last: byte, g: Octets)
    requires AccessForm(table, body, last, g)
    ensures AccessBody(table, body)
  {
    hide OidAt, GeneralNameAt;
    var oid := MethodOid(last == 2);
    MethodIsOid(last == 2);
    assert body == oid + g;
    OidStable(oid, g, 10);
    assert body[..10] == oid && body[10..] == g;
  }

  ghost function EncodedAccess(table: Table, accesses: seq<Access>): (parts: seq<Octets>)
    requires forall i :: 0 <= i < |accesses| ==> GoodAccess(table, accesses[i])
    ensures |parts| == |accesses|
  {
    seq(|accesses|, i requires 0 <= i < |accesses| => AccessOctets(table, accesses[i]))
  }

  /** Every list of one access description or more is accepted as an extension value that is not critical. */
  lemma AiaRoundTrip(table: Table, accesses: seq<Access>)
    requires accesses != [] && forall i :: 0 <= i < |accesses| ==> GoodAccess(table, accesses[i])
    requires |Concat(EncodedAccess(table, accesses))| < U32_LIMIT
    ensures AiaValue(table, Tlv(UNIVERSAL, true, SEQUENCE, Concat(EncodedAccess(table, accesses))), false)
  {
    hide TlvAt, AccessOctets, AccessParser, GoodAccess, Header, AiaValue;
    var parts := EncodedAccess(table, accesses);
    forall i | 0 <= i < |parts| ensures Whole(AccessParser(table), parts[i]) {
      AccessIsWhole(table, accesses[i]);
    }
    var content := Concat(parts);
    var s := Tlv(UNIVERSAL, true, SEQUENCE, content);
    EncodeThenParse(UNIVERSAL, true, SEQUENCE, content, []);
    assert s + [] == s;
    var e := TlvAt(s, UNIVERSAL, SEQUENCE).value;
    assert s[e.header..] == content;
    assert AllWhole(AccessParser(table), parts);
    AiaSplits(table, s, false);
  }
}
