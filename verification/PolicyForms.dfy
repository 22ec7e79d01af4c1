/** Certificate policies and distribution points in octets: what each part may look like, and nothing else. */
module PolicyForms {
  import opened Bytes
  import opened Der
  import opened DerInteger
  import opened Containers
  import opened Names
  import opened Elements
  import opened GeneralNames
  import opened GeneralNamesRoundTrip
  import opened Policies
  import opened DistributionPoints

  /** An element has one class and number. */
  lemma OneTag(s: Octets, cls: nat, tag: nat, cls': nat, tag': nat)
    requires TlvAt(s, cls, tag).Some? && (cls != cls' || tag != tag')
    ensures TlvAt(s, cls', tag').None?
  {
  }

  /** And the same when octets are appended. */
  lemma OneTagBefore(s: Octets, rest: Octets, cls: nat, tag: nat, cls': nat, tag': nat)
    requires TlvAt(s, cls, tag).Some? && TlvAt(s, cls, tag).value.Total() <= |s| && (cls != cls' || tag != tag')
    ensures TlvAt(s + rest, cls', tag').None?
  {
    hide TlvAt;
    AppendStable(s, rest, cls, tag, TlvAt(s, cls, tag).value);
    OneTag(s + rest, cls, tag, cls', tag');
  }

  // ---------------------------------------------------------------- display text

  /** UTF-8, IA5 or visible characters under their tags; nothing else, and never empty. */
  ghost predicate DisplayForm(part: Octets, kind: byte, c: Octets) {
    && |c| < U32_LIMIT
    && ((kind == 12 && Charset(12, c)) || (kind == 22 && Charset(22, c)) || (kind == 26 && Charset(20, c)))
    && part == [kind] + LengthOctets(|c|) + c
  }

  lemma DisplayTextExact(part: Octets)
    ensures DisplayTextAt(part) == Some(|part|) <==> exists kind, c :: DisplayForm(part, kind, c)
  {
    hide DisplayTextAt, DisplayForm;
    if DisplayTextAt(part) == Some(|part|) {
      var kind, c := DisplayFound(part);
    }
    if kind, c :| DisplayForm(part, kind, c) {
      DisplayAccepted(part, kind, c);
    }
  }

  lemma DisplayFound(part: Octets) returns (kind: byte, c: Octets)
    requires DisplayTextAt(part) == Some(|part|)
    ensures DisplayForm(part, kind, c)
  {
    hide TlvAt, Charset, LengthOctets;
    kind := part[0];
    var p;
    p, c := FillsBuffer(part, UNIVERSAL, kind);
    assert part[0] == kind + if p then 32 else 0;
  }

  lemma DisplayAccepted(part: Octets, kind: byte, c: Octets)
    requires DisplayForm(part, kind, c)
    ensures DisplayTextAt(part) == Some(|part|) && part != [] && part[0] == kind && kind in {12, 22, 26}
  {
    hide TlvAt, Charset, LengthOctets;
    EncodedFills(UNIVERSAL, false, kind, c);
    assert part == Tlv(UNIVERSAL, false, kind, c);
  }

  // ---------------------------------------------------------------- numbers of a notice

  /** The shortest contents of their value. */
  ghost predicate Shortest(c: Octets) {
    c != [] && forall d: Octets :: d != [] && TwosValue(d) == TwosValue(c) ==> |d| >= |c|
  }

  /** A number of a notice, or a serial number, is one INTEGER in its shortest form, of either sign. */
  lemma NumberExact(part: Octets)
    ensures NumberAt(part) == Some(|part|) <==>
            exists p, c :: |c| < U32_LIMIT && part == Tlv(UNIVERSAL, p, INTEGER, c) && Shortest(c)
  {
    hide TlvAt, Tlv, Minimal, TwosValue;
    if NumberAt(part) == Some(|part|) {
      var p, c := FillsBuffer(part, UNIVERSAL, INTEGER);
      MinimalIsShortest(c);
    }
    if p, c :| |c| < U32_LIMIT && part == Tlv(UNIVERSAL, p, INTEGER, c) && Shortest(c) {
      EncodedFills(UNIVERSAL, p, INTEGER, c);
      MinimalIsShortest(c);
    }
  }

  // ---------------------------------------------------------------- notices

  lemma NoticeStable(s: Octets, rest: Octets, n: nat)
    requires n <= |s|
    ensures NoticeAt(s) == Some(n) <==> NoticeAt(s + rest) == Some(n)
  {
    hide TlvAt, NoticeBody;
    ElementStable(s, rest, UNIVERSAL, SEQUENCE, n);
  }

  lemma TextIsNoReference(t: Octets)
    requires DisplayTextAt(t) == Some(|t|)
    ensures NoticeAt(t).None?
  {
    hide Charset, Displayable, NoticeBody;
    OneTag(t, UNIVERSAL, t[0], UNIVERSAL, SEQUENCE) by {
      hide TlvAt;
      DisplayTextExact(t);
      var kind, c :| DisplayForm(t, kind, c);
      DisplayAccepted(t, kind, c);
    }
  }

  /** An optional reference and an optional text. */
  ghost predicate NoticeForm(body: Octets, r: Octets, t: Octets) {
    && body == r + t
    && (r == [] || NoticeAt(r) == Some(|r|))
    && (t == [] || DisplayTextAt(t) == Some(|t|))
  }

  lemma NoticePartsExact(body: Octets)
    ensures NoticeParts(body) <==> exists r, t :: NoticeForm(body, r, t)
  {
    hide NoticeAt, DisplayTextAt;
    NoText();
    if NoticeParts(body) {
      var n := Eaten(NoticeAt(body));
      var r, t := body[..n], body[n..];
      assert body == r + t;
      NoticeStable(r, t, n);
      assert NoticeForm(body, r, t);
    }
    if r, t :| NoticeForm(body, r, t) {
      if r == [] {
        assert body == t && body[0..] == body;
        if t != [] {
          TextIsNoReference(t);
        }
      } else {
        NoticeStable(r, t, |r|);
        assert body[|r|..] == t;
      }
    }
  }

  lemma NoText()
    ensures DisplayTextAt([]).None? && NoticeAt([]).None?
  {
    hide TlvAt;
    NoElement(UNIVERSAL, SEQUENCE);
  }

  // ---------------------------------------------------------------- qualifiers

  /** A link: the octet 22, one octet for the size of what follows, and characters below 128, at least one. */
  predicate LinkForm(s: Octets) {
    |s| >= 3 && s[0] == 22 && s[1] == |s| - 2 && forall i :: 2 <= i < |s| ==> s[i] < 128
  }

  /** A qualifier is the identifier of links and a link, or the identifier of notices and a notice; the two differ in
      their last octet. */
  ghost predicate QualifierForm(body: Octets, last: byte, rest: Octets) {
    && body == [0x06, 0x08, 0x2b, 0x06, 0x01, 0x05, 0x05, 0x07, 0x02, last] + rest
    && ((last == 1 && LinkForm(rest)) || (last == 2 && UserNotice(rest)))
  }

  lemma QualifierExact(body: Octets)
    ensures QualifierBody(body) <==> exists last: byte, rest :: QualifierForm(body, last, rest)
  {
    hide QualifierBody, QualifierForm;
    if QualifierBody(body) {
      var last, rest := QualifierFound(body);
    }
    if last: byte, rest :| QualifierForm(body, last, rest) {
      QualifierAccepted(body, last, rest);
    }
  }

  lemma LinkExact(s: Octets)
    ensures StringValue(s, {IA5_STRING}, 1, 65534) <==> LinkForm(s)
  {
    assert |s| >= 2 ==> forall i :: 2 <= i < |s| ==> s[i] == s[2..][i - 2];
  }

  lemma QualifierFound(body: Octets) returns (last: byte, rest: Octets)
    requires QualifierBody(body)
    ensures QualifierForm(body, last, rest)
  {
    hide OidAt, UserNotice, StringValue, LinkForm;
    var oid := body[..OidAt(body).value];
    last, rest := oid[9], body[10..];
    assert body == oid + rest;
    LinkExact(rest);
  }

  lemma QualifierAccepted(body: Octets, last: byte, rest: Octets)
    requires QualifierForm(body, last, rest)
    ensures QualifierBody(body)
  {
    hide OidAt, UserNotice, StringValue, LinkForm;
    var oid := if last == 1 then CPS else USER_NOTICE;
    assert body == oid + rest;
    QualifierOid(last == 1);
    OidStable(oid, rest, 10);
    assert body[..10] == oid && body[10..] == rest;
    LinkExact(rest);
  }

  lemma QualifierOid(link: bool)
    ensures OidAt(if link then CPS else USER_NOTICE) == Some(10)
  {
    hide TlvAt;
    var s := if link then CPS else USER_NOTICE;
    assert LengthOctets(8) == [8];
    assert s == Tlv(UNIVERSAL, false, OID, s[2..]);
    EncodedFills(UNIVERSAL, false, OID, s[2..]);
    SingleOctetArcs(s[2..]);
  }

  // ---------------------------------------------------------------- distribution points

  /** The name of a point: general names in their own element, constructed, inside one more. */
  ghost predicate PointNameForm(table: Table, part: Octets, p: bool, content: Octets) {
    && |content| < U32_LIMIT && |Tlv(CONTEXT_SPECIFIC, true, 0, content)| < U32_LIMIT
    && part == Tlv(CONTEXT_SPECIFIC, p, 0, Tlv(CONTEXT_SPECIFIC, true, 0, content))
    && Split(GeneralNameParser(table), content).Some?
  }

  lemma PointNameExact(table: Table, part: Octets)
    ensures part != [] && PointNameAt(table, part) == Some(|part|) <==>
            exists p, content :: PointNameForm(table, part, p, content)
  {
    hide TlvAt, LengthOctets, Split, GeneralNameParser;
    if part != [] && PointNameAt(table, part) == Some(|part|) {
      var p, inner := FillsBuffer(part, CONTEXT_SPECIFIC, 0);
      var q, content := FillsBuffer(inner, CONTEXT_SPECIFIC, 0);
      assert inner[0] == 0x80 + if q then 32 else 0;
      assert PointNameForm(table, part, p, content);
    }
    if p, content :| PointNameForm(table, part, p, content) {
      var inner := Tlv(CONTEXT_SPECIFIC, true, 0, content);
      EncodedFills(CONTEXT_SPECIFIC, p, 0, inner);
      EncodedFills(CONTEXT_SPECIFIC, true, 0, content);
      assert inner[0] == 0xA0;
    }
  }

  lemma PointNameStable(table: Table, s: Octets, rest: Octets)
    requires s != [] && PointNameAt(table, s) == Some(|s|)
    ensures PointNameAt(table, s + rest) == Some(|s|)
  {
    hide TlvAt, GeneralNamesAt;
    var e := TlvAt(s, CONTEXT_SPECIFIC, 0).value;
    AppendStable(s, rest, CONTEXT_SPECIFIC, 0, e);
    assert (s + rest)[e.header..e.Total()] == s[e.header..e.Total()];
  }

  lemma PointNameCut(table: Table, body: Octets, n: nat)
    requires 0 < n <= |body| && PointNameAt(table, body) == Some(n)
    ensures PointNameAt(table, body[..n]) == Some(n)
  {
    hide TlvAt, GeneralNamesAt;
    var e := TlvAt(body, CONTEXT_SPECIFIC, 0).value;
    assert body == body[..n] + body[n..];
    AppendStable(body[..n], body[n..], CONTEXT_SPECIFIC, 0, e);
    assert body[..n][e.header..e.Total()] == body[e.header..e.Total()];
  }

  lemma ReasonsStable(s: Octets, rest: Octets, n: nat)
    requires n <= |s|
    ensures ReasonsAt(s) == Some(n) <==> ReasonsAt(s + rest) == Some(n)
  {
    hide TlvAt, NamedBits;
    ElementStable(s, rest, CONTEXT_SPECIFIC, 1, n);
  }

  lemma NamesStable(table: Table, s: Octets, rest: Octets, n: nat)
    requires n <= |s|
    ensures GeneralNamesAt(table, s, CONTEXT_SPECIFIC, 2) == Some(n) <==>
            GeneralNamesAt(table, s + rest, CONTEXT_SPECIFIC, 2) == Some(n)
  {
    hide TlvAt, Split, GeneralNameParser;
    ElementStable(s, rest, CONTEXT_SPECIFIC, 2, n);
  }

  /** An optional name, optional reasons and an optional issuer, one of the first and the last at least. */
  ghost predicate PointForm(table: Table, body: Octets, name: Octets, reasons: Octets, issuer: Octets) {
    && body == name + (reasons + issuer)
    && (name == [] || PointNameAt(table, name) == Some(|name|))
    && (reasons == [] || ReasonsAt(reasons) == Some(|reasons|))
    && (issuer == [] || GeneralNamesAt(table, issuer, CONTEXT_SPECIFIC, 2) == Some(|issuer|))
    && (name != [] || issuer != [])
  }

  /** A point is accepted exactly when it has that form, and covers all reasons exactly when it names none. */
  lemma PointExact(table: Table, body: Octets, all: bool)
    ensures PointBody(table, body) == Some(all) <==>
            exists name, reasons, issuer :: PointForm(table, body, name, reasons, issuer) && all == (reasons == [])
  {
    hide PointBody, PointForm;
    if PointBody(table, body) == Some(all) {
      var name, reasons, issuer := PointFound(table, body, all);
    }
    if name, reasons, issuer :| PointForm(table, body, name, reasons, issuer) && all == (reasons == []) {
      PointAccepted(table, body, name, reasons, issuer);
    }
  }

  lemma PointFound(table: Table, body: Octets, all: bool) returns (name: Octets, reasons: Octets, issuer: Octets)
    requires PointBody(table, body) == Some(all)
    ensures PointForm(table, body, name, reasons, issuer) && all == (reasons == [])
  {
    hide PointNameAt, ReasonsAt, GeneralNamesAt;
    var p1 := PointNameAt(table, body).value;
    name := body[..p1];
    var rest := body[p1..];
    if p1 > 0 {
      PointNameCut(table, body, p1);
    }
    var n := Eaten(ReasonsAt(rest));
    reasons, issuer := rest[..n], rest[n..];
    assert rest == reasons + issuer && body == name + rest;
    ReasonsStable(reasons, issuer, n);
    assert issuer == body[p1 + n..];
  }

  lemma PointAccepted(table: Table, body: Octets, name: Octets, reasons: Octets, issuer: Octets)
    requires PointForm(table, body, name, reasons, issuer)
    ensures PointBody(table, body) == Some(reasons == [])
  {
    hide PointNameAt, ReasonsAt, GeneralNamesAt;
    var rest := reasons + issuer;
    IssuerAlone(table, issuer);
    if reasons == [] {
      assert rest == issuer;
    } else {
      ReasonsStable(reasons, issuer, |reasons|);
      ReasonsHaveNoName(table, reasons, issuer);
    }
    if name == [] {
      assert body == rest;
    } else {
      PointNameStable(table, name, rest);
    }
    assert body[|name|..] == rest && rest[|reasons|..] == issuer;
    assert body[|name| + |reasons|..] == issuer;
  }

  /** Before an issuer, or at the end, no name and no reasons begin. */
  lemma IssuerAlone(table: Table, issuer: Octets)
    requires issuer == [] || GeneralNamesAt(table, issuer, CONTEXT_SPECIFIC, 2) == Some(|issuer|)
    ensures PointNameAt(table, issuer) == Some(0) && ReasonsAt(issuer).None?
    ensures issuer == [] ==> GeneralNamesAt(table, issuer, CONTEXT_SPECIFIC, 2).None?
  {
    hide TlvAt, Split, GeneralNameParser, NamedBits;
    if issuer == [] {
      NoElement(CONTEXT_SPECIFIC, 0);
      NoElement(CONTEXT_SPECIFIC, 1);
      NoElement(CONTEXT_SPECIFIC, 2);
    } else {
      OneTag(issuer, CONTEXT_SPECIFIC, 2, CONTEXT_SPECIFIC, 0);
      OneTag(issuer, CONTEXT_SPECIFIC, 2, CONTEXT_SPECIFIC, 1);
    }
  }

  lemma ReasonsHaveNoName(table: Table, reasons: Octets, rest: Octets)
    requires ReasonsAt(reasons) == Some(|reasons|)
    ensures PointNameAt(table, reasons + rest) == Some(0)
  {
    hide TlvAt, GeneralNamesAt, NamedBits;
    OneTagBefore(reasons, rest, CONTEXT_SPECIFIC, 1, CONTEXT_SPECIFIC, 0);
  }
}
