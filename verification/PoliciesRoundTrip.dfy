/** Certificate policies, encoded and parsed again, at all three levels of their lists. */
module PoliciesRoundTrip {
  import opened Bytes
  import opened Der
  import opened DerInteger
  import opened Containers
  import opened Names
  import opened Elements
  import opened GeneralNamesRoundTrip
  import opened Policies

  datatype DisplayText = DisplayText(kind: byte, text: Octets)

  datatype Reference = Reference(organization: DisplayText, numbers: seq<nat>)

  datatype Qualifier =
    | Cps(uri: Octets)
    | Notice(reference: Option<Reference>, text: Option<DisplayText>)

  /** A policy: its encoded identifier, and its qualifiers if it has a list of them. */
  datatype Policy = Policy(oid: Octets, qualifiers: Option<seq<Qualifier>>)

  // ---------------------------------------------------------------- display text and references

  ghost predicate GoodText(d: DisplayText) {
    Displayable(d.kind, d.text) && |d.text| < U32_LIMIT
  }

  ghost function TextOctets(d: DisplayText): Octets
    requires GoodText(d)
  {
    Tlv(UNIVERSAL, false, d.kind, d.text)
  }

  lemma DisplayTextReads(d: DisplayText, rest: Octets)
    requires GoodText(d)
    ensures DisplayTextAt(TextOctets(d) + rest) == Some(|TextOctets(d)|)
    ensures TlvAt(TextOctets(d) + rest, UNIVERSAL, SEQUENCE).None?
  {
    hide TlvAt, Charset, LengthOctets;
    EncodeThenParse(UNIVERSAL, false, d.kind, d.text, rest);
    OtherElement(UNIVERSAL, false, d.kind, d.text, rest, UNIVERSAL, SEQUENCE);
    assert (TextOctets(d) + rest)[0] == d.kind;
  }

  predicate GoodNumbers(ns: seq<nat>) {
    forall i :: 0 <= i < |ns| ==> |NaturalOctets(ns[i])| < U32_LIMIT
  }

  function NumberOctets(n: nat): Octets
    requires |NaturalOctets(n)| < U32_LIMIT
  {
    Tlv(UNIVERSAL, false, INTEGER, NaturalOctets(n))
  }

  function EncodedNumbers(ns: seq<nat>): (parts: seq<Octets>)
    requires GoodNumbers(ns)
  {
    seq(|ns|, i requires 0 <= i < |ns| => NumberOctets(ns[i]))
  }

  lemma NumberReads(n: nat)
    requires |NaturalOctets(n)| < U32_LIMIT
    ensures Whole(NumberParser(), NumberOctets(n))
  {
    hide TlvAt, Header, NaturalOctets, Minimal;
    NaturalRoundTrip(n);
    EncodeThenParse(UNIVERSAL, false, INTEGER, NaturalOctets(n), []);
    assert NumberOctets(n) + [] == NumberOctets(n);
  }

  lemma NumbersRead(ns: seq<nat>)
    requires GoodNumbers(ns)
    ensures Split(NumberParser(), Concat(EncodedNumbers(ns))).Some?
  {
    hide NumberParser, NumberOctets, NaturalOctets, Split;
    var parts := EncodedNumbers(ns);
    forall i | 0 <= i < |parts| ensures Whole(NumberParser(), parts[i]) {
      NumberReads(ns[i]);
    }
    NumbersStable();
    SplitExact(NumberParser(), Concat(parts), parts);
  }

  ghost predicate GoodReference(r: Reference) {
    && GoodText(r.organization) && GoodNumbers(r.numbers)
    && |Concat(EncodedNumbers(r.numbers))| < U32_LIMIT
    && |ReferenceContent(r)| < U32_LIMIT
  }

  ghost function ReferenceContent(r: Reference): Octets
    requires GoodText(r.organization) && GoodNumbers(r.numbers) && |Concat(EncodedNumbers(r.numbers))| < U32_LIMIT
  {
    TextOctets(r.organization) + Tlv(UNIVERSAL, true, SEQUENCE, Concat(EncodedNumbers(r.numbers)))
  }

  ghost function ReferenceOctets(r: Reference): Octets
    requires GoodReference(r)
  {
    Tlv(UNIVERSAL, true, SEQUENCE, ReferenceContent(r))
  }

  lemma ReferenceReads(r: Reference, rest: Octets)
    requires GoodReference(r)
    ensures NoticeAt(ReferenceOctets(r) + rest) == Some(|ReferenceOctets(r)|)
  {
    hide TlvAt, Header, NoticeBody, ReferenceContent;
    EncodeThenParse(UNIVERSAL, true, SEQUENCE, ReferenceContent(r), rest);
    ReferenceIsNotice(r);
  }

  lemma ReferenceIsNotice(r: Reference)
    requires GoodReference(r)
    ensures NoticeBody(ReferenceContent(r))
  {
    hide TlvAt, Header, DisplayTextAt, TextOctets, GoodText, NumberParser, Split, EncodedNumbers, Concat, GoodNumbers;
    var text, content := TextOctets(r.organization), Concat(EncodedNumbers(r.numbers));
    var list := Tlv(UNIVERSAL, true, SEQUENCE, content);
    var body := text + list;
    DisplayTextReads(r.organization, list);
    assert body[|text|..] == list;
    EncodeThenParse(UNIVERSAL, true, SEQUENCE, content, []);
    assert list + [] == list;
    var l := TlvAt(list, UNIVERSAL, SEQUENCE).value;
    assert list[l.header..] == content;
    assert body[|text| + l.header..] == content;
    NumbersRead(r.numbers);
  }

  // ---------------------------------------------------------------- qualifiers

  ghost predicate GoodNotice(reference: Option<Reference>, text: Option<DisplayText>) {
    && (reference.Some? || text.Some?)
    && (reference.Some? ==> GoodReference(reference.value))
    && (text.Some? ==> GoodText(text.value))
    && |NoticeContent(reference, text)| < U32_LIMIT
  }

  ghost function NoticeContent(reference: Option<Reference>, text: Option<DisplayText>): Octets
    requires reference.Some? ==> GoodReference(reference.value)
    requires text.Some? ==> GoodText(text.value)
  {
    var front := if reference.Some? then ReferenceOctets(reference.value) else [];
    front + if text.Some? then TextOctets(text.value) else []
  }

  lemma PartsRead(reference: Option<Reference>, text: Option<DisplayText>)
    requires GoodNotice(reference, text)
    ensures NoticeContent(reference, text) != [] && NoticeParts(NoticeContent(reference, text))
  {
    hide TlvAt, DisplayTextAt, NoticeAt, TextOctets, GoodText, ReferenceOctets, GoodReference;
    var t := if text.Some? then TextOctets(text.value) else [];
    if text.Some? {
      DisplayTextReads(text.value, []);
      assert t + [] == t;
    } else {
      NoText();
    }
    if reference.Some? {
      ReferenceReads(reference.value, t);
      var r := ReferenceOctets(reference.value);
      assert NoticeContent(reference, text)[|r|..] == t;
    } else {
      assert NoticeContent(reference, text) == t;
      assert t[0..] == t;
      NoReference(t);
    }
  }

  lemma NoText()
    ensures DisplayTextAt([]).None?
  {
  }

  lemma NoReference(s: Octets)
    requires TlvAt(s, UNIVERSAL, SEQUENCE).None?
    ensures NoticeAt(s).None?
  {
  }

  ghost predicate GoodQualifier(q: Qualifier) {
    && (match q
        case Cps(uri) => 1 <= |uri| < 128 && Charset(IA5_STRING, uri)
        case Notice(reference, text) => GoodNotice(reference, text))
    && 10 + |QualifierValue(q)| < U32_LIMIT
  }

  ghost function QualifierValue(q: Qualifier): Octets
    requires q.Cps? ==> |q.uri| < 128
    requires q.Notice? ==> GoodNotice(q.reference, q.text)
  {
    match q
    case Cps(uri) => Tlv(UNIVERSAL, false, IA5_STRING, uri)
    case Notice(reference, text) => Tlv(UNIVERSAL, true, SEQUENCE, NoticeContent(reference, text))
  }

  function QualifierOid(q: Qualifier): Octets {
    if q.Cps? then CPS else USER_NOTICE
  }

  ghost function QualifierOctets(q: Qualifier): Octets
    requires GoodQualifier(q)
  {
    Tlv(UNIVERSAL, true, SEQUENCE, QualifierOid(q) + QualifierValue(q))
  }

  lemma QualifierOidReads(q: Qualifier, rest: Octets)
    ensures OidAt(QualifierOid(q) + rest) == Some(10)
  {
    var s := QualifierOid(q);
    assert LengthOctets(8) == [8];
    assert s[..2] == Header(UNIVERSAL, false, OID, 8);
    AcceptsExactlyEncodings(s, UNIVERSAL, OID, Extent(2, 8));
    assert forall i :: 2 <= i < 10 ==> s[i] < 128;
    assert s[2..10] == s[2..];
    SingleOctetArcs(s[2..]);
    OidStable(s, rest, 10);
  }

  lemma QualifierReads(q: Qualifier)
    requires GoodQualifier(q)
    ensures QualifierBody(QualifierOid(q) + QualifierValue(q))
  {
    hide TlvAt, OidAt, UserNotice, Charset, NoticeContent, GoodNotice, Header;
    var oid, rest := QualifierOid(q), QualifierValue(q);
    var body := oid + rest;
    QualifierOidReads(q, rest);
    assert body[..10] == oid && body[10..] == rest;
    match q
    case Cps(uri) =>
      UriReads(uri);
    case Notice(reference, text) =>
      NoticeReads(reference, text);
  }

  lemma UriReads(uri: Octets)
    requires 1 <= |uri| < 128 && Charset(IA5_STRING, uri)
    ensures StringValue(Tlv(UNIVERSAL, false, IA5_STRING, uri), {IA5_STRING}, 1, 65534)
  {
    hide Charset;
    var s := Tlv(UNIVERSAL, false, IA5_STRING, uri);
    assert s[2..] == uri;
  }

  lemma NoticeReads(reference: Option<Reference>, text: Option<DisplayText>)
    requires GoodNotice(reference, text)
    ensures UserNotice(Tlv(UNIVERSAL, true, SEQUENCE, NoticeContent(reference, text)))
  {
    hide TlvAt, Header, NoticeContent, NoticeParts, GoodReference, GoodText;
    var content := NoticeContent(reference, text);
    PartsRead(reference, text);
    EncodeThenParse(UNIVERSAL, true, SEQUENCE, content, []);
    var s := Tlv(UNIVERSAL, true, SEQUENCE, content);
    assert s + [] == s;
    assert s[TlvAt(s, UNIVERSAL, SEQUENCE).value.header..] == content;
  }

  /** Every qualifier, encoded, is one whole qualifier. */
  lemma QualifierIsWhole(q: Qualifier)
    requires GoodQualifier(q)
    ensures Whole(QualifierParser(), QualifierOctets(q))
  {
    hide QualifierBody, QualifierValue, Tlv;
    QualifierReads(q);
    EncodedIsWhole(UNIVERSAL, true, SEQUENCE, c => QualifierBody(c), QualifierOid(q) + QualifierValue(q));
  }

  // ---------------------------------------------------------------- policies

  ghost predicate GoodQualifiers(qs: seq<Qualifier>) {
    (forall i :: 0 <= i < |qs| ==> GoodQualifier(qs[i])) && |Concat(EncodedQualifiers(qs))| < U32_LIMIT
  }

  ghost function EncodedQualifiers(qs: seq<Qualifier>): (parts: seq<Octets>)
    requires forall i :: 0 <= i < |qs| ==> GoodQualifier(qs[i])
  {
    seq(|qs|, i requires 0 <= i < |qs| => QualifierOctets(qs[i]))
  }

  ghost predicate GoodPolicy(p: Policy) {
    && OidAt(p.oid) == Some(|p.oid|)
    && (p.qualifiers.Some? ==> GoodQualifiers(p.qualifiers.value))
    && |p.oid| + |QualifierList(p.qualifiers)| < U32_LIMIT
  }

  ghost function QualifierList(qs: Option<seq<Qualifier>>): Octets
    requires qs.Some? ==> GoodQualifiers(qs.value)
  {
    if qs.None? then [] else Tlv(UNIVERSAL, true, SEQUENCE, Concat(EncodedQualifiers(qs.value)))
  }

  ghost function PolicyOctets(p: Policy): Octets
    requires GoodPolicy(p)
  {
    Tlv(UNIVERSAL, true, SEQUENCE, p.oid + QualifierList(p.qualifiers))
  }

  lemma QualifiersRead(qs: seq<Qualifier>)
    requires GoodQualifiers(qs)
    ensures Split(QualifierParser(), Concat(EncodedQualifiers(qs))).Some?
  {
    var parts := EncodedQualifiers(qs);
    ElementOfStable(UNIVERSAL, SEQUENCE, c => QualifierBody(c));
    hide QualifierOctets, GoodQualifier, Split;
    forall i | 0 <= i < |parts| ensures Whole(QualifierParser(), parts[i]) {
      QualifierIsWhole(qs[i]);
    }
    hide QualifierParser;
    SplitExact(QualifierParser(), Concat(parts), parts);
  }

  lemma PolicyReads(p: Policy)
    requires GoodPolicy(p)
    ensures PolicyBody(p.oid + QualifierList(p.qualifiers))
  {
    hide TlvAt, OidAt, Header, GoodQualifier, EncodedQualifiers, QualifierParser, Split, Concat;
    var list := QualifierList(p.qualifiers);
    OidStable(p.oid, list, |p.oid|);
    assert (p.oid + list)[|p.oid|..] == list;
    if p.qualifiers.Some? {
      var content := Concat(EncodedQualifiers(p.qualifiers.value));
      EncodeThenParse(UNIVERSAL, true, SEQUENCE, content, []);
      assert list + [] == list;
      assert list[TlvAt(list, UNIVERSAL, SEQUENCE).value.header..] == content;
      QualifiersRead(p.qualifiers.value);
    }
  }

  lemma PolicyIsWhole(p: Policy)
    requires GoodPolicy(p)
    ensures Whole(PolicyParser(), PolicyOctets(p))
  {
    hide PolicyBody, QualifierList, Tlv;
    PolicyReads(p);
    EncodedIsWhole(UNIVERSAL, true, SEQUENCE, c => PolicyBody(c), p.oid + QualifierList(p.qualifiers));
  }

  ghost function EncodedPolicies(ps: seq<Policy>): (parts: seq<Octets>)
    requires forall i :: 0 <= i < |ps| ==> GoodPolicy(ps[i])
  {
    seq(|ps|, i requires 0 <= i < |ps| => PolicyOctets(ps[i]))
  }

  ghost predicate GoodPolicies(ps: seq<Policy>) {
    (forall i :: 0 <= i < |ps| ==> GoodPolicy(ps[i])) && |Concat(EncodedPolicies(ps))| < U32_LIMIT
  }

  /** Every list of policies, with identifiers, links and notices of the accepted kinds, is accepted as an extension
      value. */
  lemma PoliciesRoundTrip(ps: seq<Policy>)
    requires GoodPolicies(ps)
    ensures PoliciesValue(Tlv(UNIVERSAL, true, SEQUENCE, Concat(EncodedPolicies(ps))))
  {
    hide TlvAt, Header, PolicyOctets, GoodPolicy, PolicyParser, PoliciesValue;
    var parts := EncodedPolicies(ps);
    forall i | 0 <= i < |parts| ensures Whole(PolicyParser(), parts[i]) {
      PolicyIsWhole(ps[i]);
    }
    var content := Concat(parts);
    var s := Tlv(UNIVERSAL, true, SEQUENCE, content);
    EncodeThenParse(UNIVERSAL, true, SEQUENCE, content, []);
    assert s + [] == s;
    var e := TlvAt(s, UNIVERSAL, SEQUENCE).value;
    assert s[e.header..] == content;
    assert AllWhole(PolicyParser(), parts);
    PoliciesSplit(s);
  }
}
