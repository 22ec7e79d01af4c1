/** Certificate policies: three loops inside one another, over policies, their qualifiers and the numbers of a
    notice. */
module Policies {
  import opened Bytes
  import opened Der
  import opened DerInteger
  import opened Containers
  import opened Names
  import opened Elements

  const VISIBLE_STRING: byte := 26
  const BMP_STRING: byte := 30

  const CPS: Octets := [0x06, 0x08, 0x2b, 0x06, 0x01, 0x05, 0x05, 0x07, 0x02, 0x01]
  const USER_NOTICE: Octets := [0x06, 0x08, 0x2b, 0x06, 0x01, 0x05, 0x05, 0x07, 0x02, 0x02]

  // ---------------------------------------------------------------- the kinds of content

  /** Display text is UTF-8, IA5 or visible; the check of a BMPString refuses everything. */
  ghost predicate Displayable(kind: byte, c: Octets) {
    (kind in {UTF8_STRING, IA5_STRING} && Charset(kind, c)) || (kind == VISIBLE_STRING && Charset(TELETEX_STRING, c))
  }

  ghost function DisplayTextAt(s: Octets): (r: Option<nat>)
    ensures r.Some? ==> 1 <= r.value <= |s|
  {
    if s == [] then None
    else
      var e :- TlvAt(s, UNIVERSAL, s[0]);
      if Displayable(s[0], s[e.header..e.Total()]) then Some(e.Total()) else None
  }

  function NumberAt(s: Octets): (r: Option<nat>)
    ensures r.Some? ==> 1 <= r.value <= |s|
  {
    var e :- IntegerAt(s, UNIVERSAL, INTEGER, false);
    Some(e.Total())
  }

  function NumberParser(): (p: ElementParser)
    ensures forall s :: p(s) == NumberAt(s)
  {
    s => NumberAt(s)
  }

  /** A notice reference: display text, then a SEQUENCE of numbers up to the end. */
  ghost predicate NoticeBody(body: Octets) {
    var d := DisplayTextAt(body);
    d.Some?
    && var l := TlvAt(body[d.value..], UNIVERSAL, SEQUENCE);
       l.Some? && d.value + l.value.Total() == |body| && Split(NumberParser(), body[d.value + l.value.header..]).Some?
  }

  ghost function NoticeAt(s: Octets): (r: Option<nat>)
    ensures r.Some? ==> 1 <= r.value <= |s|
  {
    ElementAt(UNIVERSAL, SEQUENCE, c => NoticeBody(c), s)
  }

  /** A user notice uses all octets it is given behind its header, whatever length the header announces. */
  ghost predicate UserNotice(s: Octets) {
    var e := TlvAt(s, UNIVERSAL, SEQUENCE);
    e.Some? && e.value.content > 0 && NoticeParts(s[e.value.header..])
  }

  /** An optional reference and an optional text together are all of the octets. */
  ghost predicate NoticeParts(body: Octets) {
    var n := Eaten(NoticeAt(body));
    n + Eaten(DisplayTextAt(body[n..])) == |body|
  }

  ghost predicate QualifierBody(body: Octets) {
    var n := OidAt(body);
    n.Some?
    && var rest := body[n.value..];
       || (body[..n.value] == CPS && StringValue(rest, {IA5_STRING}, 1, 65534))
       || (body[..n.value] == USER_NOTICE && UserNotice(rest))
  }

  ghost function QualifierParser(): ElementParser {
    ElementOf(UNIVERSAL, SEQUENCE, c => QualifierBody(c))
  }

  ghost predicate PolicyBody(body: Octets) {
    var n := OidAt(body);
    n.Some?
    && var rest := body[n.value..];
       || rest == []
       || (var q := TlvAt(rest, UNIVERSAL, SEQUENCE);
           q.Some? && q.value.Total() == |rest| && Split(QualifierParser(), rest[q.value.header..]).Some?)
  }

  ghost function PolicyParser(): ElementParser {
    ElementOf(UNIVERSAL, SEQUENCE, c => PolicyBody(c))
  }

  ghost predicate PoliciesValue(s: Octets) {
    var e := TlvAt(s, UNIVERSAL, SEQUENCE);
    e.Some? && e.value.Total() == |s| && Split(PolicyParser(), s[e.value.header..]).Some?
  }

  // ---------------------------------------------------------------- the parsers

  method ParseDisplayText(s: Octets) returns (eaten: Option<nat>)
    ensures eaten == DisplayTextAt(s)
  {
    hide TlvAt, Charset;
    if |s| == 0 {
      return None;
    }
    var strType := s[0];
    if strType != UTF8_STRING && strType != IA5_STRING && strType != VISIBLE_STRING && strType != BMP_STRING {
      return None;
    }
    var e := ParseIdLen(s, UNIVERSAL, strType);
    if e.None? {
      return None;
    }
    var buf := s[e.value.header..e.value.Total()];
    var ok := false;
    if strType == UTF8_STRING || strType == IA5_STRING {
      ok := CheckString(buf, strType);
    } else if strType == VISIBLE_STRING {
      ok := CheckString(buf, TELETEX_STRING);
    }
    return if ok then Some(e.value.header + e.value.content) else None;
  }

  /** The loop over the numbers of a notice. */
  method ParseNumbers(list: Octets) returns (ok: bool)
    ensures ok <==> Split(NumberParser(), list).Some?
  {
    hide TlvAt, IntegerAt, NumberAt, Split, NumberParser;
    var buf, remain := list, |list|;
    ghost var p := NumberParser();
    while remain > 0
      invariant remain == |buf|
      invariant Split(p, buf).Some? <==> Split(p, list).Some?
      decreases remain
    {
      SplitStep(p, buf);
      NumberIs(buf);
      var x := ParseInteger(buf, UNIVERSAL, INTEGER);
      if x.None? {
        return false;
      }
      var parsed := x.value.header + x.value.content;
      remain := remain - parsed;
      buf := buf[parsed..];
    }
    SplitStep(p, buf);
    return true;
  }

  method ParseNoticeReference(s: Octets) returns (eaten: Option<nat>)
    ensures eaten == NoticeAt(s)
  {
    hide TlvAt, DisplayTextAt, Split, NumberParser;
    if |s| == 0 {
      return None;
    }
    var e := ParseIdLen(s, UNIVERSAL, SEQUENCE);
    if e.None? {
      return None;
    }
    var body := s[e.value.header..e.value.Total()];
    var text := ParseDisplayText(body);
    if text.None? {
      assert !NoticeBody(body);
      return None;
    }
    var buf := body[text.value..];
    var list := ParseIdLen(buf, UNIVERSAL, SEQUENCE);
    if list.None? || |buf| - list.value.header != list.value.content {
      assert !NoticeBody(body);
      return None;
    }
    buf := buf[list.value.header..];
    assert buf == body[text.value + list.value.header..];
    var ok := ParseNumbers(buf);
    assert ok <==> NoticeBody(body);
    return if ok then Some(e.value.header + e.value.content) else None;
  }

  lemma NumberIs(s: Octets)
    ensures var x := IntegerAt(s, UNIVERSAL, INTEGER, false);
            NumberAt(s) == if x.Some? then Some(x.value.Total()) else None
  {
  }

  method ParseUserNotice(s: Octets) returns (ok: bool)
    ensures ok <==> UserNotice(s)
  {
    hide TlvAt, DisplayTextAt, NoticeAt;
    if |s| == 0 {
      return false;
    }
    var e := ParseIdLen(s, UNIVERSAL, SEQUENCE);
    if e.None? || e.value.content == 0 {
      return false;
    }
    var buf := s[e.value.header..];
    ghost var body := buf;
    var parsed := ParseNoticeReference(buf);
    if parsed.Some? {
      buf := buf[parsed.value..];
    }
    assert buf == body[Eaten(NoticeAt(body))..];
    parsed := ParseDisplayText(buf);
    if parsed.Some? {
      buf := buf[parsed.value..];
    }
    return |buf| == 0;
  }

  method ParseQualifierBody(body: Octets) returns (ok: bool)
    ensures ok <==> QualifierBody(body)
  {
    hide TlvAt, OidAt, UserNotice, StringValue;
    var oidLen := ParseOid(body);
    if oidLen.None? {
      return false;
    }
    var oid, buf := body[..oidLen.value], body[oidLen.value..];
    if oid == CPS {
      ok := ParseStringValue(buf, {IA5_STRING}, 1, 65534);
    } else if oid == USER_NOTICE {
      ok := ParseUserNotice(buf);
    } else {
      ok := false;
    }
  }

  method ParsePolicyQualifierInfo(s: Octets) returns (eaten: Option<nat>)
    ensures eaten == QualifierParser()(s)
  {
    hide TlvAt, QualifierBody;
    if |s| == 0 {
      return None;
    }
    var e := ParseIdLen(s, UNIVERSAL, SEQUENCE);
    if e.None? {
      return None;
    }
    var ok := ParseQualifierBody(s[e.value.header..e.value.Total()]);
    return if ok then Some(e.value.header + e.value.content) else None;
  }

  /** The loop over the qualifiers of a policy. */
  method ParseQualifiers(list: Octets) returns (ok: bool)
    ensures ok <==> Split(QualifierParser(), list).Some?
  {
    hide Split, QualifierParser;
    var buf, remain := list, |list|;
    ghost var p := QualifierParser();
    while remain > 0
      invariant remain == |buf|
      invariant Split(p, buf).Some? <==> Split(p, list).Some?
      decreases remain
    {
      SplitStep(p, buf);
      var parsed := ParsePolicyQualifierInfo(buf);
      if parsed.None? {
        return false;
      }
      remain := remain - parsed.value;
      buf := buf[parsed.value..];
    }
    SplitStep(p, buf);
    return true;
  }

  method ParsePolicyInformation(s: Octets) returns (eaten: Option<nat>)
    ensures eaten == PolicyParser()(s)
  {
    hide TlvAt, OidAt, Split, QualifierParser;
    if |s| == 0 {
      return None;
    }
    var e := ParseIdLen(s, UNIVERSAL, SEQUENCE);
    if e.None? {
      return None;
    }
    var body := s[e.value.header..e.value.Total()];
    var ok := false;
    var oidLen := ParseOid(body);
    if oidLen.Some? {
      var buf := body[oidLen.value..];
      if |buf| == 0 {
        ok := true;
      } else {
        var list := ParseIdLen(buf, UNIVERSAL, SEQUENCE);
        if list.Some? && |buf| - list.value.header == list.value.content {
          ok := ParseQualifiers(buf[list.value.header..]);
        }
      }
    }
    assert ok <==> PolicyBody(body);
    return if ok then Some(e.value.header + e.value.content) else None;
  }

  method ParseCertPolicies(s: Octets) returns (ok: bool)
    ensures ok <==> PoliciesValue(s)
  {
    hide TlvAt, Split, PolicyParser;
    if |s| == 0 {
      return false;
    }
    var e := ParseIdLen(s, UNIVERSAL, SEQUENCE);
    if e.None? || |s| != e.value.header + e.value.content {
      return false;
    }
    var buf, remain := s[e.value.header..], e.value.content;
    ghost var content, p := buf, PolicyParser();
    while remain > 0
      invariant remain == |buf|
      invariant Split(p, buf).Some? <==> Split(p, content).Some?
      decreases remain
    {
      SplitStep(p, buf);
      var parsed := ParsePolicyInformation(buf);
      if parsed.None? {
        return false;
      }
      remain := remain - parsed.value;
      buf := buf[parsed.value..];
    }
    SplitStep(p, buf);
    return true;
  }

  // ---------------------------------------------------------------- what acceptance means

  lemma NumbersStable()
    ensures Stable(NumberParser())
  {
    hide TlvAt, Minimal;
    forall s: Octets, rest: Octets, n: nat | n <= |s|
      ensures NumberAt(s) == Some(n) <==> NumberAt(s + rest) == Some(n)
    {
      ElementStable(s, rest, UNIVERSAL, INTEGER, n);
    }
  }

  /** A notice reference is display text and one list, covered by INTEGER elements to its last octet. */
  lemma NoticeSplits(body: Octets)
    ensures NoticeBody(body) <==>
            && DisplayTextAt(body).Some?
            && (var d := DisplayTextAt(body).value;
                exists l: Extent, numbers ::
                  && TlvAt(body[d..], UNIVERSAL, SEQUENCE) == Some(l) && d + l.Total() == |body|
                  && AllWhole(NumberParser(), numbers) && Concat(numbers) == body[d + l.header..])
  {
    hide TlvAt, DisplayTextAt, NumberParser;
    NumbersStable();
    if DisplayTextAt(body).Some? {
      var d := DisplayTextAt(body).value;
      if l: Extent :| TlvAt(body[d..], UNIVERSAL, SEQUENCE) == Some(l) && d + l.Total() == |body| {
        ListExact(NumberParser(), body[d + l.header..]);
      }
    }
  }

  /** A policy is an identifier alone, or an identifier and one list covered by whole qualifiers. */
  lemma PolicySplits(body: Octets)
    ensures PolicyBody(body) <==>
            && OidAt(body).Some?
            && (var rest := body[OidAt(body).value..];
                rest == []
                || exists l: Extent, qualifiers ::
                     && TlvAt(rest, UNIVERSAL, SEQUENCE) == Some(l) && l.Total() == |rest|
                     && AllWhole(QualifierParser(), qualifiers) && Concat(qualifiers) == rest[l.header..])
  {
    hide TlvAt, OidAt;
    ElementOfStable(UNIVERSAL, SEQUENCE, c => QualifierBody(c));
    hide QualifierParser;
    if OidAt(body).Some? {
      var rest := body[OidAt(body).value..];
      if l: Extent :| TlvAt(rest, UNIVERSAL, SEQUENCE) == Some(l) && l.Total() == |rest| {
        ListExact(QualifierParser(), rest[l.header..]);
      }
    }
  }

  /** The extension value is accepted exactly when it is one SEQUENCE over all its octets whose content is a
      concatenation of whole policies. */
  lemma PoliciesSplit(s: Octets)
    ensures PoliciesValue(s) <==>
            exists e: Extent, policies ::
              && TlvAt(s, UNIVERSAL, SEQUENCE) == Some(e) && e.Total() == |s|
              && AllWhole(PolicyParser(), policies) && Concat(policies) == s[e.header..]
  {
    hide TlvAt;
    ElementOfStable(UNIVERSAL, SEQUENCE, c => PolicyBody(c));
    hide PolicyParser;
    if e: Extent :| TlvAt(s, UNIVERSAL, SEQUENCE) == Some(e) && e.Total() == |s| {
      ListExact(PolicyParser(), s[e.header..]);
    }
  }

  /** A user notice is a header that announces at least one octet and no more than there are, and behind it parts that
      use all there are. */
  ghost predicate NoticeWith(s: Octets, p: bool, announced: nat, body: Octets) {
    && 1 <= announced <= |body| && announced < U32_LIMIT
    && s == Header(UNIVERSAL, p, SEQUENCE, announced) + body
    && NoticeParts(body)
  }

  lemma UserNoticeExact(s: Octets)
    ensures UserNotice(s) <==> exists p, announced: nat, body :: NoticeWith(s, p, announced, body)
  {
    hide TlvAt, Header, NoticeParts;
    if UserNotice(s) {
      var e := TlvAt(s, UNIVERSAL, SEQUENCE).value;
      AcceptsExactlyEncodings(s, UNIVERSAL, SEQUENCE, e);
      var p :| s[..e.header] == Header(UNIVERSAL, p, SEQUENCE, e.content);
      assert s == s[..e.header] + s[e.header..];
      assert NoticeWith(s, p, e.content, s[e.header..]);
    }
    if p, announced: nat, body :| NoticeWith(s, p, announced, body) {
      NoticeHeader(s, p, announced, body);
    }
  }

  lemma NoticeHeader(s: Octets, p: bool, announced: nat, body: Octets)
    requires NoticeWith(s, p, announced, body)
    ensures var h := |Header(UNIVERSAL, p, SEQUENCE, announced)|;
            TlvAt(s, UNIVERSAL, SEQUENCE) == Some(Extent(h, announced)) && s[h..] == body
  {
    hide TlvAt, Header, NoticeParts;
    var h := Header(UNIVERSAL, p, SEQUENCE, announced);
    assert s[..|h|] == h;
    AcceptsExactlyEncodings(s, UNIVERSAL, SEQUENCE, Extent(|h|, announced));
  }

  /** An accepted notice is one SEQUENCE, content and all, exactly when it announces all the octets behind its
      header. */
  lemma NoticeTiedExactly(s: Octets, p: bool, announced: nat, body: Octets)
    requires NoticeWith(s, p, announced, body)
    ensures announced == |body| <==>
            exists q, content :: |content| < U32_LIMIT && s == Tlv(UNIVERSAL, q, SEQUENCE, content)
  {
    hide TlvAt, Header, NoticeParts;
    NoticeHeader(s, p, announced, body);
    if announced == |body| {
      assert s == Tlv(UNIVERSAL, p, SEQUENCE, body);
    }
    if q, content :| |content| < U32_LIMIT && s == Tlv(UNIVERSAL, q, SEQUENCE, content) {
      EncodeThenParse(UNIVERSAL, q, SEQUENCE, content, []);
      assert s + [] == s;
    }
  }

  /** A user notice that announces one octet and uses three is accepted. */
  lemma NoticeLengthIsNotTied()
    ensures var s: Octets := [0x30, 0x01, 0x16, 0x01, 0x61];
            UserNotice(s) && TlvAt(s, UNIVERSAL, SEQUENCE).value.Total() < |s|
  {
    hide TlvAt;
    var s: Octets := [0x30, 0x01, 0x16, 0x01, 0x61];
    var body := s[2..];
    assert LengthOctets(1) == [1];
    assert s[..2] == Header(UNIVERSAL, true, SEQUENCE, 1);
    AcceptsExactlyEncodings(s, UNIVERSAL, SEQUENCE, Extent(2, 1));
    assert body[..2] == Header(UNIVERSAL, false, IA5_STRING, 1);
    AcceptsExactlyEncodings(body, UNIVERSAL, IA5_STRING, Extent(2, 1));
    OtherTag(body, UNIVERSAL, SEQUENCE);
    assert body[2..3] == [0x61];
    assert body[0..] == body;
  }
}
