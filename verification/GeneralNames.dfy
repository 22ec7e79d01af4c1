/** GeneralName, GeneralNames and authority information access. */
module GeneralNames {
  import opened Bytes
  import opened Der
  import opened Containers
  import opened Names

  const RFC822_NAME: byte := 0x81
  const DNS_NAME: byte := 0x82
  const URI: byte := 0x86
  const IP_ADDRESS: byte := 0x87
  const DIRECTORY_NAME: byte := 0xA4

  /** A primitive form: one identifier octet, length octets, content. */
  function TextAt(s: Octets): (r: Option<Extent>)
    requires s != []
    ensures r.Some? ==> 2 <= r.value.header && r.value.Total() <= |s|
  {
    var l :- LengthAt(s[1..]);
    Some(Extent(1 + l.header, l.content))
  }

  ghost function GeneralNameAt(table: Table, s: Octets): (r: Option<NameExtent>)
    ensures r.Some? ==> 2 <= r.value.eaten <= |s|
  {
    if |s| < 2 then None
    else if s[0] in {RFC822_NAME, DNS_NAME, URI, IP_ADDRESS} then
      var e :- TextAt(s);
      if s[0] == IP_ADDRESS || Charset(IA5_STRING, s[e.header..e.Total()]) then
        Some(NameExtent(e.Total(), e.content == 0))
      else None
    else if s[0] == DIRECTORY_NAME then
      var e :- TlvAt(s, CONTEXT_SPECIFIC, 4);
      var n :- NameAt(table, s[e.header..e.Total()]);
      if n.eaten == e.content then Some(NameExtent(e.Total(), n.empty)) else None
    else None
  }

  ghost function GeneralNameParser(table: Table): (p: ElementParser)
    ensures forall s :: p(s) == GeneralNameEaten(table, s)
  {
    s => GeneralNameEaten(table, s)
  }

  ghost function GeneralNameEaten(table: Table, s: Octets): (r: Option<nat>)
    ensures r.Some? ==> 1 <= r.value <= |s|
  {
    var n :- GeneralNameAt(table, s);
    Some(n.eaten)
  }

  ghost function GeneralNamesAt(table: Table, s: Octets, cls: nat, tag: nat): (r: Option<nat>)
    ensures r.Some? ==> 1 <= r.value <= |s|
  {
    var e :- TlvAt(s, cls, tag);
    var _ :- Split(GeneralNameParser(table), s[e.header..e.Total()]);
    Some(e.Total())
  }

  method ParseGeneralName(table: Table, input: Octets) returns (r: Option<NameExtent>)
    ensures r == GeneralNameAt(table, input)
  {
    hide TlvAt, LengthAt, NameAt, Charset;
    if |input| < 2 {
      return None;
    }
    var nameType := input[0];
    if nameType < 0x80 {
      return None;
    }
    if nameType == RFC822_NAME || nameType == DNS_NAME || nameType == URI || nameType == IP_ADDRESS {
      var buf := input[1..];
      var length := GetLength(buf);
      if length.None? {
        return None;
      }
      var grabbed, nameLen := length.value.header, length.value.content;
      buf := buf[grabbed..];
      if nameLen > |buf| {
        return None;
      }
      if nameType != IP_ADDRESS {
        assert buf[..nameLen] == input[1 + grabbed..1 + grabbed + nameLen];
        var ok := CheckString(buf[..nameLen], IA5_STRING);
        if !ok {
          return None;
        }
      }
      return Some(NameExtent(nameLen + grabbed + 1, nameLen == 0));
    }
    if nameType == DIRECTORY_NAME {
      var e := ParseIdLen(input, CONTEXT_SPECIFIC, 4);
      if e.None? {
        return None;
      }
      var remain := e.value.content;
      var n := ParseName(table, input[e.value.header..e.value.header + remain]);
      if n.None? {
        return None;
      }
      remain := remain - n.value.eaten;
      if remain != 0 {
        return None;
      }
      return Some(NameExtent(e.value.header + e.value.content, n.value.empty));
    }
    return None;
  }

  method ParseGeneralNames(table: Table, input: Octets, expClass: nat, expType: nat) returns (r: Option<nat>)
    ensures r == GeneralNamesAt(table, input, expClass, expType)
  {
    hide TlvAt, GeneralNameAt, Split, GeneralNameParser;
    if |input| == 0 {
      return None;
    }
    var e := ParseIdLen(input, expClass, expType);
    if e.None? {
      return None;
    }
    var remain := e.value.content;
    var buf := input[e.value.header..e.value.header + remain];
    ghost var content, p := buf, GeneralNameParser(table);
    while remain > 0
      invariant remain == |buf|
      invariant Split(p, buf).Some? <==> Split(p, content).Some?
      decreases remain
    {
      SplitStep(p, buf);
      var parsed := ParseGeneralName(table, buf);
      if parsed.None? {
        return None;
      }
      remain := remain - parsed.value.eaten;
      buf := buf[parsed.value.eaten..];
    }
    SplitStep(p, buf);
    return Some(e.value.header + e.value.content);
  }

  // ---------------------------------------------------------------- access descriptions

  const CA_ISSUERS: Octets := [0x06, 0x08, 0x2b, 0x06, 0x01, 0x05, 0x05, 0x07, 0x30, 0x01]
  const OCSP: Octets := [0x06, 0x08, 0x2b, 0x06, 0x01, 0x05, 0x05, 0x07, 0x30, 0x02]

  /** One of the two identifiers, then a general name up to the end. */
  ghost predicate AccessBody(table: Table, body: Octets) {
    var n := OidAt(body);
    n.Some?
    && (body[..n.value] == CA_ISSUERS || body[..n.value] == OCSP)
    && var g := GeneralNameAt(table, body[n.value..]);
       g.Some? && n.value + g.value.eaten == |body|
  }

  ghost function AccessAt(table: Table, s: Octets): (r: Option<nat>)
    ensures r.Some? ==> 1 <= r.value <= |s|
  {
    var e :- TlvAt(s, UNIVERSAL, SEQUENCE);
    if AccessBody(table, s[e.header..e.Total()]) then Some(e.Total()) else None
  }

  ghost function AccessParser(table: Table): (p: ElementParser)
    ensures forall s :: p(s) == AccessAt(table, s)
  {
    s => AccessAt(table, s)
  }

  ghost predicate AiaValue(table: Table, s: Octets, critical: bool) {
    var e := TlvAt(s, UNIVERSAL, SEQUENCE);
    && !critical && e.Some? && e.value.Total() == |s| && e.value.content > 0
    && Split(AccessParser(table), s[e.value.header..]).Some?
  }

  method ParseAccessDescription(table: Table, input: Octets) returns (r: Option<nat>)
    ensures r == AccessAt(table, input)
  {
    hide TlvAt, OidAt, GeneralNameAt;
    if |input| == 0 {
      return None;
    }
    var e := ParseIdLen(input, UNIVERSAL, SEQUENCE);
    if e.None? {
      return None;
    }
    var dataLen := e.value.content;
    var buf := input[e.value.header..e.value.header + dataLen];
    var oidLen := ParseOid(buf);
    if oidLen.None? {
      return None;
    }
    var found := false;
    if oidLen.value == |CA_ISSUERS| {
      found := buf[..oidLen.value] == CA_ISSUERS;
    }
    if !found && oidLen.value == |OCSP| {
      found := buf[..oidLen.value] == OCSP;
    }
    if !found {
      return None;
    }
    buf := buf[oidLen.value..];
    dataLen := dataLen - oidLen.value;
    var name := ParseGeneralName(table, buf);
    if name.None? {
      return None;
    }
    dataLen := dataLen - name.value.eaten;
    if dataLen != 0 {
      return None;
    }
    return Some(e.value.header + e.value.content);
  }

  method ParseAia(table: Table, input: Octets, critical: bool) returns (ok: bool)
    ensures ok <==> AiaValue(table, input, critical)
  {
    hide TlvAt, AccessAt, Split, AccessParser;
    if |input| == 0 || critical {
      return false;
    }
    var e := ParseIdLen(input, UNIVERSAL, SEQUENCE);
    if e.None? {
      return false;
    }
    var buf := input[e.value.header..];
    var remain := |input| - e.value.header;
    if remain != e.value.content || remain == 0 {
      return false;
    }
    ghost var content, p := buf, AccessParser(table);
    while remain > 0
      invariant remain == |buf|
      invariant Split(p, buf).Some? <==> Split(p, content).Some?
      decreases remain
    {
      SplitStep(p, buf);
      var parsed := ParseAccessDescription(table, buf);
      if parsed.None? {
        return false;
      }
      remain := remain - parsed.value;
      buf := buf[parsed.value..];
    }
    SplitStep(p, buf);
    return true;
  }

  // ---------------------------------------------------------------- stability and unique splitting

  lemma TextStable(s: Octets, rest: Octets, n: nat)
    requires 1 <= n <= |s|
    ensures var e, f := TextAt(s), TextAt(s + rest);
            || (e.Some? && e.value.Total() == n && f == e && s[e.value.header..n] == (s + rest)[e.value.header..n])
            || ((e.None? || e.value.Total() != n) && (f.None? || f.value.Total() != n))
  {
    hide LengthAt, LengthOctets;
    var e, f := LengthAt(s[1..]), LengthAt((s + rest)[1..]);
    if e.Some? && 1 + e.value.Total() == n {
      LengthExact(s[1..], e.value);
      LengthExact((s + rest)[1..], e.value);
      assert s[1..][..e.value.header] == (s + rest)[1..][..e.value.header];
    }
    if f.Some? && 1 + f.value.Total() == n {
      LengthExact(s[1..], f.value);
      LengthExact((s + rest)[1..], f.value);
      assert s[1..][..f.value.header] == (s + rest)[1..][..f.value.header];
    }
  }

  lemma GeneralNamesStable(table: Table)
    ensures Stable(GeneralNameParser(table))
  {
    hide GeneralNameEaten;
    forall s: Octets, rest: Octets, n: nat | n <= |s|
      ensures GeneralNameEaten(table, s) == Some(n) <==> GeneralNameEaten(table, s + rest) == Some(n)
    {
      if n >= 2 {
        GeneralNameStable(table, s, rest, n);
      } else {
        GeneralNameIsLong(table, s);
        GeneralNameIsLong(table, s + rest);
      }
    }
  }

  lemma GeneralNameIsLong(table: Table, s: Octets)
    ensures GeneralNameEaten(table, s).Some? ==> GeneralNameEaten(table, s).value >= 2
  {
  }

  lemma GeneralNameStable(table: Table, s: Octets, rest: Octets, n: nat)
    requires 2 <= n <= |s|
    ensures GeneralNameEaten(table, s) == Some(n) <==> GeneralNameEaten(table, s + rest) == Some(n)
    ensures GeneralNameEaten(table, s) == Some(n) ==> GeneralNameAt(table, s) == GeneralNameAt(table, s + rest)
  {
    hide TlvAt, TextAt, NameAt, Charset;
    assert (s + rest)[0] == s[0];
    if s[0] == DIRECTORY_NAME {
      ElementStable(s, rest, CONTEXT_SPECIFIC, 4, n);
    } else {
      TextStable(s, rest, n);
    }
  }

  lemma AccessStableAt(table: Table, s: Octets, rest: Octets, n: nat)
    requires n <= |s|
    ensures AccessAt(table, s) == Some(n) <==> AccessAt(table, s + rest) == Some(n)
  {
    hide TlvAt, OidAt, GeneralNameAt;
    ElementStable(s, rest, UNIVERSAL, SEQUENCE, n);
  }

  lemma AccessStable(table: Table)
    ensures Stable(AccessParser(table))
  {
    hide TlvAt, OidAt, GeneralNameAt, AccessAt;
    forall s: Octets, rest: Octets, n: nat | n <= |s|
      ensures AccessAt(table, s) == Some(n) <==> AccessAt(table, s + rest) == Some(n)
    {
      AccessStableAt(table, s, rest, n);
    }
  }

  /** General names are accepted exactly when their content is a concatenation of general names, in one way. */
  lemma GeneralNamesSplit(table: Table, s: Octets, cls: nat, tag: nat, e: Extent, parts: seq<Octets>)
    requires TlvAt(s, cls, tag) == Some(e)
    ensures AllWhole(GeneralNameParser(table), parts) && Concat(parts) == s[e.header..e.Total()] <==>
            && GeneralNamesAt(table, s, cls, tag) == Some(e.Total())
            && Split(GeneralNameParser(table), s[e.header..e.Total()]) == Some(parts)
  {
    hide TlvAt, GeneralNameParser;
    GeneralNamesStable(table);
    SplitExact(GeneralNameParser(table), s[e.header..e.Total()], parts);
  }

  /** An access list is accepted exactly when it is one SEQUENCE over all of its octets, not critical, whose
      content is a non-empty concatenation of access descriptions. */
  lemma AiaSplits(table: Table, s: Octets, critical: bool)
    ensures AiaValue(table, s, critical) <==>
            && !critical
            && exists e: Extent, parts ::
                 && TlvAt(s, UNIVERSAL, SEQUENCE) == Some(e) && e.Total() == |s|
                 && parts != [] && AllWhole(AccessParser(table), parts) && Concat(parts) == s[e.header..]
  {
    hide TlvAt, AccessParser, AccessAt;
    AccessStable(table);
    if e: Extent :| TlvAt(s, UNIVERSAL, SEQUENCE) == Some(e) && e.Total() == |s| {
      forall parts
        ensures Split(AccessParser(table), s[e.header..]) == Some(parts) <==>
                AllWhole(AccessParser(table), parts) && Concat(parts) == s[e.header..]
        ensures AllWhole(AccessParser(table), parts) ==> (Concat(parts) == [] <==> parts == [])
      {
        SplitExact(AccessParser(table), s[e.header..], parts);
        if AllWhole(AccessParser(table), parts) {
          ConcatEmpty(AccessParser(table), parts);
        }
      }
      if Split(AccessParser(table), s[e.header..]).Some? {
        var parts := Split(AccessParser(table), s[e.header..]).value;
        assert AllWhole(AccessParser(table), parts);
      }
    }
  }
}
