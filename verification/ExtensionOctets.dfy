/** The handlers of certificate extensions in octets: which values they take, what those mean, and which identifier
    belongs to which handler. */
module ExtensionOctets {
  import opened Bytes
  import opened Bits
  import opened Der
  import opened Containers
  import opened Names
  import opened Elements
  import opened GeneralNames
  import opened Policies
  import opened DistributionPoints
  import opened Extensions
  import opened ExtensionHandlers
  import opened ExtensionMeaning

  // ---------------------------------------------------------------- basic constraints

  /** The contents a basic constraints value may have: nothing or FALSE, TRUE, TRUE with a number of one octet below
      128. */
  predicate BasicForm(c: Octets, b: Basic) {
    match b
    case Basic(false, false) => |c| == 0 || (|c| == 3 && c[0] == 1 && c[1] == 1 && c[2] == 0)
    case Basic(true, false) => |c| == 3 && c[0] == 1 && c[1] == 1 && c[2] == 255
    case Basic(true, true) =>
      |c| == 6 && c[0] == 1 && c[1] == 1 && c[2] == 255 && c[3] == 2 && c[4] == 1 && c[5] < 128
    case _ => false
  }

  /** A value is taken with a meaning exactly when it is one SEQUENCE around contents of that form. */
  lemma BasicExact(v: Octets, b: Basic)
    ensures BasicAt(v) == Some(b) <==>
            exists p, c :: |c| < U32_LIMIT && v == Tlv(UNIVERSAL, p, SEQUENCE, c) && BasicForm(c, b)
  {
    hide TlvAt, Tlv;
    if BasicAt(v) == Some(b) {
      var p, c := FillsBuffer(v, UNIVERSAL, SEQUENCE);
      BasicContentExact(c, b);
    }
    if p, c :| |c| < U32_LIMIT && v == Tlv(UNIVERSAL, p, SEQUENCE, c) && BasicForm(c, b) {
      EncodedFills(UNIVERSAL, p, SEQUENCE, c);
      BasicContentExact(c, b);
    }
  }

  lemma BasicContentExact(c: Octets, b: Basic)
    ensures BasicContent(c) == Some(b) <==> BasicForm(c, b)
  {
  }

  /** In an accepted value: an authority has a content of three octets or more whose third is not zero; the length of
      paths is limited when there is more. The empty SEQUENCE is no authority. */
  lemma AuthorityInOctets(v: Octets, e: Extent)
    requires BasicAt(v).Some? && TlvAt(v, UNIVERSAL, SEQUENCE) == Some(e)
    ensures e.Total() == |v|
    ensures IsCa(v) <==> e.content >= 3 && v[e.header + 2] != 0
    ensures LimitsPath(v) <==> e.content > 3
  {
    hide TlvAt;
    var c := v[e.header..];
    BasicContentExact(c, BasicAt(v).value);
  }

  // ---------------------------------------------------------------- key usage

  /** Named bits in which the two restrictions of key agreement come with key agreement: the last bit of the first
      octet and the bit of the second need bit 3 of the first. */
  predicate UsageForm(c: Octets) {
    NamedBits(c) && (Bit(c[1], 0) || |c| == 3 ==> Bit(c[1], 3))
  }

  /** A key usage is taken exactly when it is one BIT STRING around contents of that form. */
  lemma UsageExact(v: Octets)
    ensures UsageAt(v).Some? <==>
            exists p, c :: |c| < U32_LIMIT && v == Tlv(UNIVERSAL, p, BIT_STRING, c) && UsageForm(c)
  {
    hide TlvAt, Tlv, NamedBits, BitsValue, Bit;
    if UsageAt(v).Some? {
      var p, c := FillsBuffer(v, UNIVERSAL, BIT_STRING);
      UsageBits(c);
    }
    if p, c :| |c| < U32_LIMIT && v == Tlv(UNIVERSAL, p, BIT_STRING, c) && UsageForm(c) {
      EncodedFills(UNIVERSAL, p, BIT_STRING, c);
      UsageBits(c);
    }
  }

  lemma UsageBits(c: Octets)
    requires NamedBits(c)
    ensures var val := BitsValue(c);
            (Bit(val, 7) || Bit(val, 8)) && !Bit(val, 4) <==> (Bit(c[1], 0) || |c| == 3) && !Bit(c[1], 3)
  {
    hide Bit, BitsValue;
    NamedBitMeans(c, 4);
    NamedBitMeans(c, 7);
    NamedBitMeans(c, 8);
  }

  /** The usual key usage of an authority, which signs certificates and lists. */
  lemma AuthorityUsage()
    ensures var v: Octets := [0x03, 0x02, 0x01, 0x06]; Usage(v, 5) && Usage(v, 6) && !Usage(v, 4)
  {
    hide TlvAt, Bit, BitsValue;
    var v, c: Octets := [0x03, 0x02, 0x01, 0x06], [0x01, 0x06];
    assert LengthOctets(2) == [2];
    assert v == Tlv(UNIVERSAL, false, BIT_STRING, c);
    EncodedFills(UNIVERSAL, false, BIT_STRING, c);
    assert TrailingZeros(6) == 1;
    SixInBits();
    UsageBits(c);
    NamedBitMeans(c, 4);
    NamedBitMeans(c, 5);
    NamedBitMeans(c, 6);
  }

  lemma SixInBits()
    ensures Bit(6, 1) && Bit(6, 2) && !Bit(6, 0) && !Bit(6, 3)
  {
    assert Pow2(1) == 2 && Pow2(2) == 4 && Pow2(3) == 8;
  }

  // ---------------------------------------------------------------- identifiers

  /** The identifiers of the modelled handlers, octet by octet (section 4.2 of RFC 5280). */
  lemma IdentifierOctets()
    ensures HANDLED[AIA] == [0x06, 0x08, 0x2b, 0x06, 0x01, 0x05, 0x05, 0x07, 0x01, 0x01]
    ensures HANDLED[KEY_USAGE] == [0x06, 0x03, 0x55, 0x1d, 0x0f]
    ensures HANDLED[POLICIES] == [0x06, 0x03, 0x55, 0x1d, 0x20]
    ensures HANDLED[SAN] == [0x06, 0x03, 0x55, 0x1d, 0x11]
    ensures HANDLED[BASIC_CONSTRAINTS] == [0x06, 0x03, 0x55, 0x1d, 0x13]
    ensures HANDLED[NAME_CONSTRAINTS] == [0x06, 0x03, 0x55, 0x1d, 0x1e]
    ensures HANDLED[CRLDP] == [0x06, 0x03, 0x55, 0x1d, 0x1f]
    ensures HANDLED[FRESHEST_CRL] == [0x06, 0x03, 0x55, 0x1d, 0x2e]
  {
  }

  /** A part has an index of the table exactly when it carries the identifier at that place. */
  lemma IndexExact(more: seq<Octets>, part: Octets, k: nat)
    requires k < 16
    ensures IndexOf(HANDLED + more, part) == Some(k) <==> OidOf(part) == HANDLED[k]
  {
    hide Find, OidOf;
    HandledAt(k, more);
    SameIndex(HANDLED + more, OidOf(part), HANDLED[k]);
    SameIndex(HANDLED + more, HANDLED[k], OidOf(part));
  }

  /** So the part found under an index carries its identifier. */
  lemma FirstCarries(more: seq<Octets>, parts: seq<Octets>, k: nat, x: Extension)
    requires k < 16 && First(HANDLED + more, parts, k) == Some(x)
    ensures x.oid == HANDLED[k]
  {
    hide ExtensionAt, Find, First;
    FirstExact(HANDLED + more, parts, k);
    var i :| 0 <= i < |parts| && ExtensionAt(parts[i]) == First(HANDLED + more, parts, k)
             && IndexOf(HANDLED + more, parts[i]) == Some(k);
    IndexExact(more, parts[i], k);
  }

  /** Each modelled handler is the one of its identifier: an extension that carries it is taken exactly when the value
      is of the handler's kind. */
  lemma TakenByIdentifier(table: Table, others: Others, more: seq<Octets>, part: Octets, x: Extension)
    requires ExtensionAt(part) == Some(x)
    ensures var t := Taken(table, others, HANDLED + more, part);
            && (x.oid == [0x06, 0x08, 0x2b, 0x06, 0x01, 0x05, 0x05, 0x07, 0x01, 0x01] ==>
                  (t <==> AiaValue(table, x.value, x.critical)))
            && (x.oid == [0x06, 0x03, 0x55, 0x1d, 0x0f] ==> (t <==> UsageAt(x.value).Some?))
            && (x.oid == [0x06, 0x03, 0x55, 0x1d, 0x20] ==> (t <==> PoliciesValue(x.value)))
            && (x.oid == [0x06, 0x03, 0x55, 0x1d, 0x11] ==> (t <==> SanValue(table, x.value)))
            && (x.oid == [0x06, 0x03, 0x55, 0x1d, 0x13] ==> (t <==> BasicAt(x.value).Some?))
            && (x.oid == [0x06, 0x03, 0x55, 0x1d, 0x1f] ==> (t <==> CrldpValue(table, x.value).Some?))
            && (x.oid == [0x06, 0x03, 0x55, 0x1d, 0x2e] ==> (t <==> CrldpValue(table, x.value).Some?))
            && (x.oid !in HANDLED ==> (t <==> x.value != []))
  {
    hide ExtensionAt, Find, AiaValue, UsageAt, PoliciesValue, SanValue, BasicAt, CrldpValue, HANDLED, Ce;
    IdentifierOctets();
    IndexExact(more, part, AIA);
    IndexExact(more, part, KEY_USAGE);
    IndexExact(more, part, POLICIES);
    IndexExact(more, part, SAN);
    IndexExact(more, part, BASIC_CONSTRAINTS);
    IndexExact(more, part, CRLDP);
    IndexExact(more, part, FRESHEST_CRL);
    NoEmptyValue(table, x.value, x.critical);
    if x.oid !in HANDLED {
      Unhandled(more, part);
    }
  }

  lemma Unhandled(more: seq<Octets>, part: Octets)
    requires OidOf(part) !in HANDLED
    ensures var id := IndexOf(HANDLED + more, part); id.Some? ==> id.value >= 16
  {
    hide OidOf, Find;
  }

  /** No handler takes an empty value. */
  lemma NoEmptyValue(table: Table, v: Octets, critical: bool)
    ensures v == [] ==>
              && !AiaValue(table, v, critical) && UsageAt(v).None? && !PoliciesValue(v) && !SanValue(table, v)
              && BasicAt(v).None? && CrldpValue(table, v).None?
  {
    hide TlvAt, Split, Points;
    NoElement(UNIVERSAL, SEQUENCE);
    NoElement(UNIVERSAL, BIT_STRING);
  }
}
