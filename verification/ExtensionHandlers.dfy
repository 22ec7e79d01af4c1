/** The extension handlers of a certificate: which values each takes and what it leaves in the context. */
module ExtensionHandlers {
  import opened Bytes
  import opened Bits
  import opened Der
  import opened Containers
  import opened Names
  import opened GeneralNames
  import opened GeneralNamesRoundTrip
  import opened Policies
  import opened DistributionPoints
  import opened Extensions

  // ---------------------------------------------------------------- the table

  const AIA: nat := 0
  const KEY_USAGE: nat := 3
  const POLICIES: nat := 4
  const SAN: nat := 6
  const BASIC_CONSTRAINTS: nat := 9
  const NAME_CONSTRAINTS: nat := 10
  const CRLDP: nat := 13
  const FRESHEST_CRL: nat := 15

  /** An identifier under the arc of the certificate extensions. */
  function Ce(last: byte): Octets {
    [0x06, 0x03, 0x55, 0x1d, last]
  }

  const AIA_OID: Octets := [0x06, 0x08, 0x2b, 0x06, 0x01, 0x05, 0x05, 0x07, 0x01, 0x01]

  /** The sixteen identifiers that have a handler of their own, in the order of the table. */
  const HANDLED: seq<Octets> :=
    [AIA_OID, Ce(0x23), Ce(0x0e), Ce(0x0f), Ce(0x20), Ce(0x21), Ce(0x11), Ce(0x12), Ce(0x09), Ce(0x13), Ce(0x1e),
     Ce(0x24), Ce(0x25), Ce(0x1f), Ce(0x36), Ce(0x2e)]

  /** No identifier stands in the table twice, so each has its own index, whatever is listed behind them. */
  lemma HandledAt(k: nat, more: seq<Octets>)
    requires k < 16
    ensures Find(HANDLED + more, HANDLED[k]) == Some(k)
  {
    hide Find;
    forall j | 0 <= j < k ensures HANDLED[j] != HANDLED[k] {
      assert HANDLED[j] == AIA_OID || HANDLED[j][4] != HANDLED[k][4];
    }
    FirstPlace(HANDLED + more, HANDLED[k], 0, k);
    Found(HANDLED + more, HANDLED[k]);
  }

  lemma Found(known: seq<Octets>, oid: Octets)
    ensures Find(known, oid) == FindFrom(known, oid, 0)
  {
  }

  lemma {:induction false} FirstPlace(known: seq<Octets>, oid: Octets, i: nat, k: nat)
    requires i <= k < |known| && known[k] == oid && forall j :: i <= j < k ==> known[j] != oid
    ensures FindFrom(known, oid, i) == Some(k)
    decreases k - i
  {
    if i < k {
      FirstPlace(known, oid, i + 1, k);
    }
  }

  // ---------------------------------------------------------------- key usage

  /** The nine bits of a key usage; the two restrictions of key agreement need key agreement. */
  function UsageAt(v: Octets): Option<nat> {
    var e :- TlvAt(v, UNIVERSAL, BIT_STRING);
    var c := v[e.header..];
    if e.Total() != |v| || !NamedBits(c) then None
    else
      var val := BitsValue(c);
      if (Bit(val, 7) || Bit(val, 8)) && !Bit(val, 4) then None else Some(val)
  }

  predicate Usage(v: Octets, bit: nat) {
    UsageAt(v).Some? && Bit(UsageAt(v).value, bit)
  }

  lemma Masks()
    ensures Pow2(4) == 0x10 && Pow2(5) == 0x20 && Pow2(6) == 0x40 && Pow2(7) == 0x80 && Pow2(8) == 0x100
  {
  }

  method ParseKeyUsage(v: Octets) returns (val: Option<nat>)
    ensures val == UsageAt(v)
  {
    hide TlvAt, NamedBits, BitsValue, Pow2;
    Masks();
    if |v| == 0 {
      return None;
    }
    var e := ParseIdLen(v, UNIVERSAL, BIT_STRING);
    if e.None? || |v| != e.value.header + e.value.content {
      return None;
    }
    val := ParseNineBitNamedBitList(v[e.value.header..]);
    if val.None? {
      return None;
    }
    if val.value / 0x100 % 2 == 1 && val.value / 0x10 % 2 == 0 {
      return None;
    }
    if val.value / 0x80 % 2 == 1 && val.value / 0x10 % 2 == 0 {
      return None;
    }
  }

  // ---------------------------------------------------------------- basic constraints

  /** Whether it is an authority, and whether the length of paths is limited. */
  datatype Basic = Basic(ca: bool, pathLen: bool)

  function BasicContent(c: Octets): Option<Basic> {
    if c == [] || c == [BOOLEAN, 1, 0] then Some(Basic(false, false))
    else if c == [BOOLEAN, 1, TRUE] then Some(Basic(true, false))
    else if |c| == 6 && c[..5] == [BOOLEAN, 1, TRUE, INTEGER, 1] && c[5] < 0x80 then Some(Basic(true, true))
    else None
  }

  function BasicAt(v: Octets): Option<Basic> {
    var e :- TlvAt(v, UNIVERSAL, SEQUENCE);
    if e.Total() == |v| then BasicContent(v[e.header..]) else None
  }

  method ParseBasicConstraints(v: Octets) returns (b: Option<Basic>)
    ensures b == BasicAt(v)
  {
    hide TlvAt;
    if |v| == 0 {
      return None;
    }
    var e := ParseIdLen(v, UNIVERSAL, SEQUENCE);
    if e.None? || |v| != e.value.header + e.value.content {
      return None;
    }
    var buf := v[e.value.header..];
    if |buf| == 0 {
      return Some(Basic(false, false));
    }
    if |buf| == 3 {
      if buf == [0x01, 0x01, 0xff] {
        return Some(Basic(true, false));
      }
      if buf == [0x01, 0x01, 0x00] {
        return Some(Basic(false, false));
      }
      return None;
    }
    if |buf| == 6 {
      if buf[..5] != [0x01, 0x01, 0xff, 0x02, 0x01] || buf[5] >= 0x80 {
        return None;
      }
      return Some(Basic(true, true));
    }
    return None;
  }

  // ---------------------------------------------------------------- subject alternative names

  /** One alternative name: not empty, and an address is six or eighteen octets with its header. */
  ghost function SanNameAt(table: Table, s: Octets): (r: Option<nat>)
    ensures r.Some? ==> 1 <= r.value <= |s|
  {
    var n :- GeneralNameAt(table, s);
    if n.empty || (s[0] == IP_ADDRESS && n.eaten != 6 && n.eaten != 18) then None else Some(n.eaten)
  }

  ghost function SanParser(table: Table): (p: ElementParser)
    ensures forall s :: p(s) == SanNameAt(table, s)
  {
    s => SanNameAt(table, s)
  }

  ghost predicate SanValue(table: Table, v: Octets) {
    var e := TlvAt(v, UNIVERSAL, SEQUENCE);
    && e.Some? && e.value.Total() == |v| && e.value.content > 0
    && Split(SanParser(table), v[e.value.header..]).Some?
  }

  method ParseSan(table: Table, v: Octets) returns (ok: bool)
    ensures ok <==> SanValue(table, v)
  {
    hide TlvAt, GeneralNameAt, Split, SanParser;
    if |v| == 0 {
      return false;
    }
    var e := ParseIdLen(v, UNIVERSAL, SEQUENCE);
    if e.None? || e.value.content == 0 || |v| != e.value.header + e.value.content {
      return false;
    }
    var buf, remain := v[e.value.header..], e.value.content;
    ghost var content, p := buf, SanParser(table);
    while remain > 0
      invariant remain == |buf|
      invariant Split(p, buf).Some? <==> Split(p, content).Some?
      decreases remain
    {
      SplitStep(p, buf);
      var name := ParseGeneralName(table, buf);
      if name.None? || name.value.empty {
        return false;
      }
      if buf[0] == IP_ADDRESS {
        if name.value.eaten != 6 && name.value.eaten != 18 {
          return false;
        }
      }
      remain := remain - name.value.eaten;
      buf := buf[name.value.eaten..];
    }
    SplitStep(p, buf);
    return true;
  }

  /** The names a list of alternatives may hold: nothing empty, addresses of version 4 or 6. */
  predicate Alternative(g: GeneralName) {
    match g
    case Text(kind, content) => content != [] && (kind == IP_ADDRESS ==> |content| == 4 || |content| == 16)
    case Directory(name) => name != []
  }

  lemma AlternativeExact(table: Table, g: GeneralName)
    requires GoodGeneralName(table, g)
    ensures Whole(SanParser(table), GeneralNameOctets(table, g)) <==> Alternative(g)
  {
    hide GeneralNameAt, NameOctets, GoodName, Charset;
    var w := GeneralNameOctets(table, g);
    GeneralNameRoundTrip(table, g, []);
    assert w + [] == w;
    if g.Text? {
      ShortLength(|g.content|);
    }
  }

  lemma ShortLength(n: nat)
    requires n < U32_LIMIT
    ensures |LengthOctets(n)| >= 1
    ensures n < 128 ==> |LengthOctets(n)| == 1
  {
  }

  /** A list of general names is accepted as alternative names exactly when it is not empty and all are alternatives. */
  lemma SanExact(table: Table, gs: seq<GeneralName>)
    requires forall i :: 0 <= i < |gs| ==> GoodGeneralName(table, gs[i])
    requires |Concat(Encoded(table, gs))| < U32_LIMIT
    ensures SanValue(table, Tlv(UNIVERSAL, true, SEQUENCE, Concat(Encoded(table, gs)))) <==>
            gs != [] && forall i :: 0 <= i < |gs| ==> Alternative(gs[i])
  {
    hide TlvAt, Header, GeneralNameOctets, GoodGeneralName, SanParser, GeneralNameParser, Alternative, Split;
    var parts := Encoded(table, gs);
    var content, v := Concat(parts), Tlv(UNIVERSAL, true, SEQUENCE, Concat(parts));
    EncodeThenParse(UNIVERSAL, true, SEQUENCE, content, []);
    assert v + [] == v;
    assert v[TlvAt(v, UNIVERSAL, SEQUENCE).value.header..] == content;
    forall i | 0 <= i < |parts|
      ensures Whole(GeneralNameParser(table), parts[i])
      ensures Whole(SanParser(table), parts[i]) <==> Alternative(gs[i])
    {
      GeneralNameIsWhole(table, gs[i]);
      AlternativeExact(table, gs[i]);
    }
    SanStable(table);
    if Split(SanParser(table), content).Some? {
      var found := Split(SanParser(table), content).value;
      SplitExact(SanParser(table), content, found);
      forall i | 0 <= i < |found| ensures Whole(GeneralNameParser(table), found[i]) {
        SanNameIsName(table, found[i]);
      }
      GeneralNamesStable(table);
      SplitUnique(GeneralNameParser(table), found, parts);
    }
    if AllWhole(SanParser(table), parts) {
      SplitExact(SanParser(table), content, parts);
    }
    ConcatEmpty(GeneralNameParser(table), parts);
  }

  lemma SanNameIsName(table: Table, s: Octets)
    requires Whole(SanParser(table), s)
    ensures Whole(GeneralNameParser(table), s)
  {
    hide GeneralNameAt;
  }

  lemma SanStable(table: Table)
    ensures Stable(SanParser(table))
  {
    hide GeneralNameAt;
    forall s: Octets, rest: Octets, n: nat | n <= |s|
      ensures SanNameAt(table, s) == Some(n) <==> SanNameAt(table, s + rest) == Some(n)
    {
      if |s| >= 2 {
        assert s[0] == (s + rest)[0];
      }
      if n >= 2 {
        GeneralNameStable(table, s, rest, n);
      }
    }
  }

  // ---------------------------------------------------------------- one handler for each index

  /** Handlers that are not part of this model only accept or refuse, and leave the flags of the later checks alone,
      but for the one of name constraints. */
  type Others = (nat, Octets, bool) -> bool

  /** Whether the handler takes the value; an empty value is refused by all, and an identifier without a handler of
      its own is let through otherwise. */
  ghost predicate Takes(table: Table, others: Others, id: Option<nat>, v: Octets, critical: bool) {
    v != []
    && (id.Some? && id.value < 16 ==>
          if id.value == AIA then AiaValue(table, v, critical)
          else if id.value == KEY_USAGE then UsageAt(v).Some?
          else if id.value == POLICIES then PoliciesValue(v)
          else if id.value == SAN then SanValue(table, v)
          else if id.value == BASIC_CONSTRAINTS then BasicAt(v).Some?
          else if id.value == CRLDP || id.value == FRESHEST_CRL then CrldpValue(table, v).Some?
          else others(id.value, v, critical))
  }

  /** What it leaves in the context. */
  ghost function Effect(table: Table, f: Flags, id: Option<nat>, v: Octets, critical: bool): Flags {
    if id.None? then f
    else if id.value == KEY_USAGE then AfterUsage(f, v)
    else if id.value == SAN then AfterSan(f, critical)
    else if id.value == BASIC_CONSTRAINTS then AfterBasic(f, v, critical)
    else if id.value == NAME_CONSTRAINTS then AfterConstraints(f)
    else if id.value == CRLDP || id.value == FRESHEST_CRL then AfterPoints(f, CrldpValue(table, v) == Some(true))
    else f
  }

  function AfterUsage(f: Flags, v: Octets): Flags {
    f.(keyCertSign := Usage(v, 5), crlSign := Usage(v, 6))
  }

  function AfterBasic(f: Flags, v: Octets, critical: bool): Flags {
    f.(bcCritical := critical, caTrue := f.caTrue || IsCa(v), pathLenConstraint := f.pathLenConstraint || LimitsPath(v))
  }

  function AfterSan(f: Flags, critical: bool): Flags {
    f.(hasSan := true, sanCritical := critical)
  }

  function AfterConstraints(f: Flags): Flags {
    f.(hasNameConstraints := true)
  }

  /** Both lists of points write the same flags, so the later of the two decides. */
  function AfterPoints(f: Flags, one: bool): Flags {
    f.(hasCrldp := true, oneCrldpHasAllReasons := one)
  }

  predicate IsCa(v: Octets) {
    BasicAt(v).Some? && BasicAt(v).value.ca
  }

  predicate LimitsPath(v: Octets) {
    BasicAt(v).Some? && BasicAt(v).value.pathLen
  }

  ghost function Handle(table: Table, others: Others, f: Flags, id: Option<nat>, v: Octets, critical: bool)
    : Option<Flags>
  {
    if Takes(table, others, id, v, critical) then Some(Effect(table, f, id, v, critical)) else None
  }

  /** The table of a certificate: the sixteen, and behind them identifiers that are let through unread. */
  ghost function Handlers(table: Table, others: Others, more: seq<Octets>): Registry {
    Registry(HANDLED + more, (f, id, v, critical) => Handle(table, others, f, id, v, critical))
  }

  method ParseExtKeyUsage(f: Flags, v: Octets) returns (r: Option<Flags>)
    ensures r == if UsageAt(v).Some? then Some(AfterUsage(f, v)) else None
  {
    hide UsageAt, Pow2;
    var val := ParseKeyUsage(v);
    if val.None? {
      return None;
    }
    Masks();
    return Some(f.(keyCertSign := val.value / 0x20 % 2 == 1, crlSign := val.value / 0x40 % 2 == 1));
  }

  method ParseExtBasicConstraints(f: Flags, v: Octets, critical: bool) returns (r: Option<Flags>)
    ensures r == if BasicAt(v).Some? then Some(AfterBasic(f, v, critical)) else None
  {
    hide BasicAt;
    var b := ParseBasicConstraints(v);
    if b.None? {
      return None;
    }
    var ca, pathLen := f.caTrue || b.value.ca, f.pathLenConstraint || b.value.pathLen;
    return Some(f.(bcCritical := critical, caTrue := ca, pathLenConstraint := pathLen));
  }

  /** The handler the table gives, if it gives one. */
  method HandleExtension(table: Table, others: Others, f: Flags, id: Option<nat>, v: Octets, critical: bool)
    returns (r: Option<Flags>)
    ensures r == Handle(table, others, f, id, v, critical)
  {
    hide UsageAt, BasicAt, AiaValue, PoliciesValue, SanValue, CrldpValue;
    hide AfterUsage, AfterBasic, AfterPoints, AfterSan, AfterConstraints;
    if |v| == 0 {
      return None;
    }
    if id.None? || id.value >= 16 {
      return Some(f);
    }
    var k := id.value;
    if k == KEY_USAGE {
      r := ParseExtKeyUsage(f, v);
    } else if k == BASIC_CONSTRAINTS {
      r := ParseExtBasicConstraints(f, v, critical);
    } else if k == CRLDP || k == FRESHEST_CRL {
      var one := ParseExtCrldp(table, v);
      r := if one.Some? then Some(AfterPoints(f, one.value)) else None;
    } else if k == AIA {
      var ok := ParseAia(table, v, critical);
      r := if ok then Some(f) else None;
    } else if k == POLICIES {
      var ok := ParseCertPolicies(v);
      r := if ok then Some(f) else None;
    } else if k == SAN {
      var ok := ParseSan(table, v);
      r := if ok then Some(AfterSan(f, critical)) else None;
    } else if k == NAME_CONSTRAINTS {
      r := if others(k, v, critical) then Some(AfterConstraints(f)) else None;
    } else {
      r := if others(k, v, critical) then Some(f) else None;
    }
  }
}
