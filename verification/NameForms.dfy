/** Names in octets: which characters, strings, identifiers and attributes are accepted. */
module NameForms {
  import opened Bytes
  import opened Der
  import opened Containers
  import opened Elements
  import opened Names
  import Utf8

  // ---------------------------------------------------------------- alphabets

  predicate Letter(c: byte) {
    'a' as int <= c <= 'z' as int || 'A' as int <= c <= 'Z' as int
  }

  predicate Numeral(c: byte) {
    '0' as int <= c <= '9' as int
  }

  /** The characters of a PrintableString (section 41.4 of X.680). */
  predicate Printable(c: byte) {
    Letter(c) || Numeral(c)
    || c == ' ' as int || c == '\'' as int || c == '(' as int || c == ')' as int || c == '+' as int || c == ',' as int
    || c == '-' as int || c == '.' as int || c == '/' as int || c == ':' as int || c == '=' as int || c == '?' as int
  }

  /** Which contents a string type may have; types other than these five have none. */
  lemma CharsetExact(kind: byte, c: Octets)
    ensures Charset(kind, c) <==>
            && c != []
            && ((kind == 12 && Utf8.IsEncoding(c))
                || (kind == 18 && forall i :: 0 <= i < |c| ==> Numeral(c[i]))
                || (kind == 19 && forall i :: 0 <= i < |c| ==> Printable(c[i]))
                || (kind == 20 && forall i :: 0 <= i < |c| ==> ' ' as int <= c[i] <= '~' as int && c[i] != '@' as int)
                || (kind == 22 && forall i :: 0 <= i < |c| ==> c[i] < 128))
  {
    hide PrintableChar, Printable, Utf8.IsEncoding;
    forall i | 0 <= i < |c| ensures PrintableChar(c[i]) <==> Printable(c[i]) {
      PrintableExact(c[i]);
    }
  }

  lemma PrintableExact(c: byte)
    ensures PrintableChar(c) <==> Printable(c)
  {
  }

  // ---------------------------------------------------------------- rules over encoded strings

  predicate LetterOrNumeral(c: byte) {
    Letter(c) || Numeral(c)
  }

  /** A label whose second character is not looked at. */
  predicate LooseLabel(c: Octets) {
    && c != [] && LetterOrNumeral(c[0]) && LetterOrNumeral(c[|c| - 1])
    && forall i :: 2 <= i < |c| ==> LetterOrNumeral(c[i]) || c[i] == '-' as int
  }

  /** The strings below 128 octets that meet a rule: type, size, characters. */
  ghost predicate Meets(rule: Rule, kind: byte, c: Octets) {
    match rule
    case DirectoryString(lb, ub) => kind in {12, 18, 19, 20, 22} && lb <= |c| <= ub && Charset(kind, c)
    case PrintableString(lb, ub) => kind == 19 && lb <= |c| <= ub && Charset(19, c)
    case NumericString(lb, ub) => kind == 18 && lb <= |c| <= ub && Charset(18, c)
    case EmailAddress => kind == 22 && (Charset(22, c) || Charset(12, c))
    case SerialNumber => kind in {19, 22} && |c| <= 64 && Charset(kind, c)
    case DomainComponent => kind == 22 && |c| <= 63 && Charset(22, c) && LooseLabel(c)
    case Unchecked => true
  }

  /** An encoded string meets its rule exactly when it is that short and of that kind. */
  lemma RuleExact(rule: Rule, kind: byte, c: Octets)
    requires kind < 31 && |c| < U32_LIMIT
    ensures Accepts(rule, StringOctets(kind, c)) <==> rule.Unchecked? || (|c| < 128 && Meets(rule, kind, c))
  {
    hide Charset, StringOctets, StringValue;
    if |c| >= 128 {
      LongStringIsRefused(rule, kind, c);
    } else {
      ShortString(kind, c);
      NotEmpty(kind, c);
      NotEmpty(12, c);
      match rule
      case DirectoryString(lb, ub) => StringRuleExact(kind, c, DIRECTORY_KINDS, lb, ub);
      case PrintableString(lb, ub) => StringRuleExact(kind, c, {PRINTABLE_STRING}, lb, ub);
      case NumericString(lb, ub) => StringRuleExact(kind, c, {NUMERIC_STRING}, lb, ub);
      case EmailAddress => StringRuleExact(kind, c, {IA5_STRING}, 1, 255);
      case SerialNumber =>
        StringRuleExact(kind, c, {PRINTABLE_STRING}, 1, 64);
        StringRuleExact(kind, c, {IA5_STRING}, 1, 64);
      case DomainComponent =>
        StringRuleExact(kind, c, {IA5_STRING}, 1, 63);
        var v := StringOctets(kind, c);
        assert forall i :: 2 <= i < |v| ==> v[i] == c[i - 2];
      case Unchecked =>
    }
  }

  lemma ShortString(kind: byte, c: Octets)
    requires kind < 31 && |c| < 128
    ensures StringOctets(kind, c) == [kind, |c|] + c && StringOctets(kind, c)[2..] == c
  {
  }

  lemma NotEmpty(kind: byte, c: Octets)
    ensures Charset(kind, c) ==> c != []
  {
  }

  // ---------------------------------------------------------------- identifiers and attributes

  /** One arc: one to four octets, the top bit set in all but the last. */
  predicate Arc(a: Octets) {
    1 <= |a| <= 4 && a[|a| - 1] < 128 && forall i :: 0 <= i < |a| - 1 ==> a[i] >= 128
  }

  predicate AllArcs(arcs: seq<Octets>) {
    forall i :: 0 <= i < |arcs| ==> Arc(arcs[i])
  }

  lemma ArcIs(a: Octets, rest: Octets)
    requires Arc(a)
    ensures ArcAt(a + rest).Some? && ArcAt(a + rest).value.1 == |a|
  {
    hide ArcAt;
    assert (a + rest)[..|a|] == a;
    FirstEndUnique(a, |a| - 1);
    ArcExact(a + rest, Base128(a), |a|);
  }

  lemma ArcFound(s: Octets)
    requires ArcAt(s).Some?
    ensures Arc(s[..ArcAt(s).value.1])
  {
    hide ArcAt;
    var (tag, k) := ArcAt(s).value;
    ArcExact(s, tag, k);
  }

  lemma {:induction false} ArcsExact(s: Octets, n: nat)
    ensures Arcs(s) == Some(n) <==> exists arcs :: |arcs| == n && AllArcs(arcs) && Concat(arcs) == s
    decreases |s|
  {
    hide ArcAt;
    if Arcs(s) == Some(n) {
      var arcs := CutArcs(s);
    }
    if arcs :| |arcs| == n && AllArcs(arcs) && Concat(arcs) == s {
      JoinedArcs(arcs);
    }
  }

  lemma {:induction false} CutArcs(s: Octets) returns (arcs: seq<Octets>)
    requires Arcs(s).Some?
    ensures |arcs| == Arcs(s).value && AllArcs(arcs) && Concat(arcs) == s
    decreases |s|
  {
    hide ArcAt;
    if s == [] {
      arcs := [];
    } else {
      var k := ArcAt(s).value.1;
      ArcFound(s);
      var rest := CutArcs(s[k..]);
      arcs := [s[..k]] + rest;
      assert arcs[1..] == rest && s == s[..k] + s[k..];
    }
  }

  lemma {:induction false} JoinedArcs(arcs: seq<Octets>)
    requires AllArcs(arcs)
    ensures Arcs(Concat(arcs)) == Some(|arcs|)
    decreases |arcs|
  {
    hide ArcAt;
    if arcs != [] {
      var rest := Concat(arcs[1..]);
      ArcIs(arcs[0], rest);
      assert (arcs[0] + rest)[|arcs[0]|..] == rest;
      JoinedArcs(arcs[1..]);
    }
  }

  /** An object identifier is accepted exactly when it is one element of one to twenty-one arcs. */
  lemma OidExact(s: Octets)
    ensures OidAt(s) == Some(|s|) <==>
            exists p, arcs :: 1 <= |arcs| <= 21 && AllArcs(arcs) && |Concat(arcs)| < U32_LIMIT
                              && s == Tlv(UNIVERSAL, p, OID, Concat(arcs))
  {
    hide TlvAt, Tlv, Arcs, AllArcs;
    if OidAt(s) == Some(|s|) {
      var p, content := FillsBuffer(s, UNIVERSAL, OID);
      var n := Arcs(content).value;
      ArcsExact(content, n);
      var arcs :| |arcs| == n && AllArcs(arcs) && Concat(arcs) == content;
      assert s == Tlv(UNIVERSAL, p, OID, Concat(arcs));
    }
    if p, arcs :| 1 <= |arcs| <= 21 && AllArcs(arcs) && |Concat(arcs)| < U32_LIMIT
                  && s == Tlv(UNIVERSAL, p, OID, Concat(arcs)) {
      EncodedFills(UNIVERSAL, p, OID, Concat(arcs));
      ArcsExact(Concat(arcs), |arcs|);
    }
  }

  /** An attribute is accepted exactly when it is one SEQUENCE of an identifier and a value, and the value meets the
      rule of the identifier if the table has one. */
  lemma AttributeExact(table: Table, part: Octets)
    ensures Whole(AttributeParser(table), part) <==>
            exists p, oid, v ::
              && OidAt(oid) == Some(|oid|) && |oid + v| < U32_LIMIT && part == Tlv(UNIVERSAL, p, SEQUENCE, oid + v)
              && (oid in table ==> Accepts(table[oid], v))
  {
    hide TlvAt, Tlv, OidAt, Accepts;
    if Whole(AttributeParser(table), part) {
      var p, content := FillsBuffer(part, UNIVERSAL, SEQUENCE);
      var n := OidAt(content).value;
      var oid, v := content[..n], content[n..];
      assert content == oid + v;
      OidStable(oid, v, n);
      NoRule();
    }
    if p, oid, v :| OidAt(oid) == Some(|oid|) && |oid + v| < U32_LIMIT && part == Tlv(UNIVERSAL, p, SEQUENCE, oid + v)
                    && (oid in table ==> Accepts(table[oid], v)) {
      EncodedFills(UNIVERSAL, p, SEQUENCE, oid + v);
      OidStable(oid, v, |oid|);
      assert (oid + v)[..|oid|] == oid && (oid + v)[|oid|..] == v;
      NoRule();
    }
  }

  lemma NoRule()
    ensures forall v :: Accepts(Unchecked, v)
  {
  }

  // ---------------------------------------------------------------- one name, octet by octet

  /** The name of one organization, "A", as a PrintableString, under a rule for organization names. */
  lemma OneOrganization(table: Table)
    requires [0x06, 0x03, 0x55, 0x04, 0x0A] in table
    requires table[[0x06, 0x03, 0x55, 0x04, 0x0A]] == DirectoryString(1, 64)
    ensures NameAt(table, [0x30, 0x0C, 0x31, 0x0A, 0x30, 0x08, 0x06, 0x03, 0x55, 0x04, 0x0A, 0x13, 0x01, 0x41])
         == Some(NameExtent(14, false))
  {
    hide NameAt, NameOctets, RdnOctets, GoodRdn;
    OrganizationRdn(table);
    var rdn: Rdn := [Organization()];
    OneRdn(table, rdn);
    NameRoundTrip(table, [rdn], []);
    var s: Octets := [0x30, 0x0C, 0x31, 0x0A, 0x30, 0x08, 0x06, 0x03, 0x55, 0x04, 0x0A, 0x13, 0x01, 0x41];
    assert NameOctets(table, [rdn]) == s && s + [] == s;
  }

  function Organization(): Attribute {
    Attribute([0x06, 0x03, 0x55, 0x04, 0x0A], [0x13, 0x01, 0x41])
  }

  lemma OrganizationRdn(table: Table)
    requires [0x06, 0x03, 0x55, 0x04, 0x0A] in table
    requires table[[0x06, 0x03, 0x55, 0x04, 0x0A]] == DirectoryString(1, 64)
    ensures GoodRdn(table, [Organization()])
    ensures RdnOctets(table, [Organization()])
         == [0x31, 0x0A, 0x30, 0x08, 0x06, 0x03, 0x55, 0x04, 0x0A, 0x13, 0x01, 0x41]
  {
    hide Accepts, OidAt;
    var a, rdn := Organization(), [Organization()];
    OrganizationOid();
    OrganizationValue(a.value);
    assert AttributeOctets(a) == [0x30, 0x08, 0x06, 0x03, 0x55, 0x04, 0x0A, 0x13, 0x01, 0x41];
    assert GoodAttribute(table, a);
    assert AttributeParts(table, rdn) == [AttributeOctets(a)];
    assert AttributeParts(table, rdn)[1..] == [];
    assert Concat(AttributeParts(table, rdn)) == AttributeOctets(a);
  }

  lemma OneRdn(table: Table, rdn: Rdn)
    requires GoodRdn(table, rdn) && |RdnOctets(table, rdn)| == 12
    ensures GoodName(table, [rdn]) && NameOctets(table, [rdn]) == [0x30, 0x0C] + RdnOctets(table, rdn)
  {
    hide RdnOctets, GoodRdn;
    var name: Name := [rdn];
    var parts := RdnParts(table, name);
    assert parts[1..] == [];
    assert Concat(parts) == parts[0] == RdnOctets(table, rdn);
  }

  lemma OrganizationOid()
    ensures OidAt([0x06, 0x03, 0x55, 0x04, 0x0A]) == Some(5)
  {
    hide OidAt;
    var s: Octets := [0x06, 0x03, 0x55, 0x04, 0x0A];
    var arcs: seq<Octets> := [[0x55], [0x04], [0x0A]];
    assert arcs[1..] == [[0x04], [0x0A]] && arcs[1..][1..] == [[0x0A]] && arcs[1..][1..][1..] == [];
    assert Concat(arcs) == [0x55, 0x04, 0x0A];
    assert AllArcs(arcs);
    assert s == Tlv(UNIVERSAL, false, OID, Concat(arcs));
    OidExact(s);
  }

  lemma OrganizationValue(value: Octets)
    requires value == [0x13, 0x01, 0x41]
    ensures Accepts(DirectoryString(1, 64), value)
  {
    var c: Octets := [0x41];
    RuleExact(DirectoryString(1, 64), 19, c);
    CharsetExact(19, c);
    assert StringOctets(19, c) == value;
  }
}
