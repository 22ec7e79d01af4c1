/** Revoked certificate entries of a CRL: serial number, date, entry extensions, and the loop over the entries. */
module RevokedEntries {
  import opened Bytes
  import opened Der
  import opened DerInteger
  import opened Containers
  import opened Names
  import opened Elements
  import opened Extensions
  import X509Time

  /** Entry extensions have a table of their own, and an identifier outside it is refused. */
  ghost predicate Strict(reg: Registry) {
    forall f, value, critical :: reg.handle(f, None, value, critical).None?
  }

  function NoFlags(): Flags {
    Flags(false, false, false, false, false, false, false, false, false, false)
  }

  /** A list of entry extensions; unlike that of a certificate it may be empty. */
  ghost predicate EntryExtensionsBody(reg: Registry, content: Octets) {
    Loop(reg, content, [], NoFlags()).Some?
  }

  ghost function EntryExtensionsAt(reg: Registry, s: Octets): (r: Option<nat>)
    ensures r.Some? ==> 1 <= r.value <= |s|
  {
    ElementAt(UNIVERSAL, SEQUENCE, c => EntryExtensionsBody(reg, c), s)
  }

  /** Serial number and date; extensions only in version 2 lists. What follows the extensions is not looked at. */
  ghost predicate EntryBody(reg: Registry, version2: bool, body: Octets) {
    var serial := IntegerAt(body, UNIVERSAL, INTEGER, false);
    serial.Some?
    && var date := X509Time.BoundAt(body[serial.value.Total()..]);
       date.Some?
       && var rest := body[serial.value.Total() + date.value.eaten..];
          rest != [] ==> version2 && EntryExtensionsAt(reg, rest).Some?
  }

  ghost function EntryParser(reg: Registry, version2: bool): ElementParser {
    ElementOf(UNIVERSAL, SEQUENCE, c => EntryBody(reg, version2, c))
  }

  datatype Entries = Entries(eaten: nat, any: bool)

  /** The optional list of entries: eats nothing where no SEQUENCE begins, and may be empty. */
  ghost function EntriesAt(reg: Registry, version2: bool, s: Octets): Option<Entries> {
    if s == [] then None
    else
      match TlvAt(s, UNIVERSAL, SEQUENCE)
      case None => Some(Entries(0, false))
      case Some(e) =>
        if Split(EntryParser(reg, version2), s[e.header..e.Total()]).Some? then Some(Entries(e.Total(), e.content != 0))
        else None
  }

  // ---------------------------------------------------------------- the parsers

  method ParseEntryExtensions(reg: Registry, s: Octets) returns (eaten: Option<nat>)
    ensures eaten == EntryExtensionsAt(reg, s)
  {
    hide TlvAt, Step, Holds, ExtensionAt, Distinct;
    if |s| == 0 {
      return None;
    }
    var e := ParseIdLen(s, UNIVERSAL, SEQUENCE);
    if e.None? {
      return None;
    }
    var ok := ParseEntryExtensionList(reg, s[e.value.header..e.value.Total()]);
    return if ok then Some(e.value.header + e.value.content) else None;
  }

  /** The loop over entry extensions, with the list of those already met. */
  method ParseEntryExtensionList(reg: Registry, content: Octets) returns (ok: bool)
    ensures ok <==> EntryExtensionsBody(reg, content)
  {
    hide TlvAt, Step, Holds, ExtensionAt, Distinct;
    var buf, remain, flags := content, |content|, NoFlags();
    ghost var seen := [];
    var list := new Option<nat>[|reg.known|](_ => None);
    NothingSeen(list[..]);
    while remain > 0
      invariant remain == |buf|
      invariant Holds(list[..], seen)
      invariant Loop(reg, buf, seen, flags) == Loop(reg, content, [], NoFlags())
      decreases remain
    {
      var step := ParseExtension(reg, buf, list, seen, flags);
      if step.None? {
        return false;
      }
      seen := Step(reg, buf, seen, flags).value.seen;
      flags := step.value.1;
      remain := remain - step.value.0;
      buf := buf[step.value.0..];
    }
    return true;
  }

  method ParseEntryBody(reg: Registry, version2: bool, body: Octets) returns (ok: bool)
    ensures ok <==> EntryBody(reg, version2, body)
  {
    hide TlvAt, IntegerAt, X509Time.BoundAt, EntryExtensionsAt;
    if |body| == 0 {
      return false;
    }
    var serial := ParseInteger(body, UNIVERSAL, INTEGER);
    if serial.None? {
      return false;
    }
    var parsed := serial.value.header + serial.value.content;
    var buf := body[parsed..];
    var date := ParseBound(buf);
    if date.None? {
      return false;
    }
    buf := buf[date.value.eaten..];
    assert buf == body[serial.value.Total() + date.value.eaten..];
    if !version2 && |buf| > 0 {
      return false;
    }
    if |buf| > 0 {
      var extensions := ParseEntryExtensions(reg, buf);
      return extensions.Some?;
    }
    return true;
  }

  /** `parse_Time` and `verify_correct_time_use`. */
  method ParseBound(s: Octets) returns (r: Option<X509Time.ParsedTime>)
    ensures r == X509Time.BoundAt(s)
  {
    hide X509Time.TimeAt;
    r := X509Time.ParseTime(s);
    if r.Some? && !X509Time.CorrectUse(r.value.kind, r.value.stamp.year) {
      r := None;
    }
  }

  method ParseRevokedCertificate(reg: Registry, version2: bool, s: Octets) returns (eaten: Option<nat>)
    ensures eaten == EntryParser(reg, version2)(s)
  {
    hide TlvAt, EntryBody;
    if |s| == 0 {
      return None;
    }
    var e := ParseIdLen(s, UNIVERSAL, SEQUENCE);
    if e.None? {
      return None;
    }
    var ok := ParseEntryBody(reg, version2, s[e.value.header..e.value.Total()]);
    return if ok then Some(e.value.header + e.value.content) else None;
  }

  method ParseRevokedCertificates(reg: Registry, version2: bool, s: Octets) returns (r: Option<Entries>)
    ensures r == EntriesAt(reg, version2, s)
  {
    hide TlvAt, Split, EntryParser;
    if |s| == 0 {
      return None;
    }
    var e := ParseIdLen(s, UNIVERSAL, SEQUENCE);
    if e.None? {
      return Some(Entries(0, false));
    }
    var buf, remain := s[e.value.header..e.value.Total()], e.value.content;
    ghost var content, p := buf, EntryParser(reg, version2);
    while remain > 0
      invariant remain == |buf|
      invariant Split(p, buf).Some? <==> Split(p, content).Some?
      decreases remain
    {
      SplitStep(p, buf);
      var parsed := ParseRevokedCertificate(reg, version2, buf);
      if parsed.None? {
        return None;
      }
      remain := remain - parsed.value;
      buf := buf[parsed.value..];
    }
    SplitStep(p, buf);
    return Some(Entries(e.value.header + e.value.content, e.value.content != 0));
  }

  // ---------------------------------------------------------------- what acceptance means

  /** Where a SEQUENCE begins, the list is accepted exactly when its content is a concatenation of whole entries. */
  lemma EntriesSplit(reg: Registry, version2: bool, s: Octets, e: Extent)
    requires TlvAt(s, UNIVERSAL, SEQUENCE) == Some(e)
    ensures EntriesAt(reg, version2, s).Some? <==>
            exists entries :: AllWhole(EntryParser(reg, version2), entries) && Concat(entries) == s[e.header..e.Total()]
  {
    hide TlvAt;
    ElementOfStable(UNIVERSAL, SEQUENCE, c => EntryBody(reg, version2, c));
    hide EntryParser;
    ListExact(EntryParser(reg, version2), s[e.header..e.Total()]);
  }

  /** Without a SEQUENCE the list is absent: nothing is eaten, and that is accepted unless the octets have ended. */
  lemma EntriesAbsent(reg: Registry, version2: bool, s: Octets)
    requires TlvAt(s, UNIVERSAL, SEQUENCE).None?
    ensures EntriesAt(reg, version2, s) == if s == [] then None else Some(Entries(0, false))
  {
  }

  /** One way to read a body: a whole serial number, a whole date, and either nothing more or, in version 2, a whole
      list of extensions with `rest` behind it. */
  ghost predicate EntryParts(reg: Registry, version2: bool, body: Octets, serial: Octets, date: Octets, list: Octets,
                             rest: Octets) {
    && body == serial + (date + (list + rest))
    && (var n := IntegerAt(serial, UNIVERSAL, INTEGER, false); n.Some? && n.value.Total() == |serial|)
    && (var t := X509Time.BoundAt(date); t.Some? && t.value.eaten == |date|)
    && (if list == [] then rest == [] else version2 && EntryExtensionsAt(reg, list) == Some(|list|))
  }

  lemma SerialStable(s: Octets, rest: Octets, e: Extent)
    requires e.Total() <= |s|
    ensures IntegerAt(s, UNIVERSAL, INTEGER, false) == Some(e) <==>
            IntegerAt(s + rest, UNIVERSAL, INTEGER, false) == Some(e)
  {
    hide TlvAt, Minimal;
    ElementStable(s, rest, UNIVERSAL, INTEGER, e.Total());
  }

  lemma DateStable(s: Octets, rest: Octets, p: X509Time.ParsedTime)
    requires p.eaten <= |s|
    ensures X509Time.BoundAt(s) == Some(p) <==> X509Time.BoundAt(s + rest) == Some(p)
  {
    hide X509Time.BoundAt, X509Time.Expressible, X509Time.KindFor, X509Time.BoundOctets;
    X509Time.BoundExact(s, p);
    X509Time.BoundExact(s + rest, p);
    assert (s + rest)[..p.eaten] == s[..p.eaten];
  }

  lemma ListStable(reg: Registry, s: Octets, rest: Octets, n: nat)
    requires n <= |s|
    ensures EntryExtensionsAt(reg, s) == Some(n) <==> EntryExtensionsAt(reg, s + rest) == Some(n)
  {
    hide TlvAt, EntryExtensionsBody;
    ElementStable(s, rest, UNIVERSAL, SEQUENCE, n);
  }

  /** A body is accepted exactly when it can be read that way. */
  lemma EntryExact(reg: Registry, version2: bool, body: Octets)
    ensures EntryBody(reg, version2, body) <==>
            exists serial, date, list, rest :: EntryParts(reg, version2, body, serial, date, list, rest)
  {
    hide EntryParts, EntryBody;
    if EntryBody(reg, version2, body) {
      var serial, date, list, rest := EntryCut(reg, version2, body);
    }
    if serial, date, list, rest :| EntryParts(reg, version2, body, serial, date, list, rest) {
      EntryReads(reg, version2, body, serial, date, list, rest);
    }
  }

  lemma EntryCut(reg: Registry, version2: bool, body: Octets)
    returns (serial: Octets, date: Octets, list: Octets, rest: Octets)
    requires EntryBody(reg, version2, body)
    ensures EntryParts(reg, version2, body, serial, date, list, rest)
  {
    hide IntegerAt, X509Time.BoundAt, EntryExtensionsAt;
    var e := IntegerAt(body, UNIVERSAL, INTEGER, false).value;
    var n := e.Total();
    serial := body[..n];
    var s1 := body[n..];
    assert body == serial + s1;
    SerialStable(serial, s1, e);
    var t := X509Time.BoundAt(s1).value;
    date := s1[..t.eaten];
    var s2 := s1[t.eaten..];
    assert s1 == date + s2;
    DateStable(date, s2, t);
    assert s2 == body[n + t.eaten..];
    if s2 == [] {
      list, rest := [], [];
    } else {
      var k := EntryExtensionsAt(reg, s2).value;
      list, rest := s2[..k], s2[k..];
      assert s2 == list + rest;
      ListStable(reg, list, rest, k);
    }
    assert list + rest == s2;
  }

  lemma EntryReads(reg: Registry, version2: bool, body: Octets, serial: Octets, date: Octets, list: Octets,
                   rest: Octets)
    requires EntryParts(reg, version2, body, serial, date, list, rest)
    ensures EntryBody(reg, version2, body)
  {
    hide IntegerAt, X509Time.BoundAt, EntryExtensionsAt;
    var s2 := list + rest;
    var s1 := date + s2;
    SerialStable(serial, s1, IntegerAt(serial, UNIVERSAL, INTEGER, false).value);
    assert body[|serial|..] == s1;
    DateStable(date, s2, X509Time.BoundAt(date).value);
    assert body[|serial| + |date|..] == s2;
    if list != [] {
      ListStable(reg, list, rest, |list|);
    }
  }

  /** The reading is unique; so what is left over is too, and nothing is exactly when the list ends the body. */
  lemma EntryPartsUnique(reg: Registry, version2: bool, body: Octets,
                         a: (Octets, Octets, Octets, Octets), b: (Octets, Octets, Octets, Octets))
    requires EntryParts(reg, version2, body, a.0, a.1, a.2, a.3) && EntryParts(reg, version2, body, b.0, b.1, b.2, b.3)
    ensures a == b
  {
    hide IntegerAt, X509Time.BoundAt, EntryExtensionsAt;
    SerialStable(a.0, a.1 + (a.2 + a.3), IntegerAt(a.0, UNIVERSAL, INTEGER, false).value);
    SerialStable(b.0, b.1 + (b.2 + b.3), IntegerAt(b.0, UNIVERSAL, INTEGER, false).value);
    SameFront(a.0, a.1 + (a.2 + a.3), b.0, b.1 + (b.2 + b.3));
    DateStable(a.1, a.2 + a.3, X509Time.BoundAt(a.1).value);
    DateStable(b.1, b.2 + b.3, X509Time.BoundAt(b.1).value);
    SameFront(a.1, a.2 + a.3, b.1, b.2 + b.3);
    if a.2 != [] && b.2 != [] {
      ListStable(reg, a.2, a.3, |a.2|);
      ListStable(reg, b.2, b.3, |b.2|);
      SameFront(a.2, a.3, b.2, b.3);
    }
  }

  lemma SameFront(a: Octets, x: Octets, b: Octets, y: Octets)
    requires a + x == b + y && |a| == |b|
    ensures a == b && x == y
  {
    assert a == (a + x)[..|a|] && b == (b + y)[..|b|];
    assert x == (a + x)[|a|..] && y == (b + y)[|b|..];
  }

  /** Any octets at all may stand behind the extensions: serial number 1, any expressible date, an empty list. */
  lemma AnythingMayFollow(reg: Registry, t: X509Time.Stamp, rest: Octets)
    requires X509Time.Expressible(t)
    ensures EntryBody(reg, true, [0x02, 0x01, 0x01] + (X509Time.BoundOctets(t) + ([0x30, 0x00] + rest)))
  {
    hide TlvAt, X509Time.BoundOctets, X509Time.BoundAt, EntryBody;
    var serial, date, list: Octets := [0x02, 0x01, 0x01], X509Time.BoundOctets(t), [0x30, 0x00];
    assert LengthOctets(1) == [1] && LengthOctets(0) == [0];
    assert serial == Tlv(UNIVERSAL, false, INTEGER, [1]);
    EncodeThenParse(UNIVERSAL, false, INTEGER, [1], []);
    assert serial + [] == serial;
    assert list == Tlv(UNIVERSAL, true, SEQUENCE, []);
    EncodeThenParse(UNIVERSAL, true, SEQUENCE, [], []);
    assert list + [] == list;
    X509Time.BoundExact(date, X509Time.ParsedTime(X509Time.KindFor(t.year), |date|, t));
    assert date[..|date|] == date;
    assert list[2..2] == [];
    EntryReads(reg, true, serial + (date + (list + rest)), serial, date, list, rest);
  }

  /** A list of entry extensions is accepted exactly when it is a concatenation of extensions with known identifiers,
      none of them twice, on which the handlers agree; there is one way to cut it. */
  lemma EntryExtensionsExact(reg: Registry, content: Octets)
    requires Strict(reg)
    ensures EntryExtensionsBody(reg, content) <==> exists parts :: Concat(parts) == content && KnownOnce(reg, parts)
    ensures forall a, b ::
              Concat(a) == content && Concat(b) == content && KnownOnce(reg, a) && KnownOnce(reg, b) ==> a == b
  {
    hide Loop, ExtensionParser, OidOf, Chain, Find;
    var p := ExtensionParser();
    LoopExact(reg, content, [], NoFlags());
    ExtensionsStable();
    if EntryExtensionsBody(reg, content) {
      var parts := Split(p, content).value;
      SplitExact(p, content, parts);
      ChainKnows(reg, parts, NoFlags());
      assert KnownOnce(reg, parts);
    }
    forall parts | Concat(parts) == content && KnownOnce(reg, parts) ensures Split(p, content) == Some(parts) {
      SplitExact(p, content, parts);
    }
    if parts :| Concat(parts) == content && KnownOnce(reg, parts) {
      assert NoRepeat(reg, [], parts);
    }
  }

  ghost predicate KnownOnce(reg: Registry, parts: seq<Octets>) {
    && AllWhole(ExtensionParser(), parts)
    && (forall i :: 0 <= i < |parts| ==> OidOf(parts[i]) in reg.known)
    && (forall i, j :: 0 <= i < j < |parts| ==> OidOf(parts[i]) != OidOf(parts[j]))
    && Chain(reg, parts, NoFlags()).Some?
  }

  /** Where an unknown identifier is refused, handlers that all agree have met known ones only. */
  lemma {:induction false} ChainKnows(reg: Registry, parts: seq<Octets>, flags: Flags)
    requires Strict(reg) && Chain(reg, parts, flags).Some?
    ensures forall i :: 0 <= i < |parts| ==> OidOf(parts[i]) in reg.known
    decreases |parts|
  {
    hide ExtensionAt;
    if parts != [] {
      var x := ExtensionAt(parts[0]).value;
      SameIndex(reg.known, x.oid, x.oid);
      var f := reg.handle(flags, Find(reg.known, x.oid), x.value, x.critical).value;
      ChainKnows(reg, parts[1..], f);
      forall i | 0 <= i < |parts| ensures OidOf(parts[i]) in reg.known {
        if i > 0 {
          assert parts[i] == parts[1..][i - 1];
        }
      }
    }
  }
}
