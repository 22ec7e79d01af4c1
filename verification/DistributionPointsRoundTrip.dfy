/** CRL distribution points, encoded and parsed again. */
module DistributionPointsRoundTrip {
  import opened Bytes
  import opened Der
  import opened Containers
  import opened Names
  import opened Elements
  import opened GeneralNames
  import opened GeneralNamesRoundTrip
  import opened DistributionPoints

  /** A point by what it means; the reasons are the contents of their bit list. */
  datatype DistPoint = DistPoint(
    fullName: Option<seq<GeneralName>>,
    reasons: Option<Octets>,
    issuer: Option<seq<GeneralName>>)

  ghost predicate GoodNames(table: Table, gs: seq<GeneralName>) {
    (forall i :: 0 <= i < |gs| ==> GoodGeneralName(table, gs[i])) && |Concat(Encoded(table, gs))| < U32_LIMIT
  }

  /** A list of names under a context-specific tag. */
  ghost function NamesOctets(table: Table, gs: seq<GeneralName>, tag: nat): Octets
    requires GoodNames(table, gs) && tag < 31
  {
    Tlv(CONTEXT_SPECIFIC, true, tag, Concat(Encoded(table, gs)))
  }

  ghost predicate GoodPoint(table: Table, p: DistPoint) {
    && (p.fullName.Some? || p.issuer.Some?)
    && (p.fullName.Some? ==>
          GoodNames(table, p.fullName.value) && |NamesOctets(table, p.fullName.value, 0)| < U32_LIMIT)
    && (p.reasons.Some? ==> NamedBits(p.reasons.value))
    && (p.issuer.Some? ==> GoodNames(table, p.issuer.value))
    && |PointContent(table, p)| < U32_LIMIT
  }

  ghost function PointContent(table: Table, p: DistPoint): Octets
    requires p.fullName.Some? ==>
               GoodNames(table, p.fullName.value) && |NamesOctets(table, p.fullName.value, 0)| < U32_LIMIT
    requires p.reasons.Some? ==> NamedBits(p.reasons.value)
    requires p.issuer.Some? ==> GoodNames(table, p.issuer.value)
  {
    FullNameOctets(table, p.fullName) + (ReasonsOctets(p.reasons) + IssuerOctets(table, p.issuer))
  }

  ghost function FullNameOctets(table: Table, names: Option<seq<GeneralName>>): Octets
    requires names.Some? ==> GoodNames(table, names.value) && |NamesOctets(table, names.value, 0)| < U32_LIMIT
  {
    if names.None? then [] else Tlv(CONTEXT_SPECIFIC, true, 0, NamesOctets(table, names.value, 0))
  }

  function ReasonsOctets(bits: Option<Octets>): Octets
    requires bits.Some? ==> NamedBits(bits.value)
  {
    if bits.None? then [] else Tlv(CONTEXT_SPECIFIC, false, 1, bits.value)
  }

  ghost function IssuerOctets(table: Table, names: Option<seq<GeneralName>>): Octets
    requires names.Some? ==> GoodNames(table, names.value)
  {
    if names.None? then [] else NamesOctets(table, names.value, 2)
  }

  // ---------------------------------------------------------------- the three parts, met one after another

  /** Names behind a tag, with octets of another tag or nothing where they are missing. */
  lemma IssuerReads(table: Table, names: Option<seq<GeneralName>>)
    requires names.Some? ==> GoodNames(table, names.value)
    ensures var s := IssuerOctets(table, names);
            GeneralNamesAt(table, s, CONTEXT_SPECIFIC, 2) == if names.None? then None else Some(|s|)
    ensures TlvAt(IssuerOctets(table, names), CONTEXT_SPECIFIC, 0).None?
    ensures TlvAt(IssuerOctets(table, names), CONTEXT_SPECIFIC, 1).None?
  {
    hide TlvAt, GeneralNamesAt, Header;
    match names
    case None =>
      NoElement(CONTEXT_SPECIFIC, 0);
      NoElement(CONTEXT_SPECIFIC, 1);
      NoNames(table);
    case Some(gs) =>
      var content, s := Concat(Encoded(table, gs)), NamesOctets(table, gs, 2);
      OtherElement(CONTEXT_SPECIFIC, true, 2, content, [], CONTEXT_SPECIFIC, 0);
      OtherElement(CONTEXT_SPECIFIC, true, 2, content, [], CONTEXT_SPECIFIC, 1);
      GeneralNamesRoundTrip.GeneralNamesRoundTrip(table, gs, CONTEXT_SPECIFIC, true, 2, []);
      assert s + [] == s;
  }

  lemma NoNames(table: Table)
    ensures GeneralNamesAt(table, [], CONTEXT_SPECIFIC, 2).None?
  {
    hide TlvAt;
    NoElement(CONTEXT_SPECIFIC, 2);
  }

  lemma ReasonsReads(bits: Option<Octets>, rest: Octets)
    requires bits.Some? ==> NamedBits(bits.value)
    requires TlvAt(rest, CONTEXT_SPECIFIC, 0).None? && TlvAt(rest, CONTEXT_SPECIFIC, 1).None?
    ensures var s := ReasonsOctets(bits);
            ReasonsAt(s + rest) == if bits.None? then None else Some(|s|)
    ensures TlvAt(ReasonsOctets(bits) + rest, CONTEXT_SPECIFIC, 0).None?
  {
    hide TlvAt, Header;
    match bits
    case None =>
      assert ReasonsOctets(bits) + rest == rest;
    case Some(c) =>
      OtherElement(CONTEXT_SPECIFIC, false, 1, c, rest, CONTEXT_SPECIFIC, 0);
      EncodeThenParse(CONTEXT_SPECIFIC, false, 1, c, rest);
  }

  lemma FullNameReads(table: Table, names: Option<seq<GeneralName>>, rest: Octets)
    requires names.Some? ==> GoodNames(table, names.value) && |NamesOctets(table, names.value, 0)| < U32_LIMIT
    requires TlvAt(rest, CONTEXT_SPECIFIC, 0).None?
    ensures var s := FullNameOctets(table, names);
            PointNameAt(table, s + rest) == Some(|s|) && (s == [] <==> names.None?)
  {
    hide TlvAt, GeneralNamesAt, NamesOctets;
    match names
    case None =>
      assert FullNameOctets(table, names) + rest == rest;
    case Some(gs) =>
      var inner := NamesOctets(table, gs, 0);
      EncodeThenParse(CONTEXT_SPECIFIC, true, 0, inner, rest);
      NamesBegin(table, gs);
  }

  lemma NamesBegin(table: Table, gs: seq<GeneralName>)
    requires GoodNames(table, gs)
    ensures var s := NamesOctets(table, gs, 0);
            s != [] && s[0] == 0xA0 && GeneralNamesAt(table, s, CONTEXT_SPECIFIC, 0) == Some(|s|)
  {
    hide GeneralNamesAt;
    GeneralNamesRoundTrip.GeneralNamesRoundTrip(table, gs, CONTEXT_SPECIFIC, true, 0, []);
    var s := NamesOctets(table, gs, 0);
    assert s + [] == s;
  }

  lemma PointReads(table: Table, p: DistPoint)
    requires GoodPoint(table, p)
    ensures PointBody(table, PointContent(table, p)) == Some(p.reasons.None?)
  {
    hide TlvAt, GeneralNamesAt, PointNameAt, ReasonsAt, NamesOctets, FullNameOctets, ReasonsOctets, IssuerOctets,
         GoodNames, NamedBits;
    var name, reasons := FullNameOctets(table, p.fullName), ReasonsOctets(p.reasons);
    var issuer := IssuerOctets(table, p.issuer);
    var body := name + (reasons + issuer);
    IssuerReads(table, p.issuer);
    ReasonsReads(p.reasons, issuer);
    FullNameReads(table, p.fullName, reasons + issuer);
    assert body[|name|..] == reasons + issuer;
    assert body[|name| + |reasons|..] == issuer;
    if p.reasons.None? {
      NoReasons(p.reasons);
    }
    if p.issuer.None? {
      NoIssuer(table, p.issuer);
    }
  }

  lemma NoReasons(bits: Option<Octets>)
    requires bits.None?
    ensures ReasonsOctets(bits) == []
  {
  }

  lemma NoIssuer(table: Table, names: Option<seq<GeneralName>>)
    requires names.None?
    ensures IssuerOctets(table, names) == []
  {
  }

  ghost function PointOctets(table: Table, p: DistPoint): Octets
    requires GoodPoint(table, p)
  {
    Tlv(UNIVERSAL, true, SEQUENCE, PointContent(table, p))
  }

  /** Every point, encoded, is one whole point, and covers all reasons exactly when it names none. */
  lemma PointRoundTrip(table: Table, p: DistPoint)
    requires GoodPoint(table, p)
    ensures PointAt(table, PointOctets(table, p)) == Some(Point(|PointOctets(table, p)|, p.reasons.None?))
  {
    hide TlvAt, Header, PointContent, PointBody;
    var s := PointOctets(table, p);
    EncodeThenParse(UNIVERSAL, true, SEQUENCE, PointContent(table, p), []);
    assert s + [] == s;
    PointReads(table, p);
  }

  ghost function EncodedPoints(table: Table, ps: seq<DistPoint>): (parts: seq<Octets>)
    requires forall i :: 0 <= i < |ps| ==> GoodPoint(table, ps[i])
    ensures |parts| == |ps|
  {
    seq(|ps|, i requires 0 <= i < |ps| => PointOctets(table, ps[i]))
  }

  ghost predicate GoodPoints(table: Table, ps: seq<DistPoint>) {
    (forall i :: 0 <= i < |ps| ==> GoodPoint(table, ps[i])) && |Concat(EncodedPoints(table, ps))| < U32_LIMIT
  }

  ghost function PointsOctets(table: Table, ps: seq<DistPoint>): Octets
    requires GoodPoints(table, ps)
  {
    Tlv(UNIVERSAL, true, SEQUENCE, Concat(EncodedPoints(table, ps)))
  }

  predicate NamesAll(ps: seq<DistPoint>) {
    exists i :: 0 <= i < |ps| && ps[i].reasons.None?
  }

  /** Every list of points is accepted as an extension value, and the flag tells whether one of them names no
      reasons. */
  lemma CrldpRoundTrip(table: Table, ps: seq<DistPoint>)
    requires GoodPoints(table, ps)
    ensures CrldpValue(table, PointsOctets(table, ps)) == Some(NamesAll(ps))
  {
    hide TlvAt, Header, PointOctets, PointAt, GoodPoint, PointParser, CrldpValue;
    var parts := EncodedPoints(table, ps);
    forall i | 0 <= i < |parts|
      ensures Whole(PointParser(table), parts[i]) && (CoversAll(table, parts[i]) <==> ps[i].reasons.None?)
    {
      PointRoundTrip(table, ps[i]);
    }
    var content, s := Concat(parts), PointsOctets(table, ps);
    EncodeThenParse(UNIVERSAL, true, SEQUENCE, content, []);
    assert s + [] == s;
    var e := TlvAt(s, UNIVERSAL, SEQUENCE).value;
    assert s[e.header..] == content;
    assert SomeCoversAll(table, parts) <==> NamesAll(ps) by { SameCover(table, ps, parts); }
    assert AllWhole(PointParser(table), parts);
    CrldpSplits(table, s, NamesAll(ps));
  }

  lemma SameCover(table: Table, ps: seq<DistPoint>, parts: seq<Octets>)
    requires |ps| == |parts| && forall i :: 0 <= i < |parts| ==> (CoversAll(table, parts[i]) <==> ps[i].reasons.None?)
    ensures SomeCoversAll(table, parts) <==> NamesAll(ps)
  {
    hide CoversAll;
  }
}
