/** Certificates put together from their parts are accepted, with exactly those parts recorded. */
module CertificateRoundTrip {
  import opened Bytes
  import opened Der
  import opened DerInteger
  import opened Names
  import opened Extensions
  import opened Certificate
  import opened CertificateLayout
  import X509Time

  /** The encoded elements of a certificate. */
  datatype Assembly = Assembly(
    version: Octets,
    serial: Octets,
    algorithm: Octets,
    issuer: Octets,
    validity: Octets,
    subject: Octets,
    keyInfo: Octets,
    extensions: Octets,
    signature: Octets)

  /** What the handlers and the tables make of them. */
  datatype Reading = Reading(
    alg: Algorithm, notBefore: nat, notAfter: nat, emptySubject: bool, key: KeyInfo, flags: Flags, raw: seq<Slice>)

  function HeadOctets(a: Assembly): Octets {
    a.version + (a.serial + (a.algorithm + a.issuer))
  }

  function RestOctets(a: Assembly): Octets {
    a.validity + (a.subject + (a.keyInfo + a.extensions))
  }

  predicate FitsLimits(a: Assembly) {
    && |HeadOctets(a) + RestOctets(a)| < U32_LIMIT
    && |TbsOctets(a) + (a.algorithm + a.signature)| < U32_LIMIT
  }

  function TbsOctets(a: Assembly): Octets
    requires |HeadOctets(a) + RestOctets(a)| < U32_LIMIT
  {
    Tlv(UNIVERSAL, true, SEQUENCE, HeadOctets(a) + RestOctets(a))
  }

  function CertOctets(a: Assembly): Octets
    requires FitsLimits(a)
  {
    Tlv(UNIVERSAL, true, SEQUENCE, TbsOctets(a) + (a.algorithm + a.signature))
  }

  /** Each element is whole and acceptable on its own, and the flags agree with one another. */
  ghost predicate Acceptable(env: Env, a: Assembly, r: Reading) {
    && VersionAt(a.version) == Some((2, |a.version|))
    && SerialAt(a.serial) == Some(|a.serial|)
    && AlgorithmAt(a.algorithm, env.sigAlgorithm, env.sigParameters) == Some(r.alg) && r.alg.eaten == |a.algorithm|
    && NameAt(env.names, a.issuer) == Some(NameExtent(|a.issuer|, false))
    && X509Time.ValidityAt(a.validity) == Some(X509Time.Validity(r.notBefore, r.notAfter, |a.validity|))
    && NameAt(env.names, a.subject) == Some(NameExtent(|a.subject|, r.emptySubject))
    && KeyInfoAt(env, a.keyInfo) == Some(r.key) && r.key.eaten == |a.keyInfo|
    && TailAt(env, a.extensions, r.emptySubject) == Some((|a.extensions|, r.flags))
    && Consistent(r.flags, r.emptySubject)
    && env.signature(r.alg.id, a.algorithm, a.signature) == Some(SigValue(|a.signature|, r.raw))
  }

  /** The record of the TBS when it stands at `off`. */
  function Moved(a: Assembly, r: Reading, off: nat): Tbs
    requires |HeadOctets(a) + RestOctets(a)| < U32_LIMIT && |a.serial| >= 2
  {
    var h := |TbsOctets(a)| - |HeadOctets(a) + RestOctets(a)|;
    var serial := off + h + |a.version|;
    var algorithm := serial + |a.serial|;
    var issuer := algorithm + |a.algorithm|;
    var validity := issuer + |a.issuer|;
    var subject := validity + |a.validity|;
    var keyInfo := subject + |a.subject|;
    Tbs(h, |TbsOctets(a)|, r.alg.From(algorithm), Slice(serial + 2, |a.serial| - 2), Slice(algorithm, |a.algorithm|),
        Slice(issuer, |a.issuer|), Slice(validity, |a.validity|), r.notBefore, r.notAfter,
        Slice(subject, |a.subject|), r.emptySubject, a.subject == a.issuer, Slice(keyInfo, |a.keyInfo|),
        r.key.From(keyInfo), Slice(keyInfo + |a.keyInfo|, |a.extensions|), r.flags)
  }

  /** The record the parser is to leave: every part where it was put. */
  function Layout(a: Assembly, r: Reading): Cert
    requires FitsLimits(a) && |a.serial| >= 2
  {
    var h := |CertOctets(a)| - |TbsOctets(a) + (a.algorithm + a.signature)|;
    var end := h + |TbsOctets(a)|;
    var sig := end + |a.algorithm|;
    Cert(Slice(h, |TbsOctets(a)|), Moved(a, r, h), Slice(end, |a.algorithm|), Slice(sig, |a.signature|),
         Shifted(r.raw, sig))
  }

  // ---------------------------------------------------------------- the parts, met one after another

  lemma VersionStable(s: Octets, rest: Octets, v: (byte, nat))
    requires VersionAt(s) == Some(v)
    ensures VersionAt(s + rest) == Some(v)
  {
    hide TlvAt;
    var o := TlvAt(s, CONTEXT_SPECIFIC, 0).value;
    AppendStable(s, rest, CONTEXT_SPECIFIC, 0, o);
    var inner := s[o.header..];
    AppendStable(inner, rest, UNIVERSAL, INTEGER, TlvAt(inner, UNIVERSAL, INTEGER).value);
    assert (s + rest)[o.header..] == inner + rest;
  }

  lemma SerialStable(s: Octets, rest: Octets, n: nat)
    requires SerialAt(s) == Some(n)
    ensures SerialAt(s + rest) == Some(n)
  {
    hide TlvAt, Minimal;
    ElementStable(s, rest, UNIVERSAL, INTEGER, n);
  }

  /** Skipping a part leaves what stands behind it. */
  lemma Behind(part: Octets, rest: Octets)
    ensures (part + rest)[|part|..] == rest
  {
  }

  lemma HeadAssembled(env: Env, a: Assembly, r: Reading, rest: Octets, off: nat)
    requires Acceptable(env, a, r)
    ensures |a.serial| >= 2
    ensures HeadAt(env, HeadOctets(a) + rest, off) == Some(HeadOf(a, r, off))
  {
    hide VersionAt, SerialAt, AlgorithmAt, NameAt, X509Time.ValidityAt, KeyInfoAt, TailAt, Consistent;
    var r3 := a.issuer + rest;
    var r2 := a.algorithm + r3;
    var r1 := a.serial + r2;
    var s := a.version + r1;
    assert HeadOctets(a) + rest == s;
    VersionStable(a.version, r1, (2, |a.version|));
    Behind(a.version, r1);
    SerialStable(a.serial, r2, |a.serial|);
    Behind(a.serial, r2);
    assert s[|a.version| + |a.serial|..] == r2;
    AlgorithmStable(a.algorithm, r3, env.sigAlgorithm, env.sigParameters, r.alg);
    assert s[|a.version| + |a.serial| + |a.algorithm|..] == r3;
    NameStable(env.names, a.issuer, rest, NameExtent(|a.issuer|, false));
  }

  lemma RestAssembled(env: Env, a: Assembly, r: Reading, off: nat)
    requires Acceptable(env, a, r)
    ensures RestAt(env, RestOctets(a), off) == Some(TailOf(a, r, off))
  {
    hide VersionAt, SerialAt, AlgorithmAt, NameAt, X509Time.ValidityAt, KeyInfoAt, TailAt, Consistent;
    var r2 := a.keyInfo + a.extensions;
    var r1 := a.subject + r2;
    var s := RestOctets(a);
    ValidityStable(a.validity, r1, X509Time.Validity(r.notBefore, r.notAfter, |a.validity|));
    Behind(a.validity, r1);
    NameStable(env.names, a.subject, r2, NameExtent(|a.subject|, r.emptySubject));
    assert s[|a.validity| + |a.subject|..] == r2;
    KeyInfoStable(env, a.keyInfo, a.extensions, r.key);
    assert s[|a.validity| + |a.subject| + |a.keyInfo|..] == a.extensions;
  }

  function HeadOf(a: Assembly, r: Reading, off: nat): Head
    requires |a.serial| >= 2
  {
    var p := off + |a.version|;
    Head(r.alg.From(p + |a.serial|), Slice(p + 2, |a.serial| - 2), Slice(p + |a.serial|, |a.algorithm|),
         Slice(p + |a.serial| + |a.algorithm|, |a.issuer|))
  }

  function TailOf(a: Assembly, r: Reading, off: nat): Rest {
    var p := off + |a.validity|;
    Rest(Slice(off, |a.validity|), r.notBefore, r.notAfter, Slice(p, |a.subject|), r.emptySubject,
         Slice(p + |a.subject|, |a.keyInfo|), r.key.From(p + |a.subject|),
         Slice(p + |a.subject| + |a.keyInfo|, |a.extensions|), r.flags)
  }

  lemma HalvesAssembled(env: Env, a: Assembly, r: Reading, base: nat)
    requires Acceptable(env, a, r)
    ensures |a.serial| >= 2
    ensures RestOf(env, HeadOctets(a) + RestOctets(a), base)
         == Some((HeadOf(a, r, base), TailOf(a, r, base + |HeadOctets(a)|)))
  {
    hide HeadAt, RestAt, Acceptable, HeadOctets, RestOctets;
    HeadAssembled(env, a, r, RestOctets(a), base);
    Lengths(a);
    Behind(HeadOctets(a), RestOctets(a));
    RestAssembled(env, a, r, base + |HeadOctets(a)|);
  }

  /** The two halves, put together, are the record. */
  lemma CombinedIsMoved(a: Assembly, r: Reading, off: nat, h: nat)
    requires |HeadOctets(a) + RestOctets(a)| < U32_LIMIT && |a.serial| >= 2
    requires |TbsOctets(a)| == h + |HeadOctets(a) + RestOctets(a)|
    ensures var body := HeadOctets(a) + RestOctets(a);
            var head, tail := HeadOf(a, r, off + h), TailOf(a, r, off + h + |HeadOctets(a)|);
            && off + h <= head.issuer.start && head.issuer.End() <= off + h + |body|
            && off + h <= tail.subject.start && tail.subject.End() <= off + h + |body|
            && Combined(body, off + h, Extent(h, |body|), head, tail) == Moved(a, r, off)
  {
    hide HeadOctets, RestOctets, TbsOctets, Window;
    Lengths(a);
    NamesSeen(a, r, off + h);
  }

  lemma NamesSeen(a: Assembly, r: Reading, base: nat)
    requires |a.serial| >= 2
    ensures var body := HeadOctets(a) + RestOctets(a);
            var issuer, subject := HeadOf(a, r, base).issuer, TailOf(a, r, base + |HeadOctets(a)|).subject;
            && base <= issuer.start && issuer.End() <= base + |body|
            && base <= subject.start && subject.End() <= base + |body|
            && Window(body, base, issuer) == a.issuer && Window(body, base, subject) == a.subject
  {
    hide HeadOctets, RestOctets;
    Lengths(a);
    WhereNames(a);
  }

  lemma TbsAssembled(env: Env, a: Assembly, r: Reading, rest: Octets, off: nat)
    requires Acceptable(env, a, r) && |HeadOctets(a) + RestOctets(a)| < U32_LIMIT
    ensures |a.serial| >= 2
    ensures TbsAt(env, TbsOctets(a) + rest, off) == Some(Moved(a, r, off))
  {
    hide RestOf, TbsAt, Acceptable, HeadOctets, RestOctets, TlvAt, Header, HeadOf, TailOf, Moved, Combined;
    var body := HeadOctets(a) + RestOctets(a);
    var s := TbsOctets(a) + rest;
    var h := |Header(UNIVERSAL, true, SEQUENCE, |body|)|;
    EncodeThenParse(UNIVERSAL, true, SEQUENCE, body, rest);
    assert s[h..h + |body|] == body;
    HalvesAssembled(env, a, r, off + h);
    CombinedIsMoved(a, r, off, h);
    TbsIs(env, s, off, Extent(h, |body|), body);
  }

  lemma Lengths(a: Assembly)
    ensures |HeadOctets(a)| == |a.version| + |a.serial| + |a.algorithm| + |a.issuer|
    ensures |RestOctets(a)| == |a.validity| + |a.subject| + |a.keyInfo| + |a.extensions|
  {
  }

  /** Issuer and subject, read back from the contents. */
  lemma WhereNames(a: Assembly)
    ensures var body := HeadOctets(a) + RestOctets(a);
            var i := |a.version| + |a.serial| + |a.algorithm|;
            var j := i + |a.issuer| + |a.validity|;
            && j + |a.subject| <= |body|
            && body[i..i + |a.issuer|] == a.issuer && body[j..j + |a.subject|] == a.subject
  {
    var front := a.version + a.serial + a.algorithm;
    var middle := front + a.issuer + a.validity;
    assert HeadOctets(a) + RestOctets(a) == front + a.issuer + RestOctets(a);
    assert HeadOctets(a) + RestOctets(a) == middle + a.subject + (a.keyInfo + a.extensions);
  }

  /** The certificate from what its header and its TBS were read as, with algorithm and signature behind them. */
  lemma CertFrom(env: Env, cert: Octets, e: Extent, t: Tbs, algorithm: Octets, signature: Octets, raw: seq<Slice>)
    requires TlvAt(cert, UNIVERSAL, SEQUENCE) == Some(e) && e.Total() == |cert|
    requires TbsAt(env, cert[e.header..], e.header) == Some(t)
    requires cert[e.header..][t.eaten..] == algorithm + signature
    requires t.algorithm.End() <= |cert| && t.algorithm.Of(cert) == algorithm && algorithm != [] && signature != []
    requires env.signature(t.alg.id, algorithm, signature) == Some(SigValue(|signature|, raw))
    ensures var off := e.header + t.eaten;
            CertAt(env, cert) == Some(Cert(Slice(e.header, t.eaten), t, Slice(off, |algorithm|),
                                           Slice(off + |algorithm|, |signature|), Shifted(raw, off + |algorithm|)))
  {
    hide TbsAt, TlvAt, CertAt;
    CertIs(env, cert, e, t);
    var off := e.header + t.eaten;
    assert cert[off..] == algorithm + signature;
    assert cert[off..off + |algorithm|] == cert[off..][..|algorithm|] == algorithm;
    assert cert[off + |algorithm|..] == cert[off..][|algorithm|..] == signature;
  }

  /** A piece inside a piece. */
  lemma Nested(cert: Octets, h: nat, header: Octets, front: Octets, piece: Octets, back: Octets, tail: Octets)
    requires h <= |cert| && cert[h..] == header + (front + piece + back) + tail
    ensures var i := h + |header| + |front|;
            i + |piece| <= |cert| && cert[i..i + |piece|] == piece
  {
    var s := cert[h..];
    var j := |header| + |front|;
    assert s == (header + front) + piece + (back + tail);
    assert s[j..j + |piece|] == piece;
    assert cert[h + j..h + j + |piece|] == s[j..j + |piece|];
  }

  lemma AlgorithmNested(a: Assembly, r: Reading, cert: Octets, h: nat, tail: Octets)
    requires |HeadOctets(a) + RestOctets(a)| < U32_LIMIT && |a.serial| >= 2
    requires h <= |cert| && cert[h..] == TbsOctets(a) + tail
    ensures Moved(a, r, h).algorithm.End() <= |cert| && Moved(a, r, h).algorithm.Of(cert) == a.algorithm
  {
    hide Header;
    var body := HeadOctets(a) + RestOctets(a);
    var header := Header(UNIVERSAL, true, SEQUENCE, |body|);
    var front := a.version + a.serial;
    assert body == front + a.algorithm + (a.issuer + RestOctets(a));
    Nested(cert, h, header, front, a.algorithm, a.issuer + RestOctets(a), tail);
  }

  lemma AcceptableParts(env: Env, a: Assembly, r: Reading)
    requires Acceptable(env, a, r)
    ensures |a.serial| >= 2 && a.algorithm != [] && a.signature != []
    ensures env.signature(r.alg.id, a.algorithm, a.signature) == Some(SigValue(|a.signature|, r.raw))
  {
  }

  /** A certificate assembled from acceptable parts is accepted, and what is recorded is where each part was put
      and what it reads as. */
  lemma AssembledIsAccepted(env: Env, a: Assembly, r: Reading)
    requires Acceptable(env, a, r) && FitsLimits(a)
    ensures |a.serial| >= 2 && CertAt(env, CertOctets(a)) == Some(Layout(a, r))
  {
    hide Acceptable, TbsAt, CertAt, HeadOctets, RestOctets, TlvAt, Header, TbsOctets;
    AcceptableParts(env, a, r);
    var tail := a.algorithm + a.signature;
    var content := TbsOctets(a) + tail;
    var cert := CertOctets(a);
    var h := |Header(UNIVERSAL, true, SEQUENCE, |content|)|;
    EncodeThenParse(UNIVERSAL, true, SEQUENCE, content, []);
    assert cert + [] == cert;
    assert cert[h..] == content;
    TbsAssembled(env, a, r, tail, h);
    AlgorithmNested(a, r, cert, h, tail);
    Behind(TbsOctets(a), tail);
    CertFrom(env, cert, Extent(h, |content|), Moved(a, r, h), a.algorithm, a.signature, r.raw);
  }

  // ---------------------------------------------------------------- from meanings

  /** A certificate by what it means: numbers, names and times; algorithm, key and extensions are for the handlers
      and stay encoded. */
  datatype Content = Content(
    serial: nat,
    alg: Algorithm,
    algorithm: Octets,
    issuer: Name,
    notBefore: X509Time.Stamp,
    notAfter: X509Time.Stamp,
    subject: Name,
    key: KeyInfo,
    keyInfo: Octets,
    extensions: Octets,
    flags: Flags,
    forms: Forms,
    r: nat,
    s: nat)

  /** Names that meet their rules, the issuer not empty; expressible times, the first earlier; elements the handlers
      take; a signature of two naturals. */
  ghost predicate Sensible(env: Env, c: Content) {
    && |NaturalOctets(c.serial)| < U32_LIMIT
    && AlgorithmAt(c.algorithm, env.sigAlgorithm, env.sigParameters) == Some(c.alg) && c.alg.eaten == |c.algorithm|
    && GoodName(env.names, c.issuer) && c.issuer != [] && GoodName(env.names, c.subject)
    && X509Time.Expressible(c.notBefore) && X509Time.Expressible(c.notAfter)
    && X509Time.Earlier(c.notBefore, c.notAfter)
    && KeyInfoAt(env, c.keyInfo) == Some(c.key) && c.key.eaten == |c.keyInfo|
    && TailAt(env, c.extensions, c.subject == []) == Some((|c.extensions|, c.flags))
    && Consistent(c.flags, c.subject == [])
    && Encodable(c.forms, c.r, c.s) && HandledAsDsa(env, c.alg.id)
  }

  /** Where the two numbers stand in the signature value: `s` at its end, `r` before the element of `s`. */
  function PairPlaces(f: Forms, r: nat, s: nat): (raw: seq<Slice>)
    requires Encodable(f, r, s)
  {
    var end, nr, ns := |SignatureOctets(f, r, s)|, |NaturalOctets(r)|, |NaturalOctets(s)|;
    [Slice(end - |Tlv(UNIVERSAL, f.s, INTEGER, NaturalOctets(s))| - nr, nr), Slice(end - ns, ns)]
  }

  function ReadingOf(c: Content): Reading
    requires Encodable(c.forms, c.r, c.s)
  {
    Reading(c.alg, X509Time.Pack(c.notBefore), X509Time.Pack(c.notAfter), c.subject == [], c.key, c.flags,
            PairPlaces(c.forms, c.r, c.s))
  }

  function VersionOctets(): Octets {
    Tlv(CONTEXT_SPECIFIC, true, 0, Tlv(UNIVERSAL, false, INTEGER, [2]))
  }

  ghost function Encoded(env: Env, c: Content): Assembly
    requires Sensible(env, c)
  {
    var bounds := X509Time.BoundOctets(c.notBefore) + X509Time.BoundOctets(c.notAfter);
    Assembly(
      VersionOctets(),
      Tlv(UNIVERSAL, false, INTEGER, NaturalOctets(c.serial)),
      c.algorithm,
      NameOctets(env.names, c.issuer),
      Tlv(UNIVERSAL, true, SEQUENCE, bounds),
      NameOctets(env.names, c.subject),
      c.keyInfo,
      c.extensions,
      SignatureOctets(c.forms, c.r, c.s))
  }

  lemma VersionReads()
    ensures VersionAt(VersionOctets()) == Some((2, |VersionOctets()|))
  {
    hide TlvAt;
    var inner := Tlv(UNIVERSAL, false, INTEGER, [2]);
    assert inner == [2, 1, 2];
    EncodeThenParse(UNIVERSAL, false, INTEGER, [2], []);
    EncodeThenParse(CONTEXT_SPECIFIC, true, 0, inner, []);
    assert inner + [] == inner && VersionOctets() + [] == VersionOctets();
    var h := |Header(CONTEXT_SPECIFIC, true, 0, |inner|)|;
    assert VersionOctets()[h..] == inner;
  }

  lemma SerialReads(n: nat)
    requires |NaturalOctets(n)| < U32_LIMIT
    ensures var s := Tlv(UNIVERSAL, false, INTEGER, NaturalOctets(n)); SerialAt(s) == Some(|s|)
  {
    hide TlvAt, Header, NaturalOctets, Minimal;
    NaturalRoundTrip(n);
    EncodeThenParse(UNIVERSAL, false, INTEGER, NaturalOctets(n), []);
    var s := Tlv(UNIVERSAL, false, INTEGER, NaturalOctets(n));
    assert s + [] == s;
  }

  lemma BoundsReads(a: X509Time.Stamp, b: X509Time.Stamp)
    requires X509Time.Expressible(a) && X509Time.Expressible(b) && X509Time.Earlier(a, b)
    ensures var bounds := X509Time.BoundOctets(a) + X509Time.BoundOctets(b);
            |bounds| < U32_LIMIT
            && var s := Tlv(UNIVERSAL, true, SEQUENCE, bounds);
               X509Time.ValidityAt(s) == Some(X509Time.Validity(X509Time.Pack(a), X509Time.Pack(b), |s|))
  {
    hide TlvAt, Header, X509Time.ValidityAt, X509Time.Pack, X509Time.Tail, X509Time.Earlier;
    X509Time.TailLength(a);
    X509Time.TailLength(b);
    var bounds := X509Time.BoundOctets(a) + X509Time.BoundOctets(b);
    EncodeThenParse(UNIVERSAL, true, SEQUENCE, bounds, []);
    var s := Tlv(UNIVERSAL, true, SEQUENCE, bounds);
    assert s + [] == s;
    X509Time.ValidityExact(s, Extent(|s| - |bounds|, |bounds|));
  }

  lemma NameReads(table: Table, name: Name)
    requires GoodName(table, name)
    ensures NameAt(table, NameOctets(table, name)) == Some(NameExtent(|NameOctets(table, name)|, name == []))
  {
    hide NameAt, NameOctets;
    NameRoundTrip(table, name, []);
    assert NameOctets(table, name) + [] == NameOctets(table, name);
  }

  lemma SignatureReads(f: Forms, r: nat, s: nat, alg: nat, id: Octets)
    requires Encodable(f, r, s)
    ensures var octets := SignatureOctets(f, r, s);
            && DsaHandler()(alg, id, octets) == Some(SigValue(|octets|, PairPlaces(f, r, s)))
            && HoldPair(octets, PairPlaces(f, r, s), r, s)
  {
    hide SignatureAt, SignatureOctets, Encodable, Tlv, NaturalOctets;
    SignatureRoundTrip(f, r, s, []);
    assert SignatureOctets(f, r, s) + [] == SignatureOctets(f, r, s);
    var g := SignatureAt(SignatureOctets(f, r, s)).value;
    assert |NaturalOctets(s)| == g.sLen && |NaturalOctets(r)| == g.rLen;
    assert PairSlices(g) == PairPlaces(f, r, s);
  }

  /** Every sensible content, encoded, is an accepted certificate: names, times, serial number and signature of any
      value survive the way through octets and parser. */
  lemma ContentIsAccepted(env: Env, c: Content)
    requires Sensible(env, c) && FitsLimits(Encoded(env, c))
    ensures var a := Encoded(env, c);
            |a.serial| >= 2 && CertAt(env, CertOctets(a)) == Some(Layout(a, ReadingOf(c)))
  {
    hide VersionAt, SerialAt, AlgorithmAt, NameAt, X509Time.ValidityAt, KeyInfoAt, TailAt, Consistent, CertAt, Layout,
         CertOctets, NameOctets, SignatureOctets, VersionOctets, Tlv, FitsLimits, X509Time.Pack, X509Time.BoundOctets,
         NaturalOctets, Encodable, PairPlaces, HoldPair;
    VersionReads();
    SerialReads(c.serial);
    BoundsReads(c.notBefore, c.notAfter);
    NameReads(env.names, c.issuer);
    NameReads(env.names, c.subject);
    SignatureReads(c.forms, c.r, c.s, c.alg.id, c.algorithm);
    AssembledIsAccepted(env, Encoded(env, c), ReadingOf(c));
  }

  /** An assembled certificate ends in its signature value, where the slices stored for it belong. */
  lemma LayoutEnds(a: Assembly, r: Reading)
    requires FitsLimits(a) && |a.serial| >= 2
    ensures var c, cert := Layout(a, r), CertOctets(a);
            && c.signature.start <= |cert| && cert[c.signature.start..] == a.signature
            && c.raw == Shifted(r.raw, c.signature.start)
  {
    hide HeadOctets, RestOctets, TbsOctets, Header, Moved, Shifted;
    var content := TbsOctets(a) + (a.algorithm + a.signature);
    assert CertOctets(a) == Header(UNIVERSAL, true, SEQUENCE, |content|) + TbsOctets(a) + a.algorithm + a.signature;
  }

  /** The slices kept for the signature hold the two numbers that went into it. */
  lemma SignatureSurvives(env: Env, c: Content)
    requires Sensible(env, c) && FitsLimits(Encoded(env, c))
    ensures var a := Encoded(env, c);
            |a.serial| >= 2 && HoldPair(CertOctets(a), Layout(a, ReadingOf(c)).raw, c.r, c.s)
  {
    hide Layout, CertOctets, CertAt, FitsLimits, Encodable, SignatureOctets, HoldPair, PairPlaces, Shifted, HeadOctets,
         RestOctets, NameOctets, NaturalOctets, VersionOctets, Tlv, X509Time.BoundOctets, X509Time.Pack;
    var a, read := Encoded(env, c), ReadingOf(c);
    ContentIsAccepted(env, c);
    SignatureReads(c.forms, c.r, c.s, c.alg.id, c.algorithm);
    LayoutEnds(a, read);
    PairBehind(CertOctets(a), Layout(a, read).signature.start, read.raw, c.r, c.s);
  }
}
