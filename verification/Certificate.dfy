/** The certificate: TBSCertificate, the repeated algorithm identifier, the signature value, and the strict
    and relaxed entry points. Algorithm handlers are parameters. */
module Certificate {
  import opened Bytes
  import opened Der
  import opened DerInteger
  import opened Names
  import opened Extensions
  import X509Time

  /** What a signature handler finds: the octets it ate, and the slices it stores, one or two by algorithm. */
  datatype SigValue = SigValue(eaten: nat, raw: seq<Slice>)

  /** A signature handler sees the algorithm, its identifier octets (parameters included) and what follows;
      it eats at least one octet and no more than there are. */
  type SignatureParser = p: (nat, Octets, Octets) -> Option<SigValue>
    | forall a, id, s :: p(a, id, s).Some? ==> 1 <= p(a, id, s).value.eaten <= |s|
    witness (a, id, s) => None

  /** Slices of a buffer that begins at `off`, as slices of the certificate. */
  function Shifted(raw: seq<Slice>, off: nat): seq<Slice> {
    seq(|raw|, i requires 0 <= i < |raw| => raw[i].From(off))
  }

  /** A slice of the certificate. */
  datatype Slice = Slice(start: nat, len: nat) {
    function End(): nat {
      start + len
    }

    /** The same slice, seen from where a buffer at `off` begins. */
    function From(off: nat): Slice {
      Slice(off + start, len)
    }

    function Of(cert: Octets): Octets
      requires End() <= |cert|
    {
      cert[start..End()]
    }
  }

  /** A parameter handler refuses, or leaves something in the context: for signatures the hash algorithm. */
  type ParameterParser = (nat, Octets) -> Option<nat>

  /** The tables: attribute rules, extensions, signature and public key algorithms. */
  datatype Env = Env(
    names: Table,
    reg: Registry,
    sigAlgorithm: Octets -> Option<nat>,
    sigParameters: ParameterParser,
    keyAlgorithm: Octets -> Option<nat>,
    keyParameters: ParameterParser,
    publicKey: (nat, Octets, Octets) -> bool,
    signature: SignatureParser)

  // ---------------------------------------------------------------- the parts of a TBSCertificate

  function VersionAt(s: Octets): (r: Option<(byte, nat)>)
    ensures r.Some? ==> 1 <= r.value.1 <= |s|
  {
    var x :- ExplicitAt(s, 0, UNIVERSAL, INTEGER);
    if x.content == 1 then Some((s[x.header], x.Total())) else None
  }

  function SerialAt(s: Octets): (r: Option<nat>)
    ensures r.Some? ==> 3 <= r.value <= |s|
  {
    var e :- IntegerAt(s, UNIVERSAL, INTEGER, false);
    Some(e.Total())
  }

  /** An AlgorithmIdentifier: table entry, what its parameter handler left, size, and the slices of the object
      identifier and of what follows it. */
  datatype Algorithm = Algorithm(id: nat, setting: nat, eaten: nat, oid: Slice, params: Slice) {
    function From(off: nat): Algorithm {
      this.(oid := oid.From(off), params := params.From(off))
    }
  }

  function AlgorithmAt(s: Octets, find: Octets -> Option<nat>, parameters: ParameterParser): (r: Option<Algorithm>)
    ensures r.Some? ==> 1 <= r.value.eaten <= |s| && r.value.oid.End() == r.value.params.start
    ensures r.Some? ==> r.value.oid.len > 0 && r.value.params.End() == r.value.eaten
  {
    var e :- TlvAt(s, UNIVERSAL, SEQUENCE);
    var body := s[e.header..e.Total()];
    var n :- OidAt(body);
    var alg :- find(body[..n]);
    var setting :- parameters(alg, body[n..]);
    Some(Algorithm(alg, setting, e.Total(), Slice(e.header, n), Slice(e.header + n, |body| - n)))
  }

  /** A SubjectPublicKeyInfo: its algorithm, and the slices of the algorithm identifier, of the parameters and of the
      key behind it. The code keeps the first under the name of the object identifier, but it is the whole. */
  datatype KeyInfo = KeyInfo(alg: nat, setting: nat, eaten: nat, identifier: Slice, params: Slice, key: Slice) {
    function From(off: nat): KeyInfo {
      this.(identifier := identifier.From(off), params := params.From(off), key := key.From(off))
    }
  }

  function KeyInfoAt(env: Env, s: Octets): (r: Option<KeyInfo>)
    ensures r.Some? ==> 1 <= r.value.eaten <= |s| && r.value.identifier.End() == r.value.key.start
    ensures r.Some? ==> r.value.params.End() == r.value.key.start && r.value.key.End() == r.value.eaten
  {
    var e :- TlvAt(s, UNIVERSAL, SEQUENCE);
    var body := s[e.header..e.Total()];
    var a :- AlgorithmAt(body, env.keyAlgorithm, env.keyParameters);
    if env.publicKey(a.id, body[..a.eaten], body[a.eaten..]) then
      Some(KeyInfo(a.id, a.setting, e.Total(), Slice(e.header, a.eaten), a.params.From(e.header),
                   Slice(e.header + a.eaten, |body| - a.eaten)))
    else None
  }

  /** Cross-checks between the flags the extensions left. */
  predicate Consistent(f: Flags, emptySubject: bool) {
    && (f.keyCertSign ==> f.caTrue && f.bcCritical)
    && !(f.crlSign && emptySubject)
    && (f.pathLenConstraint ==> f.caTrue && f.keyCertSign)
    && (f.hasNameConstraints ==> f.caTrue)
    && (f.caTrue && f.hasCrldp ==> f.oneCrldpHasAllReasons)
  }

  function FreshFlags(): Flags {
    Flags(false, false, false, false, false, false, false, false, false, false)
  }

  // ---------------------------------------------------------------- the parsing context

  /** Everything the context records about the TBSCertificate; `extensions` is the slice after the key. */
  datatype Tbs = Tbs(
    header: nat,
    eaten: nat,
    alg: Algorithm,
    serial: Slice,
    algorithm: Slice,
    issuer: Slice,
    validity: Slice,
    notBefore: nat,
    notAfter: nat,
    subject: Slice,
    emptySubject: bool,
    identical: bool,
    keyInfo: Slice,
    key: KeyInfo,
    extensions: Slice,
    flags: Flags)

  datatype Head = Head(alg: Algorithm, serial: Slice, algorithm: Slice, issuer: Slice)

  /** Version, serial number, algorithm and issuer; `off` is where `s` starts in the certificate. The serial
      slice is the element without its first two octets. */
  ghost function HeadAt(env: Env, s: Octets, off: nat): (r: Option<Head>)
    ensures r.Some? ==> off <= r.value.issuer.start < r.value.issuer.End() <= off + |s|
    ensures r.Some? ==> off <= r.value.algorithm.End() == r.value.issuer.start
  {
    var (version, p1) :- VersionAt(s);
    var n :- SerialAt(s[p1..]);
    var p2 := p1 + n;
    if version != 2 then None
    else
      var a :- AlgorithmAt(s[p2..], env.sigAlgorithm, env.sigParameters);
      var p3 := p2 + a.eaten;
      var issuer :- NameAt(env.names, s[p3..]);
      if issuer.empty then None
      else Some(Head(a.From(off + p2), Slice(off + p1 + 2, n - 2), Slice(off + p2, a.eaten),
                     Slice(off + p3, issuer.eaten)))
  }

  datatype Rest = Rest(
    validity: Slice, notBefore: nat, notAfter: nat, subject: Slice, emptySubject: bool, keyInfo: Slice,
    key: KeyInfo, extensions: Slice, flags: Flags)

  /** Validity, subject, key and extensions: all of `s`. */
  ghost function RestAt(env: Env, s: Octets, off: nat): (r: Option<Rest>)
    ensures r.Some? ==> r.value.extensions.End() == off + |s|
    ensures r.Some? ==> off <= r.value.subject.start < r.value.subject.End() <= off + |s|
  {
    var v :- X509Time.ValidityAt(s);
    var subject :- NameAt(env.names, s[v.eaten..]);
    var p2 := v.eaten + subject.eaten;
    var k :- KeyInfoAt(env, s[p2..]);
    var p3 := p2 + k.eaten;
    var (n, flags) :- TailAt(env, s[p3..], subject.empty);
    if p3 + n == |s| && Consistent(flags, subject.empty) then
      Some(Rest(Slice(off, v.eaten), v.notBefore, v.notAfter, Slice(off + v.eaten, subject.eaten), subject.empty,
                Slice(off + p2, k.eaten), k.From(off + p2), Slice(off + p3, n), flags))
    else None
  }

  /** The optional extensions; without them nothing is eaten. */
  function TailAt(env: Env, s: Octets, emptySubject: bool): (r: Option<(nat, Flags)>)
    ensures r.Some? ==> r.value.0 <= |s|
  {
    if s == [] then Some((0, FreshFlags())) else ExtensionsAt(env.reg, s, emptySubject, FreshFlags())
  }

  /** The octets of a slice, read from a buffer that starts at `base` in the certificate. */
  function Window(buf: Octets, base: nat, slice: Slice): (w: Octets)
    requires base <= slice.start && slice.End() <= base + |buf|
    ensures |w| == slice.len
  {
    buf[slice.start - base..slice.End() - base]
  }

  ghost function TbsAt(env: Env, s: Octets, off: nat): (r: Option<Tbs>)
    ensures r.Some? ==> 1 <= r.value.eaten <= |s| && r.value.algorithm.End() <= off + |s|
  {
    var e :- TlvAt(s, UNIVERSAL, SEQUENCE);
    var body := s[e.header..e.Total()];
    var base := off + e.header;
    var (h, r) :- RestOf(env, body, base);
    Some(Combined(body, base, e, h, r))
  }

  /** Both halves: the second stands behind the issuer. */
  ghost function RestOf(env: Env, body: Octets, base: nat): (r: Option<(Head, Rest)>)
    ensures r.Some? ==> base <= r.value.0.issuer.start && r.value.0.issuer.End() <= base + |body|
    ensures r.Some? ==> base <= r.value.1.subject.start && r.value.1.subject.End() <= base + |body|
  {
    var h :- HeadAt(env, body, base);
    var r :- RestAt(env, body[h.issuer.End() - base..], h.issuer.End());
    Some((h, r))
  }

  /** The TBS from what its two halves were read as. */
  lemma TbsIs(env: Env, s: Octets, off: nat, e: Extent, body: Octets)
    requires TlvAt(s, UNIVERSAL, SEQUENCE) == Some(e) && body == s[e.header..e.Total()]
    ensures match RestOf(env, body, off + e.header)
            case None => TbsAt(env, s, off).None?
            case Some((h, r)) => TbsAt(env, s, off) == Some(Combined(body, off + e.header, e, h, r))
  {
    hide HeadAt, RestAt, TlvAt, Window;
  }

  lemma NoTbs(env: Env, s: Octets, off: nat)
    requires TlvAt(s, UNIVERSAL, SEQUENCE).None?
    ensures TbsAt(env, s, off).None?
  {
  }

  function Combined(body: Octets, base: nat, e: Extent, h: Head, r: Rest): Tbs
    requires base <= h.issuer.start && h.issuer.End() <= base + |body|
    requires base <= r.subject.start && r.subject.End() <= base + |body|
  {
    Tbs(e.header, e.Total(), h.alg, h.serial, h.algorithm, h.issuer, r.validity, r.notBefore, r.notAfter, r.subject,
        r.emptySubject, Window(body, base, r.subject) == Window(body, base, h.issuer), r.keyInfo, r.key, r.extensions,
        r.flags)
  }

  datatype Cert = Cert(tbs: Slice, parts: Tbs, sigAlg: Slice, signature: Slice, raw: seq<Slice>)

  /** The octets of an earlier slice again, at `off`. */
  function AgainAt(cert: Octets, off: nat, earlier: Slice): (n: Option<nat>)
    requires earlier.End() <= |cert|
    ensures n.Some? ==> n.value == earlier.len && off + earlier.len <= |cert|
  {
    if off < |cert| && off + earlier.len <= |cert| && cert[off..off + earlier.len] == earlier.Of(cert) then
      Some(earlier.len)
    else None
  }

  function SigValueAt(env: Env, cert: Octets, off: nat, alg: nat, id: Slice): (v: Option<SigValue>)
    requires id.End() <= |cert|
    ensures v.Some? ==> off + v.value.eaten <= |cert|
  {
    if off < |cert| then env.signature(alg, id.Of(cert), cert[off..]) else None
  }

  ghost function CertAt(env: Env, cert: Octets): Option<Cert> {
    var e :- TlvAt(cert, UNIVERSAL, SEQUENCE);
    if e.Total() != |cert| then None
    else
      var t :- TbsAt(env, cert[e.header..], e.header);
      var off := e.header + t.eaten;
      var n :- AgainAt(cert, off, t.algorithm);
      var sigOff := off + n;
      var v :- SigValueAt(env, cert, sigOff, t.alg.id, t.algorithm);
      if sigOff + v.eaten == |cert| then
        Some(Cert(Slice(e.header, t.eaten), t, Slice(off, n), Slice(sigOff, v.eaten), Shifted(v.raw, sigOff)))
      else None
  }

  lemma NoCert(env: Env, cert: Octets)
    ensures TlvAt(cert, UNIVERSAL, SEQUENCE).None? ==> CertAt(env, cert).None?
    ensures var e := TlvAt(cert, UNIVERSAL, SEQUENCE);
            e.Some? && (e.value.Total() != |cert| || TbsAt(env, cert[e.value.header..], e.value.header).None?) ==>
              CertAt(env, cert).None?
  {
    hide TlvAt, TbsAt;
  }

  /** The certificate from what its header and its TBS were read as. */
  lemma CertIs(env: Env, cert: Octets, e: Extent, t: Tbs)
    requires TlvAt(cert, UNIVERSAL, SEQUENCE) == Some(e) && e.Total() == |cert|
    requires TbsAt(env, cert[e.header..], e.header) == Some(t)
    ensures var off := e.header + t.eaten;
            var sigOff := off + t.algorithm.len;
            && t.algorithm.End() <= |cert|
            && var again := AgainAt(cert, off, t.algorithm);
               var v := SigValueAt(env, cert, sigOff, t.alg.id, t.algorithm);
               CertAt(env, cert) ==
               if again.Some? && v.Some? && sigOff + v.value.eaten == |cert| then
                 Some(Cert(Slice(e.header, t.eaten), t, Slice(off, t.algorithm.len), Slice(sigOff, v.value.eaten),
                           Shifted(v.value.raw, sigOff)))
               else None
  {
    hide TlvAt, TbsAt;
  }

  /** No element at all, an element of some size that is not an acceptable certificate, or one that is. */
  datatype Relaxed = NoElement | Refused(eaten: nat) | Parsed(eaten: nat, cert: Cert)

  ghost function RelaxedAt(env: Env, buf: Octets): Relaxed {
    match TlvAt(buf, UNIVERSAL, SEQUENCE)
    case None => NoElement
    case Some(e) =>
      match CertAt(env, buf[..e.Total()])
      case None => Refused(e.Total())
      case Some(c) => Parsed(e.Total(), c)
  }

  // ---------------------------------------------------------------- the parsers

  class CertContext {
    var tbs: Slice
    var version: byte
    var serial: Slice
    var tbsSigAlg: Slice
    var sigAlgorithm: Algorithm   // identifier, hash, and the slices of object identifier and parameters
    var issuer: Slice
    var notBefore: nat
    var notAfter: nat
    var subject: Slice
    var emptySubject: bool
    var subjectIssuerIdentical: bool
    var spki: Slice
    var spkiKey: KeyInfo          // algorithm, and the slices of identifier, parameters and key
    var flags: Flags
    var sigAlg: Slice
    var sig: Slice
    var sigRaw: seq<Slice>        // what the signature handler stored

    /** As cleared before parsing. */
    ghost predicate Cleared()
      reads this
    {
      && SlicesCleared() && ValuesCleared()
      && sigAlgorithm == Algorithm(0, 0, 0, Slice(0, 0), Slice(0, 0))
      && spkiKey == KeyInfo(0, 0, 0, Slice(0, 0), Slice(0, 0), Slice(0, 0))
    }

    ghost predicate SlicesCleared()
      reads `tbs, `serial, `tbsSigAlg, `issuer, `subject, `spki, `sigAlg, `sig, `sigRaw
    {
      var zero := Slice(0, 0);
      && tbs == zero && serial == zero && tbsSigAlg == zero && issuer == zero && subject == zero && spki == zero
      && sigAlg == zero && sig == zero && sigRaw == []
    }

    ghost predicate ValuesCleared()
      reads `version, `notBefore, `notAfter, `subjectIssuerIdentical, `emptySubject, `flags
    {
      && version == 0 && notBefore == 0 && notAfter == 0
      && !subjectIssuerIdentical && !emptySubject && flags == FreshFlags()
    }

    constructor ()
      ensures Cleared()
    {
      var zero := Slice(0, 0);
      tbs, serial, tbsSigAlg, issuer, subject, spki, sigAlg, sig := zero, zero, zero, zero, zero, zero, zero, zero;
      sigAlgorithm, spkiKey := Algorithm(0, 0, 0, zero, zero), KeyInfo(0, 0, 0, zero, zero, zero);
      version, notBefore, notAfter := 0, 0, 0;
      subjectIssuerIdentical, emptySubject := false, false;
      flags, sigRaw := FreshFlags(), [];
    }

    method Zeroize()
      modifies this
      ensures Cleared()
    {
      ZeroizeSlices();
      hide SlicesCleared;
      var zero := Slice(0, 0);
      sigAlgorithm, spkiKey := Algorithm(0, 0, 0, zero, zero), KeyInfo(0, 0, 0, zero, zero, zero);
      version, notBefore, notAfter := 0, 0, 0;
      subjectIssuerIdentical, emptySubject, flags := false, false, FreshFlags();
    }

    method ZeroizeSlices()
      modifies `tbs, `serial, `tbsSigAlg, `issuer, `subject, `spki, `sigAlg, `sig, `sigRaw
      ensures SlicesCleared()
    {
      var zero := Slice(0, 0);
      tbs, serial, tbsSigAlg, issuer := zero, zero, zero, zero;
      subject, spki, sigAlg, sig, sigRaw := zero, zero, zero, zero, [];
    }

    ghost predicate RecordsTbs(t: Tbs)
      reads `version, `serial, `issuer, `notBefore, `notAfter, `subject, `emptySubject, `subjectIssuerIdentical, `flags
      reads `tbsSigAlg, `sigAlgorithm, `spki, `spkiKey
    {
      && version == 2
      && serial == t.serial && tbsSigAlg == t.algorithm && sigAlgorithm == t.alg && issuer == t.issuer
      && notBefore == t.notBefore && notAfter == t.notAfter
      && subject == t.subject && emptySubject == t.emptySubject && subjectIssuerIdentical == t.identical
      && spki == t.keyInfo && spkiKey == t.key && flags == t.flags
    }

    /** The same, half by half. */
    ghost predicate RecordsParts(h: Head, r: Rest, identical: bool)
      reads `version, `serial, `issuer, `notBefore, `notAfter, `subject, `emptySubject, `subjectIssuerIdentical, `flags
      reads `tbsSigAlg, `sigAlgorithm, `spki, `spkiKey
    {
      && version == 2
      && serial == h.serial && tbsSigAlg == h.algorithm && sigAlgorithm == h.alg && issuer == h.issuer
      && notBefore == r.notBefore && notAfter == r.notAfter
      && subject == r.subject && emptySubject == r.emptySubject && subjectIssuerIdentical == identical
      && spki == r.keyInfo && spkiKey == r.key && flags == r.flags
    }

    ghost predicate Records(c: Cert)
      reads this
    {
      tbs == c.tbs && RecordsTbs(c.parts) && sigAlg == c.sigAlg && sig == c.signature && sigRaw == c.raw
    }
  }

  method BufsDiffer(a: Octets, b: Octets) returns (differ: bool)
    requires |a| == |b|
    ensures differ <==> a != b
  {
    differ := false;
    var i := 0;
    while i < |a|
      invariant i <= |a| && a[..i] == b[..i]
    {
      if a[i] != b[i] {
        return true;
      }
      assert a[..i + 1] == a[..i] + [a[i]] && b[..i + 1] == b[..i] + [b[i]];
      i := i + 1;
    }
    assert a[..i] == a && b[..i] == b;
  }

  method ParseVersion(s: Octets) returns (r: Option<(byte, nat)>)
    ensures r == VersionAt(s)
  {
    hide TlvAt;
    if |s| == 0 {
      return None;
    }
    var x := ParseExplicitIdLen(s, 0, UNIVERSAL, INTEGER);
    if x.None? || x.value.content != 1 {
      return None;
    }
    return Some((s[x.value.header], x.value.header + x.value.content));
  }

  /** The serial number's slice starts two octets into the element, whatever the length of its header. */
  method ParseCertSerialNumber(ctx: CertContext, s: Octets, off: nat) returns (r: Option<nat>)
    modifies ctx`serial
    ensures r == SerialAt(s)
    ensures r.Some? ==> ctx.serial == Slice(off + 2, r.value - 2)
  {
    if |s| == 0 {
      return None;
    }
    var e := ParseInteger(s, UNIVERSAL, INTEGER);
    if e.None? {
      return None;
    }
    var eaten := e.value.header + e.value.content;
    ctx.serial := Slice(off + 2, eaten - 2);
    return Some(eaten);
  }

  /** The scan shared by the two parsers of algorithm identifiers. */
  method ParseAlgorithmIdentifier(s: Octets, find: Octets -> Option<nat>, parameters: ParameterParser)
    returns (r: Option<Algorithm>)
    ensures r == AlgorithmAt(s, find, parameters)
  {
    hide TlvAt, OidAt;
    if |s| == 0 {
      return None;
    }
    var e := ParseIdLen(s, UNIVERSAL, SEQUENCE);
    if e.None? {
      return None;
    }
    var parsed := e.value.header + e.value.content;
    var buf, off := s[e.value.header..parsed], e.value.header;
    ghost var body := s[e.value.header..e.value.Total()];
    assert buf == body;
    var oidLen := ParseOid(buf);
    if oidLen.None? {
      return None;
    }
    assert buf[..oidLen.value] == body[..oidLen.value];
    var alg := find(buf[..oidLen.value]);
    if !alg.Some? {
      assert !find(body[..OidAt(body).value]).Some?;
      return None;
    }
    var oid := Slice(off, oidLen.value);
    buf, off := buf[oidLen.value..], off + oidLen.value;
    var paramLen := e.value.content - oidLen.value;
    var setting := parameters(alg.value, buf);
    if !setting.Some? {
      return None;
    }
    return Some(Algorithm(alg.value, setting.value, parsed, oid, Slice(off, paramLen)));
  }

  method ParseSigAlgorithmIdentifier(env: Env, ctx: CertContext, s: Octets, off: nat) returns (r: Option<Algorithm>)
    modifies ctx`tbsSigAlg, ctx`sigAlgorithm
    ensures r == AlgorithmAt(s, env.sigAlgorithm, env.sigParameters)
    ensures r.Some? ==> ctx.tbsSigAlg == Slice(off, r.value.eaten) && ctx.sigAlgorithm == r.value.From(off)
  {
    hide AlgorithmAt;
    r := ParseAlgorithmIdentifier(s, env.sigAlgorithm, env.sigParameters);
    if r.Some? {
      ctx.sigAlgorithm := r.value.From(off);
      ctx.tbsSigAlg := Slice(off, r.value.eaten);
    }
  }

  method ParseSubjectPublicKeyInfo(env: Env, ctx: CertContext, s: Octets, off: nat) returns (r: Option<KeyInfo>)
    modifies ctx`spki, ctx`spkiKey
    ensures r == KeyInfoAt(env, s)
    ensures r.Some? ==> ctx.spki == Slice(off, r.value.eaten) && ctx.spkiKey == r.value.From(off)
  {
    hide TlvAt, AlgorithmAt;
    if |s| == 0 {
      return None;
    }
    var e := ParseIdLen(s, UNIVERSAL, SEQUENCE);
    if e.None? {
      return None;
    }
    var h := e.value.header;
    var body := s[h..e.value.Total()];
    var alg := ParseAlgorithmIdentifier(body, env.keyAlgorithm, env.keyParameters);
    if alg.None? {
      return None;
    }
    var remain := e.value.content - alg.value.eaten;
    if !env.publicKey(alg.value.id, body[..alg.value.eaten], body[alg.value.eaten..]) {
      return None;
    }
    r := Some(KeyInfo(alg.value.id, alg.value.setting, h + e.value.content, Slice(h, alg.value.eaten),
                      alg.value.params.From(h), Slice(h + alg.value.eaten, remain)));
    ctx.spkiKey := r.value.From(off);
    ctx.spki := Slice(off, h + e.value.content);
  }

  /** The first half of `parse_x509_tbsCertificate`. */
  method ParseTbsHead(env: Env, ctx: CertContext, s: Octets, off: nat) returns (r: Option<(nat, nat)>)
    modifies ctx`version, ctx`serial, ctx`tbsSigAlg, ctx`sigAlgorithm, ctx`issuer
    ensures r.None? <==> HeadAt(env, s, off).None?
    ensures r.Some? ==>
              var h := HeadAt(env, s, off).value;
              && r.value == (h.alg.id, h.issuer.End() - off)
              && ctx.version == 2 && ctx.serial == h.serial && ctx.tbsSigAlg == h.algorithm && ctx.sigAlgorithm == h.alg
              && ctx.issuer == h.issuer
  {
    hide VersionAt, SerialAt, AlgorithmAt, NameAt;
    var version := ParseVersion(s);
    if version.None? {
      return None;
    }
    ctx.version := version.value.0;
    var cur := version.value.1;
    var serial := ParseCertSerialNumber(ctx, s[cur..], off + cur);
    if serial.None? {
      return None;
    }
    if ctx.version != 0x02 {
      return None;
    }
    cur := cur + serial.value;
    var alg := ParseSigAlgorithmIdentifier(env, ctx, s[cur..], off + cur);
    if alg.None? {
      return None;
    }
    cur := cur + alg.value.eaten;
    var issuer := ParseName(env.names, s[cur..]);
    if issuer.None? {
      return None;
    }
    ctx.issuer := Slice(off + cur, issuer.value.eaten);
    if issuer.value.empty {
      return None;
    }
    cur := cur + issuer.value.eaten;
    return Some((alg.value.id, cur));
  }

  /** The second half: validity, subject, key, extensions and the cross-checks. */
  method ParseTbsRest(env: Env, ctx: CertContext, s: Octets, off: nat) returns (ok: bool)
    modifies ctx`notBefore, ctx`notAfter, ctx`subject, ctx`emptySubject, ctx`spki, ctx`spkiKey, ctx`flags
    requires ctx.flags == FreshFlags()
    ensures ok <==> RestAt(env, s, off).Some?
    ensures ok ==>
              var r := RestAt(env, s, off).value;
              && ctx.notBefore == r.notBefore && ctx.notAfter == r.notAfter
              && ctx.subject == r.subject && ctx.emptySubject == r.emptySubject
              && ctx.spki == r.keyInfo && ctx.spkiKey == r.key && ctx.flags == r.flags
  {
    hide X509Time.ValidityAt, NameAt, KeyInfoAt, ExtensionsAt;
    var v := X509Time.ParseValidity(s);
    if v.None? {
      return false;
    }
    ctx.notBefore, ctx.notAfter := v.value.notBefore, v.value.notAfter;
    var cur := v.value.eaten;
    var subject := ParseName(env.names, s[cur..]);
    if subject.None? {
      return false;
    }
    ctx.emptySubject := subject.value.empty;
    ctx.subject := Slice(off + cur, subject.value.eaten);
    cur := cur + subject.value.eaten;
    var key := ParseSubjectPublicKeyInfo(env, ctx, s[cur..], off + cur);
    if key.None? {
      return false;
    }
    cur := cur + key.value.eaten;
    var remain := |s| - cur;
    if remain > 0 {
      var x := ParseExtensions(env.reg, s[cur..], ctx.emptySubject, ctx.flags);
      if x.None? {
        return false;
      }
      ctx.flags := x.value.1;
      remain := remain - x.value.0;
    }
    if remain != 0 {
      return false;
    }
    var f := ctx.flags;
    if f.keyCertSign && (!f.caTrue || !f.bcCritical) {
      return false;
    }
    if f.crlSign && ctx.emptySubject {
      return false;
    }
    if f.pathLenConstraint && (!f.caTrue || !f.keyCertSign) {
      return false;
    }
    if f.hasNameConstraints && !f.caTrue {
      return false;
    }
    if f.caTrue && f.hasCrldp && !f.oneCrldpHasAllReasons {
      return false;
    }
    return true;
  }

  /** Both halves of the contents, and whether issuer and subject are the same octets. */
  method ParseTbsContents(env: Env, ctx: CertContext, body: Octets, base: nat) returns (r: Option<nat>)
    requires ctx.flags == FreshFlags()
    modifies ctx
    ensures r.Some? <==> RestOf(env, body, base).Some?
    ensures r.Some? ==>
              var (h, t) := RestOf(env, body, base).value;
              && r.value == h.alg.id
              && ctx.RecordsParts(h, t, Window(body, base, t.subject) == Window(body, base, h.issuer))
    ensures ctx.tbs == old(ctx.tbs)
  {
    hide HeadAt, RestAt, Window;
    var head := ParseTbsHead(env, ctx, body, base);
    if head.None? {
      return None;
    }
    var (sigAlg, cur) := head.value;
    var ok := ParseTbsRest(env, ctx, body[cur..], base + cur);
    if !ok {
      return None;
    }
    ctx.subjectIssuerIdentical := false;
    if ctx.subject.len == ctx.issuer.len {
      var differ := BufsDiffer(Window(body, base, ctx.subject), Window(body, base, ctx.issuer));
      ctx.subjectIssuerIdentical := !differ;
    }
    r := Some(sigAlg);
  }

  method ParseTbsCertificate(env: Env, ctx: CertContext, s: Octets, off: nat) returns (r: Option<(nat, nat)>)
    requires ctx.flags == FreshFlags()
    modifies ctx
    ensures r.None? <==> TbsAt(env, s, off).None?
    ensures r.Some? ==>
              var t := TbsAt(env, s, off).value;
              r.value == (t.alg.id, t.eaten) && ctx.RecordsTbs(t)
    ensures ctx.tbs == old(ctx.tbs)
  {
    hide TlvAt, HeadAt, RestOf, TbsAt, Window, CertContext.RecordsTbs, CertContext.RecordsParts;
    if TlvAt(s, UNIVERSAL, SEQUENCE).None? {
      NoTbs(env, s, off);
    }
    if |s| == 0 {
      return None;
    }
    var e := ParseIdLen(s, UNIVERSAL, SEQUENCE);
    if e.None? {
      return None;
    }
    var body := s[e.value.header..e.value.Total()];
    var base := off + e.value.header;
    TbsIs(env, s, off, e.value, body);
    var sigAlg := ParseTbsContents(env, ctx, body, base);
    if sigAlg.None? {
      return None;
    }
    ghost var (h, t) := RestOf(env, body, base).value;
    RecordsAll(ctx, body, base, e.value, h, t);
    return Some((sigAlg.value, e.value.header + e.value.content));
  }

  lemma RecordsAll(ctx: CertContext, body: Octets, base: nat, e: Extent, h: Head, t: Rest)
    requires base <= h.issuer.start && h.issuer.End() <= base + |body|
    requires base <= t.subject.start && t.subject.End() <= base + |body|
    requires ctx.RecordsParts(h, t, Window(body, base, t.subject) == Window(body, base, h.issuer))
    ensures ctx.RecordsTbs(Combined(body, base, e, h, t))
  {
  }

  lemma RecordedAlgorithm(ctx: CertContext, t: Tbs)
    requires ctx.RecordsTbs(t)
    ensures ctx.tbsSigAlg == t.algorithm
  {
  }

  /** The algorithm identifier behind the TBS: the octets of the one inside it, again. */
  method ParseSignatureAlgorithm(ctx: CertContext, cert: Octets, off: nat) returns (eaten: Option<nat>)
    requires off <= |cert| && ctx.tbsSigAlg.End() <= |cert|
    modifies ctx`sigAlg
    ensures eaten == AgainAt(cert, off, ctx.tbsSigAlg)
    ensures eaten.Some? ==> ctx.sigAlg == Slice(off, eaten.value)
  {
    var len, prevLen := |cert| - off, ctx.tbsSigAlg.len;
    if len == 0 || prevLen > len {
      return None;
    }
    var differ := BufsDiffer(ctx.tbsSigAlg.Of(cert), cert[off..off + prevLen]);
    if differ {
      return None;
    }
    ctx.sigAlg := Slice(off, prevLen);
    return Some(prevLen);
  }

  method ParseSignatureValue(env: Env, ctx: CertContext, cert: Octets, off: nat, alg: nat) returns (eaten: Option<nat>)
    requires off <= |cert| && ctx.tbsSigAlg.End() <= |cert|
    modifies ctx`sig, ctx`sigRaw
    ensures var v := SigValueAt(env, cert, off, alg, ctx.tbsSigAlg);
            && (v.None? <==> eaten.None?)
            && (v.Some? ==>
                  && eaten == Some(v.value.eaten) && ctx.sig == Slice(off, v.value.eaten)
                  && ctx.sigRaw == Shifted(v.value.raw, off))
  {
    if |cert| == off {
      return None;
    }
    var v := env.signature(alg, ctx.tbsSigAlg.Of(cert), cert[off..]);
    if v.None? {
      return None;
    }
    ctx.sigRaw := Shifted(v.value.raw, off);
    ctx.sig := Slice(off, v.value.eaten);
    return Some(v.value.eaten);
  }

  method ParseCertificate(env: Env, ctx: CertContext, cert: Octets) returns (ok: bool)
    modifies ctx
    ensures ok <==> CertAt(env, cert).Some?
    ensures ok ==> ctx.Records(CertAt(env, cert).value)
  {
    hide TlvAt, TbsAt, CertAt, FreshFlags, Shifted, AgainAt, SigValueAt, CertContext.Cleared, CertContext.RecordsTbs;
    NoCert(env, cert);
    if |cert| == 0 {
      return false;
    }
    ctx.Zeroize();
    assert ctx.flags == FreshFlags() by { ClearedFlags(ctx); }
    var e := ParseIdLen(cert, UNIVERSAL, SEQUENCE);
    if e.None? {
      return false;
    }
    var off := e.value.header;
    var len := |cert| - off;
    if e.value.content != len {
      return false;
    }
    var t := ParseTbsCertificate(env, ctx, cert[off..], off);
    if t.None? {
      return false;
    }
    ghost var tbs := TbsAt(env, cert[off..], off).value;
    CertIs(env, cert, e.value, tbs);
    RecordedAlgorithm(ctx, tbs);
    var (alg, eaten) := t.value;
    ctx.tbs := Slice(off, eaten);
    off := off + eaten;
    var again := ParseSignatureAlgorithm(ctx, cert, off);
    if again.None? {
      return false;
    }
    off := off + again.value;
    var sig := ParseSignatureValue(env, ctx, cert, off, alg);
    if sig.None? {
      return false;
    }
    return off + sig.value == |cert|;
  }

  lemma ClearedFlags(ctx: CertContext)
    requires ctx.Cleared()
    ensures ctx.flags == FreshFlags()
  {
  }

  /** The size of the element is reported whether or not the certificate is accepted; without an element there is
      none to report. */
  method ParseCertificateRelaxed(env: Env, ctx: CertContext, buf: Octets) returns (ok: bool, eaten: Option<nat>)
    modifies ctx
    ensures match RelaxedAt(env, buf)
            case NoElement => !ok && eaten == None
            case Refused(n) => !ok && eaten == Some(n)
            case Parsed(n, c) => ok && eaten == Some(n) && ctx.Records(c)
  {
    hide TlvAt, CertAt;
    if |buf| == 0 {
      return false, None;
    }
    var e := ParseIdLen(buf, UNIVERSAL, SEQUENCE);
    if e.None? {
      return false, None;
    }
    eaten := Some(e.value.header + e.value.content);
    ok := ParseCertificate(env, ctx, buf[..eaten.value]);
  }
}
