/** What acceptance of a certificate says about its octets. */
module CertificateLayout {
  import opened Bytes
  import opened Der
  import opened DerInteger
  import opened Names
  import opened Extensions
  import opened Certificate
  import opened Containers
  import X509Time

  /** The slices recorded for an accepted certificate follow one another without gap or overlap: header, TBS
      (header, version, serial, algorithm, issuer, validity, subject, key, extensions), algorithm, signature. */
  ghost predicate Tiled(cert: Octets, c: Cert) {
    var t := c.parts;
    && TlvAt(cert, UNIVERSAL, SEQUENCE).Some?
    && c.tbs.start == TlvAt(cert, UNIVERSAL, SEQUENCE).value.header
    && c.tbs.len == t.eaten
    && c.tbs.End() == c.sigAlg.start
    && c.sigAlg.End() == c.signature.start
    && c.signature.End() == |cert|
    && c.tbs.start + t.header < t.serial.start
    && t.serial.len > 0 && t.serial.End() == t.algorithm.start
    && t.algorithm.len > 0 && t.algorithm.End() == t.issuer.start
    && t.issuer.len > 0 && t.issuer.End() == t.validity.start
    && t.validity.len > 0 && t.validity.End() == t.subject.start
    && t.subject.len > 0 && t.subject.End() == t.keyInfo.start
    && t.keyInfo.len > 0 && t.keyInfo.End() == t.extensions.start
    && t.extensions.End() == c.tbs.End()
  }

  lemma HeadIsTiled(env: Env, s: Octets, off: nat)
    requires HeadAt(env, s, off).Some?
    ensures var h := HeadAt(env, s, off).value;
            && off < h.serial.start && h.serial.len > 0 && h.serial.End() == h.algorithm.start
            && h.algorithm.len > 0 && h.algorithm.End() == h.issuer.start && h.issuer.len > 0
            && h.issuer.End() <= off + |s|
  {
    hide VersionAt, SerialAt, AlgorithmAt, NameAt;
  }

  lemma RestIsTiled(env: Env, s: Octets, off: nat)
    requires RestAt(env, s, off).Some?
    ensures var r := RestAt(env, s, off).value;
            && r.validity.start == off && r.validity.len > 0 && r.validity.End() == r.subject.start
            && r.subject.len > 0 && r.subject.End() == r.keyInfo.start
            && r.keyInfo.len > 0 && r.keyInfo.End() == r.extensions.start && r.extensions.End() == off + |s|
  {
    hide X509Time.ValidityAt, NameAt, KeyInfoAt, TailAt, Consistent;
  }

  lemma TbsIsTiled(env: Env, s: Octets, off: nat)
    requires TbsAt(env, s, off).Some?
    ensures var t := TbsAt(env, s, off).value;
            && t.header <= t.eaten <= |s|
            && off + t.header < t.serial.start
            && t.serial.len > 0 && t.serial.End() == t.algorithm.start
            && t.algorithm.len > 0 && t.algorithm.End() == t.issuer.start
            && t.issuer.len > 0 && t.issuer.End() == t.validity.start
            && t.validity.len > 0 && t.validity.End() == t.subject.start
            && t.subject.len > 0 && t.subject.End() == t.keyInfo.start
            && t.keyInfo.len > 0 && t.keyInfo.End() == t.extensions.start
            && t.extensions.End() == off + t.eaten
            && var body := s[t.header..t.eaten];
               t.identical <==> Window(body, off + t.header, t.subject) == Window(body, off + t.header, t.issuer)
  {
    hide TlvAt, HeadAt, RestAt, Window;
    var te := TlvAt(s, UNIVERSAL, SEQUENCE).value;
    var body := s[te.header..te.Total()];
    var base := off + te.header;
    HeadIsTiled(env, body, base);
    var p := HeadAt(env, body, base).value.issuer.End() - base;
    RestIsTiled(env, body[p..], base + p);
  }

  /** Every accepted certificate is tiled exactly, and the algorithm identifier after the TBS repeats the one
      inside it octet by octet (section 4.1.1.2 of RFC 5280). */
  lemma AcceptedIsTiled(env: Env, cert: Octets)
    requires CertAt(env, cert).Some?
    ensures var c := CertAt(env, cert).value;
            && Tiled(cert, c)
            && c.sigAlg.Of(cert) == c.parts.algorithm.Of(cert)
            && (c.parts.identical <==> c.parts.issuer.Of(cert) == c.parts.subject.Of(cert))
  {
    hide TlvAt, TbsAt, Window;
    var e := TlvAt(cert, UNIVERSAL, SEQUENCE).value;
    var s := cert[e.header..];
    var t := CertAt(env, cert).value.parts;
    TbsIsTiled(env, s, e.header);
    var te := Extent(t.header, t.eaten - t.header);
    WindowOfBody(cert, e, te, t.issuer);
    WindowOfBody(cert, e, te, t.subject);
  }

  /** A slice inside the TBS contents is the same read from the contents or from the certificate. */
  lemma WindowOfBody(cert: Octets, e: Extent, te: Extent, slice: Slice)
    requires e.header + te.Total() <= |cert|
    requires e.header + te.header <= slice.start && slice.End() <= e.header + te.Total()
    ensures Window(cert[e.header..][te.header..te.Total()], e.header + te.header, slice) == slice.Of(cert)
  {
    var s := cert[e.header..];
    assert s == cert[e.header..|cert|];
    SliceOfSlice(cert, e.header, |cert|, te.header, te.Total());
    var base := e.header + te.header;
    SliceOfSlice(cert, base, e.header + te.Total(), slice.start - base, slice.End() - base);
  }

  // ---------------------------------------------------------------- the slices are whole elements

  lemma AlgorithmStable(s: Octets, rest: Octets, find: Octets -> Option<nat>, parameters: ParameterParser, a: Algorithm)
    requires a.eaten <= |s|
    ensures AlgorithmAt(s, find, parameters) == Some(a) <==> AlgorithmAt(s + rest, find, parameters) == Some(a)
  {
    hide TlvAt, OidAt;
    ElementStable(s, rest, UNIVERSAL, SEQUENCE, a.eaten);
  }

  lemma KeyInfoStable(env: Env, s: Octets, rest: Octets, k: KeyInfo)
    requires k.eaten <= |s|
    ensures KeyInfoAt(env, s) == Some(k) <==> KeyInfoAt(env, s + rest) == Some(k)
  {
    hide TlvAt, AlgorithmAt;
    ElementStable(s, rest, UNIVERSAL, SEQUENCE, k.eaten);
  }

  lemma ValidityStable(s: Octets, rest: Octets, v: X509Time.Validity)
    requires v.eaten <= |s|
    ensures X509Time.ValidityAt(s) == Some(v) <==> X509Time.ValidityAt(s + rest) == Some(v)
  {
    hide TlvAt, X509Time.BoundAt, X509Time.Pack;
    ElementStable(s, rest, UNIVERSAL, SEQUENCE, v.eaten);
  }

  // Each element, cut out of the octets that follow it, is still the element it was.

  lemma CutAlgorithm(s: Octets, find: Octets -> Option<nat>, parameters: ParameterParser)
    requires AlgorithmAt(s, find, parameters).Some?
    ensures AlgorithmAt(s[..AlgorithmAt(s, find, parameters).value.eaten], find, parameters) ==
            AlgorithmAt(s, find, parameters)
  {
    hide AlgorithmAt;
    var a := AlgorithmAt(s, find, parameters).value;
    assert s == s[..a.eaten] + s[a.eaten..];
    AlgorithmStable(s[..a.eaten], s[a.eaten..], find, parameters, a);
  }

  lemma CutName(table: Table, s: Octets)
    requires NameAt(table, s).Some?
    ensures NameAt(table, s[..NameAt(table, s).value.eaten]) == NameAt(table, s)
  {
    hide NameAt;
    var n := NameAt(table, s).value;
    assert s == s[..n.eaten] + s[n.eaten..];
    NameStable(table, s[..n.eaten], s[n.eaten..], n);
  }

  lemma CutValidity(s: Octets)
    requires X509Time.ValidityAt(s).Some?
    ensures X509Time.ValidityAt(s[..X509Time.ValidityAt(s).value.eaten]) == X509Time.ValidityAt(s)
  {
    hide X509Time.ValidityAt;
    var v := X509Time.ValidityAt(s).value;
    assert s == s[..v.eaten] + s[v.eaten..];
    ValidityStable(s[..v.eaten], s[v.eaten..], v);
  }

  lemma CutKeyInfo(env: Env, s: Octets)
    requires KeyInfoAt(env, s).Some?
    ensures KeyInfoAt(env, s[..KeyInfoAt(env, s).value.eaten]) == KeyInfoAt(env, s)
  {
    hide KeyInfoAt;
    var k := KeyInfoAt(env, s).value;
    assert s == s[..k.eaten] + s[k.eaten..];
    KeyInfoStable(env, s[..k.eaten], s[k.eaten..], k);
  }

  lemma CutSerial(s: Octets)
    requires SerialAt(s).Some?
    ensures SerialAt(s[..SerialAt(s).value]) == SerialAt(s)
  {
    hide TlvAt, Minimal;
    var n := SerialAt(s).value;
    assert s == s[..n] + s[n..];
    ElementStable(s[..n], s[n..], UNIVERSAL, INTEGER, n);
  }

  /** The version: the header of an explicit tag that announces some length, and the INTEGER 2 in one octet. The
      announced length has room among the octets from the tag on; nothing compares it with the INTEGER. */
  ghost predicate VersionWith(v: Octets, announced: nat, room: nat) {
    && |v| >= 5 && announced < U32_LIMIT && |v| - 3 + announced <= room
    && (exists p :: v[..|v| - 3] == Header(CONTEXT_SPECIFIC, p, 0, announced))
    && (exists q :: v[|v| - 3..] == Tlv(UNIVERSAL, q, INTEGER, [2]))
  }

  ghost predicate VersionTwo(v: Octets, room: nat) {
    exists announced: nat :: VersionWith(v, announced, room)
  }

  /** A buffer begins with version 2 in `n` octets exactly when those octets are of that form. */
  lemma VersionTwoExactly(s: Octets, n: nat)
    ensures VersionAt(s) == Some((2, n)) <==> n <= |s| && VersionTwo(s[..n], |s|)
  {
    hide VersionAt, VersionWith;
    if VersionAt(s) == Some((2, n)) {
      var announced := VersionForm(s, n);
    }
    if n <= |s| && VersionTwo(s[..n], |s|) {
      var announced :| VersionWith(s[..n], announced, |s|);
      VersionReads(s, n, announced);
    }
  }

  lemma VersionForm(s: Octets, n: nat) returns (announced: nat)
    requires VersionAt(s) == Some((2, n))
    ensures n <= |s| && VersionWith(s[..n], announced, |s|)
  {
    hide TlvAt, Header;
    var x := ExplicitAt(s, 0, UNIVERSAL, INTEGER).value;
    var o := TlvAt(s, CONTEXT_SPECIFIC, 0).value;
    ExplicitHere(s, 0, UNIVERSAL, INTEGER, x, o);
    announced := o.content;
    var q :| s[o.header..x.header] == Header(UNIVERSAL, q, INTEGER, 1);
    ShortHeader(q);
    var v := s[..n];
    assert v[..o.header] == s[..o.header];
    assert v[o.header..] == s[o.header..x.header] + [s[x.header]];
  }

  lemma VersionReads(s: Octets, n: nat, announced: nat)
    requires n <= |s| && VersionWith(s[..n], announced, |s|)
    ensures VersionAt(s) == Some((2, n))
  {
    hide TlvAt, Header;
    var v := s[..n];
    var p :| v[..n - 3] == Header(CONTEXT_SPECIFIC, p, 0, announced);
    var q :| v[n - 3..] == Tlv(UNIVERSAL, q, INTEGER, [2]);
    var h, inner := s[..n - 3], s[n - 3..];
    assert h == v[..n - 3] && s == h + inner;
    assert inner == v[n - 3..] + s[n..];
    AnnouncementIsFree(p, 0, announced, inner, UNIVERSAL, INTEGER);
    EncodeThenParse(UNIVERSAL, q, INTEGER, [2], s[n..]);
    ShortHeader(q);
    assert inner[2] == s[n - 1] == v[n - 3..][2];
  }

  /** The version is an INTEGER inside a tagged element exactly when the tag announces three octets. */
  lemma VersionTiedExactly(v: Octets, announced: nat, room: nat)
    requires VersionWith(v, announced, room)
    ensures announced == 3 <==> exists p, q ::
              |Tlv(UNIVERSAL, q, INTEGER, [2])| < U32_LIMIT
              && v == Tlv(CONTEXT_SPECIFIC, p, 0, Tlv(UNIVERSAL, q, INTEGER, [2]))
  {
    hide TlvAt, Header;
    var p :| v[..|v| - 3] == Header(CONTEXT_SPECIFIC, p, 0, announced);
    var q :| v[|v| - 3..] == Tlv(UNIVERSAL, q, INTEGER, [2]);
    ShortHeader(q);
    assert v == v[..|v| - 3] + v[|v| - 3..];
    if announced == 3 {
      assert v == Tlv(CONTEXT_SPECIFIC, p, 0, Tlv(UNIVERSAL, q, INTEGER, [2]));
    }
    if p', q' :| |Tlv(UNIVERSAL, q', INTEGER, [2])| < U32_LIMIT
                && v == Tlv(CONTEXT_SPECIFIC, p', 0, Tlv(UNIVERSAL, q', INTEGER, [2])) {
      ShortHeader(q');
      var h := Header(CONTEXT_SPECIFIC, p', 0, 3);
      assert v[..|v| - 3] == h;
      SameAnnouncement(p, announced, p', 3);
    }
  }

  /** A header determines the length it announces. */
  lemma SameAnnouncement(p: bool, a: nat, q: bool, b: nat)
    requires a < U32_LIMIT && b < U32_LIMIT
    requires Header(CONTEXT_SPECIFIC, p, 0, a) == Header(CONTEXT_SPECIFIC, q, 0, b)
    ensures a == b
  {
    hide LengthOctets;
    var l := LengthOctets(a);
    assert Header(CONTEXT_SPECIFIC, p, 0, a)[1..] == l && Header(CONTEXT_SPECIFIC, q, 0, b)[1..] == LengthOctets(b);
    var room := l + seq(a + b, _ => 0);
    assert room[..|l|] == l;
    LengthExact(room, Extent(|l|, a));
    LengthExact(room, Extent(|l|, b));
  }

  /** A tag that announces nothing does not keep the version behind it from being read. */
  lemma VersionBehindEmptyTag()
    ensures VersionAt([0xA0, 0x00, 0x02, 0x01, 0x02]) == Some((2, 5))
  {
    hide TlvAt, ExplicitAt;
    TagAnnouncesNothing();
  }

  lemma ShortHeader(p: bool)
    ensures |Header(UNIVERSAL, p, INTEGER, 1)| == 2
    ensures Tlv(UNIVERSAL, p, INTEGER, [2]) == Header(UNIVERSAL, p, INTEGER, 1) + [2]
  {
  }

  /** The serial number element, of which the context keeps all but the first two octets. */
  function SerialElement(t: Tbs): Slice
    requires t.serial.start >= 2
  {
    Slice(t.serial.start - 2, t.serial.len + 2)
  }

  function VersionElement(start: nat, t: Tbs): Slice
    requires start + t.header + 2 <= t.serial.start
  {
    Slice(start + t.header, t.serial.start - 2 - start - t.header)
  }

  ghost predicate HoldsAlgorithm(env: Env, cert: Octets, slice: Slice, alg: Algorithm)
    requires slice.End() <= |cert|
  {
    var a := AlgorithmAt(slice.Of(cert), env.sigAlgorithm, env.sigParameters);
    a.Some? && a.value.eaten == slice.len && a.value.From(slice.start) == alg
  }

  ghost predicate HoldsKey(env: Env, cert: Octets, slice: Slice, key: KeyInfo)
    requires slice.End() <= |cert|
  {
    var k := KeyInfoAt(env, slice.Of(cert));
    k.Some? && k.value.eaten == slice.len && k.value.From(slice.start) == key
  }

  /** What the slices of an accepted certificate hold. */
  ghost predicate HoldsElements(env: Env, cert: Octets, start: nat, t: Tbs)
    requires start + t.header + 2 <= t.serial.start && t.serial.End() <= |cert| && t.header <= t.eaten
    requires t.algorithm.End() <= |cert| && t.issuer.End() <= |cert| && t.validity.End() <= |cert|
    requires t.subject.End() <= |cert| && t.keyInfo.End() <= |cert| && t.extensions.End() <= |cert|
  {
    && VersionTwo(VersionElement(start, t).Of(cert), t.eaten - t.header)
    && SerialAt(SerialElement(t).Of(cert)) == Some(SerialElement(t).len)
    && HoldsAlgorithm(env, cert, t.algorithm, t.alg)
    && NameAt(env.names, t.issuer.Of(cert)) == Some(NameExtent(t.issuer.len, false))
    && X509Time.ValidityAt(t.validity.Of(cert)) == Some(X509Time.Validity(t.notBefore, t.notAfter, t.validity.len))
    && NameAt(env.names, t.subject.Of(cert)) == Some(NameExtent(t.subject.len, t.emptySubject))
    && HoldsKey(env, cert, t.keyInfo, t.key)
    && (t.extensions.len > 0 ==>
          ExtensionsAt(env.reg, t.extensions.Of(cert), t.emptySubject, FreshFlags()) ==
          Some((t.extensions.len, t.flags)))
    && (t.extensions.len == 0 ==> t.flags == FreshFlags())
  }

  /** The parts of the first half where the scan met them. */
  lemma HeadScan(env: Env, s: Octets, off: nat) returns (p1: nat, p2: nat, p3: nat)
    requires HeadAt(env, s, off).Some?
    ensures var h := HeadAt(env, s, off).value;
            && 0 < p1 < p2 < p3 <= |s| && h.serial.start == off + p1 + 2
            && h.algorithm.start == off + p2 && h.issuer.start == off + p3
            && VersionAt(s) == Some((2, p1))
            && SerialAt(s[p1..]) == Some(h.serial.len + 2)
            && (var a := AlgorithmAt(s[p2..], env.sigAlgorithm, env.sigParameters);
                a.Some? && a.value.eaten == h.algorithm.len && a.value.From(off + p2) == h.alg)
            && NameAt(env.names, s[p3..]) == Some(NameExtent(h.issuer.len, false))
  {
    hide VersionAt, SerialAt, AlgorithmAt, NameAt;
    var h := HeadAt(env, s, off).value;
    p1 := h.serial.start - 2 - off;
    p2 := h.algorithm.start - off;
    p3 := h.issuer.start - off;
  }

  lemma HeadElements(env: Env, cert: Octets, from: nat, to: nat)
    requires from <= to <= |cert| && HeadAt(env, cert[from..to], from).Some?
    ensures var h := HeadAt(env, cert[from..to], from).value;
            && from + 2 <= h.serial.start && h.serial.End() <= |cert|
            && h.algorithm.End() <= |cert| && h.issuer.End() <= |cert|
            && VersionTwo(cert[from..h.serial.start - 2], to - from)
            && SerialAt(cert[h.serial.start - 2..h.serial.End()]) == Some(h.serial.len + 2)
            && HoldsAlgorithm(env, cert, h.algorithm, h.alg)
            && NameAt(env.names, h.issuer.Of(cert)) == Some(NameExtent(h.issuer.len, false))
  {
    hide VersionAt, SerialAt, AlgorithmAt, NameAt, HeadAt, VersionTwo;
    var s := cert[from..to];
    var h := HeadAt(env, s, from).value;
    HeadIsTiled(env, s, from);
    var p1, p2, p3 := HeadScan(env, s, from);
    VersionTwoExactly(s, p1);
    SliceOfSlice(cert, from, to, 0, p1);
    assert s[0..p1] == s[..p1];
    CutSerial(s[p1..]);
    CutSlice(cert, from, to, Slice(from + p1, h.serial.len + 2));
    CutAlgorithm(s[p2..], env.sigAlgorithm, env.sigParameters);
    CutName(env.names, s[p3..]);
    CutSlice(cert, from, to, h.algorithm);
    CutSlice(cert, from, to, h.issuer);
  }

  lemma CutSlice(cert: Octets, from: nat, to: nat, slice: Slice)
    requires from <= slice.start && slice.End() <= to <= |cert|
    ensures cert[from..to][slice.start - from..][..slice.len] == slice.Of(cert)
  {
    var s := cert[from..to];
    var p := slice.start - from;
    assert s[p..][..slice.len] == s[p..p + slice.len];
    SliceOfSlice(cert, from, to, p, p + slice.len);
  }

  /** The validity, subject, key and extensions where the scan met them. */
  lemma RestScan(env: Env, s: Octets, off: nat) returns (p1: nat, p2: nat, p3: nat)
    requires RestAt(env, s, off).Some?
    ensures var r := RestAt(env, s, off).value;
            && p1 == r.subject.start - off && p2 == r.keyInfo.start - off && p3 == r.extensions.start - off
            && 0 < p1 < p2 < p3 <= |s|
            && X509Time.ValidityAt(s) == Some(X509Time.Validity(r.notBefore, r.notAfter, r.validity.len))
            && NameAt(env.names, s[p1..]) == Some(NameExtent(r.subject.len, r.emptySubject))
            && (var k := KeyInfoAt(env, s[p2..]);
                k.Some? && k.value.eaten == r.keyInfo.len && k.value.From(off + p2) == r.key)
            && TailAt(env, s[p3..], r.emptySubject) == Some((r.extensions.len, r.flags))
  {
    hide X509Time.ValidityAt, NameAt, KeyInfoAt, TailAt, Consistent;
    var r := RestAt(env, s, off).value;
    p1 := r.subject.start - off;
    p2 := r.keyInfo.start - off;
    p3 := r.extensions.start - off;
  }

  lemma RestElements(env: Env, cert: Octets, from: nat, to: nat)
    requires from <= to <= |cert| && RestAt(env, cert[from..to], from).Some?
    ensures var r := RestAt(env, cert[from..to], from).value;
            && r.extensions.End() == to && r.keyInfo.End() <= to && r.subject.End() <= to && r.validity.End() <= to
            && X509Time.ValidityAt(r.validity.Of(cert)) ==
               Some(X509Time.Validity(r.notBefore, r.notAfter, r.validity.len))
            && NameAt(env.names, r.subject.Of(cert)) == Some(NameExtent(r.subject.len, r.emptySubject))
            && HoldsKey(env, cert, r.keyInfo, r.key)
            && TailAt(env, r.extensions.Of(cert), r.emptySubject) == Some((r.extensions.len, r.flags))
  {
    hide X509Time.ValidityAt, NameAt, KeyInfoAt, TailAt, RestAt;
    var s := cert[from..to];
    RestIsTiled(env, s, from);
    var p1, p2, p3 := RestScan(env, s, from);
    var r := RestAt(env, s, from).value;
    CutValidity(s);
    CutName(env.names, s[p1..]);
    CutKeyInfo(env, s[p2..]);
    CutSlice(cert, from, to, r.validity);
    assert s[0..] == s;
    CutSlice(cert, from, to, r.subject);
    CutSlice(cert, from, to, r.keyInfo);
    CutSlice(cert, from, to, r.extensions);
    assert s[p3..] == s[p3..][..r.extensions.len];
  }

  /** The two halves of the TBS contents, as regions of the certificate. */
  lemma CertScan(env: Env, cert: Octets) returns (from: nat, mid: nat, to: nat)
    requires CertAt(env, cert).Some?
    ensures var t := CertAt(env, cert).value.parts;
            && from <= mid <= to <= |cert|
            && HeadAt(env, cert[from..to], from) == Some(Head(t.alg, t.serial, t.algorithm, t.issuer))
            && RestAt(env, cert[mid..to], mid) ==
               Some(Rest(t.validity, t.notBefore, t.notAfter, t.subject, t.emptySubject, t.keyInfo, t.key,
                         t.extensions, t.flags))
            && from == CertAt(env, cert).value.tbs.start + t.header && t.header <= t.eaten
            && to - from == t.eaten - t.header
  {
    hide TlvAt, HeadAt, RestAt, Window;
    var e := TlvAt(cert, UNIVERSAL, SEQUENCE).value;
    var s := cert[e.header..];
    var te := TlvAt(s, UNIVERSAL, SEQUENCE).value;
    from, to := e.header + te.header, e.header + te.Total();
    mid := CertAt(env, cert).value.parts.issuer.End();
    assert s == cert[e.header..|cert|];
    SliceOfSlice(cert, e.header, |cert|, te.header, te.Total());
    assert cert[from..to][mid - from..] == cert[from..to][mid - from..to - from];
    SliceOfSlice(cert, from, to, mid - from, to - from);
  }

  /** In an accepted certificate every part of the TBS is a whole element of its kind: version 2, serial number,
      algorithm, issuer, validity, subject, key and extensions. The kept times, flags and inner slices of
      algorithm and key are those of their elements. */
  lemma SlicesAreElements(env: Env, cert: Octets)
    requires CertAt(env, cert).Some?
    ensures var c := CertAt(env, cert).value;
            && Tiled(cert, c) && c.tbs.start + c.parts.header + 2 <= c.parts.serial.start
            && c.parts.header <= c.parts.eaten
            && HoldsElements(env, cert, c.tbs.start, c.parts)
  {
    hide CertAt, HeadAt, RestAt, NameAt, AlgorithmAt, KeyInfoAt, SerialAt, VersionTwo, X509Time.ValidityAt,
         ExtensionsAt, HoldsAlgorithm, HoldsKey;
    AcceptedIsTiled(env, cert);
    var from, mid, to := CertScan(env, cert);
    HeadElements(env, cert, from, to);
    RestElements(env, cert, mid, to);
  }

  /** No accepted certificate carries an extension identifier of the table twice (section 4.2 of RFC 5280). */
  lemma NoCertificateRepeatsAnExtension(env: Env, cert: Octets) returns (x: Extent, parts: seq<Octets>)
    requires CertAt(env, cert).Some? && CertAt(env, cert).value.parts.extensions.len > 0
    requires CertAt(env, cert).value.parts.extensions.End() <= |cert|
    ensures var s := CertAt(env, cert).value.parts.extensions.Of(cert);
            && ExplicitAt(s, 3, UNIVERSAL, SEQUENCE) == Some(x) && x.Total() == |s|
            && Concat(parts) == s[x.header..x.Total()] && AllWhole(ExtensionParser(), parts)
    ensures forall i, j :: 0 <= i < j < |parts| && OidOf(parts[i]) in env.reg.known ==>
            OidOf(parts[i]) != OidOf(parts[j])
  {
    hide CertAt, ExtensionsAt, ExplicitAt, NameAt, AlgorithmAt, KeyInfoAt, X509Time.ValidityAt, ExtensionParser,
         OidOf, Tiled;
    SlicesAreElements(env, cert);
    var t := CertAt(env, cert).value.parts;
    x, parts := NoKnownExtensionTwice(env.reg, t.extensions.Of(cert), t.emptySubject, FreshFlags());
  }

  // ---------------------------------------------------------------- serial number slice

  /** The recorded serial slice always skips two octets. It is the content of the INTEGER exactly when the
      content is shorter than 128 octets; otherwise length octets are left in front. */
  lemma SerialSliceIsContent(s: Octets, off: nat)
    requires SerialAt(s).Some?
    ensures var e := TlvAt(s, UNIVERSAL, INTEGER).value;
            Slice(2, SerialAt(s).value - 2).Of(s) == s[e.header..e.Total()] <==> e.content < 128
  {
    var e := TlvAt(s, UNIVERSAL, INTEGER).value;
    AcceptsExactlyEncodings(s, UNIVERSAL, INTEGER, e);
    if e.content >= 128 {
      BeWidth(e.content);
    }
    assert |Slice(2, SerialAt(s).value - 2).Of(s)| == e.Total() - 2;
  }

  // ---------------------------------------------------------------- relaxed entry

  /** The relaxed entry point accepts exactly the buffers that begin with an accepted certificate, reports its
      size, and records what the strict entry point records on it alone. */
  lemma RelaxedIsStrictOnPrefix(env: Env, buf: Octets, n: nat, c: Cert)
    ensures RelaxedAt(env, buf) == Parsed(n, c) <==> n <= |buf| && CertAt(env, buf[..n]) == Some(c)
  {
    hide TlvAt, TbsAt;
    if n <= |buf| {
      assert buf == buf[..n] + buf[n..];
      ElementStable(buf[..n], buf[n..], UNIVERSAL, SEQUENCE, n);
    }
  }

  /** It reports the size of a refused certificate exactly when the buffer begins with a SEQUENCE of that size that
      the strict entry point refuses. */
  lemma RelaxedRefusesExactly(env: Env, buf: Octets, n: nat)
    ensures RelaxedAt(env, buf) == Refused(n) <==>
            && n <= |buf| && CertAt(env, buf[..n]).None?
            && TlvAt(buf[..n], UNIVERSAL, SEQUENCE).Some? && TlvAt(buf[..n], UNIVERSAL, SEQUENCE).value.Total() == n
  {
    hide TlvAt, CertAt;
    if n <= |buf| {
      assert buf == buf[..n] + buf[n..];
      ElementStable(buf[..n], buf[n..], UNIVERSAL, SEQUENCE, n);
    }
  }

  /** In particular appended octets change nothing. */
  lemma RelaxedIgnoresTrailing(env: Env, cert: Octets, rest: Octets)
    requires CertAt(env, cert).Some?
    ensures RelaxedAt(env, cert + rest) == Parsed(|cert|, CertAt(env, cert).value)
  {
    hide TlvAt, CertAt, RelaxedAt;
    assert (cert + rest)[..|cert|] == cert;
    RelaxedIsStrictOnPrefix(env, cert + rest, |cert|, CertAt(env, cert).value);
  }

  // ---------------------------------------------------------------- DSA signatures

  function PairSlices(x: Signature): seq<Slice> {
    [Slice(x.rStart, x.rLen), Slice(x.sStart, x.sLen)]
  }

  /** Two slices hold the shortest forms of two naturals. */
  ghost predicate HoldPair(cert: Octets, raw: seq<Slice>, r: nat, s: nat) {
    && |raw| == 2 && raw[0].End() < raw[1].start && raw[1].End() <= |cert|
    && raw[0].Of(cert) == NaturalOctets(r) && raw[1].Of(cert) == NaturalOctets(s)
  }

  /** Slices of what stands behind `off` hold the same, seen from the certificate. */
  lemma PairBehind(cert: Octets, off: nat, raw: seq<Slice>, r: nat, s: nat)
    requires off <= |cert| && HoldPair(cert[off..], raw, r, s)
    ensures HoldPair(cert, Shifted(raw, off), r, s)
  {
    hide NaturalOctets;
    var buf := cert[off..];
    assert raw[0].Of(buf) == cert[off + raw[0].start..off + raw[0].End()];
    assert raw[1].Of(buf) == cert[off + raw[1].start..off + raw[1].End()];
  }

  lemma ReportedPair(buf: Octets, x: Signature, r: nat, s: nat)
    requires Reports(buf, x, r, s)
    ensures HoldPair(buf, PairSlices(x), r, s)
  {
    hide NaturalOctets;
  }

  /** The handler shared by the DSA-like algorithms, as a signature handler. */
  function DsaHandler(): SignatureParser {
    (a: nat, id: Octets, s: Octets) =>
      match SignatureAt(s)
      case None => None
      case Some(x) => Some(SigValue(x.eaten, PairSlices(x)))
  }

  /** One algorithm of the table has that handler; the others may have any. */
  ghost predicate HandledAsDsa(env: Env, alg: nat) {
    forall id, s :: env.signature(alg, id, s) == DsaHandler()(alg, id, s)
  }

  /** A certificate accepted under an algorithm with that handler ends, after the repeated algorithm identifier, in
      the encoding of two naturals, and the slices kept for them hold those numbers. */
  lemma DsaCertificateEndsInTwoNaturals(env: Env, cert: Octets) returns (f: Forms, r: nat, s: nat)
    requires |cert| < U32_LIMIT && CertAt(env, cert).Some?
    requires HandledAsDsa(env, CertAt(env, cert).value.parts.alg.id)
    ensures var c := CertAt(env, cert).value;
            && c.signature.End() == |cert| && Encodable(f, r, s) && c.signature.Of(cert) == SignatureOctets(f, r, s)
            && HoldPair(cert, c.raw, r, s)
  {
    hide TlvAt, TbsAt, SignatureAt, Reports, HoldPair, Shifted, PairSlices, Encodable, SignatureOctets;
    var c := CertAt(env, cert).value;
    var buf := cert[c.signature.start..];
    var v := env.signature(c.parts.alg.id, c.parts.algorithm.Of(cert), buf);
    assert v.Some? && v.value.eaten == c.signature.len && c.raw == Shifted(v.value.raw, c.signature.start);
    assert v == DsaHandler()(c.parts.alg.id, c.parts.algorithm.Of(cert), buf);
    f, r, s := AcceptedSignatureIsEncoding(buf);
    var x := SignatureAt(buf).value;
    ReportedPair(buf, x, r, s);
    PairBehind(cert, c.signature.start, PairSlices(x), r, s);
    assert buf[..c.signature.len] == c.signature.Of(cert);
  }
}
