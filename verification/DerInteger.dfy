/** INTEGER contents (section 8.3.2 of X.690) and the two integers inside a DSA-style signature value. */
module DerInteger {
  import opened Bytes
  import opened Der

  // ---------------------------------------------------------------- two's complement

  /** The value of two's-complement contents. */
  function TwosValue(c: Octets): int
    requires c != []
  {
    if c[0] < 128 then BeValue(c) else BeValue(c) - Power256(|c|)
  }

  /** The test of the code: no redundant leading octet. */
  predicate Minimal(c: Octets) {
    && c != []
    && (|c| > 1 ==> !(c[0] == 0 && c[1] < 128) && !(c[0] == 255 && c[1] >= 128))
  }

  lemma {:induction false} BeInjective(a: Octets, b: Octets)
    requires |a| == |b| && BeValue(a) == BeValue(b)
    ensures a == b
  {
    if a != [] {
      var i := |a| - 1;
      BeInjective(a[..i], b[..i]);
      assert a == a[..i] + [a[i]] && b == b[..i] + [b[i]];
    }
  }

  /** The leading octet weighs 256^(k-1), the rest less than that. */
  lemma LeadingOctet(c: Octets)
    requires c != []
    ensures BeValue(c) == c[0] * Power256(|c| - 1) + BeValue(c[1..])
    ensures BeValue(c[1..]) < Power256(|c| - 1)
    ensures Power256(|c|) == 256 * Power256(|c| - 1)
  {
    assert c == [c[0]] + c[1..];
    BeValueSplit([c[0]], c[1..]);
    assert BeValue([c[0]]) == c[0] by { assert [c[0]][..0] == []; }
    BeValueBound(c[1..]);
  }

  lemma Scale(a: nat, lo: nat, hi: nat, p: nat)
    requires lo <= a <= hi
    ensures lo * p <= a * p <= hi * p
  {
  }

  /** `k` octets reach exactly as far as half of 256^k in both directions. */
  lemma TwosRange(c: Octets)
    requires c != []
    ensures 0 - Power256(|c|) <= 2 * TwosValue(c) < Power256(|c|)
    ensures c[0] < 128 <==> TwosValue(c) >= 0
  {
    LeadingOctet(c);
    var p: nat := Power256(|c| - 1);
    if c[0] < 128 {
      Scale(c[0], 0, 127, p);
    } else {
      Scale(c[0], 128, 255, p);
    }
  }

  /** A leading 0x00 before a clear top bit, or 0xff before a set one, adds nothing. */
  lemma RedundantOctet(c: Octets)
    requires |c| > 1 && !Minimal(c)
    ensures TwosValue(c[1..]) == TwosValue(c)
  {
    LeadingOctet(c);
  }

  /** A minimal string of two or more octets has a value that fewer octets cannot hold. */
  lemma MinimalNeedsItsWidth(c: Octets)
    requires Minimal(c) && |c| > 1
    ensures 2 * TwosValue(c) >= Power256(|c| - 1) || 2 * TwosValue(c) < 0 - Power256(|c| - 1)
  {
    var tail := c[1..];
    var p: nat := Power256(|c| - 1);
    LeadingOctet(c);
    LeadingOctet(tail);
    var q: nat := Power256(|c| - 2);
    if c[0] == 0 {
      Scale(tail[0], 128, 255, q);
    } else if c[0] < 128 {
      Scale(c[0], 1, 127, p);
    } else if c[0] < 255 {
      Scale(c[0], 128, 254, p);
    } else {
      Scale(tail[0], 0, 127, q);
    }
  }

  lemma {:induction false} Power256Monotone(j: nat, k: nat)
    requires j <= k
    ensures Power256(j) <= Power256(k)
  {
    if j < k {
      Power256Monotone(j, k - 1);
    }
  }

  /** Accepted contents are exactly the shortest ones: no string of the same value is shorter. */
  lemma MinimalIsShortest(c: Octets)
    requires c != []
    ensures Minimal(c) <==> forall d: Octets :: d != [] && TwosValue(d) == TwosValue(c) ==> |d| >= |c|
  {
    if Minimal(c) {
      forall d: Octets | d != [] && TwosValue(d) == TwosValue(c)
        ensures |d| >= |c|
      {
        if |d| < |c| {
          MinimalNeedsItsWidth(c);
          TwosRange(d);
          Power256Monotone(|d|, |c| - 1);
        }
      }
    } else {
      RedundantOctet(c);
      assert |c[1..]| < |c|;
    }
  }

  /** Equal values have identical accepted contents. */
  lemma MinimalIsUnique(c: Octets, d: Octets)
    requires Minimal(c) && Minimal(d) && TwosValue(c) == TwosValue(d)
    ensures c == d
  {
    MinimalIsShortest(c);
    MinimalIsShortest(d);
    TwosRange(c);
    TwosRange(d);
    BeInjective(c, d);
  }

  /** The contents octets of a natural number. */
  function NaturalOctets(n: nat): Octets {
    BeRoundTrip(n);
    if BeOctets(n)[0] < 128 then BeOctets(n) else [0] + BeOctets(n)
  }

  lemma NaturalRoundTrip(n: nat)
    ensures Minimal(NaturalOctets(n)) && NaturalOctets(n)[0] < 128
    ensures TwosValue(NaturalOctets(n)) == n
  {
    BeRoundTrip(n);
    var b := BeOctets(n);
    if b[0] >= 128 {
      BeValueSplit([0], b);
      assert BeValue([0]) == 0 by { assert [0 as byte][..0] == []; }
    } else if |b| > 1 {
      assert n > 0 by { assert n < 256 ==> |BeOctets(n)| == 1; }
    }
  }

  // ---------------------------------------------------------------- INTEGER elements

  function IntegerAt(s: Octets, cls: nat, tag: nat, natural: bool): (r: Option<Extent>)
    ensures r.Some? ==> 2 <= r.value.header && 1 <= r.value.content && r.value.Total() <= |s|
  {
    var e :- TlvAt(s, cls, tag);
    var c := s[e.header..e.Total()];
    if Minimal(c) && (natural ==> c[0] < 128) then Some(e) else None
  }

  method ParseIntegerCore(buf: Octets, expClass: nat, expType: nat, posOrZero: bool) returns (r: Option<Extent>)
    ensures r == IntegerAt(buf, expClass, expType, posOrZero)
  {
    if |buf| == 0 {
      return None;
    }
    var e := ParseIdLen(buf, expClass, expType);
    if e.None? {
      return None;
    }
    var content := buf[e.value.header..];
    var dataLen := e.value.content;
    if dataLen == 0 {
      return None;
    }
    if dataLen > 1 {
      if content[0] == 0 && content[1] < 128 {
        return None;
      }
      if content[0] == 0xff && content[1] >= 128 {
        return None;
      }
    }
    if posOrZero && content[0] >= 128 {
      return None;
    }
    return e;
  }

  method ParseInteger(buf: Octets, expClass: nat, expType: nat) returns (r: Option<Extent>)
    ensures r == IntegerAt(buf, expClass, expType, false)
  {
    r := ParseIntegerCore(buf, expClass, expType, false);
  }

  method ParseNonNegativeInteger(buf: Octets, expClass: nat, expType: nat) returns (r: Option<Extent>)
    ensures r == IntegerAt(buf, expClass, expType, true)
  {
    r := ParseIntegerCore(buf, expClass, expType, true);
  }

  /** INTEGER elements are accepted exactly when their contents are the shortest form of their value. */
  lemma IntegerAcceptsShortest(s: Octets, cls: nat, tag: nat, e: Extent)
    ensures IntegerAt(s, cls, tag, false) == Some(e) <==>
            && TlvAt(s, cls, tag) == Some(e)
            && e.content > 0
            && forall d: Octets :: d != [] && TwosValue(d) == TwosValue(s[e.header..e.Total()]) ==> |d| >= e.content
  {
    if TlvAt(s, cls, tag) == Some(e) && e.content > 0 {
      MinimalIsShortest(s[e.header..e.Total()]);
    }
  }

  // ---------------------------------------------------------------- DSA-style signature values

  /** Where the two integers of a signature value lie, and what the element occupies. */
  datatype Signature = Signature(rStart: nat, rLen: nat, sStart: nat, sLen: nat, eaten: nat)

  function NaturalAt(s: Octets): (r: Option<Extent>)
    ensures r.Some? ==> 2 <= r.value.header && 1 <= r.value.content && r.value.Total() <= |s|
  {
    IntegerAt(s, UNIVERSAL, INTEGER, true)
  }

  /** The two naturals that fill `body`, the contents of the inner SEQUENCE. */
  function PairAt(body: Octets): (r: Option<(Extent, Extent)>)
    ensures r.Some? ==> r.value.0.Total() + r.value.1.Total() == |body| && r.value.1.header >= 2
  {
    var r :- NaturalAt(body);
    var s :- NaturalAt(body[r.Total()..]);
    if r.Total() + s.Total() == |body| then Some((r, s)) else None
  }

  function SignatureAt(buf: Octets): (r: Option<Signature>)
    ensures r.Some? ==> 1 <= r.value.eaten <= |buf|
  {
    var bits :- TlvAt(buf, UNIVERSAL, BIT_STRING);
    if bits.content == 0 || buf[bits.header] != 0 then None
    else
      var sig := buf[bits.header + 1..bits.Total()];
      var sq :- TlvAt(sig, UNIVERSAL, SEQUENCE);
      if sq.Total() != |sig| then None
      else
        var (r, s) :- PairAt(sig[sq.header..]);
        var off := bits.header + 1 + sq.header;
        Some(Signature(off + r.header, r.content, off + r.Total() + s.header, s.content, bits.Total()))
  }

  method DsaExtractRS(buf: Octets) returns (result: Option<Signature>)
    ensures result == SignatureAt(buf)
  {
    hide TlvAt, IntegerAt, Minimal, NaturalOctets;
    if |buf| == 0 {
      return None;
    }
    var bits := ParseIdLen(buf, UNIVERSAL, BIT_STRING);
    if bits.None? {
      return None;
    }
    var savedSigLen := bits.value.header + bits.value.content;
    var off := bits.value.header;
    if bits.value.content == 0 || buf[off] != 0 {
      return None;
    }
    off := off + 1;
    var sigLen := bits.value.content - 1;
    var sig := buf[off..off + sigLen];
    var sq := ParseIdLen(sig, UNIVERSAL, SEQUENCE);
    if sq.None? || sigLen != sq.value.header + sq.value.content {
      return None;
    }
    var remain := sq.value.content;
    var rest := sig[sq.value.header..];
    off := off + sq.value.header;
    var r := ParseNonNegativeInteger(rest, UNIVERSAL, INTEGER);
    if r.None? {
      return None;
    }
    var integerLen := r.value.header + r.value.content;
    remain := remain - integerLen;
    rest := rest[integerLen..];
    var rStart, rLen := off + r.value.header, r.value.content;
    off := off + integerLen;
    var s := ParseNonNegativeInteger(rest, UNIVERSAL, INTEGER);
    if s.None? {
      return None;
    }
    integerLen := s.value.header + s.value.content;
    remain := remain - integerLen;
    var sStart, sLen := off + s.value.header, s.value.content;
    if remain != 0 {
      return None;
    }
    return Some(Signature(rStart, rLen, sStart, sLen, savedSigLen));
  }

  /** Constructed bits are not looked at; a signature value is encoded for any choice of the four. */
  datatype Forms = Forms(bits: bool, sq: bool, r: bool, s: bool)

  function PairOctets(f: Forms, r: nat, s: nat): Octets
    requires |NaturalOctets(r)| < U32_LIMIT && |NaturalOctets(s)| < U32_LIMIT
  {
    Tlv(UNIVERSAL, f.r, INTEGER, NaturalOctets(r)) + Tlv(UNIVERSAL, f.s, INTEGER, NaturalOctets(s))
  }

  /** The encoding fits the length limits at every level. */
  predicate Encodable(f: Forms, r: nat, s: nat) {
    && |NaturalOctets(r)| < U32_LIMIT && |NaturalOctets(s)| < U32_LIMIT
    && |PairOctets(f, r, s)| < U32_LIMIT
    && 1 + |Tlv(UNIVERSAL, f.sq, SEQUENCE, PairOctets(f, r, s))| < U32_LIMIT
  }

  function SignatureOctets(f: Forms, r: nat, s: nat): Octets
    requires Encodable(f, r, s)
  {
    Tlv(UNIVERSAL, f.bits, BIT_STRING, [0] + Tlv(UNIVERSAL, f.sq, SEQUENCE, PairOctets(f, r, s)))
  }

  lemma NaturalEncodes(p: bool, n: nat, rest: Octets)
    requires |NaturalOctets(n)| < U32_LIMIT
    ensures var t := Tlv(UNIVERSAL, p, INTEGER, NaturalOctets(n)); var h := |t| - |NaturalOctets(n)|;
            && NaturalAt(t + rest) == Some(Extent(h, |NaturalOctets(n)|))
            && (t + rest)[h..|t|] == NaturalOctets(n)
  {
    EncodeThenParse(UNIVERSAL, p, INTEGER, NaturalOctets(n), rest);
    NaturalRoundTrip(n);
  }

  lemma PairEncodes(f: Forms, r: nat, s: nat)
    requires |NaturalOctets(r)| < U32_LIMIT && |NaturalOctets(s)| < U32_LIMIT
    ensures var body := PairOctets(f, r, s);
            && PairAt(body).Some?
            && var (x, y) := PairAt(body).value;
            && body[x.header..x.Total()] == NaturalOctets(r)
            && body[x.Total() + y.header..] == NaturalOctets(s)
            && |body| - x.Total() == |Tlv(UNIVERSAL, f.s, INTEGER, NaturalOctets(s))|
  {
    hide TlvAt, IntegerAt, Minimal, Tlv, NaturalOctets, NaturalAt;
    var tr, ts := Tlv(UNIVERSAL, f.r, INTEGER, NaturalOctets(r)), Tlv(UNIVERSAL, f.s, INTEGER, NaturalOctets(s));
    NaturalEncodes(f.r, r, ts);
    NaturalEncodes(f.s, s, []);
    assert ts + [] == ts;
    assert (tr + ts)[|tr|..] == ts;
  }

  /** The slices reported for an accepted value. */
  ghost predicate Reports(buf: Octets, g: Signature, r: nat, s: nat) {
    && g.rStart + g.rLen < g.sStart && g.sStart + g.sLen == g.eaten <= |buf|
    && buf[g.rStart..g.rStart + g.rLen] == NaturalOctets(r)
    && buf[g.sStart..g.sStart + g.sLen] == NaturalOctets(s)
  }

  /** What the outer two layers of an encoding leave for the pair. */
  lemma OuterLayers(f: Forms, body: Octets, rest: Octets) returns (bits: Extent, sq: Extent)
    requires |body| < U32_LIMIT && 1 + |Tlv(UNIVERSAL, f.sq, SEQUENCE, body)| < U32_LIMIT
    ensures var inner := Tlv(UNIVERSAL, f.sq, SEQUENCE, body);
            var buf := Tlv(UNIVERSAL, f.bits, BIT_STRING, [0] + inner) + rest;
            && TlvAt(buf, UNIVERSAL, BIT_STRING) == Some(bits)
            && bits.Total() == |buf| - |rest|
            && buf[bits.header..bits.Total()] == [0] + inner
            && TlvAt(inner, UNIVERSAL, SEQUENCE) == Some(sq)
            && sq.Total() == |inner|
            && inner[sq.header..] == body
  {
    hide TlvAt, Header;
    var inner := Tlv(UNIVERSAL, f.sq, SEQUENCE, body);
    EncodeThenParse(UNIVERSAL, f.bits, BIT_STRING, [0] + inner, rest);
    EncodeThenParse(UNIVERSAL, f.sq, SEQUENCE, body, []);
    assert inner + [] == inner;
    var h := |Header(UNIVERSAL, f.bits, BIT_STRING, 1 + |inner|)|;
    bits := Extent(h, 1 + |inner|);
    sq := Extent(|Header(UNIVERSAL, f.sq, SEQUENCE, |body|)|, |body|);
  }

  /** Encoding then extracting: the slices are in order, disjoint, decode to r and s, end with the element,
      and whatever follows is left alone. */
  lemma SignatureRoundTrip(f: Forms, r: nat, s: nat, rest: Octets)
    requires Encodable(f, r, s)
    ensures var buf := SignatureOctets(f, r, s) + rest;
            && SignatureAt(buf).Some?
            && var g := SignatureAt(buf).value;
            && g.eaten == |SignatureOctets(f, r, s)| && Reports(buf, g, r, s)
            && g.eaten - (g.rStart + g.rLen) == |Tlv(UNIVERSAL, f.s, INTEGER, NaturalOctets(s))|
  {
    hide TlvAt, Tlv, NaturalOctets, NaturalAt, PairAt, PairOctets;
    var body := PairOctets(f, r, s);
    var inner := Tlv(UNIVERSAL, f.sq, SEQUENCE, body);
    var buf := SignatureOctets(f, r, s) + rest;
    var bits, sq := OuterLayers(f, body, rest);
    PairEncodes(f, r, s);
    var sig := buf[bits.header + 1..bits.Total()];
    assert sig == buf[bits.header..bits.Total()][1..] == inner;
    var (x, y) := PairAt(body).value;
    BodyInBuffer(buf, bits, sq, x.header, x.Total());
    BodyInBuffer(buf, bits, sq, x.Total() + y.header, |body|);
    assert body[x.Total() + y.header..] == body[x.Total() + y.header..|body|];
  }

  /** Slices of the innermost body are slices of the buffer, shifted. */
  lemma BodyInBuffer(buf: Octets, bits: Extent, sq: Extent, i: nat, j: nat)
    requires bits.Total() <= |buf| && bits.content == 1 + sq.Total() && i <= j <= sq.content
    ensures var off := bits.header + 1 + sq.header;
            buf[bits.header + 1..bits.Total()][sq.header..][i..j] == buf[off + i..off + j]
  {
    var sig := buf[bits.header + 1..bits.Total()];
    assert sig[sq.header..] == sig[sq.header..|sig|];
    SliceOfSlice(sig, sq.header, |sig|, i, j);
    SliceOfSlice(buf, bits.header + 1, bits.Total(), sq.header + i, sq.header + j);
  }

  lemma NaturalDecodes(s: Octets) returns (p: bool, n: nat)
    requires NaturalAt(s).Some? && |s| < U32_LIMIT
    ensures |NaturalOctets(n)| == NaturalAt(s).value.content
    ensures s[..NaturalAt(s).value.Total()] == Tlv(UNIVERSAL, p, INTEGER, NaturalOctets(n))
  {
    var e := NaturalAt(s).value;
    var c := s[e.header..e.Total()];
    TwosRange(c);
    n := TwosValue(c);
    NaturalRoundTrip(n);
    MinimalIsUnique(c, NaturalOctets(n));
    AcceptsExactlyEncodings(s, UNIVERSAL, INTEGER, e);
    p :| s[..e.header] == Header(UNIVERSAL, p, INTEGER, e.content);
    assert s[..e.Total()] == s[..e.header] + c;
  }

  /** The contents of an accepted inner SEQUENCE are two encoded naturals. */
  lemma PairDecodes(body: Octets) returns (pr: bool, ps: bool, r: nat, s: nat)
    requires PairAt(body).Some? && |body| < U32_LIMIT
    ensures |NaturalOctets(r)| < U32_LIMIT && |NaturalOctets(s)| < U32_LIMIT
    ensures forall f: Forms :: f.r == pr && f.s == ps ==> body == PairOctets(f, r, s)
  {
    hide TlvAt, IntegerAt, Minimal, Tlv, NaturalOctets, NaturalAt;
    var (x, y) := PairAt(body).value;
    pr, r := NaturalDecodes(body);
    ps, s := NaturalDecodes(body[x.Total()..]);
    assert body == body[..x.Total()] + body[x.Total()..];
    assert body[x.Total()..] == body[x.Total()..][..y.Total()];
  }

  /** An accepted element is its header octets, for some constructed bit, and its contents. */
  lemma ElementDecodes(s: Octets, tag: nat, e: Extent) returns (p: bool)
    requires tag < 31 && |s| < U32_LIMIT && TlvAt(s, UNIVERSAL, tag) == Some(e)
    ensures s[..e.Total()] == Tlv(UNIVERSAL, p, tag, s[e.header..e.Total()])
  {
    hide TlvAt, Header;
    AcceptsExactlyEncodings(s, UNIVERSAL, tag, e);
    p :| s[..e.header] == Header(UNIVERSAL, p, tag, e.content);
    assert s[..e.Total()] == s[..e.header] + s[e.header..e.Total()];
  }

  /** Every accepted signature value is an encoding of two naturals, and the reported slices are theirs. */
  lemma AcceptedSignatureIsEncoding(buf: Octets) returns (f: Forms, r: nat, s: nat)
    requires |buf| < U32_LIMIT && SignatureAt(buf).Some?
    ensures Encodable(f, r, s)
    ensures buf[..SignatureAt(buf).value.eaten] == SignatureOctets(f, r, s)
    ensures Reports(buf, SignatureAt(buf).value, r, s)
  {
    hide TlvAt, Tlv, NaturalOctets, PairAt, PairOctets, Reports;
    var bits := TlvAt(buf, UNIVERSAL, BIT_STRING).value;
    var pb := ElementDecodes(buf, BIT_STRING, bits);
    var sig := buf[bits.header + 1..bits.Total()];
    var sq := TlvAt(sig, UNIVERSAL, SEQUENCE).value;
    var pq := ElementDecodes(sig, SEQUENCE, sq);
    var body := sig[sq.header..];
    var pr, ps;
    pr, ps, r, s := PairDecodes(body);
    f := Forms(pb, pq, pr, ps);
    assert sig[..sq.Total()] == sig && sig[sq.header..sq.Total()] == body;
    assert buf[bits.header..bits.Total()] == [0] + sig;
    SignatureRoundTrip(f, r, s, buf[bits.Total()..]);
    assert buf == buf[..bits.Total()] + buf[bits.Total()..];
  }
}
