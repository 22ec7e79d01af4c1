/** The tag-length-value layer of x509.c: identifier octets, length octets and their pairing,
    with the encoder they are measured against (sections 8.1.2, 8.1.3 and 10.1 of X.690). */
module Der {
  import opened Bytes

  // Tag classes and the universal tags the parsers ask for.
  const UNIVERSAL := 0
  const CONTEXT_SPECIFIC := 2
  const INTEGER := 0x02
  const BIT_STRING := 0x03
  const OCTET_STRING := 0x04
  const OID := 0x06
  const SEQUENCE := 0x10
  const SET := 0x11

  datatype Identifier = Identifier(cls: nat, constructed: bool, tag: nat, eaten: nat)

  /** What a header scan reports: octets of header, octets of content. */
  datatype Extent = Extent(header: nat, content: nat) {
    function Total(): nat {
      header + content
    }
  }

  // ---------------------------------------------------------------- encoder

  /** Length octets in the distinguished form: short below 128, else the fewest octets. */
  function LengthOctets(n: nat): Octets
    requires n < U32_LIMIT
  {
    if n < 128 then [n] else LengthPrefix(n) + BeOctets(n)
  }

  function LengthPrefix(n: nat): Octets
    requires 128 <= n < U32_LIMIT
  {
    BeWidth(n);
    [128 + |BeOctets(n)|]
  }

  lemma BeWidth(n: nat)
    requires 0 < n < U32_LIMIT
    ensures 1 <= |BeOctets(n)| <= 4
    ensures n >= 0x100 ==> |BeOctets(n)| >= 2
    ensures n >= 0x1_0000 ==> |BeOctets(n)| >= 3
    ensures n >= 0x100_0000 ==> |BeOctets(n)| == 4
  {
    assert BeOctets(n) == if n < 256 then [n] else BeOctets(n / 256) + [n % 256];
    var m := n / 256;
    assert BeOctets(m) == if m < 256 then [m] else BeOctets(m / 256) + [m % 256];
    var k := m / 256;
    assert BeOctets(k) == if k < 256 then [k] else BeOctets(k / 256) + [k % 256];
  }

  /** `id` identifies class `cls` and number `tag`, with either constructed bit: one octet below 31,
      else a leading octet and up to four base-128 octets (leading 0x80 octets are tolerated). */
  ghost predicate IsIdentifier(id: Octets, cls: nat, tag: nat) {
    && id != []
    && id[0] / 64 == cls
    && if tag < 31 then
         |id| == 1 && id[0] % 32 == tag
       else
         && 2 <= |id| <= 5
         && id[0] % 32 == 31
         && FirstEnd(id[1..]) == |id| - 2
         && Base128(id[1..]) == tag
  }

  /** `h` is an identifier for (`cls`, `tag`) followed by the distinguished length of `n` octets. */
  ghost predicate IsHeader(h: Octets, cls: nat, tag: nat, n: nat) {
    n < U32_LIMIT
    && exists k {:trigger h[..k]} :: 0 <= k <= |h| && IsIdentifier(h[..k], cls, tag) && h[k..] == LengthOctets(n)
  }

  /** The encoder: one identifier octet, then the length octets. */
  function Header(cls: nat, constructed: bool, tag: nat, n: nat): (h: Octets)
    requires cls < 4 && tag < 31 && n < U32_LIMIT
  {
    [cls * 64 + (if constructed then 32 else 0) + tag] + LengthOctets(n)
  }

  function Tlv(cls: nat, constructed: bool, tag: nat, content: Octets): Octets
    requires cls < 4 && tag < 31 && |content| < U32_LIMIT
  {
    Header(cls, constructed, tag, |content|) + content
  }

  // ---------------------------------------------------------------- specification functions

  /** The base-128 group at the head of `s`: at most four octets, the last below 128. */
  function ArcAt(s: Octets): (r: Option<(nat, nat)>)
    ensures r.Some? ==> 1 <= r.value.1 <= |s| && r.value.1 <= 4
  {
    var window := s[..Min(|s|, 4)];
    var k := FirstEnd(window);
    if k == |window| then None else Some((Base128(window[..k + 1]), k + 1))
  }

  function IdentifierAt(s: Octets): (r: Option<Identifier>)
    ensures r.Some? ==> 1 <= r.value.eaten <= |s| && r.value.eaten <= 5
  {
    if s == [] then None
    else
      var cls, constructed := s[0] / 64, s[0] / 32 % 2 == 1;
      if s[0] % 32 < 31 then Some(Identifier(cls, constructed, s[0] % 32, 1))
      else
        var (tag, n) :- ArcAt(s[1..]);
        if tag < 31 then None else Some(Identifier(cls, constructed, tag, 1 + n))
  }

  /** Length octets at the head of `s`, accepted only when the announced content also fits. */
  function LengthAt(s: Octets): (r: Option<Extent>)
    ensures r.Some? ==> 1 <= r.value.header <= 5 && r.value.Total() <= |s|
  {
    if s == [] then None
    else if s[0] < 128 then
      if 1 + s[0] <= |s| then Some(Extent(1, s[0])) else None
    else
      var k := s[0] - 128;
      if k == 0 || k > 4 || k + 1 > |s| then None
      else
        var n := BeValue(s[1..1 + k]);
        if s[1] == 0 || n < 128 || 1 + k + n > |s| then None else Some(Extent(1 + k, n))
  }

  /** A header of the expected class and number whose content fits in `s`. */
  function TlvAt(s: Octets, cls: nat, tag: nat): (r: Option<Extent>)
    ensures r.Some? ==> 2 <= r.value.header && r.value.Total() <= |s|
  {
    var id :- IdentifierAt(s);
    if id.tag != tag || id.cls != cls then None
    else
      var l :- LengthAt(s[id.eaten..]);
      Some(Extent(id.eaten + l.header, l.content))
  }

  /** An explicitly tagged element: context tag `outer`, then (`cls`, `tag`). The outer length is not
      compared with the inner one. */
  function ExplicitAt(s: Octets, outer: nat, cls: nat, tag: nat): (r: Option<Extent>)
    ensures r.Some? ==> 4 <= r.value.header && r.value.Total() <= |s|
  {
    var o :- TlvAt(s, CONTEXT_SPECIFIC, outer);
    var i :- TlvAt(s[o.header..], cls, tag);
    Some(Extent(o.header + i.header, i.content))
  }

  // ---------------------------------------------------------------- the parsers

  /** The shared loop of `_extract_complex_tag` and `_parse_arc`: seven bits an octet, four octets at
      most, until one has its top bit clear. */
  method ScanBase128(buf: Octets) returns (r: Option<(nat, nat)>)
    ensures r == ArcAt(buf)
  {
    hide Base128, FirstEnd;
    if |buf| == 0 {
      return None;
    }
    var len := |buf|;
    if len > 4 {
      len := 4;
    }
    ghost var window := buf[..len];
    var rbytes, t := 0, 0;
    EmptyGroup(window[..rbytes]);
    while rbytes < len
      invariant 0 <= rbytes <= len
      invariant forall i :: 0 <= i < rbytes ==> window[i] >= 128
      invariant t == Base128(window[..rbytes])
      // seven bits a step: the 32-bit shift below never overflows
      invariant t < 0x80 || (t < 0x4000 && rbytes >= 2) || (t < 0x20_0000 && rbytes >= 3) || rbytes == 4
    {
      GroupStep(window, rbytes);
      assert t * 128 + 127 < U32_LIMIT;
      t := t * 128 + buf[rbytes] % 128;
      if buf[rbytes] < 128 {
        break;
      }
      rbytes := rbytes + 1;
    }
    FirstEndUnique(window, rbytes);
    if rbytes == len {
      return None;
    }
    return Some((t, rbytes + 1));
  }

  lemma EmptyGroup(s: Octets)
    requires s == []
    ensures Base128(s) == 0
  {
  }

  lemma GroupStep(s: Octets, k: nat)
    requires k < |s|
    ensures Base128(s[..k + 1]) == Base128(s[..k]) * 128 + s[k] % 128
  {
    assert s[..k + 1][..k] == s[..k];
  }

  method ExtractComplexTag(buf: Octets) returns (r: Option<(nat, nat)>)
    ensures r == match ArcAt(buf) case None => None case Some(a) => if a.0 < 31 then None else Some(a)
  {
    r := ScanBase128(buf);
    if r.Some? && r.value.0 < 31 {
      r := None;
    }
  }

  method GetIdentifier(buf: Octets) returns (r: Option<Identifier>)
    ensures r == IdentifierAt(buf)
  {
    if |buf| == 0 {
      return None;
    }
    var c := buf[0] / 64 % 4;
    var p := buf[0] / 32 % 2;
    var t := buf[0] % 32;
    var rbytes := 1;
    if t == 31 {
      var complex := ExtractComplexTag(buf[rbytes..]);
      if complex.None? {
        return None;
      }
      t := complex.value.0;
      rbytes := rbytes + complex.value.1;
    }
    return Some(Identifier(c, p == 1, t, rbytes));
  }

  method GetLength(buf: Octets) returns (r: Option<Extent>)
    ensures r == LengthAt(buf)
  {
    if |buf| == 0 {
      return None;
    }
    var b0 := buf[0];
    if b0 < 128 {
      if b0 + 1 > |buf| {
        return None;
      }
      return Some(Extent(1, b0));
    }
    if b0 == 0x80 {
      return None;
    }
    var lenLen := b0 % 128;
    var rbytes := 1;
    if lenLen + 1 > |buf| {
      return None;
    }
    BeValueShort(buf[1..1 + lenLen]);
    var l: nat := 0;
    match lenLen {
      case 1 =>
        l := buf[1];
        if l <= 127 {
          return None;
        }
        rbytes := rbytes + 1;
      case 2 =>
        l := buf[1] as int * 0x100 + buf[2] as int;
        if l <= 0xff {
          return None;
        }
        rbytes := rbytes + 2;
      case 3 =>
        l := buf[1] as int * 0x1_0000 + buf[2] as int * 0x100 + buf[3] as int;
        if l <= 0xffff {
          return None;
        }
        rbytes := rbytes + 3;
      case 4 =>
        l := buf[1] as int * 0x100_0000 + buf[2] as int * 0x1_0000 + buf[3] as int * 0x100 + buf[4] as int;
        if l <= 0xff_ffff {
          return None;
        }
        rbytes := rbytes + 4;
      case _ =>
        return None;
    }
    if |buf| - rbytes < l {
      return None;
    }
    return Some(Extent(rbytes, l));
  }

  lemma BeValueShort(s: Octets)
    ensures |s| == 1 ==> BeValue(s) == s[0]
    ensures |s| == 2 ==> BeValue(s) == s[0] as int * 0x100 + s[1] as int
    ensures |s| == 3 ==> BeValue(s) == s[0] as int * 0x1_0000 + s[1] as int * 0x100 + s[2] as int
    ensures |s| == 4 ==>
              BeValue(s) == s[0] as int * 0x100_0000 + s[1] as int * 0x1_0000 + s[2] as int * 0x100 + s[3] as int
  {
    if 1 <= |s| <= 4 {
      assert BeValue(s[..0]) == 0;
      assert s[..1][..0] == s[..0];
      if |s| >= 2 { assert s[..2][..1] == s[..1]; }
      if |s| >= 3 { assert s[..3][..2] == s[..2]; }
      if |s| >= 4 { assert s[..4][..3] == s[..3]; }
      assert s[..|s|] == s;
    }
  }

  method ParseIdLen(buf: Octets, expClass: nat, expType: nat) returns (r: Option<Extent>)
    ensures r == TlvAt(buf, expClass, expType)
  {
    var id := GetIdentifier(buf);
    if id.None? || id.value.tag != expType || id.value.cls != expClass {
      return None;
    }
    var grabbed := id.value.eaten;
    var rest := buf[grabbed..];
    var length := GetLength(rest);
    if length.None? {
      return None;
    }
    grabbed := grabbed + length.value.header;
    rest := rest[length.value.header..];
    if length.value.content > |rest| {
      return None;
    }
    return Some(Extent(grabbed, length.value.content));
  }

  method ParseExplicitIdLen(buf: Octets, extType: nat, intClass: nat, intType: nat) returns (r: Option<Extent>)
    ensures r == ExplicitAt(buf, extType, intClass, intType)
  {
    if |buf| == 0 {
      return None;
    }
    var outer := ParseIdLen(buf, CONTEXT_SPECIFIC, extType);
    if outer.None? {
      return None;
    }
    var parsed := outer.value.header;
    var inner := ParseIdLen(buf[parsed..], intClass, intType);
    if inner.None? {
      return None;
    }
    parsed := parsed + inner.value.header;
    if |buf| - parsed < inner.value.content {
      return None;
    }
    return Some(Extent(parsed, inner.value.content));
  }

  // ---------------------------------------------------------------- exactness

  lemma AcceptedLength(s: Octets)
    requires LengthAt(s).Some?
    ensures var e := LengthAt(s).value; e.content < U32_LIMIT && s[..e.header] == LengthOctets(e.content)
  {
    var e := LengthAt(s).value;
    if s[0] >= 128 {
      var body := s[1..e.header];
      BeCanonical(body);
      BeValueBound(body);
      FourOctets(|body|);
      assert s[..e.header] == [s[0]] + body;
    } else {
      assert s[..1] == [s[0]];
    }
  }

  lemma FourOctets(k: nat)
    requires k <= 4
    ensures Power256(k) <= U32_LIMIT
  {
    assert Power256(1) == 0x100;
    assert Power256(2) == 0x1_0000;
    assert Power256(3) == 0x100_0000;
    assert Power256(4) == U32_LIMIT;
  }

  lemma DistinguishedLength(s: Octets, e: Extent)
    requires e.Total() <= |s| && e.content < U32_LIMIT && s[..e.header] == LengthOctets(e.content)
    ensures LengthAt(s) == Some(e)
  {
    hide Power256;
    if e.content >= 128 {
      BeWidth(e.content);
      BeRoundTrip(e.content);
      var h := s[..e.header];
      assert s[0] == h[0];
      assert s[1..e.header] == h[1..] == BeOctets(e.content);
      assert s[1] == BeOctets(e.content)[0];
    } else {
      assert s[..e.header] == [e.content];
      assert s[0] == s[..e.header][0];
    }
  }

  /** Length octets are accepted exactly when they are the distinguished form and the content fits. */
  lemma LengthExact(s: Octets, e: Extent)
    ensures LengthAt(s) == Some(e) <==>
            e.Total() <= |s| && e.content < U32_LIMIT && s[..e.header] == LengthOctets(e.content)
  {
    hide LengthOctets;
    if LengthAt(s) == Some(e) {
      AcceptedLength(s);
    }
    if e.Total() <= |s| && e.content < U32_LIMIT && s[..e.header] == LengthOctets(e.content) {
      DistinguishedLength(s, e);
    }
  }

  lemma ArcExact(s: Octets, tag: nat, k: nat)
    ensures ArcAt(s) == Some((tag, k)) <==>
            1 <= k <= 4 && k <= |s| && FirstEnd(s[..k]) == k - 1 && Base128(s[..k]) == tag
  {
    var window := s[..Min(|s|, 4)];
    var f := FirstEnd(window);
    if f < |window| {
      assert window[..f + 1] == s[..f + 1];
      FirstEndUnique(s[..f + 1], f);
    }
    if 1 <= k <= 4 && k <= |s| && FirstEnd(s[..k]) == k - 1 {
      assert s[..k][k - 1] < 128;
      FirstEndUnique(window, k - 1);
    }
  }

  lemma IdentifierExact(s: Octets, cls: nat, tag: nat, k: nat)
    ensures (exists p :: IdentifierAt(s) == Some(Identifier(cls, p, tag, k))) <==>
            k <= |s| && IsIdentifier(s[..k], cls, tag)
  {
    if s != [] && s[0] % 32 == 31 && k >= 1 {
      ArcExact(s[1..], tag, k - 1);
      if k <= |s| {
        assert s[..k][1..] == s[1..][..k - 1];
      }
    }
    if s != [] {
      var p := s[0] / 32 % 2 == 1;
      assert IdentifierAt(s).Some? ==> IdentifierAt(s).value.constructed == p;
      if k <= |s| && IsIdentifier(s[..k], cls, tag) {
        assert IdentifierAt(s) == Some(Identifier(cls, p, tag, k));
      }
    }
  }

  lemma AcceptedHasHeader(s: Octets, cls: nat, tag: nat)
    requires TlvAt(s, cls, tag).Some?
    ensures var e := TlvAt(s, cls, tag).value; IsHeader(s[..e.header], cls, tag, e.content)
  {
    hide IdentifierAt, LengthAt, IsIdentifier, LengthOctets;
    var e := TlvAt(s, cls, tag).value;
    var id := IdentifierAt(s).value;
    IdentifierExact(s, cls, tag, id.eaten);
    assert IdentifierAt(s) == Some(Identifier(cls, id.constructed, tag, id.eaten));
    var l := LengthAt(s[id.eaten..]).value;
    LengthExact(s[id.eaten..], l);
    var h := s[..e.header];
    assert h[..id.eaten] == s[..id.eaten];
    assert h[id.eaten..] == s[id.eaten..][..l.header];
  }

  lemma HeaderIsAccepted(s: Octets, cls: nat, tag: nat, e: Extent)
    requires e.Total() <= |s| && IsHeader(s[..e.header], cls, tag, e.content)
    ensures TlvAt(s, cls, tag) == Some(e)
  {
    hide IdentifierAt, LengthAt, IsIdentifier, LengthOctets;
    var h := s[..e.header];
    var k :| 0 <= k <= |h| && IsIdentifier(h[..k], cls, tag) && h[k..] == LengthOctets(e.content);
    assert h[..k] == s[..k];
    IdentifierExact(s, cls, tag, k);
    assert h[k..] == s[k..][..e.header - k];
    LengthExact(s[k..], Extent(e.header - k, e.content));
  }

  /** The header scan accepts exactly the buffers that begin with a distinguished header of the expected
      class and number and hold its content; the extent is determined by the buffer. */
  lemma TlvExact(s: Octets, cls: nat, tag: nat, e: Extent)
    ensures TlvAt(s, cls, tag) == Some(e) <==> e.Total() <= |s| && IsHeader(s[..e.header], cls, tag, e.content)
  {
    hide IsHeader, IdentifierAt, LengthAt;
    if TlvAt(s, cls, tag) == Some(e) {
      AcceptedHasHeader(s, cls, tag);
    }
    if e.Total() <= |s| && IsHeader(s[..e.header], cls, tag, e.content) {
      HeaderIsAccepted(s, cls, tag, e);
    }
  }

  /** Below 31 the accepted headers are the encoder's, with either constructed bit. */
  lemma LowTagHeaders(h: Octets, cls: nat, tag: nat, n: nat)
    requires cls < 4 && tag < 31 && n < U32_LIMIT
    ensures IsHeader(h, cls, tag, n) <==> exists p :: h == Header(cls, p, tag, n)
  {
    hide LengthOctets, IsIdentifier;
    if IsHeader(h, cls, tag, n) {
      var k :| 0 <= k <= |h| && IsIdentifier(h[..k], cls, tag) && h[k..] == LengthOctets(n);
      var p := LowTagOctet(h[..k], cls, tag);
      assert h == h[..k] + h[k..];
      assert h == Header(cls, p, tag, n);
    }
    if p :| h == Header(cls, p, tag, n) {
      LowTagIdentifier(cls, p, tag);
      assert h[..1] == [cls * 64 + (if p then 32 else 0) + tag] && h[1..] == LengthOctets(n);
    }
  }

  /** A low number takes one identifier octet. */
  lemma LowTagOctet(k: Octets, cls: nat, tag: nat) returns (p: bool)
    requires cls < 4 && tag < 31 && IsIdentifier(k, cls, tag)
    ensures k == [cls * 64 + (if p then 32 else 0) + tag]
  {
    p := k[0] / 32 % 2 == 1;
  }

  lemma LowTagIdentifier(cls: nat, p: bool, tag: nat)
    requires cls < 4 && tag < 31
    ensures IsIdentifier([cls * 64 + (if p then 32 else 0) + tag], cls, tag)
  {
  }

  /** For any expected number below 31: accepted means "begins with an encoded header whose content fits". */
  lemma AcceptsExactlyEncodings(s: Octets, cls: nat, tag: nat, e: Extent)
    requires cls < 4 && tag < 31
    ensures TlvAt(s, cls, tag) == Some(e) <==>
            && e.Total() <= |s|
            && e.content < U32_LIMIT
            && exists p :: s[..e.header] == Header(cls, p, tag, e.content)
  {
    TlvExact(s, cls, tag, e);
    if e.Total() <= |s| && e.content < U32_LIMIT {
      LowTagHeaders(s[..e.header], cls, tag, e.content);
    }
  }

  /** Parsing undoes encoding, whatever follows. */
  lemma EncodeThenParse(cls: nat, p: bool, tag: nat, content: Octets, rest: Octets)
    requires cls < 4 && tag < 31 && |content| < U32_LIMIT
    ensures var h := |Header(cls, p, tag, |content|)|;
            && TlvAt(Tlv(cls, p, tag, content) + rest, cls, tag) == Some(Extent(h, |content|))
            && (Tlv(cls, p, tag, content) + rest)[h..h + |content|] == content
  {
    var h := Header(cls, p, tag, |content|);
    var s := Tlv(cls, p, tag, content) + rest;
    assert s[..|h|] == h;
    AcceptsExactlyEncodings(s, cls, tag, Extent(|h|, |content|));
  }

  /** Octets appended after an element change nothing, and octets beyond it are never looked at. */
  lemma AppendStable(s: Octets, rest: Octets, cls: nat, tag: nat, e: Extent)
    requires e.Total() <= |s|
    ensures TlvAt(s, cls, tag) == Some(e) <==> TlvAt(s + rest, cls, tag) == Some(e)
  {
    TlvExact(s, cls, tag, e);
    TlvExact(s + rest, cls, tag, e);
    assert (s + rest)[..e.header] == s[..e.header];
  }

  // ---------------------------------------------------------------- explicit tags

  /** An element where `h` octets stand in front of it. */
  function PastTag(h: nat, i: Option<Extent>): Option<Extent> {
    if i.None? then None else Some(Extent(h + i.value.header, i.value.content))
  }

  /** Behind a header that announces anything that fits, the inner element alone decides. */
  lemma AnnouncementIsFree(p: bool, outer: nat, announced: nat, inner: Octets, cls: nat, tag: nat)
    requires outer < 31 && announced <= |inner| && announced < U32_LIMIT
    ensures var h := Header(CONTEXT_SPECIFIC, p, outer, announced);
            ExplicitAt(h + inner, outer, cls, tag) == PastTag(|h|, TlvAt(inner, cls, tag))
  {
    hide TlvAt, Header;
    var h := Header(CONTEXT_SPECIFIC, p, outer, announced);
    var s := h + inner;
    assert s[..|h|] == h && s[|h|..] == inner;
    AcceptsExactlyEncodings(s, CONTEXT_SPECIFIC, outer, Extent(|h|, announced));
  }

  /** What `parse_explicit_id_len` finds: a context-specific header whose announced length fits, behind it the header
      of the inner element, and room for the inner content. Nothing compares the two lengths. */
  ghost predicate Explicit(s: Octets, outer: nat, cls: nat, tag: nat, x: Extent, o: Extent)
    requires outer < 31 && cls < 4 && tag < 31
  {
    && o.Total() <= |s| && o.content < U32_LIMIT
    && (exists p :: s[..o.header] == Header(CONTEXT_SPECIFIC, p, outer, o.content))
    && o.header <= x.header && x.Total() <= |s| && x.content < U32_LIMIT
    && (exists q :: s[o.header..x.header] == Header(cls, q, tag, x.content))
  }

  lemma ExplicitExact(s: Octets, outer: nat, cls: nat, tag: nat, x: Extent)
    requires outer < 31 && cls < 4 && tag < 31
    ensures ExplicitAt(s, outer, cls, tag) == Some(x) <==> exists o :: Explicit(s, outer, cls, tag, x, o)
  {
    hide TlvAt, Header;
    if ExplicitAt(s, outer, cls, tag) == Some(x) {
      var o := TlvAt(s, CONTEXT_SPECIFIC, outer).value;
      ExplicitHere(s, outer, cls, tag, x, o);
    }
    if o :| Explicit(s, outer, cls, tag, x, o) {
      ExplicitHere(s, outer, cls, tag, x, o);
    }
  }

  lemma ExplicitHere(s: Octets, outer: nat, cls: nat, tag: nat, x: Extent, o: Extent)
    requires outer < 31 && cls < 4 && tag < 31
    ensures Explicit(s, outer, cls, tag, x, o) <==>
            TlvAt(s, CONTEXT_SPECIFIC, outer) == Some(o) && ExplicitAt(s, outer, cls, tag) == Some(x)
  {
    hide TlvAt, Header;
    AcceptsExactlyEncodings(s, CONTEXT_SPECIFIC, outer, o);
    if o.header <= x.header && o.header <= |s| {
      var i := Extent(x.header - o.header, x.content);
      var inner := s[o.header..];
      AcceptsExactlyEncodings(inner, cls, tag, i);
      if x.header <= |s| {
        assert inner[..i.header] == s[o.header..x.header];
      }
    }
  }

  /** What was accepted is an element inside an element exactly when the outer header announces the inner element. */
  lemma ExplicitTiedExactly(s: Octets, outer: nat, cls: nat, tag: nat, x: Extent, o: Extent)
    requires outer < 31 && cls < 4 && tag < 31 && Explicit(s, outer, cls, tag, x, o)
    ensures o.content == x.Total() - o.header <==>
            exists p, q, content ::
              && |content| == x.content && |Tlv(cls, q, tag, content)| < U32_LIMIT
              && s[..x.Total()] == Tlv(CONTEXT_SPECIFIC, p, outer, Tlv(cls, q, tag, content))
  {
    hide Header, TlvAt;
    ExplicitHere(s, outer, cls, tag, x, o);
    if o.content == x.Total() - o.header {
      var p :| s[..o.header] == Header(CONTEXT_SPECIFIC, p, outer, o.content);
      var q :| s[o.header..x.header] == Header(cls, q, tag, x.content);
      var content := s[x.header..x.Total()];
      assert s[..x.Total()] == s[..o.header] + (s[o.header..x.header] + content);
      assert s[..x.Total()] == Tlv(CONTEXT_SPECIFIC, p, outer, Tlv(cls, q, tag, content));
    }
    if p, q, content :| |content| == x.content && |Tlv(cls, q, tag, content)| < U32_LIMIT
                        && s[..x.Total()] == Tlv(CONTEXT_SPECIFIC, p, outer, Tlv(cls, q, tag, content)) {
      var inner := Tlv(cls, q, tag, content);
      EncodeThenParse(CONTEXT_SPECIFIC, p, outer, inner, s[x.Total()..]);
      assert s == s[..x.Total()] + s[x.Total()..];
    }
  }

  /** A tag that announces no content at all, with an INTEGER behind it, is accepted. */
  lemma TagAnnouncesNothing()
    ensures var s: Octets := [0xA0, 0x00, 0x02, 0x01, 0x02];
            ExplicitAt(s, 0, UNIVERSAL, INTEGER) == Some(Extent(4, 1))
            && TlvAt(s, CONTEXT_SPECIFIC, 0) == Some(Extent(2, 0))
  {
    hide TlvAt;
    var s: Octets := [0xA0, 0x00, 0x02, 0x01, 0x02];
    assert LengthOctets(0) == [0] && LengthOctets(1) == [1];
    assert s[..2] == Header(CONTEXT_SPECIFIC, true, 0, 0);
    assert s[2..4] == Header(UNIVERSAL, false, INTEGER, 1);
    ExplicitHere(s, 0, UNIVERSAL, INTEGER, Extent(4, 1), Extent(2, 0));
  }
}
