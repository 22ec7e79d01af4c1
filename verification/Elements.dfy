/** Elements that are a header of known class and number around content of some kind, and lists of elements. */
module Elements {
  import opened Bytes
  import opened Der
  import opened Containers
  import opened Names

  /** What an optional part eats. */
  function Eaten(r: Option<nat>): nat {
    if r.Some? then r.value else 0
  }

  /** Size of an element whose content is of the kind, if the buffer begins with one. */
  ghost function ElementAt(cls: nat, tag: nat, kind: Octets -> bool, s: Octets): (r: Option<nat>)
    ensures r.Some? ==> 1 <= r.value <= |s|
  {
    var e :- TlvAt(s, cls, tag);
    if kind(s[e.header..e.Total()]) then Some(e.Total()) else None
  }

  ghost function ElementOf(cls: nat, tag: nat, kind: Octets -> bool): (p: ElementParser)
    ensures forall s :: p(s) == ElementAt(cls, tag, kind, s)
  {
    s => ElementAt(cls, tag, kind, s)
  }

  lemma ElementOfStable(cls: nat, tag: nat, kind: Octets -> bool)
    ensures Stable(ElementOf(cls, tag, kind))
  {
    hide TlvAt;
    forall s: Octets, rest: Octets, n: nat | n <= |s|
      ensures ElementAt(cls, tag, kind, s) == Some(n) <==> ElementAt(cls, tag, kind, s + rest) == Some(n)
    {
      ElementStable(s, rest, cls, tag, n);
    }
  }

  /** The whole elements are the encodings of content of the kind, with either constructed bit. */
  lemma ElementOfWhole(cls: nat, tag: nat, kind: Octets -> bool, part: Octets)
    requires cls < 4 && tag < 31
    ensures Whole(ElementOf(cls, tag, kind), part) <==>
            exists p, content :: |content| < U32_LIMIT && kind(content) && part == Tlv(cls, p, tag, content)
  {
    hide TlvAt, Header;
    if Whole(ElementOf(cls, tag, kind), part) {
      var e := TlvAt(part, cls, tag).value;
      AcceptsExactlyEncodings(part, cls, tag, e);
      var p :| part[..e.header] == Header(cls, p, tag, e.content);
      var content := part[e.header..e.Total()];
      assert part == part[..e.header] + content;
      assert part == Tlv(cls, p, tag, content);
    }
    if p, content :| |content| < U32_LIMIT && kind(content) && part == Tlv(cls, p, tag, content) {
      EncodedIsWhole(cls, p, tag, kind, content);
    }
  }

  lemma EncodedIsWhole(cls: nat, p: bool, tag: nat, kind: Octets -> bool, content: Octets)
    requires cls < 4 && tag < 31 && |content| < U32_LIMIT && kind(content)
    ensures Whole(ElementOf(cls, tag, kind), Tlv(cls, p, tag, content))
  {
    hide TlvAt, Header;
    var part := Tlv(cls, p, tag, content);
    EncodeThenParse(cls, p, tag, content, []);
    assert part + [] == part;
  }

  /** An element that fills its buffer is its header octets, for some constructed bit, and its content. */
  lemma FillsBuffer(s: Octets, cls: nat, tag: nat) returns (p: bool, content: Octets)
    requires cls < 4 && tag < 31 && TlvAt(s, cls, tag).Some? && TlvAt(s, cls, tag).value.Total() == |s|
    ensures |content| < U32_LIMIT && s == Tlv(cls, p, tag, content)
    ensures var e := TlvAt(s, cls, tag).value; content == s[e.header..] && content == s[e.header..e.Total()]
  {
    hide TlvAt, Header;
    var e := TlvAt(s, cls, tag).value;
    AcceptsExactlyEncodings(s, cls, tag, e);
    p :| s[..e.header] == Header(cls, p, tag, e.content);
    content := s[e.header..];
    assert s == s[..e.header] + content;
  }

  lemma EncodedFills(cls: nat, p: bool, tag: nat, content: Octets)
    requires cls < 4 && tag < 31 && |content| < U32_LIMIT
    ensures var s := Tlv(cls, p, tag, content);
            && TlvAt(s, cls, tag).Some?
            && var e := TlvAt(s, cls, tag).value;
               && e.Total() == |s| && e.content == |content|
               && s[e.header..] == content && s[e.header..e.Total()] == content
  {
    hide TlvAt, Header;
    EncodeThenParse(cls, p, tag, content, []);
    var s := Tlv(cls, p, tag, content);
    assert s + [] == s;
  }

  /** An element of another class or of another low number does not begin here. */
  lemma OtherTag(s: Octets, cls: nat, tag: nat)
    requires s != [] && s[0] % 32 != 31 && (s[0] % 32 != tag || s[0] / 64 != cls)
    ensures TlvAt(s, cls, tag).None?
  {
  }

  lemma OtherElement(cls: nat, p: bool, tag: nat, content: Octets, rest: Octets, cls': nat, tag': nat)
    requires cls < 4 && tag < 31 && |content| < U32_LIMIT && (cls != cls' || tag != tag')
    ensures TlvAt(Tlv(cls, p, tag, content) + rest, cls', tag').None?
  {
    hide TlvAt, LengthOctets;
    var s := Tlv(cls, p, tag, content) + rest;
    var id := cls * 64 + (if p then 32 else 0) + tag;
    assert s[0] == id;
    assert id % 32 == tag && id / 64 == cls;
    OtherTag(s, cls', tag');
  }

  lemma NoElement(cls: nat, tag: nat)
    ensures TlvAt([], cls, tag).None?
  {
  }

  /** The loop over a list succeeds exactly on concatenations of whole elements. */
  lemma ListExact(p: ElementParser, s: Octets)
    requires Stable(p)
    ensures Split(p, s).Some? <==> exists parts :: AllWhole(p, parts) && Concat(parts) == s
  {
    if Split(p, s).Some? {
      var parts := Split(p, s).value;
      SplitExact(p, s, parts);
      assert AllWhole(p, parts);
    }
    if parts :| AllWhole(p, parts) && Concat(parts) == s {
      SplitExact(p, s, parts);
    }
  }
}
