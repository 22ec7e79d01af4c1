/** Certificate extensions: one element, the list of identifiers already met, and the loop over the list
    (section 4.2 of RFC 5280). */
module Extensions {
  import opened Bytes
  import opened Der
  import opened Containers
  import opened Names

  /** What the extension handlers leave in the parsing context and later checks read. */
  datatype Flags = Flags(
    hasSan: bool,
    sanCritical: bool,
    caTrue: bool,
    bcCritical: bool,
    pathLenConstraint: bool,
    keyCertSign: bool,
    crlSign: bool,
    hasCrldp: bool,
    oneCrldpHasAllReasons: bool,
    hasNameConstraints: bool)

  /** The table of known identifiers, and the handlers as one function of the flags, the table index (None for
      an identifier outside the table), the value octets and the critical bit. */
  datatype Registry = Registry(known: seq<Octets>, handle: (Flags, Option<nat>, Octets, bool) -> Option<Flags>)

  datatype Extension = Extension(eaten: nat, oid: Octets, critical: bool, value: Octets)

  // ---------------------------------------------------------------- one extension

  const TRUE: byte := 0xFF
  const BOOLEAN: byte := 0x01

  predicate BooleanAt(s: Octets) {
    |s| >= 3 && s[0] == BOOLEAN && s[1] == 1 && (s[2] == 0 || s[2] == TRUE)
  }

  method ParseBoolean(buf: Octets) returns (eaten: Option<nat>)
    ensures eaten == if BooleanAt(buf) then Some(3) else None
  {
    if |buf| < 3 {
      return None;
    }
    if buf[0] != BOOLEAN || buf[1] != 0x01 {
      return None;
    }
    if buf[2] != 0x00 && buf[2] != 0xff {
      return None;
    }
    return Some(3);
  }

  /** A BOOLEAN marks the extension critical whichever of its two values it holds. */
  function ExtensionAt(s: Octets): (r: Option<Extension>)
    ensures r.Some? ==> 1 <= r.value.eaten <= |s|
  {
    var e :- TlvAt(s, UNIVERSAL, SEQUENCE);
    var body := s[e.header..e.Total()];
    var n :- OidAt(body);
    var (critical, value) :- FieldsAt(body[n..]);
    Some(Extension(e.Total(), body[..n], critical, value))
  }

  /** What follows the identifier: an optional BOOLEAN and an OCTET STRING up to the end. */
  function FieldsAt(rest: Octets): Option<(bool, Octets)> {
    var critical := BooleanAt(rest);
    if !critical && rest != [] && rest[0] == BOOLEAN then None
    else
      var tail := if critical then rest[3..] else rest;
      var o :- TlvAt(tail, UNIVERSAL, OCTET_STRING);
      if o.Total() != |tail| then None else Some((critical, tail[o.header..]))
  }

  function ExtensionEaten(s: Octets): (r: Option<nat>)
    ensures r.Some? ==> 1 <= r.value <= |s|
  {
    var x :- ExtensionAt(s);
    Some(x.eaten)
  }

  function ExtensionParser(): (p: ElementParser)
    ensures forall s :: p(s) == ExtensionEaten(s)
  {
    s => ExtensionEaten(s)
  }

  function Find(known: seq<Octets>, oid: Octets): (r: Option<nat>)
    ensures r.Some? ==> r.value < |known| && known[r.value] == oid && oid !in known[..r.value]
    ensures r.None? ==> oid !in known
  {
    FindFrom(known, oid, 0)
  }

  function FindFrom(known: seq<Octets>, oid: Octets, k: nat): (r: Option<nat>)
    requires k <= |known|
    ensures r.Some? ==> k <= r.value < |known| && known[r.value] == oid && oid !in known[k..r.value]
    ensures r.None? ==> oid !in known[k..]
    decreases |known| - k
  {
    if k == |known| then None
    else if known[k] == oid then Some(k)
    else
      assert known[k..] == [known[k]] + known[k + 1..];
      assert forall j :: k < j <= |known| ==> known[k..j] == [known[k]] + known[k + 1..j];
      FindFrom(known, oid, k + 1)
  }

  method FindExtByOid(known: seq<Octets>, oid: Octets) returns (found: Option<nat>)
    ensures found == Find(known, oid)
  {
    var k := 0;
    while k < |known|
      invariant k <= |known|
      invariant FindFrom(known, oid, k) == Find(known, oid)
    {
      if |known[k]| == |oid| && known[k] == oid {
        return Some(k);
      }
      k := k + 1;
    }
    return None;
  }

  // ---------------------------------------------------------------- the list of identifiers met

  /** What recording an identifier can answer. */
  datatype Recording = Recorded | Duplicate | Full

  ghost predicate Distinct<T>(s: seq<T>) {
    forall i, j :: 0 <= i < j < |s| ==> s[i] != s[j]
  }

  /** The list is `seen` followed by empty places; `seen` holds table indices, no two equal. */
  ghost predicate Holds(list: seq<Option<nat>>, seen: seq<nat>) {
    && |seen| <= |list|
    && (forall i :: 0 <= i < |seen| ==> list[i] == Some(seen[i]) && seen[i] < |list|)
    && (forall i :: |seen| <= i < |list| ==> list[i] == None)
    && Distinct(seen)
  }

  method CheckRecordExtUnknown(ext: nat, list: array<Option<nat>>, ghost seen: seq<nat>) returns (r: Recording)
    requires Holds(list[..], seen) && ext < list.Length
    modifies list
    ensures r == Duplicate <==> ext in seen
    ensures r == Recorded <==> ext !in seen
    ensures r == Recorded ==> Holds(list[..], seen + [ext])
    ensures r != Recorded ==> list[..] == old(list[..])
  {
    var pos := 0;
    while pos < list.Length
      invariant pos <= |seen| && list[..] == old(list[..])
      invariant ext !in seen[..pos]
    {
      if list[pos].None? {
        assert pos == |seen| && seen[..pos] == seen;
        list[pos] := Some(ext);
        assert forall i :: 0 <= i < |seen| ==> list[i] == old(list[i]);
        return Recorded;
      }
      if Some(ext) == list[pos] {
        return Duplicate;
      }
      assert seen[..pos + 1] == seen[..pos] + [seen[pos]];
      pos := pos + 1;
    }
    assert seen[..pos] == seen;
    FullListHoldsAll(seen, list.Length, ext);
    assert false;
    return Full;
  }

  /** Pigeonhole: as many distinct indices as the table has entries are all of them, so a full list already
      holds whatever is asked about and the capacity error cannot be reached. */
  lemma FullListHoldsAll(seen: seq<nat>, n: nat, ext: nat)
    requires Distinct(seen) && |seen| == n && ext < n
    requires forall i :: 0 <= i < n ==> seen[i] < n
    ensures ext in seen
  {
    DistinctCardinality(seen);
    if ext !in seen {
      SubsetCardinality(Elements(seen), Below(n) - {ext});
    }
  }

  function Elements(s: seq<nat>): (r: set<nat>)
    ensures forall x: nat :: x in r <==> x in s
  {
    if s == [] then {}
    else
      assert s == s[..|s| - 1] + [s[|s| - 1]];
      Elements(s[..|s| - 1]) + {s[|s| - 1]}
  }

  function Below(n: nat): (s: set<nat>)
    ensures |s| == n
    ensures forall x: nat :: x in s <==> x < n
  {
    if n == 0 then {} else Below(n - 1) + {n - 1}
  }

  lemma {:induction false} DistinctCardinality(s: seq<nat>)
    requires Distinct(s)
    ensures |Elements(s)| == |s|
  {
    if s != [] {
      DistinctCardinality(s[..|s| - 1]);
    }
  }

  lemma {:induction false} SubsetCardinality(a: set<nat>, b: set<nat>)
    requires a <= b
    ensures |a| <= |b|
  {
    if a != {} {
      var x :| x in a;
      SubsetCardinality(a - {x}, b - {x});
    }
  }

  // ---------------------------------------------------------------- the loop

  datatype Progress = Progress(eaten: nat, seen: seq<nat>, flags: Flags)

  /** One extension against the identifiers met so far. */
  function Step(reg: Registry, s: Octets, seen: seq<nat>, flags: Flags): (r: Option<Progress>)
    ensures r.Some? ==> 1 <= r.value.eaten <= |s|
  {
    var x :- ExtensionAt(s);
    var id := Find(reg.known, x.oid);
    if id.Some? && id.value in seen then None
    else
      var flags' :- reg.handle(flags, id, x.value, x.critical);
      Some(Progress(x.eaten, if id.Some? then seen + [id.value] else seen, flags'))
  }

  function Loop(reg: Registry, s: Octets, seen: seq<nat>, flags: Flags): Option<Flags>
    decreases |s|
  {
    if s == [] then Some(flags)
    else
      var p :- Step(reg, s, seen, flags);
      Loop(reg, s[p.eaten..], p.seen, p.flags)
  }

  function ExtensionsAt(reg: Registry, s: Octets, emptySubject: bool, flags: Flags): (r: Option<(nat, Flags)>)
    ensures r.Some? ==> 1 <= r.value.0 <= |s|
  {
    var x :- ExplicitAt(s, 3, UNIVERSAL, SEQUENCE);
    if x.content == 0 then None
    else
      var f :- Loop(reg, s[x.header..x.Total()], [], flags);
      if emptySubject && !(f.hasSan && f.sanCritical) then None else Some((x.Total(), f))
  }

  /** The part of `parse_x509_cert_Extension` after the identifier has been recorded. */
  method ParseFields(rest: Octets) returns (r: Option<(bool, Octets)>)
    ensures r == FieldsAt(rest)
  {
    hide TlvAt;
    var buf := rest;
    var critical := false;
    var parsed := ParseBoolean(buf);
    if parsed.None? {
      if |buf| > 0 && buf[0] == BOOLEAN {
        return None;
      }
    } else {
      critical := true;
      buf := buf[parsed.value..];
    }
    var o := ParseIdLen(buf, UNIVERSAL, OCTET_STRING);
    if o.None? {
      return None;
    }
    buf := buf[o.value.header..];
    if o.value.content != |buf| {
      return None;
    }
    return Some((critical, buf));
  }

  method ParseExtension(reg: Registry, input: Octets, list: array<Option<nat>>, ghost seen: seq<nat>, flags: Flags)
    returns (r: Option<(nat, Flags)>)
    requires Holds(list[..], seen) && list.Length == |reg.known|
    modifies list
    ensures r.None? <==> Step(reg, input, seen, flags).None?
    ensures r.Some? ==>
              var p := Step(reg, input, seen, flags).value;
              r.value == (p.eaten, p.flags) && Holds(list[..], p.seen)
  {
    hide TlvAt, OidAt, Holds, Find, FieldsAt;
    if |input| == 0 {
      return None;
    }
    var e := ParseIdLen(input, UNIVERSAL, SEQUENCE);
    if e.None? {
      return None;
    }
    var body := input[e.value.header..e.value.Total()];
    var oidLen := ParseOid(body);
    if oidLen.None? {
      return None;
    }
    var oid := body[..oidLen.value];
    var ext := FindExtByOid(reg.known, oid);
    ghost var seen' := seen;
    if ext.Some? {
      var recording := CheckRecordExtUnknown(ext.value, list, seen);
      if recording != Recorded {
        return None;
      }
      seen' := seen + [ext.value];
    }
    var fields := ParseFields(body[oidLen.value..]);
    if fields.None? {
      return None;
    }
    var (critical, buf) := fields.value;
    var handled := reg.handle(flags, ext, buf, critical);
    if handled.None? {
      return None;
    }
    return Some((e.value.Total(), handled.value));
  }

  method ParseExtensions(reg: Registry, input: Octets, emptySubject: bool, flags: Flags)
    returns (r: Option<(nat, Flags)>)
    ensures r == ExtensionsAt(reg, input, emptySubject, flags)
  {
    hide TlvAt, ExtensionAt, ExplicitAt, Step, Distinct;
    if |input| == 0 {
      return None;
    }
    var x := ParseExplicitIdLen(input, 3, UNIVERSAL, SEQUENCE);
    if x.None? || x.value.content == 0 {
      return None;
    }
    var remain := x.value.content;
    var buf := input[x.value.header..x.value.header + remain];
    ghost var content, seen := buf, [];
    var list := new Option<nat>[|reg.known|](_ => None);
    NothingSeen(list[..]);
    var f := flags;
    while remain > 0
      invariant remain == |buf|
      invariant Holds(list[..], seen)
      invariant Loop(reg, buf, seen, f) == Loop(reg, content, [], flags)
      decreases remain
    {
      var step := ParseExtension(reg, buf, list, seen, f);
      if step.None? {
        return None;
      }
      seen := Step(reg, buf, seen, f).value.seen;
      f := step.value.1;
      remain := remain - step.value.0;
      buf := buf[step.value.0..];
    }
    if emptySubject {
      if !f.hasSan {
        return None;
      }
      if !f.sanCritical {
        return None;
      }
    }
    return Some((x.value.Total(), f));
  }

  lemma NothingSeen(list: seq<Option<nat>>)
    requires forall i :: 0 <= i < |list| ==> list[i] == None
    ensures Holds(list, [])
  {
  }

  // ---------------------------------------------------------------- what acceptance means

  /** Handlers run over the elements one after another. */
  function Chain(reg: Registry, parts: seq<Octets>, flags: Flags): Option<Flags> {
    if parts == [] then Some(flags)
    else
      var x :- ExtensionAt(parts[0]);
      var f :- reg.handle(flags, Find(reg.known, x.oid), x.value, x.critical);
      Chain(reg, parts[1..], f)
  }

  /** The encoded identifier of an extension element. */
  function OidOf(part: Octets): Octets {
    match ExtensionAt(part) case None => [] case Some(x) => x.oid
  }

  /** Identifiers of the table: none in `met` already, and none twice among the elements. */
  ghost predicate NoRepeat(reg: Registry, met: seq<nat>, parts: seq<Octets>) {
    && (forall i :: 0 <= i < |parts| && Find(reg.known, OidOf(parts[i])).Some? ==>
        Find(reg.known, OidOf(parts[i])).value !in met)
    && (forall i, j :: 0 <= i < j < |parts| && OidOf(parts[i]) in reg.known ==> OidOf(parts[i]) != OidOf(parts[j]))
  }

  lemma ExtensionStable(s: Octets, rest: Octets, n: nat)
    requires n <= |s|
    ensures ExtensionEaten(s) == Some(n) <==> ExtensionEaten(s + rest) == Some(n)
    ensures ExtensionEaten(s) == Some(n) ==> ExtensionAt(s) == ExtensionAt(s + rest)
  {
    hide TlvAt, OidAt, BooleanAt;
    ElementStable(s, rest, UNIVERSAL, SEQUENCE, n);
    if ExtensionEaten(s) == Some(n) {
      var e := TlvAt(s, UNIVERSAL, SEQUENCE).value;
      assert s[e.header..e.Total()] == (s + rest)[e.header..e.Total()];
    }
  }

  lemma ExtensionsStable()
    ensures Stable(ExtensionParser())
  {
    hide ExtensionEaten, ExtensionAt;
    forall s: Octets, rest: Octets, n: nat | n <= |s|
      ensures ExtensionEaten(s) == Some(n) <==> ExtensionEaten(s + rest) == Some(n)
    {
      ExtensionStable(s, rest, n);
    }
  }

  lemma SameIndex(known: seq<Octets>, a: Octets, b: Octets)
    ensures Find(known, a).Some? ==> (Find(known, a) == Find(known, b) <==> a == b)
    ensures Find(known, a).Some? <==> a in known
  {
  }

  /** Splitting the tail of the elements keeps `NoRepeat` step by step. */
  lemma NoRepeatStep(reg: Registry, met: seq<nat>, parts: seq<Octets>)
    requires parts != []
    ensures var id := Find(reg.known, OidOf(parts[0]));
            NoRepeat(reg, met, parts) <==>
            && (id.Some? ==> id.value !in met)
            && NoRepeat(reg, if id.Some? then met + [id.value] else met, parts[1..])
  {
    hide OidOf, Find;
    var id := Find(reg.known, OidOf(parts[0]));
    var met' := if id.Some? then met + [id.value] else met;
    if NoRepeat(reg, met, parts) {
      assert forall i :: 0 <= i < |parts[1..]| ==> parts[1..][i] == parts[i + 1];
      forall i | 0 <= i < |parts[1..]| && Find(reg.known, OidOf(parts[1..][i])).Some?
        ensures Find(reg.known, OidOf(parts[1..][i])).value !in met'
      {
        var oid := OidOf(parts[i + 1]);
        assert Find(reg.known, oid).value !in met;
        SameIndex(reg.known, OidOf(parts[0]), oid);
      }
    }
    if (id.Some? ==> id.value !in met) && NoRepeat(reg, met', parts[1..]) {
      forall i | 0 <= i < |parts| && Find(reg.known, OidOf(parts[i])).Some?
        ensures Find(reg.known, OidOf(parts[i])).value !in met
      {
        if i > 0 {
          assert parts[i] == parts[1..][i - 1];
        }
      }
      forall i, j | 0 <= i < j < |parts| && OidOf(parts[i]) in reg.known
        ensures OidOf(parts[i]) != OidOf(parts[j])
      {
        assert parts[j] == parts[1..][j - 1];
        if i == 0 {
          SameIndex(reg.known, OidOf(parts[0]), OidOf(parts[j]));
        } else {
          assert parts[i] == parts[1..][i - 1];
        }
      }
    }
  }

  /** The loop accepts exactly the concatenations of extension elements in which no identifier of the table
      occurs twice (nor was met before) and whose handlers all agree. */
  lemma {:induction false} LoopExact(reg: Registry, s: Octets, met: seq<nat>, flags: Flags)
    ensures Loop(reg, s, met, flags).Some? <==>
            var parts := Split(ExtensionParser(), s);
            parts.Some? && NoRepeat(reg, met, parts.value) && Chain(reg, parts.value, flags).Some?
    ensures Loop(reg, s, met, flags).Some? ==>
              Loop(reg, s, met, flags) == Chain(reg, Split(ExtensionParser(), s).value, flags)
    decreases |s|
  {
    hide ExtensionAt, NoRepeat, Find, ExtensionParser, Split;
    var p := ExtensionParser();
    SplitStep(p, s);
    if s == [] {
      NothingRepeats(reg, met);
    } else if ExtensionAt(s).Some? {
      var x := ExtensionAt(s).value;
      var id := Find(reg.known, x.oid);
      var head, tail := s[..x.eaten], s[x.eaten..];
      assert s == head + tail;
      ExtensionStable(head, tail, x.eaten);
      assert ExtensionAt(head) == Some(x) && OidOf(head) == x.oid;
      if Split(p, tail).Some? {
        var parts := SplitHead(p, s);
        NoRepeatStep(reg, met, parts);
      }
      var f := reg.handle(flags, id, x.value, x.critical);
      if f.Some? {
        LoopExact(reg, tail, if id.Some? then met + [id.value] else met, f.value);
      }
    }
  }

  lemma NothingRepeats(reg: Registry, met: seq<nat>)
    ensures NoRepeat(reg, met, [])
  {
  }

  /** An accepted extension list is cut into extension elements in one way, and no two of them carry the same
      identifier of the table. */
  lemma NoKnownExtensionTwice(reg: Registry, s: Octets, emptySubject: bool, flags: Flags)
    returns (x: Extent, parts: seq<Octets>)
    requires ExtensionsAt(reg, s, emptySubject, flags).Some?
    ensures ExplicitAt(s, 3, UNIVERSAL, SEQUENCE) == Some(x)
    ensures x.Total() == ExtensionsAt(reg, s, emptySubject, flags).value.0
    ensures Concat(parts) == s[x.header..x.Total()] && AllWhole(ExtensionParser(), parts) && parts != []
    ensures forall i, j :: 0 <= i < j < |parts| && OidOf(parts[i]) in reg.known ==> OidOf(parts[i]) != OidOf(parts[j])
    ensures Chain(reg, parts, flags) == Some(ExtensionsAt(reg, s, emptySubject, flags).value.1)
  {
    hide ExtensionAt, ExplicitAt, Loop, ExtensionParser, OidOf, Chain;
    x := ExplicitAt(s, 3, UNIVERSAL, SEQUENCE).value;
    var content := s[x.header..x.Total()];
    LoopExact(reg, content, [], flags);
    ExtensionsStable();
    parts := Split(ExtensionParser(), content).value;
    SplitExact(ExtensionParser(), content, parts);
  }

  // ---------------------------------------------------------------- the explicit tag

  /** Which length the tag announces makes no difference, as long as it fits: extensions are accepted under one
      announcement exactly when they are under any other, with the same flags and the same octets used. */
  lemma AnyAnnouncement(reg: Registry, p: bool, a: nat, b: nat, inner: Octets, emptySubject: bool, flags: Flags)
    requires a <= |inner| && b <= |inner| && a < U32_LIMIT && b < U32_LIMIT
    ensures var g, h := Header(CONTEXT_SPECIFIC, p, 3, a), Header(CONTEXT_SPECIFIC, p, 3, b);
            var x := ExtensionsAt(reg, g + inner, emptySubject, flags);
            var y := ExtensionsAt(reg, h + inner, emptySubject, flags);
            && (x.Some? <==> y.Some?)
            && (x.Some? ==> x.value.1 == y.value.1 && x.value.0 - |g| == y.value.0 - |h|)
  {
    hide TlvAt, Header, ExplicitAt, Loop;
    var g, h := Header(CONTEXT_SPECIFIC, p, 3, a), Header(CONTEXT_SPECIFIC, p, 3, b);
    AnnouncementIsFree(p, 3, a, inner, UNIVERSAL, SEQUENCE);
    AnnouncementIsFree(p, 3, b, inner, UNIVERSAL, SEQUENCE);
    if TlvAt(inner, UNIVERSAL, SEQUENCE).Some? {
      var i := TlvAt(inner, UNIVERSAL, SEQUENCE).value;
      assert (g + inner)[|g| + i.header..|g| + i.Total()] == inner[i.header..i.Total()];
      assert (h + inner)[|h| + i.header..|h| + i.Total()] == inner[i.header..i.Total()];
    }
  }

  /** Accepted extensions are a SEQUENCE inside a tagged element exactly when the tag announces all they use. */
  lemma TagTiedExactly(reg: Registry, s: Octets, emptySubject: bool, flags: Flags)
    requires ExtensionsAt(reg, s, emptySubject, flags).Some?
    ensures TlvAt(s, CONTEXT_SPECIFIC, 3).Some?
    ensures var n := ExtensionsAt(reg, s, emptySubject, flags).value.0;
            TlvAt(s, CONTEXT_SPECIFIC, 3).value.Total() == n <==>
            exists p, q, content ::
              && |content| < U32_LIMIT && |Tlv(UNIVERSAL, q, SEQUENCE, content)| < U32_LIMIT
              && s[..n] == Tlv(CONTEXT_SPECIFIC, p, 3, Tlv(UNIVERSAL, q, SEQUENCE, content))
  {
    hide TlvAt, Header, Loop;
    var o := TlvAt(s, CONTEXT_SPECIFIC, 3).value;
    var x := ExplicitAt(s, 3, UNIVERSAL, SEQUENCE).value;
    ExplicitHere(s, 3, UNIVERSAL, SEQUENCE, x, o);
    ExplicitTiedExactly(s, 3, UNIVERSAL, SEQUENCE, x, o);
    if p, q, content :| |content| < U32_LIMIT && |Tlv(UNIVERSAL, q, SEQUENCE, content)| < U32_LIMIT
                        && s[..x.Total()] == Tlv(CONTEXT_SPECIFIC, p, 3, Tlv(UNIVERSAL, q, SEQUENCE, content)) {
      EncodeThenParse(CONTEXT_SPECIFIC, p, 3, Tlv(UNIVERSAL, q, SEQUENCE, content), s[x.Total()..]);
      assert s == s[..x.Total()] + s[x.Total()..];
    }
  }
}
