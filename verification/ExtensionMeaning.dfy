/** What the flags of an accepted certificate say about its extensions, and the rules for authorities that follow. */
module ExtensionMeaning {
  import opened Bytes
  import opened Bits
  import opened Der
  import opened Containers
  import opened Names
  import opened GeneralNames
  import opened GeneralNamesRoundTrip
  import opened DistributionPoints
  import opened DistributionPointsRoundTrip
  import opened Extensions
  import opened ExtensionHandlers
  import opened ExtensionsRoundTrip
  import opened Certificate
  import opened CertificateLayout

  // ---------------------------------------------------------------- looking extensions up

  function IndexOf(known: seq<Octets>, part: Octets): Option<nat> {
    Find(known, OidOf(part))
  }

  /** The first extension with an index of the table. */
  function First(known: seq<Octets>, parts: seq<Octets>, k: nat): Option<Extension> {
    if parts == [] then None
    else if ExtensionAt(parts[0]).Some? && IndexOf(known, parts[0]) == Some(k) then ExtensionAt(parts[0])
    else First(known, parts[1..], k)
  }

  predicate IsPoints(id: Option<nat>) {
    id == Some(CRLDP) || id == Some(FRESHEST_CRL)
  }

  /** The last extension that lists distribution points, under either of its two identifiers. */
  function LastPoints(known: seq<Octets>, parts: seq<Octets>): Option<Extension> {
    if parts == [] then None
    else if LastPoints(known, parts[1..]).Some? then LastPoints(known, parts[1..])
    else if IsPoints(IndexOf(known, parts[0])) then ExtensionAt(parts[0])
    else None
  }

  /** An extension is found under an index exactly when some part carries it. */
  lemma {:induction false} FirstExact(known: seq<Octets>, parts: seq<Octets>, k: nat)
    ensures First(known, parts, k).Some? ==>
              exists i :: 0 <= i < |parts| && ExtensionAt(parts[i]) == First(known, parts, k)
                          && IndexOf(known, parts[i]) == Some(k)
    ensures First(known, parts, k).None? ==>
              forall i :: 0 <= i < |parts| && ExtensionAt(parts[i]).Some? ==> IndexOf(known, parts[i]) != Some(k)
  {
    hide ExtensionAt, IndexOf;
    if parts != [] {
      FirstExact(known, parts[1..], k);
      assert forall i :: 0 < i < |parts| ==> parts[i] == parts[1..][i - 1];
      if First(known, parts[1..], k).Some? {
        var x := First(known, parts[1..], k).value;
        var i :| 0 <= i < |parts[1..]| && ExtensionAt(parts[1..][i]) == Some(x)
                 && IndexOf(known, parts[1..][i]) == Some(k);
        assert parts[i + 1] == parts[1..][i];
      }
    }
  }

  // ---------------------------------------------------------------- acceptance and flags, without order

  /** The handler of the part's identifier takes its value. */
  ghost predicate Taken(table: Table, others: Others, known: seq<Octets>, part: Octets) {
    var x := ExtensionAt(part);
    x.Some? && Takes(table, others, IndexOf(known, part), x.value.value, x.value.critical)
  }

  ghost predicate AllTaken(table: Table, others: Others, known: seq<Octets>, parts: seq<Octets>) {
    forall i :: 0 <= i < |parts| ==> Taken(table, others, known, parts[i])
  }

  predicate Critical(x: Option<Extension>) {
    x.Some? && x.value.critical
  }

  predicate Authority(x: Option<Extension>) {
    x.Some? && IsCa(x.value.value)
  }

  predicate PathLimit(x: Option<Extension>) {
    x.Some? && LimitsPath(x.value.value)
  }

  predicate Grants(x: Option<Extension>, bit: nat) {
    x.Some? && Usage(x.value.value, bit)
  }

  ghost predicate AllReasons(table: Table, x: Option<Extension>) {
    x.Some? && CrldpValue(table, x.value.value) == Some(true)
  }

  /** The flags that the extensions, each taken for itself, stand for. */
  ghost function FlagsOf(table: Table, known: seq<Octets>, parts: seq<Octets>): Flags {
    var san, basic := First(known, parts, SAN), First(known, parts, BASIC_CONSTRAINTS);
    var usage, points := First(known, parts, KEY_USAGE), LastPoints(known, parts);
    Flags(san.Some?, Critical(san), Authority(basic), Critical(basic), PathLimit(basic), Grants(usage, 5),
          Grants(usage, 6), points.Some?, AllReasons(table, points), First(known, parts, NAME_CONSTRAINTS).Some?)
  }

  datatype Basics = Basics(critical: bool, basic: Basic)
  datatype Uses = Uses(certificates: bool, lists: bool)

  /** What the handlers would write, if anything. */
  function SanMark(x: Option<Extension>): Option<bool> {
    if x.None? then None else Some(x.value.critical)
  }

  function BasicMark(x: Option<Extension>): Option<Basics> {
    if x.None? then None else Some(Basics(x.value.critical, Basic(IsCa(x.value.value), LimitsPath(x.value.value))))
  }

  function UsageMark(x: Option<Extension>): Option<Uses> {
    if x.None? then None else Some(Uses(Usage(x.value.value, 5), Usage(x.value.value, 6)))
  }

  ghost function PointsMark(table: Table, x: Option<Extension>): Option<bool> {
    if x.None? then None else Some(CrldpValue(table, x.value.value) == Some(true))
  }

  /** Flags that are there already, with what is written over them. */
  function Over(f: Flags, san: Option<bool>, basic: Option<Basics>, usage: Option<Uses>, points: Option<bool>,
                constraints: bool)
    : Flags
  {
    Flags(
      f.hasSan || san.Some?,
      if san.Some? then san.value else f.sanCritical,
      f.caTrue || (basic.Some? && basic.value.basic.ca),
      if basic.Some? then basic.value.critical else f.bcCritical,
      f.pathLenConstraint || (basic.Some? && basic.value.basic.pathLen),
      if usage.Some? then usage.value.certificates else f.keyCertSign,
      if usage.Some? then usage.value.lists else f.crlSign,
      f.hasCrldp || points.Some?,
      if points.Some? then points.value else f.oneCrldpHasAllReasons,
      f.hasNameConstraints || constraints)
  }

  ghost function Merged(table: Table, known: seq<Octets>, parts: seq<Octets>, f: Flags): Flags {
    Over(f, SanMark(First(known, parts, SAN)), BasicMark(First(known, parts, BASIC_CONSTRAINTS)),
         UsageMark(First(known, parts, KEY_USAGE)), PointsMark(table, LastPoints(known, parts)),
         First(known, parts, NAME_CONSTRAINTS).Some?)
  }

  lemma {:induction false} NotAgain(reg: Registry, met: seq<nat>, parts: seq<Octets>, k: nat)
    requires NoRepeat(reg, met, parts) && k in met
    ensures First(reg.known, parts, k).None?
    decreases |parts|
  {
    hide NoRepeat, ExtensionAt, Find, OidOf;
    if parts != [] {
      NoRepeatStep(reg, met, parts);
      var id := Find(reg.known, OidOf(parts[0]));
      NotAgain(reg, if id.Some? then met + [id.value] else met, parts[1..], k);
    }
  }

  lemma FirstStep(known: seq<Octets>, parts: seq<Octets>, k: nat)
    requires parts != [] && ExtensionAt(parts[0]).Some?
    ensures First(known, parts, k) ==
            if IndexOf(known, parts[0]) == Some(k) then ExtensionAt(parts[0]) else First(known, parts[1..], k)
  {
    hide ExtensionAt, IndexOf;
  }

  lemma PointsStep(known: seq<Octets>, parts: seq<Octets>)
    requires parts != []
    ensures var rest := LastPoints(known, parts[1..]);
            LastPoints(known, parts) ==
            if rest.Some? then rest else if IsPoints(IndexOf(known, parts[0])) then ExtensionAt(parts[0]) else None
  {
    hide ExtensionAt, IndexOf;
  }

  // Each handler writes what stands for its extension, and nothing else.

  lemma UsageOver(f: Flags, x: Extension, san: Option<bool>, basic: Option<Basics>, points: Option<bool>,
                  constraints: bool)
    ensures Over(AfterUsage(f, x.value), san, basic, None, points, constraints)
         == Over(f, san, basic, UsageMark(Some(x)), points, constraints)
  {
    hide Usage;
  }

  lemma BasicOver(f: Flags, x: Extension, san: Option<bool>, usage: Option<Uses>, points: Option<bool>,
                  constraints: bool)
    ensures Over(AfterBasic(f, x.value, x.critical), san, None, usage, points, constraints)
         == Over(f, san, BasicMark(Some(x)), usage, points, constraints)
  {
    hide IsCa, LimitsPath;
  }

  lemma PointsOver(f: Flags, one: bool, san: Option<bool>, basic: Option<Basics>, usage: Option<Uses>,
                   points: Option<bool>, constraints: bool)
    ensures Over(AfterPoints(f, one), san, basic, usage, points, constraints)
         == Over(f, san, basic, usage, if points.Some? then points else Some(one), constraints)
  {
  }

  lemma MarksOver(f: Flags, x: Extension, san: Option<bool>, basic: Option<Basics>, usage: Option<Uses>,
                  points: Option<bool>, constraints: bool)
    ensures Over(AfterSan(f, x.critical), None, basic, usage, points, constraints)
         == Over(f, SanMark(Some(x)), basic, usage, points, constraints)
    ensures Over(AfterConstraints(f), san, basic, usage, points, false)
         == Over(f, san, basic, usage, points, true)
  {
  }

  /** One extension in front: what its handler leaves, merged with the rest. */
  lemma MergeStep(table: Table, known: seq<Octets>, parts: seq<Octets>, f: Flags)
    requires parts != [] && ExtensionAt(parts[0]).Some?
    requires var id := IndexOf(known, parts[0]); id.Some? ==> First(known, parts[1..], id.value).None?
    ensures var x := ExtensionAt(parts[0]).value;
            Merged(table, known, parts[1..], Effect(table, f, IndexOf(known, parts[0]), x.value, x.critical))
            == Merged(table, known, parts, f)
  {
    hide ExtensionAt, IndexOf, First, LastPoints, CrldpValue, Over, Usage, IsCa, LimitsPath;
    hide AfterUsage, AfterBasic, AfterPoints, AfterSan, AfterConstraints;
    var x, tail := ExtensionAt(parts[0]).value, parts[1..];
    var san, basic := SanMark(First(known, tail, SAN)), BasicMark(First(known, tail, BASIC_CONSTRAINTS));
    var usage, points := UsageMark(First(known, tail, KEY_USAGE)), PointsMark(table, LastPoints(known, tail));
    var constraints := First(known, tail, NAME_CONSTRAINTS).Some?;
    FirstStep(known, parts, SAN);
    FirstStep(known, parts, BASIC_CONSTRAINTS);
    FirstStep(known, parts, KEY_USAGE);
    FirstStep(known, parts, NAME_CONSTRAINTS);
    PointsStep(known, parts);
    UsageOver(f, x, san, basic, points, constraints);
    BasicOver(f, x, san, usage, points, constraints);
    PointsOver(f, CrldpValue(table, x.value) == Some(true), san, basic, usage, points, constraints);
    MarksOver(f, x, san, basic, usage, points, constraints);
  }

  /** The handlers over a list without repetitions: they agree exactly when each takes its value, and leave the flags
      of the extensions merged with what was there. */
  lemma {:induction false} ChainMeans(table: Table, others: Others, more: seq<Octets>, met: seq<nat>,
                                      parts: seq<Octets>, f: Flags)
    requires NoRepeat(Handlers(table, others, more), met, parts)
    ensures var known := HANDLED + more;
            Chain(Handlers(table, others, more), parts, f) ==
            if AllTaken(table, others, known, parts) then Some(Merged(table, known, parts, f)) else None
    decreases |parts|
  {
    hide NoRepeat, ExtensionAt, Find, Merged, Effect, Takes, First, LastPoints;
    var reg, known := Handlers(table, others, more), HANDLED + more;
    if parts == [] {
      MergeNothing(table, known, f);
    } else {
      var tail, id := parts[1..], IndexOf(known, parts[0]);
      NoRepeatStep(reg, met, parts);
      var met' := if id.Some? then met + [id.value] else met;
      if id.Some? {
        NotAgain(reg, met', tail, id.value);
      }
      TakenStep(table, others, known, parts);
      if Taken(table, others, known, parts[0]) {
        var x := ExtensionAt(parts[0]).value;
        ChainMeans(table, others, more, met', tail, Effect(table, f, id, x.value, x.critical));
        MergeStep(table, known, parts, f);
      }
    }
  }

  lemma MergeNothing(table: Table, known: seq<Octets>, f: Flags)
    ensures Merged(table, known, [], f) == f
  {
  }

  lemma TakenStep(table: Table, others: Others, known: seq<Octets>, parts: seq<Octets>)
    requires parts != []
    ensures AllTaken(table, others, known, parts) <==>
            Taken(table, others, known, parts[0]) && AllTaken(table, others, known, parts[1..])
  {
    hide Taken;
    assert forall i :: 0 < i < |parts| ==> parts[i] == parts[1..][i - 1];
    assert forall i :: 0 <= i < |parts[1..]| ==> parts[1..][i] == parts[i + 1];
  }

  lemma MergeFresh(table: Table, known: seq<Octets>, parts: seq<Octets>)
    ensures Merged(table, known, parts, FreshFlags()) == FlagsOf(table, known, parts)
  {
    hide First, LastPoints, CrldpValue, Usage, IsCa, LimitsPath;
    var san, basic := First(known, parts, SAN), First(known, parts, BASIC_CONSTRAINTS);
    var usage, points := First(known, parts, KEY_USAGE), LastPoints(known, parts);
    FreshOver(table, san, basic, usage, points, First(known, parts, NAME_CONSTRAINTS).Some?);
  }

  lemma FreshOver(table: Table, san: Option<Extension>, basic: Option<Extension>, usage: Option<Extension>,
                  points: Option<Extension>, constraints: bool)
    ensures Over(FreshFlags(), SanMark(san), BasicMark(basic), UsageMark(usage), PointsMark(table, points), constraints)
         == Flags(san.Some?, Critical(san), Authority(basic), Critical(basic), PathLimit(basic), Grants(usage, 5),
                  Grants(usage, 6), points.Some?, AllReasons(table, points), constraints)
  {
    hide CrldpValue, Usage, IsCa, LimitsPath;
  }

  /** A way to read a block of extensions: whole elements, no known identifier twice, each value taken by its
      handler. */
  ghost predicate Block(table: Table, others: Others, more: seq<Octets>, content: Octets, parts: seq<Octets>) {
    && AllWhole(ExtensionParser(), parts) && Concat(parts) == content
    && NoRepeat(Handlers(table, others, more), [], parts)
    && AllTaken(table, others, HANDLED + more, parts)
  }

  /** A block of extensions is accepted exactly when it can be read that way and an empty subject comes with a critical
      alternative name; the flags are those of the extensions, each taken for itself. */
  lemma BlockExact(table: Table, others: Others, more: seq<Octets>, s: Octets, emptySubject: bool, n: nat, g: Flags)
    ensures ExtensionsAt(Handlers(table, others, more), s, emptySubject, FreshFlags()) == Some((n, g)) <==>
            exists x: Extent, parts ::
              && ExplicitAt(s, 3, UNIVERSAL, SEQUENCE) == Some(x) && x.content > 0 && n == x.Total()
              && Block(table, others, more, s[x.header..x.Total()], parts)
              && g == FlagsOf(table, HANDLED + more, parts)
              && (emptySubject ==> g.hasSan && g.sanCritical)
  {
    hide ExplicitAt, Block, Loop, FlagsOf;
    var reg := Handlers(table, others, more);
    if ExplicitAt(s, 3, UNIVERSAL, SEQUENCE).Some? {
      var x := ExplicitAt(s, 3, UNIVERSAL, SEQUENCE).value;
      var content := s[x.header..x.Total()];
      if Loop(reg, content, [], FreshFlags()).Some? {
        var parts := BlockFound(table, others, more, content);
      }
      forall parts | Block(table, others, more, content, parts)
        ensures Loop(reg, content, [], FreshFlags()) == Some(FlagsOf(table, HANDLED + more, parts))
      {
        BlockReads(table, others, more, content, parts);
      }
    }
  }

  lemma BlockFound(table: Table, others: Others, more: seq<Octets>, content: Octets) returns (parts: seq<Octets>)
    requires Loop(Handlers(table, others, more), content, [], FreshFlags()).Some?
    ensures Block(table, others, more, content, parts)
  {
    hide Loop, ExtensionParser, NoRepeat, Chain, Split, AllTaken, Merged, Handlers;
    var reg := Handlers(table, others, more);
    LoopExact(reg, content, [], FreshFlags());
    ExtensionsStable();
    parts := Split(ExtensionParser(), content).value;
    SplitExact(ExtensionParser(), content, parts);
    ChainMeans(table, others, more, [], parts, FreshFlags());
  }

  lemma BlockReads(table: Table, others: Others, more: seq<Octets>, content: Octets, parts: seq<Octets>)
    requires Block(table, others, more, content, parts)
    ensures Loop(Handlers(table, others, more), content, [], FreshFlags()) ==
            Some(FlagsOf(table, HANDLED + more, parts))
  {
    hide Loop, ExtensionParser, NoRepeat, Chain, Split, AllTaken, Merged, FlagsOf, Handlers;
    ExtensionsStable();
    SplitExact(ExtensionParser(), content, parts);
    LoopExact(Handlers(table, others, more), content, [], FreshFlags());
    ChainMeans(table, others, more, [], parts, FreshFlags());
    MergeFresh(table, HANDLED + more, parts);
  }

  // ---------------------------------------------------------------- certificates

  /** The rules between extensions that an accepted certificate obeys. */
  ghost predicate Rules(table: Table, known: seq<Octets>, parts: seq<Octets>, emptySubject: bool) {
    var san, basic := First(known, parts, SAN), First(known, parts, BASIC_CONSTRAINTS);
    var usage, points := First(known, parts, KEY_USAGE), LastPoints(known, parts);
    && (Grants(usage, 5) ==> Authority(basic) && Critical(basic))
    && (Grants(usage, 6) ==> !emptySubject)
    && (PathLimit(basic) ==> Authority(basic) && Grants(usage, 5))
    && (First(known, parts, NAME_CONSTRAINTS).Some? ==> Authority(basic))
    && (Authority(basic) && points.Some? ==> AllReasons(table, points))
    && (emptySubject ==> Critical(san))
  }

  /** An accepted certificate with extensions carries a block of them that obeys the rules: signing keys belong to
      critical authorities, constraints to authorities, an empty subject has critical alternative names, and the last
      list of distribution points of an authority has a point for all reasons. */
  lemma AcceptedObeysRules(env: Env, others: Others, more: seq<Octets>, cert: Octets)
    returns (x: Extent, parts: seq<Octets>)
    requires env.reg == Handlers(env.names, others, more)
    requires CertAt(env, cert).Some? && CertAt(env, cert).value.parts.extensions.len > 0
    ensures var t := CertAt(env, cert).value.parts;
            && t.extensions.End() <= |cert|
            && var s := t.extensions.Of(cert);
               && ExplicitAt(s, 3, UNIVERSAL, SEQUENCE) == Some(x) && x.Total() == |s|
               && Block(env.names, others, more, s[x.header..x.Total()], parts)
               && Rules(env.names, HANDLED + more, parts, t.emptySubject)
               && t.flags == FlagsOf(env.names, HANDLED + more, parts)
  {
    hide CertAt, ExtensionsAt, ExplicitAt, Block, FlagsOf, Rules, NameAt, AlgorithmAt, KeyInfoAt, X509Time.ValidityAt,
         Tiled, Consistent;
    SlicesAreElements(env, cert);
    ExtensionsInside(env, cert);
    var t := CertAt(env, cert).value.parts;
    var s := t.extensions.Of(cert);
    BlockExact(env.names, others, more, s, t.emptySubject, |s|, t.flags);
    x, parts :| ExplicitAt(s, 3, UNIVERSAL, SEQUENCE) == Some(x) && x.content > 0 && |s| == x.Total()
                && Block(env.names, others, more, s[x.header..x.Total()], parts)
                && t.flags == FlagsOf(env.names, HANDLED + more, parts)
                && (t.emptySubject ==> t.flags.hasSan && t.flags.sanCritical);
    AcceptedIsConsistent(env, cert);
    RulesFollow(env.names, HANDLED + more, parts, t.emptySubject);
  }

  lemma ExtensionsInside(env: Env, cert: Octets)
    requires CertAt(env, cert).Some?
    ensures CertAt(env, cert).value.parts.extensions.End() <= |cert|
  {
    hide CertAt;
    AcceptedIsTiled(env, cert);
  }

  lemma RulesFollow(table: Table, known: seq<Octets>, parts: seq<Octets>, emptySubject: bool)
    ensures var g := FlagsOf(table, known, parts);
            Rules(table, known, parts, emptySubject) <==>
            Consistent(g, emptySubject) && (emptySubject ==> g.hasSan && g.sanCritical)
  {
    hide First, LastPoints, CrldpValue, Usage, IsCa, LimitsPath;
  }

  lemma AcceptedIsConsistent(env: Env, cert: Octets)
    requires CertAt(env, cert).Some?
    ensures var t := CertAt(env, cert).value.parts; Consistent(t.flags, t.emptySubject)
  {
    hide CertAt, HeadAt, X509Time.ValidityAt, NameAt, KeyInfoAt, TailAt, Consistent;
    var from, mid, to := CertScan(env, cert);
  }

  /** In octets: the key of a certificate may sign certificates when bit 2 of the first octet of bits is set, and lists
      when bit 1 is. */
  lemma GrantsInOctets(v: Octets, e: Extent)
    requires UsageAt(v).Some? && TlvAt(v, UNIVERSAL, BIT_STRING) == Some(e)
    ensures e.Total() == |v| && e.content >= 2
    ensures Usage(v, 5) <==> Bit(v[e.header + 1], 2)
    ensures Usage(v, 6) <==> Bit(v[e.header + 1], 1)
  {
    hide TlvAt, Bit, BitsValue;
    var c := v[e.header..];
    NamedBitMeans(c, 5);
    NamedBitMeans(c, 6);
  }

  // ---------------------------------------------------------------- two lists, one flag

  /** A block with basic constraints of an authority and both lists of points. */
  ghost function TwoLists(table: Table, a: seq<DistPoint>, b: seq<DistPoint>): seq<Ext>
    requires GoodPoints(table, a) && GoodPoints(table, b)
  {
    [Ext(HANDLED[BASIC_CONSTRAINTS], true, CA), Ext(HANDLED[CRLDP], false, PointsOctets(table, a)),
     Ext(HANDLED[FRESHEST_CRL], false, PointsOctets(table, b))]
  }

  /** Basic constraints of an authority without a limit. */
  const CA: Octets := [0x30, 0x03, 0x01, 0x01, 0xff]

  lemma CaReads()
    ensures BasicAt(CA) == Some(Basic(true, false))
  {
    hide TlvAt;
    assert LengthOctets(3) == [3];
    assert CA == Tlv(UNIVERSAL, true, SEQUENCE, [1, 1, 0xff]);
    EncodeThenParse(UNIVERSAL, true, SEQUENCE, [1, 1, 0xff], []);
    assert CA + [] == CA;
  }

  /** The rule that an authority's distribution points cover all reasons is decided by the later of the two lists alone:
      whatever points the first has, the block passes exactly when the second has one for all reasons. */
  lemma LaterListDecides(table: Table, others: Others, more: seq<Octets>, a: seq<DistPoint>, b: seq<DistPoint>)
    requires GoodPoints(table, a) && GoodPoints(table, b) && GoodExts(TwoLists(table, a, b))
    requires |Tlv(UNIVERSAL, true, SEQUENCE, Concat(EncodedExts(TwoLists(table, a, b))))| < U32_LIMIT
    ensures var s := BlockOctets(TwoLists(table, a, b));
            var g := AfterPoints(AfterPoints(AfterBasic(FreshFlags(), CA, true), NamesAll(a)), NamesAll(b));
            && ExtensionsAt(Handlers(table, others, more), s, false, FreshFlags()) == Some((|s|, g))
            && g.caTrue && (Consistent(g, false) <==> NamesAll(b))
  {
    hide ExtensionsAt, GoodExts, BlockOctets, PointsOctets, GoodPoints, NamesAll, EncodedExts, Concat, Tlv;
    var reg, xs := Handlers(table, others, more), TwoLists(table, a, b);
    CaReads();
    CrldpRoundTrip(table, a);
    CrldpRoundTrip(table, b);
    TwoListsRun(table, others, more, a, b);
    BlockRoundTrip(reg, xs, false, FreshFlags());
  }

  lemma TwoListsRun(table: Table, others: Others, more: seq<Octets>, a: seq<DistPoint>, b: seq<DistPoint>)
    requires GoodPoints(table, a) && GoodPoints(table, b)
    ensures var reg, xs := Handlers(table, others, more), TwoLists(table, a, b);
            && Once(reg, xs)
            && Run(reg, xs, FreshFlags())
               == Some(AfterPoints(AfterPoints(AfterBasic(FreshFlags(), CA, true), NamesAll(a)), NamesAll(b)))
  {
    hide PointsOctets, GoodPoints, NamesAll, Find, CrldpValue, BasicAt, Run, HANDLED, AfterBasic, AfterPoints,
         FreshFlags;
    var reg, xs := Handlers(table, others, more), TwoLists(table, a, b);
    HandledAt(BASIC_CONSTRAINTS, more);
    HandledAt(CRLDP, more);
    HandledAt(FRESHEST_CRL, more);
    CaReads();
    CrldpRoundTrip(table, a);
    CrldpRoundTrip(table, b);
    PointsNotEmpty(table, a);
    PointsNotEmpty(table, b);
    var f1 := AfterBasic(FreshFlags(), CA, true);
    var f2 := AfterPoints(f1, NamesAll(a));
    RunStep(reg, xs, FreshFlags(), BASIC_CONSTRAINTS, f1);
    RunStep(reg, xs[1..], f1, CRLDP, f2);
    RunStep(reg, xs[2..], f2, FRESHEST_CRL, AfterPoints(f2, NamesAll(b)));
    NothingToRun(reg, AfterPoints(f2, NamesAll(b)));
    assert xs[1..][1..] == xs[2..] && xs[2..][1..] == [];
  }

  lemma RunStep(reg: Registry, xs: seq<Ext>, f: Flags, k: nat, g: Flags)
    requires xs != [] && Find(reg.known, xs[0].oid) == Some(k)
    requires reg.handle(f, Some(k), xs[0].value, xs[0].critical) == Some(g)
    ensures Run(reg, xs, f) == Run(reg, xs[1..], g)
  {
    hide Find;
  }

  lemma NothingToRun(reg: Registry, f: Flags)
    ensures Run(reg, [], f) == Some(f)
  {
  }

  lemma PointsNotEmpty(table: Table, ps: seq<DistPoint>)
    requires GoodPoints(table, ps)
    ensures PointsOctets(table, ps) != []
  {
    hide GoodPoints, LengthOctets;
  }

  /** Where only distribution points are listed, and no freshest lists, the later list is theirs: so the rule holds of
      the distribution points themselves. */
  lemma {:induction false} OneListIsLast(reg: Registry, met: seq<nat>, parts: seq<Octets>)
    requires NoRepeat(reg, met, parts) && AllWhole(ExtensionParser(), parts)
    requires First(reg.known, parts, FRESHEST_CRL).None?
    ensures LastPoints(reg.known, parts) == First(reg.known, parts, CRLDP)
    decreases |parts|
  {
    hide NoRepeat, ExtensionAt, Find, OidOf;
    if parts != [] {
      var id := Find(reg.known, OidOf(parts[0]));
      var met' := if id.Some? then met + [id.value] else met;
      NoRepeatStep(reg, met, parts);
      WholeIsExtension(parts[0]);
      FirstStep(reg.known, parts, FRESHEST_CRL);
      FirstStep(reg.known, parts, CRLDP);
      PointsStep(reg.known, parts);
      if id == Some(CRLDP) {
        NotAgain(reg, met', parts[1..], CRLDP);
      }
      OneListIsLast(reg, met', parts[1..]);
    }
  }

  lemma WholeIsExtension(part: Octets)
    requires Whole(ExtensionParser(), part)
    ensures ExtensionAt(part).Some?
  {
    hide ExtensionAt;
  }

  // ---------------------------------------------------------------- an authority without such a point

  lemma ShortTlv(cls: nat, p: bool, tag: nat, content: Octets)
    requires cls < 4 && tag < 31 && |content| < 128
    ensures |Tlv(cls, p, tag, content)| == 2 + |content|
  {
  }

  /** A point with an issuer of no names, for one reason or for all. */
  function Witness(all: bool): DistPoint {
    DistPoint(None, if all then None else Some([7, 0x80]), Some([]))
  }

  lemma WitnessIsGood(table: Table, all: bool)
    ensures GoodPoint(table, Witness(all)) && |PointOctets(table, Witness(all))| < 20
  {
    hide Header;
    var p := Witness(all);
    assert Encoded(table, []) == [];
    ShortTlv(CONTEXT_SPECIFIC, true, 2, []);
    assert TrailingZeros(0x80) == 7;
    ShortTlv(CONTEXT_SPECIFIC, false, 1, [7, 0x80]);
    assert |PointContent(table, p)| < 10;
    ShortTlv(UNIVERSAL, true, SEQUENCE, PointContent(table, p));
  }

  lemma WitnessList(table: Table, all: bool)
    ensures GoodPoints(table, [Witness(all)]) && |PointsOctets(table, [Witness(all)])| < 30
    ensures NamesAll([Witness(all)]) == all
  {
    hide GoodPoint, PointOctets, Tlv;
    WitnessIsGood(table, all);
    var ps := [Witness(all)];
    var parts := EncodedPoints(table, ps);
    assert parts[1..] == [];
    assert Concat(parts) == parts[0];
    ShortTlv(UNIVERSAL, true, SEQUENCE, Concat(parts));
    assert ps[0].reasons.None? == all;
  }

  lemma CeIsOid(last: byte)
    requires last < 128
    ensures OidAt(Ce(last)) == Some(5)
  {
    var s := Ce(last);
    assert LengthOctets(3) == [3];
    assert s[..2] == Header(UNIVERSAL, false, OID, 3);
    AcceptsExactlyEncodings(s, UNIVERSAL, OID, Extent(2, 3));
    SingleOctetArcs(s[2..5]);
  }

  lemma ShortExt(x: Ext)
    requires OidAt(x.oid) == Some(5) && |x.oid| == 5 && |x.value| < 30
    ensures GoodExt(x) && |ExtOctets(x)| < 60
  {
    hide OidAt, Tlv;
    ShortTlv(UNIVERSAL, false, OCTET_STRING, x.value);
    ShortTlv(UNIVERSAL, true, SEQUENCE, ExtContent(x));
  }

  lemma ThreeShort(xs: seq<Ext>)
    requires |xs| == 3 && forall i :: 0 <= i < 3 ==> GoodExt(xs[i]) && |ExtOctets(xs[i])| < 60
    ensures GoodExts(xs) && |Tlv(UNIVERSAL, true, SEQUENCE, Concat(EncodedExts(xs)))| < U32_LIMIT
  {
    hide GoodExt, ExtOctets, LengthPrefix, BeOctets;
    var parts := EncodedExts(xs);
    assert Concat(parts) == parts[0] + (parts[1] + parts[2]) by {
      assert parts[1..][1..] == parts[2..];
      assert Concat(parts[2..]) == parts[2];
    }
    HeaderIsShort(|Concat(parts)|);
  }

  lemma HeaderIsShort(n: nat)
    requires n < U32_LIMIT
    ensures |Header(UNIVERSAL, true, SEQUENCE, n)| <= 6
  {
    if n >= 128 {
      BeWidth(n);
    }
  }

  lemma TheirOids()
    ensures forall k {:trigger HANDLED[k]} :: k in {BASIC_CONSTRAINTS, CRLDP, FRESHEST_CRL} ==>
              OidAt(HANDLED[k]) == Some(5) && |HANDLED[k]| == 5
  {
    hide OidAt;
    CeIsOid(0x13);
    CeIsOid(0x1f);
    CeIsOid(0x2e);
  }

  lemma ShortLists(table: Table, a: seq<DistPoint>, b: seq<DistPoint>)
    requires GoodPoints(table, a) && |PointsOctets(table, a)| < 30 && GoodPoints(table, b)
             && |PointsOctets(table, b)| < 30
    ensures var xs := TwoLists(table, a, b);
            GoodExts(xs) && |Tlv(UNIVERSAL, true, SEQUENCE, Concat(EncodedExts(xs)))| < U32_LIMIT
  {
    hide OidAt, PointsOctets, GoodPoints, GoodExt, GoodExts, EncodedExts, Concat, Tlv, HANDLED;
    var xs := TwoLists(table, a, b);
    TheirOids();
    ShortExt(xs[0]);
    ShortExt(xs[1]);
    ShortExt(xs[2]);
    ThreeShort(xs);
  }

  /** There is an authority each of whose distribution points leaves reasons out, and its extensions pass every check,
      because freshest lists with a point for all reasons stand behind. */
  lemma AuthorityWithoutPoint(table: Table, others: Others, more: seq<Octets>) returns (xs: seq<Ext>, g: Flags)
    ensures GoodExts(xs) && |Tlv(UNIVERSAL, true, SEQUENCE, Concat(EncodedExts(xs)))| < U32_LIMIT
    ensures var s := BlockOctets(xs);
            ExtensionsAt(Handlers(table, others, more), s, false, FreshFlags()) == Some((|s|, g))
    ensures g.caTrue && Consistent(g, false)
    ensures |xs| == 3 && xs[1].oid == HANDLED[CRLDP] && CrldpValue(table, xs[1].value) == Some(false)
  {
    hide ExtensionsAt, GoodExts, BlockOctets, PointsOctets, GoodPoints, NamesAll, EncodedExts, Concat, Tlv, Consistent,
         CrldpValue, HANDLED, AfterPoints, AfterBasic, FreshFlags;
    var a, b := [Witness(false)], [Witness(true)];
    WitnessList(table, false);
    WitnessList(table, true);
    xs := TwoLists(table, a, b);
    ShortLists(table, a, b);
    LaterListDecides(table, others, more, a, b);
    g := AfterPoints(AfterPoints(AfterBasic(FreshFlags(), CA, true), NamesAll(a)), NamesAll(b));
    CrldpRoundTrip(table, a);
  }
}
