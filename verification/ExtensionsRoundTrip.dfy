/** Extension blocks and revoked entries, encoded and parsed again. */
module ExtensionsRoundTrip {
  import opened Bytes
  import opened Der
  import opened DerInteger
  import opened Containers
  import opened Names
  import opened Elements
  import opened Extensions
  import opened RevokedEntries
  import X509Time

  /** An extension by what it means: its encoded identifier, the critical mark and the value octets. */
  datatype Ext = Ext(oid: Octets, critical: bool, value: Octets)

  predicate GoodExt(x: Ext) {
    OidAt(x.oid) == Some(|x.oid|) && |x.value| < U32_LIMIT && |ExtContent(x)| < U32_LIMIT
  }

  function Mark(critical: bool): Octets {
    if critical then [BOOLEAN, 1, TRUE] else []
  }

  function ExtContent(x: Ext): Octets
    requires |x.value| < U32_LIMIT
  {
    x.oid + (Mark(x.critical) + Tlv(UNIVERSAL, false, OCTET_STRING, x.value))
  }

  function ExtOctets(x: Ext): Octets
    requires GoodExt(x)
  {
    Tlv(UNIVERSAL, true, SEQUENCE, ExtContent(x))
  }

  lemma FieldsRead(critical: bool, value: Octets)
    requires |value| < U32_LIMIT
    ensures FieldsAt(Mark(critical) + Tlv(UNIVERSAL, false, OCTET_STRING, value)) == Some((critical, value))
  {
    hide TlvAt, LengthOctets;
    var t := Tlv(UNIVERSAL, false, OCTET_STRING, value);
    var s := Mark(critical) + t;
    EncodeThenParse(UNIVERSAL, false, OCTET_STRING, value, []);
    assert t + [] == t;
    assert t[0] == 4;
    if critical {
      assert s[3..] == t;
    } else {
      assert s == t;
    }
  }

  lemma ExtReads(x: Ext)
    requires GoodExt(x)
    ensures ExtensionAt(ExtOctets(x)) == Some(Extension(|ExtOctets(x)|, x.oid, x.critical, x.value))
  {
    hide TlvAt, OidAt, Header, FieldsAt;
    var fields := Mark(x.critical) + Tlv(UNIVERSAL, false, OCTET_STRING, x.value);
    var content, s := ExtContent(x), ExtOctets(x);
    EncodeThenParse(UNIVERSAL, true, SEQUENCE, content, []);
    assert s + [] == s;
    OidStable(x.oid, fields, |x.oid|);
    assert content[..|x.oid|] == x.oid && content[|x.oid|..] == fields;
    FieldsRead(x.critical, x.value);
  }

  lemma ExtIsWhole(x: Ext)
    requires GoodExt(x)
    ensures Whole(ExtensionParser(), ExtOctets(x)) && OidOf(ExtOctets(x)) == x.oid
  {
    hide ExtensionAt, GoodExt, ExtOctets;
    ExtReads(x);
  }

  // ---------------------------------------------------------------- every accepted extension

  /** A mark is missing, FALSE or TRUE; both values mark the extension critical. */
  predicate MarkForm(mark: Octets, critical: bool) {
    if critical then mark == [1, 1, 0] || mark == [1, 1, 255] else mark == []
  }

  ghost predicate FieldsForm(rest: Octets, mark: Octets, q: bool, critical: bool, value: Octets) {
    MarkForm(mark, critical) && |value| < U32_LIMIT && rest == mark + Tlv(UNIVERSAL, q, OCTET_STRING, value)
  }

  /** What stands behind the identifier is accepted exactly when it is a mark and one OCTET STRING. */
  lemma FieldsExact(rest: Octets, critical: bool, value: Octets)
    ensures FieldsAt(rest) == Some((critical, value)) <==>
            exists mark, q :: FieldsForm(rest, mark, q, critical, value)
  {
    hide FieldsAt, FieldsForm;
    if FieldsAt(rest) == Some((critical, value)) {
      var mark, q := FieldsFound(rest, critical, value);
    }
    if mark, q :| FieldsForm(rest, mark, q, critical, value) {
      FieldsAccepted(rest, mark, q, critical, value);
    }
  }

  lemma FieldsFound(rest: Octets, critical: bool, value: Octets) returns (mark: Octets, q: bool)
    requires FieldsAt(rest) == Some((critical, value))
    ensures FieldsForm(rest, mark, q, critical, value)
  {
    hide TlvAt, Tlv;
    mark := if critical then rest[..3] else [];
    var tail := rest[|mark|..];
    var content;
    q, content := FillsBuffer(tail, UNIVERSAL, OCTET_STRING);
    assert rest == mark + tail;
  }

  lemma FieldsAccepted(rest: Octets, mark: Octets, q: bool, critical: bool, value: Octets)
    requires FieldsForm(rest, mark, q, critical, value)
    ensures FieldsAt(rest) == Some((critical, value))
  {
    hide TlvAt, LengthOctets;
    var tail := Tlv(UNIVERSAL, q, OCTET_STRING, value);
    EncodedFills(UNIVERSAL, q, OCTET_STRING, value);
    assert tail[0] == 4 || tail[0] == 36;
    assert rest[|mark|..] == tail;
    hide Tlv;
    if critical {
      assert rest[0] == mark[0] && rest[1] == mark[1] && rest[2] == mark[2];
    }
  }

  /** One SEQUENCE of an identifier, a mark and a value. */
  ghost predicate ExtensionForm(part: Octets, p: bool, rest: Octets, x: Extension) {
    && OidAt(x.oid) == Some(|x.oid|) && |x.oid + rest| < U32_LIMIT
    && part == Tlv(UNIVERSAL, p, SEQUENCE, x.oid + rest)
    && exists mark, q :: FieldsForm(rest, mark, q, x.critical, x.value)
  }

  /** An extension is accepted exactly when it has that form, and what is read are its parts. */
  lemma ExtensionExact(part: Octets, x: Extension)
    ensures ExtensionAt(part) == Some(x) && x.eaten == |part| <==>
            x.eaten == |part| && exists p, rest :: ExtensionForm(part, p, rest, x)
  {
    hide TlvAt, Tlv, OidAt, FieldsAt, FieldsForm;
    if ExtensionAt(part) == Some(x) && x.eaten == |part| {
      var p, content := FillsBuffer(part, UNIVERSAL, SEQUENCE);
      var rest := content[|x.oid|..];
      assert content == x.oid + rest;
      OidStable(x.oid, rest, |x.oid|);
      assert FieldsAt(rest).value == (x.critical, x.value);
      FieldsExact(rest, x.critical, x.value);
      assert ExtensionForm(part, p, rest, x);
    }
    if p, rest :| x.eaten == |part| && ExtensionForm(part, p, rest, x) {
      var content := x.oid + rest;
      EncodedFills(UNIVERSAL, p, SEQUENCE, content);
      OidStable(x.oid, rest, |x.oid|);
      assert content[..|x.oid|] == x.oid && content[|x.oid|..] == rest;
      FieldsExact(rest, x.critical, x.value);
    }
  }

  // ---------------------------------------------------------------- lists of them

  predicate GoodExts(xs: seq<Ext>) {
    (forall i :: 0 <= i < |xs| ==> GoodExt(xs[i])) && |Concat(EncodedExts(xs))| < U32_LIMIT
  }

  function EncodedExts(xs: seq<Ext>): (parts: seq<Octets>)
    requires forall i :: 0 <= i < |xs| ==> GoodExt(xs[i])
  {
    seq(|xs|, i requires 0 <= i < |xs| => ExtOctets(xs[i]))
  }

  /** The handlers over the meanings, one after another. */
  function Run(reg: Registry, xs: seq<Ext>, flags: Flags): Option<Flags> {
    if xs == [] then Some(flags)
    else
      var f :- reg.handle(flags, Find(reg.known, xs[0].oid), xs[0].value, xs[0].critical);
      Run(reg, xs[1..], f)
  }

  /** No identifier of the table occurs twice. */
  predicate Once(reg: Registry, xs: seq<Ext>) {
    forall i, j :: 0 <= i < j < |xs| && xs[i].oid in reg.known ==> xs[i].oid != xs[j].oid
  }

  lemma {:induction false} ChainIsRun(reg: Registry, xs: seq<Ext>, flags: Flags)
    requires forall i :: 0 <= i < |xs| ==> GoodExt(xs[i])
    ensures Chain(reg, EncodedExts(xs), flags) == Run(reg, xs, flags)
  {
    hide ExtensionAt, GoodExt, ExtOctets, Find;
    if xs != [] {
      ExtReads(xs[0]);
      assert EncodedExts(xs)[1..] == EncodedExts(xs[1..]);
      var f := reg.handle(flags, Find(reg.known, xs[0].oid), xs[0].value, xs[0].critical);
      if f.Some? {
        ChainIsRun(reg, xs[1..], f.value);
      }
    }
  }

  /** The loop over an encoded list does what the handlers do over the meanings, unless a known identifier repeats. */
  lemma LoopIsRun(reg: Registry, xs: seq<Ext>, flags: Flags)
    requires forall i :: 0 <= i < |xs| ==> GoodExt(xs[i])
    ensures Loop(reg, Concat(EncodedExts(xs)), [], flags) == if Once(reg, xs) then Run(reg, xs, flags) else None
  {
    hide ExtensionAt, GoodExt, ExtOctets, Find, Loop, Chain, Run, ExtensionParser, Concat;
    var parts := EncodedExts(xs);
    forall i | 0 <= i < |parts| ensures Whole(ExtensionParser(), parts[i]) && OidOf(parts[i]) == xs[i].oid {
      ExtIsWhole(xs[i]);
    }
    ExtensionsStable();
    SplitExact(ExtensionParser(), Concat(parts), parts);
    LoopExact(reg, Concat(parts), [], flags);
    ChainIsRun(reg, xs, flags);
    assert NoRepeat(reg, [], parts) <==> Once(reg, xs) by { SameRepeats(reg, xs, parts); }
  }

  lemma SameRepeats(reg: Registry, xs: seq<Ext>, parts: seq<Octets>)
    requires |parts| == |xs| && forall i :: 0 <= i < |parts| ==> OidOf(parts[i]) == xs[i].oid
    ensures NoRepeat(reg, [], parts) <==> Once(reg, xs)
  {
    hide OidOf, Find;
  }

  /** The extensions of a certificate under their explicit tag. */
  function BlockOctets(xs: seq<Ext>): Octets
    requires GoodExts(xs) && |Tlv(UNIVERSAL, true, SEQUENCE, Concat(EncodedExts(xs)))| < U32_LIMIT
  {
    Tlv(CONTEXT_SPECIFIC, true, 3, Tlv(UNIVERSAL, true, SEQUENCE, Concat(EncodedExts(xs))))
  }

  /** An encoded block is accepted exactly when it is not empty, no known identifier repeats, the handlers agree, and
      an empty subject comes with a critical alternative name; then the flags are what the handlers leave. */
  lemma BlockRoundTrip(reg: Registry, xs: seq<Ext>, emptySubject: bool, flags: Flags)
    requires GoodExts(xs) && |Tlv(UNIVERSAL, true, SEQUENCE, Concat(EncodedExts(xs)))| < U32_LIMIT
    ensures var s, g := BlockOctets(xs), Run(reg, xs, flags);
            ExtensionsAt(reg, s, emptySubject, flags) ==
            if xs != [] && Once(reg, xs) && g.Some? && (emptySubject ==> g.value.hasSan && g.value.sanCritical) then
              Some((|s|, g.value))
            else None
  {
    hide TlvAt, Header, Loop, Run, Once, GoodExt, EncodedExts, Concat;
    var content := Concat(EncodedExts(xs));
    var inner, s := Tlv(UNIVERSAL, true, SEQUENCE, content), BlockOctets(xs);
    EncodeThenParse(CONTEXT_SPECIFIC, true, 3, inner, []);
    EncodeThenParse(UNIVERSAL, true, SEQUENCE, content, []);
    assert inner + [] == inner && s + [] == s;
    var o := TlvAt(s, CONTEXT_SPECIFIC, 3).value;
    assert s[o.header..] == inner;
    var x := ExplicitAt(s, 3, UNIVERSAL, SEQUENCE).value;
    assert s[x.header..x.Total()] == inner[x.header - o.header..] == content;
    LoopIsRun(reg, xs, flags);
    EmptyBlock(xs);
  }

  lemma EmptyBlock(xs: seq<Ext>)
    requires forall i :: 0 <= i < |xs| ==> GoodExt(xs[i])
    ensures Concat(EncodedExts(xs)) == [] <==> xs == []
  {
    hide GoodExt, LengthOctets, ExtContent;
  }

  // ---------------------------------------------------------------- revoked entries

  /** An entry by what it means; the list of extensions may be missing. */
  datatype Entry = Entry(serial: nat, date: X509Time.Stamp, extensions: Option<seq<Ext>>)

  predicate GoodEntry(reg: Registry, version2: bool, e: Entry) {
    && |NaturalOctets(e.serial)| < U32_LIMIT
    && X509Time.Expressible(e.date)
    && (e.extensions.Some? ==>
          version2 && GoodExts(e.extensions.value) && Once(reg, e.extensions.value)
          && Run(reg, e.extensions.value, NoFlags()).Some?)
    && |EntryContent(e)| < U32_LIMIT
  }

  function SerialOctets(n: nat): Octets
    requires |NaturalOctets(n)| < U32_LIMIT
  {
    Tlv(UNIVERSAL, false, INTEGER, NaturalOctets(n))
  }

  function ListOctets(xs: Option<seq<Ext>>): Octets
    requires xs.Some? ==> GoodExts(xs.value)
  {
    if xs.None? then [] else Tlv(UNIVERSAL, true, SEQUENCE, Concat(EncodedExts(xs.value)))
  }

  function EntryContent(e: Entry): Octets
    requires |NaturalOctets(e.serial)| < U32_LIMIT && X509Time.Expressible(e.date)
    requires e.extensions.Some? ==> GoodExts(e.extensions.value)
  {
    SerialOctets(e.serial) + (X509Time.BoundOctets(e.date) + (ListOctets(e.extensions) + []))
  }

  function EntryOctets(reg: Registry, version2: bool, e: Entry): Octets
    requires GoodEntry(reg, version2, e)
  {
    Tlv(UNIVERSAL, true, SEQUENCE, EntryContent(e))
  }

  lemma SerialReads(n: nat)
    requires |NaturalOctets(n)| < U32_LIMIT
    ensures var e := IntegerAt(SerialOctets(n), UNIVERSAL, INTEGER, false);
            e.Some? && e.value.Total() == |SerialOctets(n)|
  {
    hide TlvAt, Header, NaturalOctets, Minimal;
    NaturalRoundTrip(n);
    EncodeThenParse(UNIVERSAL, false, INTEGER, NaturalOctets(n), []);
    assert SerialOctets(n) + [] == SerialOctets(n);
  }

  lemma DateReads(t: X509Time.Stamp)
    requires X509Time.Expressible(t)
    ensures var s := X509Time.BoundOctets(t); var d := X509Time.BoundAt(s); d.Some? && d.value.eaten == |s|
  {
    hide X509Time.BoundAt, X509Time.BoundOctets;
    var s := X509Time.BoundOctets(t);
    X509Time.BoundExact(s, X509Time.ParsedTime(X509Time.KindFor(t.year), |s|, t));
    assert s[..|s|] == s;
  }

  lemma ListReads(reg: Registry, xs: seq<Ext>)
    requires GoodExts(xs) && Once(reg, xs) && Run(reg, xs, NoFlags()).Some?
    ensures var s := ListOctets(Some(xs)); s != [] && EntryExtensionsAt(reg, s) == Some(|s|)
  {
    hide TlvAt, Header, Loop, Run, GoodExt, EncodedExts, Concat, Once;
    var content, s := Concat(EncodedExts(xs)), ListOctets(Some(xs));
    EncodeThenParse(UNIVERSAL, true, SEQUENCE, content, []);
    assert s + [] == s;
    LoopIsRun(reg, xs, NoFlags());
  }

  lemma EntryIsWhole(reg: Registry, version2: bool, e: Entry)
    requires GoodEntry(reg, version2, e)
    ensures Whole(EntryParser(reg, version2), EntryOctets(reg, version2, e))
  {
    hide SerialOctets, X509Time.BoundOctets, X509Time.Expressible, X509Time.BoundAt, ListOctets, EntryBody,
         NaturalOctets, Run, Once, GoodExts, IntegerAt, EntryExtensionsAt, Tlv;
    var list := ListOctets(e.extensions);
    SerialReads(e.serial);
    DateReads(e.date);
    if e.extensions.Some? {
      ListReads(reg, e.extensions.value);
    } else {
      NoList();
    }
    EntryReads(reg, version2, EntryContent(e), SerialOctets(e.serial), X509Time.BoundOctets(e.date), list, []);
    EncodedIsWhole(UNIVERSAL, true, SEQUENCE, c => EntryBody(reg, version2, c), EntryContent(e));
  }

  lemma NoList()
    ensures ListOctets(None) == []
  {
  }

  predicate GoodEntries(reg: Registry, version2: bool, es: seq<Entry>) {
    && (forall i :: 0 <= i < |es| ==> GoodEntry(reg, version2, es[i]))
    && |Concat(EncodedEntries(reg, version2, es))| < U32_LIMIT
  }

  function EncodedEntries(reg: Registry, version2: bool, es: seq<Entry>): (parts: seq<Octets>)
    requires forall i :: 0 <= i < |es| ==> GoodEntry(reg, version2, es[i])
  {
    seq(|es|, i requires 0 <= i < |es| => EntryOctets(reg, version2, es[i]))
  }

  /** Every list of entries, encoded and followed by anything, is accepted and eaten exactly; its report is whether
      there was any. */
  lemma EntriesRoundTrip(reg: Registry, version2: bool, es: seq<Entry>, rest: Octets)
    requires GoodEntries(reg, version2, es)
    ensures var s := Tlv(UNIVERSAL, true, SEQUENCE, Concat(EncodedEntries(reg, version2, es)));
            EntriesAt(reg, version2, s + rest) == Some(Entries(|s|, es != []))
  {
    hide TlvAt, Header, EntryOctets, GoodEntry, EntryParser, Split;
    var parts := EncodedEntries(reg, version2, es);
    forall i | 0 <= i < |parts| ensures Whole(EntryParser(reg, version2), parts[i]) {
      EntryIsWhole(reg, version2, es[i]);
    }
    var content := Concat(parts);
    EncodeThenParse(UNIVERSAL, true, SEQUENCE, content, rest);
    var s := Tlv(UNIVERSAL, true, SEQUENCE, content) + rest;
    EntriesSplit(reg, version2, s, TlvAt(s, UNIVERSAL, SEQUENCE).value);
    assert AllWhole(EntryParser(reg, version2), parts);
    if es != [] {
      assert parts[0] != [];
    }
  }
}
