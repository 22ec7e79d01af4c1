/** What templates print: the text of each kind of argument, which argument a placeholder takes, what stays when there
    is none, and the endings that are not templates. */
module TemplateMeaning {
  import opened Bytes
  import opened Decimal
  import opened Template

  // ---------------------------------------------------------------- the text of an argument

  /** The only canonical text of a number, with a minus sign in front exactly when it is negative. */
  predicate Spells(t: string, n: int) {
    if n < 0 then t != "" && t[0] == '-' && Canonical(t[1..]) && Value(t[1..]) == -n
    else Canonical(t) && Value(t) == n
  }

  predicate Reads(v: Argument, format: string, t: string) {
    match v
    case Str(text) => t == text
    case Chr(c) => |t| == 1 && t[0] == c
    case U32(u) => Spells(t, u)
    case U64(w) => Spells(t, w)
    case I32(i) => Spells(t, i)
    case I64(l) => Spells(t, l)
    case Custom(p) => t == p(format)
  }

  lemma SignedSpells(n: int)
    ensures Spells(Signed(n), n)
  {
    hide Numeral, Canonical, Value;
    NumeralMeans(if n < 0 then -n else n);
    if n < 0 {
      assert Signed(n)[1..] == Numeral(-n);
    } else {
      assert Signed(n) == Numeral(n);
    }
  }

  lemma ShownReads(v: Argument, format: string)
    ensures Reads(v, format, Shown(v, format))
  {
    hide Numeral, Spells, Signed;
    match v
    case U32(u) => UnsignedSpells(u);
    case U64(w) => UnsignedSpells(w);
    case I32(i) => SignedSpells(i);
    case I64(l) => SignedSpells(l);
    case _ =>
  }

  lemma UnsignedSpells(n: nat)
    ensures Spells(Numeral(n), n)
  {
    NumeralMeans(n);
  }

  /** Two texts of one number are the same text. */
  lemma SpellsOnce(t: string, u: string, n: int)
    requires Spells(t, n) && Spells(u, n)
    ensures t == u
  {
    hide Numeral, Value, Canonical;
    if n < 0 {
      NumeralIsUnique(t[1..]);
      NumeralIsUnique(u[1..]);
      assert t == [t[0]] + t[1..] && u == [u[0]] + u[1..];
    } else {
      NumeralIsUnique(t);
      NumeralIsUnique(u);
    }
  }

  /** A pair of braces prints its one argument: strings and characters as they are, numbers in their only canonical
      form with a minus sign exactly for negative ones. */
  method FormatOne(v: Argument, asserts: bool) returns (t: string)
    ensures Reads(v, "", t)
  {
    hide Rendered, Scan, Reads, Shown, Concrete;
    var args := [KeyValue("", v)];
    var parts := [Hole(Next, None)];
    assert Concrete(parts) == "{}" by { OneHole(); }
    FormatsToMeaning(parts, args, asserts);
    MeaningOne(Hole(Next, None), 0, args);
    ShownReads(v, "");
    var r, depth := FmtVargs("{}", args, asserts, 0);
    t := r.text;
  }

  lemma OneHole()
    ensures Concrete([Hole(Next, None)]) == "{}"
  {
    assert [Hole(Next, None)][1..] == [];
  }

  // ---------------------------------------------------------------- which argument a placeholder takes

  function FormatText(format: Option<string>): string {
    if format.Some? then format.value else ""
  }

  lemma MeaningOne(p: Part, k: nat, args: seq<KeyValue>)
    requires p.Hole?
    ensures Meaning([p], k, args)
         == match Resolve(p.ref, k, args) case None => None case Some(v) => Some(Shown(v, FormatText(p.format)))
  {
    hide Resolve, Shown;
    assert [p][1..] == [];
    assert Meaning([], k + 1, args) == Some("");
    if Resolve(p.ref, k, args).Some? {
      var text := Shown(Resolve(p.ref, k, args).value, FormatText(p.format));
      assert text + "" == text;
    }
  }

  /** A number takes the argument at that place, if there is one. */
  lemma IndexTakes(n: nat, format: Option<string>, k: nat, args: seq<KeyValue>)
    ensures var m := Meaning([Hole(Index(n), format)], k, args);
            (m.Some? <==> n < |args|) && (m.Some? ==> Reads(args[n].value, FormatText(format), m.value))
  {
    hide Shown, Reads;
    MeaningOne(Hole(Index(n), format), k, args);
    if n < |args| {
      ShownReads(args[n].value, FormatText(format));
    }
  }

  /** A key takes the first argument that carries it. */
  lemma KeyTakes(name: string, format: Option<string>, k: nat, args: seq<KeyValue>, i: nat)
    requires i < |args| && args[i].key == name && forall j :: 0 <= j < i ==> args[j].key != name
    ensures var m := Meaning([Hole(Key(name), format)], k, args);
            m.Some? && Reads(args[i].value, FormatText(format), m.value)
  {
    hide Shown, Reads, FirstWithKey;
    MeaningOne(Hole(Key(name), format), k, args);
    FirstKey(args, name, i);
    ShownReads(args[i].value, FormatText(format));
  }

  lemma {:induction false} FirstKey(args: seq<KeyValue>, name: string, i: nat)
    requires i < |args| && args[i].key == name && forall j :: 0 <= j < i ==> args[j].key != name
    ensures FirstWithKey(args, name) == Some(args[i].value)
    decreases i
  {
    if i > 0 {
      FirstKey(args[1..], name, i - 1);
    }
  }

  /** Without one there is no meaning. */
  lemma {:induction false} NoKey(name: string, format: Option<string>, k: nat, args: seq<KeyValue>)
    requires forall j :: 0 <= j < |args| ==> args[j].key != name
    ensures Meaning([Hole(Key(name), format)], k, args).None?
  {
    hide Shown;
    MeaningOne(Hole(Key(name), format), k, args);
    AbsentKey(args, name);
  }

  lemma {:induction false} AbsentKey(args: seq<KeyValue>, name: string)
    requires forall j :: 0 <= j < |args| ==> args[j].key != name
    ensures FirstWithKey(args, name).None?
  {
    if args != [] {
      AbsentKey(args[1..], name);
    }
  }

  function Holes(parts: seq<Part>): nat {
    if parts == [] then 0 else (if parts[0].Hole? then 1 else 0) + Holes(parts[1..])
  }

  /** A placeholder without a reference takes the argument whose place is the number of placeholders before it, those
      with a reference included, and its text comes behind theirs. */
  lemma {:induction false} NextTakes(parts: seq<Part>, format: Option<string>, k: nat, args: seq<KeyValue>)
    requires Meaning(parts, k, args).Some?
    ensures var before, n := Meaning(parts, k, args).value, k + Holes(parts);
            var m := Meaning(parts + [Hole(Next, format)], k, args);
            && (m.Some? <==> n < |args|)
            && (m.Some? ==> before <= m.value && Reads(args[n].value, FormatText(format), m.value[|before|..]))
    decreases |parts|
  {
    hide Shown, Reads, Resolve;
    var hole := Hole(Next, format);
    if parts == [] {
      assert parts + [hole] == [hole];
      MeaningOne(hole, k, args);
      NextResolves(k, args);
      if k < |args| {
        ShownReads(args[k].value, FormatText(format));
      }
    } else {
      var j := if parts[0].Hole? then k + 1 else k;
      assert (parts + [hole])[1..] == parts[1..] + [hole];
      NextTakes(parts[1..], format, j, args);
      var first := FirstText(parts, k, args);
      MeaningStep(parts, k, args);
      MeaningStep(parts + [hole], k, args);
      var before, after := Meaning(parts[1..], j, args).value, Meaning(parts[1..] + [hole], j, args);
      if after.Some? {
        assert (first + after.value)[|first + before|..] == after.value[|before|..];
      }
    }
  }

  /** The text of the first part. */
  function FirstText(parts: seq<Part>, k: nat, args: seq<KeyValue>): string
    requires parts != [] && Meaning(parts, k, args).Some?
  {
    match parts[0]
    case Lit(c) => [c]
    case Hole(ref, format) => Shown(Resolve(ref, k, args).value, FormatText(format))
  }

  lemma MeaningStep(parts: seq<Part>, k: nat, args: seq<KeyValue>)
    requires parts != [] && (parts[0].Hole? ==> Resolve(parts[0].ref, k, args).Some?)
    ensures var rest := Meaning(parts[1..], if parts[0].Hole? then k + 1 else k, args);
            && (Meaning(parts, k, args).Some? <==> rest.Some?)
            && (rest.Some? ==> Meaning(parts, k, args).value == FirstText(parts, k, args) + rest.value)
  {
    hide Shown, Resolve;
  }

  lemma NextResolves(k: nat, args: seq<KeyValue>)
    ensures Resolve(Next, k, args) == if k < |args| then Some(args[k].value) else None
  {
  }

  // ---------------------------------------------------------------- placeholders without an argument

  /** With assertions compiled out a placeholder that has no argument stays as it was written. */
  function Kept(parts: seq<Part>, k: nat, args: seq<KeyValue>): string {
    if parts == [] then ""
    else
      match parts[0]
      case Lit(c) => [c] + Kept(parts[1..], k, args)
      case Hole(ref, format) =>
        (match Resolve(ref, k, args)
         case Some(v) => Shown(v, FormatText(format))
         case None => "{" + BodyText(ref, format) + "}")
        + Kept(parts[1..], k + 1, args)
  }

  lemma {:induction false} TokensKept(out: string, parts: seq<Part>, k: nat, args: seq<KeyValue>)
    requires (forall p :: p in parts ==> WellFormed(p)) && |args| <= U32_MAX
    ensures Rendered(out, Scanned(TokensOf(parts), Done), k, args, false) == Text(out + Kept(parts, k, args))
    decreases |parts|
  {
    hide WellFormed, Inserted, Shown, BodyText, Resolve, Rendered;
    if parts == [] {
      RenderedEnd(out, Done, k, args, false);
      assert out + "" == out;
    } else {
      var rest, more := Scanned(TokensOf(parts[1..]), Done), Kept(parts[1..], k + 1, args);
      assert Scanned(TokensOf(parts), Done) == Prepend(TokenOf(parts[0]), rest);
      match parts[0]
      case Lit(c) =>
        RenderedChar(out, c, rest, k, args, false);
        TokensKept(out + [c], parts[1..], k, args);
        assert out + ([c] + Kept(parts[1..], k, args)) == out + [c] + Kept(parts[1..], k, args);
      case Hole(ref, format) =>
        var body := BodyText(ref, format);
        RenderedSlot(out, body, rest, k, args, false);
        InsertedMeans(ref, format, k, args);
        var v := Resolve(ref, k, args);
        if v.Some? {
          var text := Shown(v.value, FormatText(format));
          TokensKept(out + text, parts[1..], k + 1, args);
          assert out + (text + more) == out + text + more;
        } else {
          TokensKept(out + "{" + body + "}", parts[1..], k + 1, args);
          assert out + ("{" + body + "}" + more) == out + "{" + body + "}" + more;
        }
    }
  }

  /** Every template without assertions: what has an argument is printed, what has none is left as written. */
  lemma FormatsToKept(parts: seq<Part>, args: seq<KeyValue>)
    requires (forall p :: p in parts ==> WellFormed(p)) && |args| <= U32_MAX
    ensures Rendered("", Scan(Concrete(parts), 0), 0, args, false) == Text(Kept(parts, 0, args))
  {
    hide WellFormed, Scan, Kept, Rendered;
    ConcreteIsTokens(parts);
    ScanUndoesWriting("", TokensOf(parts));
    assert "" + TokensText(TokensOf(parts)) == Concrete(parts);
    TokensKept("", parts, 0, args);
    assert "" + Kept(parts, 0, args) == Kept(parts, 0, args);
  }

  predicate HolesOnly(parts: seq<Part>) {
    forall p :: p in parts ==> (p.Lit? ==> !IsBrace(p.c))
  }

  /** So without arguments a template whose text has no braces comes out as it was written. */
  lemma {:induction false} NothingToInsert(parts: seq<Part>, k: nat)
    requires HolesOnly(parts)
    ensures Kept(parts, k, []) == Concrete(parts)
    decreases |parts|
  {
    if parts != [] {
      NothingToInsert(parts[1..], if parts[0].Hole? then k + 1 else k);
    }
  }

  // ---------------------------------------------------------------- any content of a placeholder

  /** Behind digits anything but a colon is ignored, and there is no format. */
  lemma NumberThenAnything(n: nat, junk: string)
    requires junk != "" ==> !IsDigit(junk[0]) && junk[0] != ':'
    ensures RefOf(Numeral(n) + junk) == Some(Index(Min(n, U32_MAX))) && FormatOf(Numeral(n) + junk) == ""
  {
    hide Numeral, Saturated;
    NumeralMeans(n);
    ReadUndoesPrint(n, junk);
    var body := Numeral(n) + junk;
    assert body[0] == Numeral(n)[0];
    assert junk != "" ==> body[|Numeral(n)|] == junk[0];
  }

  /** A key ends at the first colon or closing brace; one character or none is no key. */
  lemma KeyThenAnything(name: string, rest: string)
    requires name != "" && !IsDigit(name[0]) && ':' !in name && '}' !in name
    requires rest == "" || rest[0] == ':' || rest[0] == '}'
    ensures RefOf(name + rest) == if |name| > 1 then Some(Key(name)) else None
    ensures RefEnd(name + rest) == |name|
  {
    hide Upto;
    var body := name + rest;
    assert body[0] == name[0] && body[..|name|] == name;
    KeyEnd(body, 0, |name|);
  }

  lemma {:induction false} KeyEnd(s: string, i: nat, k: nat)
    requires i <= k <= |s| && (k < |s| ==> s[k] == ':' || s[k] == '}')
    requires forall j :: i <= j < k ==> s[j] != ':' && s[j] != '}'
    ensures Upto(s, ':', i) == k
    decreases k - i
  {
    if i < k {
      KeyEnd(s, i + 1, k);
    }
  }

  /** A format begins behind a colon right after the reference and ends at the next closing brace; without that colon
      there is none. */
  lemma FormatExact(front: string, rest: string, format: string, junk: string)
    requires RefEnd(front + rest) == |front|
    ensures rest == "" || rest[0] != ':' ==> FormatOf(front + rest) == ""
    ensures rest == ":" + format + junk && '}' !in format && (junk == "" || junk[0] == '}') ==>
              FormatOf(front + rest) == format
  {
    hide RefEnd, Upto;
    var body := front + rest;
    assert rest != "" ==> body[|front|] == rest[0];
    if rest == ":" + format + junk && '}' !in format && (junk == "" || junk[0] == '}') {
      var begin, end := |front| + 1, |front| + 1 + |format|;
      assert body == front + ":" + format + junk;
      assert body[begin..end] == format;
      assert forall j :: begin <= j < end ==> body[j] == format[j - begin];
      assert end < |body| ==> body[end] == junk[0];
      UptoIs(body, '}', begin, end);
    }
  }

  // ---------------------------------------------------------------- texts that are not templates

  /** An ending as the scanner can find it again. */
  predicate GoodEnd(end: End) {
    match end
    case Done => true
    case LoneClose(rest) => rest == "" || rest[0] != '}'
    case Unclosed(rest) =>
      && (rest == "" || rest[0] != '{')
      && forall j :: 0 <= j < |rest| && rest[j] == '}' ==> j > 0 && rest[j - 1] == '\\'
  }

  /** Tokens and ending, written down and scanned, are found again: with the converse, texts and scans correspond one to
      one. */
  lemma {:induction false} ScanUndoesWritingAll(front: string, tokens: seq<Token>, end: End)
    requires AllClosed(tokens) && GoodEnd(end)
    ensures Scan(front + TokensText(tokens) + EndText(end), |front|) == Scanned(tokens, end)
    decreases |tokens|
  {
    hide Scan, TokenText, Closed, GoodEnd, EndText;
    var s := front + TokensText(tokens) + EndText(end);
    if tokens == [] {
      assert s == front + EndText(end);
      ScanEnding(front, end);
    } else {
      var here, rest := TokenText(tokens[0]), TokensText(tokens[1..]) + EndText(end);
      assert s == front + here + rest;
      assert s == (front + here) + TokensText(tokens[1..]) + EndText(end);
      ScanUndoesWritingAll(front + here, tokens[1..], end);
      ScanToken(front, tokens[0], rest);
      assert tokens == [tokens[0]] + tokens[1..];
    }
  }

  lemma ScanEnding(front: string, end: End)
    requires GoodEnd(end)
    ensures Scan(front + EndText(end), |front|) == Scanned([], end)
  {
    hide Scan, SlotEnd;
    match end
    case Done =>
      ScanEnd(front, -1);
      assert front + "" == front;
    case LoneClose(rest) =>
      ScanLone(front, rest);
    case Unclosed(rest) =>
      ScanOpenEnd(front, rest);
  }

  lemma ScanLone(front: string, rest: string)
    requires rest == "" || rest[0] != '}'
    ensures Scan(front + ("}" + rest), |front|) == Scanned([], LoneClose(rest))
  {
    hide Scan;
    var s, i := front + ("}" + rest), |front|;
    assert s[i] == '}' && s[i + 1..] == rest;
    assert rest != "" ==> s[i + 1] == rest[0];
    ScanBrace(s, i);
  }

  lemma ScanOpenEnd(front: string, rest: string)
    requires GoodEnd(Unclosed(rest))
    ensures Scan(front + ("{" + rest), |front|) == Scanned([], Unclosed(rest))
  {
    hide Scan, SlotEnd;
    var s, i := front + ("{" + rest), |front|;
    assert s[i] == '{' && s[i + 1..] == rest;
    assert forall j :: 0 <= j < |rest| ==> s[i + 1 + j] == rest[j];
    NoSlotEnd(s, i + 1);
    ScanUnclosed(s, i);
  }

  lemma {:induction false} NoSlotEnd(s: string, i: nat)
    requires 0 < i <= |s| && forall j :: i <= j < |s| && s[j] == '}' ==> s[j - 1] == '\\'
    ensures SlotEnd(s, i) == |s|
    decreases |s| - i
  {
    if i < |s| {
      NoSlotEnd(s, i + 1);
    }
  }

  lemma {:induction false} CharsThenEnd(out: string, s: string, end: End, k: nat, args: seq<KeyValue>, asserts: bool)
    ensures Rendered(out, Scanned(Chars(s), end), k, args, asserts)
         == Rendered(out + s, Scanned([], end), k, args, asserts)
    decreases |s|
  {
    hide Rendered;
    if s == "" {
      assert out + s == out;
    } else {
      var rest := Scanned(Chars(s[1..]), end);
      assert Scanned(Chars(s), end) == Prepend(Char(s[0]), rest);
      RenderedChar(out, s[0], rest, k, args, asserts);
      CharsThenEnd(out + [s[0]], s[1..], end, k, args, asserts);
      assert out + [s[0]] + s[1..] == out + s;
    }
  }

  /** Behind any text, a brace that is never closed is dropped and what follows it printed; a lone closing brace loses
      the whole text, or fires the assertion. */
  lemma EndingExact(s: string, end: End, args: seq<KeyValue>, asserts: bool)
    requires GoodEnd(end)
    ensures Rendered("", Scan(Doubled(s) + EndText(end), 0), 0, args, asserts)
         == match end
            case Done => Text(s)
            case Unclosed(rest) => Text(s + rest)
            case LoneClose(_) => if asserts then Aborted else Text("")
  {
    hide Rendered, Scan;
    DoubledIsChars(s);
    ScanUndoesWritingAll("", Chars(s), end);
    assert "" + TokensText(Chars(s)) == Doubled(s);
    CharsThenEnd("", s, end, 0, args, asserts);
    assert "" + s == s;
    RenderedEnd(s, end, 0, args, asserts);
  }
}
