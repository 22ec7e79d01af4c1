/** The brace templates of base.c: a one-pass scanner against a grammar of templates and its meaning. */
module Template {
  import opened Bytes
  import opened Decimal

  // ---------------------------------------------------------------- arguments

  type u32 = n: int | 0 <= n < 0x1_0000_0000
  type u64 = n: int | 0 <= n < 0x1_0000_0000_0000_0000
  type i32 = n: int | -0x8000_0000 <= n < 0x8000_0000
  type i64 = n: int | -0x8000_0000_0000_0000 <= n < 0x8000_0000_0000_0000

  /** The argument types without floating point; a custom value brings its own printer. */
  datatype Argument =
    | Str(text: string)
    | Chr(c: char)
    | U32(u: u32)
    | U64(w: u64)
    | I32(i: i32)
    | I64(l: i64)
    | Custom(build: string -> string)

  datatype KeyValue = KeyValue(key: string, value: Argument)

  function Signed(n: int): string {
    (if n < 0 then "-" else "") + Numeral(if n < 0 then -n else n)
  }

  /** How a value reads in the output; only custom values look at the format. */
  function Shown(v: Argument, format: string): string {
    match v
    case Str(text) => text
    case Chr(c) => [c]
    case U32(u) => Numeral(u)
    case U64(w) => Numeral(w)
    case I32(i) => Signed(i)
    case I64(l) => Signed(l)
    case Custom(p) => p(format)
  }

  // ---------------------------------------------------------------- the grammar of templates

  /** What a placeholder refers to. */
  datatype Ref = Next | Index(n: nat) | Key(name: string)

  /** A character of text, or a placeholder with an optional format. */
  datatype Part = Lit(c: char) | Hole(ref: Ref, format: Option<string>)

  function RefText(ref: Ref): string {
    match ref
    case Next => ""
    case Index(n) => Numeral(n)
    case Key(name) => name
  }

  function BodyText(ref: Ref, format: Option<string>): string {
    RefText(ref) + match format { case None => "" case Some(f) => ":" + f }
  }

  predicate IsBrace(c: char) {
    c == '{' || c == '}'
  }

  /** How a template is written: braces of the text are doubled. */
  function Concrete(parts: seq<Part>): string {
    if parts == [] then ""
    else
      (match parts[0]
       case Lit(c) => if IsBrace(c) then [c, c] else [c]
       case Hole(ref, format) => "{" + BodyText(ref, format) + "}")
      + Concrete(parts[1..])
  }

  /** Two characters or more that do not look like an index, a doubled brace or a format. */
  predicate GoodKey(name: string) {
    |name| > 1 && !IsDigit(name[0]) && name[0] != '{' && ':' !in name && '}' !in name
  }

  /** Besides, no backslash stands in front of the closing brace. */
  predicate WellFormed(p: Part) {
    match p
    case Lit(_) => true
    case Hole(ref, format) =>
      && (ref.Key? ==> GoodKey(ref.name))
      && (format.Some? ==> '}' !in format.value)
      && (var body := BodyText(ref, format); body != "" ==> body[|body| - 1] != '\\')
  }

  function FirstWithKey(args: seq<KeyValue>, name: string): Option<Argument> {
    if args == [] then None
    else if args[0].key == name then Some(args[0].value)
    else FirstWithKey(args[1..], name)
  }

  /** The argument meant by the `k`-th placeholder. */
  function Resolve(ref: Ref, k: nat, args: seq<KeyValue>): Option<Argument> {
    match ref
    case Next => if k < |args| then Some(args[k].value) else None
    case Index(n) => if n < |args| then Some(args[n].value) else None
    case Key(name) => FirstWithKey(args, name)
  }

  /** The meaning of a template whose first placeholder is number `k`; none if some placeholder has no argument. */
  function Meaning(parts: seq<Part>, k: nat, args: seq<KeyValue>): Option<string> {
    if parts == [] then Some("")
    else
      match parts[0]
      case Lit(c) =>
        (match Meaning(parts[1..], k, args) case None => None case Some(rest) => Some([c] + rest))
      case Hole(ref, format) =>
        match (Resolve(ref, k, args), Meaning(parts[1..], k + 1, args))
        case (Some(v), Some(rest)) => Some(Shown(v, if format.Some? then format.value else "") + rest)
        case _ => None
  }

  // ---------------------------------------------------------------- texts as tokens

  /** Any text at all: characters, slots with their raw content, and how it ends. */
  datatype Token = Char(c: char) | Slot(body: string)
  datatype End = Done | LoneClose(rest: string) | Unclosed(rest: string)
  datatype Scanned = Scanned(tokens: seq<Token>, end: End)

  function Prepend(t: Token, s: Scanned): Scanned {
    s.(tokens := [t] + s.tokens)
  }

  /** The first closing brace from `i` on that no backslash precedes, or the end of the text. */
  function SlotEnd(s: string, i: nat): (j: nat)
    requires 0 < i <= |s|
    ensures i <= j <= |s|
    decreases |s| - i
  {
    if i == |s| || (s[i] == '}' && s[i - 1] != '\\') then i else SlotEnd(s, i + 1)
  }

  function Scan(s: string, i: nat): Scanned
    requires i <= |s|
    decreases |s| - i
  {
    if i == |s| then Scanned([], Done)
    else if IsBrace(s[i]) && i + 1 < |s| && s[i + 1] == s[i] then Prepend(Char(s[i]), Scan(s, i + 2))
    else if s[i] == '}' then Scanned([], LoneClose(s[i + 1..]))
    else if s[i] == '{' then
      var j := SlotEnd(s, i + 1);
      if j == |s| then Scanned([], Unclosed(s[i + 1..])) else Prepend(Slot(s[i + 1..j]), Scan(s, j + 1))
    else Prepend(Char(s[i]), Scan(s, i + 1))
  }

  // ---------------------------------------------------------------- what a slot's content refers to

  /** Length of the part before the first `stop` or closing brace. */
  function Upto(s: string, stop: char, i: nat): (j: nat)
    requires i <= |s|
    ensures i <= j <= |s|
    decreases |s| - i
  {
    if i == |s| || s[i] == stop || s[i] == '}' then i else Upto(s, stop, i + 1)
  }

  function RefOf(body: string): Option<Ref> {
    if body == "" || body[0] == ':' then Some(Next)
    else if IsDigit(body[0]) then Some(Index(Saturated(body)))
    else if Upto(body, ':', 0) > 1 then Some(Key(body[..Upto(body, ':', 0)]))
    else None
  }

  function RefEnd(body: string): (j: nat)
    ensures j <= |body|
  {
    if body == "" || body[0] == ':' then 0
    else if IsDigit(body[0]) then DigitRun(body)
    else Upto(body, ':', 0)
  }

  function FormatOf(body: string): string {
    var i := RefEnd(body);
    if i < |body| && body[i] == ':' then body[i + 1..Upto(body, '}', i + 1)] else ""
  }

  function Inserted(body: string, k: nat, args: seq<KeyValue>): Option<string> {
    match RefOf(body)
    case None => None
    case Some(ref) =>
      match Resolve(ref, k, args)
      case None => None
      case Some(v) => Some(Shown(v, FormatOf(body)))
  }

  // ---------------------------------------------------------------- what the formatter makes of any text

  /** Assertions that fire end the program; compiled out, a placeholder that cannot be filled stays as it is. */
  datatype Outcome = Aborted | Text(text: string)

  function Rendered(out: string, s: Scanned, k: nat, args: seq<KeyValue>, asserts: bool): Outcome
    decreases |s.tokens|
  {
    if s.tokens == [] then
      match s.end
      case Done => Text(out)
      case LoneClose(_) => if asserts then Aborted else Text("")
      case Unclosed(rest) => Text(out + rest)
    else
      var more := s.(tokens := s.tokens[1..]);
      match s.tokens[0]
      case Char(c) => Rendered(out + [c], more, k, args, asserts)
      case Slot(body) =>
        match Inserted(body, k, args)
        case Some(text) => Rendered(out + text, more, k + 1, args, asserts)
        case None =>
          if asserts then Aborted else Rendered(out + "{" + body + "}", more, k + 1, args, asserts)
  }

  lemma RenderedChar(out: string, c: char, s: Scanned, k: nat, args: seq<KeyValue>, asserts: bool)
    ensures Rendered(out, Prepend(Char(c), s), k, args, asserts) == Rendered(out + [c], s, k, args, asserts)
  {
    assert Prepend(Char(c), s).tokens[1..] == s.tokens;
  }

  lemma RenderedSlot(out: string, body: string, s: Scanned, k: nat, args: seq<KeyValue>, asserts: bool)
    ensures Rendered(out, Prepend(Slot(body), s), k, args, asserts)
         == match Inserted(body, k, args)
            case Some(text) => Rendered(out + text, s, k + 1, args, asserts)
            case None => if asserts then Aborted else Rendered(out + "{" + body + "}", s, k + 1, args, asserts)
  {
    assert Prepend(Slot(body), s).tokens[1..] == s.tokens;
  }

  /** The outcome together with how the text ends. */
  function Final(out: string, s: Scanned, k: nat, args: seq<KeyValue>, asserts: bool): (Outcome, End) {
    (Rendered(out, s, k, args, asserts), s.end)
  }

  lemma FinalIs(out: string, s: Scanned, k: nat, args: seq<KeyValue>, asserts: bool)
    ensures Final(out, s, k, args, asserts) == (Rendered(out, s, k, args, asserts), s.end)
  {
  }

  lemma FinalChar(out: string, c: char, s: Scanned, k: nat, args: seq<KeyValue>, asserts: bool)
    ensures Final(out, Prepend(Char(c), s), k, args, asserts) == Final(out + [c], s, k, args, asserts)
  {
    RenderedChar(out, c, s, k, args, asserts);
  }

  lemma FinalSlot(out: string, body: string, s: Scanned, k: nat, args: seq<KeyValue>, asserts: bool)
    ensures Final(out, Prepend(Slot(body), s), k, args, asserts)
         == match Inserted(body, k, args)
            case Some(text) => Final(out + text, s, k + 1, args, asserts)
            case None =>
              if asserts then (Aborted, s.end) else Final(out + "{" + body + "}", s, k + 1, args, asserts)
  {
    RenderedSlot(out, body, s, k, args, asserts);
  }

  lemma FinalEnd(out: string, end: End, k: nat, args: seq<KeyValue>, asserts: bool)
    ensures Final(out, Scanned([], end), k, args, asserts)
         == match end
            case Done => (Text(out), end)
            case LoneClose(_) => (if asserts then Aborted else Text(""), end)
            case Unclosed(rest) => (Text(out + rest), end)
  {
  }

  // ---------------------------------------------------------------- the code

  /** Text recorded for one value. */
  method RecordValue(v: Argument, format: string) returns (text: string)
    ensures text == Shown(v, format)
  {
    match v {
      case Custom(p) => text := p(format);
      case Chr(c) => text := [c];
      case Str(s) => text := s;
      case U32(u) => text := RecordU32(u, false);
      case U64(w) => text := RecordU64(w, false);
      case I32(i) => text := RecordU32(if i < 0 then -(i as int) else i as int, i < 0);
      case I64(l) => text := RecordU64(if l < 0 then -(l as int) else l as int, l < 0);
    }
  }

  /** The first argument with a key. */
  method FindKey(args: seq<KeyValue>, key: string) returns (arg: Option<Argument>)
    ensures arg == FirstWithKey(args, key)
  {
    var idx := 0;
    while idx < |args|
      invariant idx <= |args| && FirstWithKey(args, key) == FirstWithKey(args[idx..], key)
    {
      if args[idx].key == key {
        return Some(args[idx].value);
      }
      idx := idx + 1;
    }
    return None;
  }

  /** The format behind the reference, if a colon is there. */
  method ReadFormat(body: string, fmtIdx: nat) returns (format: string)
    requires fmtIdx == RefEnd(body)
    ensures format == FormatOf(body)
  {
    hide RefEnd;
    format := "";
    if fmtIdx < |body| && body[fmtIdx] == ':' {
      var f := body[fmtIdx + 1..];
      var count := 0;
      while count < |f| && f[count] != '}'
        invariant count <= |f|
        invariant Upto(body, '}', fmtIdx + 1) == Upto(body, '}', fmtIdx + 1 + count)
      {
        count := count + 1;
      }
      if count > 0 {
        format := f[..count];
      }
    }
  }

  /** One placeholder. The template has a closing brace behind the content, where the search for the end of a key
      stops at the latest. */
  method InsertValue(insertCount: nat, body: string, args: seq<KeyValue>) returns (text: Option<string>)
    requires |args| <= U32_MAX
    ensures text == Inserted(body, insertCount, args)
  {
    hide Shown, DigitRun, Upto, FirstWithKey, FormatOf;
    var insertIndex := -1;
    var fmtIdx := 0;
    if |body| == 0 || body[0] == ':' {
      insertIndex := insertCount;
    } else if IsDigit(body[0]) {
      OneDigit(body);
      var number, offset := ParseU32N(body);
      if offset != 0 {
        insertIndex := number;
        fmtIdx := offset;
      }
    }
    var arg: Argument;
    if insertIndex != -1 {
      if insertIndex >= |args| {
        return None;
      }
      arg := args[insertIndex].value;
    } else {
      var count := 0;
      while count < |body| && body[count] != ':' && body[count] != '}'
        invariant count <= |body| && Upto(body, ':', 0) == Upto(body, ':', count)
      {
        UptoStep(body, ':', count);
        count := count + 1;
      }
      UptoStep(body, ':', count);
      if count <= 1 {
        return None;
      }
      fmtIdx := count;
      var found := FindKey(args, body[..count]);
      if !found.Some? {
        return None;
      }
      arg := found.value;
    }
    var format := ReadFormat(body, fmtIdx);
    var shown := RecordValue(arg, format);
    text := Some(shown);
  }

  lemma UptoStep(s: string, stop: char, i: nat)
    requires i <= |s|
    ensures Upto(s, stop, i) == if i == |s| || s[i] == stop || s[i] == '}' then i else Upto(s, stop, i + 1)
  {
  }

  /** An index has at least one digit, and its first digit cannot saturate. */
  lemma OneDigit(body: string)
    requires body != "" && IsDigit(body[0])
    ensures DigitRun(body) > 0 && Value(body[..0]) == 0 && Value(body[..1]) < 10
  {
    assert body[..1][..0] == "";
  }

  /** Text of the template from `a` to `b` behind what is already out. */
  function Pending(out: string, fmt: string, a: nat, b: nat): string
    requires a <= b <= |fmt|
  {
    out + fmt[a..b]
  }

  lemma PendingNone(out: string, fmt: string, a: nat)
    requires a <= |fmt|
    ensures Pending(out, fmt, a, a) == out
  {
  }

  lemma PendingMore(out: string, fmt: string, a: nat, b: nat)
    requires a <= b < |fmt|
    ensures Pending(out, fmt, a, b + 1) == Pending(out, fmt, a, b) + [fmt[b]]
  {
  }

  lemma PendingSlot(out: string, fmt: string, p: nat, b: nat)
    requires p < b < |fmt| && fmt[p] == '{' && fmt[b] == '}'
    ensures Pending(out, fmt, p, b + 1) == out + "{" + fmt[p + 1..b] + "}"
  {
    assert fmt[p..b + 1] == "{" + fmt[p + 1..b] + "}";
  }

  /** Copy template text, if there is any. */
  method CopyText(out: string, fmt: string, textStartIdx: nat, idx: nat) returns (r: string)
    requires textStartIdx <= idx <= |fmt|
    ensures r == Pending(out, fmt, textStartIdx, idx)
  {
    r := out;
    var textSize := idx - textStartIdx;
    if textSize > 0 {
      r := out + fmt[textStartIdx..idx];
    }
  }

  /** The formatter, on any template: its outcome is that of the tokens the template consists of. With `depth`
      recordings open in the arena before, as many are open after, unless a lone closing brace makes it return from
      inside its own recording. */
  method FmtVargs(fmt: string, args: seq<KeyValue>, asserts: bool, depth: nat) returns (r: Outcome, unsafeRecord: nat)
    requires |fmt| < 0x7FFF_FFFF && |args| <= U32_MAX
    ensures r == Rendered("", Scan(fmt, 0), 0, args, asserts)
    ensures r.Text? ==> unsafeRecord == if Scan(fmt, 0).end.LoneClose? then depth + 1 else depth
  {
    hide Inserted, Rendered, Final, Scan, SlotEnd, SlotOpen, Pending;
    var out, lastChar := "", '\0';
    var insertCount, insertStartIdx, textStartIdx, idx := 0, -1, 0, 0;
    ghost var goal := Final("", Scan(fmt, 0), 0, args, asserts);
    FinalIs("", Scan(fmt, 0), 0, args, asserts);
    unsafeRecord := depth + 1;
    PendingNone("", fmt, 0);
    while idx < |fmt|
      invariant 0 <= textStartIdx <= idx <= |fmt|
      invariant idx > 0 ==> lastChar == fmt[idx - 1]
      invariant insertStartIdx == -1 ==>
                  goal == Final(Pending(out, fmt, textStartIdx, idx), Scan(fmt, idx), insertCount, args, asserts)
      invariant unsafeRecord == depth + 1
      invariant insertStartIdx != -1 ==> SlotOpen(fmt, insertStartIdx, idx) && textStartIdx == insertStartIdx + 1
      invariant insertStartIdx != -1 ==>
                  && 0 <= insertStartIdx < |fmt|
                  && goal == Final(out, Scan(fmt, insertStartIdx), insertCount, args, asserts)
    {
      var currentChar := fmt[idx];
      if insertStartIdx != -1 {
        SlotStep(fmt, insertStartIdx, idx);
        if currentChar == '}' && lastChar != '\\' {
          var body := fmt[insertStartIdx + 1..idx];
          FinalSlot(out, body, Scan(fmt, idx + 1), insertCount, args, asserts);
          var v := InsertValue(insertCount, body, args);
          if v.Some? {
            textStartIdx := idx + 1;
            out := out + v.value;
            PendingNone(out, fmt, textStartIdx);
          } else if asserts {
            return Aborted, unsafeRecord;
          } else {
            textStartIdx := insertStartIdx;
            PendingSlot(out, fmt, insertStartIdx, idx);
          }
          insertStartIdx := -1;
          insertCount := insertCount + 1;
        }
      } else if currentChar == '{' {
        ghost var pending := Pending(out, fmt, textStartIdx, idx);
        PendingMore(out, fmt, textStartIdx, idx);
        ScanBrace(fmt, idx);
        var nextChar := if idx + 1 < |fmt| then fmt[idx + 1] else '\0';
        if nextChar == '{' {
          FinalChar(pending, '{', Scan(fmt, idx + 2), insertCount, args, asserts);
          idx := idx + 1;
        }
        out := CopyText(out, fmt, textStartIdx, idx);
        if nextChar != '{' {
          SlotStart(fmt, idx);
          insertStartIdx := idx;
        }
        textStartIdx := idx + 1;
        PendingNone(out, fmt, textStartIdx);
      } else if currentChar == '}' {
        ghost var pending := Pending(out, fmt, textStartIdx, idx);
        PendingMore(out, fmt, textStartIdx, idx);
        ScanBrace(fmt, idx);
        var nextChar := if idx + 1 < |fmt| then fmt[idx + 1] else '\0';
        if nextChar == '}' {
          FinalChar(pending, '}', Scan(fmt, idx + 2), insertCount, args, asserts);
          idx := idx + 1;
        } else {
          FinalEnd(pending, LoneClose(fmt[idx + 1..]), insertCount, args, asserts);
          return if asserts then Aborted else Text(""), unsafeRecord;
        }
        out := CopyText(out, fmt, textStartIdx, idx);
        textStartIdx := idx + 1;
        PendingNone(out, fmt, textStartIdx);
      } else {
        ScanPlain(fmt, idx);
        FinalChar(Pending(out, fmt, textStartIdx, idx), currentChar, Scan(fmt, idx + 1), insertCount, args, asserts);
        PendingMore(out, fmt, textStartIdx, idx);
      }
      lastChar := fmt[idx];
      idx := idx + 1;
    }
    ScanEnd(fmt, insertStartIdx);
    if insertStartIdx == -1 {
      FinalEnd(Pending(out, fmt, textStartIdx, idx), Done, insertCount, args, asserts);
    } else {
      FinalEnd(out, Unclosed(fmt[textStartIdx..]), insertCount, args, asserts);
      PendingRest(out, fmt, textStartIdx);
    }
    out := CopyText(out, fmt, textStartIdx, |fmt|);
    unsafeRecord := unsafeRecord - 1;
    r := Text(out);
  }

  lemma PendingRest(out: string, fmt: string, a: nat)
    requires a <= |fmt|
    ensures Pending(out, fmt, a, |fmt|) == out + fmt[a..]
  {
    assert fmt[a..|fmt|] == fmt[a..];
  }

  /** A slot that began at `p` and has no end before `i`. */
  ghost predicate SlotOpen(s: string, p: int, i: nat) {
    && 0 <= p < i <= |s| && s[p] == '{' && !(p + 1 < |s| && s[p + 1] == '{')
    && SlotEnd(s, p + 1) == SlotEnd(s, i)
  }

  lemma SlotStart(s: string, p: nat)
    requires p < |s| && s[p] == '{' && !(p + 1 < |s| && s[p + 1] == '{')
    ensures SlotOpen(s, p, p + 1)
  {
  }

  lemma ScanEnd(s: string, p: int)
    requires p == -1 || SlotOpen(s, p, |s|)
    ensures if p == -1 then Scan(s, |s|) == Scanned([], Done)
            else p < |s| && Scan(s, p) == Scanned([], Unclosed(s[p + 1..]))
  {
  }

  lemma SlotStep(s: string, p: nat, i: nat)
    requires SlotOpen(s, p, i) && i < |s|
    ensures p < i && s[p] == '{'
    ensures s[i] == '}' && s[i - 1] != '\\' ==> Scan(s, p) == Prepend(Slot(s[p + 1..i]), Scan(s, i + 1))
    ensures !(s[i] == '}' && s[i - 1] != '\\') ==> SlotOpen(s, p, i + 1)
  {
  }

  lemma ScanBrace(s: string, i: nat)
    requires i < |s| && IsBrace(s[i])
    ensures i + 1 < |s| && s[i + 1] == s[i] ==> Scan(s, i) == Prepend(Char(s[i]), Scan(s, i + 2))
    ensures !(i + 1 < |s| && s[i + 1] == s[i]) && s[i] == '}' ==> Scan(s, i) == Scanned([], LoneClose(s[i + 1..]))
  {
  }

  lemma ScanPlain(s: string, i: nat)
    requires i < |s| && !IsBrace(s[i])
    ensures Scan(s, i) == Prepend(Char(s[i]), Scan(s, i + 1))
  {
  }

  lemma RenderedEnd(out: string, end: End, k: nat, args: seq<KeyValue>, asserts: bool)
    ensures Rendered(out, Scanned([], end), k, args, asserts)
         == match end
            case Done => Text(out)
            case LoneClose(_) => if asserts then Aborted else Text("")
            case Unclosed(rest) => Text(out + rest)
  {
  }

  // ---------------------------------------------------------------- tokens and texts

  /** A slot's content as the scanner can find it again. */
  predicate Closed(body: string) {
    && (body != "" ==> body[0] != '{' && body[|body| - 1] != '\\')
    && forall j :: 0 <= j < |body| && body[j] == '}' ==> j > 0 && body[j - 1] == '\\'
  }

  function TokenText(t: Token): string {
    match t
    case Char(c) => if IsBrace(c) then [c, c] else [c]
    case Slot(body) => "{" + body + "}"
  }

  function TokensText(tokens: seq<Token>): string {
    if tokens == [] then "" else TokenText(tokens[0]) + TokensText(tokens[1..])
  }

  function EndText(end: End): string {
    match end
    case Done => ""
    case LoneClose(rest) => "}" + rest
    case Unclosed(rest) => "{" + rest
  }

  predicate AllClosed(tokens: seq<Token>) {
    forall t :: t in tokens ==> t.Slot? ==> Closed(t.body)
  }

  /** Scanning finds exactly the tokens a text was written from, wherever in a template it stands. */
  lemma {:induction false} ScanUndoesWriting(front: string, tokens: seq<Token>)
    requires AllClosed(tokens)
    ensures Scan(front + TokensText(tokens), |front|) == Scanned(tokens, Done)
    decreases |tokens|
  {
    hide Scan, TokenText, Closed;
    var s, i := front + TokensText(tokens), |front|;
    if tokens == [] {
      ScanEnd(s, -1);
    } else {
      var here, rest := TokenText(tokens[0]), TokensText(tokens[1..]);
      assert s == front + here + rest;
      ScanUndoesWriting(front + here, tokens[1..]);
      ScanToken(front, tokens[0], rest);
      assert tokens == [tokens[0]] + tokens[1..];
    }
  }

  lemma ScanToken(front: string, t: Token, rest: string)
    requires t.Slot? ==> Closed(t.body)
    ensures Scan(front + TokenText(t) + rest, |front|)
         == Prepend(t, Scan(front + TokenText(t) + rest, |front + TokenText(t)|))
  {
    hide Scan, Closed;
    var s, i := front + TokenText(t) + rest, |front|;
    assert s[i..i + |TokenText(t)|] == TokenText(t);
    match t
    case Char(c) =>
      assert s[i] == TokenText(t)[0];
      if IsBrace(c) {
        assert s[i + 1] == TokenText(t)[1];
        ScanBrace(s, i);
      } else {
        ScanPlain(s, i);
      }
    case Slot(body) =>
      ScanSlot(front, body, rest);
  }

  lemma ScanSlot(front: string, body: string, rest: string)
    requires Closed(body)
    ensures var s := front + ("{" + body + "}") + rest;
            Scan(s, |front|) == Prepend(Slot(body), Scan(s, |front| + |body| + 2))
  {
    hide Scan, SlotEnd, Closed;
    var slot := "{" + body + "}";
    var s, i := front + slot + rest, |front|;
    Middle(front, slot, rest);
    PlacedCloses(s, i, body);
    ScanOpen(s, i);
  }

  lemma Middle(front: string, middle: string, back: string)
    ensures (front + middle + back)[|front|..|front| + |middle|] == middle
  {
  }

  /** The end of a slot is found where it was written. */
  lemma PlacedCloses(s: string, i: nat, body: string)
    requires i + |body| + 2 <= |s| && s[i..i + |body| + 2] == "{" + body + "}" && Closed(body)
    ensures SlotEnd(s, i + 1) == i + 1 + |body|
    ensures s[i] == '{' && s[i + 1] != '{' && s[i + 1..i + 1 + |body|] == body
  {
    hide SlotEnd;
    var slot := s[i..i + |body| + 2];
    var k := i + 1 + |body|;
    assert slot[0] == '{' && slot[|body| + 1] == '}';
    assert slot[1..|body| + 1] == body;
    assert forall j :: i + 1 <= j < k ==> s[j] == body[j - i - 1];
    forall j | i + 1 <= j < k && s[j] == '}' ensures s[j - 1] == '\\' {
      assert body[j - i - 2] == s[j - 1];
    }
    SlotEndIs(s, i + 1, k);
  }

  lemma ScanOpen(s: string, i: nat)
    requires i + 1 < |s| && s[i] == '{' && s[i + 1] != '{' && SlotEnd(s, i + 1) < |s|
    ensures var j := SlotEnd(s, i + 1); Scan(s, i) == Prepend(Slot(s[i + 1..j]), Scan(s, j + 1))
  {
  }

  lemma {:induction false} SlotEndIs(s: string, i: nat, k: nat)
    requires 0 < i <= k < |s| && s[k] == '}' && s[k - 1] != '\\'
    requires forall j :: i <= j < k && s[j] == '}' ==> s[j - 1] == '\\'
    ensures SlotEnd(s, i) == k
    decreases k - i
  {
    if i < k {
      SlotEndIs(s, i + 1, k);
    }
  }

  /** And every text is the writing of the tokens found in it and of its ending: nothing is lost or invented. */
  lemma {:induction false} WritingUndoesScan(s: string, i: nat)
    requires i <= |s|
    ensures AllClosed(Scan(s, i).tokens)
    ensures TokensText(Scan(s, i).tokens) + EndText(Scan(s, i).end) == s[i..]
    decreases |s| - i
  {
    hide Scan, SlotEnd, TokensText, TokenText, AllClosed, Closed;
    NoTokens();
    if i == |s| {
      ScanEnd(s, -1);
    } else if IsBrace(s[i]) && i + 1 < |s| && s[i + 1] == s[i] {
      ScanBrace(s, i);
      WritingUndoesScan(s, i + 2);
      assert s[i..i + 2] == TokenText(Char(s[i])) by { CharText(s, i); }
      WriteMore(s, i, i + 2, Char(s[i]));
    } else if s[i] == '}' {
      ScanBrace(s, i);
      assert s[i..] == "}" + s[i + 1..];
    } else if s[i] == '{' {
      var j := SlotEnd(s, i + 1);
      if j == |s| {
        ScanUnclosed(s, i);
        assert s[i..] == "{" + s[i + 1..];
      } else {
        SlotFound(s, i);
        WritingUndoesScan(s, j + 1);
        WriteMore(s, i, j + 1, Slot(s[i + 1..j]));
      }
    } else {
      ScanPlain(s, i);
      WritingUndoesScan(s, i + 1);
      assert s[i..i + 1] == TokenText(Char(s[i])) by { CharText(s, i); }
      WriteMore(s, i, i + 1, Char(s[i]));
    }
  }

  lemma CharText(s: string, i: nat)
    requires i < |s| && (IsBrace(s[i]) ==> i + 1 < |s| && s[i + 1] == s[i])
    ensures TokenText(Char(s[i])) == s[i..if IsBrace(s[i]) then i + 2 else i + 1]
  {
  }

  lemma SlotFound(s: string, i: nat)
    requires i < |s| && s[i] == '{' && !(i + 1 < |s| && s[i + 1] == '{') && SlotEnd(s, i + 1) < |s|
    ensures var j := SlotEnd(s, i + 1); var t := Slot(s[i + 1..j]);
            Scan(s, i) == Prepend(t, Scan(s, j + 1)) && Closed(t.body) && s[i..j + 1] == TokenText(t)
  {
    hide Scan, SlotEnd, Closed;
    var j := SlotEnd(s, i + 1);
    SlotEndFirst(s, i + 1);
    ScanOpen(s, i);
    SlotIsClosed(s, i, j);
    assert s[i..j + 1] == "{" + s[i + 1..j] + "}";
  }

  lemma NoTokens()
    ensures TokensText([]) == "" && AllClosed([])
  {
  }

  lemma ScanUnclosed(s: string, i: nat)
    requires i < |s| && s[i] == '{' && !(i + 1 < |s| && s[i + 1] == '{') && SlotEnd(s, i + 1) == |s|
    ensures Scan(s, i) == Scanned([], Unclosed(s[i + 1..]))
  {
  }

  lemma {:induction false} SlotEndFirst(s: string, i: nat)
    requires 0 < i <= |s|
    ensures SlotEnd(s, i) < |s| ==> s[SlotEnd(s, i)] == '}' && s[SlotEnd(s, i) - 1] != '\\'
    ensures forall j :: i <= j < SlotEnd(s, i) && s[j] == '}' ==> s[j - 1] == '\\'
    decreases |s| - i
  {
    if i < |s| {
      SlotEndFirst(s, i + 1);
    }
  }

  lemma SlotIsClosed(s: string, i: nat, j: nat)
    requires i + 1 <= j < |s| && s[i] == '{' && s[i + 1] != '{' && s[j] == '}' && s[j - 1] != '\\'
    requires forall k :: i + 1 <= k < j && s[k] == '}' ==> s[k - 1] == '\\'
    ensures Closed(s[i + 1..j])
  {
    var body := s[i + 1..j];
    assert forall k :: 0 <= k < |body| ==> body[k] == s[i + 1 + k];
    if body != "" {
      assert body[|body| - 1] == s[j - 1];
      assert body[0] == s[i + 1];
    }
  }

  /** One more token in front. */
  lemma WriteMore(s: string, i: nat, j: nat, t: Token)
    requires i < j <= |s| && s[i..j] == TokenText(t)
    requires AllClosed(Scan(s, j).tokens) && (t.Slot? ==> Closed(t.body))
    requires TokensText(Scan(s, j).tokens) + EndText(Scan(s, j).end) == s[j..]
    ensures AllClosed(Prepend(t, Scan(s, j)).tokens)
    ensures var m := Prepend(t, Scan(s, j)); TokensText(m.tokens) + EndText(m.end) == s[i..]
  {
    hide Scan, TokenText, EndText, Closed;
    var m := Scan(s, j);
    var text := TokensText(m.tokens) + EndText(m.end);
    assert Prepend(t, m).tokens[1..] == m.tokens;
    assert TokensText(Prepend(t, m).tokens) + EndText(m.end) == TokenText(t) + text;
    assert s[i..] == s[i..j] + s[j..];
  }

  // ---------------------------------------------------------------- templates and their meaning

  function TokenOf(p: Part): Token {
    match p
    case Lit(c) => Char(c)
    case Hole(ref, format) => Slot(BodyText(ref, format))
  }

  function TokensOf(parts: seq<Part>): seq<Token> {
    if parts == [] then [] else [TokenOf(parts[0])] + TokensOf(parts[1..])
  }

  lemma {:induction false} ConcreteIsTokens(parts: seq<Part>)
    requires forall p :: p in parts ==> WellFormed(p)
    ensures TokensText(TokensOf(parts)) == Concrete(parts) && AllClosed(TokensOf(parts))
  {
    hide WellFormed, Closed, BodyText;
    if parts != [] {
      ConcreteIsTokens(parts[1..]);
      var tokens := TokensOf(parts);
      assert tokens[1..] == TokensOf(parts[1..]);
      if parts[0].Hole? {
        BodyIsClosed(parts[0]);
      }
    }
  }

  lemma BodyIsClosed(p: Part)
    requires p.Hole? && WellFormed(p)
    ensures Closed(BodyText(p.ref, p.format)) && '}' !in BodyText(p.ref, p.format)
  {
    if p.ref.Index? {
      NumeralMeans(p.ref.n);
    }
    assert '}' !in RefText(p.ref);
  }

  /** Reading a placeholder's content gives back what it was written from. */
  lemma BodyRoundTrip(ref: Ref, format: Option<string>)
    requires WellFormed(Hole(ref, format))
    ensures RefOf(BodyText(ref, format)) == Some(if ref.Index? then Index(Min(ref.n, U32_MAX)) else ref)
    ensures FormatOf(BodyText(ref, format)) == if format.Some? then format.value else ""
  {
    hide RefOf, RefEnd, FormatOf, Numeral;
    var tail := if format.Some? then ":" + format.value else "";
    var body := RefText(ref) + tail;
    assert body == BodyText(ref, format);
    match ref {
      case Next => NextRead(tail);
      case Index(n) => IndexRead(n, tail);
      case Key(name) => KeyRead(name, tail);
    }
    FormatRead(RefText(ref), format);
  }

  lemma NextRead(tail: string)
    requires tail != "" ==> tail[0] == ':'
    ensures RefOf("" + tail) == Some(Next) && RefEnd("" + tail) == 0
  {
    assert "" + tail == tail;
  }

  lemma IndexRead(n: nat, tail: string)
    requires tail != "" ==> tail[0] == ':'
    ensures RefOf(Numeral(n) + tail) == Some(Index(Min(n, U32_MAX))) && RefEnd(Numeral(n) + tail) == |Numeral(n)|
  {
    hide Numeral, Saturated;
    NumeralMeans(n);
    ReadUndoesPrint(n, tail);
    assert (Numeral(n) + tail)[0] == Numeral(n)[0];
  }

  lemma KeyRead(name: string, tail: string)
    requires GoodKey(name) && (tail != "" ==> tail[0] == ':')
    ensures RefOf(name + tail) == Some(Key(name)) && RefEnd(name + tail) == |name|
  {
    hide Upto;
    var body := name + tail;
    assert body[0] == name[0] && body[..|name|] == name;
    UptoIs(body, ':', 0, |name|);
  }

  lemma FormatRead(front: string, format: Option<string>)
    requires var body := front + if format.Some? then ":" + format.value else ""; RefEnd(body) == |front|
    requires format.Some? ==> '}' !in format.value
    ensures FormatOf(front + if format.Some? then ":" + format.value else "")
         == if format.Some? then format.value else ""
  {
    hide RefEnd, Upto;
    var body := front + if format.Some? then ":" + format.value else "";
    if format.Some? {
      assert body[|front|] == ':';
      assert body[|front| + 1..] == format.value;
      assert forall j :: |front| + 1 <= j < |body| ==> body[j] == format.value[j - |front| - 1];
      UptoIs(body, '}', |front| + 1, |body|);
    }
  }

  lemma {:induction false} UptoIs(s: string, stop: char, i: nat, k: nat)
    requires i <= k <= |s| && (k < |s| ==> s[k] == stop)
    requires forall j :: i <= j < k ==> s[j] != stop && s[j] != '}'
    ensures Upto(s, stop, i) == k
    decreases k - i
  {
    if i < k {
      UptoIs(s, stop, i + 1, k);
    }
  }

  lemma InsertedMeans(ref: Ref, format: Option<string>, k: nat, args: seq<KeyValue>)
    requires WellFormed(Hole(ref, format)) && |args| <= U32_MAX
    ensures Inserted(BodyText(ref, format), k, args)
         == match Resolve(ref, k, args)
            case None => None
            case Some(v) => Some(Shown(v, if format.Some? then format.value else ""))
  {
    hide RefOf, FormatOf, WellFormed, Shown, BodyText;
    BodyRoundTrip(ref, format);
  }

  /** The tokens of a template render to its meaning; without one the assertion fires, if there are assertions. */
  lemma {:induction false} TokensMean(out: string, parts: seq<Part>, k: nat, args: seq<KeyValue>, asserts: bool)
    requires (forall p :: p in parts ==> WellFormed(p)) && |args| <= U32_MAX
    ensures var r := Rendered(out, Scanned(TokensOf(parts), Done), k, args, asserts);
            match Meaning(parts, k, args)
            case None => asserts ==> r == Aborted
            case Some(text) => r == Text(out + text)
    decreases |parts|
  {
    hide WellFormed, Inserted, Shown, BodyText, Resolve, Rendered;
    if parts == [] {
      RenderedEnd(out, Done, k, args, asserts);
      assert out + "" == out;
    } else {
      var rest := Scanned(TokensOf(parts[1..]), Done);
      assert Scanned(TokensOf(parts), Done) == Prepend(TokenOf(parts[0]), rest);
      match parts[0]
      case Lit(c) =>
        RenderedChar(out, c, rest, k, args, asserts);
        TokensMean(out + [c], parts[1..], k, args, asserts);
        var m := Meaning(parts[1..], k, args);
        assert m.Some? ==> out + ([c] + m.value) == out + [c] + m.value;
      case Hole(ref, format) =>
        RenderedSlot(out, BodyText(ref, format), rest, k, args, asserts);
        InsertedMeans(ref, format, k, args);
        var v := Resolve(ref, k, args);
        if v.Some? {
          var text := Shown(v.value, if format.Some? then format.value else "");
          TokensMean(out + text, parts[1..], k + 1, args, asserts);
          var m := Meaning(parts[1..], k + 1, args);
          assert m.Some? ==> out + (text + m.value) == out + text + m.value;
        }
    }
  }

  /** Every template, written down and formatted, comes out as its meaning, with assertions or without; if some
      placeholder has no argument the assertion fires. */
  lemma FormatsToMeaning(parts: seq<Part>, args: seq<KeyValue>, asserts: bool)
    requires (forall p :: p in parts ==> WellFormed(p)) && |args| <= U32_MAX
    ensures var r := Rendered("", Scan(Concrete(parts), 0), 0, args, asserts);
            match Meaning(parts, 0, args)
            case None => asserts ==> r == Aborted
            case Some(text) => r == Text(text)
    ensures !Scan(Concrete(parts), 0).end.LoneClose?
  {
    hide WellFormed, Scan, Meaning, Rendered;
    ConcreteIsTokens(parts);
    ScanUndoesWriting("", TokensOf(parts));
    assert "" + TokensText(TokensOf(parts)) == Concrete(parts);
    TokensMean("", parts, 0, args, asserts);
    var m := Meaning(parts, 0, args);
    assert m.Some? ==> "" + m.value == m.value;
  }

  function Doubled(s: string): string {
    if s == "" then "" else (if IsBrace(s[0]) then [s[0], s[0]] else [s[0]]) + Doubled(s[1..])
  }

  function Chars(s: string): seq<Token> {
    if s == "" then [] else [Char(s[0])] + Chars(s[1..])
  }

  lemma {:induction false} DoubledIsChars(s: string)
    ensures TokensText(Chars(s)) == Doubled(s) && AllClosed(Chars(s))
  {
    if s != "" {
      DoubledIsChars(s[1..]);
      assert Chars(s)[1..] == Chars(s[1..]);
    }
  }

  lemma {:induction false} CharsRender(out: string, s: string, k: nat, args: seq<KeyValue>, asserts: bool)
    ensures Rendered(out, Scanned(Chars(s), Done), k, args, asserts) == Text(out + s)
    decreases |s|
  {
    hide Rendered;
    if s == "" {
      RenderedEnd(out, Done, k, args, asserts);
      assert out + "" == out;
    } else {
      var rest := Scanned(Chars(s[1..]), Done);
      assert Scanned(Chars(s), Done) == Prepend(Char(s[0]), rest);
      RenderedChar(out, s[0], rest, k, args, asserts);
      CharsRender(out + [s[0]], s[1..], k, args, asserts);
      assert out + [s[0]] + s[1..] == out + s;
    }
  }

  /** Any string at all survives: doubling its braces and formatting gives the string back. */
  lemma DoublingEscapes(s: string, args: seq<KeyValue>, asserts: bool)
    ensures Rendered("", Scan(Doubled(s), 0), 0, args, asserts) == Text(s)
  {
    hide Rendered, Scan;
    DoubledIsChars(s);
    ScanUndoesWriting("", Chars(s));
    assert "" + TokensText(Chars(s)) == Doubled(s);
    CharsRender("", s, 0, args, asserts);
    assert "" + s == s;
  }

  /** Keys of one character are refused even when an argument has them; longer ones are always found. */
  lemma KeyFoundExactly(name: string, k: nat, args: seq<KeyValue>)
    requires name != "" && !IsDigit(name[0]) && ':' !in name && '}' !in name
    ensures Inserted(name, k, args).Some? <==> |name| > 1 && FirstWithKey(args, name).Some?
  {
    UptoIs(name, ':', 0, |name|);
    assert name[..|name|] == name;
  }
}
