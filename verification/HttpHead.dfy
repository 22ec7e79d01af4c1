/** The resumable scanner for HTTP request heads (kit_webServer.h). */
module HttpHead {
  import opened Bytes

  predicate IsSpacing(c: char) {
    c == ' ' || c == '\t' || c == '\U{000B}' || c == '\U{000C}'
  }

  predicate IsEol(c: char) {
    c == '\n' || c == '\r'
  }

  predicate IsBlank(c: char) {
    IsSpacing(c) || IsEol(c)
  }

  /** In ASCII: tabulators, form feed and space are spacing, line feed and carriage return end lines. */
  lemma BlanksInAscii(c: char)
    ensures IsSpacing(c) <==> c as int in {9, 11, 12, 32}
    ensures IsEol(c) <==> c as int in {10, 13}
  {
  }

  // ---------------------------------------------------------------- the request line

  /** The first blank from `i` on, or the end. */
  function BlankFrom(s: string, i: nat): (j: nat)
    requires i <= |s|
    ensures i <= j <= |s|
    ensures (j < |s| ==> IsBlank(s[j])) && forall k :: i <= k < j ==> !IsBlank(s[k])
    decreases |s| - i
  {
    if i == |s| || IsBlank(s[i]) then i else BlankFrom(s, i + 1)
  }

  datatype Line = Line(tokens: seq<string>, next: nat)

  /** Tokens of the first line from `i` on, `n` of them already read, and where the line ends: behind its end
      character, or at the end of the data when a token is cut off there or a fourth one begins. */
  function LineFrom(s: string, i: nat, n: nat): (r: Line)
    requires i <= |s| && n <= 3
    ensures i <= r.next <= |s| && n + |r.tokens| <= 3
    decreases |s| - i
  {
    if i == |s| then Line([], i)
    else if IsSpacing(s[i]) then LineFrom(s, i + 1, n)
    else if IsEol(s[i]) then Line([], i + 1)
    else if n == 3 then Line([], |s|)
    else
      var j := BlankFrom(s, i + 1);
      if j == |s| then Line([], |s|)
      else if IsEol(s[j]) then Line([s[i..j]], j + 1)
      else
        var rest := LineFrom(s, j + 1, n + 1);
        Line([s[i..j]] + rest.tokens, rest.next)
  }

  /** Where the fields begin; the size less one is taken in 64 bits, so empty data gives one. */
  function HeaderStart(s: string): nat {
    if s == "" then 1 else Min(LineFrom(s, 0, 0).next + 1, |s| - 1)
  }

  datatype MethodType = Unknown | Get | Post

  function MethodOf(text: string): MethodType {
    if text == "GET" then Get else if text == "POST" then Post else Unknown
  }

  function TokenAt(tokens: seq<string>, k: nat): string {
    if k < |tokens| then tokens[k] else ""
  }

  // ---------------------------------------------------------------- fields

  /** Leading spacing and line ends dropped. */
  function Trimmed(s: string): string {
    if s != "" && IsBlank(s[0]) then Trimmed(s[1..]) else s
  }

  function ColonFrom(s: string, i: nat): (j: nat)
    requires i <= |s|
    ensures i <= j <= |s|
    ensures (j < |s| ==> s[j] == ':') && forall k :: i <= k < j ==> s[k] != ':'
    decreases |s| - i
  {
    if i == |s| || s[i] == ':' then i else ColonFrom(s, i + 1)
  }

  function EolFrom(s: string, i: nat): (j: nat)
    requires i <= |s|
    ensures i <= j <= |s|
    ensures (j < |s| ==> IsEol(s[j])) && forall k :: i <= k < j ==> !IsEol(s[k])
    decreases |s| - i
  {
    if i == |s| || IsEol(s[i]) then i else EolFrom(s, i + 1)
  }

  function PastEols(s: string, i: nat): (j: nat)
    requires i <= |s|
    ensures i <= j <= |s|
    ensures (j < |s| ==> !IsEol(s[j])) && forall k :: i <= k < j ==> IsEol(s[k])
    decreases |s| - i
  {
    if i == |s| || !IsEol(s[i]) then i else PastEols(s, i + 1)
  }

  datatype Read = NoField | Field(key: string, value: string, next: nat)

  /** The field from `i` on, and where the one after it begins. */
  function FieldFrom(s: string, i: nat): (r: Read)
    ensures r.Field? ==> i < r.next <= |s|
  {
    if i >= |s| then NoField
    else
      var colon := ColonFrom(s, i);
      if colon == |s| then NoField
      else
        var eol := EolFrom(s, colon);
        if eol == |s| then NoField
        else
          Field(Trimmed(s[i..colon]), Trimmed(s[colon + 1..eol]), PastEols(s, eol))
  }

  /** All fields that repeated reading yields from `i` on. */
  function FieldsFrom(s: string, i: nat): seq<(string, string)>
    decreases |s| - i
  {
    match FieldFrom(s, i)
    case NoField => []
    case Field(key, value, next) => [(key, value)] + FieldsFrom(s, next)
  }

  // ---------------------------------------------------------------- the object

  class HttpHeader {
    var headerData: string
    var headerStart: nat
    var needle: nat
    var methodType: MethodType
    var methodText: string
    var path: string
    var protocol: string
    var currentHeaderKey: string
    var currentHeaderValue: string

    /** The scanner's indices are `i32`. */
    predicate Valid()
      reads this
    {
      && |headerData| < 0x7FFF_FFFE
      && headerStart == HeaderStart(headerData)
      && headerStart <= needle <= (if headerData == "" then 1 else |headerData|)
    }

    /** Fields still to come. */
    function Remaining(): seq<(string, string)>
      reads this
    {
      FieldsFrom(headerData, needle)
    }

    constructor (data: string)
      requires |data| < 0x7FFF_FFFE
      ensures Valid() && headerData == data && needle == headerStart
      ensures var tokens := LineFrom(data, 0, 0).tokens;
              && methodText == TokenAt(tokens, 0) && path == TokenAt(tokens, 1) && protocol == TokenAt(tokens, 2)
      ensures methodType == Get <==> methodText == "GET"
      ensures methodType == Post <==> methodText == "POST"
      ensures currentHeaderKey == "" && currentHeaderValue == ""
      ensures Remaining() == FieldsFrom(data, HeaderStart(data))
    {
      var headerText, idx := ScanLine(data);
      headerData := data;
      headerStart := if |data| == 0 then idx + 1 else Min(idx + 1, |data| - 1);
      needle := headerStart;
      methodText := if |headerText| > 0 then headerText[0] else "";
      methodType := if |headerText| > 0 then MethodOf(headerText[0]) else Unknown;
      path := if |headerText| > 1 then headerText[1] else "";
      protocol := if |headerText| > 2 then headerText[2] else "";
      currentHeaderKey, currentHeaderValue := "", "";
    }

    method SeekColon()
      requires needle <= |headerData|
      modifies this`needle
      ensures needle == ColonFrom(headerData, old(needle))
    {
      ghost var start := needle;
      while needle < |headerData| && headerData[needle] != ':'
        invariant start <= needle <= |headerData|
        invariant ColonFrom(headerData, start) == ColonFrom(headerData, needle)
      {
        needle := needle + 1;
      }
    }

    method SeekEol()
      requires needle <= |headerData|
      modifies this`needle
      ensures needle == EolFrom(headerData, old(needle))
    {
      ghost var start := needle;
      while needle < |headerData| && !IsEol(headerData[needle])
        invariant start <= needle <= |headerData|
        invariant EolFrom(headerData, start) == EolFrom(headerData, needle)
      {
        needle := needle + 1;
      }
    }

    method SkipEols()
      requires needle <= |headerData|
      modifies this`needle
      ensures needle == PastEols(headerData, old(needle))
    {
      ghost var start := needle;
      while needle < |headerData| && IsEol(headerData[needle])
        invariant start <= needle <= |headerData|
        invariant PastEols(headerData, start) == PastEols(headerData, needle)
      {
        needle := needle + 1;
      }
    }

    /** True exactly when a field was there; it is then the first of the remaining ones, and the position has
        strictly advanced within the data. Otherwise nothing remains. */
    method Next() returns (ok: bool)
      requires Valid()
      modifies this`needle, this`currentHeaderKey, this`currentHeaderValue
      ensures Valid()
      ensures ok <==> old(Remaining()) != []
      ensures ok ==> old(Remaining()) == [(currentHeaderKey, currentHeaderValue)] + Remaining()
      ensures old(needle) <= needle && (ok ==> old(needle) < needle <= |headerData|)
      ensures !ok ==> Remaining() == [] && currentHeaderKey == old(currentHeaderKey)
                      && currentHeaderValue == old(currentHeaderValue)
    {
      hide HeaderStart, ColonFrom, EolFrom, PastEols, FieldsFrom, Trimmed;
      FieldsStep(headerData, needle);
      FieldsEnd(headerData);
      if needle >= |headerData| {
        return false;
      }
      var keyStart := needle;
      SeekColon();
      if needle == |headerData| {
        return false;
      }
      var key := headerData[keyStart..needle];
      var valueStart := needle + 1;
      SeekEol();
      if needle == |headerData| {
        return false;
      }
      var value := headerData[valueStart..needle];
      currentHeaderKey := SkipWhiteSpace(key);
      currentHeaderValue := SkipWhiteSpace(value);
      SkipEols();
      return true;
    }

    /** Reading starts again at the first field. */
    method Reset()
      requires Valid()
      modifies this`needle
      ensures Valid() && needle == headerStart
      ensures Remaining() == FieldsFrom(headerData, HeaderStart(headerData))
    {
      needle := headerStart;
    }
  }

  lemma FieldsStep(s: string, i: nat)
    ensures FieldsFrom(s, i) == match FieldFrom(s, i)
                                case NoField => []
                                case Field(key, value, next) => [(key, value)] + FieldsFrom(s, next)
  {
  }

  lemma FieldsEnd(s: string)
    ensures forall i: nat :: i >= |s| ==> FieldsFrom(s, i) == []
  {
  }

  /** Tokens of the first line, and an index behind it (one past the data when the line is cut off). */
  method ScanLine(data: string) returns (headerText: seq<string>, idx: nat)
    ensures headerText == LineFrom(data, 0, 0).tokens
    ensures idx == LineFrom(data, 0, 0).next || (data != "" && idx == |data| + 1 && LineFrom(data, 0, 0).next == |data|)
  {
    hide LineFrom;
    var headerTextLastEnd := 0;
    headerText, idx := [], 0;
    ghost var line := LineFrom(data, 0, 0);
    while idx < |data|
      invariant idx <= |data| && headerTextLastEnd == idx && |headerText| <= 3
      invariant line == Joined(headerText, LineFrom(data, idx, |headerText|))
    {
      if IsSpacing(data[idx]) {
        LineSpacing(data, idx, |headerText|);
        idx := idx + 1;
        headerTextLastEnd := idx;
        continue;
      }
      if IsEol(data[idx]) {
        LineEnds(data, idx, |headerText|);
        idx := idx + 1;
        return;
      }
      ghost var start := idx;
      while idx < |data| && !(|headerText| < 3 && (IsEol(data[idx]) || IsSpacing(data[idx])))
        invariant start <= idx <= |data| && (idx == start ==> idx < |data|)
        invariant |headerText| < 3 ==> forall k :: start <= k < idx ==> !IsBlank(data[k])
      {
        idx := idx + 1;
      }
      if |headerText| < 3 {
        LineToken(data, start, idx, |headerText|);
      } else {
        LineFourth(data, start);
      }
      if idx == |data| {
        return headerText, idx + 1;
      }
      var token := data[headerTextLastEnd..idx];
      headerTextLastEnd := idx + 1;
      ghost var before := headerText;
      headerText := headerText + [token];
      if IsEol(data[idx]) {
        return headerText, idx + 1;
      }
      idx := idx + 1;
      JoinedTwice(before, token, LineFrom(data, idx, |headerText|));
    }
    LineNone(data, |headerText|);
  }

  lemma JoinedTwice(tokens: seq<string>, token: string, rest: Line)
    ensures Joined(tokens, Joined([token], rest)) == Joined(tokens + [token], rest)
  {
    assert tokens + ([token] + rest.tokens) == tokens + [token] + rest.tokens;
  }

  lemma LineSpacing(s: string, i: nat, n: nat)
    requires i < |s| && IsSpacing(s[i]) && n <= 3
    ensures LineFrom(s, i, n) == LineFrom(s, i + 1, n)
  {
  }

  lemma LineEnds(s: string, i: nat, n: nat)
    requires i < |s| && IsEol(s[i]) && n <= 3
    ensures LineFrom(s, i, n) == Line([], i + 1)
  {
  }

  lemma LineFourth(s: string, i: nat)
    requires i < |s| && !IsBlank(s[i])
    ensures LineFrom(s, i, 3) == Line([], |s|)
  {
  }

  lemma LineNone(s: string, n: nat)
    requires n <= 3
    ensures LineFrom(s, |s|, n) == Line([], |s|)
  {
  }

  lemma LineToken(s: string, i: nat, j: nat, n: nat)
    requires i < j <= |s| && n < 3 && (j < |s| ==> IsBlank(s[j]))
    requires forall k :: i <= k < j ==> !IsBlank(s[k])
    ensures LineFrom(s, i, n)
         == if j == |s| then Line([], |s|)
            else if IsEol(s[j]) then Line([s[i..j]], j + 1)
            else Joined([s[i..j]], LineFrom(s, j + 1, n + 1))
  {
    BlankIs(s, i + 1, j);
  }

  function Joined(tokens: seq<string>, rest: Line): Line {
    Line(tokens + rest.tokens, rest.next)
  }

  method SkipWhiteSpace(s: string) returns (r: string)
    ensures r == Trimmed(s)
  {
    r := s;
    while |r| > 0 && (IsSpacing(r[0]) || IsEol(r[0]))
      invariant Trimmed(r) == Trimmed(s)
    {
      r := r[1..];
    }
  }

  lemma {:induction false} BlankIs(s: string, i: nat, k: nat)
    requires i <= k <= |s| && (k < |s| ==> IsBlank(s[k]))
    requires forall j :: i <= j < k ==> !IsBlank(s[j])
    ensures BlankFrom(s, i) == k
    decreases k - i
  {
    if i < k {
      BlankIs(s, i + 1, k);
    }
  }

  // ---------------------------------------------------------------- reading undoes writing

  /** A field as it is sent: no colon in the name and no blank in front of it; any optional spacing before the value; no
      line end in the value and no spacing in front of it. Line ends inside a name are taken for part of it. */
  datatype HeaderField = HeaderField(name: string, ows: string, value: string)

  predicate AllSpacing(s: string) {
    forall i :: 0 <= i < |s| ==> IsSpacing(s[i])
  }

  predicate GoodField(f: HeaderField) {
    && (forall i :: 0 <= i < |f.name| ==> f.name[i] != ':')
    && (f.name != "" ==> !IsBlank(f.name[0]))
    && AllSpacing(f.ows)
    && (forall i :: 0 <= i < |f.value| ==> !IsEol(f.value[i]))
    && (f.value != "" ==> !IsSpacing(f.value[0]))
  }

  function FieldText(f: HeaderField): string {
    f.name + ":" + f.ows + f.value + "\r\n"
  }

  function FieldsText(fields: seq<HeaderField>): string {
    if fields == [] then "\r\n" else FieldText(fields[0]) + FieldsText(fields[1..])
  }

  function Pairs(fields: seq<HeaderField>): seq<(string, string)> {
    if fields == [] then [] else [(fields[0].name, fields[0].value)] + Pairs(fields[1..])
  }

  /** A request line: three tokens, spacing between them, any around them. */
  datatype RequestLine = RequestLine(lead: string, verb: string, gap: string, target: string, gap2: string,
                                     version: string, trail: string)

  predicate GoodToken(s: string) {
    s != "" && forall i :: 0 <= i < |s| ==> !IsBlank(s[i])
  }

  predicate GoodLine(l: RequestLine) {
    && AllSpacing(l.lead) && AllSpacing(l.gap) && AllSpacing(l.gap2) && AllSpacing(l.trail)
    && l.gap != "" && l.gap2 != ""
    && GoodToken(l.verb) && GoodToken(l.target) && GoodToken(l.version)
  }

  function LineText(l: RequestLine): string {
    l.lead + l.verb + l.gap + l.target + l.gap2 + l.version + l.trail + "\r\n"
  }

  function HeadText(l: RequestLine, fields: seq<HeaderField>): string {
    LineText(l) + FieldsText(fields)
  }

  lemma Placed(front: string, piece: string, back: string)
    ensures (front + piece + back)[|front|..|front| + |piece|] == piece
    ensures forall k :: |front| <= k < |front| + |piece| ==> (front + piece + back)[k] == piece[k - |front|]
  {
    var s := front + piece + back;
    assert forall k :: |front| <= k < |front| + |piece| ==> s[k] == piece[k - |front|];
    assert s[|front|..|front| + |piece|] == piece;
  }

  /** Spacing in front is passed over. */
  lemma {:induction false} SkipSpacing(front: string, gap: string, back: string, n: nat)
    requires AllSpacing(gap) && n <= 3
    ensures LineFrom(front + gap + back, |front|, n) == LineFrom(front + gap + back, |front + gap|, n)
    decreases |gap|
  {
    hide LineFrom;
    if gap != "" {
      var s := front + gap + back;
      LineSpacing(s, |front|, n);
      assert s[|front|] == gap[0];
      assert s == (front + [gap[0]]) + gap[1..] + back;
      SkipSpacing(front + [gap[0]], gap[1..], back, n);
    }
  }

  /** A token followed by a blank is read whole. */
  lemma ReadToken(front: string, token: string, back: string, n: nat)
    requires GoodToken(token) && back != "" && IsBlank(back[0]) && n < 3
    ensures var s := front + token + back; var j := |front + token|;
            LineFrom(s, |front|, n)
            == if IsEol(back[0]) then Line([token], j + 1) else Joined([token], LineFrom(s, j + 1, n + 1))
  {
    hide LineFrom;
    var s := front + token + back;
    Placed(front, token, back);
    assert s[|front + token|] == back[0];
    LineToken(s, |front|, |front + token|, n);
  }

  /** The last token, its trailing spacing and the carriage return. */
  lemma ReadLastToken(front: string, token: string, trail: string, back: string)
    requires GoodToken(token) && AllSpacing(trail)
    ensures LineFrom(front + token + trail + "\r" + back, |front|, 2)
         == Line([token], |front + token + trail| + 1)
  {
    hide LineFrom;
    var s := front + token + trail + "\r" + back;
    var rest := trail + "\r" + back;
    assert s == front + token + rest;
    ReadToken(front, token, rest, 2);
    if trail != "" {
      var begin := front + token + [trail[0]];
      assert s == begin + trail[1..] + ("\r" + back);
      SkipSpacing(begin, trail[1..], "\r" + back, 3);
      assert s[|front + token + trail|] == '\r';
      LineEnds(s, |front + token + trail|, 3);
    }
  }

  /** A token and the spacing behind it. */
  lemma ReadTokenAndGap(front: string, token: string, gap: string, back: string, n: nat)
    requires GoodToken(token) && AllSpacing(gap) && gap != "" && n < 3
    ensures LineFrom(front + token + gap + back, |front|, n)
         == Joined([token], LineFrom(front + token + gap + back, |front + token + gap|, n + 1))
  {
    hide LineFrom;
    var s := front + token + gap + back;
    assert s == front + token + (gap + back);
    ReadToken(front, token, gap + back, n);
    var begin := front + token + [gap[0]];
    assert s == begin + gap[1..] + back;
    SkipSpacing(begin, gap[1..], back, n + 1);
  }

  lemma FirstToken(l: RequestLine, rest: string)
    requires GoodLine(l)
    ensures var s := LineText(l) + rest;
            LineFrom(s, 0, 0) == Joined([l.verb], LineFrom(s, |l.lead + l.verb + l.gap|, 1))
  {
    hide LineFrom;
    var s, a := LineText(l) + rest, l.lead;
    var back := l.target + l.gap2 + l.version + l.trail + "\r\n" + rest;
    assert s == a + l.verb + l.gap + back;
    assert s == "" + a + (l.verb + l.gap + back);
    SkipSpacing("", a, l.verb + l.gap + back, 0);
    assert "" + a == a;
    ReadTokenAndGap(a, l.verb, l.gap, back, 0);
  }

  lemma SecondToken(l: RequestLine, rest: string)
    requires GoodLine(l)
    ensures var s, b := LineText(l) + rest, l.lead + l.verb + l.gap;
            LineFrom(s, |b|, 1) == Joined([l.target], LineFrom(s, |b + l.target + l.gap2|, 2))
  {
    hide LineFrom;
    var s, b := LineText(l) + rest, l.lead + l.verb + l.gap;
    var back := l.version + l.trail + "\r\n" + rest;
    assert s == b + l.target + l.gap2 + back;
    ReadTokenAndGap(b, l.target, l.gap2, back, 1);
  }

  lemma ThirdToken(l: RequestLine, rest: string)
    requires GoodLine(l)
    ensures var s, c := LineText(l) + rest, l.lead + l.verb + l.gap + l.target + l.gap2;
            LineFrom(s, |c|, 2) == Line([l.version], |LineText(l)| - 1)
  {
    hide LineFrom;
    var s, c := LineText(l) + rest, l.lead + l.verb + l.gap + l.target + l.gap2;
    assert s == c + l.version + l.trail + "\r" + ("\n" + rest);
    ReadLastToken(c, l.version, l.trail, "\n" + rest);
  }

  /** The request line yields its three tokens, and the fields begin right behind it. */
  lemma LineRoundTrip(l: RequestLine, rest: string)
    requires GoodLine(l) && |rest| >= 2
    ensures var s := LineText(l) + rest;
            LineFrom(s, 0, 0).tokens == [l.verb, l.target, l.version] && HeaderStart(s) == |LineText(l)|
  {
    hide LineFrom, LineText;
    FirstToken(l, rest);
    SecondToken(l, rest);
    ThirdToken(l, rest);
  }

  lemma {:induction false} TrimSpacing(gap: string, s: string)
    requires AllSpacing(gap) && (s != "" ==> !IsBlank(s[0]))
    ensures Trimmed(gap + s) == s
  {
    if gap == "" {
      assert gap + s == s;
    } else {
      assert (gap + s)[1..] == gap[1..] + s;
      TrimSpacing(gap[1..], s);
    }
  }

  lemma {:induction false} ColonIs(s: string, i: nat, k: nat)
    requires i <= k < |s| && s[k] == ':' && forall j :: i <= j < k ==> s[j] != ':'
    ensures ColonFrom(s, i) == k
    decreases k - i
  {
    if i < k {
      ColonIs(s, i + 1, k);
    }
  }

  lemma {:induction false} EolIs(s: string, i: nat, k: nat)
    requires i <= k < |s| && IsEol(s[k]) && forall j :: i <= j < k ==> !IsEol(s[j])
    ensures EolFrom(s, i) == k
    decreases k - i
  {
    if i < k {
      EolIs(s, i + 1, k);
    }
  }

  /** A field is read back wherever it stands; the position moves over its line end and any further ones. */
  lemma FieldRoundTrip(front: string, f: HeaderField, rest: string)
    requires GoodField(f)
    ensures var s := front + FieldText(f) + rest;
            FieldFrom(s, |front|) == Field(f.name, f.value, PastEols(s, |front + FieldText(f)|))
  {
    hide ColonFrom, EolFrom, PastEols, Trimmed, FieldText;
    var s := front + FieldText(f) + rest;
    var colon := |front + f.name|;
    var eol := colon + 1 + |f.ows| + |f.value|;
    FieldLayout(front, f, rest);
    ColonIs(s, |front|, colon);
    EolIs(s, colon, eol);
    PastTwo(s, eol);
    NameTrimmed(f);
    TrimSpacing(f.ows, f.value);
  }

  /** Where the parts of a field are. */
  lemma FieldLayout(front: string, f: HeaderField, rest: string)
    requires GoodField(f)
    ensures var s := front + FieldText(f) + rest;
            var colon := |front + f.name|;
            var eol := colon + 1 + |f.ows| + |f.value|;
            && eol + 2 == |front + FieldText(f)| <= |s|
            && s[|front|..colon] == f.name && s[colon] == ':' && s[colon + 1..eol] == f.ows + f.value
            && s[eol] == '\r' && s[eol + 1] == '\n'
            && (forall k :: |front| <= k < colon ==> s[k] != ':')
            && (forall k :: colon <= k < eol ==> !IsEol(s[k]))
  {
    hide FieldText;
    var t := FieldText(f);
    var s := front + t + rest;
    var n := |f.name|;
    TextLayout(f);
    Placed(front, t, rest);
    SliceOfSlice(s, |front|, |front| + |t|, 0, n);
    SliceOfSlice(s, |front|, |front| + |t|, n + 1, |t| - 2);
    assert forall k :: |front| <= k < |front| + |t| ==> s[k] == t[k - |front|];
  }

  lemma TextLayout(f: HeaderField)
    requires GoodField(f)
    ensures var t, n := FieldText(f), |f.name|;
            && |t| == n + 1 + |f.ows| + |f.value| + 2
            && t[0..n] == f.name && t[n] == ':' && t[n + 1..|t| - 2] == f.ows + f.value
            && t[|t| - 2] == '\r' && t[|t| - 1] == '\n'
            && (forall k :: 0 <= k < n ==> t[k] != ':')
            && (forall k :: n <= k < |t| - 2 ==> !IsEol(t[k]))
  {
    var t, text := FieldText(f), f.ows + f.value;
    assert t == (f.name + ":") + text + "\r\n";
    assert forall k :: 0 <= k < |text| ==> !IsEol(text[k]);
    Placed(f.name + ":", text, "\r\n");
  }

  lemma PastTwo(s: string, i: nat)
    requires i + 1 < |s| && IsEol(s[i]) && IsEol(s[i + 1])
    ensures PastEols(s, i) == PastEols(s, i + 2)
  {
  }

  lemma NameTrimmed(f: HeaderField)
    requires GoodField(f)
    ensures Trimmed(f.name) == f.name
  {
  }

  /** Any list of fields is read back in order, and then there is nothing left. */
  lemma {:induction false} FieldsRoundTrip(front: string, fields: seq<HeaderField>)
    requires forall f :: f in fields ==> GoodField(f)
    ensures FieldsFrom(front + FieldsText(fields), |front|) == Pairs(fields)
    decreases |fields|
  {
    hide FieldFrom, FieldText, PastEols, FieldsFrom;
    var s := front + FieldsText(fields);
    FieldsStep(s, |front|);
    if fields == [] {
      NoColonNoField(s, |front|);
    } else {
      var f, rest := fields[0], FieldsText(fields[1..]);
      var more := front + FieldText(f);
      assert s == more + rest;
      FieldRoundTrip(front, f, rest);
      FieldsRoundTrip(more, fields[1..]);
      if |fields| == 1 {
        PastTwo(s, |more|);
        PastEnd(s);
        NoColonNoField(s, |more|);
        FieldsStep(s, |more|);
        FieldsEnd(s);
      } else {
        FieldStart(fields[1]);
        assert rest == FieldText(fields[1]) + FieldsText(fields[1..][1..]);
        assert s[|more|] == FieldText(fields[1])[0];
        PastNone(s, |more|);
      }
    }
  }

  lemma PastEnd(s: string)
    ensures PastEols(s, |s|) == |s|
  {
  }

  lemma PastNone(s: string, i: nat)
    requires i < |s| && !IsEol(s[i])
    ensures PastEols(s, i) == i
  {
  }

  lemma FieldStart(f: HeaderField)
    requires GoodField(f)
    ensures FieldText(f) != "" && !IsEol(FieldText(f)[0])
  {
    assert FieldText(f)[0] == if f.name == "" then ':' else f.name[0];
  }

  lemma NoColonNoField(s: string, i: nat)
    requires i <= |s| && forall k :: i <= k < |s| ==> s[k] != ':'
    ensures FieldFrom(s, i) == NoField
  {
  }

  /** Writing a head and scanning it gives back its tokens and its fields, in order and nothing else. */
  lemma HeadRoundTrip(l: RequestLine, fields: seq<HeaderField>)
    requires GoodLine(l) && forall f :: f in fields ==> GoodField(f)
    ensures var s := HeadText(l, fields);
            && LineFrom(s, 0, 0).tokens == [l.verb, l.target, l.version]
            && FieldsFrom(s, HeaderStart(s)) == Pairs(fields)
  {
    hide LineFrom, FieldsFrom, HeaderStart, LineText;
    FieldsEndLine(fields);
    LineRoundTrip(l, FieldsText(fields));
    FieldsRoundTrip(LineText(l), fields);
  }

  lemma FieldsEndLine(fields: seq<HeaderField>)
    ensures |FieldsText(fields)| >= 2
  {
  }

  /** A fourth token on the request line swallows the rest of the data: there are no fields. */
  lemma FourthTokenSwallows(l: RequestLine, gap: string, rest: string)
    requires GoodLine(l) && l.trail == "" && AllSpacing(gap) && gap != "" && rest != "" && !IsBlank(rest[0])
    ensures var s := l.lead + l.verb + l.gap + l.target + l.gap2 + l.version + gap + rest;
            LineFrom(s, 0, 0) == Line([l.verb, l.target, l.version], |s|) && FieldsFrom(s, HeaderStart(s)) == []
  {
    hide LineFrom;
    var a, b := l.lead, l.lead + l.verb + l.gap;
    var c := b + l.target + l.gap2;
    var s := c + l.version + gap + rest;
    var back := l.target + l.gap2 + l.version + gap + rest;
    assert s == "" + a + (l.verb + l.gap + back) && "" + a == a && s == a + l.verb + l.gap + back;
    SkipSpacing("", a, l.verb + l.gap + back, 0);
    ReadTokenAndGap(a, l.verb, l.gap, back, 0);
    assert s == b + l.target + l.gap2 + (l.version + gap + rest);
    ReadTokenAndGap(b, l.target, l.gap2, l.version + gap + rest, 1);
    ReadTokenAndGap(c, l.version, gap, rest, 2);
    assert s[|c + l.version + gap|] == rest[0];
    LineFourth(s, |c + l.version + gap|);
    LastHasNoField(s);
  }

  /** At the last character no field begins. */
  lemma LastHasNoField(s: string)
    requires s != ""
    ensures FieldsFrom(s, |s| - 1) == []
  {
  }

  /** A token that the end of the data cuts off is not kept, and there are no fields. */
  lemma CutTokenIsDropped(lead: string, token: string)
    requires AllSpacing(lead) && GoodToken(token)
    ensures var s := lead + token; LineFrom(s, 0, 0) == Line([], |s|) && FieldsFrom(s, HeaderStart(s)) == []
  {
    hide LineFrom;
    var s := lead + token;
    assert s == "" + lead + token && "" + lead == lead;
    SkipSpacing("", lead, token, 0);
    assert forall k :: |lead| <= k < |s| ==> s[k] == token[k - |lead|];
    LineToken(s, |lead|, |s|, 0);
    LastHasNoField(s);
  }

  /** The object as it is used: set up, read field by field, reset, read again. Tokens and method are those of the
      request line, and both readings give the fields. */
  method ReadTwice(l: RequestLine, fields: seq<HeaderField>)
    returns (header: HttpHeader, first: seq<(string, string)>, second: seq<(string, string)>)
    requires GoodLine(l) && (forall f :: f in fields ==> GoodField(f)) && |HeadText(l, fields)| < 0x7FFF_FFFE
    ensures header.methodText == l.verb && header.path == l.target && header.protocol == l.version
    ensures header.methodType == Get <==> l.verb == "GET"
    ensures header.methodType == Post <==> l.verb == "POST"
    ensures first == Pairs(fields) && second == first
  {
    HeadRoundTrip(l, fields);
    header := new HttpHeader(HeadText(l, fields));
    first := ReadAll(header);
    header.Reset();
    second := ReadAll(header);
  }

  method ReadAll(header: HttpHeader) returns (read: seq<(string, string)>)
    requires header.Valid()
    modifies header`needle, header`currentHeaderKey, header`currentHeaderValue
    ensures header.Valid() && read == old(header.Remaining()) && header.headerData == old(header.headerData)
  {
    hide HeaderStart, FieldFrom, FieldsFrom, LineFrom;
    read := [];
    ghost var all := header.Remaining();
    var ok := true;
    while ok
      invariant header.Valid() && all == read + header.Remaining()
      invariant !ok ==> header.Remaining() == []
      decreases |header.headerData| + 1 - header.needle, ok
    {
      ok := header.Next();
      if ok {
        read := read + [(header.currentHeaderKey, header.currentHeaderValue)];
      }
    }
  }
}
