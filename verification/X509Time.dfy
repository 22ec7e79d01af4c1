/** Certificate times: the two ASN.1 time forms, their packing into one comparable number, and the
    Validity element (section 4.1.2.5 of RFC 5280). */
module X509Time {
  import opened Bytes
  import opened Der

  const UTC_TIME: byte := 0x17
  const GENERALIZED_TIME: byte := 0x18
  const ZULU: byte := 0x5A

  datatype Stamp = Stamp(year: nat, month: nat, day: nat, hour: nat, minute: nat, second: nat)

  /** The ranges the parsers test (month zero and day zero pass). */
  predicate InRange(t: Stamp) {
    t.year < 10000 && t.month <= 12 && t.day <= 31 && t.hour <= 23 && t.minute <= 59 && t.second <= 59
  }

  datatype ParsedTime = ParsedTime(kind: byte, eaten: nat, stamp: Stamp)

  // ---------------------------------------------------------------- text form

  function TwoDigits(n: nat): Octets
    requires n < 100
  {
    [0x30 + n / 10, 0x30 + n % 10]
  }

  function Tail(t: Stamp): Octets
    requires InRange(t)
  {
    TwoDigits(t.month) + TwoDigits(t.day) + TwoDigits(t.hour) + TwoDigits(t.minute) + TwoDigits(t.second) + [ZULU]
  }

  /** UTCTime writes two year digits and covers 1950 to 2049; GeneralizedTime writes four. */
  predicate Writable(kind: byte, t: Stamp) {
    InRange(t) && ((kind == UTC_TIME && 1950 <= t.year < 2050) || kind == GENERALIZED_TIME)
  }

  function TimeOctets(kind: byte, t: Stamp): Octets
    requires Writable(kind, t)
  {
    if kind == UTC_TIME then
      [UTC_TIME, 13] + TwoDigits(t.year % 100) + Tail(t)
    else
      [GENERALIZED_TIME, 15] + TwoDigits(t.year / 100) + TwoDigits(t.year % 100) + Tail(t)
  }

  // ---------------------------------------------------------------- parsers

  predicate Digits(s: Octets, n: nat)
    requires n <= |s|
  {
    forall i :: 0 <= i < n ==> 0x30 <= s[i] <= 0x39
  }

  function Decimal(d: byte, u: byte): nat
    requires 0x30 <= d <= 0x39 && 0x30 <= u <= 0x39
  {
    (d as int - 0x30) * 10 + (u as int - 0x30)
  }

  /** The five two-digit fields after the year. */
  function Fields(year: nat, s: Octets): Stamp
    requires |s| >= 10 && Digits(s, 10)
  {
    Stamp(year, Decimal(s[0], s[1]), Decimal(s[2], s[3]), Decimal(s[4], s[5]), Decimal(s[6], s[7]), Decimal(s[8], s[9]))
  }

  function UtcTimeAt(s: Octets): (r: Option<ParsedTime>)
    ensures r.Some? ==> r.value.kind == UTC_TIME && r.value.eaten == 15 <= |s|
  {
    if |s| < 15 || s[0] != UTC_TIME || s[1] != 13 || !Digits(s[2..], 12) || s[14] != ZULU then None
    else
      var yy := Decimal(s[2], s[3]);
      var t := Fields(if yy >= 50 then 1900 + yy else 2000 + yy, s[4..]);
      if InRange(t) then Some(ParsedTime(UTC_TIME, 15, t)) else None
  }

  function GeneralizedTimeAt(s: Octets): (r: Option<ParsedTime>)
    ensures r.Some? ==> r.value.kind == GENERALIZED_TIME && r.value.eaten == 17 <= |s|
  {
    if |s| < 17 || s[0] != GENERALIZED_TIME || s[1] != 15 || !Digits(s[2..], 14) || s[16] != ZULU then None
    else
      var t := Fields(Decimal(s[2], s[3]) * 100 + Decimal(s[4], s[5]), s[6..]);
      if InRange(t) then Some(ParsedTime(GENERALIZED_TIME, 17, t)) else None
  }

  function TimeAt(s: Octets): (r: Option<ParsedTime>)
    ensures r.Some? ==> 1 <= r.value.eaten <= |s|
  {
    if |s| < 2 then None
    else if s[0] == UTC_TIME then UtcTimeAt(s)
    else if s[0] == GENERALIZED_TIME then GeneralizedTimeAt(s)
    else None
  }

  method CheckDigits(s: Octets, n: nat) returns (ok: bool)
    requires n <= |s|
    ensures ok <==> Digits(s, n)
  {
    var i := 0;
    while i < n
      invariant i <= n && Digits(s, i)
    {
      if 0x30 > s[i] {
        return false;
      }
      if s[i] - 0x30 > 9 {
        return false;
      }
      i := i + 1;
    }
    return true;
  }

  method ParseUtcTime(input: Octets) returns (r: Option<ParsedTime>)
    ensures r == UtcTimeAt(input)
  {
    if |input| < 15 || input[0] != UTC_TIME || input[1] != 13 {
      return None;
    }
    var buf := input[2..];
    var digits := CheckDigits(buf, 12);
    if !digits || buf[12] != ZULU {
      return None;
    }
    var yyyy := Decimal(buf[0], buf[1]);
    if yyyy >= 50 {
      yyyy := yyyy + 1900;
    } else {
      yyyy := yyyy + 2000;
    }
    var mo, dd := Decimal(buf[2], buf[3]), Decimal(buf[4], buf[5]);
    var hh, mm, ss := Decimal(buf[6], buf[7]), Decimal(buf[8], buf[9]), Decimal(buf[10], buf[11]);
    if mo > 12 || dd > 31 || hh > 23 || mm > 59 || ss > 59 {
      return None;
    }
    return Some(ParsedTime(UTC_TIME, 15, Stamp(yyyy, mo, dd, hh, mm, ss)));
  }

  method ParseGeneralizedTime(input: Octets) returns (r: Option<ParsedTime>)
    ensures r == GeneralizedTimeAt(input)
  {
    if |input| < 17 || input[0] != GENERALIZED_TIME || input[1] != 15 {
      return None;
    }
    var buf := input[2..];
    var digits := CheckDigits(buf, 14);
    if !digits || buf[14] != ZULU {
      return None;
    }
    var yyyy := (buf[0] as int - 0x30) * 1000 + (buf[1] as int - 0x30) * 100 + (buf[2] as int - 0x30) * 10
                + (buf[3] as int - 0x30);
    var mo, dd := Decimal(buf[4], buf[5]), Decimal(buf[6], buf[7]);
    var hh, mm, ss := Decimal(buf[8], buf[9]), Decimal(buf[10], buf[11]), Decimal(buf[12], buf[13]);
    if mo > 12 || dd > 31 || hh > 23 || mm > 59 || ss > 59 {
      return None;
    }
    return Some(ParsedTime(GENERALIZED_TIME, 17, Stamp(yyyy, mo, dd, hh, mm, ss)));
  }

  method ParseTime(buf: Octets) returns (r: Option<ParsedTime>)
    ensures r == TimeAt(buf)
  {
    if |buf| < 2 {
      return None;
    }
    var timeType := buf[0];
    if timeType == UTC_TIME {
      r := ParseUtcTime(buf);
    } else if timeType == GENERALIZED_TIME {
      r := ParseGeneralizedTime(buf);
    } else {
      r := None;
    }
  }

  // ---------------------------------------------------------------- text round trip

  lemma DecimalOfDigits(n: nat)
    requires n < 100
    ensures Digits(TwoDigits(n), 2)
    ensures Decimal(TwoDigits(n)[0], TwoDigits(n)[1]) == n
  {
  }

  lemma DigitsOfDecimal(d: byte, u: byte)
    requires 0x30 <= d <= 0x39 && 0x30 <= u <= 0x39
    ensures Decimal(d, u) < 100 && TwoDigits(Decimal(d, u)) == [d, u]
  {
  }

  lemma TailReads(t: Stamp, year: nat, s: Octets)
    requires InRange(t) && |s| >= 11 && s[..11] == Tail(t)
    ensures Digits(s, 10) && s[10] == ZULU
    ensures Fields(year, s) == t.(year := year)
  {
    DecimalOfDigits(t.month);
    DecimalOfDigits(t.day);
    DecimalOfDigits(t.hour);
    DecimalOfDigits(t.minute);
    DecimalOfDigits(t.second);
    assert forall i :: 0 <= i < 11 ==> s[i] == s[..11][i];
  }

  lemma TailWrites(t: Stamp, s: Octets)
    requires |s| >= 11 && Digits(s, 10) && s[10] == ZULU && InRange(t)
    requires Fields(t.year, s) == t
    ensures s[..11] == Tail(t)
  {
    DigitsOfDecimal(s[0], s[1]);
    DigitsOfDecimal(s[2], s[3]);
    DigitsOfDecimal(s[4], s[5]);
    DigitsOfDecimal(s[6], s[7]);
    DigitsOfDecimal(s[8], s[9]);
  }

  /** Accepted exactly when the buffer starts with the text of a time of that kind. */
  lemma TimeExact(s: Octets, kind: byte, t: Stamp)
    ensures TimeAt(s) == Some(ParsedTime(kind, if kind == UTC_TIME then 15 else 17, t)) <==>
            Writable(kind, t) && |TimeOctets(kind, t)| <= |s| && s[..|TimeOctets(kind, t)|] == TimeOctets(kind, t)
  {
    if Writable(kind, t) && |TimeOctets(kind, t)| <= |s| && s[..|TimeOctets(kind, t)|] == TimeOctets(kind, t) {
      TextIsRead(s, kind, t);
    }
    if TimeAt(s) == Some(ParsedTime(kind, if kind == UTC_TIME then 15 else 17, t)) {
      ReadIsText(s);
    }
  }

  lemma TextIsRead(s: Octets, kind: byte, t: Stamp)
    requires Writable(kind, t) && |TimeOctets(kind, t)| <= |s| && s[..|TimeOctets(kind, t)|] == TimeOctets(kind, t)
    ensures TimeAt(s) == Some(ParsedTime(kind, |TimeOctets(kind, t)|, t))
  {
    hide Tail, Fields, Decimal, InRange, UtcTimeAt, GeneralizedTimeAt;
    assert InRange(t);
    var w := TimeOctets(kind, t);
    TailLength(t);
    assert s[0] == w[0] && s[1] == w[1];
    var k := |w| - 11;
    assert s[k..][..11] == w[k..] == Tail(t);
    TailReads(t, t.year, s[k..]);
    assert s[2..k] == s[..|w|][2..k] == w[2..k];
    if kind == UTC_TIME {
      UtcIsRead(s, t);
    } else {
      assert w[2..k] == TwoDigits(t.year / 100) + TwoDigits(t.year % 100);
      GeneralizedIsRead(s, t);
    }
  }

  lemma UtcIsRead(s: Octets, t: Stamp)
    requires |s| >= 15 && s[0] == UTC_TIME && s[1] == 13 && s[2..4] == TwoDigits(t.year % 100)
    requires Digits(s[4..], 10) && s[4..][10] == ZULU && Fields(t.year, s[4..]) == t && Writable(UTC_TIME, t)
    ensures UtcTimeAt(s) == Some(ParsedTime(UTC_TIME, 15, t))
  {
    hide Fields, InRange, Decimal;
    DecimalOfDigits(t.year % 100);
    assert s[2] == s[2..4][0] && s[3] == s[2..4][1];
    assert forall i :: 2 <= i < 12 ==> s[2..][i] == s[4..][i - 2];
  }

  lemma GeneralizedIsRead(s: Octets, t: Stamp)
    requires |s| >= 17 && s[0] == GENERALIZED_TIME && s[1] == 15
    requires InRange(t) && t.year < 10000 && s[2..6] == TwoDigits(t.year / 100) + TwoDigits(t.year % 100)
    requires Digits(s[6..], 10) && s[6..][10] == ZULU && Fields(t.year, s[6..]) == t
    ensures GeneralizedTimeAt(s) == Some(ParsedTime(GENERALIZED_TIME, 17, t))
  {
    hide Fields, InRange, Decimal;
    DecimalOfDigits(t.year % 100);
    DecimalOfDigits(t.year / 100);
    var y := s[2..6];
    assert s[2] == y[0] && s[3] == y[1] && s[4] == y[2] && s[5] == y[3];
    assert forall i :: 4 <= i < 14 ==> s[2..][i] == s[6..][i - 4];
  }

  lemma TailLength(t: Stamp)
    requires InRange(t)
    ensures |Tail(t)| == 11 && t.year < 10000
  {
  }

  lemma ReadIsText(s: Octets)
    requires TimeAt(s).Some?
    ensures var p := TimeAt(s).value;
            && Writable(p.kind, p.stamp)
            && p.eaten == |TimeOctets(p.kind, p.stamp)|
            && s[..p.eaten] == TimeOctets(p.kind, p.stamp)
  {
    hide Tail, UtcTimeAt, GeneralizedTimeAt, TimeOctets, Writable;
    if s[0] == UTC_TIME {
      UtcIsText(s);
    } else {
      GeneralizedIsText(s);
    }
  }

  /** What the parser of two-digit years has looked at. */
  lemma UtcFacts(s: Octets)
    requires UtcTimeAt(s).Some?
    ensures |s| >= 15 && s[0] == UTC_TIME && s[1] == 13 && s[14] == ZULU && Digits(s[2..], 12)
    ensures 0x30 <= s[2] <= 0x39 && 0x30 <= s[3] <= 0x39 && Digits(s[4..], 10)
    ensures var t, yy := UtcTimeAt(s).value.stamp, Decimal(s[2], s[3]);
            InRange(t) && Fields(t.year, s[4..]) == t && t.year == if yy >= 50 then 1900 + yy else 2000 + yy
  {
    hide InRange, Digits, Decimal;
    DigitsWithin(s[2..], 12);
    DigitsBehind(s, 2, 12);
  }

  lemma UtcIsText(s: Octets)
    requires UtcTimeAt(s).Some?
    ensures var p := UtcTimeAt(s).value;
            && Writable(UTC_TIME, p.stamp)
            && 15 == |TimeOctets(UTC_TIME, p.stamp)|
            && s[..15] == TimeOctets(UTC_TIME, p.stamp)
  {
    hide UtcTimeAt, Tail, TwoDigits, InRange, Digits, Fields, Decimal;
    UtcFacts(s);
    var t := UtcTimeAt(s).value.stamp;
    TailLength(t);
    DigitsOfDecimal(s[2], s[3]);
    YearOfCentury(Decimal(s[2], s[3]));
    TailWrites(t, s[4..]);
    UtcParts(s);
  }

  lemma YearOfCentury(yy: nat)
    requires yy < 100
    ensures (1900 + yy) % 100 == yy && (2000 + yy) % 100 == yy
  {
  }

  lemma UtcParts(s: Octets)
    requires |s| >= 15
    ensures s[..15] == [s[0], s[1]] + [s[2], s[3]] + s[4..][..11]
  {
  }

  lemma GeneralizedIsText(s: Octets)
    requires GeneralizedTimeAt(s).Some?
    ensures var p := GeneralizedTimeAt(s).value;
            && Writable(GENERALIZED_TIME, p.stamp)
            && 17 == |TimeOctets(GENERALIZED_TIME, p.stamp)|
            && s[..17] == TimeOctets(GENERALIZED_TIME, p.stamp)
  {
    hide Tail, TwoDigits, InRange, Digits;
    var t := GeneralizedTimeAt(s).value.stamp;
    TailLength(t);
    DigitsWithin(s[2..], 14);
    DigitsOfDecimal(s[2], s[3]);
    DigitsOfDecimal(s[4], s[5]);
    DigitsBehind(s, 4, 14);
    assert t.year == Decimal(s[2], s[3]) * 100 + Decimal(s[4], s[5]);
    hide Fields, Decimal;
    TailWrites(t, s[6..]);
    assert s[..17] == [s[0], s[1]] + [s[2], s[3]] + [s[4], s[5]] + s[6..][..11];
  }

  /** The first digits of a text. */
  lemma DigitsWithin(s: Octets, n: nat)
    requires 4 <= n <= |s| && Digits(s, n)
    ensures forall i :: 0 <= i < 4 ==> 0x30 <= s[i] <= 0x39
  {
  }

  /** The last ten digits of `n`, behind tag, length and `k` digits. */
  lemma DigitsBehind(s: Octets, k: nat, n: nat)
    requires n == k + 10 && 2 + n <= |s| && Digits(s[2..], n)
    ensures Digits(s[2 + k..], 10)
  {
    var tail := s[2 + k..];
    assert forall i :: 0 <= i < 10 ==> tail[i] == s[2..][k + i];
  }

  // ---------------------------------------------------------------- which form for which year

  predicate CorrectUse(kind: byte, year: nat) {
    (kind == UTC_TIME && year <= 2049) || (kind == GENERALIZED_TIME && year >= 2050)
  }

  // ---------------------------------------------------------------- packing

  /** The comparable 64-bit number: one octet a field, the year above them. */
  function Pack(t: Stamp): nat {
    t.second + t.minute * 0x100 + t.hour * 0x1_0000 + t.day * 0x100_0000 + t.month * 0x1_0000_0000
    + t.year * 0x100_0000_0000
  }

  /** Calendar order: the first differing component decides. */
  predicate Earlier(a: Stamp, b: Stamp) {
    if a.year != b.year then a.year < b.year
    else if a.month != b.month then a.month < b.month
    else if a.day != b.day then a.day < b.day
    else if a.hour != b.hour then a.hour < b.hour
    else if a.minute != b.minute then a.minute < b.minute
    else a.second < b.second
  }

  method TimeComponentsToComparable(year: nat, month: byte, day: byte, hour: byte, minute: byte, second: byte)
    returns (res: nat)
    requires year < 0x1_0000
    ensures res == Pack(Stamp(year, month, day, hour, minute, second)) < U64_LIMIT
  {
    res := second;
    var tmp: nat := minute as int * 0x100;
    res := res + tmp;
    tmp := hour as int * 0x1_0000;
    res := res + tmp;
    tmp := day as int * 0x100_0000;
    res := res + tmp;
    tmp := month as int * 0x1_0000_0000;
    res := res + tmp;
    tmp := year * 0x100_0000_0000;
    res := res + tmp;
  }

  /** Numeric order of packed times is calendar order, and packing is injective. */
  lemma PackIsOrderIsomorphism(a: Stamp, b: Stamp)
    requires InRange(a) && InRange(b)
    ensures Pack(a) < Pack(b) <==> Earlier(a, b)
    ensures Pack(a) == Pack(b) <==> a == b
  {
  }

  /** Two fields in correct use that pack equally are the same octets. */
  lemma EqualTimesAreIdentical(s: Octets, u: Octets)
    requires TimeAt(s).Some? && TimeAt(u).Some?
    requires CorrectUse(TimeAt(s).value.kind, TimeAt(s).value.stamp.year)
    requires CorrectUse(TimeAt(u).value.kind, TimeAt(u).value.stamp.year)
    requires Pack(TimeAt(s).value.stamp) == Pack(TimeAt(u).value.stamp)
    ensures s[..TimeAt(s).value.eaten] == u[..TimeAt(u).value.eaten]
  {
    hide TimeAt, Pack, TimeOctets;
    ReadIsText(s);
    ReadIsText(u);
    PackIsOrderIsomorphism(TimeAt(s).value.stamp, TimeAt(u).value.stamp);
  }

  // ---------------------------------------------------------------- Validity

  datatype Validity = Validity(notBefore: nat, notAfter: nat, eaten: nat)

  /** One time in correct use at the head of `s`. */
  function BoundAt(s: Octets): (r: Option<ParsedTime>)
    ensures r.Some? ==> 1 <= r.value.eaten <= |s|
  {
    var p :- TimeAt(s);
    if CorrectUse(p.kind, p.stamp.year) then Some(p) else None
  }

  function ValidityAt(s: Octets): (r: Option<Validity>)
    ensures r.Some? ==> 1 <= r.value.eaten <= |s|
  {
    var e :- TlvAt(s, UNIVERSAL, SEQUENCE);
    var body := s[e.header..e.Total()];
    var nb :- BoundAt(body);
    var na :- BoundAt(body[nb.eaten..]);
    if nb.eaten + na.eaten != |body| || Pack(nb.stamp) >= Pack(na.stamp) then None
    else Some(Validity(Pack(nb.stamp), Pack(na.stamp), e.Total()))
  }

  method ParseValidity(input: Octets) returns (r: Option<Validity>)
    ensures r == ValidityAt(input)
  {
    hide TlvAt, TimeAt;
    if |input| == 0 {
      return None;
    }
    var e := ParseIdLen(input, UNIVERSAL, SEQUENCE);
    if e.None? {
      return None;
    }
    var remain := e.value.content;
    var buf := input[e.value.header..e.value.header + remain];
    var nb := ParseTime(buf);
    if nb.None? || !CorrectUse(nb.value.kind, nb.value.stamp.year) {
      return None;
    }
    remain := remain - nb.value.eaten;
    buf := buf[nb.value.eaten..];
    var na := ParseTime(buf);
    if na.None? || !CorrectUse(na.value.kind, na.value.stamp.year) {
      return None;
    }
    remain := remain - na.value.eaten;
    if remain != 0 {
      return None;
    }
    StampsAreInRange(buf);
    StampsAreInRange(input[e.value.header..e.value.header + e.value.content]);
    var b, a := nb.value.stamp, na.value.stamp;
    var notAfter := TimeComponentsToComparable(a.year, a.month, a.day, a.hour, a.minute, a.second);
    var notBefore := TimeComponentsToComparable(b.year, b.month, b.day, b.hour, b.minute, b.second);
    if notBefore >= notAfter {
      return None;
    }
    return Some(Validity(notBefore, notAfter, e.value.header + e.value.content));
  }

  lemma StampsAreInRange(s: Octets)
    ensures TimeAt(s).Some? ==> InRange(TimeAt(s).value.stamp)
  {
  }

  /** The form RFC 5280 prescribes: UTCTime through 2049, GeneralizedTime from 2050 on. */
  function KindFor(year: nat): byte {
    if year <= 2049 then UTC_TIME else GENERALIZED_TIME
  }

  predicate Expressible(t: Stamp) {
    InRange(t) && t.year >= 1950
  }

  /** The text of a time in the prescribed form. */
  function BoundOctets(t: Stamp): Octets
    requires Expressible(t)
  {
    TimeOctets(KindFor(t.year), t)
  }

  lemma BoundExact(s: Octets, p: ParsedTime)
    ensures BoundAt(s) == Some(p) <==>
            && Expressible(p.stamp)
            && p.kind == KindFor(p.stamp.year)
            && p.eaten == |BoundOctets(p.stamp)| <= |s|
            && s[..p.eaten] == BoundOctets(p.stamp)
  {
    hide TimeAt, Tail, TwoDigits;
    if BoundAt(s) == Some(p) {
      ReadIsText(s);
    }
    if Expressible(p.stamp) && p.kind == KindFor(p.stamp.year)
       && p.eaten == |BoundOctets(p.stamp)| <= |s| && s[..p.eaten] == BoundOctets(p.stamp) {
      TextIsRead(s, p.kind, p.stamp);
    }
  }

  /** A Validity is accepted exactly when its contents are two times in the prescribed forms, the first
      strictly earlier, and nothing else; the numbers kept are theirs. */
  lemma ValidityExact(s: Octets, e: Extent)
    requires TlvAt(s, UNIVERSAL, SEQUENCE) == Some(e)
    ensures ValidityAt(s).Some? <==>
            exists a, b :: && Expressible(a) && Expressible(b) && Earlier(a, b)
                           && s[e.header..e.Total()] == BoundOctets(a) + BoundOctets(b)
    ensures forall a, b :: && Expressible(a) && Expressible(b) && Earlier(a, b)
                           && s[e.header..e.Total()] == BoundOctets(a) + BoundOctets(b)
                           ==> ValidityAt(s) == Some(Validity(Pack(a), Pack(b), e.Total()))
  {
    hide TlvAt, BoundAt, BoundOctets, Pack, Earlier, Expressible;
    var body := s[e.header..e.Total()];
    forall a, b | Expressible(a) && Expressible(b) && Earlier(a, b) && body == BoundOctets(a) + BoundOctets(b)
      ensures ValidityAt(s) == Some(Validity(Pack(a), Pack(b), e.Total()))
    {
      TwoBoundsRead(body, a, b);
    }
    if ValidityAt(s).Some? {
      var nb := BoundAt(body).value;
      var na := BoundAt(body[nb.eaten..]).value;
      BoundExact(body, nb);
      BoundExact(body[nb.eaten..], na);
      var a, b := nb.stamp, na.stamp;
      OrderOfBounds(a, b);
      assert body == body[..nb.eaten] + body[nb.eaten..][..na.eaten];
      assert Expressible(a) && Expressible(b) && Earlier(a, b);
      assert s[e.header..e.Total()] == BoundOctets(a) + BoundOctets(b);
    }
  }

  lemma OrderOfBounds(a: Stamp, b: Stamp)
    requires Expressible(a) && Expressible(b)
    ensures Pack(a) < Pack(b) <==> Earlier(a, b)
  {
    PackIsOrderIsomorphism(a, b);
  }

  lemma TwoBoundsRead(body: Octets, a: Stamp, b: Stamp)
    requires Expressible(a) && Expressible(b) && Earlier(a, b) && body == BoundOctets(a) + BoundOctets(b)
    ensures BoundAt(body) == Some(ParsedTime(KindFor(a.year), |BoundOctets(a)|, a))
    ensures BoundAt(body[|BoundOctets(a)|..]) == Some(ParsedTime(KindFor(b.year), |BoundOctets(b)|, b))
    ensures Pack(a) < Pack(b)
  {
    hide BoundAt, BoundOctets, Pack, Earlier;
    BoundExact(body, ParsedTime(KindFor(a.year), |BoundOctets(a)|, a));
    BoundExact(body[|BoundOctets(a)|..], ParsedTime(KindFor(b.year), |BoundOctets(b)|, b));
    OrderOfBounds(a, b);
  }
}
