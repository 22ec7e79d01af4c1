/** CRL distribution points: the reason bits, one point, and the loop over the points. */
module DistributionPoints {
  import opened Bytes
  import opened Bits
  import opened Der
  import opened Containers
  import opened Names
  import opened Elements
  import opened GeneralNames
  import opened Modular

  // ---------------------------------------------------------------- named bits

  function TrailingZeros(b: nat): nat
    requires b > 0
  {
    if b % 2 == 1 then 0 else 1 + TrailingZeros(b / 2)
  }

  /** A bit list of one to nine bits that ends in a set bit: the first octet counts the unused ones. */
  predicate NamedBits(c: Octets) {
    || (|c| == 2 && c[1] != 0 && c[0] == TrailingZeros(c[1]))
    || (|c| == 3 && c[0] == 7 && c[2] == 0x80)
  }

  /** A number below 2^n that is not zero has fewer than n trailing zeros. */
  lemma {:induction false} FewZeros(b: nat, n: nat)
    requires 0 < b < Pow2(n)
    ensures TrailingZeros(b) < n
    decreases n
  {
    if n > 0 && b % 2 == 0 {
      FewZeros(b / 2, n - 1);
    }
  }

  /** Bit `i` of a number, the lowest first. */
  predicate Bit(x: nat, i: nat) {
    x / Pow2(i) % 2 == 1
  }

  /** The lowest `n` bits of a number in the opposite order. */
  function Mirror(b: nat, n: nat): nat {
    if n == 0 then 0 else b % 2 * Pow2(n - 1) + Mirror(b / 2, n - 1)
  }

  /** The value of a list: named bit 0 is the top bit of the first octet, named bit 8 that of the second. */
  function BitsValue(c: Octets): nat
    requires NamedBits(c)
  {
    Mirror(c[1], 8) + if |c| == 3 then 0x100 else 0
  }

  lemma {:induction false} MirrorBelow(b: nat, n: nat)
    ensures Mirror(b, n) < Pow2(n)
  {
    if n == 0 {
      PowerZero();
    } else {
      MirrorBelow(b / 2, n - 1);
      PowerStep(n);
      hide Pow2;
      TopDigit(b % 2, Pow2(n - 1), Mirror(b / 2, n - 1));
    }
  }

  lemma TopDigit(d: nat, p: nat, m: nat)
    requires d < 2 && m < p
    ensures d * p + m < 2 * p
  {
  }

  /** Different numbers have different mirror images. */
  lemma {:induction false} MirrorInjective(a: nat, b: nat, n: nat)
    requires a < Pow2(n) && b < Pow2(n) && Mirror(a, n) == Mirror(b, n)
    ensures a == b
    decreases n
  {
    if n > 0 {
      MirrorBelow(a / 2, n - 1);
      MirrorBelow(b / 2, n - 1);
      TopBit(a % 2, b % 2, Pow2(n - 1), Mirror(a / 2, n - 1), Mirror(b / 2, n - 1));
      MirrorInjective(a / 2, b / 2, n - 1);
    }
  }

  lemma TopBit(a: nat, b: nat, p: nat, x: nat, y: nat)
    requires a < 2 && b < 2 && x < p && y < p && a * p + x == b * p + y
    ensures a == b && x == y
  {
  }

  /** Bit `i` of the number is bit `n - 1 - i` of its image. */
  lemma {:induction false} MirrorBit(b: nat, n: nat, i: nat)
    requires i < n
    ensures Bit(Mirror(b, n), n - 1 - i) == Bit(b, i)
    decreases n
  {
    MirrorBelow(b / 2, n - 1);
    var m := Mirror(b / 2, n - 1);
    if i == 0 {
      PowerZero();
      Unique(Mirror(b, n), Pow2(n - 1), b % 2, m);
    } else {
      MirrorBit(b / 2, n - 1, i - 1);
      AddHigh(m, b % 2, n - 1, n - 1 - i);
      HalfBit(b, i);
    }
  }

  lemma HalfBit(b: nat, i: nat)
    requires i > 0
    ensures Bit(b, i) == Bit(b / 2, i - 1)
  {
    PowerStep(i);
    DivideTwice(b, Pow2(i - 1));
  }

  lemma DivideTwice(b: nat, p: nat)
    requires p > 0
    ensures b / (2 * p) == b / 2 / p
  {
    var q, r := b / 2 / p, b / 2 % p;
    assert b == q * (2 * p) + (2 * r + b % 2) by {
      assert q * (2 * p) == 2 * (q * p);
    }
    Unique(b, 2 * p, q, 2 * r + b % 2);
  }

  /** Adding a higher power does not change a lower bit. */
  lemma AddHigh(m: nat, d: nat, high: nat, low: nat)
    requires low < high
    ensures Bit(d * Pow2(high) + m, low) == Bit(m, low)
  {
    var g := HighMultiple(d, high, low);
    hide Pow2;
    AddMultiple(m, 2 * g, Pow2(low));
    EvenShift(m / Pow2(low), g);
  }

  lemma HighMultiple(d: nat, high: nat, low: nat) returns (g: nat)
    requires low < high
    ensures d * Pow2(high) == 2 * g * Pow2(low)
  {
    Pow2Add(high - low - 1, low + 1);
    PowerStep(low + 1);
    hide Pow2;
    var p, f := Pow2(low), Pow2(high - low - 1);
    g := d * f;
    Regroup(d, f, p);
  }

  lemma Regroup(d: nat, f: nat, p: nat)
    ensures d * (f * (2 * p)) == 2 * (d * f) * p
  {
  }

  lemma EvenShift(q: nat, g: nat)
    ensures (q + 2 * g) % 2 == q % 2
  {
  }

  lemma OctetPower()
    ensures Pow2(8) == 256
  {
    Pow2Four();
    Pow2Add(4, 4);
  }

  /** The value read from a list, or none when the list is not in that form. */
  method ParseNineBitNamedBitList(c: Octets) returns (val: Option<nat>)
    ensures val == if NamedBits(c) then Some(BitsValue(c)) else None
  {
    OctetPower();
    if |c| == 0 || c[0] >= 8 {
      if |c| == 2 && c[1] != 0 {
        FewZeros(c[1], 8);
      }
      return None;
    }
    if |c| == 2 {
      if c[1] == 0 {
        return None;
      }
      var nonSignif := LowestBit(c[1]);
      if c[0] != nonSignif {
        return None;
      }
    } else if |c| != 3 || c[0] != 7 || c[2] != 0x80 {
      return None;
    }
    var tmp := MirrorOctet(c[1]);
    if |c| == 3 {
      tmp := tmp + 0x100;
    }
    return Some(tmp);
  }

  /** Index of the lowest set bit. */
  method LowestBit(b: byte) returns (k: nat)
    requires b != 0
    ensures k == TrailingZeros(b)
  {
    var rest: nat := b;
    k := 0;
    while rest % 2 == 0
      invariant rest > 0 && k + TrailingZeros(rest) == TrailingZeros(b)
      decreases rest
    {
      rest, k := rest / 2, k + 1;
    }
  }

  /** The loop that moves each bit to its named place. */
  method MirrorOctet(b: byte) returns (tmp: nat)
    ensures tmp == Mirror(b, 8)
  {
    tmp := 0;
    var rest: nat, k := b, 0;
    while k < 8
      invariant k <= 8 && tmp + Mirror(rest, 8 - k) == Mirror(b, 8)
    {
      if rest % 2 == 1 {
        tmp := tmp + Pow2(7 - k);
      }
      rest, k := rest / 2, k + 1;
    }
  }

  /** What the value means: named bit `i` is the `i`-th from the top of the first octet, and there are nine. */
  lemma NamedBitMeans(c: Octets, i: nat)
    requires NamedBits(c) && i < 9
    ensures Bit(BitsValue(c), i) <==> if i < 8 then Bit(c[1], 7 - i) else |c| == 3
  {
    hide Mirror, Bit, TrailingZeros;
    OctetPower();
    MirrorBelow(c[1], 8);
    var m, d := Mirror(c[1], 8), if |c| == 3 then 1 else 0;
    assert BitsValue(c) == d * 256 + m;
    if i < 8 {
      MirrorBit(c[1], 8, 7 - i);
      AddHigh(m, d, 8, i);
    } else {
      NinthBit(m, d);
    }
  }

  lemma NinthBit(m: nat, d: nat)
    requires m < 256 && d < 2
    ensures Bit(d * 256 + m, 8) <==> d == 1
  {
    OctetPower();
  }

  /** A set of named bits has one accepted list. */
  lemma NamedBitsUnique(c: Octets, d: Octets)
    requires NamedBits(c) && NamedBits(d) && BitsValue(c) == BitsValue(d)
    ensures c == d
  {
    OctetPower();
    MirrorBelow(c[1], 8);
    MirrorBelow(d[1], 8);
    MirrorInjective(c[1], d[1], 8);
  }

  /** The count of unused bits is the place of the lowest set bit. */
  lemma {:induction false} LowestSetBit(b: nat, i: nat)
    requires b > 0 && i <= TrailingZeros(b)
    ensures Bit(b, i) <==> i == TrailingZeros(b)
    decreases b
  {
    if b % 2 == 1 {
      PowerZero();
    } else if i == 0 {
      PowerZero();
    } else {
      HalfBit(b, i);
      LowestSetBit(b / 2, i - 1);
    }
  }

  /** The image, from its other end. */
  lemma {:induction false} MirrorLow(b: nat, n: nat)
    requires n > 0 && b < Pow2(n)
    ensures Mirror(b, n) == 2 * Mirror(b % Pow2(n - 1), n - 1) + b / Pow2(n - 1)
    decreases n
  {
    PowerStep(n);
    if n == 1 {
      PowerZero();
    } else {
      PowerStep(n - 1);
      var p, q := Pow2(n - 1), Pow2(n - 2);
      MirrorLow(b / 2, n - 1);
      HalfRemainder(b, n - 1);
      DivideTwice(b, q);
      var low := b % p;
      assert low / 2 == b / 2 % q && low % 2 == b % 2;
      hide Pow2;
      assert Mirror(low, n - 1) == b % 2 * q + Mirror(b / 2 % q, n - 2);
      DoubleProduct(b % 2, q);
    }
  }

  lemma DoubleProduct(d: nat, q: nat)
    ensures d * (2 * q) == 2 * (d * q)
  {
  }

  lemma {:induction false} MirrorTwice(b: nat, n: nat)
    requires b < Pow2(n)
    ensures Mirror(Mirror(b, n), n) == b
    decreases n
  {
    if n == 0 {
      PowerZero();
    } else {
      PowerStep(n);
      MirrorBelow(b, n);
      MirrorBelow(b / 2, n - 1);
      MirrorLow(Mirror(b, n), n);
      MirrorTwice(b / 2, n - 1);
      hide Pow2;
      Unique(Mirror(b, n), Pow2(n - 1), b % 2, Mirror(b / 2, n - 1));
    }
  }

  lemma MirrorZero(n: nat)
    ensures Mirror(0, n) == 0
  {
  }

  /** And every set of named bits that is not empty has a list: lists and non-empty sets correspond one to one. */
  lemma NamedBitsExist(x: nat) returns (c: Octets)
    requires 0 < x < 512
    ensures NamedBits(c) && BitsValue(c) == x
  {
    hide Mirror, TrailingZeros;
    OctetPower();
    var low := x % 256;
    var b := Mirror(low, 8);
    MirrorBelow(low, 8);
    MirrorTwice(low, 8);
    MirrorZero(8);
    if x < 256 {
      FewZeros(b, 8);
      c := [TrailingZeros(b), b];
    } else {
      c := [7, b, 0x80];
    }
  }

  // ---------------------------------------------------------------- one point

  ghost function ReasonsAt(s: Octets): (r: Option<nat>)
    ensures r.Some? ==> 1 <= r.value <= |s|
  {
    ElementAt(CONTEXT_SPECIFIC, 1, c => NamedBits(c), s)
  }

  /** The distribution point name: none, or general names that fill its element. A relative name is refused. */
  ghost function PointNameAt(table: Table, s: Octets): (r: Option<nat>)
    ensures r.Some? ==> r.value <= |s|
  {
    match TlvAt(s, CONTEXT_SPECIFIC, 0)
    case None => Some(0)
    case Some(e) =>
      var inner := s[e.header..e.Total()];
      if inner != [] && inner[0] == 0xA0 && GeneralNamesAt(table, inner, CONTEXT_SPECIFIC, 0) == Some(|inner|) then
        Some(e.Total())
      else None
  }

  /** Name, reasons and issuer are each optional, but there is a name or an issuer, and nothing else. The result
      says whether the reasons are missing, which means all of them. */
  ghost function PointBody(table: Table, body: Octets): Option<bool> {
    var p1 :- PointNameAt(table, body);
    var reasons := ReasonsAt(body[p1..]);
    var p2 := p1 + Eaten(reasons);
    var issuer := GeneralNamesAt(table, body[p2..], CONTEXT_SPECIFIC, 2);
    if p2 + Eaten(issuer) == |body| && (p1 > 0 || issuer.Some?) then Some(reasons.None?) else None
  }

  datatype Point = Point(eaten: nat, allReasons: bool)

  ghost function PointAt(table: Table, s: Octets): (r: Option<Point>)
    ensures r.Some? ==> 1 <= r.value.eaten <= |s|
  {
    var e :- TlvAt(s, UNIVERSAL, SEQUENCE);
    var all :- PointBody(table, s[e.header..e.Total()]);
    Some(Point(e.Total(), all))
  }

  ghost function PointParser(table: Table): (p: ElementParser)
    ensures forall s :: p(s) == PointEaten(table, s)
  {
    s => PointEaten(table, s)
  }

  ghost function PointEaten(table: Table, s: Octets): (r: Option<nat>)
    ensures r.Some? ==> 1 <= r.value <= |s|
  {
    var p :- PointAt(table, s);
    Some(p.eaten)
  }

  /** The loop, with the flag that some point covered all reasons. */
  ghost function Points(table: Table, s: Octets, one: bool): Option<bool>
    decreases |s|
  {
    if s == [] then Some(one)
    else
      var p :- PointAt(table, s);
      Points(table, s[p.eaten..], one || p.allReasons)
  }

  ghost function CrldpValue(table: Table, s: Octets): Option<bool> {
    var e :- TlvAt(s, UNIVERSAL, SEQUENCE);
    if e.Total() != |s| then None else Points(table, s[e.header..], false)
  }

  // ---------------------------------------------------------------- the parsers

  method ParseCrldpReasons(s: Octets) returns (eaten: Option<nat>)
    ensures eaten == ReasonsAt(s)
  {
    hide TlvAt;
    if |s| == 0 {
      return None;
    }
    var e := ParseIdLen(s, CONTEXT_SPECIFIC, 1);
    if e.None? {
      return None;
    }
    var bits := ParseNineBitNamedBitList(s[e.value.header..e.value.Total()]);
    return if bits.Some? then Some(e.value.header + e.value.content) else None;
  }

  method ParsePointName(table: Table, s: Octets) returns (eaten: Option<nat>)
    ensures eaten == PointNameAt(table, s)
  {
    hide TlvAt, GeneralNamesAt;
    var e := None;
    if |s| > 0 {
      e := ParseIdLen(s, CONTEXT_SPECIFIC, 0);
    }
    if e.None? {
      return Some(0);
    }
    if e.value.content == 0 {
      return None;
    }
    var buf := s[e.value.header..e.value.Total()];
    if buf[0] != 0xA0 {
      return None;
    }
    var names := ParseGeneralNames(table, buf, CONTEXT_SPECIFIC, 0);
    if names.None? || names.value != |buf| {
      return None;
    }
    return Some(e.value.header + e.value.content);
  }

  method ParsePointBody(table: Table, body: Octets) returns (r: Option<bool>)
    ensures r == PointBody(table, body)
  {
    hide TlvAt, GeneralNamesAt, PointNameAt, ReasonsAt;
    var buf := body;
    var name := ParsePointName(table, buf);
    if name.None? {
      return None;
    }
    buf := buf[name.value..];
    var reasons := ParseCrldpReasons(buf);
    if reasons.Some? {
      buf := buf[reasons.value..];
    }
    assert buf == body[name.value + Eaten(reasons)..];
    var issuer := ParseGeneralNames(table, buf, CONTEXT_SPECIFIC, 2);
    if issuer.Some? {
      buf := buf[issuer.value..];
    }
    if |buf| > 0 || (name.value == 0 && issuer.None?) {
      return None;
    }
    return Some(reasons.None?);
  }

  method ParseDistributionPoint(table: Table, s: Octets) returns (r: Option<Point>)
    ensures r == PointAt(table, s)
  {
    hide TlvAt, PointBody;
    if |s| == 0 {
      return None;
    }
    var e := ParseIdLen(s, UNIVERSAL, SEQUENCE);
    if e.None? {
      return None;
    }
    var all := ParsePointBody(table, s[e.value.header..e.value.Total()]);
    if all.None? {
      return None;
    }
    return Some(Point(e.value.header + e.value.content, all.value));
  }

  method ParseExtCrldp(table: Table, s: Octets) returns (one: Option<bool>)
    ensures one == CrldpValue(table, s)
  {
    hide TlvAt, PointAt;
    if |s| == 0 {
      return None;
    }
    var e := ParseIdLen(s, UNIVERSAL, SEQUENCE);
    if e.None? || |s| != e.value.header + e.value.content {
      return None;
    }
    var buf, remain, oneHasAll := s[e.value.header..], e.value.content, false;
    ghost var content := buf;
    while remain > 0
      invariant remain == |buf|
      invariant Points(table, buf, oneHasAll) == Points(table, content, false)
      decreases remain
    {
      var point := ParseDistributionPoint(table, buf);
      if point.None? {
        return None;
      }
      oneHasAll := oneHasAll || point.value.allReasons;
      remain := remain - point.value.eaten;
      buf := buf[point.value.eaten..];
    }
    return Some(oneHasAll);
  }

  // ---------------------------------------------------------------- what acceptance means

  lemma PointStable(table: Table, s: Octets, rest: Octets, n: nat)
    requires n <= |s|
    ensures PointEaten(table, s) == Some(n) <==> PointEaten(table, s + rest) == Some(n)
    ensures PointEaten(table, s) == Some(n) ==> PointAt(table, s) == PointAt(table, s + rest)
  {
    hide TlvAt, PointBody;
    ElementStable(s, rest, UNIVERSAL, SEQUENCE, n);
  }

  lemma PointsStable(table: Table)
    ensures Stable(PointParser(table))
  {
    hide PointEaten;
    forall s: Octets, rest: Octets, n: nat | n <= |s|
      ensures PointEaten(table, s) == Some(n) <==> PointEaten(table, s + rest) == Some(n)
    {
      PointStable(table, s, rest, n);
    }
  }

  ghost predicate CoversAll(table: Table, point: Octets) {
    PointAt(table, point).Some? && PointAt(table, point).value.allReasons
  }

  ghost predicate SomeCoversAll(table: Table, points: seq<Octets>) {
    exists i :: 0 <= i < |points| && CoversAll(table, points[i])
  }

  /** The loop accepts exactly the concatenations of whole points, and raises its flag exactly when some point
      covers all reasons. */
  lemma {:induction false} PointsExact(table: Table, s: Octets, one: bool)
    ensures Points(table, s, one).Some? <==> Split(PointParser(table), s).Some?
    ensures Points(table, s, one).Some? ==>
              Points(table, s, one).value == (one || SomeCoversAll(table, Split(PointParser(table), s).value))
    decreases |s|
  {
    hide PointAt, Split, PointParser, SomeCoversAll;
    var p := PointParser(table);
    SplitStep(p, s);
    if s == [] {
      NobodyCovers(table);
    } else if PointAt(table, s).Some? {
      var n := PointAt(table, s).value.eaten;
      var head, tail := s[..n], s[n..];
      assert s == head + tail;
      PointStable(table, head, tail, n);
      PointsExact(table, tail, one || PointAt(table, s).value.allReasons);
      if Split(p, tail).Some? {
        var parts := SplitHead(p, s);
        CoversStep(table, parts);
      }
    }
  }

  lemma NobodyCovers(table: Table)
    ensures !SomeCoversAll(table, [])
  {
  }

  lemma CoversStep(table: Table, parts: seq<Octets>)
    requires parts != []
    ensures SomeCoversAll(table, parts) <==> CoversAll(table, parts[0]) || SomeCoversAll(table, parts[1..])
  {
    hide CoversAll;
    if SomeCoversAll(table, parts[1..]) {
      var i :| 0 <= i < |parts[1..]| && CoversAll(table, parts[1..][i]);
      assert CoversAll(table, parts[i + 1]);
    }
    if i :| 0 < i < |parts| && CoversAll(table, parts[i]) {
      assert CoversAll(table, parts[1..][i - 1]);
    }
  }

  /** The extension value is accepted exactly when it is one SEQUENCE over all its octets whose content is a
      concatenation of whole points; the result tells whether one of them covers all reasons. */
  lemma CrldpSplits(table: Table, s: Octets, one: bool)
    ensures CrldpValue(table, s) == Some(one) <==>
            exists e: Extent, points ::
              && TlvAt(s, UNIVERSAL, SEQUENCE) == Some(e) && e.Total() == |s|
              && AllWhole(PointParser(table), points) && Concat(points) == s[e.header..]
              && one == SomeCoversAll(table, points)
  {
    hide TlvAt, PointParser, SomeCoversAll, PointAt, Points;
    PointsStable(table);
    var p := PointParser(table);
    if TlvAt(s, UNIVERSAL, SEQUENCE).Some? {
      var e := TlvAt(s, UNIVERSAL, SEQUENCE).value;
      if e.Total() == |s| {
        var content := s[e.header..];
        PointsExact(table, content, false);
        if Split(p, content).Some? {
          SplitExact(p, content, Split(p, content).value);
        }
        forall points | AllWhole(p, points) && Concat(points) == content
          ensures Split(p, content) == Some(points)
        {
          SplitExact(p, content, points);
        }
      }
    }
  }
}
