/** The decimal printers and the decimal reader of base.c. */
module Decimal {
  import opened Bytes
  import opened Modular

  const U32_MAX: nat := 0x7FFF_FFFF

  // ---------------------------------------------------------------- numerals

  function Digit(d: nat): char
    requires d < 10
  {
    "0123456789"[d]
  }

  predicate IsDigit(c: char) {
    '0' <= c <= '9'
  }

  function DigitValue(c: char): nat
    requires IsDigit(c)
  {
    c as nat - '0' as nat
  }

  predicate AllDigits(s: string) {
    forall i :: 0 <= i < |s| ==> IsDigit(s[i])
  }

  /** What a digit string means. */
  function Value(s: string): nat
    requires AllDigits(s)
  {
    if s == "" then 0 else 10 * Value(s[..|s| - 1]) + DigitValue(s[|s| - 1])
  }

  /** No leading zero, except for zero itself. */
  predicate Canonical(s: string) {
    s != "" && AllDigits(s) && (s[0] == '0' ==> |s| == 1)
  }

  function Numeral(n: nat): string {
    if n < 10 then [Digit(n)] else Numeral(n / 10) + [Digit(n % 10)]
  }

  /** The low `w` digits, with leading zeros. */
  function Padded(n: nat, w: nat): (s: string)
    ensures |s| == w
  {
    if w == 0 then "" else Padded(n / 10, w - 1) + [Digit(n % 10)]
  }

  function Pow10(w: nat): (p: nat)
    ensures p >= 1
  {
    if w == 0 then 1 else 10 * Pow10(w - 1)
  }

  /** A numeral is canonical and means its number. */
  lemma {:induction false} NumeralMeans(n: nat)
    ensures Canonical(Numeral(n)) && Value(Numeral(n)) == n
    ensures n > 0 ==> Numeral(n)[0] != '0'
  {
    if n >= 10 {
      NumeralMeans(n / 10);
      assert Numeral(n)[..|Numeral(n)| - 1] == Numeral(n / 10);
      assert Numeral(n)[0] == Numeral(n / 10)[0];
    }
  }

  lemma DigitOfValue(c: char)
    requires IsDigit(c)
    ensures Digit(DigitValue(c)) == c
  {
  }

  /** And it is the only canonical text with that meaning. */
  lemma {:induction false} NumeralIsUnique(s: string)
    requires Canonical(s)
    ensures Numeral(Value(s)) == s
    ensures s[0] != '0' ==> Value(s) > 0
    decreases |s|
  {
    hide Numeral, Digit;
    var k := |s| - 1;
    var d := DigitValue(s[k]);
    DigitOfValue(s[k]);
    SingleDigit(d);
    assert s == s[..k] + [s[k]];
    if k == 0 {
      assert s[..k] == "";
    } else {
      NumeralIsUnique(s[..k]);
      NumeralAppend(Value(s[..k]), d);
    }
  }

  lemma NumeralAppend(n: nat, d: nat)
    requires n > 0 && d < 10
    ensures Numeral(10 * n + d) == Numeral(n) + [Digit(d)]
  {
    assert (10 * n + d) / 10 == n && (10 * n + d) % 10 == d;
  }

  /** How many digits a number has. */
  lemma {:induction false} NumeralLength(n: nat, w: nat)
    requires w > 0 && n < Pow10(w)
    ensures |Numeral(n)| <= w
    ensures n >= Pow10(w - 1) ==> |Numeral(n)| == w
  {
    Powers();
    if n >= 10 {
      NumeralLength(n / 10, w - 1);
    }
  }

  /** Numerals concatenate: a high part, then the low digits with their zeros. */
  lemma {:induction false} NumeralSplit(q: nat, r: nat, w: nat)
    requires q > 0 && r < Pow10(w)
    ensures Numeral(q * Pow10(w) + r) == Numeral(q) + Padded(r, w)
  {
    hide Numeral, Digit;
    if w == 0 {
      assert Numeral(q) + Padded(r, w) == Numeral(q);
    } else {
      var p := Pow10(w - 1);
      var n := q * p + r / 10;
      NumeralSplit(q, r / 10, w - 1);
      ShiftDigit(q, p, r);
      assert q * p >= 1 by { Gap(0, q, p); }
      NumeralStep(q * (10 * p) + r);
      assert Numeral(q) + Padded(r, w) == Numeral(n) + [Digit(r % 10)];
    }
  }

  lemma NumeralStep(n: nat)
    requires n >= 10
    ensures Numeral(n) == Numeral(n / 10) + [Digit(n % 10)]
  {
  }

  lemma ShiftDigit(q: nat, p: nat, r: nat)
    ensures (q * (10 * p) + r) / 10 == q * p + r / 10 && (q * (10 * p) + r) % 10 == r % 10
  {
    assert q * (10 * p) == 10 * (q * p);
  }

  /** Without leading zeros padding changes nothing. */
  lemma {:induction false} PaddedIsNumeral(n: nat, w: nat)
    requires w > 0 && n < Pow10(w) && (w > 1 ==> n >= Pow10(w - 1))
    ensures Padded(n, w) == Numeral(n)
  {
    if w > 1 {
      PaddedIsNumeral(n / 10, w - 1);
    } else {
      assert Pow10(1) == 10 * Pow10(0);
      assert Padded(n / 10, 0) == "";
    }
  }

  lemma Powers()
    ensures Pow10(1) == 10 && Pow10(2) == 100 && Pow10(3) == 1000 && Pow10(4) == 10000 && Pow10(5) == 100000
    ensures Pow10(10) == 1_0000_0_00000
  {
    var p5 := 10 * Pow10(4);
    assert Pow10(5) == p5;
    assert Pow10(7) == 100 * Pow10(5);
    assert Pow10(9) == 100 * Pow10(7);
  }

  // ---------------------------------------------------------------- printing 64-bit numbers

  lemma LongestU64(n: nat)
    requires n < U64_LIMIT
    ensures |Numeral(n)| <= 20
  {
    Powers();
    assert Pow10(12) == 100 * Pow10(10);
    assert Pow10(14) == 100 * Pow10(12);
    assert Pow10(16) == 100 * Pow10(14);
    assert Pow10(18) == 100 * Pow10(16);
    assert Pow10(20) == 100 * Pow10(18);
    NumeralLength(n, 20);
  }

  /** Digits of the value filled into a 21-octet buffer from its end. The result is what is recorded. */
  method RecordU64(value: nat, isNegative: bool) returns (text: string)
    requires value < U64_LIMIT
    ensures text == (if isNegative then "-" else "") + Numeral(value)
  {
    hide Pow10;
    text := if isNegative then "-" else "";
    if value == 0 {
      text := text + ['0'];
      return;
    }
    var intStr := new char[21];
    var pos := 20;
    var tmpVal := value;
    LongestU64(value);
    while tmpVal > 0
      invariant 0 <= tmpVal <= value
      invariant -1 <= pos <= 20
      invariant tmpVal > 0 ==> pos + 1 >= |Numeral(tmpVal)|
      invariant tmpVal > 0 ==> Numeral(value) == Numeral(tmpVal) + intStr[pos + 1..]
      invariant tmpVal == 0 ==> Numeral(value) == intStr[pos + 1..]
    {
      var digit := tmpVal - tmpVal / 10 * 10;
      ghost var done := intStr[pos + 1..];
      intStr[pos] := Digit(digit);
      assert intStr[pos..] == [Digit(digit)] + done;
      pos := pos - 1;
      tmpVal := tmpVal / 10;
    }
    pos := pos + 1;
    text := text + intStr[pos..];
  }

  // ---------------------------------------------------------------- printing 32-bit numbers

  /** Multiplying by 3518437209 and shifting by 45 divides a 32-bit number by 10^4; the product fits 64 bits. */
  lemma ReciprocalTenThousand(v: nat)
    requires v < U32_LIMIT
    ensures v * 3518437209 < U64_LIMIT
    ensures v * 3518437209 / 0x2000_0000_0000 == v / 10000
  {
    var q, r := v / 10000, v % 10000;
    Unique(v * 3518437209, 0x2000_0000_0000, q, 1168 * q + 3518437209 * r);
  }

  /** Multiplying by 2882303762 and shifting by 58 divides a 32-bit number by 10^8; the product fits 64 bits. */
  lemma ReciprocalHundredMillion(v: nat)
    requires v < U32_LIMIT
    ensures v * 2882303762 < U64_LIMIT
    ensures v * 2882303762 / 0x400_0000_0000_0000 == v / 100000000
  {
    var q, r := v / 100000000, v % 100000000;
    Unique(v * 2882303762, 0x400_0000_0000_0000, q, 48288256 * q + 2882303762 * r);
  }

  /** The row of the table of unpadded numbers: up to three digits, NUL up to four octets. */
  function Unpadded(v: nat): (s: string)
    requires v < 1000
    ensures |s| == 4
  {
    if v < 10 then [Digit(v), '\0', '\0', '\0']
    else if v < 100 then [Digit(v / 10), Digit(v % 10), '\0', '\0']
    else [Digit(v / 100), Digit(v / 10 % 10), Digit(v % 10), '\0']
  }

  function Offset(v: nat): nat {
    if v >= 100 then 3 else if v >= 10 then 2 else 1
  }

  lemma UnpaddedIsNumeral(v: nat)
    requires v < 1000
    ensures Unpadded(v)[..Offset(v)] == Numeral(v)
  {
    hide Numeral, Digit;
    if v >= 100 {
      NumeralStep(v);
      NumeralStep(v / 10);
      assert v / 10 / 10 == v / 100;
      SingleDigit(v / 100);
    } else if v >= 10 {
      NumeralStep(v);
      SingleDigit(v / 10);
    } else {
      SingleDigit(v);
    }
  }

  /** `memcpy` of the first `n` octets of a table row to an offset. */
  method CopyRow(str: array<char>, at: nat, row: string, n: nat)
    requires n <= |row| && at + n <= str.Length
    modifies str
    ensures str[..] == old(str[..at]) + row[..n] + old(str[at + n..])
  {
    var i := 0;
    while i < n
      invariant 0 <= i <= n
      invariant forall j :: 0 <= j < str.Length ==> str[j] == if at <= j < at + i then row[j - at] else old(str[j])
    {
      str[at + i] := row[i];
      i := i + 1;
    }
  }

  lemma SplitTenThousand(v: nat)
    requires v >= 10000
    ensures Numeral(v) == Numeral(v / 10000) + Padded(v % 10000, 4)
  {
    hide Numeral, Padded, Pow10;
    Powers();
    var q, r := v / 10000, v % 10000;
    assert v == q * 10000 + r && q > 0;
    NumeralSplit(q, r, 4);
  }

  lemma SplitHundredMillion(v: nat)
    requires v >= 100000000
    ensures Numeral(v) == Numeral(v / 100000000) + Padded(v / 10000 % 10000, 4) + Padded(v % 10000, 4)
  {
    SplitTenThousand(v);
    SplitTenThousand(v / 10000);
    assert v / 10000 / 10000 == v / 100000000;
  }

  /** The digits of a 32-bit number at the start of a ten-octet buffer, and how many there are. */
  method UfastUtoa10(value: nat, str: array<char>) returns (n: nat)
    requires value < U32_LIMIT && str.Length == 10
    modifies str
    ensures n <= 10 && str[..n] == Numeral(value)
  {
    hide Padded, Unpadded, Numeral, Pow10, Digit, Value, AllDigits;
    Powers();
    if value >= 100000000 {
      ReciprocalTenThousand(value);
      ReciprocalHundredMillion(value);
      SplitHundredMillion(value);
      var r0, r1 := value * 3518437209 / 0x2000_0000_0000, value * 2882303762 / 0x400_0000_0000_0000;
      var v2 := r1;
      r1 := r0 - r1 * 10000;
      r0 := value - r0 * 10000;
      UnpaddedIsNumeral(v2);
      if v2 >= 10 {
        CopyRow(str, 0, Unpadded(v2), 2);
        CopyRow(str, 2, Padded(r1, 4), 4);
        CopyRow(str, 6, Padded(r0, 4), 4);
        return 10;
      } else {
        SingleDigit(v2);
        str[0] := Digit(v2);
        CopyRow(str, 1, Padded(r1, 4), 4);
        CopyRow(str, 5, Padded(r0, 4), 4);
        return 9;
      }
    } else if value >= 10000 {
      ReciprocalTenThousand(value);
      SplitTenThousand(value);
      var v2 := value * 3518437209 / 0x2000_0000_0000;
      var r0 := value - v2 * 10000;
      if v2 >= 1000 {
        PaddedIsNumeral(v2, 4);
        CopyRow(str, 0, Padded(v2, 4), 4);
        CopyRow(str, 4, Padded(r0, 4), 4);
        return 8;
      } else {
        UnpaddedIsNumeral(v2);
        var wstr := 0;
        CopyRow(str, wstr, Unpadded(v2), 4);
        wstr := wstr + Offset(v2);
        CopyRow(str, wstr, Padded(r0, 4), 4);
        wstr := wstr + 4;
        return wstr;
      }
    } else if value >= 1000 {
      PaddedIsNumeral(value, 4);
      CopyRow(str, 0, Padded(value, 4), 4);
      return 4;
    } else if value >= 100 {
      PaddedIsNumeral(value, 3);
      CopyRow(str, 0, Padded(value, 3), 3);
      return 3;
    } else if value >= 10 {
      PaddedIsNumeral(value, 2);
      CopyRow(str, 0, Padded(value, 2), 2);
      return 2;
    } else {
      SingleDigit(value);
      str[0] := Digit(value);
      return 1;
    }
  }

  lemma SingleDigit(v: nat)
    requires v < 10
    ensures Numeral(v) == [Digit(v)]
  {
  }

  /** Ten octets are pushed, and those the number does not need are popped again. */
  method RecordU32(value: nat, isNegative: bool) returns (text: string)
    requires value < U32_LIMIT
    ensures text == (if isNegative then "-" else "") + Numeral(value)
  {
    text := if isNegative then "-" else "";
    if value == 0 {
      text := text + ['0'];
      return;
    }
    var str := new char[10];
    var n := UfastUtoa10(value, str);
    var popBy := 10 - n;
    text := text + str[..];
    if popBy > 0 {
      text := text[..|text| - popBy];
    }
  }

  // ---------------------------------------------------------------- reading

  /** Length of the run of digits at the start. */
  function DigitRun(s: string): (n: nat)
    ensures n <= |s| && AllDigits(s[..n]) && (n < |s| ==> !IsDigit(s[n]))
    decreases |s|
  {
    if s == "" || !IsDigit(s[0]) then 0
    else
      var n := DigitRun(s[1..]);
      assert s[..n + 1] == [s[0]] + s[1..][..n];
      n + 1
  }

  /** What the reader makes of a text: the value of its leading digits, saturated. */
  function Saturated(s: string): nat {
    Min(Value(s[..DigitRun(s)]), U32_MAX)
  }

  lemma {:induction false} ValueGrows(s: string, i: nat, j: nat)
    requires AllDigits(s) && i <= j <= |s|
    ensures Value(s[..i]) <= Value(s[..j])
    decreases j
  {
    if i < j {
      ValueGrows(s, i, j - 1);
      assert s[..j][..j - 1] == s[..j - 1];
    }
  }

  lemma {:induction false} RunIsUnique(s: string, n: nat)
    requires n <= |s| && AllDigits(s[..n]) && (n < |s| ==> !IsDigit(s[n]))
    ensures DigitRun(s) == n
    decreases n
  {
    if n > 0 {
      assert s[..n][0] == s[0];
      assert s[1..][..n - 1] == s[..n][1..];
      RunIsUnique(s[1..], n - 1);
    }
  }

  /** The saturated value, and the index of the first character not taken. The digit that reaches the bound is
      itself not counted as taken. */
  method ParseU32N(s: string) returns (u: nat, idx: nat)
    ensures u == Saturated(s)
    ensures idx <= DigitRun(s)
    ensures u < U32_MAX ==> idx == DigitRun(s)
    ensures u == U32_MAX ==> idx < DigitRun(s) && Value(s[..idx]) < U32_MAX <= Value(s[..idx + 1])
  {
    var out := 0;
    idx := 0;
    ghost var run := DigitRun(s);
    ghost var digits := s[..run];
    while |s| > idx
      invariant idx <= run
      invariant s[..idx] == digits[..idx] && out == Value(s[..idx]) < U32_MAX
    {
      var c := s[idx];
      if !('0' <= c <= '9') {
        RunIsUnique(s, idx);
        return out, idx;
      }
      assert idx < run;
      assert s[..idx + 1][..idx] == s[..idx] && s[..idx + 1] == digits[..idx + 1];
      out := out * 10 + (c as nat - '0' as nat);
      if out >= U32_MAX {
        ValueGrows(digits, idx + 1, run);
        assert digits[..run] == digits;
        return U32_MAX, idx;
      }
      idx := idx + 1;
    }
    RunIsUnique(s, idx);
    return out, idx;
  }

  /** Reading undoes printing, up to the bound, whatever follows the number. */
  lemma ReadUndoesPrint(n: nat, rest: string)
    requires rest != "" ==> !IsDigit(rest[0])
    ensures Saturated(Numeral(n) + rest) == Min(n, U32_MAX) == if n < 2147483647 then n else 2147483647
    ensures DigitRun(Numeral(n) + rest) == |Numeral(n)|
  {
    NumeralMeans(n);
    var s := Numeral(n) + rest;
    assert s[..|Numeral(n)|] == Numeral(n);
    RunIsUnique(s, |Numeral(n)|);
  }

  /** Leading zeros do not matter to the reader. */
  lemma {:induction false} LeadingZeros(zeros: nat, s: string)
    requires AllDigits(s)
    ensures var t := seq(zeros, _ => '0') + s; AllDigits(t) && Value(t) == Value(s)
    decreases |s|, zeros
  {
    var t := seq(zeros, _ => '0') + s;
    if s != "" {
      var k := |s| - 1;
      LeadingZeros(zeros, s[..k]);
      assert t[..|t| - 1] == seq(zeros, _ => '0') + s[..k];
    } else if zeros > 0 {
      LeadingZeros(zeros - 1, s);
      assert t[..|t| - 1] == seq(zeros - 1, _ => '0') + s;
    }
  }
}
