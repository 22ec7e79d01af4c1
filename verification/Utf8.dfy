/** UTF-8 checking and counting against the encoding form of section 3 of RFC 3629. */
module Utf8 {
  import opened Bytes

  /** A Unicode scalar value: a code point that is not a surrogate. */
  predicate IsScalar(u: nat) {
    u < 0xD800 || 0xE000 <= u < 0x11_0000
  }

  type Scalar = u: nat | IsScalar(u)

  function EncodeScalar(u: Scalar): (e: Octets)
    ensures 1 <= |e| <= 4
  {
    var q1 := u / 64;
    var q2 := q1 / 64;
    var q3 := q2 / 64;
    if u < 0x80 then
      [u]
    else if u < 0x800 then
      [0xC0 + q1, 0x80 + u % 64]
    else if u < 0x1_0000 then
      [0xE0 + q2, 0x80 + q1 % 64, 0x80 + u % 64]
    else
      assert IsScalar(u);
      assert q1 < 0x4400 && q2 < 0x110 && q3 < 5;
      [0xF0 + q3, 0x80 + q2 % 64, 0x80 + q1 % 64, 0x80 + u % 64]
  }

  function Encode(us: seq<Scalar>): Octets {
    if us == [] then [] else EncodeScalar(us[0]) + Encode(us[1..])
  }

  ghost predicate IsEncoding(s: Octets) {
    exists us: seq<Scalar> :: Encode(us) == s
  }

  predicate Continuation(b: byte) {
    b / 0x40 == 2
  }

  /** Octets of the well-formed sequence at the head of `s`, zero if there is none. */
  function UnitAt(s: Octets): (n: nat)
    ensures n <= |s|
  {
    if s == [] then 0
    else if s[0] < 0x80 then 1
    else if 0xC2 <= s[0] < 0xE0 then
      if |s| >= 2 && Continuation(s[1]) then 2 else 0
    else if 0xE0 <= s[0] < 0xF0 then
      if |s| >= 3 && Continuation(s[1]) && Continuation(s[2])
         && (s[0] == 0xE0 ==> s[1] >= 0xA0) && (s[0] == 0xED ==> s[1] < 0xA0) then 3 else 0
    else if 0xF0 <= s[0] < 0xF5 then
      if |s| >= 4 && Continuation(s[1]) && Continuation(s[2]) && Continuation(s[3])
         && (s[0] == 0xF0 ==> s[1] >= 0x90) && (s[0] == 0xF4 ==> s[1] < 0x90) then 4 else 0
    else 0
  }

  function Append6(high: nat, b: byte): nat {
    high * 64 + b % 64
  }

  /** The scalar written by the sequence at the head of `s`. */
  function Decoded(s: Octets): nat
    requires UnitAt(s) > 0
  {
    match UnitAt(s)
    case 1 => s[0]
    case 2 => Append6(s[0] % 32, s[1])
    case 3 => Append6(Append6(s[0] % 16, s[1]), s[2])
    case _ => Append6(Append6(Append6(s[0] % 8, s[1]), s[2]), s[3])
  }

  lemma UnitIsEncoding(s: Octets)
    requires UnitAt(s) > 0
    ensures IsScalar(Decoded(s))
    ensures EncodeScalar(Decoded(s)) == s[..UnitAt(s)]
  {
    if UnitAt(s) == 4 {
      QuadDecodes(s);
    } else if UnitAt(s) == 3 {
      TripleDecodes(s);
    } else if UnitAt(s) == 2 {
      Peel(s[0] % 32, s[1]);
    }
  }

  lemma TripleDecodes(s: Octets)
    requires UnitAt(s) == 3
    ensures IsScalar(Decoded(s))
    ensures EncodeScalar(Decoded(s)) == s[..3]
  {
    var u := Append6(s[0] % 16, s[1]);
    Peel(s[0] % 16, s[1]);
    Peel(u, s[2]);
  }

  lemma QuadDecodes(s: Octets)
    requires UnitAt(s) == 4
    ensures IsScalar(Decoded(s))
    ensures EncodeScalar(Decoded(s)) == s[..4]
  {
    var u := Append6(s[0] % 8, s[1]);
    var v := Append6(u, s[2]);
    Peel(s[0] % 8, s[1]);
    Peel(u, s[2]);
    Peel(v, s[3]);
  }

  lemma Peel(high: nat, b: byte)
    ensures Append6(high, b) / 64 == high && Append6(high, b) % 64 == b % 64
  {
  }

  /** The high parts of a code point, by the size of its encoding. */
  lemma Quotients(u: nat)
    requires u < 0x11_0000
    ensures u < 0x800 ==> u / 64 < 32
    ensures u < 0x1_0000 ==> u / 64 / 64 < 16
    ensures u / 64 / 64 < 0x110 && u / 64 / 64 / 64 < 5
    ensures u >= 0x80 ==> u / 64 >= 2
    ensures u >= 0x800 ==> u / 64 >= 32
    ensures u >= 0x1_0000 ==> u / 64 / 64 >= 16
    ensures 0xD800 <= u < 0xE000 <==> u / 64 / 64 == 13 && u / 64 % 64 >= 32
  {
  }

  lemma ShortIsUnit(u: Scalar, rest: Octets)
    requires u < 0x800
    ensures UnitAt(EncodeScalar(u) + rest) == |EncodeScalar(u)|
    ensures Decoded(EncodeScalar(u) + rest) == u
  {
    Quotients(u);
    var e := EncodeScalar(u);
    var s := e + rest;
    assert s[0] == e[0] && (|e| > 1 ==> s[1] == e[1]);
    TrailerIsContinuation(u % 64);
  }

  lemma TripleIsUnit(u: Scalar, rest: Octets)
    requires 0x800 <= u < 0x1_0000
    ensures UnitAt(EncodeScalar(u) + rest) == |EncodeScalar(u)|
    ensures Decoded(EncodeScalar(u) + rest) == u
  {
    assert IsScalar(u);
    Quotients(u);
    var q1 := u / 64;
    var e := EncodeScalar(u);
    var s := e + rest;
    assert s[0] == e[0] && s[1] == e[1] && s[2] == e[2];
    TrailerIsContinuation(u % 64);
    TrailerIsContinuation(q1 % 64);
  }

  lemma QuadIsUnit(u: Scalar, rest: Octets)
    requires 0x1_0000 <= u
    ensures UnitAt(EncodeScalar(u) + rest) == |EncodeScalar(u)|
    ensures Decoded(EncodeScalar(u) + rest) == u
  {
    assert IsScalar(u);
    Quotients(u);
    var q1, q2 := u / 64, u / 64 / 64;
    var e := EncodeScalar(u);
    var s := e + rest;
    assert s[0] == e[0] && s[1] == e[1] && s[2] == e[2] && s[3] == e[3];
    TrailerIsContinuation(u % 64);
    TrailerIsContinuation(q1 % 64);
    TrailerIsContinuation(q2 % 64);
  }

  lemma EncodingIsUnit(u: Scalar, rest: Octets)
    ensures UnitAt(EncodeScalar(u) + rest) == |EncodeScalar(u)|
    ensures Decoded(EncodeScalar(u) + rest) == u
  {
    hide UnitAt, Decoded, EncodeScalar;
    if u < 0x800 {
      ShortIsUnit(u, rest);
    } else if u < 0x1_0000 {
      TripleIsUnit(u, rest);
    } else {
      QuadIsUnit(u, rest);
    }
  }

  lemma TrailerIsContinuation(x: nat)
    requires x < 64
    ensures Continuation(0x80 + x) && (0x80 + x) % 64 == x
  {
  }

  /** Peeling one sequence off the head keeps the question the same. */
  lemma EncodingStep(s: Octets)
    requires s != []
    ensures IsEncoding(s) <==> UnitAt(s) > 0 && IsEncoding(s[UnitAt(s)..])
  {
    hide UnitAt, EncodeScalar, IsScalar, Decoded;
    if us :| Encode(us) == s {
      EncodingIsUnit(us[0], Encode(us[1..]));
      assert s[|EncodeScalar(us[0])|..] == Encode(us[1..]);
    }
    if UnitAt(s) > 0 && IsEncoding(s[UnitAt(s)..]) {
      UnitIsEncoding(s);
      var us: seq<Scalar> :| Encode(us) == s[UnitAt(s)..];
      var u: Scalar := Decoded(s);
      assert ([u] + us)[1..] == us;
      assert Encode([u] + us) == s[..UnitAt(s)] + s[UnitAt(s)..] == s;
    }
  }

  /** Accepts exactly the non-empty encodings of scalar sequences. */
  method CheckUtf8String(input: Octets) returns (ok: bool)
    ensures ok <==> input != [] && IsEncoding(input)
  {
    hide IsEncoding, IsScalar, EncodeScalar;
    if |input| == 0 {
      return false;
    }
    var buf := input;
    while |buf| > 0
      invariant IsEncoding(input) <==> IsEncoding(buf)
      decreases |buf|
    {
      EncodingStep(buf);
      var b0 := buf[0];
      if b0 <= 0x7f {
        buf := buf[1..];
        continue;
      }
      if b0 >= 0xc2 && b0 <= 0xdf {
        if |buf| < 2 || buf[1] / 0x40 != 2 {
          return false;
        }
        buf := buf[2..];
        continue;
      }
      if b0 >= 0xe0 && b0 <= 0xef {
        if |buf| < 3 || buf[1] / 0x40 != 2 || buf[2] / 0x40 != 2 {
          return false;
        }
        if b0 == 0xe0 && (buf[1] < 0xa0 || buf[1] > 0xbf) {
          return false;
        } else if b0 == 0xed && (buf[1] < 0x80 || buf[1] > 0x9f) {
          return false;
        }
        buf := buf[3..];
        continue;
      }
      if b0 >= 0xf0 && b0 <= 0xf4 {
        if |buf| < 4 {
          return false;
        }
        if b0 == 0xf0 && (buf[1] < 0x90 || buf[1] > 0xbf) {
          return false;
        } else if b0 == 0xf4 && (buf[1] < 0x80 || buf[1] > 0x8f) {
          return false;
        }
        if buf[1] / 0x40 != 2 || buf[2] / 0x40 != 2 || buf[3] / 0x40 != 2 {
          return false;
        }
        buf := buf[4..];
        continue;
      }
      return false;
    }
    EmptyIsEncoding();
    assert buf == [];
    return true;
  }

  lemma EmptyIsEncoding()
    ensures IsEncoding([])
  {
    assert Encode([]) == [];
  }

  lemma EncodesToNothing(us: seq<Scalar>)
    ensures Encode(us) == [] <==> us == []
  {
    if us != [] {
      assert |EncodeScalar(us[0])| >= 1;
    }
  }

  /** Encoding loses nothing, so an accepted string has one scalar sequence. */
  lemma {:induction false} EncodeInjective(us: seq<Scalar>, vs: seq<Scalar>)
    requires Encode(us) == Encode(vs)
    ensures us == vs
  {
    hide EncodeScalar, UnitAt, IsScalar;
    if us == [] || vs == [] {
      EncodesToNothing(us);
      EncodesToNothing(vs);
    } else {
      EncodingIsUnit(us[0], Encode(us[1..]));
      EncodingIsUnit(vs[0], Encode(vs[1..]));
      var n := |EncodeScalar(us[0])|;
      assert Encode(us[1..]) == Encode(us)[n..] && Encode(vs[1..]) == Encode(vs)[n..];
      EncodeInjective(us[1..], vs[1..]);
      assert us == [us[0]] + us[1..] && vs == [vs[0]] + vs[1..];
    }
  }

  // ---------------------------------------------------------------- counting

  /** How far the counter jumps at a leading octet. */
  function Stride(b: byte): (n: nat)
    ensures 1 <= n <= 4
  {
    if b / 8 == 0x1E then 4 else if b / 16 == 0xE then 3 else if b / 32 == 6 then 2 else 1
  }

  /** Runes counted on any octets: jumps by the leading octet; a last jump past the end is not counted. */
  function CountRunes(s: Octets): nat {
    if s == [] then 0
    else if Stride(s[0]) > |s| then 0
    else 1 + CountRunes(s[Stride(s[0])..])
  }

  method Utf8Count(str: Octets) returns (length: nat)
    ensures length == CountRunes(str)
  {
    length := 0;
    var idx := 0;
    while idx < |str|
      invariant idx <= |str| ==> length + CountRunes(str[idx..]) == CountRunes(str)
      invariant idx > |str| ==> length == CountRunes(str) + 1
      decreases |str| - idx
    {
      assert str[idx..][0] == str[idx];
      assert idx + Stride(str[idx]) <= |str| ==> str[idx..][Stride(str[idx])..] == str[idx + Stride(str[idx])..];
      if str[idx] / 8 == 0x1e {
        idx := idx + 4;
      } else if str[idx] / 16 == 0xe {
        idx := idx + 3;
      } else if str[idx] / 32 == 6 {
        idx := idx + 2;
      } else {
        idx := idx + 1;
      }
      length := length + 1;
    }
    if idx > |str| {
      length := length - 1;
    } else {
      assert str[idx..] == [];
    }
  }

  lemma StrideOfScalar(u: Scalar)
    ensures Stride(EncodeScalar(u)[0]) == |EncodeScalar(u)|
  {
    assert IsScalar(u);
    Quotients(u);
  }

  /** On every accepted string the counter returns the number of scalars. */
  lemma {:induction false} CountsScalars(us: seq<Scalar>)
    ensures CountRunes(Encode(us)) == |us|
  {
    hide EncodeScalar, IsScalar, Stride;
    if us != [] {
      var e := EncodeScalar(us[0]);
      StrideOfScalar(us[0]);
      assert Encode(us)[0] == e[0] && Encode(us)[|e|..] == Encode(us[1..]);
      CountsScalars(us[1..]);
    }
  }

  /** A last sequence that is cut off is not counted. */
  lemma {:induction false} CutOffIsNotCounted(us: seq<Scalar>, u: Scalar, k: nat)
    requires 0 < k < |EncodeScalar(u)|
    ensures CountRunes(Encode(us) + EncodeScalar(u)[..k]) == |us|
    decreases |us|
  {
    hide EncodeScalar, IsScalar, Stride;
    var tail := EncodeScalar(u)[..k];
    if us == [] {
      assert Encode(us) + tail == tail;
      StrideOfScalar(u);
      assert tail[0] == EncodeScalar(u)[0];
    } else {
      var e, s := EncodeScalar(us[0]), Encode(us) + tail;
      StrideOfScalar(us[0]);
      assert s == e + (Encode(us[1..]) + tail);
      assert s[0] == e[0] && s[|e|..] == Encode(us[1..]) + tail;
      CutOffIsNotCounted(us[1..], u, k);
    }
  }
}
