/** Octets, big-endian and base-128 numbers: the vocabulary shared by the DER modules. */
module Bytes {
  type byte = b: int | 0 <= b < 256
  type Octets = seq<byte>

  const U32_LIMIT: nat := 0x1_0000_0000
  const U64_LIMIT: nat := 0x1_0000_0000_0000_0000

  datatype Option<+T> = None | Some(value: T) {
    predicate IsFailure() {
      None?
    }

    function PropagateFailure<U>(): Option<U>
      requires None?
    {
      None
    }

    function Extract(): T
      requires Some?
    {
      value
    }
  }

  function Min(a: int, b: int): int {
    if a < b then a else b
  }

  lemma SliceOfSlice<T>(s: seq<T>, a: nat, b: nat, i: nat, j: nat)
    requires a <= b <= |s| && i <= j <= b - a
    ensures s[a..b][i..j] == s[a + i..a + j]
  {
    var t, u := s[a..b][i..j], s[a + i..a + j];
    assert |t| == |u|;
    assert forall k :: 0 <= k < |t| ==> t[k] == u[k];
  }

  /** The number written big-endian by `s`. */
  function BeValue(s: Octets): nat {
    if s == [] then 0 else BeValue(s[..|s| - 1]) * 256 + s[|s| - 1]
  }

  /** The shortest big-endian form of `n`; zero takes one octet. */
  function BeOctets(n: nat): Octets {
    if n < 256 then [n] else BeOctets(n / 256) + [n % 256]
  }

  lemma {:induction false} BeRoundTrip(n: nat)
    ensures BeOctets(n) != []
    ensures BeValue(BeOctets(n)) == n
    ensures n > 0 ==> BeOctets(n)[0] != 0
  {
    if n >= 256 {
      BeRoundTrip(n / 256);
      assert BeOctets(n)[..|BeOctets(n)| - 1] == BeOctets(n / 256);
    } else {
      assert BeOctets(n)[..0] == [];
    }
  }

  /** Strings that do not start with a zero octet are the shortest form of their value. */
  lemma {:induction false} BeCanonical(s: Octets)
    requires s != [] && (|s| > 1 ==> s[0] != 0)
    ensures BeOctets(BeValue(s)) == s
    ensures s[0] != 0 ==> BeValue(s) > 0
  {
    var front := s[..|s| - 1];
    if |s| > 1 {
      BeCanonical(front);
      assert s == front + [s[|s| - 1]];
    } else {
      assert s == [s[0]] && front == [];
    }
  }

  lemma {:induction false} BeValueSplit(s: Octets, t: Octets)
    ensures BeValue(s + t) == BeValue(s) * Power256(|t|) + BeValue(t)
  {
    if t == [] {
      assert s + t == s;
    } else {
      var k := |t| - 1;
      assert (s + t)[..|s + t| - 1] == s + t[..k];
      BeValueSplit(s, t[..k]);
    }
  }

  function Power256(k: nat): (p: nat)
    ensures p >= 1
  {
    if k == 0 then 1 else 256 * Power256(k - 1)
  }

  lemma {:induction false} BeValueBound(s: Octets)
    ensures BeValue(s) < Power256(|s|)
    ensures s != [] ==> BeValue(s) >= s[0] * Power256(|s| - 1)
  {
    if s != [] {
      var front := s[..|s| - 1];
      BeValueBound(front);
      if |s| > 1 {
        assert front[0] == s[0];
      } else {
        assert front == [];
      }
    }
  }

  /** The base-128 number carried by the low seven bits of each octet. */
  function Base128(s: Octets): nat {
    if s == [] then 0 else Base128(s[..|s| - 1]) * 128 + s[|s| - 1] % 128
  }

  /** Index of the first octet with its top bit clear, or `|s|`. */
  function FirstEnd(s: Octets): (k: nat)
    ensures k <= |s|
    ensures forall i :: 0 <= i < k ==> s[i] >= 128
    ensures k < |s| ==> s[k] < 128
  {
    if s == [] then 0 else if s[0] < 128 then 0 else 1 + FirstEnd(s[1..])
  }

  lemma FirstEndUnique(s: Octets, k: nat)
    requires k <= |s|
    requires forall i :: 0 <= i < k ==> s[i] >= 128
    requires k < |s| ==> s[k] < 128
    ensures FirstEnd(s) == k
  {
  }
}
