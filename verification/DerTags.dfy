/** Identifier octets for tag numbers of any size the parser reads, encoded and parsed again. */
module DerTags {
  import opened Bytes
  import opened Der

  /** Base-128 digits of a number, the top bit set in all of them. */
  function Continued(n: nat): Octets {
    if n < 128 then [128 + n] else Continued(n / 128) + [128 + n % 128]
  }

  /** The same with the top bit clear in the last one. */
  function Group(n: nat): Octets {
    if n < 128 then [n] else Continued(n / 128) + [n % 128]
  }

  lemma {:induction false} ContinuedMeans(n: nat)
    ensures Continued(n) != [] && Base128(Continued(n)) == n
    ensures forall i :: 0 <= i < |Continued(n)| ==> Continued(n)[i] >= 128
  {
    if n < 128 {
      assert Continued(n)[..0] == [];
    } else {
      ContinuedMeans(n / 128);
      var s := Continued(n);
      assert s[..|s| - 1] == Continued(n / 128);
    }
  }

  lemma ContinuedLength(n: nat)
    requires n < 0x20_0000
    ensures |Continued(n)| <= 3
  {
    var a, b := n / 128, n / 128 / 128;
    assert a < 0x4000 && b < 128;
    assert |Continued(b)| == 1;
    assert |Continued(a)| <= 2;
  }

  lemma GroupMeans(n: nat)
    requires n < 0x1000_0000
    ensures 1 <= |Group(n)| <= 4 && Base128(Group(n)) == n && FirstEnd(Group(n)) == |Group(n)| - 1
  {
    hide Continued, FirstEnd;
    var s := Group(n);
    if n < 128 {
      assert s[..0] == [];
    } else {
      ContinuedMeans(n / 128);
      ContinuedLength(n / 128);
      assert s[..|s| - 1] == Continued(n / 128);
    }
    FirstEndUnique(s, |s| - 1);
  }

  /** Every number below 2^28 is read back, whatever follows. */
  lemma GroupReads(n: nat, rest: Octets)
    requires n < 0x1000_0000
    ensures ArcAt(Group(n) + rest) == Some((n, |Group(n)|))
  {
    hide Group, ArcAt;
    GroupMeans(n);
    assert (Group(n) + rest)[..|Group(n)|] == Group(n);
    ArcExact(Group(n) + rest, n, |Group(n)|);
  }

  /** Class and constructed bit above the number, or above 31 with the number behind (section 8.1.2 of X.690). */
  function IdentifierOctets(cls: nat, constructed: bool, tag: nat): Octets
    requires cls < 4
  {
    var first := cls * 64 + if constructed then 32 else 0;
    if tag < 31 then [first + tag] else [first + 31] + Group(tag)
  }

  /** Class, constructed bit and number of every identifier below 2^28 are read back, whatever follows. */
  lemma IdentifierRoundTrip(cls: nat, constructed: bool, tag: nat, rest: Octets)
    requires cls < 4 && tag < 0x1000_0000
    ensures var w := IdentifierOctets(cls, constructed, tag);
            IdentifierAt(w + rest) == Some(Identifier(cls, constructed, tag, |w|))
  {
    hide ArcAt, Group;
    var w := IdentifierOctets(cls, constructed, tag);
    var s := w + rest;
    var first := cls * 64 + if constructed then 32 else 0;
    assert s[0] == first + if tag < 31 then tag else 31;
    assert s[0] / 64 == cls && (s[0] / 32 % 2 == 1 <==> constructed);
    assert s[0] % 32 == if tag < 31 then tag else 31;
    if tag >= 31 {
      assert s[1..] == Group(tag) + rest;
      GroupReads(tag, rest);
    }
  }
}
