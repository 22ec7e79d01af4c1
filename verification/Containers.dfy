/** The loop every SEQUENCE OF and SET OF parser of x509.c is built on: run an element parser on what
    remains, step over what it ate, stop when nothing remains. */
module Containers {
  import opened Bytes

  /** An element parser reports how many octets it ate: at least one, at most what it was given. */
  type ElementParser = p: Octets -> Option<nat> | forall s :: p(s).Some? ==> 1 <= p(s).value <= |s|
    witness s => None

  function Concat(parts: seq<Octets>): Octets {
    if parts == [] then [] else parts[0] + Concat(parts[1..])
  }

  /** The elements found by the loop, or None where an element parser refuses. */
  function Split(p: ElementParser, s: Octets): (r: Option<seq<Octets>>)
    decreases |s|
  {
    if s == [] then Some([])
    else
      var n :- p(s);
      var rest :- Split(p, s[n..]);
      Some([s[..n]] + rest)
  }

  /** One turn of the loop. */
  lemma SplitStep(p: ElementParser, s: Octets)
    ensures s == [] ==> Split(p, s) == Some([])
    ensures s != [] ==> (Split(p, s).Some? <==> p(s).Some? && Split(p, s[p(s).value..]).Some?)
  {
  }

  /** The first element of a successful run, and the rest. */
  lemma SplitHead(p: ElementParser, s: Octets) returns (parts: seq<Octets>)
    requires s != [] && p(s).Some? && Split(p, s[p(s).value..]).Some?
    ensures Split(p, s) == Some(parts) && parts != []
    ensures parts[0] == s[..p(s).value] && parts[1..] == Split(p, s[p(s).value..]).value
  {
    parts := [s[..p(s).value]] + Split(p, s[p(s).value..]).value;
  }

  /** What an element parser says depends on the octets it eats and on nothing after them. */
  ghost predicate Stable(p: ElementParser) {
    forall s: Octets, rest: Octets, n: nat {:trigger p(s + rest), Some(n)} ::
      n <= |s| ==> (p(s) == Some(n) <==> p(s + rest) == Some(n))
  }

  /** `part` is one element and nothing more. */
  predicate Whole(p: ElementParser, part: Octets) {
    p(part) == Some(|part|)
  }

  predicate AllWhole(p: ElementParser, parts: seq<Octets>) {
    forall i :: 0 <= i < |parts| ==> Whole(p, parts[i])
  }

  lemma StablePrefix(p: ElementParser, s: Octets, n: nat)
    requires Stable(p) && n <= |s|
    ensures p(s) == Some(n) <==> Whole(p, s[..n])
  {
    assert s == s[..n] + s[n..];
    assert p(s[..n]) == Some(n) <==> p(s[..n] + s[n..]) == Some(n);
  }

  /** The loop succeeds exactly on concatenations of whole elements, and finds those very elements: the
      content is covered with nothing left over, and in one way only. */
  lemma {:induction false} SplitExact(p: ElementParser, s: Octets, parts: seq<Octets>)
    requires Stable(p)
    ensures Split(p, s) == Some(parts) <==> AllWhole(p, parts) && Concat(parts) == s
    decreases |s|, |parts|
  {
    if s == [] {
      if parts != [] && Concat(parts) == s {
        assert |parts[0]| == 0;
        assert !Whole(p, parts[0]);
      }
    } else {
      if Split(p, s) == Some(parts) {
        var n := p(s).value;
        StablePrefix(p, s, n);
        assert parts[1..] == Split(p, s[n..]).value;
        SplitExact(p, s[n..], parts[1..]);
        assert s == s[..n] + s[n..];
        assert forall i :: 1 <= i < |parts| ==> parts[i] == parts[1..][i - 1];
      }
      if AllWhole(p, parts) && Concat(parts) == s {
        assert parts != [];
        var n := |parts[0]|;
        assert Whole(p, parts[0]) && s[..n] == parts[0] && s[n..] == Concat(parts[1..]);
        StablePrefix(p, s, n);
        SplitExact(p, s[n..], parts[1..]);
        assert parts == [parts[0]] + parts[1..];
      }
    }
  }

  /** Uniqueness, stated on its own: two ways to cut the same content into whole elements are one. */
  lemma SplitUnique(p: ElementParser, a: seq<Octets>, b: seq<Octets>)
    requires Stable(p) && AllWhole(p, a) && AllWhole(p, b) && Concat(a) == Concat(b)
    ensures a == b
  {
    SplitExact(p, Concat(a), a);
    SplitExact(p, Concat(b), b);
  }
}
