/** Search, count and replace on octet strings (base.c): a counting pass sizes the result, a copying pass fills it. */
module ReplaceAll {
  import opened Bytes

  // ---------------------------------------------------------------- occurrences

  predicate At(s: Octets, p: Octets, i: nat) {
    i + |p| <= |s| && s[i..i + |p|] == p
  }

  /** The number of positions from `i` up to `j` where the pattern occurs. */
  function Count(s: Octets, p: Octets, i: nat, j: nat): nat
    requires i <= j
    decreases j - i
  {
    if i == j then 0 else (if At(s, p, i) then 1 else 0) + Count(s, p, i + 1, j)
  }

  /** Occurrences from `i` on never share an octet. */
  ghost predicate Apart(s: Octets, p: Octets, i: nat) {
    forall j, k :: i <= j < k && At(s, p, j) && At(s, p, k) ==> j + |p| <= k
  }

  // ---------------------------------------------------------------- leftmost replacement, from the left

  function ReplaceFrom(s: Octets, p: Octets, r: Octets, i: nat): Octets
    requires p != [] && i <= |s|
    decreases |s| - i
  {
    if i == |s| then []
    else if At(s, p, i) then r + ReplaceFrom(s, p, r, i + |p|)
    else [s[i]] + ReplaceFrom(s, p, r, i + 1)
  }

  /** How many occurrences it replaces. */
  function ReplacedFrom(s: Octets, p: Octets, i: nat): nat
    requires p != [] && i <= |s|
    decreases |s| - i
  {
    if i == |s| then 0
    else if At(s, p, i) then 1 + ReplacedFrom(s, p, i + |p|)
    else ReplacedFrom(s, p, i + 1)
  }

  /** Replacing the leftmost occurrences that do not overlap; an empty pattern replaces nothing. */
  function Replaced(s: Octets, p: Octets, r: Octets): Octets {
    if p == [] then s else ReplaceFrom(s, p, r, 0)
  }

  // ---------------------------------------------------------------- the same, as pieces between occurrences

  function Join(pieces: seq<Octets>, sep: Octets): Octets {
    if pieces == [] then [] else if |pieces| == 1 then pieces[0] else pieces[0] + sep + Join(pieces[1..], sep)
  }

  ghost predicate Absent(s: Octets, p: Octets) {
    forall i :: 0 <= i < |s| ==> !At(s, p, i)
  }

  /** In the text followed by the pattern, the pattern does not begin earlier. */
  ghost predicate Before(head: Octets, p: Octets) {
    forall i :: 0 <= i < |head| ==> !At(head + p, p, i)
  }

  /** Each piece but the last ends where the pattern first occurs, and the last holds no occurrence. */
  ghost predicate Leftmost(pieces: seq<Octets>, p: Octets) {
    && pieces != []
    && (forall k :: 0 <= k < |pieces| - 1 ==> Before(pieces[k], p))
    && Absent(pieces[|pieces| - 1], p)
  }

  /** An occurrence inside a prefix is seen in the whole, and the other way round. */
  lemma AtInPrefix(a: Octets, b: Octets, p: Octets, i: nat)
    requires i + |p| <= |a|
    ensures At(a + b, p, i) <==> At(a, p, i)
  {
    assert (a + b)[i..i + |p|] == a[i..i + |p|];
  }

  lemma AtInSuffix(a: Octets, b: Octets, p: Octets, i: nat)
    ensures At(a + b, p, |a| + i) <==> At(b, p, i)
  {
    if i + |p| <= |b| {
      assert (a + b)[|a| + i..|a| + i + |p|] == b[i..i + |p|];
    }
  }

  lemma Unfold(s: Octets, p: Octets, r: Octets, i: nat)
    requires p != [] && i < |s|
    ensures At(s, p, i) ==>
              && i + |p| <= |s|
              && ReplaceFrom(s, p, r, i) == r + ReplaceFrom(s, p, r, i + |p|)
              && ReplacedFrom(s, p, i) == 1 + ReplacedFrom(s, p, i + |p|)
    ensures !At(s, p, i) ==>
              && ReplaceFrom(s, p, r, i) == [s[i]] + ReplaceFrom(s, p, r, i + 1)
              && ReplacedFrom(s, p, i) == ReplacedFrom(s, p, i + 1)
  {
  }

  lemma NothingLeft(s: Octets, p: Octets, r: Octets)
    requires p != []
    ensures ReplaceFrom(s, p, r, |s|) == [] && ReplacedFrom(s, p, |s|) == 0
  {
  }

  /** Replacing in a suffix of the text is replacing from there on. */
  lemma {:induction false} ReplaceInSuffix(a: Octets, b: Octets, p: Octets, r: Octets, i: nat)
    requires p != [] && i <= |b|
    ensures ReplaceFrom(a + b, p, r, |a| + i) == ReplaceFrom(b, p, r, i)
    ensures ReplacedFrom(a + b, p, |a| + i) == ReplacedFrom(b, p, i)
    decreases |b| - i
  {
    hide At, ReplaceFrom, ReplacedFrom;
    NothingLeft(a + b, p, r);
    NothingLeft(b, p, r);
    if i < |b| {
      AtInSuffix(a, b, p, i);
      Unfold(b, p, r, i);
      Unfold(a + b, p, r, |a| + i);
      ReplaceInSuffix(a, b, p, r, if At(b, p, i) then i + |p| else i + 1);
    }
  }

  /** Octets where the pattern does not begin are copied. */
  lemma {:induction false} CopiesUpTo(s: Octets, p: Octets, r: Octets, i: nat, j: nat)
    requires p != [] && i <= j <= |s|
    requires forall k :: i <= k < j ==> !At(s, p, k)
    ensures ReplaceFrom(s, p, r, i) == s[i..j] + ReplaceFrom(s, p, r, j)
    ensures ReplacedFrom(s, p, i) == ReplacedFrom(s, p, j)
    decreases j - i
  {
    hide At, ReplaceFrom, ReplacedFrom;
    if i == j {
      assert s[i..j] == [];
    } else {
      Unfold(s, p, r, i);
      CopiesUpTo(s, p, r, i + 1, j);
      assert s[i..j] == [s[i]] + s[i + 1..j];
    }
  }

  /** Whatever leftmost pieces a text is made of, replacing puts the replacement between them. */
  lemma {:induction false} ReplacesBetweenPieces(pieces: seq<Octets>, p: Octets, r: Octets)
    requires p != [] && Leftmost(pieces, p)
    ensures Replaced(Join(pieces, p), p, r) == Join(pieces, r)
    ensures ReplacedFrom(Join(pieces, p), p, 0) == |pieces| - 1
    decreases |pieces|
  {
    hide ReplaceFrom, ReplacedFrom, At;
    var head, s := pieces[0], Join(pieces, p);
    if |pieces| == 1 {
      CopiesUpTo(s, p, r, 0, |s|);
      NothingLeft(s, p, r);
      assert s[0..|s|] + [] == s;
    } else {
      var tail := Join(pieces[1..], p);
      RestIsLeftmost(pieces, p);
      ReplacesBetweenPieces(pieces[1..], p, r);
      forall k | 0 <= k < |head| ensures !At(s, p, k) {
        assert Before(pieces[0], p);
        AtInPrefix(head + p, tail, p, k);
      }
      CopiesUpTo(s, p, r, 0, |head|);
      assert s[0..|head|] == head;
      ReplacesHere(head, tail, p, r);
      assert head + (r + Join(pieces[1..], r)) == head + r + Join(pieces[1..], r);
    }
  }

  lemma RestIsLeftmost(pieces: seq<Octets>, p: Octets)
    requires |pieces| > 1 && Leftmost(pieces, p)
    ensures Leftmost(pieces[1..], p) && Before(pieces[0], p)
  {
    hide At, Before, Absent;
  }

  lemma ReplacesHere(head: Octets, tail: Octets, p: Octets, r: Octets)
    requires p != []
    ensures var s := head + p + tail;
            ReplaceFrom(s, p, r, |head|) == r + ReplaceFrom(tail, p, r, 0)
            && ReplacedFrom(s, p, |head|) == 1 + ReplacedFrom(tail, p, 0)
  {
    hide At, ReplaceFrom, ReplacedFrom;
    var front := head + p;
    assert front + tail == head + p + tail && |front| + 0 == |head| + |p|;
    OccursAfter(head, p, tail);
    Unfold(head + p + tail, p, r, |head|);
    ReplaceInSuffix(front, tail, p, r, 0);
  }

  /** The pieces of any text: cut at the first occurrence, go on behind it. */
  function First(s: Octets, p: Octets, i: nat): (k: nat)
    requires i <= |s|
    ensures i <= k <= |s| && (k < |s| ==> At(s, p, k)) && forall j :: i <= j < k ==> !At(s, p, j)
    decreases |s| - i
  {
    if i == |s| || At(s, p, i) then i else First(s, p, i + 1)
  }

  function Pieces(s: Octets, p: Octets): seq<Octets>
    requires p != []
    decreases |s|
  {
    var k := First(s, p, 0);
    if k == |s| then [s] else [s[..k]] + Pieces(s[k + |p|..], p)
  }

  lemma {:induction false} PiecesAreLeftmost(s: Octets, p: Octets)
    requires p != []
    ensures Leftmost(Pieces(s, p), p) && Join(Pieces(s, p), p) == s
    decreases |s|
  {
    hide At, First, Leftmost, Join;
    var k := First(s, p, 0);
    if k == |s| {
      WholeIsLeftmost(s, p);
    } else {
      FitsBefore(s, p, k);
      var head, tail := s[..k], s[k + |p|..];
      PiecesAreLeftmost(tail, p);
      CutAt(s, p, k);
      forall i | 0 <= i < k ensures !At(head + p, p, i) {
        AtInPrefix(head + p, tail, p, i);
      }
      FrontPiece(head, Pieces(tail, p), p);
    }
  }

  lemma CutAt(s: Octets, p: Octets, k: nat)
    requires At(s, p, k)
    ensures s == s[..k] + p + s[k + |p|..]
  {
    assert s[..k] + s[k..k + |p|] + s[k + |p|..] == s;
  }

  lemma WholeIsLeftmost(s: Octets, p: Octets)
    requires Absent(s, p)
    ensures Leftmost([s], p) && Join([s], p) == s
  {
  }

  lemma FrontPiece(head: Octets, pieces: seq<Octets>, p: Octets)
    requires Leftmost(pieces, p) && Before(head, p)
    ensures Leftmost([head] + pieces, p)
    ensures Join([head] + pieces, p) == head + p + Join(pieces, p)
  {
    hide At, Before, Absent;
    assert ([head] + pieces)[1..] == pieces;
  }

  /** So every text has leftmost pieces, and only one list of them. */
  lemma {:induction false} LeftmostPiecesAreUnique(pieces: seq<Octets>, p: Octets)
    requires p != [] && Leftmost(pieces, p)
    ensures Pieces(Join(pieces, p), p) == pieces
    decreases |pieces|
  {
    hide At;
    var head, s := pieces[0], Join(pieces, p);
    if |pieces| == 1 {
      FirstIs(s, p, 0, |s|);
    } else {
      var tail := Join(pieces[1..], p);
      RestIsLeftmost(pieces, p);
      LeftmostPiecesAreUnique(pieces[1..], p);
      forall k | 0 <= k < |head| ensures !At(s, p, k) {
        assert Before(pieces[0], p);
        AtInPrefix(head + p, tail, p, k);
      }
      OccursAfter(head, p, tail);
      FirstIs(s, p, 0, |head|);
      assert s[|head| + |p|..] == tail && s[..|head|] == head;
    }
  }

  lemma OccursAfter(head: Octets, p: Octets, tail: Octets)
    ensures At(head + p + tail, p, |head|)
  {
    assert (head + p + tail)[|head|..|head| + |p|] == p;
  }

  // ---------------------------------------------------------------- the two passes compared

  lemma {:induction false} CountSplit(s: Octets, p: Octets, i: nat, m: nat, j: nat)
    requires i <= m <= j
    ensures Count(s, p, i, j) == Count(s, p, i, m) + Count(s, p, m, j)
    decreases m - i
  {
    if i < m {
      CountSplit(s, p, i + 1, m, j);
    }
  }

  lemma {:induction false} CountZeroExactly(s: Octets, p: Octets, i: nat, j: nat)
    requires i <= j
    ensures Count(s, p, i, j) == 0 <==> forall k :: i <= k < j ==> !At(s, p, k)
    decreases j - i
  {
    if i < j {
      CountZeroExactly(s, p, i + 1, j);
    }
  }

  /** Advancing by one counts at least the occurrences found by advancing over each, and no more exactly when
      no two of them overlap. */
  lemma {:induction false} PassesAgreeExactly(s: Octets, p: Octets, i: nat)
    requires p != [] && i <= |s|
    ensures Count(s, p, i, |s|) >= ReplacedFrom(s, p, i)
    ensures Count(s, p, i, |s|) == ReplacedFrom(s, p, i) <==> Apart(s, p, i)
    decreases |s| - i
  {
    if i < |s| {
      if At(s, p, i) {
        var m := i + |p|;
        PassesAgreeExactly(s, p, m);
        CountSplit(s, p, i + 1, m, |s|);
        CountZeroExactly(s, p, i + 1, m);
        ApartHereExactly(s, p, i);
      } else {
        PassesAgreeExactly(s, p, i + 1);
        ApartSkips(s, p, i);
      }
    } else {
      ApartAtEnd(s, p);
    }
  }

  lemma ApartHereExactly(s: Octets, p: Octets, i: nat)
    requires At(s, p, i) && p != []
    ensures Apart(s, p, i) <==> Apart(s, p, i + |p|) && forall k :: i + 1 <= k < i + |p| ==> !At(s, p, k)
  {
    hide At;
  }

  lemma ApartSkips(s: Octets, p: Octets, i: nat)
    requires !At(s, p, i)
    ensures Apart(s, p, i) <==> Apart(s, p, i + 1)
  {
    hide At;
  }

  lemma ApartAtEnd(s: Octets, p: Octets)
    requires p != []
    ensures Apart(s, p, |s|)
  {
  }

  lemma {:induction false} ReplacedLength(s: Octets, p: Octets, r: Octets, i: nat)
    requires p != [] && i <= |s|
    ensures |ReplaceFrom(s, p, r, i)| == |s| - i + ReplacedFrom(s, p, i) * (|r| - |p|)
    decreases |s| - i
  {
    hide At, ReplaceFrom, ReplacedFrom;
    NothingLeft(s, p, r);
    if i < |s| {
      Unfold(s, p, r, i);
      if At(s, p, i) {
        ReplacedLength(s, p, r, i + |p|);
        OneMore(ReplacedFrom(s, p, i + |p|), |r| - |p|);
      } else {
        ReplacedLength(s, p, r, i + 1);
      }
    }
  }

  lemma OneMore(k: nat, d: int)
    ensures (1 + k) * d == d + k * d
  {
  }

  // ---------------------------------------------------------------- the code

  /** The search compares each octet with the pattern's first one read as a signed octet. */
  method FindFirst(str: Octets, findStr: Octets, offset: nat) returns (i: nat)
    requires offset <= |str|
    ensures findStr == [] ==> i == 0
    ensures findStr != [] && |str| < |findStr| ==> i == |str|
    ensures findStr != [] && |findStr| <= |str| && offset > |str| - |findStr| + 1 ==> i == offset
    ensures findStr != [] && findStr[0] < 0x80 && offset <= |str| - |findStr| + 1 ==> i == First(str, findStr, offset)
    ensures findStr != [] && findStr[0] >= 0x80 && offset <= |str| - |findStr| + 1 ==> i == |str|
  {
    hide First;
    i := 0;
    if |findStr| > 0 {
      i := |str|;
      if |str| >= |findStr| {
        i := offset;
        var first: int := findStr[0];
        var c := if first < 0x80 then first else first - 0x100;
        var onePastLast := |str| - |findStr| + 1;
        while i < onePastLast
          invariant offset <= i && (offset <= onePastLast ==> i <= onePastLast)
          invariant i > offset ==> i <= onePastLast
          invariant findStr[0] < 0x80 ==> forall j :: offset <= j < i ==> !At(str, findStr, j)
        {
          if str[i] as int == c {
            if |str| - i >= |findStr| {
              if str[i..i + |findStr|] == findStr {
                assert At(str, findStr, i);
                FirstIs(str, findStr, offset, i);
                return;
              }
            }
          }
          assert findStr[0] < 0x80 ==> !At(str, findStr, i) by {
            if At(str, findStr, i) {
              assert str[i..i + |findStr|][0] == str[i];
            }
          }
          i := i + 1;
        }
        if i == onePastLast {
          if findStr[0] < 0x80 {
            FirstIs(str, findStr, offset, |str|);
          }
          i := |str|;
        }
      }
    }
  }

  lemma FirstIs(s: Octets, p: Octets, i: nat, k: nat)
    requires i <= k <= |s| && (k < |s| ==> At(s, p, k)) && forall j :: i <= j < k ==> !At(s, p, j)
    ensures First(s, p, i) == k
  {
    hide At, First;
  }

  /** All occurrences, overlapping ones too; none when the pattern begins with an octet of 0x80 or more. */
  method ContainsSubStringCount(str: Octets, findStr: Octets) returns (ct: nat)
    requires findStr != []
    ensures ct == if findStr[0] < 0x80 then Count(str, findStr, 0, |str|) else 0
  {
    hide First, At;
    ct := 0;
    var idx := 0;
    while true
      invariant idx <= |str| && (|findStr| <= |str| ==> idx <= |str| - |findStr| + 1)
      invariant findStr[0] < 0x80 ==> ct == Count(str, findStr, 0, idx)
      invariant findStr[0] >= 0x80 ==> ct == 0
      decreases |str| - idx
    {
      ghost var from := idx;
      idx := FindFirst(str, findStr, idx);
      if |str| < |findStr| {
        TooShort(str, findStr);
      }
      CountSplit(str, findStr, 0, from, idx);
      CountZeroExactly(str, findStr, from, idx);
      if idx == |str| {
        break;
      }
      CountSplit(str, findStr, 0, idx, idx + 1);
      FitsBefore(str, findStr, idx);
      ct := ct + 1;
      idx := idx + 1;
    }
  }

  lemma TooShort(s: Octets, p: Octets)
    requires |s| < |p|
    ensures forall k: nat :: !At(s, p, k)
  {
  }

  lemma FitsBefore(s: Octets, p: Octets, i: nat)
    requires At(s, p, i)
    ensures i + |p| <= |s|
  {
  }

  /** The size computed from the counting pass, in 64 bits. */
  function Allocated(s: Octets, p: Octets, r: Octets): nat {
    var n := Count(s, p, 0, |s|);
    (|s| - n * |p| + n * |r|) % U64_LIMIT
  }

  /** What the function gives back: size of the result, and octets written from its start. An empty pattern, one
      that does not occur and one that starts at 0x80 or above give the text itself, which counts as written
      whole; otherwise the size is what the counting pass asks for and the octets are those of the copying pass. */
  function Outcome(s: Octets, p: Octets, r: Octets): (nat, Octets) {
    if p == [] || p[0] >= 0x80 || Count(s, p, 0, |s|) == 0 then (|s|, s) else (Allocated(s, p, r), Replaced(s, p, r))
  }

  /** The size of the result and the octets written from its start, as `Outcome` says for every input. */
  method ReplaceAll(str: Octets, replaceStr: Octets, replacement: Octets) returns (size: nat, written: Octets)
    requires |str| < U64_LIMIT && |replaceStr| < U64_LIMIT && |replacement| < U64_LIMIT
    ensures (size, written) == Outcome(str, replaceStr, replacement)
  {
    hide At, Count, First;
    if |replaceStr| == 0 {
      return |str|, str;
    }
    var found := ContainsSubStringCount(str, replaceStr);
    if found == 0 {
      return |str|, str;
    }
    size := (|str| - found * |replaceStr| + found * |replacement|) % U64_LIMIT;
    written := [];
    var i := 0;
    while i < |str|
      invariant i <= |str|
      invariant written + ReplaceFrom(str, replaceStr, replacement, i) == Replaced(str, replaceStr, replacement)
    {
      ghost var rest := ReplaceFrom(str, replaceStr, replacement, i);
      MatchCheck(str, replaceStr, i);
      if str[i] == replaceStr[0] && |str| - i >= |replaceStr| && str[i..i + |replaceStr|] == replaceStr {
        assert written + rest == (written + replacement) + ReplaceFrom(str, replaceStr, replacement, i + |replaceStr|);
        written := written + replacement;
        i := i + |replaceStr|;
      } else {
        assert written + rest == (written + [str[i]]) + ReplaceFrom(str, replaceStr, replacement, i + 1);
        written := written + [str[i]];
        i := i + 1;
      }
    }
    assert written == Replaced(str, replaceStr, replacement);
  }

  /** Testing the first octet before the slice changes nothing. */
  lemma MatchCheck(s: Octets, p: Octets, i: nat)
    requires p != [] && i < |s|
    ensures At(s, p, i) <==> (s[i] == p[0] && |s| - i >= |p| && s[i..i + |p|] == p)
  {
    if At(s, p, i) {
      assert s[i..i + |p|][0] == s[i];
    }
  }

  // ---------------------------------------------------------------- when the result is right

  lemma Spread(n: int, a: int, b: int)
    ensures n * (a - b) == n * a - n * b
  {
  }

  /** Occurrences the counting pass sees and the copying pass does not replace. */
  function Unused(s: Octets, p: Octets): int
    requires p != []
  {
    Count(s, p, 0, |s|) - ReplacedFrom(s, p, 0)
  }

  /** The size computed by counting is that of the octets copied exactly when those fit 64 bits and the difference
      in length, times the unused occurrences, is a multiple of 2^64. */
  lemma SizesAgreeExactly(s: Octets, p: Octets, r: Octets)
    requires p != []
    ensures Allocated(s, p, r) == |Replaced(s, p, r)| <==>
            |Replaced(s, p, r)| < U64_LIMIT && Unused(s, p) * (|r| - |p|) % U64_LIMIT == 0
  {
    hide Count, ReplaceFrom, ReplacedFrom;
    ReplacedLength(s, p, r, 0);
    var n, k := Count(s, p, 0, |s|), ReplacedFrom(s, p, 0);
    Spread(n, |r|, |p|);
    DistributeLeft(n, k, |r| - |p|);
    if |Replaced(s, p, r)| < U64_LIMIT {
      ExcessExactly(|Replaced(s, p, r)|, (n - k) * (|r| - |p|));
    }
  }

  /** The result is filled exactly by the octets written, unless the pattern is seen and the two passes disagree
      about its length. */
  lemma FillsExactly(s: Octets, p: Octets, r: Octets)
    requires p != []
    ensures var (size, written) := Outcome(s, p, r);
            size == |written| <==>
            p[0] >= 0x80 || Count(s, p, 0, |s|) == 0
            || (|Replaced(s, p, r)| < U64_LIMIT && Unused(s, p) * (|r| - |p|) % U64_LIMIT == 0)
  {
    hide Count, ReplaceFrom, ReplacedFrom, Allocated, Unused;
    SizesAgreeExactly(s, p, r);
  }

  lemma ExcessExactly(w: nat, e: int)
    requires w < U64_LIMIT
    ensures (w + e) % U64_LIMIT == w <==> e % U64_LIMIT == 0
  {
    var q, t := e / U64_LIMIT, e % U64_LIMIT;
    if t == 0 {
      UniqueInt(w + e, q, w);
    } else if w + t < U64_LIMIT {
      UniqueInt(w + e, q, w + t);
    } else {
      UniqueInt(w + e, q + 1, w + t - U64_LIMIT);
    }
  }

  lemma UniqueInt(n: int, q: int, r: nat)
    requires n == q * U64_LIMIT + r && r < U64_LIMIT
    ensures n % U64_LIMIT == r
  {
  }

  /** Below 2^31 octets the product is that small only where one factor is zero, and nothing outgrows 64 bits. */
  lemma SmallSizes(s: Octets, p: Octets, r: Octets)
    requires p != [] && |s| < 0x8000_0000 && |p| < 0x8000_0000 && |r| < 0x8000_0000
    ensures |Replaced(s, p, r)| < U64_LIMIT
    ensures Unused(s, p) * (|r| - |p|) % U64_LIMIT == 0 <==> Apart(s, p, 0) || |p| == |r|
  {
    hide Count, ReplaceFrom, ReplacedFrom, Apart;
    PassesAgreeExactly(s, p, 0);
    CountBound(s, p, 0, |s|);
    ReplacedLength(s, p, r, 0);
    ProductBound(ReplacedFrom(s, p, 0), |r| - |p|);
    SmallMultiple(Unused(s, p), |r| - |p|);
  }

  /** For texts, patterns and replacements below 2^31 octets: filled exactly unless the pattern starts below 0x80,
      some of its occurrences overlap and the replacement has another length. */
  lemma FillsExactlyBelowTwoGiB(s: Octets, p: Octets, r: Octets)
    requires p != [] && |s| < 0x8000_0000 && |p| < 0x8000_0000 && |r| < 0x8000_0000
    ensures var (size, written) := Outcome(s, p, r);
            size == |written| <==> p[0] >= 0x80 || Apart(s, p, 0) || |p| == |r|
  {
    hide Count, ReplaceFrom, ReplacedFrom, Apart, Outcome, Unused;
    FillsExactly(s, p, r);
    SmallSizes(s, p, r);
    AbsentIsApart(s, p);
  }

  lemma AbsentIsApart(s: Octets, p: Octets)
    requires p != []
    ensures Count(s, p, 0, |s|) == 0 ==> Apart(s, p, 0)
  {
    PassesAgreeExactly(s, p, 0);
  }

  lemma DistributeLeft(n: int, k: int, d: int)
    ensures (n - k) * d == n * d - k * d
  {
  }

  lemma {:induction false} CountBound(s: Octets, p: Octets, i: nat, j: nat)
    requires i <= j
    ensures Count(s, p, i, j) <= j - i
    decreases j - i
  {
    if i < j {
      CountBound(s, p, i + 1, j);
    }
  }

  lemma SmallMultiple(e: nat, d: int)
    requires e < 0x8000_0000 && -0x8000_0000 < d < 0x8000_0000
    ensures e * d % U64_LIMIT == 0 <==> e == 0 || d == 0
  {
    ProductBound(e, d);
    if e * d < 0 {
      UniqueInt(e * d, -1, e * d + U64_LIMIT);
    } else {
      UniqueInt(e * d, 0, e * d);
    }
  }

  lemma ProductBound(e: nat, d: int)
    requires e < 0x8000_0000 && -0x8000_0000 < d < 0x8000_0000
    ensures -0x4000_0000_0000_0000 <= e * d <= 0x4000_0000_0000_0000
    ensures e * d == 0 <==> e == 0 || d == 0
  {
    assert e * d <= e * 0x8000_0000;
    assert e * d >= e * -0x8000_0000;
    if e > 0 && d > 0 {
      assert e * d >= d;
    } else if e > 0 && d < 0 {
      assert e * d <= d;
    }
  }

  /** A replacement changes the text, unless there is nothing to replace or the pattern replaces itself. */
  lemma {:induction false} ChangesExactly(s: Octets, p: Octets, r: Octets, i: nat)
    requires p != [] && i <= |s|
    ensures ReplaceFrom(s, p, r, i) == s[i..] <==> r == p || Count(s, p, i, |s|) == 0
    decreases |s| - i
  {
    CountZeroExactly(s, p, i, |s|);
    if i < |s| {
      if At(s, p, i) {
        var m := i + |p|;
        ChangesExactly(s, p, r, m);
        assert s[i..] == p + s[m..];
        if ReplaceFrom(s, p, r, i) == s[i..] {
          SameLengthThenSame(s, p, r, i);
        }
      } else {
        ChangesExactly(s, p, r, i + 1);
        assert s[i..] == [s[i]] + s[i + 1..];
        assert ([s[i]] + ReplaceFrom(s, p, r, i + 1))[1..] == ReplaceFrom(s, p, r, i + 1);
      }
    }
  }

  lemma SameLengthThenSame(s: Octets, p: Octets, r: Octets, i: nat)
    requires p != [] && i < |s| && At(s, p, i)
    requires ReplaceFrom(s, p, r, i) == s[i..]
    ensures r == p
  {
    var m := i + |p|;
    ReplacedLength(s, p, r, i);
    var k := ReplacedFrom(s, p, i);
    ZeroProduct(k, |r| - |p|);
    assert (r + ReplaceFrom(s, p, r, m))[..|r|] == r;
    assert s[i..][..|p|] == s[i..m];
  }

  lemma ZeroProduct(k: nat, d: int)
    requires k >= 1 && k * d == 0
    ensures d == 0
  {
  }

  /** The function gives back the leftmost replacement, in size and octets, exactly when the pattern does not
      occur, replaces itself, or starts below 0x80 with sizes that agree. */
  lemma RightExactly(s: Octets, p: Octets, r: Octets)
    requires p != [] && |s| < U64_LIMIT
    ensures Outcome(s, p, r) == (|Replaced(s, p, r)|, Replaced(s, p, r)) <==>
            Count(s, p, 0, |s|) == 0 || r == p
            || (p[0] < 0x80 && |Replaced(s, p, r)| < U64_LIMIT && Unused(s, p) * (|r| - |p|) % U64_LIMIT == 0)
  {
    hide Count, ReplaceFrom, ReplacedFrom, Allocated, Unused;
    ChangesExactly(s, p, r, 0);
    assert s[0..] == s;
    SizesAgreeExactly(s, p, r);
    if r == p {
      assert Unused(s, p) * (|r| - |p|) == 0;
    }
  }

  /** Below 2^31 octets: exactly when the pattern does not occur, replaces itself, or starts below 0x80 and either
      no two of its occurrences overlap or the replacement is as long as the pattern. */
  lemma RightExactlyBelowTwoGiB(s: Octets, p: Octets, r: Octets)
    requires p != [] && |s| < 0x8000_0000 && |p| < 0x8000_0000 && |r| < 0x8000_0000
    ensures Outcome(s, p, r) == (|Replaced(s, p, r)|, Replaced(s, p, r)) <==>
            Count(s, p, 0, |s|) == 0 || r == p || (p[0] < 0x80 && (Apart(s, p, 0) || |p| == |r|))
  {
    hide Count, ReplaceFrom, ReplacedFrom, Apart, Outcome, Unused;
    RightExactly(s, p, r);
    SmallSizes(s, p, r);
  }

  /** What is promised, for a pattern whose occurrences do not overlap and whose first octet is below 0x80, at any
      size: the result consists of the text's leftmost pieces with the replacement between them. */
  lemma ReplacementIsExact(s: Octets, p: Octets, r: Octets)
    requires p != [] && |s| < U64_LIMIT && Apart(s, p, 0) && |Replaced(s, p, r)| < U64_LIMIT
    requires p[0] < 0x80 || Count(s, p, 0, |s|) == 0 || r == p
    ensures var result := Join(Pieces(s, p), r);
            Outcome(s, p, r) == (|result|, result) && Join(Pieces(s, p), p) == s
  {
    hide Count, ReplaceFrom, ReplacedFrom, Apart, Outcome, Join, Pieces;
    PassesAgreeExactly(s, p, 0);
    assert Unused(s, p) * (|r| - |p|) == 0;
    RightExactly(s, p, r);
    PiecesAreLeftmost(s, p);
    ReplacesBetweenPieces(Pieces(s, p), p, r);
  }

  /** What is given back on every input. An empty pattern, one that starts at 0x80 or above and one that does not
      occur give the text; otherwise the octets written are the leftmost pieces with the replacement between them,
      and the size is the text's, changed by the difference in length for every occurrence, overlapping ones too, in
      64 bits. */
  lemma OutcomeExact(s: Octets, p: Octets, r: Octets)
    requires |s| < U64_LIMIT
    ensures p == [] || p[0] >= 0x80 || Absent(s, p) ==> Outcome(s, p, r) == (|s|, s)
    ensures p != [] && p[0] < 0x80 && !Absent(s, p) ==>
              var (size, written) := Outcome(s, p, r);
              && written == Join(Pieces(s, p), r)
              && size < U64_LIMIT && (|s| + Count(s, p, 0, |s|) * (|r| - |p|) - size) % U64_LIMIT == 0
  {
    hide Count, ReplaceFrom, ReplacedFrom, Join, Pieces, At, Allocated;
    CountZeroExactly(s, p, 0, |s|);
    if p != [] && p[0] < 0x80 && !Absent(s, p) {
      PiecesAreLeftmost(s, p);
      ReplacesBetweenPieces(Pieces(s, p), p, r);
      AllocatedExact(s, p, r);
    }
  }

  lemma AllocatedExact(s: Octets, p: Octets, r: Octets)
    ensures Allocated(s, p, r) < U64_LIMIT
    ensures (|s| + Count(s, p, 0, |s|) * (|r| - |p|) - Allocated(s, p, r)) % U64_LIMIT == 0
  {
    hide Count;
    var n := Count(s, p, 0, |s|);
    Spread(n, |r|, |p|);
    WordDifference(|s| + n * (|r| - |p|));
  }

  lemma WordDifference(x: int)
    ensures (x - x % U64_LIMIT) % U64_LIMIT == 0
  {
    UniqueInt(x - x % U64_LIMIT, x / U64_LIMIT, 0);
  }

  /** A pattern no proper suffix of which begins it. */
  ghost predicate Borderless(p: Octets) {
    forall k :: 0 < k < |p| ==> p[k..] != p[..|p| - k]
  }

  lemma BorderlessIsApart(s: Octets, p: Octets)
    requires Borderless(p)
    ensures Apart(s, p, 0)
  {
    forall j: nat, k: nat | j < k && At(s, p, j) && At(s, p, k) ensures j + |p| <= k {
      if k < j + |p| {
        OverlapGivesBorder(s, p, j, k);
        assert false;
      }
    }
  }

  lemma OverlapGivesBorder(s: Octets, p: Octets, j: nat, k: nat)
    requires j < k < j + |p| && At(s, p, j) && At(s, p, k)
    ensures p[k - j..] == p[..|p| - (k - j)]
  {
    var d := k - j;
    SliceOfSlice(s, j, j + |p|, d, |p|);
    SliceOfSlice(s, k, k + |p|, 0, |p| - d);
    assert p[d..] == p[d..|p|];
    assert p[0..|p| - d] == p[..|p| - d];
  }

  /** Replacing "aa" by "b" in "aaa": two occurrences counted, one replaced, two octets written into one. */
  lemma OverlapOverflows()
    ensures var s, p, r := [0x61, 0x61, 0x61], [0x61, 0x61], [0x62];
            Outcome(s, p, r) == (1, [0x62, 0x61]) && Replaced(s, p, r) == [0x62, 0x61]
  {
    var s, p, r: Octets := [0x61, 0x61, 0x61], [0x61, 0x61], [0x62];
    assert s[0..2] == p && s[1..3] == p;
    assert At(s, p, 0) && At(s, p, 1) && !At(s, p, 2);
    assert ReplaceFrom(s, p, r, 2) == [s[2]] + ReplaceFrom(s, p, r, 3);
    assert Count(s, p, 2, 3) == 0;
    assert Count(s, p, 1, 3) == 1;
    assert Count(s, p, 0, 3) == 2;
    assert Replaced(s, p, r) == [0x62, 0x61];
  }

  /** A pattern of one octet from 0x80 up is never found: the text comes back as it was. */
  lemma HighOctetStays()
    ensures var s, p, r := [0xE9], [0xE9], [0x62];
            Outcome(s, p, r) == (1, [0xE9]) && Replaced(s, p, r) == [0x62] && Apart(s, p, 0)
  {
    var s, p, r: Octets := [0xE9], [0xE9], [0x62];
    assert s[0..1] == p;
    assert At(s, p, 0);
    assert ReplaceFrom(s, p, r, 1) == [];
  }
}
