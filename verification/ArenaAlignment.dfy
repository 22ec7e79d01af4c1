/** What the arena rounds to: granted sizes, positions outside recordings, the watermark, and where pops end. */
module ArenaAlignment {
  import opened Bytes
  import opened Modular
  import opened Bits
  import opened Arena

  // ---------------------------------------------------------------- what a push takes

  /** Outside recordings the size is rounded to the least multiple of the alignment, as long as that rounding fits 64
      bits; inside a recording, or without an alignment, a push takes what it asks for. */
  lemma GrantExact(c: Config, m: Memory, size: nat)
    requires size < U64_LIMIT
    ensures var n := Granted(c, m, size);
            && (m.recording > 0 || c.Alignment() == 1 ==> n == size)
            && (m.recording == 0 && size + c.Alignment() - 1 < U64_LIMIT ==>
                  n % c.Alignment() == 0 && size <= n < size + c.Alignment())
            && (m.recording == 0 && c.Alignment() > 1 && size + c.Alignment() - 1 >= U64_LIMIT ==> n == 0)
  {
    hide Pow2, AlignUp;
    AlignUpBounds(size, c.Alignment());
  }

  /** The end of the outermost recording moves the position to the next multiple; the end of an inner one does not
      move it. */
  lemma StopExact(c: Config, m: Memory)
    requires m.recording > 0
    ensures var t := Stopped(c, m);
            && t.recording == m.recording - 1 && t.blocks == m.blocks && t.commitPos == m.commitPos
            && (m.recording > 1 ==> t.pos == m.pos)
            && (m.recording == 1 ==> t.pos % c.Alignment() == 0 && m.pos <= t.pos < m.pos + c.Alignment())
  {
    hide Pow2, AlignUp;
    AlignUpBounds(m.pos, c.Alignment());
  }

  // ---------------------------------------------------------------- sums in 64 bits keep multiples

  lemma SumOfMultiples(a: nat, b: nat, n: nat)
    requires n > 0 && a % n == 0 && b % n == 0
    ensures (a + b) % n == 0
  {
    AddMultiple(a, b / n, n);
  }

  lemma DifferenceOfMultiples(a: nat, b: nat, n: nat)
    requires n > 0 && a % n == 0 && b % n == 0 && b <= a
    ensures (a - b) % n == 0
  {
    var k := b / n;
    assert b == k * n;
    AddMultiple(a - b, k, n);
  }

  lemma WordIsMultiple(k: nat)
    requires k <= 64
    ensures U64_LIMIT % Pow2(k) == 0
  {
    hide Pow2;
    WordSize();
    Unique(U64_LIMIT, U64_LIMIT, 1, 0);
    CoarserMultiple(U64_LIMIT, 64, k);
  }

  /** Reducing to 64 bits takes a multiple of a power of two to a multiple. */
  lemma WordOfMultiple(x: nat, k: nat)
    requires k <= 64 && x % Pow2(k) == 0
    ensures x % U64_LIMIT % Pow2(k) == 0
  {
    hide Pow2;
    var n, q := Pow2(k), x / U64_LIMIT;
    WordIsMultiple(k);
    assert U64_LIMIT == U64_LIMIT / n * n;
    assert q * U64_LIMIT == q * (U64_LIMIT / n) * n by { MulAssoc(q, U64_LIMIT / n, n); }
    Unique(q * U64_LIMIT, n, q * (U64_LIMIT / n), 0);
    DifferenceOfMultiples(x, q * U64_LIMIT, n);
  }

  // ---------------------------------------------------------------- positions outside recordings

  /** Pops outside recordings go to multiples of the alignment; inside a recording anything may happen. */
  predicate PopsToMultiples(c: Config, op: Op) {
    match op
    case Push(_) => true
    case PopTo(to) => to % c.Alignment() == 0
    case PopAmount(amount) => amount % c.Alignment() == 0
    case Record(_) => true
    case Scratch(body) => forall o :: o in body ==> PopsToMultiples(c, o)
  }

  ghost predicate Aligned(c: Config, m: Memory) {
    m.recording == 0 && c.header % c.Alignment() == 0 && m.pos % c.Alignment() == 0
  }

  lemma GrantAligns(c: Config, m: Memory, size: nat)
    requires m.recording == 0
    ensures Granted(c, m, size) % c.Alignment() == 0
  {
    hide Pow2, AlignUp;
    var a := c.Alignment();
    AlignUpBounds(size, a);
    Unique(0, a, 0, 0);
    if a == 1 {
      Unique(size, 1, size, 0);
    }
  }

  lemma PushAligns(c: Config, m: Memory, size: nat)
    requires c.alignBits <= 64 && Aligned(c, m)
    ensures Aligned(c, Pushed(c, m, size))
  {
    hide Pow2, Watermark, Granted;
    var n := Granted(c, m, size);
    GrantAligns(c, m, size);
    SumOfMultiples(m.pos, n, c.Alignment());
    WordOfMultiple(m.pos + n, c.alignBits);
  }

  lemma PopAligns(c: Config, m: Memory, to: nat)
    requires Aligned(c, m) && to % c.Alignment() == 0
    ensures Aligned(c, PoppedTo(c, m, to))
  {
    hide Pow2, Watermark, Below;
  }

  lemma PopByAligns(c: Config, m: Memory, amount: nat)
    requires c.alignBits <= 64 && Aligned(c, m) && amount % c.Alignment() == 0
    ensures Aligned(c, PoppedBy(c, m, amount))
  {
    hide Pow2, PoppedTo;
    WordIsMultiple(c.alignBits);
    WordOfMultiple(amount, c.alignBits);
    DifferenceOfMultiples(U64_LIMIT, amount % U64_LIMIT, c.Alignment());
    SumOfMultiples(m.pos, U64_LIMIT - amount % U64_LIMIT, c.Alignment());
    WordOfMultiple(m.pos + (U64_LIMIT - amount % U64_LIMIT), c.alignBits);
    PopAligns(c, m, (m.pos + (U64_LIMIT - amount % U64_LIMIT)) % U64_LIMIT);
  }

  lemma {:induction false} OpAligns(c: Config, m: Memory, op: Op)
    requires c.alignBits <= 64 && Aligned(c, m) && PopsToMultiples(c, op)
    ensures Aligned(c, Apply(c, m, op))
    decreases op, 0
  {
    hide Pow2, AlignUp, Pushed, PoppedTo, PoppedBy, ApplyAll;
    match op
    case Push(size) => PushAligns(c, m, size);
    case PopTo(to) => PopAligns(c, m, to);
    case PopAmount(amount) => PopByAligns(c, m, amount);
    case Record(body) => AlignUpBounds(ApplyAll(c, Started(m), body).pos, c.Alignment());
    case Scratch(body) =>
      SequenceAligns(c, m, body);
      PopAligns(c, ApplyAll(c, m, body), m.pos);
  }

  lemma {:induction false} SequenceAligns(c: Config, m: Memory, ops: seq<Op>)
    requires c.alignBits <= 64 && Aligned(c, m) && forall o :: o in ops ==> PopsToMultiples(c, o)
    ensures Aligned(c, ApplyAll(c, m, ops))
    decreases ops, 1
  {
    hide Pow2, Apply, Aligned, PopsToMultiples;
    if ops != [] {
      SequenceAligns(c, m, ops[..|ops| - 1]);
      OpAligns(c, ApplyAll(c, m, ops[..|ops| - 1]), ops[|ops| - 1]);
    }
  }

  /** After any sequence of pushes, pops to multiples, recordings and scratch scopes, even one that wraps, the next
      block outside recordings begins at a multiple of the alignment, and its length is one. */
  lemma BlocksStartAligned(c: Config, m: Memory, ops: seq<Op>, size: nat)
    requires c.alignBits <= 64 && Aligned(c, m) && forall o :: o in ops ==> PopsToMultiples(c, o)
    ensures var t := ApplyAll(c, m, ops);
            var u := Pushed(c, t, size);
            && t.recording == 0
            && (u.blocks == t.blocks
                || exists b :: u.blocks == t.blocks + [b] && b.start % c.Alignment() == 0 && b.len % c.Alignment() == 0)
  {
    hide Pow2, ApplyAll, Watermark, Granted;
    SequenceAligns(c, m, ops);
    var t := ApplyAll(c, m, ops);
    GrantAligns(c, t, size);
    var b := Block(t.pos, Granted(c, t, size));
    assert b.start % c.Alignment() == 0 && b.len % c.Alignment() == 0;
    assert t.blocks + [] == t.blocks;
  }

  // ---------------------------------------------------------------- the watermark and pops

  /** The watermark is the least number not below the position that is whole pages or the reserve. */
  lemma WatermarkExact(c: Config, pos: nat, w: nat)
    requires pos <= c.cap
    ensures w == Watermark(c, pos) <==>
            && pos <= w <= c.cap && (w % c.Page() == 0 || w == c.cap)
            && forall v: nat :: pos <= v && v % c.Page() == 0 ==> w <= v
  {
    hide Pow2, AlignUp;
    AlignUpBounds(pos, c.Page());
    forall v: nat | pos <= v && v % c.Page() == 0 ensures AlignUp(pos, c.Page()) <= v {
      AlignUpLeast(pos, c.Page(), v);
    }
  }

  /** A pop ends where it is told to, but not below the header, and never moves up. */
  lemma PopToExact(c: Config, m: Memory, to: nat)
    requires c.header <= m.pos
    ensures PoppedTo(c, m, to).pos == if to < c.header then c.header else if to < m.pos then to else m.pos
    ensures to >= m.pos ==> PoppedTo(c, m, to) == m
  {
  }

  /** Popping an amount is popping to that much below the position; more than there is pops nothing. */
  lemma PopByExact(c: Config, m: Memory, amount: nat)
    requires c.header <= m.pos < U64_LIMIT && amount < U64_LIMIT
    ensures PoppedBy(c, m, amount) == if amount <= m.pos then PoppedTo(c, m, m.pos - amount) else m
  {
    hide PoppedTo;
    Unique(amount, U64_LIMIT, 0, amount);
    var sum := m.pos + (U64_LIMIT - amount);
    PopToExact(c, m, sum % U64_LIMIT);
    if amount <= m.pos {
      Unique(sum, U64_LIMIT, 1, m.pos - amount);
    } else {
      Unique(sum, U64_LIMIT, 0, sum);
    }
  }
}
