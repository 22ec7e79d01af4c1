/** The arena allocator of base.c: push, pop, the commit watermark, nested recording and scratch scopes. */
module Arena {
  import opened Bytes
  import opened Modular
  import opened Bits

  /** What stays fixed: size of the header in front of the memory, page size and alignment as powers of two,
      and the reserved size. */
  datatype Config = Config(header: nat, pageBits: nat, alignBits: nat, cap: nat) {
    function Page(): nat {
      Pow2(pageBits)
    }

    function Alignment(): nat {
      Pow2(alignBits)
    }
  }

  /** Page size an `i32`, alignment dividing page size and reserve, everything inside 64 bits. */
  predicate Sound(c: Config) {
    && c.alignBits <= c.pageBits <= 30
    && 0 < c.header <= c.cap
    && c.cap % c.Alignment() == 0
    && c.cap + c.Page() < U64_LIMIT
  }

  /** A block handed out: octets `start` to `start + len` of the arena. */
  datatype Block = Block(start: nat, len: nat) {
    function End(): nat {
      start + len
    }
  }

  /** The mutable fields, and the live non-empty blocks oldest first. */
  datatype Memory = Memory(pos: nat, commitPos: nat, recording: nat, blocks: seq<Block>)

  /** The watermark for a position: whole pages, capped by the reserve. */
  function Watermark(c: Config, pos: nat): nat {
    var aligned := AlignUp(pos, c.Page());
    if aligned > c.cap then c.cap else aligned
  }

  // ---------------------------------------------------------------- the invariant

  ghost predicate Stacked(c: Config, m: Memory) {
    && (forall i :: 0 <= i < |m.blocks| ==> c.header <= m.blocks[i].start && m.blocks[i].End() <= m.pos)
    && (forall i, j :: 0 <= i < j < |m.blocks| ==> m.blocks[i].End() <= m.blocks[j].start)
  }

  ghost predicate Ok(c: Config, m: Memory) {
    && c.header <= m.pos <= c.cap
    && m.commitPos == Watermark(c, m.pos)
    && Stacked(c, m)
  }

  /** The default page size of 4 MiB and alignment of 16, with any reserve of whole alignment units below 2^63. */
  lemma DefaultsAreSound(header: nat, cap: nat)
    requires 0 < header <= cap < 0x8000_0000_0000_0000 && cap % 16 == 0
    ensures Sound(Config(header, 22, 4, cap))
  {
    DefaultPowers();
  }

  lemma DefaultPowers()
    ensures Pow2(4) == 16 && Pow2(22) == 0x40_0000
  {
    Pow2Four();
    Pow2Add(4, 4);
    Pow2Add(8, 8);
    Pow2Add(16, 4);
    Pow2Add(20, 2);
    assert Pow2(2) == 4;
  }

  // ---------------------------------------------------------------- operations on values

  /** The size really taken: rounded up outside recordings, zero when the rounding leaves 64 bits. */
  function Granted(c: Config, m: Memory, size: nat): nat {
    if m.recording > 0 || c.Alignment() <= 1 then size
    else if size + c.Alignment() - 1 < U64_LIMIT then AlignUp(size, c.Alignment())
    else 0
  }

  /** The position a push tries, in 64 bits. */
  function Target(c: Config, m: Memory, size: nat): nat {
    (m.pos + Granted(c, m, size)) % U64_LIMIT
  }

  function Pushed(c: Config, m: Memory, size: nat): Memory {
    var p := Target(c, m, size);
    if p > c.cap then m
    else
      m.(pos := p,
         commitPos := if p > m.commitPos then Watermark(c, p) else m.commitPos,
         blocks := m.blocks + if Granted(c, m, size) > 0 then [Block(m.pos, Granted(c, m, size))] else [])
  }

  /** Blocks that end at or below a position. */
  function Below(blocks: seq<Block>, pos: nat): seq<Block> {
    if blocks == [] then []
    else if blocks[|blocks| - 1].End() <= pos then blocks
    else Below(blocks[..|blocks| - 1], pos)
  }

  function PoppedTo(c: Config, m: Memory, to: nat): Memory {
    var p := if c.header > to then c.header else to;
    if p >= m.pos then m
    else
      m.(pos := p,
         commitPos := if Watermark(c, p) < m.commitPos then Watermark(c, p) else m.commitPos,
         blocks := Below(m.blocks, p))
  }

  /** Subtraction in 64 bits: popping more than there is wraps to a huge position, which pops nothing. */
  function PoppedBy(c: Config, m: Memory, amount: nat): Memory {
    PoppedTo(c, m, (m.pos + (U64_LIMIT - amount % U64_LIMIT)) % U64_LIMIT)
  }

  function Started(m: Memory): Memory {
    m.(recording := m.recording + 1)
  }

  function Stopped(c: Config, m: Memory): Memory
    requires m.recording > 0
  {
    if m.recording == 1 then m.(recording := 0, pos := AlignUp(m.pos, c.Alignment()))
    else m.(recording := m.recording - 1)
  }

  // ---------------------------------------------------------------- each operation keeps the invariant

  /** Below the watermark of a position nothing new has to be committed. */
  lemma WatermarkFlat(c: Config, p: nat, q: nat)
    requires Sound(c) && p <= q <= Watermark(c, p)
    ensures Watermark(c, q) == Watermark(c, p)
  {
    AlignUpMonotone(p, q, c.Page());
    AlignUpBounds(p, c.Page());
    AlignUpBounds(q, c.Page());
    AlignUpLeast(q, c.Page(), AlignUp(p, c.Page()));
  }

  lemma WatermarkCovers(c: Config, p: nat)
    requires Sound(c) && p <= c.cap
    ensures p <= Watermark(c, p) <= c.cap
  {
    AlignUpBounds(p, c.Page());
  }

  /** A pop lowers the watermark, never raises it. */
  lemma WatermarkMonotone(c: Config, p: nat, q: nat)
    requires Sound(c) && p <= q
    ensures Watermark(c, p) <= Watermark(c, q)
  {
    AlignUpMonotone(p, q, c.Page());
  }

  /** A pop keeps exactly the blocks of a stack that end at or below its position. */
  lemma {:induction false} BelowKeepsExactly(c: Config, m: Memory, pos: nat)
    requires Stacked(c, m)
    ensures Below(m.blocks, pos) <= m.blocks
    ensures forall i :: 0 <= i < |m.blocks| ==> (i < |Below(m.blocks, pos)| <==> m.blocks[i].End() <= pos)
    decreases |m.blocks|
  {
    if m.blocks != [] {
      var k := |m.blocks| - 1;
      if m.blocks[k].End() > pos {
        BelowKeepsExactly(c, m.(blocks := m.blocks[..k]), pos);
      }
    }
  }

  lemma TargetWraps(c: Config, m: Memory, size: nat)
    requires m.pos < U64_LIMIT && size < U64_LIMIT
    ensures var sum := m.pos + Granted(c, m, size);
            Target(c, m, size) == if sum < U64_LIMIT then sum else sum - U64_LIMIT
  {
    if m.recording == 0 && c.Alignment() > 1 {
      AlignUpBounds(size, c.Alignment());
    }
    var sum := m.pos + Granted(c, m, size);
    Unique(sum, U64_LIMIT, if sum < U64_LIMIT then 0 else 1, if sum < U64_LIMIT then sum else sum - U64_LIMIT);
  }

  /** The sum of position and granted size stays inside 64 bits. */
  predicate Fits(c: Config, m: Memory, size: nat) {
    m.pos + Granted(c, m, size) < U64_LIMIT
  }

  /** A push keeps the invariant exactly when that sum does not wrap: after a wrap the position has moved down
      below the block just handed out. */
  lemma PushKeepsOkExactly(c: Config, m: Memory, size: nat)
    requires Sound(c) && Ok(c, m) && size < U64_LIMIT
    ensures Ok(c, Pushed(c, m, size)) <==> Fits(c, m, size)
  {
    hide Granted, Target, Watermark;
    var n, p, t := Granted(c, m, size), Target(c, m, size), Pushed(c, m, size);
    TargetWraps(c, m, size);
    if Fits(c, m, size) {
      assert forall i :: 0 <= i < |m.blocks| ==> t.blocks[i] == m.blocks[i];
      if m.pos <= p <= m.commitPos {
        WatermarkFlat(c, m.pos, p);
      }
      WatermarkCovers(c, m.pos);
    } else {
      GrantedInWord(c, m, size);
      assert t.blocks[|m.blocks|].End() > t.pos;
    }
  }

  lemma GrantedInWord(c: Config, m: Memory, size: nat)
    requires size < U64_LIMIT
    ensures Granted(c, m, size) < U64_LIMIT
  {
    if m.recording == 0 && c.Alignment() > 1 {
      AlignUpBounds(size, c.Alignment());
    }
  }

  /** What is granted covers what was asked for, except when rounding leaves 64 bits: then an empty block is
      handed out for a huge request. */
  lemma GrantCoversExactly(c: Config, m: Memory, size: nat)
    requires Sound(c) && size < U64_LIMIT
    ensures Granted(c, m, size) >= size <==>
            m.recording > 0 || c.Alignment() <= 1 || size + c.Alignment() - 1 < U64_LIMIT
  {
    hide Pow2, AlignUp;
    AlignUpBounds(size, c.Alignment());
    Pow2Monotone(c.alignBits, c.pageBits);
  }

  lemma PopKeepsOk(c: Config, m: Memory, to: nat)
    requires Sound(c) && Ok(c, m)
    ensures Ok(c, PoppedTo(c, m, to))
  {
    hide Below, Watermark;
    var p := if c.header > to then c.header else to;
    if p < m.pos {
      WatermarkMonotone(c, p, m.pos);
      BelowKeepsExactly(c, m, p);
    }
  }

  /** The alignment at the end of the outermost recording stays within the committed page and the reserve. */
  lemma StopKeepsOk(c: Config, m: Memory)
    requires Sound(c) && Ok(c, m) && m.recording > 0
    ensures Ok(c, Stopped(c, m))
  {
    hide Pow2;
    AlignUpTwice(m.pos, c.pageBits, c.alignBits);
    AlignUpBounds(m.pos, c.Alignment());
    AlignUpLeast(m.pos, c.Alignment(), c.cap);
  }

  lemma StartKeepsOk(c: Config, m: Memory)
    requires Ok(c, m)
    ensures Ok(c, Started(m))
  {
  }

  // ---------------------------------------------------------------- sequences of operations

  /** Operations with recording and scratch scopes nested inside them. */
  datatype Op =
    | Push(size: nat)
    | PopTo(to: nat)
    | PopAmount(amount: nat)
    | Record(body: seq<Op>)
    | Scratch(scope: seq<Op>)

  function Apply(c: Config, m: Memory, op: Op): (r: Memory)
    ensures r.recording == m.recording
    decreases op, 0
  {
    match op
    case Push(size) => Pushed(c, m, size)
    case PopTo(to) => PoppedTo(c, m, to)
    case PopAmount(amount) => PoppedBy(c, m, amount)
    case Record(body) => Stopped(c, ApplyAll(c, Started(m), body))
    case Scratch(body) => PoppedTo(c, ApplyAll(c, m, body), m.pos)
  }

  function ApplyAll(c: Config, m: Memory, ops: seq<Op>): (r: Memory)
    ensures r.recording == m.recording
    decreases ops, 1
  {
    if ops == [] then m else Apply(c, ApplyAll(c, m, ops[..|ops| - 1]), ops[|ops| - 1])
  }

  /** Sizes are 64-bit words, and no push met on the way wraps. */
  predicate FitsThroughout(c: Config, m: Memory, op: Op)
    decreases op, 0
  {
    match op
    case Push(size) => size < U64_LIMIT && Fits(c, m, size)
    case Record(body) => AllFit(c, Started(m), body)
    case Scratch(body) => AllFit(c, m, body)
    case _ => true
  }

  predicate AllFit(c: Config, m: Memory, ops: seq<Op>)
    decreases ops, 1
  {
    ops == []
    || (var front := ops[..|ops| - 1];
        AllFit(c, m, front) && FitsThroughout(c, ApplyAll(c, m, front), ops[|ops| - 1]))
  }

  /** Sizes that fit whatever the state: reserve, size and alignment together stay within 64 bits. */
  predicate Modest(c: Config, op: Op) {
    match op
    case Push(size) => c.cap + size + c.Alignment() <= U64_LIMIT
    case Record(body) => forall o :: o in body ==> Modest(c, o)
    case Scratch(body) => forall o :: o in body ==> Modest(c, o)
    case _ => true
  }

  /** Every sequence of pushes, pops, properly nested recordings and scratch scopes: the position stays between
      header and reserve, the watermark is the position's, live blocks are inside and pairwise disjoint. */
  lemma {:induction false} AnySequenceKeepsOk(c: Config, m: Memory, ops: seq<Op>)
    requires Sound(c) && Ok(c, m) && AllFit(c, m, ops)
    ensures Ok(c, ApplyAll(c, m, ops))
    decreases ops, 1
  {
    hide Ok, Sound, Apply, FitsThroughout;
    if ops != [] {
      AnySequenceKeepsOk(c, m, ops[..|ops| - 1]);
      AnyOpKeepsOk(c, ApplyAll(c, m, ops[..|ops| - 1]), ops[|ops| - 1]);
    }
  }

  lemma {:induction false} AnyOpKeepsOk(c: Config, m: Memory, op: Op)
    requires Sound(c) && Ok(c, m) && FitsThroughout(c, m, op)
    ensures Ok(c, Apply(c, m, op))
    decreases op, 0
  {
    hide Ok, Sound, Pushed, PoppedTo, Stopped, ApplyAll, AllFit;
    match op
    case Push(size) => PushKeepsOkExactly(c, m, size);
    case PopTo(to) => PopKeepsOk(c, m, to);
    case PopAmount(amount) =>
      PopKeepsOk(c, m, (m.pos + (U64_LIMIT - amount % U64_LIMIT)) % U64_LIMIT);
    case Record(body) =>
      StartKeepsOk(c, m);
      AnySequenceKeepsOk(c, Started(m), body);
      StopKeepsOk(c, ApplyAll(c, Started(m), body));
    case Scratch(body) =>
      AnySequenceKeepsOk(c, m, body);
      PopKeepsOk(c, ApplyAll(c, m, body), m.pos);
  }

  /** Sequences of modest requests need no look at the states in between. */
  lemma {:induction false} ModestSequenceKeepsOk(c: Config, m: Memory, ops: seq<Op>)
    requires Sound(c) && Ok(c, m) && forall o :: o in ops ==> Modest(c, o)
    ensures AllFit(c, m, ops) && Ok(c, ApplyAll(c, m, ops))
    decreases ops, 1
  {
    hide Ok, Sound, Apply, FitsThroughout;
    if ops != [] {
      ModestSequenceKeepsOk(c, m, ops[..|ops| - 1]);
      ModestOpFits(c, ApplyAll(c, m, ops[..|ops| - 1]), ops[|ops| - 1]);
    }
    AnySequenceKeepsOk(c, m, ops);
  }

  lemma {:induction false} ModestOpFits(c: Config, m: Memory, op: Op)
    requires Sound(c) && Ok(c, m) && Modest(c, op)
    ensures FitsThroughout(c, m, op) && Ok(c, Apply(c, m, op))
    decreases op, 0
  {
    hide Pushed, PoppedTo, Stopped, ApplyAll, AllFit, Watermark, Stacked;
    match op {
      case Push(size) => AlignUpBounds(size, c.Alignment());
      case Record(body) =>
        StartKeepsOk(c, m);
        ModestSequenceKeepsOk(c, Started(m), body);
      case Scratch(body) => ModestSequenceKeepsOk(c, m, body);
      case _ =>
    }
    AnyOpKeepsOk(c, m, op);
  }

  lemma LiveBlocksAreDisjoint(c: Config, m: Memory, i: nat, j: nat, octet: nat)
    requires Ok(c, m) && i < j < |m.blocks|
    requires m.blocks[i].start <= octet < m.blocks[i].End()
    ensures !(m.blocks[j].start <= octet < m.blocks[j].End()) && c.header <= octet < m.pos
  {
    assert m.blocks[i].End() <= m.blocks[j].start;
  }

  // ---------------------------------------------------------------- scratch scopes

  /** A scratch scope gives back position and watermark exactly when the position at the end of its body is not
      below its start. */
  lemma ScratchRestoresExactly(c: Config, m: Memory, body: seq<Op>)
    requires Sound(c) && Ok(c, m) && AllFit(c, m, body)
    ensures var r := Apply(c, m, Scratch(body));
            (r.pos == m.pos && r.commitPos == m.commitPos) <==> ApplyAll(c, m, body).pos >= m.pos
  {
    hide AllFit, ApplyAll, Below;
    AnySequenceKeepsOk(c, m, body);
    AnyOpKeepsOk(c, m, Scratch(body));
  }

  /** Nothing below the old position is touched: old blocks stay, new ones lie above it and are not empty. */
  ghost predicate Extends(m: Memory, t: Memory) {
    && m.pos <= t.pos
    && m.blocks <= t.blocks
    && forall i :: |m.blocks| <= i < |t.blocks| ==> m.pos <= t.blocks[i].start < t.blocks[i].End()
  }

  lemma ExtendsTransitive(m: Memory, t: Memory, u: Memory)
    requires Extends(m, t) && Extends(t, u)
    ensures Extends(m, u)
  {
    assert forall i :: 0 <= i < |t.blocks| ==> u.blocks[i] == t.blocks[i];
  }

  /** Popping back to where an extension started gives back position, watermark and blocks. */
  lemma PopUndoesExtension(c: Config, m: Memory, t: Memory)
    requires Sound(c) && Ok(c, m) && Ok(c, t) && Extends(m, t) && t.recording == m.recording
    ensures PoppedTo(c, t, m.pos) == m
  {
    hide Below, Watermark;
    PopKeepsOk(c, t, m.pos);
    BelowKeepsExactly(c, t, m.pos);
    var kept := Below(t.blocks, m.pos);
    assert forall i :: 0 <= i < |m.blocks| ==> t.blocks[i] == m.blocks[i] && t.blocks[i].End() <= m.pos;
    assert forall i :: |m.blocks| <= i < |t.blocks| ==> t.blocks[i].End() > m.pos;
    assert |kept| < |t.blocks| ==> t.blocks[|kept|].End() > m.pos;
    assert |m.blocks| < |t.blocks| ==> (|m.blocks| < |kept| <==> t.blocks[|m.blocks|].End() <= m.pos);
    assert t.pos == m.pos ==> |t.blocks| == |m.blocks|;
  }

  lemma PushExtends(c: Config, m: Memory, size: nat)
    requires Sound(c) && Ok(c, m) && size < U64_LIMIT && Fits(c, m, size)
    ensures Extends(m, Pushed(c, m, size))
  {
    hide Granted, Target;
    TargetWraps(c, m, size);
  }

  /** No pop met on the way goes below a floor. */
  predicate Stays(c: Config, m: Memory, floor: nat, op: Op)
    decreases op, 0
  {
    match op
    case Push(_) => true
    case PopTo(to) => PoppedTo(c, m, to).pos >= floor
    case PopAmount(amount) => PoppedBy(c, m, amount).pos >= floor
    case Record(body) => AllStay(c, Started(m), floor, body)
    case Scratch(body) => AllStay(c, m, floor, body)
  }

  predicate AllStay(c: Config, m: Memory, floor: nat, ops: seq<Op>)
    decreases ops, 1
  {
    ops == []
    || (var front := ops[..|ops| - 1];
        AllStay(c, m, floor, front) && Stays(c, ApplyAll(c, m, front), floor, ops[|ops| - 1]))
  }

  /** A pop that does not go below where an extension started leaves an extension. */
  lemma PopExtends(c: Config, m: Memory, t: Memory, to: nat)
    requires Sound(c) && Ok(c, m) && Ok(c, t) && Extends(m, t) && PoppedTo(c, t, to).pos >= m.pos
    ensures Extends(m, PoppedTo(c, t, to))
  {
    hide Below, Watermark;
    var u := PoppedTo(c, t, to);
    BelowKeepsExactly(c, t, u.pos);
    assert forall i :: 0 <= i < |m.blocks| ==> t.blocks[i] == m.blocks[i] && t.blocks[i].End() <= u.pos;
    if u.pos < t.pos {
      assert |u.blocks| < |t.blocks| ==> t.blocks[|u.blocks|].End() > u.pos;
      assert |m.blocks| <= |u.blocks|;
    }
  }

  lemma {:induction false} StayingExtends(c: Config, m: Memory, t: Memory, op: Op)
    requires Sound(c) && Ok(c, m) && Ok(c, t) && Extends(m, t)
    requires FitsThroughout(c, t, op) && Stays(c, t, m.pos, op)
    ensures Extends(m, Apply(c, t, op))
    decreases op, 0
  {
    hide Ok, Sound, PoppedTo, ApplyAll, AllFit, AllStay, Watermark, Extends;
    match op
    case Push(size) =>
      PushExtends(c, t, size);
      ExtendsTransitive(m, t, Pushed(c, t, size));
    case PopTo(to) => PopExtends(c, m, t, to);
    case PopAmount(amount) => PopExtends(c, m, t, (t.pos + (U64_LIMIT - amount % U64_LIMIT)) % U64_LIMIT);
    case Record(body) =>
      StartKeepsOk(c, t);
      ScopeExtends(m, t, Started(t));
      AllStayingExtend(c, m, Started(t), body);
      var u := ApplyAll(c, Started(t), body);
      AlignUpBounds(u.pos, c.Alignment());
      ScopeExtends(m, u, Stopped(c, u));
    case Scratch(body) =>
      AllStayingExtend(c, m, t, body);
      AnySequenceKeepsOk(c, t, body);
      ScratchFloor(c, m, t, ApplyAll(c, t, body));
      PopExtends(c, m, ApplyAll(c, t, body), t.pos);
  }

  /** Opening and closing a recording touch no block and do not move the position down. */
  lemma ScopeExtends(m: Memory, t: Memory, u: Memory)
    requires Extends(m, t) && u.blocks == t.blocks && u.pos >= t.pos
    ensures Extends(m, u)
  {
  }

  lemma ScratchFloor(c: Config, m: Memory, t: Memory, u: Memory)
    requires Extends(m, t) && Extends(m, u)
    ensures PoppedTo(c, u, t.pos).pos >= m.pos
  {
  }

  lemma {:induction false} AllStayingExtend(c: Config, m: Memory, t: Memory, ops: seq<Op>)
    requires Sound(c) && Ok(c, m) && Ok(c, t) && Extends(m, t)
    requires AllFit(c, t, ops) && AllStay(c, t, m.pos, ops)
    ensures Extends(m, ApplyAll(c, t, ops))
    decreases ops, 1
  {
    hide Ok, Sound, Apply, FitsThroughout, Stays, Extends;
    if ops != [] {
      var front := ops[..|ops| - 1];
      AllStayingExtend(c, m, t, front);
      AnySequenceKeepsOk(c, t, front);
      StayingExtends(c, m, ApplyAll(c, t, front), ops[|ops| - 1]);
    }
  }

  /** So a scratch scope around any body that does not pop below its start is undone completely, whatever the body
      pushes, pops, records and scopes above it: the arena is as it was. */
  lemma ScratchUndoes(c: Config, m: Memory, body: seq<Op>)
    requires Sound(c) && Ok(c, m) && AllFit(c, m, body) && AllStay(c, m, m.pos, body)
    ensures Apply(c, m, Scratch(body)) == m
  {
    hide Ok, Sound, ApplyAll, AllFit, AllStay, PoppedTo;
    AllStayingExtend(c, m, m, body);
    AnySequenceKeepsOk(c, m, body);
    PopUndoesExtension(c, m, ApplyAll(c, m, body));
  }

  /** No pop of its own at any depth. */
  predicate PopFree(op: Op) {
    match op
    case Push(_) => true
    case Record(body) => forall o :: o in body ==> PopFree(o)
    case Scratch(body) => forall o :: o in body ==> PopFree(o)
    case _ => false
  }

  lemma {:induction false} PopFreeStays(c: Config, m: Memory, floor: nat, op: Op)
    requires Sound(c) && Ok(c, m) && FitsThroughout(c, m, op) && PopFree(op) && floor <= m.pos
    ensures Stays(c, m, floor, op)
    decreases op, 0
  {
    hide Ok, Sound, AllFit, AllStay;
    match op
    case Push(_) =>
    case Record(body) =>
      StartKeepsOk(c, m);
      AllPopFreeStay(c, Started(m), floor, body);
    case Scratch(body) => AllPopFreeStay(c, m, floor, body);
  }

  /** Bodies without pops need no look at the states in between. */
  lemma {:induction false} AllPopFreeStay(c: Config, m: Memory, floor: nat, ops: seq<Op>)
    requires Sound(c) && Ok(c, m) && AllFit(c, m, ops) && floor <= m.pos
    requires forall o :: o in ops ==> PopFree(o)
    ensures AllStay(c, m, floor, ops)
    decreases ops, 1
  {
    hide Ok, Sound, Apply, FitsThroughout, Stays;
    if ops != [] {
      var front := ops[..|ops| - 1];
      AllPopFreeStay(c, m, floor, front);
      AllPopFreeStay(c, m, m.pos, front);
      AllStayingExtend(c, m, m, front);
      AnySequenceKeepsOk(c, m, front);
      PopFreeStays(c, ApplyAll(c, m, front), floor, ops[|ops| - 1]);
    }
  }

  // ---------------------------------------------------------------- recordings

  function Sum(sizes: seq<nat>): nat {
    if sizes == [] then 0 else Sum(sizes[..|sizes| - 1]) + sizes[|sizes| - 1]
  }

  /** Blocks of given sizes, each beginning where the one before ended. */
  function EndToEnd(from: nat, sizes: seq<nat>): (r: seq<Block>)
    ensures |r| == |sizes|
  {
    if sizes == [] then []
    else EndToEnd(from, sizes[..|sizes| - 1]) + [Block(from + Sum(sizes[..|sizes| - 1]), sizes[|sizes| - 1])]
  }

  /** Bodies of `str_record`: pushes and recordings inside the recording. */
  predicate Writes(op: Op) {
    match op
    case Push(_) => true
    case Record(body) => forall o :: o in body ==> Writes(o)
    case _ => false
  }

  /** Sizes of the pushes that find room, in order; the others and empty ones leave nothing. */
  function Taken(c: Config, m: Memory, op: Op): seq<nat>
    decreases op, 0
  {
    match op
    case Push(size) => if size > 0 && m.pos + size <= c.cap then [size] else []
    case Record(body) => AllTaken(c, Started(m), body)
    case _ => []
  }

  function AllTaken(c: Config, m: Memory, ops: seq<Op>): seq<nat>
    decreases ops, 1
  {
    if ops == [] then []
    else
      var front := ops[..|ops| - 1];
      AllTaken(c, m, front) + Taken(c, ApplyAll(c, m, front), ops[|ops| - 1])
  }

  /** Exactly these sizes were laid end to end behind the old position, and nothing else moved. */
  ghost predicate Laid(m: Memory, t: Memory, sizes: seq<nat>) {
    t.pos == m.pos + Sum(sizes) && t.blocks == m.blocks + EndToEnd(m.pos, sizes)
  }

  lemma {:induction false} EndToEndAppend(from: nat, a: seq<nat>, b: seq<nat>)
    ensures Sum(a + b) == Sum(a) + Sum(b)
    ensures EndToEnd(from, a + b) == EndToEnd(from, a) + EndToEnd(from + Sum(a), b)
    decreases |b|
  {
    if b == [] {
      assert a + b == a;
    } else {
      var k := |b| - 1;
      assert (a + b)[..|a + b| - 1] == a + b[..k];
      EndToEndAppend(from, a, b[..k]);
    }
  }

  lemma LaidTransitive(m: Memory, t: Memory, u: Memory, a: seq<nat>, b: seq<nat>)
    requires Laid(m, t, a) && Laid(t, u, b)
    ensures Laid(m, u, a + b)
  {
    hide Sum, EndToEnd;
    EndToEndAppend(m.pos, a, b);
  }

  lemma LaidNothing(m: Memory, t: Memory)
    requires t.pos == m.pos && t.blocks == m.blocks
    ensures Laid(m, t, [])
  {
  }

  lemma LaidOne(m: Memory, t: Memory, size: nat)
    requires t.pos == m.pos + size && t.blocks == m.blocks + [Block(m.pos, size)]
    ensures Laid(m, t, [size])
  {
    assert [size][..0] == [];
  }

  /** Inside a recording a push takes what it asks for, or nothing. */
  lemma PushLays(c: Config, m: Memory, size: nat)
    requires Sound(c) && m.recording > 0 && size < U64_LIMIT && Fits(c, m, size) && m.pos <= c.cap
    ensures Laid(m, Pushed(c, m, size), Taken(c, m, Push(size)))
  {
    hide Watermark, Laid;
    TargetWraps(c, m, size);
    var t := Pushed(c, m, size);
    if size > 0 && m.pos + size <= c.cap {
      LaidOne(m, t, size);
    } else {
      assert t.blocks == m.blocks;
      LaidNothing(m, t);
    }
  }

  lemma WithinReserve(c: Config, m: Memory)
    requires Ok(c, m)
    ensures m.pos <= c.cap
  {
  }

  lemma {:induction false} RecordingLays(c: Config, m: Memory, op: Op)
    requires Sound(c) && Ok(c, m) && m.recording > 0 && Writes(op) && FitsThroughout(c, m, op)
    ensures Laid(m, Apply(c, m, op), Taken(c, m, op))
    decreases op, 0
  {
    hide Ok, Sound, Laid, Pushed, ApplyAll, AllTaken, AllFit;
    match op
    case Push(size) =>
      WithinReserve(c, m);
      PushLays(c, m, size);
    case Record(body) =>
      StartKeepsOk(c, m);
      RecordingIsContiguous(c, Started(m), body);
      SameLaid(m, Started(m), ApplyAll(c, Started(m), body), Apply(c, m, op), AllTaken(c, Started(m), body));
  }

  lemma SameLaid(m: Memory, s: Memory, t: Memory, u: Memory, sizes: seq<nat>)
    requires Laid(s, t, sizes) && m.pos == s.pos && m.blocks == s.blocks && u.pos == t.pos && u.blocks == t.blocks
    ensures Laid(m, u, sizes)
  {
  }

  /** Inside a recording, with recordings nested in it at any depth and pushes that may find no room, there are no
      gaps: behind the old position lies exactly what was taken, in order. */
  lemma {:induction false} RecordingIsContiguous(c: Config, m: Memory, ops: seq<Op>)
    requires Sound(c) && Ok(c, m) && m.recording > 0 && AllFit(c, m, ops) && forall o :: o in ops ==> Writes(o)
    ensures Laid(m, ApplyAll(c, m, ops), AllTaken(c, m, ops))
    decreases ops, 1
  {
    hide Ok, Sound, Laid, Apply, Taken, FitsThroughout;
    if ops == [] {
      LaidNothing(m, m);
    } else {
      var front := ops[..|ops| - 1];
      var t := ApplyAll(c, m, front);
      RecordingIsContiguous(c, m, front);
      AnySequenceKeepsOk(c, m, front);
      RecordingLays(c, t, ops[|ops| - 1]);
      LaidTransitive(m, t, ApplyAll(c, m, ops), AllTaken(c, m, front), Taken(c, t, ops[|ops| - 1]));
    }
  }

  /** The slice `str_record` reports, as offset behind the header and size: from the position at the start to that at
      the end of its body, none when nothing was recorded. */
  function Reported(start: nat, end: nat): Option<(nat, nat)> {
    if start < end then Some((start, end - start)) else None
  }

  /** That slice holds what the body took and nothing else, whether the recording is the outermost or not. */
  lemma RecordReports(c: Config, m: Memory, ops: seq<Op>)
    requires Sound(c) && Ok(c, m) && AllFit(c, Started(m), ops) && forall o :: o in ops ==> Writes(o)
    ensures var t, sizes := ApplyAll(c, Started(m), ops), AllTaken(c, Started(m), ops);
            && t.blocks == m.blocks + EndToEnd(m.pos, sizes)
            && c.header <= m.pos <= t.pos
            && Reported(m.pos - c.header, t.pos - c.header)
               == if Sum(sizes) > 0 then Some((m.pos - c.header, Sum(sizes))) else None
  {
    hide ApplyAll, AllTaken, AllFit, EndToEnd, Sum;
    StartKeepsOk(c, m);
    RecordingIsContiguous(c, Started(m), ops);
  }

  // ---------------------------------------------------------------- sizes near 2^64

  /** A fresh arena of 4 MiB with a header of 112 octets. */
  function Example(): (Config, Memory) {
    (Config(112, 22, 4, 0x40_0000), Memory(112, 0x40_0000, 0, []))
  }

  lemma ExampleIsOk()
    ensures Sound(Example().0) && Ok(Example().0, Example().1)
    ensures Example().0.Alignment() == 16
  {
    DefaultsAreSound(112, 0x40_0000);
    DefaultPowers();
    assert Example().0.Page() == 0x40_0000;
  }

  /** Asking a fresh arena for 2^64 - 16 octets moves its position down into its header. */
  lemma PushWraps()
    ensures var (c, m) := Example();
            var t := Pushed(c, m, U64_LIMIT - 16);
            t.pos == 96 < c.header && !Ok(c, t)
  {
    hide Pow2, Watermark;
    var (c, m) := Example();
    ExampleIsOk();
    var size := U64_LIMIT - 16;
    Unique(size + 15, 16, size / 16, 15);
    assert Granted(c, m, size) == size;
    TargetWraps(c, m, size);
  }

  /** Asking for 2^64 - 1 octets is granted an empty block. */
  lemma HugeRequestIsGrantedNothing()
    ensures var (c, m) := Example(); Granted(c, m, U64_LIMIT - 1) == 0 && Pushed(c, m, U64_LIMIT - 1) == m
  {
    hide Pow2, Watermark;
    var (c, m) := Example();
    ExampleIsOk();
    TargetWraps(c, m, U64_LIMIT - 1);
    assert m.blocks + [] == m.blocks;
  }
}
