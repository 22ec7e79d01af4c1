/** The arena as the record base.c updates in place, with the operating system's committed octets beside it. */
module ArenaObject {
  import opened Bytes
  import opened Bits
  import opened Modular
  import opened Arena

  /** Octet offsets from `lo` to `hi`. */
  ghost function Span(lo: nat, hi: nat): set<nat> {
    set x: nat | x < hi && Within(x, lo, hi)
  }

  predicate Within(x: nat, lo: nat, hi: nat) {
    lo <= x < hi
  }

  class ArenaAllocator {
    const config: Config
    var pos: nat
    var commitPos: nat
    var unsafeRecord: nat
    ghost var blocks: seq<Block>
    ghost var committed: set<nat>

    ghost function View(): Memory
      reads this
    {
      Memory(pos, commitPos, unsafeRecord, blocks)
    }

    /** The arena invariant, and memory committed for exactly the octets below the watermark. */
    ghost predicate Valid()
      reads this
    {
      Sound(config) && Ok(config, View()) && committed == Span(0, commitPos)
    }

    /** `clampTop(alignUp(p, pageSize), cap)` with the mask form of `alignUp`. */
    method NextCommit(p: nat) returns (r: nat)
      requires Sound(config) && p <= config.cap
      ensures r == Watermark(config, p)
    {
      hide Pow2, AlignUp;
      PageInWord();
      MaskIsAlignUp(p, config.pageBits);
      var aligned := AlignUpMask(p, config.Page());
      r := if aligned > config.cap then config.cap else aligned;
    }

    lemma PageInWord()
      requires Sound(config)
      ensures config.Alignment() <= config.Page() < U64_LIMIT
    {
      hide Pow2;
      Pow2Monotone(config.alignBits, config.pageBits);
    }

    constructor (c: Config)
      requires Sound(c)
      ensures Valid() && config == c
      ensures View() == Memory(c.header, Watermark(c, c.header), 0, [])
    {
      config := c;
      pos := c.header;
      unsafeRecord := 0;
      blocks := [];
      commitPos := 0;
      committed := {};
      new;
      WatermarkCovers(c, c.header);
      var commitSize := NextCommit(c.header);
      Commit(0, commitSize);
      commitPos := commitSize;
    }

    /** The operating system's part: make `size` octets from `start` usable. */
    ghost method Commit(start: nat, size: nat)
      modifies this`committed
      ensures committed == old(committed) + Span(start, start + size)
    {
      committed := committed + Span(start, start + size);
    }

    ghost method Decommit(start: nat, size: nat)
      modifies this`committed
      ensures committed == old(committed) - Span(start, start + size)
    {
      committed := committed - Span(start, start + size);
    }

    /** The result is the block's offset in the arena. The invariant needs the sum to stay inside 64 bits, and
        only that. */
    method Push(size: nat) returns (r: Option<nat>)
      requires Valid() && size < U64_LIMIT
      modifies this`pos, this`commitPos, this`blocks, this`committed
      ensures View() == Pushed(config, old(View()), size) && committed == Span(0, commitPos)
      ensures r == if Target(config, old(View()), size) <= config.cap then Some(old(pos)) else None
      ensures Valid() <==> Fits(config, old(View()), size)
    {
      hide Pow2, AlignUp, Watermark, Stacked;
      ghost var before := View();
      PageInWord();
      PushKeepsOkExactly(config, before, size);
      var n := size;
      if unsafeRecord == 0 && config.Alignment() > 1 {
        MaskIsAlignUp(size, config.alignBits);
        n := AlignUpMask(size, config.Alignment());
      }
      if (pos + n) % U64_LIMIT <= config.cap {
        r := Some(pos);
        blocks := blocks + if n > 0 then [Block(pos, n)] else [];
        pos := (pos + n) % U64_LIMIT;
        if pos > commitPos {
          var next := NextCommit(pos);
          WatermarkCovers(config, pos);
          Commit(commitPos, next - commitPos);
          commitPos := next;
        }
      } else {
        r := None;
      }
    }

    method PopTo(to: nat)
      requires Valid()
      modifies this`pos, this`commitPos, this`blocks, this`committed
      ensures Valid() && View() == PoppedTo(config, old(View()), to)
    {
      hide Pow2, AlignUp, Watermark, Stacked, Below;
      PopKeepsOk(config, View(), to);
      var p := if config.header > to then config.header else to;
      if p < pos {
        pos := p;
        blocks := Below(blocks, p);
        var next := NextCommit(p);
        if next < commitPos {
          Decommit(next, commitPos - next);
          commitPos := next;
        }
      }
    }

    method PopAmount(amount: nat)
      requires Valid() && amount < U64_LIMIT
      modifies this`pos, this`commitPos, this`blocks, this`committed
      ensures Valid() && View() == PoppedBy(config, old(View()), amount)
    {
      hide Pow2, AlignUp, Watermark, Stacked, PoppedTo;
      Unique(amount, U64_LIMIT, 0, amount);
      PopTo((pos + (U64_LIMIT - amount)) % U64_LIMIT);
    }

    method StartUnsafeRecord() returns (start: nat)
      requires Valid()
      modifies this`unsafeRecord
      ensures Valid() && View() == Started(old(View())) && start == pos - config.header
    {
      unsafeRecord := unsafeRecord + 1;
      start := pos - config.header;
    }

    method StopUnsafeRecord()
      requires Valid() && unsafeRecord > 0
      modifies this`unsafeRecord, this`pos
      ensures Valid() && View() == Stopped(config, old(View()))
    {
      hide Pow2, AlignUp, Watermark, Stacked;
      PageInWord();
      StopKeepsOk(config, View());
      unsafeRecord := unsafeRecord - 1;
      if unsafeRecord == 0 {
        MaskIsAlignUp(pos, config.alignBits);
        pos := AlignUpMask(pos, config.Alignment());
      }
    }

    /** The end of `str_record`: the slice recorded since `start`, then one level up. */
    method StopRecord(start: nat) returns (content: Option<(nat, nat)>)
      requires Valid() && unsafeRecord > 0
      modifies this`unsafeRecord, this`pos
      ensures Valid() && View() == Stopped(config, old(View()))
      ensures content == Reported(start, old(pos) - config.header)
    {
      var end := pos - config.header;
      content := if start < end then Some((start, end - start)) else None;
      StopUnsafeRecord();
    }

    method ScratchStart() returns (start: nat)
      requires Valid()
      ensures start == pos
    {
      start := pos;
    }

    method ScratchEnd(start: nat)
      requires Valid()
      modifies this`pos, this`commitPos, this`blocks, this`committed
      ensures Valid() && View() == PoppedTo(config, old(View()), start)
    {
      PopTo(start);
    }
  }
}
