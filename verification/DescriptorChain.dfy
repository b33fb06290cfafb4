/**
 The descriptor chain of one eMMC transfer: 16-byte descriptors in the first page of the DMA area, each naming up to
 8 blocks of the bounce buffer that follows, and the engine that walks the chain.
 */
module DescriptorChain {
  import opened Common
  import opened BootBytes

  const BLOCK: nat := 512
  const SEGMENT_BLOCKS: nat := 8
  const DESC_SIZE: nat := 16
  const PHY_BUF_OFFSET: nat := 0x1000
  const PHY_BUF_SIZE: nat := 0x1000

  /** The flag bits of a descriptor: owned by the engine, chained, first and last segment. */
  datatype Flags = Flags(own: bool, ch: bool, fs: bool, ld: bool)

  datatype Desc = Desc(flags: Flags, length: nat, buffer: nat, next: nat)

  const CLEARED: Desc := Desc(Flags(false, false, false, false), 0, 0, 0)

  /** Arithmetic is 32 bits wide. */
  function Wrap32(x: int): (y: nat)
    ensures y < 0x1_0000_0000 && (x - y) % 0x1_0000_0000 == 0
  {
    if 0 <= x < UINT32 then x else x % UINT32
  }

  /** Descriptors needed for a number of blocks. */
  function Slots(blocks: nat): (n: nat)
    ensures n >= 1
  {
    if blocks <= SEGMENT_BLOCKS then 1 else 1 + Slots(blocks - SEGMENT_BLOCKS)
  }

  /** Where a descriptor's data lies in the bounce buffer. */
  function SegmentAddress(base: nat, i: nat): nat {
    Wrap32(base + PHY_BUF_OFFSET + i * PHY_BUF_SIZE)
  }

  /** From slot `i` on, the descriptors for `blocks` blocks. */
  ghost predicate ChainFrom(descs: seq<Desc>, base: nat, i: nat, blocks: nat)
    decreases blocks
  {
    && i < |descs|
    && descs[i].flags == Flags(true, true, i == 0, blocks <= SEGMENT_BLOCKS)
    && descs[i].buffer == SegmentAddress(base, i)
    && if blocks <= SEGMENT_BLOCKS then
         descs[i].length == blocks * BLOCK && descs[i].next == Wrap32(Wrap32(base - DESC_SIZE) + DESC_SIZE)
       else
         && descs[i].length == SEGMENT_BLOCKS * BLOCK && descs[i].next == Wrap32(base + i * DESC_SIZE + DESC_SIZE)
         && ChainFrom(descs, base, i + 1, blocks - SEGMENT_BLOCKS)
  }

  lemma {:induction false} SlotsBound(blocks: nat)
    ensures Slots(blocks) == if blocks == 0 then 1 else (blocks + SEGMENT_BLOCKS - 1) / SEGMENT_BLOCKS
  {
    if blocks > SEGMENT_BLOCKS {
      SlotsBound(blocks - SEGMENT_BLOCKS);
    }
  }

  /** The chain stays below the bounce buffer exactly up to 2048 blocks; one transfer has at most 512. */
  lemma ChainFitsIff(blocks: nat)
    ensures Slots(blocks) * DESC_SIZE <= PHY_BUF_OFFSET <==> blocks <= 2048
  {
    SlotsBound(blocks);
  }

  // ---------- What the chain says, one descriptor at a time ----------

  function LengthsFrom(descs: seq<Desc>, i: nat, n: nat): nat
    requires i <= n <= |descs|
    decreases n - i
  {
    if i == n then 0 else descs[i].length + LengthsFrom(descs, i + 1, n)
  }

  /** Only the first is marked first and only the last is marked last. */
  lemma {:induction false} ChainFlags(descs: seq<Desc>, base: nat, i: nat, blocks: nat, k: nat)
    requires ChainFrom(descs, base, i, blocks) && i <= k < i + Slots(blocks)
    ensures k < |descs| && descs[k].flags == Flags(true, true, k == 0, k == i + Slots(blocks) - 1)
    decreases blocks
  {
    if blocks > SEGMENT_BLOCKS && i < k {
      ChainFlags(descs, base, i + 1, blocks - SEGMENT_BLOCKS, k);
    }
  }

  /** Each descriptor leads to the one after it, and the last back to the base. */
  lemma {:induction false} ChainLinks(descs: seq<Desc>, base: nat, i: nat, blocks: nat, k: nat)
    requires ChainFrom(descs, base, i, blocks) && i <= k < i + Slots(blocks)
    requires base + PHY_BUF_OFFSET <= UINT32 && (i + Slots(blocks)) * DESC_SIZE <= PHY_BUF_OFFSET
    ensures k < |descs|
    ensures descs[k].next == if k == i + Slots(blocks) - 1 then base else base + (k + 1) * DESC_SIZE
    decreases blocks
  {
    if blocks > SEGMENT_BLOCKS && i < k {
      ChainLinks(descs, base, i + 1, blocks - SEGMENT_BLOCKS, k);
    }
  }

  /** The segments tile the bounce buffer: contiguous, in order, and together as long as the transfer. */
  lemma {:induction false} ChainTiles(descs: seq<Desc>, base: nat, i: nat, blocks: nat)
    requires ChainFrom(descs, base, i, blocks)
    requires base + PHY_BUF_OFFSET + i * PHY_BUF_SIZE + blocks * BLOCK <= UINT32 && blocks > 0
    ensures i + Slots(blocks) <= |descs|
    ensures LengthsFrom(descs, i, i + Slots(blocks)) == blocks * BLOCK
    ensures descs[i].buffer == base + PHY_BUF_OFFSET + i * PHY_BUF_SIZE
    ensures forall k :: i <= k < i + Slots(blocks) ==>
              descs[k].buffer == descs[i].buffer + LengthsFrom(descs, i, k)
    decreases blocks
  {
    if blocks > SEGMENT_BLOCKS {
      ChainTiles(descs, base, i + 1, blocks - SEGMENT_BLOCKS);
      forall k | i <= k < i + Slots(blocks) ensures descs[k].buffer == descs[i].buffer + LengthsFrom(descs, i, k) {
      }
    }
  }

  // ---------- The engine ----------

  datatype Segment = Segment(at: nat, length: nat)

  /** The descriptor at a bus address. */
  function SlotOf(descs: seq<Desc>, base: nat, addr: int): Option<Desc> {
    if addr < base || (addr - base) % DESC_SIZE != 0 || (addr - base) / DESC_SIZE >= |descs| then None
    else Some(descs[(addr - base) / DESC_SIZE])
  }

  /** Follows the chain from `addr`; stops at a descriptor that is not there or not the engine's to use. */
  function Walk(descs: seq<Desc>, base: nat, addr: int, first: bool, fuel: nat): Option<seq<Segment>>
    decreases fuel
  {
    match SlotOf(descs, base, addr)
    case None => None
    case Some(d) =>
      if fuel == 0 || !d.flags.own || !d.flags.ch || d.flags.fs != first then None
      else if d.flags.ld then Some([Segment(d.buffer, d.length)])
      else match Walk(descs, base, d.next, false, fuel - 1)
        case None => None
        case Some(rest) => Some([Segment(d.buffer, d.length)] + rest)
  }

  lemma SlotAt(descs: seq<Desc>, base: nat, i: nat)
    requires i < |descs|
    ensures SlotOf(descs, base, base + i * DESC_SIZE) == Some(descs[i])
  {
  }

  /** The segments the transfer is meant to have. */
  function Segments(at: nat, blocks: nat): (segments: seq<Segment>)
    ensures segments != []
    decreases blocks
  {
    if blocks <= SEGMENT_BLOCKS then [Segment(at, blocks * BLOCK)]
    else [Segment(at, SEGMENT_BLOCKS * BLOCK)] + Segments(at + PHY_BUF_SIZE, blocks - SEGMENT_BLOCKS)
  }

  lemma {:induction false} ChainWalks(descs: seq<Desc>, base: nat, i: nat, blocks: nat, fuel: nat)
    requires ChainFrom(descs, base, i, blocks) && blocks > 0 && Slots(blocks) <= fuel
    requires base + PHY_BUF_OFFSET + i * PHY_BUF_SIZE + blocks * BLOCK <= UINT32
    ensures Walk(descs, base, base + i * DESC_SIZE, i == 0, fuel) ==
            Some(Segments(base + PHY_BUF_OFFSET + i * PHY_BUF_SIZE, blocks))
    decreases blocks
  {
    SlotAt(descs, base, i);
    if blocks > SEGMENT_BLOCKS {
      assert descs[i].next == base + (i + 1) * DESC_SIZE;
      ChainWalks(descs, base, i + 1, blocks - SEGMENT_BLOCKS, fuel - 1);
    }
  }

  /** Replaces a range. */
  function Splice(s: seq<byte>, at: nat, data: seq<byte>): (t: seq<byte>)
    requires at + |data| <= |s|
    ensures |t| == |s|
  {
    s[..at] + data + s[at + |data|..]
  }

  /** The bytes of the segments in order; `origin` is where `mem` starts. */
  function Gather(mem: seq<byte>, origin: nat, segments: seq<Segment>): Option<seq<byte>> {
    if segments == [] then Some([]) else
      var s := segments[0];
      if s.at < origin || s.at - origin + s.length > |mem| then None
      else match Gather(mem, origin, segments[1..])
        case None => None
        case Some(rest) => Some(mem[s.at - origin..s.at - origin + s.length] + rest)
  }

  /** Fills the segments in order from the data. */
  function Scatter(mem: seq<byte>, origin: nat, segments: seq<Segment>, data: seq<byte>): (filled: Option<seq<byte>>)
    ensures filled.Some? ==> |filled.value| == |mem|
    decreases |segments|
  {
    if segments == [] then if data == [] then Some(mem) else None else
      var s := segments[0];
      if s.at < origin || s.at - origin + s.length > |mem| || s.length > |data| then None
      else Scatter(Splice(mem, s.at - origin, data[..s.length]), origin, segments[1..], data[s.length..])
  }

  /** Writing: the engine sends the bounce buffer's bytes in order. */
  lemma {:induction false} SegmentsGather(mem: seq<byte>, origin: nat, p: nat, blocks: nat)
    requires p + blocks * BLOCK <= |mem|
    ensures Gather(mem, origin, Segments(origin + p, blocks)) == Some(mem[p..p + blocks * BLOCK])
    decreases blocks
  {
    var segments := Segments(origin + p, blocks);
    if blocks <= SEGMENT_BLOCKS {
      assert Gather(mem, origin, segments[1..]) == Some([]);
      assert mem[p..p + blocks * BLOCK] + [] == mem[p..p + blocks * BLOCK];
    } else {
      SegmentsGather(mem, origin, p + PHY_BUF_SIZE, blocks - SEGMENT_BLOCKS);
      assert segments[1..] == Segments(origin + (p + PHY_BUF_SIZE), blocks - SEGMENT_BLOCKS);
      assert mem[p..p + blocks * BLOCK] == mem[p..p + PHY_BUF_SIZE] + mem[p + PHY_BUF_SIZE..p + blocks * BLOCK];
    }
  }

  lemma SpliceTwice(s: seq<byte>, at: nat, a: seq<byte>, b: seq<byte>)
    requires at + |a| + |b| <= |s|
    ensures Splice(Splice(s, at, a), at + |a|, b) == Splice(s, at, a + b)
  {
  }

  /** Reading: the engine fills the bounce buffer's first bytes in order and leaves the rest. */
  lemma {:induction false} SegmentsScatter(mem: seq<byte>, origin: nat, p: nat, blocks: nat, data: seq<byte>)
    requires p + blocks * BLOCK <= |mem| && |data| == blocks * BLOCK
    ensures Scatter(mem, origin, Segments(origin + p, blocks), data) == Some(Splice(mem, p, data))
    decreases blocks
  {
    var segments := Segments(origin + p, blocks);
    if blocks <= SEGMENT_BLOCKS {
      assert data[..|data|] == data && data[|data|..] == [] && segments[1..] == [];
    } else {
      var first, rest := data[..PHY_BUF_SIZE], data[PHY_BUF_SIZE..];
      SegmentsScatter(Splice(mem, p, first), origin, p + PHY_BUF_SIZE, blocks - SEGMENT_BLOCKS, rest);
      assert segments[1..] == Segments(origin + (p + PHY_BUF_SIZE), blocks - SEGMENT_BLOCKS);
      SpliceTwice(mem, p, first, rest);
      assert first + rest == data;
    }
  }

  // ---------- Building the chain ----------

  /** A descriptor that is not the last one. */
  function Link(base: nat, i: nat): Desc {
    Desc(Flags(true, true, i == 0, false), SEGMENT_BLOCKS * BLOCK, SegmentAddress(base, i),
      Wrap32(base + i * DESC_SIZE + DESC_SIZE))
  }

  lemma {:induction false} ChainBuilt(descs: seq<Desc>, base: nat, j: nat, i: nat, last: nat)
    requires j <= i < |descs| && (forall k :: j <= k < i ==> descs[k] == Link(base, k))
    requires ChainFrom(descs, base, i, last) && 0 <= last <= SEGMENT_BLOCKS && (last > 0 || i == j)
    ensures ChainFrom(descs, base, j, last + SEGMENT_BLOCKS * (i - j))
    decreases i - j
  {
    if j < i {
      ChainBuilt(descs, base, j + 1, i, last);
    }
  }

  class DescriptorTable {
    const base: nat                   // bus address of the first descriptor
    const descs: array<Desc>

    constructor (base: nat, slots: nat)
      ensures this.base == base && descs.Length == slots && fresh(descs)
    {
      this.base := base;
      descs := new Desc[slots](_ => CLEARED);
    }

    method SetDescriptor(slot: nat, phys: nat, flags: Flags, length: nat, buffer: nat)
      requires slot < descs.Length
      modifies descs
      ensures descs[..] == old(descs[..])[slot := Desc(flags, length, buffer, Wrap32(phys + DESC_SIZE))]
    {
      descs[slot] := Desc(flags, length, buffer, Wrap32(phys + DESC_SIZE));
    }

    method Clear()
      modifies descs
      ensures forall k :: 0 <= k < descs.Length ==> descs[k] == CLEARED
    {
      forall k | 0 <= k < descs.Length {
        descs[k] := CLEARED;
      }
    }

    /** Builds the chain for a number of blocks; descriptors beyond it are cleared. */
    method Prepare(blocks: nat)
      requires Slots(blocks) <= descs.Length
      modifies descs
      ensures ChainFrom(descs[..], base, 0, blocks)
      ensures forall k :: Slots(blocks) <= k < descs.Length ==> descs[k] == CLEARED
    {
      Clear();
      var left: nat, i: nat := blocks, 0;
      while left > SEGMENT_BLOCKS
        invariant left + SEGMENT_BLOCKS * i == blocks && Slots(blocks) == i + Slots(left)
        invariant i > 0 ==> left > 0
        invariant forall k :: 0 <= k < i ==> descs[..][k] == Link(base, k)
        invariant forall k :: i <= k < descs.Length ==> descs[..][k] == CLEARED
      {
        SetDescriptor(i, base + i * DESC_SIZE, Flags(true, true, i == 0, false), SEGMENT_BLOCKS * BLOCK,
          SegmentAddress(base, i));
        left, i := left - SEGMENT_BLOCKS, i + 1;
      }
      SetDescriptor(i, Wrap32(base - DESC_SIZE), Flags(true, true, i == 0, true), left * BLOCK, SegmentAddress(base, i));
      ChainBuilt(descs[..], base, 0, i, left);
    }
  }
}
