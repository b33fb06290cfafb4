/**
 Block transfers of the eMMC driver: a request is cut into passes, a pass becomes one command and, with the internal
 DMA, a descriptor chain over the bounce buffer.  The card and the engine are abstract: they do what the command, its
 argument and the chain say, or fail and do nothing.
 */
module EmmcTransfer {
  import opened Common
  import opened BootBytes
  import opened DescriptorChain

  const MAX_TRANSFER: nat := 0x40000
  const DESC_SLOTS: nat := 256

  datatype Operation = Read | Write

  datatype Mode = Fifo | Idma

  datatype Status = Success | InvalidParameter | BadBufferSize | DeviceError | Timeout | NoMedia

  datatype Command = Cmd17 | Cmd18 | Cmd24 | Cmd25
  {
    predicate Multi() { Cmd18? || Cmd25? }
    predicate Writes() { Cmd24? || Cmd25? }
  }

  /** One transfer: card block, number of blocks, and where its data starts in the caller's buffer. */
  datatype Transfer = Transfer(lba: nat, blocks: nat, offset: nat)

  // ---------- How a request is cut ----------

  /** The next pass takes what is left, up to `max`; with the FIFO that is always one block. */
  function PassSize(remaining: nat, max: nat): nat {
    if remaining >= max then max else remaining
  }

  /** The passes for `size` bytes of at most `max` bytes each. */
  function Passes(lba: nat, offset: nat, size: nat, max: nat): seq<Transfer>
    requires max > 0
    decreases size
  {
    if size == 0 then [] else
      var n := PassSize(size, max);
      [Transfer(lba, n / BLOCK, offset)] + Passes(lba + n / BLOCK, offset + n, size - n, max)
  }

  ghost predicate Covers(t: Transfer, b: nat) {
    t.lba <= b < t.lba + t.blocks
  }

  /** Whatever the pass size, block `b` of the card goes with the same place of the buffer. */
  lemma {:induction false} PassesMap(lba: nat, offset: nat, size: nat, max: nat, k: nat)
    requires size % BLOCK == 0 && max % BLOCK == 0 && max > 0 && k < |Passes(lba, offset, size, max)|
    ensures var t := Passes(lba, offset, size, max)[k];
            && lba <= t.lba && t.lba + t.blocks <= lba + size / BLOCK
            && t.offset == offset + (t.lba - lba) * BLOCK
            && 0 < t.blocks * BLOCK <= max
    decreases size
  {
    var n := PassSize(size, max);
    assert n % BLOCK == 0 && n / BLOCK + (size - n) / BLOCK == size / BLOCK && n / BLOCK * BLOCK == n;
    if k == 0 {
    } else {
      PassesMap(lba + n / BLOCK, offset + n, size - n, max, k - 1);
    }
  }

  lemma {:induction false} PassFor(lba: nat, offset: nat, size: nat, max: nat, b: nat) returns (k: nat)
    requires size % BLOCK == 0 && max % BLOCK == 0 && max > 0 && lba <= b < lba + size / BLOCK
    ensures k < |Passes(lba, offset, size, max)| && Covers(Passes(lba, offset, size, max)[k], b)
    decreases size
  {
    var n := PassSize(size, max);
    k := 0;
    if lba + n / BLOCK <= b {
      k := PassFor(lba + n / BLOCK, offset + n, size - n, max, b);
      k := k + 1;
    }
  }

  /** How many passes a request takes, in either mode. */
  lemma {:induction false} PassCount(lba: nat, offset: nat, size: nat, max: nat)
    requires size % BLOCK == 0 && (max == MAX_TRANSFER || max == BLOCK)
    ensures |Passes(lba, offset, size, max)| == if max == BLOCK then size / 512 else (size + 0x3FFFF) / 0x40000
    decreases size
  {
    if size == 0 {
    } else {
      var n := PassSize(size, max);
      PassCount(lba + n / BLOCK, offset + n, size - n, max);
    }
  }

  /** Passes follow each other. */
  lemma {:induction false} PassesApart(lba: nat, offset: nat, size: nat, max: nat, j: nat, k: nat)
    requires size % BLOCK == 0 && max % BLOCK == 0 && max > 0 && j < k < |Passes(lba, offset, size, max)|
    ensures var ps := Passes(lba, offset, size, max); ps[j].lba + ps[j].blocks <= ps[k].lba
    decreases size
  {
    var n := PassSize(size, max);
    assert n % BLOCK == 0 && (size - n) % BLOCK == 0;
    var ps, rest := Passes(lba, offset, size, max), Passes(lba + n / BLOCK, offset + n, size - n, max);
    assert ps[0] == Transfer(lba, n / BLOCK, offset) && ps[k] == rest[k - 1];
    if j == 0 {
      PassesMap(lba + n / BLOCK, offset + n, size - n, max, k - 1);
    } else {
      assert ps[j] == rest[j - 1];
      PassesApart(lba + n / BLOCK, offset + n, size - n, max, j - 1, k - 1);
    }
  }

  /** Every requested block is in exactly one pass, and no other block is in any. */
  lemma PassesOnce(lba: nat, offset: nat, size: nat, max: nat, b: nat)
    requires size % BLOCK == 0 && max % BLOCK == 0 && max > 0
    ensures var ps := Passes(lba, offset, size, max);
            && (lba <= b < lba + size / BLOCK <==> exists k :: 0 <= k < |ps| && Covers(ps[k], b))
            && forall j, k :: 0 <= j < k < |ps| && Covers(ps[j], b) ==> !Covers(ps[k], b)
  {
    var ps := Passes(lba, offset, size, max);
    if lba <= b < lba + size / BLOCK {
      var k := PassFor(lba, offset, size, max, b);
    }
    forall k | 0 <= k < |ps| && Covers(ps[k], b) ensures lba <= b < lba + size / BLOCK {
      PassesMap(lba, offset, size, max, k);
    }
    forall j, k | 0 <= j < k < |ps| && Covers(ps[j], b) ensures !Covers(ps[k], b) {
      PassesApart(lba, offset, size, max, j, k);
    }
  }

  lemma WholePass(at: nat, size: nat, max: nat)
    requires max > 0 && max % BLOCK == 0 && size % BLOCK == 0
    ensures var n := PassSize(size, max);
            n % BLOCK == 0 && (size - n) % BLOCK == 0 && (at + n / BLOCK) * BLOCK == at * BLOCK + n
  {
  }

  // ---------- What a transfer does ----------

  /** `n` bytes moved between block `lba` of the card and the buffer from `offset` on. */
  ghost predicate Moved(op: Operation, card: seq<byte>, buffer: seq<byte>, card': seq<byte>, buffer': seq<byte>,
      lba: nat, offset: nat, n: nat) {
    && lba * BLOCK + n <= |card| && offset + n <= |buffer|
    && if op.Write? then buffer' == buffer && card' == Splice(card, lba * BLOCK, buffer[offset..offset + n])
       else card' == card && buffer' == Splice(buffer, offset, card[lba * BLOCK..lba * BLOCK + n])
  }

  lemma MovedNothing(op: Operation, card: seq<byte>, buffer: seq<byte>, lba: nat)
    requires lba * BLOCK <= |card|
    ensures Moved(op, card, buffer, card, buffer, lba, 0, 0)
  {
    assert Splice(card, lba * BLOCK, []) == card;
    assert Splice(buffer, 0, []) == buffer;
  }

  /** A pass after the first `done` bytes completes the first `done + n`. */
  lemma MovedMore(op: Operation, card: seq<byte>, buffer: seq<byte>, card1: seq<byte>, buffer1: seq<byte>,
      card2: seq<byte>, buffer2: seq<byte>, lba: nat, at: nat, done: nat, n: nat)
    requires at * BLOCK == lba * BLOCK + done
    requires Moved(op, card, buffer, card1, buffer1, lba, 0, done)
    requires Moved(op, card1, buffer1, card2, buffer2, at, done, n)
    ensures Moved(op, card, buffer, card2, buffer2, lba, 0, done + n)
  {
  }

  /** Reading back what was written gives it again. */
  lemma WriteThenRead(card: seq<byte>, data: seq<byte>, card1: seq<byte>, into: seq<byte>, card2: seq<byte>,
      into2: seq<byte>, lba: nat, n: nat)
    requires Moved(Write, card, data, card1, data, lba, 0, n) && n <= |into|
    requires Moved(Read, card1, into, card2, into2, lba, 0, n)
    ensures into2[..n] == data[..n] && card2 == card1
  {
    var p := lba * BLOCK;
    assert card1[p..p + n] == data[0..n];
  }

  /** Blocks outside a range are the same. */
  ghost predicate SameOutside(card: seq<byte>, card1: seq<byte>, lba: nat, blocks: nat) {
    |card1| == |card| && forall b: nat :: !(lba <= b < lba + blocks) ==>
      Sub(card1, b * BLOCK, BLOCK) == Sub(card, b * BLOCK, BLOCK)
  }

  lemma SubOutside(card: seq<byte>, p: nat, data: seq<byte>, q: nat, size: nat)
    requires p + |data| <= |card| && (q + size <= p || p + |data| <= q)
    ensures Sub(Splice(card, p, data), q, size) == Sub(card, q, size)
  {
    var card1 := Splice(card, p, data);
    if q + size <= |card| {
      var now, was := card1[q..q + size], card[q..q + size];
      forall i | 0 <= i < size ensures now[i] == was[i] {
        assert now[i] == card1[q + i] && was[i] == card[q + i];
      }
    }
  }

  /** A write leaves every block outside its range as it was. */
  lemma OtherBlocksKept(card: seq<byte>, data: seq<byte>, card1: seq<byte>, lba: nat, n: nat)
    requires Moved(Write, card, data, card1, data, lba, 0, n) && n % BLOCK == 0
    ensures SameOutside(card, card1, lba, n / BLOCK)
  {
    forall b: nat | !(lba <= b < lba + n / BLOCK)
      ensures Sub(card1, b * BLOCK, BLOCK) == Sub(card, b * BLOCK, BLOCK)
    {
      var p, q := lba * BLOCK, b * BLOCK;
      assert q + BLOCK <= p || p + n <= q;
      SubOutside(card, p, data[0..n], q, BLOCK);
    }
  }

  // ---------- A request in progress ----------

  /** The bytes moved: pass after pass, until one does not fit the card or `good` have been carried out. */
  function Carried(cardSize: nat, at: nat, size: nat, max: nat, good: nat): (bytes: nat)
    requires max > 0
    ensures bytes <= size
    decreases size
  {
    var n := PassSize(size, max);
    if size == 0 || good == 0 || at * BLOCK + n > cardSize then 0
    else n + Carried(cardSize, at + n / BLOCK, size - n, max, good - 1)
  }

  /** A request succeeds exactly when it stays on the card and the card carries out all its passes. */
  ghost predicate Completes(cardSize: nat, lba: nat, size: nat, max: nat, good: nat)
    requires max > 0
  {
    |Passes(lba, 0, size, max)| <= good && lba * BLOCK + size <= cardSize
  }

  /** A request, what the card and the buffer held when it began, and how many transfers the card will carry out. */
  datatype Request = Request(op: Operation, card: seq<byte>, buffer: seq<byte>, lba: nat, size: nat, max: nat, good: nat)

  /** How far a request has come: the next block, bytes done and left, transfers the card has left, passes so far. */
  datatype Point = Point(at: nat, done: nat, remaining: nat, left: nat, log: seq<Transfer>)

  function Logged(p: Point, n: nat): seq<Transfer> {
    p.log + [Transfer(p.at, n / BLOCK, p.done)]
  }

  function After(p: Point, n: nat): Point
    requires n <= p.remaining && 0 < p.left
  {
    Point(p.at + n / BLOCK, p.done + n, p.remaining - n, p.left - 1, Logged(p, n))
  }

  /** The point lies on the plan of the request. */
  ghost predicate OnPlan(r: Request, p: Point) {
    && 0 < r.max && r.max % BLOCK == 0 && p.remaining % BLOCK == 0
    && p.done + p.remaining == r.size && |p.log| + p.left == r.good && p.at * BLOCK == r.lba * BLOCK + p.done
    && p.log + Passes(p.at, p.done, p.remaining, r.max) == Passes(r.lba, 0, r.size, r.max)
    && Carried(|r.card|, r.lba, r.size, r.max, r.good) == p.done + Carried(|r.card|, p.at, p.remaining, r.max, p.left)
  }

  ghost predicate Going(r: Request, p: Point, card: seq<byte>, buffer: seq<byte>) {
    OnPlan(r, p) && Moved(r.op, r.card, r.buffer, card, buffer, r.lba, 0, p.done)
  }

  /** How a request ends: what has moved, and whether that is everything. */
  ghost predicate Ended(r: Request, ok: bool, done: nat, log: seq<Transfer>, card: seq<byte>, buffer: seq<byte>) {
    && r.max > 0 && done == Carried(|r.card|, r.lba, r.size, r.max, r.good)
    && Moved(r.op, r.card, r.buffer, card, buffer, r.lba, 0, done)
    && ok == Completes(|r.card|, r.lba, r.size, r.max, r.good)
    && (ok ==> done == r.size && log == Passes(r.lba, 0, r.size, r.max))
  }

  lemma PassesNext(at: nat, done: nat, remaining: nat, max: nat, log: seq<Transfer>)
    requires 0 < max && 0 < remaining
    ensures var n := PassSize(remaining, max);
            && |Passes(at, done, remaining, max)| > 0
            && log + Passes(at, done, remaining, max) ==
               (log + [Transfer(at, n / BLOCK, done)]) + Passes(at + n / BLOCK, done + n, remaining - n, max)
  {
    var n := PassSize(remaining, max);
    var t, rest := [Transfer(at, n / BLOCK, done)], Passes(at + n / BLOCK, done + n, remaining - n, max);
    assert Passes(at, done, remaining, max) == t + rest;
    assert log + (t + rest) == (log + t) + rest;
  }

  lemma PassIsWhole(r: Request, p: Point, n: nat)
    requires OnPlan(r, p) && 0 < p.remaining && n == PassSize(p.remaining, r.max)
    ensures 0 < n <= p.remaining && 0 < n / BLOCK && n / BLOCK * BLOCK == n && n % BLOCK == 0
    ensures |p.log| < |Passes(r.lba, 0, r.size, r.max)|
  {
    WholePass(p.at, p.remaining, r.max);
    PassesNext(p.at, p.done, p.remaining, r.max, p.log);
  }

  /** A pass that is carried out stays on the plan. */
  lemma PlanNext(r: Request, p: Point, n: nat)
    requires OnPlan(r, p) && 0 < p.remaining && n == PassSize(p.remaining, r.max)
    requires 0 < p.left && p.at * BLOCK + n <= |r.card|
    ensures n <= p.remaining && OnPlan(r, After(p, n))
  {
    WholePass(p.at, p.remaining, r.max);
    PassesNext(p.at, p.done, p.remaining, r.max, p.log);
  }

  /** After one that is not, nothing more is moved. */
  lemma PlanStops(r: Request, p: Point, n: nat)
    requires OnPlan(r, p) && 0 < p.remaining && n == PassSize(p.remaining, r.max)
    requires p.left == 0 || |r.card| < p.at * BLOCK + n
    ensures Carried(|r.card|, r.lba, r.size, r.max, r.good) == p.done
    ensures !Completes(|r.card|, r.lba, r.size, r.max, r.good)
  {
    PassIsWhole(r, p, n);
  }

  lemma GoingStart(r: Request)
    requires r.max > 0 && r.max % BLOCK == 0 && r.size % BLOCK == 0 && r.lba * BLOCK <= |r.card|
    ensures Going(r, Point(r.lba, 0, r.size, r.good, []), r.card, r.buffer)
  {
    MovedNothing(r.op, r.card, r.buffer, r.lba);
  }

  /** Either way, one pass leaves the request on its way or ended. */
  lemma PassResult(r: Request, p: Point, card1: seq<byte>, buffer1: seq<byte>, card2: seq<byte>, buffer2: seq<byte>,
      n: nat, ok: bool)
    requires Going(r, p, card1, buffer1) && 0 < p.remaining && n == PassSize(p.remaining, r.max)
    requires ok == (0 < p.left && p.at * BLOCK + n <= |r.card|)
    requires if ok then Moved(r.op, card1, buffer1, card2, buffer2, p.at, p.done, n)
             else card2 == card1 && buffer2 == buffer1
    ensures n <= p.remaining
    ensures if ok then 0 < p.left && Going(r, After(p, n), card2, buffer2)
            else Ended(r, false, p.done, Logged(p, n), card2, buffer2)
  {
    PassIsWhole(r, p, n);
    if ok {
      PlanNext(r, p, n);
      MovedMore(r.op, r.card, r.buffer, card1, buffer1, card2, buffer2, r.lba, p.at, p.done, n);
    } else {
      PlanStops(r, p, n);
    }
  }

  lemma GoingDone(r: Request, p: Point, card: seq<byte>, buffer: seq<byte>)
    requires Going(r, p, card, buffer) && p.remaining == 0
    ensures Ended(r, true, r.size, p.log, card, buffer)
  {
    assert p.log + [] == p.log;
  }

  /** The bytes of `passes` full passes. */
  function FullPasses(passes: nat, max: nat): nat {
    if passes == 0 then 0 else max + FullPasses(passes - 1, max)
  }

  lemma WholeSum(a: nat, b: nat)
    requires a % BLOCK == 0 && b % BLOCK == 0
    ensures (a + b) % BLOCK == 0
  {
  }

  /** Whole blocks are moved, all of them on the card. */
  lemma {:induction false} CarriedWhole(cardSize: nat, at: nat, size: nat, max: nat, good: nat)
    requires max > 0 && max % BLOCK == 0 && size % BLOCK == 0
    ensures var d := Carried(cardSize, at, size, max, good);
            d % BLOCK == 0 && (d > 0 ==> at * BLOCK + d <= cardSize)
    decreases size
  {
    var n := PassSize(size, max);
    if size == 0 || good == 0 || at * BLOCK + n > cardSize {
    } else {
      WholePass(at, size, max);
      CarriedWhole(cardSize, at + n / BLOCK, size - n, max, good - 1);
      WholeSum(n, Carried(cardSize, at + n / BLOCK, size - n, max, good - 1));
    }
  }

  /** When not everything is moved, `good` full passes are, or the next one does not fit the card. */
  lemma {:induction false} CarriedStops(cardSize: nat, at: nat, size: nat, max: nat, good: nat)
    requires max > 0 && max % BLOCK == 0 && size % BLOCK == 0
    ensures var d := Carried(cardSize, at, size, max, good);
            && d <= FullPasses(good, max)
            && (d < size ==> d == FullPasses(good, max) || at * BLOCK + d + PassSize(size - d, max) > cardSize)
    decreases size
  {
    var n := PassSize(size, max);
    if size == 0 || good == 0 || at * BLOCK + n > cardSize {
    } else {
      WholePass(at, size, max);
      CarriedStops(cardSize, at + n / BLOCK, size - n, max, good - 1);
    }
  }

  /** Everything is moved exactly when the request completes. */
  lemma {:induction false} CarriedAllIff(cardSize: nat, at: nat, offset: nat, size: nat, max: nat, good: nat)
    requires max > 0 && max % BLOCK == 0 && size % BLOCK == 0 && at * BLOCK <= cardSize
    ensures Carried(cardSize, at, size, max, good) == size <==>
            |Passes(at, offset, size, max)| <= good && at * BLOCK + size <= cardSize
    decreases size
  {
    var n := PassSize(size, max);
    if size == 0 || good == 0 || at * BLOCK + n > cardSize {
    } else {
      assert n % BLOCK == 0;
      CarriedAllIff(cardSize, at + n / BLOCK, offset + n, size - n, max, good - 1);
    }
  }

  // ---------- The driver ----------

  function CommandFor(op: Operation, blocks: nat): Command {
    match op
    case Read => if blocks > 1 then Cmd18 else Cmd17
    case Write => if blocks > 1 then Cmd25 else Cmd24
  }

  /** What the card and the bounce buffer hold. */
  datatype Memory = Memory(card: seq<byte>, bounce: seq<byte>)

  /**
   The card and the engine at work: the command moves its blocks between position `pos` of the card and the memory the
   segments name, or nothing at all.
   */
  function Effect(m: Memory, origin: nat, segments: Option<seq<Segment>>, cmd: Command, pos: nat, byteCount: nat)
    : (after: Option<Memory>)
    ensures after.Some? ==> |after.value.card| == |m.card| && |after.value.bounce| == |m.bounce|
  {
    var n := if cmd.Multi() then byteCount else BLOCK;
    if segments.None? || pos + n > |m.card| then None
    else if cmd.Writes() then
      match Gather(m.bounce, origin, segments.value)
      case None => None
      case Some(data) => if |data| == n then Some(m.(card := Splice(m.card, pos, data))) else None
    else
      match Scatter(m.bounce, origin, segments.value, m.card[pos..pos + n])
      case None => None
      case Some(filled) => Some(m.(bounce := filled))
  }

  /** With the chain for the transfer in place, the command moves the front of the bounce buffer. */
  function ChainEffect(m: Memory, op: Operation, lba: nat, blocks: nat): Option<Memory>
    requires blocks * BLOCK <= |m.bounce|
  {
    if (lba + blocks) * BLOCK > |m.card| then None
    else if op.Write? then Some(m.(card := Splice(m.card, lba * BLOCK, m.bounce[..blocks * BLOCK])))
    else Some(m.(bounce := Splice(m.bounce, 0, m.card[lba * BLOCK..(lba + blocks) * BLOCK])))
  }

  lemma FrontGathers(bounce: seq<byte>, origin: nat, blocks: nat)
    requires blocks * BLOCK <= |bounce|
    ensures Gather(bounce, origin, Segments(origin, blocks)) == Some(bounce[..blocks * BLOCK])
  {
    SegmentsGather(bounce, origin, 0, blocks);
    assert bounce[0..blocks * BLOCK] == bounce[..blocks * BLOCK];
  }

  lemma EffectOfSegments(m: Memory, origin: nat, op: Operation, lba: nat, blocks: nat)
    requires blocks > 0 && blocks * BLOCK <= |m.bounce|
    ensures Effect(m, origin, Some(Segments(origin, blocks)), CommandFor(op, blocks), lba * BLOCK, blocks * BLOCK)
            == ChainEffect(m, op, lba, blocks)
  {
    var n, pos := blocks * BLOCK, lba * BLOCK;
    if pos + n <= |m.card| {
      if op.Write? {
        FrontGathers(m.bounce, origin, blocks);
      } else {
        SegmentsScatter(m.bounce, origin, 0, blocks, m.card[pos..pos + n]);
      }
    }
  }

  lemma WholeChainWalks(base: nat, descs: seq<Desc>, slots: nat, blocks: nat)
    requires ChainFrom(descs, base, 0, blocks) && blocks > 0 && |descs| == slots
    requires base + PHY_BUF_OFFSET + blocks * BLOCK <= UINT32
    ensures Walk(descs, base, base, true, slots) == Some(Segments(base + PHY_BUF_OFFSET, blocks))
  {
    assert Slots(blocks) <= |descs| by { ChainFlags(descs, base, 0, blocks, Slots(blocks) - 1); }
    ChainWalks(descs, base, 0, blocks, slots);
  }

  lemma EffectOfChain(m: Memory, base: nat, descs: seq<Desc>, slots: nat, op: Operation, lba: nat, blocks: nat)
    requires ChainFrom(descs, base, 0, blocks) && blocks > 0 && blocks * BLOCK <= |m.bounce| && |descs| == slots
    requires base + PHY_BUF_OFFSET + blocks * BLOCK <= UINT32
    ensures Effect(m, base + PHY_BUF_OFFSET, Walk(descs, base, base, true, slots), CommandFor(op, blocks),
              lba * BLOCK, blocks * BLOCK) == ChainEffect(m, op, lba, blocks)
  {
    WholeChainWalks(base, descs, slots, blocks);
    EffectOfSegments(m, base + PHY_BUF_OFFSET, op, lba, blocks);
  }

  /** Before the command: a write's data is in front of the bounce buffer. */
  function Filled(op: Operation, card: seq<byte>, bounce: seq<byte>, data: seq<byte>): (m: Memory)
    requires |data| <= |bounce|
    ensures |m.bounce| == |bounce|
  {
    Memory(card, if op.Write? then Splice(bounce, 0, data) else bounce)
  }

  /** Through the bounce buffer, the data arrives on the other side as it left. */
  lemma DmaMoves(op: Operation, card: seq<byte>, bounce: seq<byte>, buffer: seq<byte>, lba: nat, offset: nat, blocks: nat)
    requires offset + blocks * BLOCK <= |buffer| && blocks * BLOCK <= |bounce| && (lba + blocks) * BLOCK <= |card|
    ensures var n := blocks * BLOCK;
            var m := ChainEffect(Filled(op, card, bounce, buffer[offset..offset + n]), op, lba, blocks).value;
            Moved(op, card, buffer, m.card, if op.Read? then Splice(buffer, offset, m.bounce[..n]) else buffer,
              lba, offset, n)
  {
  }

  method CopyIn(into: array<byte>, at: nat, data: seq<byte>)
    requires at + |data| <= into.Length
    modifies into
    ensures into[..] == Splice(old(into[..]), at, data)
  {
    ghost var was := into[..];
    forall k | 0 <= k < |data| {
      into[at + k] := data[k];
    }
    var now := Splice(was, at, data);
    forall k | 0 <= k < into.Length ensures into[k] == now[k] {
      assert at <= k < at + |data| ==> into[at + (k - at)] == data[k - at];
    }
  }

  class Driver {
    const table: DescriptorTable
    const bounce: array<byte>         // follows the descriptors' page
    const blockMode: bool             // the card takes block numbers, not byte positions
    const mode: Mode
    var card: seq<byte>
    var pending: nat                  // where the card is after a command, with the FIFO
    var sent: (Command, nat)          // the last command and its argument
    var mediaChange: bool
    var cardInit: bool
    var lastBlock: nat

    /** The DMA area is large enough and below 4 GB, and the card can be addressed. */
    ghost predicate Valid()
      reads this
    {
      && table.descs.Length == DESC_SLOTS && bounce.Length == MAX_TRANSFER
      && table.base + PHY_BUF_OFFSET + MAX_TRANSFER <= UINT32
      && |card| < if blockMode then UINT32 * BLOCK else UINT32
    }

    constructor (base: nat, card: seq<byte>, blockMode: bool, mode: Mode)
      requires base + PHY_BUF_OFFSET + MAX_TRANSFER <= UINT32
      requires |card| < if blockMode then UINT32 * BLOCK else UINT32
      ensures Valid() && Detected() && this.card == card && this.blockMode == blockMode && this.mode == mode
    {
      table := new DescriptorTable(base, DESC_SLOTS);
      bounce := new byte[MAX_TRANSFER](_ => 0);
      this.card, this.blockMode, this.mode, pending := card, blockMode, mode, 0;
      sent := (Cmd17, 0);
      mediaChange, cardInit, lastBlock := true, false, 0;
    }

    function Argument(lba: nat): nat {
      if blockMode then lba else lba * BLOCK
    }

    /** Where the card finds the data for a command argument. */
    function Position(argument: nat): nat {
      if blockMode then Wrap32(argument) * BLOCK else Wrap32(argument)
    }

    function Origin(): nat {
      table.base + PHY_BUF_OFFSET
    }

    /** For the internal DMA: builds the chain and, when writing, fills the bounce buffer. */
    method PrepareTransfer(buffer: array<byte>, offset: nat, blocks: nat, op: Operation)
      requires Valid() && buffer != bounce && blocks * BLOCK <= MAX_TRANSFER && offset + blocks * BLOCK <= buffer.Length
      modifies table.descs, bounce
      ensures mode.Idma? ==> ChainFrom(table.descs[..], table.base, 0, blocks)
      ensures bounce[..] == if mode.Idma? && op.Write? then
                              Splice(old(bounce[..]), 0, buffer[offset..offset + blocks * BLOCK])
                            else old(bounce[..])
    {
      if mode.Idma? {
        SlotsBound(blocks);
        table.Prepare(blocks);
        if op.Write? {
          CopyIn(bounce, 0, buffer[offset..offset + blocks * BLOCK]);
        }
      }
    }

    lemma PositionOfArgument(lba: nat)
      requires Valid() && lba * BLOCK <= |card|
      ensures Position(Argument(lba)) == lba * BLOCK
    {
    }

    /** Sends the command; with the internal DMA its data moves. */
    method SendCommand(cmd: Command, argument: nat, byteCount: nat, works: bool) returns (ok: bool)
      requires Valid()
      modifies this`card, this`pending, this`sent, bounce
      ensures Valid() && sent == (cmd, argument)
      ensures mode.Fifo? ==> ok == (works && Position(argument) + BLOCK <= |card|) && (ok ==> pending == Position(argument))
      ensures mode.Fifo? ==> card == old(card)
      ensures (mode.Idma? ==>
                var after := Effect(Memory(old(card), old(bounce[..])), Origin(),
                  Walk(table.descs[..], table.base, table.base, true, DESC_SLOTS), cmd, Position(argument), byteCount);
                ok == (works && after.Some?)
                && Memory(card, bounce[..]) == if ok then after.value else Memory(old(card), old(bounce[..])))
    {
      sent := (cmd, argument);
      if !works {
        return false;
      }
      var pos := Position(argument);
      if mode.Fifo? {
        pending := pos;
        return pos + BLOCK <= |card|;
      }
      var segments := Walk(table.descs[..], table.base, table.base, true, DESC_SLOTS);
      var after := Effect(Memory(card, bounce[..]), Origin(), segments, cmd, pos, byteCount);
      ok := after.Some?;
      if ok {
        card := after.value.card;
        CopyIn(bounce, 0, after.value.bounce);
        assert bounce[..] == after.value.bounce;
      }
    }

    method ReadBlockData(buffer: array<byte>, offset: nat, blocks: nat)
      requires Valid() && buffer != bounce && blocks * BLOCK <= MAX_TRANSFER && offset + blocks * BLOCK <= buffer.Length
      requires mode.Fifo? ==> blocks == 1 && pending + BLOCK <= |card|
      modifies buffer
      ensures buffer[..] == Splice(old(buffer[..]), offset,
                if mode.Fifo? then card[pending..pending + BLOCK] else bounce[..blocks * BLOCK])
    {
      if mode.Fifo? {
        CopyIn(buffer, offset, card[pending..pending + BLOCK]);
      } else {
        CopyIn(buffer, offset, bounce[..blocks * BLOCK]);
      }
    }

    method WriteBlockData(buffer: array<byte>, offset: nat, blocks: nat)
      requires Valid() && buffer != bounce && blocks * BLOCK <= MAX_TRANSFER && offset + blocks * BLOCK <= buffer.Length
      requires mode.Fifo? ==> blocks == 1 && pending + BLOCK <= |card|
      modifies this`card, bounce
      ensures Valid()
      ensures card == if mode.Fifo? then Splice(old(card), pending, buffer[offset..offset + BLOCK]) else old(card)
      ensures bounce[..] == if mode.Idma? then Splice(old(bounce[..]), 0, buffer[offset..offset + blocks * BLOCK])
                            else old(bounce[..])
    {
      if mode.Fifo? {
        card := Splice(card, pending, buffer[offset..offset + BLOCK]);
      } else {
        CopyIn(bounce, 0, buffer[offset..offset + blocks * BLOCK]);
      }
    }

    /** Moves some blocks, in either mode and for either kind of card; or fails and moves none. */
    method TransferBlock(lba: nat, buffer: array<byte>, offset: nat, blocks: nat, op: Operation, works: bool)
      returns (ok: bool)
      requires Valid() && buffer != bounce && lba * BLOCK <= |card| && (mode.Fifo? ==> blocks == 1)
      requires 0 < blocks && blocks * BLOCK <= MAX_TRANSFER && offset + blocks * BLOCK <= buffer.Length
      modifies this`card, this`pending, this`sent, table.descs, bounce, buffer
      ensures Valid() && ok == (works && (lba + blocks) * BLOCK <= |old(card)|)
      ensures sent.0 == if op.Read? then if blocks > 1 then Cmd18 else Cmd17 else if blocks > 1 then Cmd25 else Cmd24
      ensures sent.1 == if blockMode then lba else lba * 512
      ensures ok ==> Moved(op, old(card), old(buffer[..]), card, buffer[..], lba, offset, blocks * BLOCK)
      ensures !ok ==> card == old(card) && buffer[..] == old(buffer[..])
    {
      if mode.Idma? {
        ok := TransferDma(lba, buffer, offset, blocks, op, works);
      } else {
        ok := TransferFifo(lba, buffer, offset, op, works);
      }
    }

    /** Chain, command and data movement between the card and the bounce buffer. */
    method StartDma(lba: nat, buffer: array<byte>, offset: nat, blocks: nat, op: Operation, works: bool)
      returns (ok: bool)
      requires Valid() && buffer != bounce && lba * BLOCK <= |card| && mode.Idma?
      requires 0 < blocks && blocks * BLOCK <= MAX_TRANSFER && offset + blocks * BLOCK <= buffer.Length
      modifies this`card, this`pending, this`sent, table.descs, bounce
      ensures Valid() && ok == (works && (lba + blocks) * BLOCK <= |old(card)|)
      ensures sent == (CommandFor(op, blocks), Argument(lba))
      ensures (var m := Filled(op, old(card), old(bounce[..]), buffer[offset..offset + blocks * BLOCK]);
               Memory(card, bounce[..]) == if ok then ChainEffect(m, op, lba, blocks).value else m)
    {
      PrepareTransfer(buffer, offset, blocks, op);
      ok := SendDma(op, lba, blocks, works);
    }

    /** The command for a prepared chain. */
    method SendDma(op: Operation, lba: nat, blocks: nat, works: bool) returns (ok: bool)
      requires Valid() && lba * BLOCK <= |card| && mode.Idma? && 0 < blocks && blocks * BLOCK <= MAX_TRANSFER
      requires ChainFrom(table.descs[..], table.base, 0, blocks)
      modifies this`card, this`pending, this`sent, bounce
      ensures Valid() && ok == (works && (lba + blocks) * BLOCK <= |old(card)|)
      ensures sent == (CommandFor(op, blocks), Argument(lba))
      ensures (var m := Memory(old(card), old(bounce[..]));
               Memory(card, bounce[..]) == if ok then ChainEffect(m, op, lba, blocks).value else m)
    {
      ghost var m, descs := Memory(card, bounce[..]), table.descs[..];
      PositionOfArgument(lba);
      EffectOfChain(m, table.base, descs, DESC_SLOTS, op, lba, blocks);
      ghost var pos, segments := Position(Argument(lba)), Walk(descs, table.base, table.base, true, DESC_SLOTS);
      assert Effect(m, Origin(), segments, CommandFor(op, blocks), pos, blocks * BLOCK) == ChainEffect(m, op, lba, blocks);
      ok := SendCommand(CommandFor(op, blocks), Argument(lba), blocks * BLOCK, works);
    }

    method TransferDma(lba: nat, buffer: array<byte>, offset: nat, blocks: nat, op: Operation, works: bool)
      returns (ok: bool)
      requires Valid() && buffer != bounce && lba * BLOCK <= |card| && mode.Idma?
      requires 0 < blocks && blocks * BLOCK <= MAX_TRANSFER && offset + blocks * BLOCK <= buffer.Length
      modifies this`card, this`pending, this`sent, table.descs, bounce, buffer
      ensures Valid() && ok == (works && (lba + blocks) * BLOCK <= |old(card)|)
      ensures sent == (CommandFor(op, blocks), Argument(lba))
      ensures ok ==> Moved(op, old(card), old(buffer[..]), card, buffer[..], lba, offset, blocks * BLOCK)
      ensures !ok ==> card == old(card) && buffer[..] == old(buffer[..])
    {
      ghost var was, held, given := bounce[..], card, buffer[..];
      ok := StartDma(lba, buffer, offset, blocks, op, works);
      assert buffer[..] == given;
      if ok {
        DmaMoves(op, held, was, given, lba, offset, blocks);
        if op.Read? {
          ReadBlockData(buffer, offset, blocks);
        } else {
          WriteBlockData(buffer, offset, blocks);
          assert buffer[..] == given;
        }
      }
    }

    method TransferFifo(lba: nat, buffer: array<byte>, offset: nat, op: Operation, works: bool) returns (ok: bool)
      requires Valid() && buffer != bounce && lba * BLOCK <= |card| && mode.Fifo? && offset + BLOCK <= buffer.Length
      modifies this`card, this`pending, this`sent, table.descs, bounce, buffer
      ensures Valid() && ok == (works && (lba + 1) * BLOCK <= |old(card)|)
      ensures sent == (CommandFor(op, 1), Argument(lba))
      ensures ok ==> Moved(op, old(card), old(buffer[..]), card, buffer[..], lba, offset, BLOCK)
      ensures !ok ==> card == old(card) && buffer[..] == old(buffer[..])
    {
      PositionOfArgument(lba);
      PrepareTransfer(buffer, offset, 1, op);
      ok := SendCommand(CommandFor(op, 1), Argument(lba), BLOCK, works);
      if ok {
        if op.Read? {
          ReadBlockData(buffer, offset, 1);
        } else {
          WriteBlockData(buffer, offset, 1);
        }
      }
    }

    /** One pass of a request: the next `n` bytes. */
    method Pass(buffer: array<byte>, at: nat, offset: nat, n: nat, op: Operation, works: bool, ghost r: Request,
        ghost p: Point) returns (ok: bool)
      requires Valid() && buffer != bounce && r.max == MaxPass() && r.op == op && r.size <= buffer.Length
      requires Going(r, p, card, buffer[..]) && 0 < p.remaining && n == PassSize(p.remaining, r.max)
      requires p.at == at && p.done == offset && works == (0 < p.left)
      modifies this`card, this`pending, this`sent, table.descs, bounce, buffer
      ensures Valid() && n <= p.remaining
      ensures if ok then 0 < p.left && Going(r, After(p, n), card, buffer[..])
              else Ended(r, false, p.done, Logged(p, n), card, buffer[..])
    {
      ghost var card1, buffer1 := card, buffer[..];
      PassIsWhole(r, p, n);
      ok := TransferBlock(at, buffer, offset, n / BLOCK, op, works);
      ghost var card2, buffer2 := card, buffer[..];
      PassResult(r, p, card1, buffer1, card2, buffer2, n, ok);
    }

    /**
     The transfer loop: chunks of up to 256 KB with the internal DMA, single blocks with the FIFO, until all is done or
     the transfer after `good` ones fails.
     */
    method TransferPasses(lba: nat, buffer: array<byte>, size: nat, op: Operation, good: nat, ghost r: Request)
      returns (ok: bool, ghost done: nat, ghost log: seq<Transfer>)
      requires Valid() && buffer != bounce && size % BLOCK == 0 && size <= buffer.Length && lba * BLOCK <= |card|
      requires r == Request(op, card, buffer[..], lba, size, MaxPass(), good)
      modifies this`card, this`pending, this`sent, table.descs, bounce, buffer
      ensures Valid() && Ended(r, ok, done, log, card, buffer[..])
    {
      var remaining: nat, at: nat, left: nat := size, lba, good;
      ghost var p, now := Point(lba, 0, size, good, []), buffer[..];
      ok := true;
      GoingStart(r);
      while remaining > 0
        invariant Valid() && ok && Going(r, p, card, now) && now == buffer[..]
        invariant p.at == at && p.remaining == remaining && p.done == size - remaining && p.left == left
      {
        var n := PassSize(remaining, MaxPass());
        ok := Pass(buffer, at, size - remaining, n, op, 0 < left, r, p);
        now := buffer[..];
        if !ok {
          done, log := p.done, Logged(p, n);
          return;
        }
        p := After(p, n);
        remaining, at, left := remaining - n, at + n / BLOCK, left - 1;
      }
      GoingDone(r, p, card, now);
      done, log := size, p.log;
    }

    // The block device.

    /** The driver's view of the medium, once a card has been detected. */
    ghost predicate Detected()
      reads this
    {
      cardInit && !mediaChange ==> (lastBlock + 1) * BLOCK <= |card|
    }

    /** Finds the card; the last block is known only when that succeeds. */
    method DetectCard(found: bool)
      requires BLOCK <= |card|
      modifies this`mediaChange, this`cardInit, this`lastBlock
      ensures !mediaChange && cardInit == found
      ensures Detected() && (found ==> lastBlock == |card| / BLOCK - 1)
    {
      mediaChange, cardInit := false, true;
      if found {
        lastBlock := |card| / BLOCK - 1;
      } else {
        cardInit := false;
      }
    }

    /** Carries an accepted request out as far as the card and its working transfers allow. */
    method Carry(lba: nat, buffer: array<byte>, size: nat, op: Operation, good: nat) returns (ok: bool, ghost done: nat)
      requires Valid() && buffer != bounce && size % 512 == 0 && size <= buffer.Length && lba * BLOCK <= |card|
      modifies this`card, this`pending, this`sent, table.descs, bounce, buffer
      ensures Valid() && |card| == |old(card)| && done == Carried(|old(card)|, lba, size, MaxPass(), good)
      ensures Moved(op, old(card), old(buffer[..]), card, buffer[..], lba, 0, done)
      ensures (ok <==> lba * 512 + size <= |old(card)|
                       && (if mode.Idma? then (size + 0x3FFFF) / 0x40000 else size / 512) <= good)
      ensures ok ==> done == size
    {
      PassCount(lba, 0, size, MaxPass());
      ghost var log;
      ok, done, log := TransferPasses(lba, buffer, size, op, good, Request(op, card, buffer[..], lba, size, MaxPass(), good));
    }

    /** Reads or writes `size` bytes from block `lba` on. */
    method SdReadWrite(lba: nat, buffer: array?<byte>, size: nat, op: Operation, found: bool, good: nat)
      returns (status: Status, ghost done: nat)
      requires Valid() && Detected() && BLOCK <= |card|
      requires buffer != null ==> buffer != bounce && size <= buffer.Length
      modifies this, table.descs, bounce, buffer
      ensures Valid() && Detected() && !mediaChange && cardInit == if old(mediaChange) then found else old(cardInit)
      ensures old(mediaChange) && !found ==> status == NoMedia
      ensures !old(mediaChange) && !old(cardInit) ==> status == Timeout
      ensures !old(mediaChange) ==> lastBlock == old(lastBlock)
      ensures old(mediaChange) && found ==> lastBlock == |old(card)| / 512 - 1
      ensures cardInit ==> (status == InvalidParameter <==> buffer == null || lba > lastBlock)
      ensures cardInit ==> (status == BadBufferSize <==> buffer != null && lba <= lastBlock && size % 512 != 0)
      ensures (cardInit && buffer != null && lba <= lastBlock && size % 512 == 0 ==>
                && (status == Success || status == DeviceError)
                && (status == Success <==>
                    lba * 512 + size <= |old(card)|
                    && (if mode.Idma? then (size + 0x3FFFF) / 0x40000 else size / 512) <= good))
      ensures (status != Success && status != DeviceError) ==> card == old(card) && done == 0
      ensures (status != Success && status != DeviceError && buffer != null) ==> buffer[..] == old(buffer[..])
      ensures (status == Success || status == DeviceError ==>
                && buffer != null && done == Carried(|old(card)|, lba, size, MaxPass(), good)
                && (status == Success ==> done == size)
                && Moved(op, old(card), old(buffer[..]), card, buffer[..], lba, 0, done))
    {
      done := 0;
      if mediaChange {
        DetectCard(found);
        if !found {
          return NoMedia, 0;
        }
      }
      if !cardInit {
        return Timeout, 0;
      }
      if buffer == null {
        return InvalidParameter, 0;
      }
      if lba > lastBlock {
        return InvalidParameter, 0;
      }
      if size % BLOCK != 0 {
        return BadBufferSize, 0;
      }
      var ok;
      ok, done := Carry(lba, buffer, size, op, good);
      status := if ok then Success else DeviceError;
    }

    function MaxPass(): (max: nat)
      ensures max > 0
    {
      if mode.Idma? then MAX_TRANSFER else BLOCK
    }
  }

  /**
   A run: data written and then read back from the same place.  When both requests succeed, whatever the mode, the
   chunks and the addressing, the data comes back and no block outside the range has changed.
   */
  method WriteAndReadBack(d: Driver, lba: nat, data: array<byte>, into: array<byte>, size: nat, good: nat, good': nat)
    returns (written: Status, read: Status)
    requires d.Valid() && d.Detected() && BLOCK <= |d.card| && d.cardInit && !d.mediaChange
    requires data != into && data != d.bounce && into != d.bounce && size <= data.Length && size <= into.Length
    modifies d, d.table.descs, d.bounce, data, into
    ensures d.Valid() && data[..] == old(data[..])
    ensures (written.Success? <==>
              && lba <= old(d.lastBlock) && size % 512 == 0 && lba * 512 + size <= |old(d.card)|
              && (if d.mode.Idma? then (size + 0x3FFFF) / 0x40000 else size / 512) <= good)
    ensures (read.Success? <==>
              && lba <= old(d.lastBlock) && size % 512 == 0 && lba * 512 + size <= |old(d.card)|
              && (if d.mode.Idma? then (size + 0x3FFFF) / 0x40000 else size / 512) <= good')
    ensures written.Success? && read.Success? ==> into[..size] == data[..size]
    ensures written.Success? ==> SameOutside(old(d.card), d.card, lba, size / BLOCK)
  {
    ghost var held, given, space := d.card, data[..], into[..];
    ghost var done;
    written, done := d.SdReadWrite(lba, data, size, Write, true, good);
    ghost var card1 := d.card;
    assert into[..] == space && data[..] == given;
    read, done := d.SdReadWrite(lba, into, size, Read, true, good');
    assert d.card == card1 && data[..] == given;
    if written.Success? {
      OtherBlocksKept(held, given, card1, lba, size);
      if read.Success? {
        WriteThenRead(held, given, card1, space, d.card, into[..], lba, size);
      }
    }
  }
}
