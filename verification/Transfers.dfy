/** transfer_init: one transfer's worth of software descriptors written into an engine's ring. */
module Transfers {
  import opened Words
  import opened Arithmetic
  import opened EngineSpec
  import opened Descriptors
  import opened Requests

  /** The descriptor side of `struct xdma_engine`. */
  class DescRing {
    const dir: Direction
    const nonIncrAddr: bool
    const desc: array<Desc>
    const descBus: nat
    var descIdx: nat
    var descUsed: int

    constructor (dir: Direction, nonIncrAddr: bool, desc: array<Desc>, descBus: nat)
      requires desc.Length > 0
      ensures Valid() && this.desc == desc && descIdx == 0 && descUsed == 0
      ensures this.dir == dir && this.nonIncrAddr == nonIncrAddr && this.descBus == descBus
    {
      this.dir, this.nonIncrAddr, this.desc, this.descBus := dir, nonIncrAddr, desc, descBus;
      descIdx, descUsed := 0, 0;
    }

    ghost predicate Valid()
      reads this
    {
      descIdx < desc.Length
    }
  }

  /** What transfer_init fills in `struct xdma_transfer`. */
  datatype Transfer = Transfer(descIndex: nat, descNum: nat, descBus: nat, len: nat)

  /** Descriptors given to the next transfer: never past the end of the ring. */
  function PieceCount(left: nat, idx: nat, max: nat): (n: nat)
    requires idx < max
    ensures n <= left && idx + n <= max
    ensures left > 0 ==> n > 0
  {
    var n := if left <= max then left else max;
    if idx + n >= max then max - idx else n
  }

  /** The ring index after n more descriptors. */
  function Advance(idx: nat, n: nat, max: nat): (r: nat)
    requires max > 0
    ensures r < max
  {
    (idx + n) % max
  }

  lemma AdvanceAdd(a: nat, m: nat, n: nat, max: nat)
    requires max > 0
    ensures Advance(Advance(a, m, max), n, max) == Advance(a, m + n, max)
  {
    ModAdd(a + m, n, max);
  }

  /** The endpoint address after len bytes: unchanged in non-incremental mode, else a u64 sum. */
  function EpAfter(ep: nat, len: nat, nonIncr: bool): nat {
    if nonIncr then ep else (ep + len) % U64
  }

  // ----- The steps on one descriptor -----

  function Linked(d: Desc, i: nat, n: nat, bus: nat): Desc {
    var next := if i < n - 1 then bus + DESC_SIZE * (i + 1) else 0;
    d.(nextLo := Lo(next), nextHi := Hi(next), bytes := 0, control := DESC_MAGIC)
  }

  /** xdma_desc_set. */
  function Filled(d: Desc, p: Piece, ep: nat, dir: Direction): Desc {
    match dir
    case ToDevice =>
      d.(bytes := p.len, srcLo := Lo(p.addr), srcHi := Hi(p.addr), dstLo := Lo(ep), dstHi := Hi(ep))
    case FromDevice =>
      d.(bytes := p.len, srcLo := Lo(ep), srcHi := Hi(ep), dstLo := Lo(p.addr), dstHi := Hi(p.addr))
  }

  /** Descriptor j of the pieces ps, when the first byte goes to or comes from ep. */
  function FilledAt(d: Desc, ps: seq<Piece>, j: nat, ep: nat, nonIncr: bool, dir: Direction): Desc
    requires j < |ps|
  {
    Filled(d, ps[j], EpAfter(ep, TotalLen(ps[..j]), nonIncr), dir)
  }

  const LAST_CONTROL: bv32 := XDMA_DESC_STOPPED | XDMA_DESC_EOP | XDMA_DESC_COMPLETED

  function Flagged(d: Desc, last: bool): Desc {
    if last then d.(control := SetControl(d.control, LAST_CONTROL)) else d
  }

  function Counted(d: Desc, i: nat, n: nat): Desc
    requires i < n
  {
    d.(control := SetAdjacent(d.control, AdjacentWord(NextAdj(n - i - 1, d.nextLo))))
  }

  /** Descriptor i of a transfer for the pieces ps, as the driver leaves it. */
  function Finished(d: Desc, i: nat, ps: seq<Piece>, bus: nat, ep: nat, nonIncr: bool, dir: Direction): Desc
    requires i < |ps|
  {
    var n := |ps|;
    Counted(Flagged(FilledAt(Linked(d, i, n, bus), ps, i, ep, nonIncr, dir), i == n - 1), i, n)
  }

  lemma EpAfterNothing(ep: nat, ps: seq<Piece>, nonIncr: bool)
    requires ep < U64
    ensures TotalLen(ps[..0]) == 0 && W(0) == 0 && EpAfter(ep, 0, nonIncr) == ep
  {
  }

  lemma FilledAtIs(d: Desc, ps: seq<Piece>, j: nat, ep: nat, nonIncr: bool, dir: Direction)
    requires j < |ps|
    ensures FilledAt(d, ps, j, ep, nonIncr, dir)
         == Filled(d, ps[j], EpAfter(ep, TotalLen(ps[..j]), nonIncr), dir)
  {
  }

  lemma EpAfterSum(ep: nat, a: nat, b: nat, nonIncr: bool)
    ensures EpAfter(EpAfter(ep, a, nonIncr), b, nonIncr) == EpAfter(ep, a + b, nonIncr)
  {
  }

  lemma EpAfterPiece(ep: nat, ps: seq<Piece>, i: nat, nonIncr: bool)
    requires i < |ps|
    ensures TotalLen(ps[..i + 1]) == TotalLen(ps[..i]) + ps[i].len
    ensures var here := EpAfter(ep, TotalLen(ps[..i]), nonIncr);
      EpAfter(ep, TotalLen(ps[..i + 1]), nonIncr) == if nonIncr then here else (here + ps[i].len) % U64
  {
    assert ps[..i + 1][..i] == ps[..i] && ps[..i + 1][i] == ps[i];
    BytesSnoc(ps[..i + 1]);
    EpAfterSum(ep, TotalLen(ps[..i]), ps[i].len, nonIncr);
    hide TotalLen, Bytes;
  }

  // ----- The loops -----

  method TransferDescInit(desc: array<Desc>, first: nat, count: nat, bus: nat)
    requires 0 < count && first + count <= desc.Length
    modifies desc
    ensures forall k :: first <= k < first + count ==> desc[k] == Linked(old(desc[k]), k - first, count, bus)
    ensures forall k :: 0 <= k < desc.Length && !(first <= k < first + count) ==> desc[k] == old(desc[k])
  {
    var i, descBus := 0, bus;
    while i < count - 1
      invariant 0 <= i <= count - 1 && descBus == bus + DESC_SIZE * i
      invariant forall k :: first <= k < first + i ==> desc[k] == Linked(old(desc[k]), k - first, count, bus)
      invariant forall k :: 0 <= k < desc.Length && !(first <= k < first + i) ==> desc[k] == old(desc[k])
    {
      descBus := descBus + DESC_SIZE;
      desc[first + i] := desc[first + i].(nextLo := Lo(descBus), nextHi := Hi(descBus), bytes := 0,
                                          control := DESC_MAGIC);
      i := i + 1;
    }
    desc[first + i] := desc[first + i].(nextLo := 0, nextHi := 0, bytes := 0, control := DESC_MAGIC);
  }

  method TransferBuild(ring: DescRing, req: XdmaRequest, first: nat, descMax: nat) returns (len: nat)
    requires first + descMax <= ring.desc.Length
    requires req.swDescIdx + descMax <= req.sdesc.Length
    requires req.epAddr < U64
    modifies ring.desc, req`epAddr, req`swDescIdx
    ensures var ps := old(req.sdesc[req.swDescIdx..req.swDescIdx + descMax]);
      && len == W(TotalLen(ps))
      && req.swDescIdx == old(req.swDescIdx) + descMax
      && req.epAddr == EpAfter(old(req.epAddr), TotalLen(ps), ring.nonIncrAddr)
      && forall k :: first <= k < first + descMax ==>
           ring.desc[k] == FilledAt(old(ring.desc[k]), ps, k - first, old(req.epAddr), ring.nonIncrAddr, ring.dir)
    ensures forall k :: 0 <= k < ring.desc.Length && !(first <= k < first + descMax) ==>
      ring.desc[k] == old(ring.desc[k])
  {
    hide Filled, FilledAt, EpAfter, TotalLen, W;
    ghost var ps := req.sdesc[req.swDescIdx..req.swDescIdx + descMax];
    EpAfterNothing(req.epAddr, ps, ring.nonIncrAddr);
    var i := 0;
    len := 0;
    while i < descMax
      invariant 0 <= i <= descMax
      invariant req.swDescIdx == old(req.swDescIdx)
      invariant len == W(TotalLen(ps[..i]))
      invariant req.epAddr == EpAfter(old(req.epAddr), TotalLen(ps[..i]), ring.nonIncrAddr)
      invariant forall k :: first <= k < first + i ==>
        ring.desc[k] == FilledAt(old(ring.desc[k]), ps, k - first, old(req.epAddr), ring.nonIncrAddr, ring.dir)
      invariant forall k :: 0 <= k < ring.desc.Length && !(first <= k < first + i) ==>
        ring.desc[k] == old(ring.desc[k])
    {
      var sdesc := req.sdesc[req.swDescIdx + i];
      assert sdesc == ps[i];
      FilledAtIs(ring.desc[first + i], ps, i, old(req.epAddr), ring.nonIncrAddr, ring.dir);
      ring.desc[first + i] := Filled(ring.desc[first + i], sdesc, req.epAddr, ring.dir);
      len := W(len + sdesc.len);
      if !ring.nonIncrAddr {
        req.epAddr := (req.epAddr + sdesc.len) % U64;
      }
      EpAfterPiece(old(req.epAddr), ps, i, ring.nonIncrAddr);
      WAdd(TotalLen(ps[..i]), ps[i].len);
      i := i + 1;
    }
    assert ps[..descMax] == ps;
    req.swDescIdx := req.swDescIdx + descMax;
  }

  /** The last loop of transfer_init: prefetch counts from each descriptor's own next pointer. */
  method FillAdjacent(desc: array<Desc>, first: nat, count: nat)
    requires first + count <= desc.Length
    modifies desc
    ensures forall k :: first <= k < first + count ==> desc[k] == Counted(old(desc[k]), k - first, count)
    ensures forall k :: 0 <= k < desc.Length && !(first <= k < first + count) ==> desc[k] == old(desc[k])
  {
    for i := 0 to count
      invariant forall k :: first <= k < first + i ==> desc[k] == Counted(old(desc[k]), k - first, count)
      invariant forall k :: 0 <= k < desc.Length && !(first <= k < first + i) ==> desc[k] == old(desc[k])
    {
      var nextAdj := NextAdj(count - i - 1, desc[first + i].nextLo);
      desc[first + i] := desc[first + i].(
        control := SetAdjacent(desc[first + i].control, AdjacentWord(nextAdj)));
    }
  }

  /** Linking, filling and the flags of the last descriptor. */
  method FillTransfer(ring: DescRing, req: XdmaRequest, first: nat, n: nat, bus: nat) returns (len: nat)
    requires 0 < n && first + n <= ring.desc.Length
    requires req.swDescIdx + n <= req.sdesc.Length
    requires req.epAddr < U64
    modifies ring.desc, req`epAddr, req`swDescIdx
    ensures req.swDescIdx == old(req.swDescIdx) + n
    ensures var ps := old(req.sdesc[req.swDescIdx..req.swDescIdx + n]);
      && len == W(TotalLen(ps))
      && req.epAddr == EpAfter(old(req.epAddr), TotalLen(ps), ring.nonIncrAddr)
      && forall k :: first <= k < first + n ==>
           ring.desc[k] == Flagged(FilledAt(Linked(old(ring.desc[k]), k - first, n, bus), ps, k - first,
                                            old(req.epAddr), ring.nonIncrAddr, ring.dir), k - first == n - 1)
    ensures forall k | 0 <= k < ring.desc.Length && !(first <= k < first + n) ::
              ring.desc[k] == old(ring.desc[k])
  {
    hide Linked, FilledAt, EpAfter, SetControl, TotalLen;
    TransferDescInit(ring.desc, first, n, bus);
    len := TransferBuild(ring, req, first, n);
    var last := first + n - 1;
    ring.desc[last] := ring.desc[last].(control := SetControl(ring.desc[last].control, LAST_CONTROL));
  }

  /** transfer_init: the transfer takes the next free descriptors up to the end of the ring. */
  method TransferInit(ring: DescRing, req: XdmaRequest) returns (xfer: Transfer)
    requires ring.Valid()
    requires req.swDescIdx < req.swDescCnt <= req.sdesc.Length
    requires req.epAddr < U64
    modifies ring`descIdx, ring`descUsed, ring.desc, req`epAddr, req`swDescIdx
    ensures ring.Valid()
    ensures var n := PieceCount(old(req.swDescCnt - req.swDescIdx), old(ring.descIdx), ring.desc.Length);
      && xfer.descIndex == old(ring.descIdx) && xfer.descNum == n
      && xfer.descBus == ring.descBus + DESC_SIZE * xfer.descIndex
      && ring.descIdx == Advance(old(ring.descIdx), n, ring.desc.Length)
      && ring.descUsed == old(ring.descUsed) + n
      && req.swDescIdx == old(req.swDescIdx) + n
    ensures var ps := old(req.sdesc[req.swDescIdx..])[..xfer.descNum];
      && xfer.len == W(TotalLen(ps))
      && req.epAddr == EpAfter(old(req.epAddr), TotalLen(ps), ring.nonIncrAddr)
      && (forall k :: xfer.descIndex <= k < xfer.descIndex + xfer.descNum ==>
            ring.desc[k] == Finished(old(ring.desc[k]), k - xfer.descIndex, ps, xfer.descBus,
                                     old(req.epAddr), ring.nonIncrAddr, ring.dir))
    ensures forall k | 0 <= k < ring.desc.Length && !(0 <= k - xfer.descIndex < xfer.descNum) ::
              ring.desc[k] == old(ring.desc[k])
  {
    var left := req.swDescCnt - req.swDescIdx;
    var descMax := if left <= ring.desc.Length then left else ring.desc.Length;
    var first := ring.descIdx;
    var bus := ring.descBus + DESC_SIZE * first;
    if first + descMax >= ring.desc.Length {
      descMax := ring.desc.Length - first;
    }
    hide Linked, FilledAt, Flagged, Counted, EpAfter, TotalLen, W, Advance;
    assert req.sdesc[req.swDescIdx..][..descMax] == req.sdesc[req.swDescIdx..req.swDescIdx + descMax];
    var len := FillTransfer(ring, req, first, descMax, bus);
    ring.descIdx := Advance(first, descMax, ring.desc.Length);
    ring.descUsed := ring.descUsed + descMax;
    FillAdjacent(ring.desc, first, descMax);
    xfer := Transfer(first, descMax, bus, len);
  }

  const ZERO_DESC := Desc(0, 0, 0, 0, 0, 0, 0, 0)

  /** transfer_destroy and the release of the transfer's descriptors. */
  method ReleaseTransfer(ring: DescRing, xfer: Transfer)
    requires ring.Valid() && xfer.descIndex + xfer.descNum <= ring.desc.Length
    modifies ring`descUsed, ring.desc
    ensures ring.Valid() && ring.descUsed == old(ring.descUsed) - xfer.descNum
    ensures forall k :: xfer.descIndex <= k < xfer.descIndex + xfer.descNum ==> ring.desc[k] == ZERO_DESC
    ensures forall k | 0 <= k < ring.desc.Length && !(0 <= k - xfer.descIndex < xfer.descNum) ::
              ring.desc[k] == old(ring.desc[k])
  {
    ring.descUsed := ring.descUsed - xfer.descNum;
    for i := xfer.descIndex to xfer.descIndex + xfer.descNum
      invariant ring.Valid() && ring.descUsed == old(ring.descUsed) - xfer.descNum
      invariant forall k :: xfer.descIndex <= k < i ==> ring.desc[k] == ZERO_DESC
      invariant forall k | 0 <= k < ring.desc.Length && !(xfer.descIndex <= k < i) :: ring.desc[k] == old(ring.desc[k])
    {
      ring.desc[i] := ZERO_DESC;
    }
  }

  // ----- What the finished descriptors say -----

  /** One contiguous copy between host memory and the device. */
  datatype Copy = Copy(host: nat, dev: nat, len: nat)

  function CopyOf(d: Desc, dir: Direction): Copy {
    var src, dst := Address(d.srcLo, d.srcHi), Address(d.dstLo, d.dstHi);
    match dir
    case ToDevice => Copy(src, dst, d.bytes)
    case FromDevice => Copy(dst, src, d.bytes)
  }

  /** The copies that move the pieces ps in order, the first byte to or from ep. */
  function Copies(ps: seq<Piece>, ep: nat, nonIncr: bool): (r: seq<Copy>)
    ensures |r| == |ps|
    ensures forall i :: 0 <= i < |ps| ==>
      r[i] == Copy(ps[i].addr, EpAfter(ep, TotalLen(ps[..i]), nonIncr), ps[i].len)
  {
    seq(|ps|, i requires 0 <= i < |ps| => Copy(ps[i].addr, EpAfter(ep, TotalLen(ps[..i]), nonIncr), ps[i].len))
  }

  lemma AddressOfHalves(a: nat)
    ensures Address(Lo(a), Hi(a)) == a
  {
  }

  /** The finished descriptor carries the copy it was built for. */
  lemma FinishedCopies(d: Desc, i: nat, ps: seq<Piece>, bus: nat, ep: nat, nonIncr: bool, dir: Direction)
    requires i < |ps|
    ensures CopyOf(Finished(d, i, ps, bus, ep, nonIncr, dir), dir)
         == Copy(ps[i].addr, EpAfter(ep, TotalLen(ps[..i]), nonIncr), ps[i].len)
  {
    hide Address, Lo, Hi, EpAfter, TotalLen, SetAdjacent, SetControl, NextAdj, AdjacentWord;
    AddressOfHalves(ps[i].addr);
    AddressOfHalves(EpAfter(ep, TotalLen(ps[..i]), nonIncr));
  }

  lemma FlaggedWord(last: bool)
    ensures var w := if last then SetControl(DESC_MAGIC, LAST_CONTROL) else DESC_MAGIC;
      Fresh(w) && (StopFlag(w) <==> last)
  {
  }

  lemma StopFlagIsFlag(v: bv32, w: bv32)
    requires FlagsOf(v) == FlagsOf(w)
    ensures StopFlag(v) <==> StopFlag(w)
  {
    assert v & XDMA_DESC_STOPPED == FlagsOf(v) & XDMA_DESC_STOPPED;
    assert w & XDMA_DESC_STOPPED == FlagsOf(w) & XDMA_DESC_STOPPED;
  }

  /** A descriptor linked and flagged for place i of n, once counted, is what a chain needs there. */
  lemma CountedChainedAt(d: Desc, i: nat, n: nat, bus: nat)
    requires i < n
    requires var next := if i < n - 1 then bus + DESC_SIZE * (i + 1) else 0;
      d.nextLo == Lo(next) && d.nextHi == Hi(next)
    requires d.control == if i == n - 1 then SetControl(DESC_MAGIC, LAST_CONTROL) else DESC_MAGIC
    ensures ChainedAt(Counted(d, i, n), i, n, bus)
  {
    hide StopFlag, SetAdjacent, SetControl, MagicOf, AdjacentOf, NextAdj, FlagsOf, Fresh, AdjacentBits,
         Address, Lo, Hi, AdjacentWord;
    var next := if i < n - 1 then bus + DESC_SIZE * (i + 1) else 0;
    var adj := NextAdj(n - i - 1, Lo(next));
    AddressOfHalves(next);
    FlaggedWord(i == n - 1);
    AdjacentWordReadsBack(adj);
    SetAdjacentReadsBackIff(d.control, AdjacentWord(adj));
    SetAdjacentOnFresh(d.control, adj);
    StopFlagIsFlag(d.control, SetAdjacent(d.control, AdjacentWord(adj)));
    LoZero();
  }

  /** The finished descriptor is linked, counted and flagged as a chain needs it. */
  lemma FinishedChainedAt(d: Desc, i: nat, ps: seq<Piece>, bus: nat, ep: nat, nonIncr: bool, dir: Direction)
    requires i < |ps|
    ensures ChainedAt(Finished(d, i, ps, bus, ep, nonIncr, dir), i, |ps|, bus)
  {
    hide SetControl, EpAfter, TotalLen, Lo, Hi, Counted, ChainedAt;
    var n := |ps|;
    CountedChainedAt(Flagged(FilledAt(Linked(d, i, n, bus), ps, i, ep, nonIncr, dir), i == n - 1), i, n, bus);
  }

  lemma LoZero()
    ensures Lo(0) == 0
  {
  }
}
