/** xdma_xfer_submit_nowait: an asynchronous request puts all its transfers into the ring and on the
    engine's queue before any of them completes. */
module SubmitNowait {
  import opened Words
  import opened Errno
  import opened Arithmetic
  import opened EngineSpec
  import opened Xdma
  import opened EngineService
  import opened EngineWait
  import opened Descriptors
  import opened Requests
  import opened Transfers
  import opened Copying
  import opened Submit

  // ----- On the queue -----

  /** The queue entries of a request's transfers, the first with the given ticket. `complete` says
      that the last of them ends the request. */
  function Entries(rounds: seq<Round>, ticket: nat, complete: bool): (r: seq<Xfer>)
    ensures |r| == |rounds|
  {
    seq(|rounds|, i requires 0 <= i < |rounds| =>
      Xfer(ticket + i, rounds[i].xfer.descNum, Submitted, 0, true, complete && i == |rounds| - 1))
  }

  /** s is s0 with the transfers queued behind what was there, and the engine runs if there are any. */
  ghost predicate QueuedBehind(s0: EngineState, s: EngineState, rounds: seq<Round>, complete: bool) {
    && s.queue == s0.queue + Entries(rounds, |s0.accepted|, complete)
    && s.accepted == s0.accepted + Entries(rounds, |s0.accepted|, complete)
    && s.retired == s0.retired && s.wakeups == s0.wakeups && s.callbacks == s0.callbacks
    && s.offline == s0.offline && s.shutdownRequest == s0.shutdownRequest
    && s.dir == s0.dir
    && (s.running <==> s0.running || rounds != [])
  }

  lemma NoneQueued(s: EngineState, complete: bool)
    ensures QueuedBehind(s, s, [], complete)
  {
    assert s.queue + [] == s.queue;
    assert s.accepted + [] == s.accepted;
  }

  lemma OneMoreQueued(s0: EngineState, s: EngineState, rounds: seq<Round>, r: Round, last: bool, x: Xfer, hw: Hw)
    requires QueuedBehind(s0, s, rounds, false) && Accepts(s, x)
    requires x.descNum == r.xfer.descNum && x.descCmpl == 0 && x.hasCallback && x.lastInRequest == last
    ensures QueuedBehind(s0, Enqueue(s, x, hw), rounds + [r], last)
  {
    var y := x.(state := Submitted, ticket := |s.accepted|);
    var t := |s0.accepted|;
    assert Entries(rounds + [r], t, last) == Entries(rounds, t, false) + [y];
    assert s.queue + [y] == s0.queue + Entries(rounds + [r], t, last);
    assert s.accepted + [y] == s0.accepted + Entries(rounds + [r], t, last);
  }

  // ----- In the ring -----

  /** The ring still holds the descriptors of every round. */
  ghost predicate StillHolds(ring: DescRing, rounds: seq<Round>)
    reads ring.desc
  {
    forall i :: 0 <= i < |rounds| ==> HoldsRound(ring, rounds[i])
  }

  predicate HoldsRound(ring: DescRing, r: Round)
    reads ring.desc
  {
    && r.xfer.descIndex + r.xfer.descNum <= ring.desc.Length
    && ring.desc[r.xfer.descIndex..r.xfer.descIndex + r.xfer.descNum] == r.descs
  }

  /** Of a request of at most a lap: if transfers remain to be built after the first, that one took
      the ring from `idx` to its end, and the rest fits below `idx`. */
  predicate FirstLap(rounds: seq<Round>, idx: nat, left: nat, next: nat) {
    if rounds == [] then next == idx
    else left > 0 ==> |rounds| == 1 && rounds[0].xfer.descIndex == idx && next == 0 && left <= idx
  }

  lemma LapStep(rounds: seq<Round>, r: Round, idx: nat, left: nat, next: nat, max: nat)
    requires idx < max && next < max && 0 < left <= max && |rounds| <= 1
    requires FirstLap(rounds, idx, left, next) && r.xfer.descIndex == next
    ensures var n := PieceCount(left, next, max);
      FirstLap(rounds + [r], idx, left - n, Advance(next, n, max))
  {
    ModUnique(max, max, 1, 0);
  }

  lemma NeedStep(left: nat, idx: nat, max: nat)
    requires idx < max && left > 0
    ensures var n := PieceCount(left, idx, max);
      TransfersNeeded(left, idx, max) == 1 + TransfersNeeded(left - n, Advance(idx, n, max), max)
  {
  }

  lemma SliceKept(before: seq<Desc>, after: seq<Desc>, first: nat, n: nat, a: nat, b: nat)
    requires |before| == |after| && a <= b <= |after| && (first + n <= a || b <= first)
    requires forall k | 0 <= k < |after| && !(0 <= k - first < n) :: after[k] == before[k]
    ensures after[a..b] == before[a..b]
  {
  }

  // ----- The loop -----

  /** One transfer: built into the ring and put on the queue. */
  method NowaitRound(e: XdmaEngine, ring: DescRing, req: XdmaRequest, left: nat, hw: Hw,
                     ghost ps: seq<Piece>, ghost ep: nat, ghost rounds: seq<Round>)
    returns (xfer: Transfer, rv: int, ghost r: Round)
    requires e.Valid() && ring.Valid() && ring.descBus % DESC_SIZE == 0
    requires ep < U64
    requires At(req, ps, req.swDescIdx, ep, ring.nonIncrAddr, rounds, ring.dir)
    requires req.swDescIdx + left == |ps| && left > 0
    modifies e, ring`descIdx, ring`descUsed, ring.desc, req`epAddr, req`swDescIdx
    ensures e.Valid() && ring.Valid() && r.xfer == xfer && xfer.descIndex == old(ring.descIdx)
    ensures var n := PieceCount(left, old(ring.descIdx), ring.desc.Length);
      && xfer.descNum == n
      && ring.descIdx == Advance(old(ring.descIdx), n, ring.desc.Length)
      && ring.descUsed == old(ring.descUsed) + n
      && At(req, ps, old(req.swDescIdx) + n, ep, ring.nonIncrAddr, rounds + [r], ring.dir)
    ensures HoldsRound(ring, r)
    ensures forall k | 0 <= k < ring.desc.Length && !(0 <= k - xfer.descIndex < xfer.descNum) ::
              ring.desc[k] == old(ring.desc[k])
    ensures rv == if old(e.offline || e.shutdownRequest) then -EBUSY else 0
    ensures rv != 0 ==> e.model == old(e.model)
    ensures rv == 0 ==>
      var x := Xfer(0, xfer.descNum, New, 0, true, left == xfer.descNum);
      Accepts(old(e.model), x) && e.model == Enqueue(old(e.model), x, hw)
  {
    hide At, Advance, PieceCount, Distinct, Show, TotalLen;
    xfer, r := BuildNext(ring, req, ps, ep, rounds);
    var transfer := new XdmaTransfer(xfer.descNum, true, left - xfer.descNum == 0);
    rv := TransferQueue(e, transfer, hw);
  }

  /** The request with `left` pieces to go and the rounds behind it, in the ring and on the queue. */
  ghost predicate NowaitAt(e: XdmaEngine, ring: DescRing, req: XdmaRequest, s0: EngineState, idx: nat,
                           ps: seq<Piece>, ep: nat, left: nat, rounds: seq<Round>)
    reads e, e.history, ring, ring.desc, req, req.sdesc
  {
    && e.Valid() && ring.Valid() && left <= |ps| && idx < ring.desc.Length
    && At(req, ps, |ps| - left, ep, ring.nonIncrAddr, rounds, ring.dir)
    && QueuedBehind(s0, e.model, rounds, left == 0)
    && (|ps| <= ring.desc.Length ==> FirstLap(rounds, idx, left, ring.descIdx) && StillHolds(ring, rounds))
  }

  /** One more transfer; at most one is there already. */
  method QueueNext(e: XdmaEngine, ring: DescRing, req: XdmaRequest, left: nat, hw: Hw, ghost s0: EngineState,
                   ghost idx: nat, ghost ps: seq<Piece>, ghost ep: nat, ghost rounds: seq<Round>)
    returns (xfer: Transfer, rv: int, ghost r: Round)
    requires NowaitAt(e, ring, req, s0, idx, ps, ep, left, rounds)
    requires 0 < left && |rounds| <= 1 && ep < U64 && ring.descBus % DESC_SIZE == 0
    modifies e, ring`descIdx, ring`descUsed, ring.desc, req`epAddr, req`swDescIdx
    ensures e.Valid() && ring.Valid() && r.xfer == xfer
    ensures xfer.descNum == PieceCount(left, old(ring.descIdx), ring.desc.Length)
    ensures ring.descIdx == Advance(old(ring.descIdx), xfer.descNum, ring.desc.Length)
    ensures ring.descUsed == old(ring.descUsed) + xfer.descNum
    ensures rv == if s0.offline || s0.shutdownRequest then -EBUSY else 0
    ensures rv != 0 ==> e.model == old(e.model)
    ensures rv == 0 ==> NowaitAt(e, ring, req, s0, idx, ps, ep, left - xfer.descNum, rounds + [r])
  {
    hide At, Advance, PieceCount, Distinct, Show, QueuedBehind, Accepts, Enqueue, TotalLen;
    AtBounds(req, ps, |ps| - left, ep, ring.nonIncrAddr, rounds, ring.dir);
    QueuedFlags(s0, e.model, rounds, false);
    ghost var before, m := ring.desc[..], e.model;
    xfer, rv, r := NowaitRound(e, ring, req, left, hw, ps, ep, rounds);
    if rv < 0 {
      return;
    }
    OneMoreQueued(s0, m, rounds, r, left == xfer.descNum, Xfer(0, xfer.descNum, New, 0, true, left == xfer.descNum), hw);
    if |ps| <= ring.desc.Length {
      LapStep(rounds, r, idx, left, xfer.descIndex, ring.desc.Length);
      if rounds != [] {
        var a := rounds[0].xfer.descIndex;
        SliceKept(before, ring.desc[..], xfer.descIndex, xfer.descNum, a, a + rounds[0].xfer.descNum);
        assert HoldsRound(ring, rounds[0]);
      }
    }
  }

  /** The loop of xdma_xfer_submit_nowait over the transfers of a fresh request. A third transfer is
      written past the two-entry `tfer` array; the model ends there. */
  method QueueAll(e: XdmaEngine, ring: DescRing, req: XdmaRequest, tfer: array<Transfer>, hws: nat -> Hw,
                  ghost ps: seq<Piece>, ghost ep: nat)
    returns (end: CallEnd, ghost rounds: seq<Round>)
    requires e.Valid() && ring.Valid() && ring.descBus % DESC_SIZE == 0
    requires ep < U64 && At(req, ps, 0, ep, ring.nonIncrAddr, [], ring.dir)
    requires tfer.Length == 2
    modifies e, ring`descIdx, ring`descUsed, ring.desc, req`epAddr, req`swDescIdx, tfer
    ensures e.Valid() && ring.Valid()
    ensures if old(e.offline || e.shutdownRequest) && ps != [] then
        && end == Returned(-EBUSY) && e.model == old(e.model)
        && |rounds| == 1 && ring.descUsed == old(ring.descUsed) + rounds[0].xfer.descNum
      else if TransfersNeeded(|ps|, old(ring.descIdx), ring.desc.Length) > 2 then
        end == Overran
      else
        && end == Returned(-EIOCBQUEUED)
        && |rounds| == TransfersNeeded(|ps|, old(ring.descIdx), ring.desc.Length)
        && (forall i :: 0 <= i < |rounds| ==> tfer[i] == rounds[i].xfer)
        && NowaitAt(e, ring, req, old(e.model), old(ring.descIdx), ps, ep, 0, rounds)
        && ring.descUsed == old(ring.descUsed) + |ps|
  {
    hide NowaitAt, Advance, PieceCount, Distinct, Show, TransfersNeeded;
    rounds := [];
    ghost var s0, idx, max := e.model, ring.descIdx, ring.desc.Length;
    NowaitStart(e, ring, req, ps, ep);
    if |ps| > 0 { NeedStep(|ps|, idx, max); }
    var nents, tferIdx := req.swDescCnt, 0;
    while nents > 0
      invariant 0 <= nents <= |ps| && tferIdx == |rounds| <= 2
      invariant e.Valid() && ring.Valid() && NowaitAt(e, ring, req, s0, idx, ps, ep, nents, rounds)
      invariant |rounds| + TransfersNeeded(nents, ring.descIdx, max) == TransfersNeeded(|ps|, idx, max)
      invariant forall i :: 0 <= i < |rounds| ==> tfer[i] == rounds[i].xfer
      invariant ring.descUsed == old(ring.descUsed) + (|ps| - nents)
      invariant if rounds == [] then e.model == s0 && nents == |ps| else !s0.offline && !s0.shutdownRequest
      decreases nents
    {
      NeedStep(nents, ring.descIdx, max);
      if tferIdx == tfer.Length {
        return Overran, rounds;
      }
      var xfer, rv;
      ghost var r;
      xfer, rv, r := QueueNext(e, ring, req, nents, hws(tferIdx), s0, idx, ps, ep, rounds);
      if rv < 0 {
        return Returned(rv), [r];
      }
      tfer[tferIdx] := xfer;
      rounds := rounds + [r];
      nents := nents - xfer.descNum;
      tferIdx := tferIdx + 1;
    }
    NeedNone(ring.descIdx, max);
    end := Returned(-EIOCBQUEUED);
  }

  lemma NowaitStart(e: XdmaEngine, ring: DescRing, req: XdmaRequest, ps: seq<Piece>, ep: nat)
    requires e.Valid() && ring.Valid() && At(req, ps, 0, ep, ring.nonIncrAddr, [], ring.dir)
    ensures NowaitAt(e, ring, req, e.model, ring.descIdx, ps, ep, |ps|, [])
    ensures req.swDescCnt == |ps|
  {
    NoneQueued(e.model, ps == []);
  }

  lemma NeedNone(idx: nat, max: nat)
    requires idx < max
    ensures TransfersNeeded(0, idx, max) == 0
  {
  }

  lemma QueuedFlags(s0: EngineState, s: EngineState, rounds: seq<Round>, complete: bool)
    requires QueuedBehind(s0, s, rounds, complete)
    ensures s.offline == s0.offline && s.shutdownRequest == s0.shutdownRequest
  {
  }

  /** xdma_xfer_submit_nowait. Once the request is set up, either nothing is queued, and then the
      descriptors of the first transfer stay counted as used; or the request needs more transfers than
      its `tfer` array holds (`Submit.FitsTwoTransfersIff`) and overruns it; or all transfers are
      queued behind what was there, in order, only the last marked as ending the request, and the
      descriptors built for them copy the whole list, byte k to or from ep_addr + k, or in
      non-incremental mode ep_addr. With at most desc_max pieces the ring still holds all those descriptors when the call returns. */
  method XdmaXferSubmitNowait(e: XdmaEngine, ring: DescRing, tfer: array<Transfer>, write: bool, epAddr: nat,
                              sgs: seq<Piece>, descBlenMax: nat, hws: nat -> Hw)
    returns (end: CallEnd, ghost rounds: seq<Round>)
    requires e.Valid() && ring.Valid() && ring.descBus % DESC_SIZE == 0 && e.dir == ring.dir
    requires 0 < descBlenMax
    requires epAddr < U64 && TotalLen(sgs) < U32
    requires tfer.Length == 2
    modifies e, ring`descIdx, ring`descUsed, ring.desc, tfer
    ensures e.Valid() && ring.Valid()
    ensures old(e.offline) ==> end == Returned(-EBUSY)
    ensures !old(e.offline) && write != e.dir.ToDevice? ==> end == Returned(-EINVAL)
    ensures !old(e.offline) && write == e.dir.ToDevice? && sgs == [] ==> end == Returned(-EIO)
    ensures !old(e.offline) && write == e.dir.ToDevice? && sgs != [] ==>
      match InitEndOf(sgs, descBlenMax)
      case PastBlock => end == Overran
      case TooMany => end == Returned(-ENOMEM)
      case Ready => true
    ensures old(e.offline) || write != e.dir.ToDevice? || sgs == [] || InitEndOf(sgs, descBlenMax) != Ready ==>
      rounds == [] && e.model == old(e.model) && ring.descUsed == old(ring.descUsed)
    ensures !old(e.offline) && write == e.dir.ToDevice? && sgs != [] && InitEndOf(sgs, descBlenMax) == Ready ==>
      var ps := Split(sgs, descBlenMax);
      if old(e.shutdownRequest) && ps != [] then
        && end == Returned(-EBUSY) && e.model == old(e.model)
        && |rounds| == 1 && ring.descUsed == old(ring.descUsed) + rounds[0].xfer.descNum
      else if TransfersNeeded(|ps|, old(ring.descIdx), ring.desc.Length) > 2 then
        end == Overran
      else
        && end == Returned(-EIOCBQUEUED)
        && QueuedBehind(old(e.model), e.model, rounds, true)
        && |rounds| == TransfersNeeded(|ps|, old(ring.descIdx), ring.desc.Length)
        && (forall i :: 0 <= i < |rounds| ==> i < 2 && tfer[i] == rounds[i].xfer)
        && (forall r :: r in rounds ==> WellBuilt(r))
        && AllCopies(rounds, ring.dir) == Copies(ps, epAddr, ring.nonIncrAddr)
        && MovesFirst(AllCopies(rounds, ring.dir), sgs, |Bytes(sgs)|, epAddr, ring.nonIncrAddr)
        && ring.descUsed == old(ring.descUsed) + |ps|
        && (|ps| <= ring.desc.Length ==> StillHolds(ring, rounds))
  {
    hide Split, TotalLen, Copies, EngineCopies, EpAfter, WellBuilt, MovesFirst, Bytes, Distinct, Show,
         QueuedBehind, TransfersNeeded, FirstLap, StillHolds, InitEndOf, Slots;
    rounds := [];
    if e.offline {
      return Returned(-EBUSY), [];
    }
    if write != e.dir.ToDevice? {
      return Returned(-EINVAL), [];
    }
    if |sgs| == 0 {
      return Returned(-EIO), [];
    }
    var init, req := XdmaInitRequest(sgs, descBlenMax, epAddr);
    if init == PastBlock {
      return Overran, [];
    }
    if init == TooMany {
      return Returned(-ENOMEM), [];
    }
    ghost var ps := Split(sgs, descBlenMax);
    SplitTiles(sgs, descBlenMax);
    NoPieces(ps, epAddr, ring.nonIncrAddr);
    end, rounds := QueueAll(e, ring, req, tfer, hws, ps, epAddr);
    PrefixMovesStraight(sgs, descBlenMax, epAddr, |ps|, ring.nonIncrAddr);
    assert ps[..|ps|] == ps;
  }
}
