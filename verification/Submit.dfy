/** xdma_xfer_submit: the rounds that push one request through the ring and the engine, and what the
    engine copies as a result. */
module Submit {
  import opened Words
  import opened Errno
  import opened Arithmetic
  import opened EngineSpec
  import opened EngineAccounting
  import opened EngineRuns
  import opened Xdma
  import opened EngineWait
  import opened Descriptors
  import opened Requests
  import opened Transfers
  import opened Copying

  /** What the rounds come to: software descriptors programmed and completed, the last error and the
      engine. */
  datatype Progress = Progress(completed: nat, programmed: nat, rv: int, engine: EngineState)

  /** The transfer of a round that takes n of the `left` pieces still to go. */
  function RoundXfer(n: nat, left: nat): Xfer { Xfer(0, n, New, 0, false, n == left) }

  function Rounds(left: nat, idx: nat, max: nat, s: EngineState, inputs: nat -> WaitInput, round: nat): (p: Progress)
    requires idx < max
    ensures p.completed <= p.programmed <= left
    ensures p.rv == 0 <==> p.completed == left
    ensures p.rv == 0 ==> p.programmed == left
    decreases left
  {
    if left == 0 then Progress(0, 0, 0, s)
    else
      var n := PieceCount(left, idx, max);
      var (t, w) := Await(s, RoundXfer(n, left), inputs(round));
      if w == Ended(Completed) then
        var p := Rounds(left - n, Advance(idx, n, max), max, t, inputs, round + 1);
        Progress(n + p.completed, n + p.programmed, p.rv, p.engine)
      else Progress(0, n, ErrorOf(w), t)
  }

  /** p continues with q after m pieces that all completed. */
  predicate Continues(p: Progress, m: nat, q: Progress) {
    p == Progress(m + q.completed, m + q.programmed, q.rv, q.engine)
  }

  /** One round of `Rounds`, after m pieces that all completed. */
  lemma RoundsStep(p: Progress, m: nat, left: nat, idx: nat, max: nat, s: EngineState, inputs: nat -> WaitInput, round: nat)
    requires idx < max && left > 0
    requires Continues(p, m, Rounds(left, idx, max, s, inputs, round))
    ensures var n := PieceCount(left, idx, max);
      var (t, w) := Await(s, RoundXfer(n, left), inputs(round));
      if ErrorOf(w) == 0 then
        w != Refused
        && Continues(p, m + n, Rounds(left - n, Advance(idx, n, max), max, t, inputs, round + 1))
      else
        && ErrorOf(w) < 0
        && p == Progress(m, m + n, ErrorOf(w), t)
        && (p.rv == -EBUSY <==> w == Refused)
  {
    hide Await;
  }

  lemma RoundsDone(p: Progress, m: nat, idx: nat, max: nat, s: EngineState, inputs: nat -> WaitInput, round: nat)
    requires idx < max
    requires Continues(p, m, Rounds(0, idx, max, s, inputs, round))
    ensures p == Progress(m, m, 0, s)
  {
  }

  // ----- What the engine copies for a request -----

  /** A transfer built by transfer_init makes the engine copy its pieces. */
  lemma BuiltTransferCopies(
    olds: seq<Desc>, descs: seq<Desc>, ps: seq<Piece>, bus: nat, ep: nat, nonIncr: bool, dir: Direction)
    requires |olds| == |descs| == |ps| > 0 && bus % DESC_SIZE == 0
    requires forall i :: 0 <= i < |ps| ==> descs[i] == Finished(olds[i], i, ps, bus, ep, nonIncr, dir)
    ensures Chained(descs, bus)
    ensures EngineCopies(descs, bus, dir) == Copies(ps, ep, nonIncr)
  {
    hide Finished, EngineCopies, CopyOf, ChainedAt, EpAfter;
    forall i | 0 <= i < |ps|
      ensures ChainedAt(descs[i], i, |ps|, bus)
      ensures CopyOf(descs[i], dir) == Copies(ps, ep, nonIncr)[i]
    {
      FinishedChainedAt(olds[i], i, ps, bus, ep, nonIncr, dir);
      FinishedCopies(olds[i], i, ps, bus, ep, nonIncr, dir);
    }
    assert Chained(descs, bus);
    EngineCopiesChain(descs, bus, dir);
  }

  lemma CopyAtConcat(a: seq<Piece>, b: seq<Piece>, ep: nat, nonIncr: bool, i: nat)
    requires i < |a + b|
    ensures Copies(a + b, ep, nonIncr)[i]
         == if i < |a| then Copies(a, ep, nonIncr)[i]
            else Copies(b, EpAfter(ep, TotalLen(a), nonIncr), nonIncr)[i - |a|]
  {
    hide EpAfter, TotalLen, Bytes, Copies;
    TakeConcat(a, b, i);
    if i >= |a| {
      BytesConcat(a, b[..i - |a|]);
      EpAfterSum(ep, TotalLen(a), TotalLen(b[..i - |a|]), nonIncr);
    }
  }

  lemma CopiesConcat(a: seq<Piece>, b: seq<Piece>, ep: nat, nonIncr: bool)
    ensures Copies(a + b, ep, nonIncr)
         == Copies(a, ep, nonIncr) + Copies(b, EpAfter(ep, TotalLen(a), nonIncr), nonIncr)
  {
    hide EpAfter, TotalLen, Copies;
    var l, r := Copies(a + b, ep, nonIncr), Copies(a, ep, nonIncr) + Copies(b, EpAfter(ep, TotalLen(a), nonIncr), nonIncr);
    forall i | 0 <= i < |l| ensures l[i] == r[i] {
      CopyAtConcat(a, b, ep, nonIncr, i);
    }
  }

  // ----- Byte for byte -----

  /** Byte k of the list against device address ep + k; in non-incremental mode all against ep. */
  function Straight(hosts: seq<nat>, ep: nat, nonIncr: bool): (r: seq<(nat, nat)>)
    ensures |r| == |hosts|
    ensures forall k :: 0 <= k < |hosts| ==> r[k] == (hosts[k], (ep + if nonIncr then 0 else k) % U64)
  {
    seq(|hosts|, k requires 0 <= k < |hosts| => (hosts[k], (ep + if nonIncr then 0 else k) % U64))
  }

  /** The copies move exactly the first len bytes of the list, in order, from device address ep on, or
      in non-incremental mode all through it. */
  ghost predicate MovesFirst(cs: seq<Copy>, sgs: seq<Piece>, len: nat, ep: nat, nonIncr: bool) {
    len <= |Bytes(sgs)| && Moves(cs, nonIncr) == Straight(Bytes(sgs)[..len], ep, nonIncr)
  }

  lemma {:induction false} CopiesMoveStraight(ps: seq<Piece>, ep: nat, nonIncr: bool)
    ensures Moves(Copies(ps, ep, nonIncr), nonIncr) == Straight(Bytes(ps), ep, nonIncr)
    decreases |ps|
  {
    if ps == [] {
      assert Copies(ps, ep, nonIncr) == [];
    } else {
      var n := |ps| - 1;
      var cs := Copies(ps, ep, nonIncr);
      forall i | 0 <= i < n ensures cs[..n][i] == Copies(ps[..n], ep, nonIncr)[i] {
        assert ps[..n][..i] == ps[..i];
      }
      assert cs[..n] == Copies(ps[..n], ep, nonIncr);
      CopiesMoveStraight(ps[..n], ep, nonIncr);
      BytesSnoc(ps);
      BytesLen(ps[..n]);
      LastPieceMoves(ps[n], ep, TotalLen(ps[..n]), Bytes(ps[..n]), nonIncr);
    }
  }

  lemma LastPieceMoves(p: Piece, ep: nat, off: nat, before: seq<nat>, nonIncr: bool)
    requires |before| == off
    ensures Straight(before, ep, nonIncr) + CopyMoves(Copy(p.addr, EpAfter(ep, off, nonIncr), p.len), nonIncr)
         == Straight(before + Span(p.addr, p.len), ep, nonIncr)
  {
    var l := Straight(before, ep, nonIncr) + CopyMoves(Copy(p.addr, EpAfter(ep, off, nonIncr), p.len), nonIncr);
    forall k | off <= k < off + p.len
      ensures l[k] == (p.addr + (k - off), (ep + if nonIncr then 0 else k) % U64)
    {
      EpAfterSum(ep, off, k - off, false);
    }
  }

  // ----- The submit loop -----

  /** transfer_init of one round, with the descriptors it leaves. */
  method BuildRound(ring: DescRing, req: XdmaRequest) returns (xfer: Transfer, ghost r: Round)
    requires ring.Valid() && ring.descBus % DESC_SIZE == 0
    requires req.swDescIdx < req.swDescCnt <= req.sdesc.Length
    requires req.epAddr < U64
    modifies ring`descIdx, ring`descUsed, ring.desc, req`epAddr, req`swDescIdx
    ensures ring.Valid() && r.xfer == xfer && xfer.descIndex == old(ring.descIdx)
    ensures var n := PieceCount(old(req.swDescCnt - req.swDescIdx), old(ring.descIdx), ring.desc.Length);
      && xfer.descNum == n && xfer.descIndex + n <= ring.desc.Length
      && xfer.descBus == ring.descBus + DESC_SIZE * xfer.descIndex
      && ring.descIdx == Advance(old(ring.descIdx), n, ring.desc.Length)
      && ring.descUsed == old(ring.descUsed) + n
      && req.swDescIdx == old(req.swDescIdx) + n
    ensures var ps := old(req.sdesc[req.swDescIdx..])[..xfer.descNum];
      && xfer.len == W(TotalLen(ps))
      && req.epAddr == EpAfter(old(req.epAddr), TotalLen(ps), ring.nonIncrAddr)
      && EngineCopies(r.descs, xfer.descBus, ring.dir) == Copies(ps, old(req.epAddr), ring.nonIncrAddr)
    ensures WellBuilt(r) && r.descs == ring.desc[xfer.descIndex..xfer.descIndex + xfer.descNum]
    ensures forall k | 0 <= k < ring.desc.Length && !(0 <= k - xfer.descIndex < xfer.descNum) ::
              ring.desc[k] == old(ring.desc[k])
  {
    hide Finished, EngineCopies, Copies, EpAfter, TotalLen, Chained;
    ghost var first, ep := ring.descIdx, req.epAddr;
    ghost var before := ring.desc[..];
    ghost var rest := req.sdesc[req.swDescIdx..];
    xfer := TransferInit(ring, req);
    ghost var n := xfer.descNum;
    ghost var descs := ring.desc[first..first + n];
    forall i | 0 <= i < n
      ensures descs[i] == Finished(before[first..first + n][i], i, rest[..n], xfer.descBus, ep, ring.nonIncrAddr, ring.dir)
    {
      assert descs[i] == ring.desc[first + i];
    }
    BuiltTransferCopies(before[first..first + n], descs, rest[..n], xfer.descBus, ep, ring.nonIncrAddr, ring.dir);
    r := Round(xfer, descs);
  }

  /** Where the loop stands after the first m of the pieces ps. */
  ghost predicate At(req: XdmaRequest, ps: seq<Piece>, m: nat, ep: nat, nonIncr: bool, rounds: seq<Round>, dir: Direction)
    reads req, req.sdesc
  {
    && m <= |ps| == req.swDescCnt <= req.sdesc.Length
    && req.sdesc[..|ps|] == ps
    && req.swDescIdx == m
    && req.epAddr == EpAfter(ep, TotalLen(ps[..m]), nonIncr) < U64
    && AllCopies(rounds, dir) == Copies(ps[..m], ep, nonIncr)
    && forall r :: r in rounds ==> WellBuilt(r)
  }

  lemma EpAfterBound(ep: nat, len: nat, nonIncr: bool)
    requires ep < U64
    ensures EpAfter(ep, len, nonIncr) < U64
  {
  }

  lemma TakeThenSlice(ps: seq<Piece>, m: nat, n: nat)
    requires m + n <= |ps|
    ensures ps[..m + n] == ps[..m] + ps[m..m + n]
    ensures TotalLen(ps[..m + n]) == TotalLen(ps[..m]) + TotalLen(ps[m..m + n]) <= TotalLen(ps)
  {
    hide TotalLen;
    assert ps[..m + n] == ps[..m] + ps[m..m + n];
    BytesConcat(ps[..m], ps[m..m + n]);
    assert ps == ps[..m + n] + ps[m + n..];
    BytesConcat(ps[..m + n], ps[m + n..]);
  }

  /** The next transfer of the request, built into the ring. */
  method BuildNext(ring: DescRing, req: XdmaRequest, ghost ps: seq<Piece>, ghost ep: nat, ghost rounds: seq<Round>)
    returns (xfer: Transfer, ghost r: Round)
    requires ring.Valid() && ring.descBus % DESC_SIZE == 0
    requires ep < U64
    requires At(req, ps, req.swDescIdx, ep, ring.nonIncrAddr, rounds, ring.dir) && req.swDescIdx < |ps|
    modifies ring`descIdx, ring`descUsed, ring.desc, req`epAddr, req`swDescIdx
    ensures ring.Valid() && r.xfer == xfer && xfer.descIndex == old(ring.descIdx)
    ensures var m, n := old(req.swDescIdx), PieceCount(|ps| - old(req.swDescIdx), old(ring.descIdx), ring.desc.Length);
      && xfer.descNum == n && xfer.descIndex + n <= ring.desc.Length
      && ring.descIdx == Advance(old(ring.descIdx), n, ring.desc.Length)
      && ring.descUsed == old(ring.descUsed) + n
      && At(req, ps, m + n, ep, ring.nonIncrAddr, rounds + [r], ring.dir)
      && TotalLen(ps[..m + n]) == TotalLen(ps[..m]) + TotalLen(ps[m..m + n]) <= TotalLen(ps)
      && xfer.len == W(TotalLen(ps[m..m + n]))
      && EngineCopies(r.descs, xfer.descBus, ring.dir)
         == Copies(ps[m..m + n], EpAfter(ep, TotalLen(ps[..m]), ring.nonIncrAddr), ring.nonIncrAddr)
    ensures WellBuilt(r)
    ensures r.descs == ring.desc[xfer.descIndex..xfer.descIndex + xfer.descNum]
    ensures forall k | 0 <= k < ring.desc.Length && !(0 <= k - xfer.descIndex < xfer.descNum) ::
              ring.desc[k] == old(ring.desc[k])
  {
    hide TotalLen, Copies, EngineCopies, EpAfter, WellBuilt, Advance, PieceCount, W;
    ghost var m, here, nonIncr := req.swDescIdx, req.epAddr, ring.nonIncrAddr;
    xfer, r := BuildRound(ring, req);
    ghost var n := xfer.descNum;
    SliceOfPrefix(req.sdesc[..], |ps|, m, n);
    TakeThenSlice(ps, m, n);
    CopiesConcat(ps[..m], ps[m..m + n], ep, nonIncr);
    EpAfterSum(ep, TotalLen(ps[..m]), TotalLen(ps[m..m + n]), nonIncr);
    EpAfterBound(ep, TotalLen(ps[..m + n]), nonIncr);
    AllCopiesAppend(rounds, r, ring.dir);
  }

  lemma AtBounds(req: XdmaRequest, ps: seq<Piece>, m: nat, ep: nat, nonIncr: bool, rounds: seq<Round>, dir: Direction)
    requires At(req, ps, m, ep, nonIncr, rounds, dir)
    ensures req.swDescIdx == m <= |ps| == req.swDescCnt
  {
  }

  lemma SliceOfPrefix(s: seq<Piece>, l: nat, m: nat, n: nat)
    requires m + n <= l <= |s|
    ensures s[m..][..n] == s[..l][m..m + n]
  {
  }

  lemma NoPieces(ps: seq<Piece>, ep: nat, nonIncr: bool)
    requires ep < U64
    ensures TotalLen(ps[..0]) == 0 && Copies(ps[..0], ep, nonIncr) == [] && EpAfter(ep, 0, nonIncr) == ep
  {
  }

  /** One round of the loop: build, queue and wait, release. */
  method SubmitRound(e: XdmaEngine, ring: DescRing, req: XdmaRequest, left: nat, input: WaitInput,
                     ghost ps: seq<Piece>, ghost ep: nat, ghost rounds: seq<Round>)
    returns (xfer: Transfer, w: Wait, ghost r: Round)
    requires e.Valid() && Settled(e.model) && ring.Valid() && ring.descBus % DESC_SIZE == 0
    requires ep < U64 && TotalLen(ps) < U32
    requires At(req, ps, req.swDescIdx, ep, ring.nonIncrAddr, rounds, ring.dir)
    requires req.swDescIdx + left == |ps| && left > 0
    modifies e, e.transferList, ring`descIdx, ring`descUsed, ring.desc, req`epAddr, req`swDescIdx
    ensures e.Valid() && Settled(e.model) && ring.Valid() && r.xfer == xfer && WellBuilt(r)
    ensures forall x :: x in e.transferList ==> x in old(e.transferList) || fresh(x)
    ensures var m, n := old(req.swDescIdx), PieceCount(left, old(ring.descIdx), ring.desc.Length);
      && xfer.descNum == n
      && (e.model, w) == Await(old(e.model), RoundXfer(n, left), input)
      && ring.descIdx == Advance(old(ring.descIdx), n, ring.desc.Length)
      && At(req, ps, m + n, ep, ring.nonIncrAddr, rounds + [r], ring.dir)
      && TotalLen(ps[..m + n]) == TotalLen(ps[..m]) + xfer.len
      && EngineCopies(r.descs, r.xfer.descBus, ring.dir)
         == Copies(ps[m..m + n], EpAfter(ep, TotalLen(ps[..m]), ring.nonIncrAddr), ring.nonIncrAddr)
      && ring.descUsed == old(ring.descUsed) + if w == Refused then n else 0
    ensures forall k | 0 <= k < ring.desc.Length && !(0 <= k - old(ring.descIdx) < xfer.descNum) ::
              ring.desc[k] == old(ring.desc[k])
  {
    hide TotalLen, AllCopies, Copies, EngineCopies, EpAfter, WellBuilt, Advance, PieceCount, Settled, Await, Distinct,
         Show;
    xfer, r := BuildNext(ring, req, ps, ep, rounds);
    var transfer := new XdmaTransfer(xfer.descNum, false, left - xfer.descNum == 0);
    AwaitIgnoresTicket(e.model, RoundXfer(xfer.descNum, left), input, transfer.ticket);
    w := AwaitTransfer(e, transfer, input);
    if w != Refused {
      ReleaseTransfer(ring, xfer);
    }
  }

  /** The rounds whose transfer completed: all of them, or all but the last if that one did not. */
  function CompletedRounds(rounds: seq<Round>, rv: int): seq<Round> {
    if rv == 0 || rounds == [] then rounds else rounds[..|rounds| - 1]
  }

  /** What the descriptors of the rounds are: those of the completed rounds copy exactly the completed
      pieces; the last transfer, if it did not complete, would copy the other programmed pieces if
      the engine ran it to its end. */
  ghost predicate Programmed(rounds: seq<Round>, ps: seq<Piece>, p: Progress, ep: nat, nonIncr: bool, dir: Direction)
    requires p.completed <= p.programmed <= |ps|
  {
    && (forall r :: r in rounds ==> WellBuilt(r))
    && AllCopies(CompletedRounds(rounds, p.rv), dir) == Copies(ps[..p.completed], ep, nonIncr)
    && (p.rv != 0 ==>
          rounds != []
          && var r := rounds[|rounds| - 1];
             EngineCopies(r.descs, r.xfer.descBus, dir)
             == Copies(ps[p.completed..p.programmed], EpAfter(ep, TotalLen(ps[..p.completed]), nonIncr), nonIncr))
  }

  lemma AllProgrammed(req: XdmaRequest, rounds: seq<Round>, ps: seq<Piece>, p: Progress, ep: nat, nonIncr: bool, dir: Direction)
    requires At(req, ps, |ps|, ep, nonIncr, rounds, dir)
    requires p.completed == p.programmed == |ps| && p.rv == 0
    ensures Programmed(rounds, ps, p, ep, nonIncr, dir)
  {
  }

  lemma LastFailed(req: XdmaRequest, rounds: seq<Round>, r: Round, ps: seq<Piece>, p: Progress, ep: nat, nonIncr: bool, dir: Direction)
    requires p.completed <= p.programmed <= |ps| && p.rv != 0 && WellBuilt(r)
    requires forall q :: q in rounds ==> WellBuilt(q)
    requires AllCopies(rounds, dir) == Copies(ps[..p.completed], ep, nonIncr)
    requires EngineCopies(r.descs, r.xfer.descBus, dir)
          == Copies(ps[p.completed..p.programmed], EpAfter(ep, TotalLen(ps[..p.completed]), nonIncr), nonIncr)
    ensures Programmed(rounds + [r], ps, p, ep, nonIncr, dir)
  {
    hide AllCopies, EngineCopies, Copies, EpAfter, TotalLen, WellBuilt;
    assert (rounds + [r])[..|rounds|] == rounds;
  }

  lemma AtCopies(req: XdmaRequest, ps: seq<Piece>, m: nat, ep: nat, nonIncr: bool, rounds: seq<Round>, dir: Direction)
    requires At(req, ps, m, ep, nonIncr, rounds, dir)
    ensures m <= |ps| && AllCopies(rounds, dir) == Copies(ps[..m], ep, nonIncr)
    ensures forall r :: r in rounds ==> WellBuilt(r)
  {
  }

  /** The rounds of xdma_xfer_submit on a fresh request. */
  method SubmitRounds(e: XdmaEngine, ring: DescRing, req: XdmaRequest, inputs: nat -> WaitInput,
                      ghost ps: seq<Piece>, ghost ep: nat)
    returns (done: nat, rv: int, ghost rounds: seq<Round>)
    requires e.Valid() && Settled(e.model) && ring.Valid() && ring.descBus % DESC_SIZE == 0
    requires ep < U64 && TotalLen(ps) < U32
    requires At(req, ps, 0, ep, ring.nonIncrAddr, [], ring.dir)
    modifies e, e.transferList, ring`descIdx, ring`descUsed, ring.desc, req`epAddr, req`swDescIdx
    ensures e.Valid() && Settled(e.model) && ring.Valid()
    ensures var p := Rounds(|ps|, old(ring.descIdx), ring.desc.Length, old(e.model), inputs, 0);
      && e.model == p.engine
      && Programmed(rounds, ps, p, ep, ring.nonIncrAddr, ring.dir)
      && done == TotalLen(ps[..p.completed]) && rv == p.rv
      && ring.descUsed == old(ring.descUsed) + if p.rv == -EBUSY then p.programmed - p.completed else 0
  {
    hide TotalLen, At, Advance, PieceCount, Rounds, ErrorOf, Settled, Await, Distinct, Show, Copies, EngineCopies,
         AllCopies, WellBuilt, EpAfter, Programmed;
    rounds := [];
    ghost var p := Rounds(|ps|, ring.descIdx, ring.desc.Length, e.model, inputs, 0);
    AtBounds(req, ps, 0, ep, ring.nonIncrAddr, rounds, ring.dir);
    ghost var m := 0;
    var nents, round := req.swDescCnt, 0;
    NoPieces(ps, ep, ring.nonIncrAddr);
    done, rv := 0, 0;
    while nents > 0
      invariant e.Valid() && Settled(e.model)
      invariant forall x :: x in e.transferList ==> x in old(e.transferList) || fresh(x)
      invariant ring.Valid() && ring.descUsed == old(ring.descUsed)
      invariant rv == 0 && 0 <= m <= |ps| && nents == |ps| - m
      invariant At(req, ps, m, ep, ring.nonIncrAddr, rounds, ring.dir)
      invariant done == TotalLen(ps[..m])
      invariant Continues(p, m, Rounds(nents, ring.descIdx, ring.desc.Length, e.model, inputs, round))
      decreases nents
    {
      RoundsStep(p, m, nents, ring.descIdx, ring.desc.Length, e.model, inputs, round);
      AtBounds(req, ps, m, ep, ring.nonIncrAddr, rounds, ring.dir);
      AtCopies(req, ps, m, ep, ring.nonIncrAddr, rounds, ring.dir);
      var xfer, w;
      ghost var r;
      assert forall i :: 0 <= i < |e.transferList| ==> e.transferList[i] in old(e.transferList) || fresh(e.transferList[i]);
      xfer, w, r := SubmitRound(e, ring, req, nents, inputs(round), ps, ep, rounds);
      rv := ErrorOf(w);
      if rv < 0 {
        LastFailed(req, rounds, r, ps, p, ep, ring.nonIncrAddr, ring.dir);
        rounds := rounds + [r];
        return;
      }
      rounds := rounds + [r];
      nents := nents - xfer.descNum;
      m := m + xfer.descNum;
      done := done + xfer.len;
      round := round + 1;
    }
    RoundsDone(p, m, ring.descIdx, ring.desc.Length, e.model, inputs, round);
    AllProgrammed(req, rounds, ps, p, ep, ring.nonIncrAddr, ring.dir);
  }

  /** xdma_xfer_submit on an engine, the hardware's part being supplied. Nothing is programmed if the
      device is offline, the direction is wrong, nothing was mapped or the request cannot be set up.
      Otherwise the completed rounds, those whose transfer the engine marked COMPLETED, move exactly a
      prefix of the list if the hardware ran each of them to its end: byte k to or from ep_addr + k, or
      in non-incremental mode ep_addr itself. The result is the length of that prefix, or the error if
      it is empty; and the ring gets back every descriptor but those of a refused transfer. */
  method XdmaXferSubmit(e: XdmaEngine, ring: DescRing, write: bool, epAddr: nat, sgs: seq<Piece>,
                        descBlenMax: nat, inputs: nat -> WaitInput)
    returns (end: CallEnd, ghost rounds: seq<Round>)
    requires e.Valid() && Settled(e.model) && ring.Valid() && ring.descBus % DESC_SIZE == 0 && e.dir == ring.dir
    requires 0 < descBlenMax
    requires epAddr < U64 && TotalLen(sgs) < U32
    modifies e, e.transferList, ring`descIdx, ring`descUsed, ring.desc
    ensures e.Valid() && Settled(e.model) && ring.Valid()
    ensures old(e.offline) ==> end == Returned(-EBUSY)
    ensures !old(e.offline) && write != e.dir.ToDevice? ==> end == Returned(-EINVAL)
    ensures !old(e.offline) && write == e.dir.ToDevice? && sgs == [] ==> end == Returned(-EIO)
    ensures !old(e.offline) && write == e.dir.ToDevice? && sgs != [] ==>
      match InitEndOf(sgs, descBlenMax)
      case PastBlock => end == Overran
      case TooMany => end == Returned(-ENOMEM)
      case Ready => end.Returned?
    ensures old(e.offline) || write != e.dir.ToDevice? || sgs == [] || InitEndOf(sgs, descBlenMax) != Ready ==>
      rounds == [] && e.model == old(e.model) && ring.descUsed == old(ring.descUsed)
    ensures !old(e.offline) && write == e.dir.ToDevice? && sgs != [] && InitEndOf(sgs, descBlenMax) == Ready ==>
      var ps := Split(sgs, descBlenMax);
      var p := Rounds(|ps|, old(ring.descIdx), ring.desc.Length, old(e.model), inputs, 0);
      var done := TotalLen(ps[..p.completed]);
      && e.model == p.engine
      && Programmed(rounds, ps, p, epAddr, ring.nonIncrAddr, ring.dir)
      && MovesFirst(AllCopies(CompletedRounds(rounds, p.rv), ring.dir), sgs, done, epAddr, ring.nonIncrAddr)
      && end == Returned(if done > 0 then done else p.rv)
      && ring.descUsed == old(ring.descUsed) + if p.rv == -EBUSY then p.programmed - p.completed else 0
  {
    hide Split, TotalLen, Copies, EngineCopies, EpAfter, WellBuilt, Rounds, Moves, MovesFirst, Straight,
         Bytes, Settled, Distinct, Show, InitEndOf, Slots;
    rounds := [];
    if e.offline {
      return Returned(-EBUSY), [];
    }
    if write != e.dir.ToDevice? {
      return Returned(-EINVAL), [];
    }
    if |sgs| == 0 {
      return Returned(-EIO), [];
    }
    var init, req := XdmaInitRequest(sgs, descBlenMax, epAddr);
    if init == PastBlock {
      return Overran, [];
    }
    if init == TooMany {
      return Returned(-ENOMEM), [];
    }
    ghost var ps := Split(sgs, descBlenMax);
    SplitTiles(sgs, descBlenMax);
    NoPieces(ps, epAddr, ring.nonIncrAddr);
    var done, rv;
    done, rv, rounds := SubmitRounds(e, ring, req, inputs, ps, epAddr);
    ghost var p := Rounds(|ps|, old(ring.descIdx), ring.desc.Length, old(e.model), inputs, 0);
    PrefixMovesStraight(sgs, descBlenMax, epAddr, p.completed, ring.nonIncrAddr);
    end := Returned(if done > 0 then done else rv);
  }

  // ----- End to end -----

  /** The first k pieces are a prefix of the scatter list, byte for byte. */
  lemma PrefixBytes(sgs: seq<Piece>, blen: nat, k: nat)
    requires blen > 0 && k <= |Split(sgs, blen)|
    ensures var ps := Split(sgs, blen);
      && |Bytes(sgs)| == TotalLen(sgs) >= TotalLen(ps[..k])
      && Bytes(ps[..k]) == Bytes(sgs)[..TotalLen(ps[..k])]
  {
    hide Bytes, TotalLen, Split;
    var ps := Split(sgs, blen);
    SplitTiles(sgs, blen);
    assert ps == ps[..k] + ps[k..];
    BytesConcat(ps[..k], ps[k..]);
    BytesLen(ps[..k]);
    BytesLen(sgs);
  }

  /** Whatever prefix of the pieces is copied, the bytes moved are that prefix of the scatter list,
      byte k to or from ep + k, or in non-incremental mode ep. */
  lemma PrefixMovesStraight(sgs: seq<Piece>, blen: nat, ep: nat, k: nat, nonIncr: bool)
    requires blen > 0 && k <= |Split(sgs, blen)|
    ensures var ps := Split(sgs, blen);
      && |Bytes(sgs)| == TotalLen(sgs)
      && MovesFirst(Copies(ps[..k], ep, nonIncr), sgs, TotalLen(ps[..k]), ep, nonIncr)
  {
    hide Moves, Copies, Straight, Bytes, TotalLen, Split;
    PrefixBytes(sgs, blen, k);
    CopiesMoveStraight(Split(sgs, blen)[..k], ep, nonIncr);
  }

  // ----- When everything completes -----

  /** Nothing is queued, running, offline or shutting down. */
  ghost predicate Idle(s: EngineState) {
    Settled(s) && !s.running && s.queue == [] && !s.offline && !s.shutdownRequest
  }

  /** The first service call of the wait reports all n descriptors and no error: neither the status it
      reads nor, for a polled writeback that reads none, the one read when the engine started. */
  predicate ReportsAll(dir: Direction, input: WaitInput, n: nat) {
    && input.services != []
    && var call := input.services[0];
       && DescCount(call.wb, call.hw) == n
       && !HasError(dir, if WbCount(call.wb) == 0 || WbError(call.wb) then call.hw.statusClear
                         else input.start.statusAtStart)
  }

  predicate AllReported(left: nat, idx: nat, max: nat, dir: Direction, inputs: nat -> WaitInput, round: nat)
    requires idx < max
    decreases left
  {
    left > 0 ==>
      var n := PieceCount(left, idx, max);
      && ReportsAll(dir, inputs(round), n)
      && AllReported(left - n, Advance(idx, n, max), max, dir, inputs, round + 1)
  }

  /** A transfer on an idle engine completes if the hardware reports all of it, and leaves the engine
      idle. */
  lemma ReportedCompletes(s: EngineState, n: nat, left: nat, input: WaitInput)
    requires Idle(s) && 0 < n < U32 && ReportsAll(s.dir, input, n)
    ensures var (t, w) := Await(s, RoundXfer(n, left), input);
      w == Ended(Completed) && Idle(t) && t.dir == s.dir
  {
    var x, call := RoundXfer(n, left), input.services[0];
    var started := Enqueue(s, x, input.start);
    var t := |s.accepted|;
    LoneTransferOutcome(s, x, input.start, call.wb, call.hw);
    EnqueueSettled(s, x, input.start);
    ServiceSettled(started, call.wb, call.hw);
    StartedStatus(s, x, input.start, call.wb, call.hw);
    hide Service, Enqueue, HasError, ServiceEntry, DescCount;
    var served := Service(started, call.wb, call.hw);
    assert StateAt(started, t) == Submitted by { NewIsSubmitted(s, x, input.start); }
    assert StateAt(served, t) == Completed;
    assert Serve(started, t, input.services) == Serve(served, t, input.services[1..]) == served;
  }

  lemma NewIsSubmitted(s: EngineState, x: Xfer, hw: Hw)
    requires Settled(s) && Accepts(s, x)
    ensures StateAt(Enqueue(s, x, hw), |s.accepted|) == Submitted
  {
  }

  lemma StartedStatus(s: EngineState, x: Xfer, startHw: Hw, wb: nat, hw: Hw)
    requires Accepts(s, x) && !s.running && s.queue == []
    ensures ServiceEntry(Enqueue(s, x, startHw), wb, hw).status
         == if WbCount(wb) == 0 || WbError(wb) then hw.statusClear else startHw.statusAtStart
  {
    hide Busy;
  }

  lemma {:induction false} AllRoundsComplete(left: nat, idx: nat, max: nat, s: EngineState, inputs: nat -> WaitInput, round: nat)
    requires idx < max < U32 && Idle(s) && AllReported(left, idx, max, s.dir, inputs, round)
    ensures var p := Rounds(left, idx, max, s, inputs, round);
      p.completed == p.programmed == left && p.rv == 0 && Idle(p.engine)
    decreases left
  {
    hide Idle, Await, ReportsAll, Advance;
    if left > 0 {
      var n := PieceCount(left, idx, max);
      ReportedCompletes(s, n, left, inputs(round));
      AllRoundsComplete(left - n, Advance(idx, n, max), max, Await(s, RoundXfer(n, left), inputs(round)).0, inputs, round + 1);
    }
  }

  /** If the engine starts idle and the hardware reports every transfer's descriptors without an
      error, the call completes every round: the engine moves every byte of the scatter list once, in
      order, to or from consecutive device addresses (the one given in non-incremental mode), the
      returned count is the length of the list, and the engine is idle again. */
  lemma EndToEnd(sgs: seq<Piece>, blen: nat, ep: nat, nonIncr: bool, idx: nat, max: nat, s: EngineState,
                 inputs: nat -> WaitInput)
    requires blen > 0 && idx < max < U32
    requires Idle(s) && AllReported(|Split(sgs, blen)|, idx, max, s.dir, inputs, 0)
    ensures var ps := Split(sgs, blen);
      var p := Rounds(|ps|, idx, max, s, inputs, 0);
      && p.completed == p.programmed == |ps| && p.rv == 0 && Idle(p.engine)
      && TotalLen(ps[..p.completed]) == TotalLen(sgs)
      && Moves(Copies(ps[..p.completed], ep, nonIncr), nonIncr) == Straight(Bytes(sgs), ep, nonIncr)
  {
    hide Moves, Copies, Straight, Bytes, TotalLen, Split, Idle, AllReported;
    var ps := Split(sgs, blen);
    AllRoundsComplete(|ps|, idx, max, s, inputs, 0);
    assert ps[..|ps|] == ps;
    SplitTiles(sgs, blen);
    PrefixMovesStraight(sgs, blen, ep, |ps|, nonIncr);
    assert Bytes(sgs)[..TotalLen(sgs)] == Bytes(sgs);
  }

  // ----- How many transfers a request takes -----

  /** Transfers needed for `left` pieces from ring index idx. */
  function TransfersNeeded(left: nat, idx: nat, max: nat): nat
    requires idx < max
    decreases left
  {
    if left == 0 then 0
    else
      var n := PieceCount(left, idx, max);
      1 + TransfersNeeded(left - n, Advance(idx, n, max), max)
  }

  /** Exactly ceil((idx + cnt) / desc_max) transfers. */
  lemma {:induction false} TransfersNeededIsCeiling(cnt: nat, idx: nat, max: nat)
    requires idx < max && cnt > 0
    ensures TransfersNeeded(cnt, idx, max) == (idx + cnt + max - 1) / max
    decreases cnt
  {
    var n := PieceCount(cnt, idx, max);
    if idx + cnt <= max {
      assert n == cnt;
      DivSmall(idx + cnt - 1, max);
    } else {
      assert n == max - idx && Advance(idx, n, max) == 0 by { ModUnique(max, max, 1, 0); }
      TransfersNeededIsCeiling(cnt - n, 0, max);
      DivStep(idx + cnt - 1, max);
    }
  }

  /** xdma_xfer_submit_nowait keeps its transfers in `tfer[2]`: a request fits exactly when it ends
      within two laps of the ring, in particular whenever it has at most desc_max pieces. */
  lemma FitsTwoTransfersIff(cnt: nat, idx: nat, max: nat)
    requires idx < max && cnt > 0
    ensures TransfersNeeded(cnt, idx, max) <= 2 <==> idx + cnt <= 2 * max
    ensures cnt <= max ==> TransfersNeeded(cnt, idx, max) <= 2
  {
    TransfersNeededIsCeiling(cnt, idx, max);
    DivBelow(idx + cnt + max - 1, max, 3);
  }
}
