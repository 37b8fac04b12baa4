/** xdma_xfer_aperture as a whole: pass after pass is built, queued, awaited and released. */
module ApertureTransfer {
  import opened Words
  import opened Errno
  import opened EngineSpec
  import opened EngineRuns
  import opened Xdma
  import opened EngineWait
  import opened Descriptors
  import opened Requests
  import opened Transfers
  import opened Copying
  import opened Aperture
  import opened ApertureRuns

  // ----- The engine's side -----

  /** The engine after the transfers xs have been awaited one by one, and how the k-th of them ended. */
  function Awaited(s: EngineState, xs: seq<Xfer>, inputs: seq<WaitInput>): EngineState
    requires |xs| <= |inputs|
  {
    if xs == [] then s
    else
      var n := |xs| - 1;
      Await(Awaited(s, xs[..n], inputs), xs[n], inputs[n]).0
  }

  function WaitAt(s: EngineState, xs: seq<Xfer>, inputs: seq<WaitInput>, k: nat): Wait
    requires k < |xs| <= |inputs|
  {
    Await(Awaited(s, xs[..k], inputs), xs[k], inputs[k]).1
  }

  ghost predicate AllCompleted(s: EngineState, xs: seq<Xfer>, inputs: seq<WaitInput>)
    requires |xs| <= |inputs|
  {
    forall k :: 0 <= k < |xs| ==> WaitAt(s, xs, inputs, k) == Ended(Completed)
  }

  lemma AwaitedSnoc(s: EngineState, xs: seq<Xfer>, x: Xfer, inputs: seq<WaitInput>)
    requires |xs| < |inputs|
    ensures var a := Await(Awaited(s, xs, inputs), x, inputs[|xs|]);
      && Awaited(s, xs + [x], inputs) == a.0
      && (AllCompleted(s, xs, inputs) && a.1 == Ended(Completed) ==> AllCompleted(s, xs + [x], inputs))
  {
    hide Await;
    var ys := xs + [x];
    assert ys[..|xs|] == xs;
    forall k | 0 <= k < |xs| ensures WaitAt(s, ys, inputs, k) == WaitAt(s, xs, inputs, k) {
      assert ys[..k] == xs[..k];
    }
  }

  // ----- The rounds -----

  /** One round: build the pass, queue and await it, release it. */
  method ApertureRound(e: XdmaEngine, ring: DescRing, req: ApertureRequest, sgs: seq<Piece>, w: Window, input: WaitInput)
    returns (overrun: bool, len: nat, wait: Wait, ghost r: Round)
    requires e.Valid() && Settled(e.model)
    requires ring.Valid() && ring.desc.Length < U32 && ring.descBus % DESC_SIZE == 0
    requires w.base == req.epAddr && w.size == req.aperture
    requires req.sgOffset < U32 && req.offset < U32
    modifies e, e.transferList, ring`descIdx, ring`descUsed, ring.desc, req`offset, req`sgIdx, req`sgOffset
    ensures e.Valid() && Settled(e.model) && ring.Valid()
    ensures forall x :: x in e.transferList ==> x in old(e.transferList) || fresh(x)
    ensures var c := old(CursorOf(ring, req));
      var p := PassAt(sgs, c, w, ring.desc.Length);
      && (overrun <==> p.copies == [])
      && (overrun ==> e.model == old(e.model) && ring.descUsed == old(ring.descUsed))
      && (!overrun ==>
            var next := NextCursor(c, p, ring.desc.Length);
            && CursorOf(ring, req) == next && len == W(LenSum(p.copies))
            && EngineCopies(r.descs, r.xfer.descBus, ring.dir) == p.copies && WellBuilt(r)
            && (e.model, wait) == Await(old(e.model), PassXfer(p, next, req.totalLen), input)
            && ring.descUsed == old(ring.descUsed) + if wait == Refused then r.xfer.descNum else 0)
  {
    hide PassAt, LenSum, W, EngineCopies, WellBuilt, NextCursor, Settled, Await, Distinct, Show;
    var xfer;
    overrun, xfer, r := AperturePass(ring, req, sgs, w);
    len, wait := 0, Refused;
    if overrun {
      return;
    }
    var transfer := new XdmaTransfer(xfer.descNum, false, req.offset == req.totalLen);
    AwaitIgnoresTicket(e.model, Xfer(0, xfer.descNum, New, 0, false, req.offset == req.totalLen), input, transfer.ticket);
    wait := AwaitTransfer(e, transfer, input);
    len := xfer.len;
    if wait != Refused {
      ReleaseTransfer(ring, xfer);
    }
  }

  /** What a call comes to that started at cursor c, with the engine going from s0 to s1; `last` is how
      the last round ended. The rounds, but for that one if it failed, completed; their copies are
      those of as many passes. A call that failed returns the bytes counted in the completed rounds or, if there are none, the error;
      its last transfer would copy the next pass if the engine ran it to its end. A call that did not
      fail has counted every byte, or has used up the hardware's inputs, or has come to a pass with
      nothing to place, which overruns the ring. */
  ghost predicate Outcome(end: CallEnd, last: Wait, rounds: seq<Round>, s0: EngineState, s1: EngineState,
                          sgs: seq<Piece>, c: Cursor, w: Window, max: nat, total: nat, inputs: seq<WaitInput>, dir: Direction)
    requires c.idx < max
  {
    var k := CompletedCount(rounds, last);
    var t := Passes(sgs, c, w, max, total, k);
    && (forall r :: r in rounds ==> WellBuilt(r))
    && AllCopies(rounds[..k], dir) == t.copies
    && |t.xfers| == k <= |inputs| && AllCompleted(s0, t.xfers, inputs)
    && if last != Ended(Completed) then
         var p := PassAt(sgs, t.cursor, w, max);
         && k < |rounds| && k < |inputs| && t.end == Going
         && (s1, last) == Await(Awaited(s0, t.xfers, inputs), PassXfer(p, NextCursor(t.cursor, p, max), total), inputs[k])
         && EngineCopies(rounds[k].descs, rounds[k].xfer.descBus, dir) == p.copies
         && end == Returned(if t.done > 0 then t.done else ErrorOf(last))
       else
         && s1 == Awaited(s0, t.xfers, inputs)
         && match end
            case Returned(result) => t.end == Finished && result == t.done
            case Waiting => t.end == Going && k == |inputs|
            case Overran => Passes(sgs, c, w, max, total, k + 1).end == Stuck
  }

  function CompletedCount(rounds: seq<Round>, last: Wait): (k: nat)
    ensures k <= |rounds|
  {
    if last != Ended(Completed) && rounds != [] then |rounds| - 1 else |rounds|
  }

  /** Where the loop stands: every round so far completed. */
  ghost predicate RoundsStand(e: XdmaEngine, ring: DescRing, req: ApertureRequest, rounds: seq<Round>, done: nat,
                              s0: EngineState, sgs: seq<Piece>, c: Cursor, w: Window, inputs: seq<WaitInput>)
    requires c.idx < ring.desc.Length
    reads e, e.history, ring, req
  {
    var t := Passes(sgs, c, w, ring.desc.Length, req.totalLen, |rounds|);
    && e.Valid() && Settled(e.model) && ring.Valid()
    && req.offset < U32 && req.sgOffset < U32
    && (forall r :: r in rounds ==> WellBuilt(r))
    && AllCopies(rounds, ring.dir) == t.copies && done == t.done
    && CursorOf(ring, req) == t.cursor && t.end == (if req.offset < req.totalLen then Going else Finished)
    && |t.xfers| == |rounds| <= |inputs| && AllCompleted(s0, t.xfers, inputs)
    && e.model == Awaited(s0, t.xfers, inputs)
  }

  lemma StandsAtStart(e: XdmaEngine, ring: DescRing, req: ApertureRequest, sgs: seq<Piece>, w: Window, inputs: seq<WaitInput>)
    requires e.Valid() && Settled(e.model) && ring.Valid() && req.sgOffset < U32 && req.offset < U32
    ensures RoundsStand(e, ring, req, [], 0, e.model, sgs, CursorOf(ring, req), w, inputs)
  {
  }

  /** A round that completed. */
  lemma StandsOn(e: XdmaEngine, ring: DescRing, req: ApertureRequest, rounds: seq<Round>, r: Round, done: nat, len: nat,
                 s0: EngineState, s: EngineState, sgs: seq<Piece>, c: Cursor, w: Window, inputs: seq<WaitInput>)
    requires c.idx < ring.desc.Length && |rounds| < |inputs|
    requires e.Valid() && Settled(e.model) && ring.Valid() && WellBuilt(r)
    requires forall r :: r in rounds ==> WellBuilt(r)
    requires var t := Passes(sgs, c, w, ring.desc.Length, req.totalLen, |rounds|);
      && t.end == Going && AllCopies(rounds, ring.dir) == t.copies && done == t.done
      && |t.xfers| == |rounds| && AllCompleted(s0, t.xfers, inputs) && s == Awaited(s0, t.xfers, inputs)
      && var p := PassAt(sgs, t.cursor, w, ring.desc.Length);
         var next := NextCursor(t.cursor, p, ring.desc.Length);
         && p.copies != [] && CursorOf(ring, req) == next && len == W(LenSum(p.copies))
         && EngineCopies(r.descs, r.xfer.descBus, ring.dir) == p.copies
         && (e.model, Ended(Completed)) == Await(s, PassXfer(p, next, req.totalLen), inputs[|rounds|])
    ensures RoundsStand(e, ring, req, rounds + [r], done + len, s0, sgs, c, w, inputs)
  {
    hide PassAt, NextCursor, LenSum, EngineCopies, AllCopies, WellBuilt, Settled, Await, Distinct, Show, Passes,
         AllCompleted, Awaited;
    var t := Passes(sgs, c, w, ring.desc.Length, req.totalLen, |rounds|);
    var p := PassAt(sgs, t.cursor, w, ring.desc.Length);
    PassesSnoc(sgs, c, w, ring.desc.Length, req.totalLen, |rounds|);
    AllCopiesAppend(rounds, r, ring.dir);
    AwaitedSnoc(s0, t.xfers, PassXfer(p, NextCursor(t.cursor, p, ring.desc.Length), req.totalLen), inputs);
    NextIsWords(t.cursor, p, ring.desc.Length);
  }

  lemma NextIsWords(c: Cursor, p: Pass, max: nat)
    requires max > 0
    ensures NextCursor(c, p, max).offset < U32 && NextCursor(c, p, max).sgOffset < U32
  {
  }

  /** A round that did not. */
  lemma EndsFailed(rounds: seq<Round>, r: Round, last: Wait, done: nat, s0: EngineState, s: EngineState, s1: EngineState,
                   sgs: seq<Piece>, c: Cursor, w: Window, max: nat, total: nat, inputs: seq<WaitInput>, dir: Direction)
    requires c.idx < max && |rounds| < |inputs| && WellBuilt(r) && last != Ended(Completed)
    requires forall r :: r in rounds ==> WellBuilt(r)
    requires var t := Passes(sgs, c, w, max, total, |rounds|);
      && t.end == Going && AllCopies(rounds, dir) == t.copies && done == t.done
      && |t.xfers| == |rounds| && AllCompleted(s0, t.xfers, inputs) && s == Awaited(s0, t.xfers, inputs)
      && var p := PassAt(sgs, t.cursor, w, max);
         && EngineCopies(r.descs, r.xfer.descBus, dir) == p.copies
         && (s1, last) == Await(s, PassXfer(p, NextCursor(t.cursor, p, max), total), inputs[|rounds|])
    ensures Outcome(Returned(if done > 0 then done else ErrorOf(last)), last, rounds + [r], s0, s1, sgs, c, w, max, total,
                    inputs, dir)
  {
    hide PassAt, NextCursor, EngineCopies, AllCopies, WellBuilt, Await, Passes, AllCompleted, Awaited, ErrorOf;
    assert (rounds + [r])[..|rounds|] == rounds;
  }

  /** The loop left, or about to be, without a failure. */
  lemma EndsWell(e: XdmaEngine, ring: DescRing, req: ApertureRequest, rounds: seq<Round>, done: nat, end: CallEnd,
                 s0: EngineState, sgs: seq<Piece>, c: Cursor, w: Window, inputs: seq<WaitInput>)
    requires c.idx < ring.desc.Length && RoundsStand(e, ring, req, rounds, done, s0, sgs, c, w, inputs)
    requires match end
      case Returned(result) => req.offset >= req.totalLen && result == done
      case Waiting => req.offset < req.totalLen && |rounds| == |inputs|
      case Overran => false
    ensures Outcome(end, Ended(Completed), rounds, s0, e.model, sgs, c, w, ring.desc.Length, req.totalLen, inputs, ring.dir)
  {
    hide PassAt, AllCopies, WellBuilt, Await, Passes, AllCompleted, Awaited, Settled, Distinct, Show, NextCursor, LenSum;
    assert rounds[..|rounds|] == rounds;
  }

  /** A pass with nothing to place. */
  lemma EndsOverrun(rounds: seq<Round>, s0: EngineState, s: EngineState, sgs: seq<Piece>, c: Cursor, w: Window, max: nat,
                    total: nat, inputs: seq<WaitInput>, dir: Direction)
    requires c.idx < max && |rounds| <= |inputs| && forall r :: r in rounds ==> WellBuilt(r)
    requires var t := Passes(sgs, c, w, max, total, |rounds|);
      && t.end == Going && AllCopies(rounds, dir) == t.copies
      && |t.xfers| == |rounds| && AllCompleted(s0, t.xfers, inputs) && s == Awaited(s0, t.xfers, inputs)
      && PassAt(sgs, t.cursor, w, max).copies == []
    ensures Outcome(Overran, Ended(Completed), rounds, s0, s, sgs, c, w, max, total, inputs, dir)
  {
    hide PassAt, AllCopies, WellBuilt, Passes, AllCompleted, Awaited;
    assert rounds[..|rounds|] == rounds;
    PassesSnoc(sgs, c, w, max, total, |rounds|);
  }

  lemma StandsSays(e: XdmaEngine, ring: DescRing, req: ApertureRequest, rounds: seq<Round>, done: nat,
                   s0: EngineState, sgs: seq<Piece>, c: Cursor, w: Window, inputs: seq<WaitInput>)
    requires c.idx < ring.desc.Length && RoundsStand(e, ring, req, rounds, done, s0, sgs, c, w, inputs)
    ensures e.Valid() && Settled(e.model) && ring.Valid() && req.offset < U32 && req.sgOffset < U32
    ensures var t := Passes(sgs, c, w, ring.desc.Length, req.totalLen, |rounds|);
      && (forall r :: r in rounds ==> WellBuilt(r))
      && AllCopies(rounds, ring.dir) == t.copies && done == t.done && CursorOf(ring, req) == t.cursor
      && (req.offset < req.totalLen ==> t.end == Going)
      && |t.xfers| == |rounds| <= |inputs| && AllCompleted(s0, t.xfers, inputs) && e.model == Awaited(s0, t.xfers, inputs)
  {
  }

  /** The loop of xdma_xfer_aperture, for as long as the hardware's inputs last. */
  method ApertureRounds(e: XdmaEngine, ring: DescRing, req: ApertureRequest, sgs: seq<Piece>, w: Window,
                        inputs: seq<WaitInput>)
    returns (end: CallEnd, ghost last: Wait, ghost rounds: seq<Round>)
    requires e.Valid() && Settled(e.model)
    requires ring.Valid() && ring.desc.Length < U32 && ring.descBus % DESC_SIZE == 0
    requires w.base == req.epAddr && w.size == req.aperture
    requires req.sgOffset < U32 && req.offset < U32
    modifies e, e.transferList, ring`descIdx, ring`descUsed, ring.desc, req`offset, req`sgIdx, req`sgOffset
    ensures e.Valid() && Settled(e.model) && ring.Valid()
    ensures Outcome(end, last, rounds, old(e.model), e.model, sgs, old(CursorOf(ring, req)), w, ring.desc.Length,
                    req.totalLen, inputs, ring.dir)
    ensures ring.descUsed == old(ring.descUsed)
         + if last == Refused && rounds != [] then rounds[|rounds| - 1].xfer.descNum else 0
  {
    hide RoundsStand, Outcome, PassAt, NextCursor, LenSum, W, EngineCopies, AllCopies, WellBuilt, Settled, Await, Distinct,
         Show, Passes, AllCompleted, Awaited;
    ghost var s0, c := e.model, CursorOf(ring, req);
    var done: nat, round: nat := 0, 0;
    rounds, last := [], Ended(Completed);
    StandsAtStart(e, ring, req, sgs, w, inputs);
    while req.offset < req.totalLen
      invariant RoundsStand(e, ring, req, rounds, done, s0, sgs, c, w, inputs)
      invariant e.Valid() && Settled(e.model) && ring.Valid() && round == |rounds| <= |inputs|
      invariant forall x :: x in e.transferList ==> x in old(e.transferList) || fresh(x)
      invariant last == Ended(Completed) && ring.descUsed == old(ring.descUsed)
      decreases |inputs| - round
    {
      if round == |inputs| {
        end := Waiting;
        EndsWell(e, ring, req, rounds, done, end, s0, sgs, c, w, inputs);
        return;
      }
      StandsSays(e, ring, req, rounds, done, s0, sgs, c, w, inputs);
      ghost var s := e.model;
      var overrun, len, wait;
      ghost var r;
      assert forall i :: 0 <= i < |e.transferList| ==> e.transferList[i] in old(e.transferList) || fresh(e.transferList[i]);
      overrun, len, wait, r := ApertureRound(e, ring, req, sgs, w, inputs[round]);
      if overrun {
        EndsOverrun(rounds, s0, s, sgs, c, w, ring.desc.Length, req.totalLen, inputs, ring.dir);
        end := Overran;
        return;
      }
      if ErrorOf(wait) < 0 {
        EndsFailed(rounds, r, wait, done, s0, s, e.model, sgs, c, w, ring.desc.Length, req.totalLen, inputs, ring.dir);
        end := Returned(if done > 0 then done else ErrorOf(wait));
        rounds, last := rounds + [r], wait;
        return;
      }
      StandsOn(e, ring, req, rounds, r, done, len, s0, s, sgs, c, w, inputs);
      rounds := rounds + [r];
      done := done + len;
      round := round + 1;
    }
    end := Returned(done);
    EndsWell(e, ring, req, rounds, done, end, s0, sgs, c, w, inputs);
  }

  // ----- The call -----

  /** Copies that carry bytes off to off + m of the list, on an engine in either address mode. */
  ghost predicate Delivered(cs: seq<Copy>, sgs: seq<Piece>, off: nat, m: nat, w: Window, nonIncr: bool)
    requires w.size > 0
  {
    if nonIncr then Fed(cs, sgs, off, m, w) else Carried(cs, sgs, off, m, w)
  }

  /** What `ApertureRuns.RightCall` makes of the outcome of a call that meets its condition. */
  lemma RightOutcome(end: CallEnd, last: Wait, rounds: seq<Round>, s0: EngineState, s1: EngineState, sgs: seq<Piece>,
                     idx: nat, w: Window, max: nat, inputs: seq<WaitInput>, dir: Direction, nonIncr: bool)
    requires Proper(w) && idx < max && TotalLen(sgs) < U32 && GoesRight(sgs, idx, max, w)
    requires Outcome(end, last, rounds, s0, s1, sgs, StartOfCall(idx), w, max, TotalLen(sgs), inputs, dir)
    ensures var k := CompletedCount(rounds, last);
      var done := Passes(sgs, StartOfCall(idx), w, max, TotalLen(sgs), k).done;
      && Delivered(AllCopies(rounds[..k], dir), sgs, 0, done, w, nonIncr)
      && end != Overran
      && (end.Returned? ==> end.result == if last == Ended(Completed) then TotalLen(sgs)
                                          else if done > 0 then done else ErrorOf(last))
      && (end.Waiting? ==> |inputs| < TotalLen(sgs))
  {
    hide PassAt, AllCopies, WellBuilt, Await, Passes, AllCompleted, Awaited, NextCursor, Carried, Fed, GoesRight, TotalLen,
         Bytes, EngineCopies, ErrorOf, ListCount;
    var k := CompletedCount(rounds, last);
    BytesLen(sgs);
    RightCall(sgs, idx, max, w, k);
    RightCall(sgs, idx, max, w, k + 1);
    CarriedFeeds(AllCopies(rounds[..k], dir), sgs, 0, Passes(sgs, StartOfCall(idx), w, max, TotalLen(sgs), k).done, w);
  }

  /** xdma_xfer_aperture on an engine, the hardware's part being supplied for as many rounds as `inputs`
      has entries. For every list and window its outcome is that of the passes (`Outcome`). If the window
      keeps clear of 2^64 and the call meets the condition `GoesRight` on its arguments, the descriptors
      of the completed rounds carry exactly a prefix of the list: an incremental engine that runs them to
      their end moves each byte b once and in order to or from ep_addr + b mod aperture, one in
      non-incremental mode all bytes of a descriptor to or from the place of its first. The result is the
      length of that prefix or the error if it is empty; a call without a failure returns the length of
      the list; and it never overruns the ring. */
  method XdmaXferAperture(e: XdmaEngine, ring: DescRing, write: bool, streaming: bool, epAddr: nat, aperture: nat,
                          sgs: seq<Piece>, descBlenMax: nat, inputs: seq<WaitInput>)
    returns (end: CallEnd, ghost last: Wait, ghost rounds: seq<Round>)
    requires e.Valid() && Settled(e.model) && e.dir == ring.dir
    requires ring.Valid() && ring.desc.Length < U32 && ring.descBus % DESC_SIZE == 0
    requires TotalLen(sgs) < U32
    modifies e, e.transferList, ring`descIdx, ring`descUsed, ring.desc
    ensures e.Valid() && Settled(e.model) && ring.Valid()
    ensures old(e.offline) ==> end == Returned(-EBUSY)
    ensures !old(e.offline) && (write != e.dir.ToDevice? || streaming) ==> end == Returned(-EINVAL)
    ensures !old(e.offline) && write == e.dir.ToDevice? && !streaming && sgs == [] ==> end == Returned(-EIO)
    ensures old(e.offline) || write != e.dir.ToDevice? || streaming || sgs == [] ==>
      rounds == [] && e.model == old(e.model) && ring.descUsed == old(ring.descUsed)
    ensures !old(e.offline) && write == e.dir.ToDevice? && !streaming && sgs != [] ==>
      var w, max := WindowOf(epAddr, aperture, descBlenMax), ring.desc.Length;
      var c := StartOfCall(old(ring.descIdx));
      && Outcome(end, last, rounds, old(e.model), e.model, sgs, c, w, max, TotalLen(sgs), inputs, ring.dir)
      && (Proper(w) && GoesRight(sgs, old(ring.descIdx), max, w) ==>
            var k := CompletedCount(rounds, last);
            var done := Passes(sgs, c, w, max, TotalLen(sgs), k).done;
            && Delivered(AllCopies(rounds[..k], ring.dir), sgs, 0, done, w, ring.nonIncrAddr)
            && end != Overran
            && (end.Returned? ==> end.result == if last == Ended(Completed) then TotalLen(sgs)
                                                else if done > 0 then done else ErrorOf(last))
            && (end.Waiting? ==> |inputs| < TotalLen(sgs)))
      && ring.descUsed == old(ring.descUsed)
         + if last == Refused && rounds != [] then rounds[|rounds| - 1].xfer.descNum else 0
  {
    hide Outcome, Settled, Distinct, Show, TotalLen, GoesRight, Delivered, AllCopies, Passes, ErrorOf;
    rounds, last := [], Ended(Completed);
    if e.offline {
      return Returned(-EBUSY), last, [];
    }
    if write != e.dir.ToDevice? {
      return Returned(-EINVAL), last, [];
    }
    if streaming {
      return Returned(-EINVAL), last, [];
    }
    if |sgs| == 0 {
      return Returned(-EIO), last, [];
    }
    var total := SumLens(sgs);
    WSmall(TotalLen(sgs));
    var req := new ApertureRequest(epAddr, aperture, total);
    var w := WindowOf(epAddr, aperture, descBlenMax);
    ghost var idx := ring.descIdx;
    end, last, rounds := ApertureRounds(e, ring, req, sgs, w, inputs);
    if Proper(w) && GoesRight(sgs, idx, ring.desc.Length, w) {
      RightOutcome(end, last, rounds, old(e.model), e.model, sgs, idx, w, ring.desc.Length, inputs, ring.dir,
                   ring.nonIncrAddr);
    }
  }

  /** The total of the list, in 32 bits. */
  method SumLens(sgs: seq<Piece>) returns (total: nat)
    ensures total == W(TotalLen(sgs))
  {
    hide TotalLen, W;
    NothingSummed(sgs);
    total := 0;
    for i := 0 to |sgs|
      invariant total == W(TotalLen(sgs[..i]))
    {
      TotalSnoc(sgs, i);
      WAdd(TotalLen(sgs[..i]), sgs[i].len);
      total := W(total + sgs[i].len);
    }
    assert sgs[..|sgs|] == sgs;
  }

  lemma NothingSummed(sgs: seq<Piece>)
    ensures TotalLen(sgs[..0]) == 0 && W(0) == 0
  {
  }

  lemma TotalSnoc(sgs: seq<Piece>, i: nat)
    requires i < |sgs|
    ensures TotalLen(sgs[..i + 1]) == TotalLen(sgs[..i]) + sgs[i].len
  {
    assert sgs[..i + 1][..i] == sgs[..i];
    BytesSnoc(sgs[..i + 1]);
  }
}
