/** Calls of xdma_xfer_aperture that go wrong, one for each part of the condition. */
module ApertureCases {
  import opened Words
  import opened Arithmetic
  import opened Bits
  import opened Requests
  import opened Transfers
  import opened Copying
  import opened Aperture
  import opened ApertureRuns

  // ----- The list pointer -----

  /** The masked offset, while it stays inside a window of 64. */
  lemma StartsAt(offset: nat, w: Window)
    requires w == Window(0, 64, 64) && offset < 64
    ensures StartAddr(offset, w) == offset
  {
    SixtyFour();
    AndMask(offset, 6);
    hide And, Pow2;
    ModUnique(offset, 64, 0, offset);
  }

  lemma SixtyFour()
    ensures Pow2(6) == 64
  {
    SmallPow2();
    assert Pow2(6) == 4 * Pow2(4);
  }

  /** An entry whose step takes all of it is done with one descriptor. */
  lemma OneStep(addr: nat, len: nat, ep: nat, w: Window, slots: nat)
    requires 0 < len && slots > 0 && NextAddr(ep, w) == ep && StepLen(len, ep, w) == len
    ensures PlaceEntry(addr, len, ep, w, slots) == Placed([Copy(addr, ep, len)], 0, (ep + len) % U64)
    ensures LenSum([Copy(addr, ep, len)]) == len
  {
    var c := Copy(addr, ep, len);
    OneLen(c);
    hide LenSum, PlaceEntry, NextAddr, StepLen;
    PlaceStep(addr, len, ep, w, slots);
    PlaceEnds(addr + len, 0, (ep + len) % U64, w, slots - 1);
    assert [c] + [] == [c];
  }

  lemma SmallWindow(len: nat, ep: nat, w: Window)
    requires w == Window(0, 64, 64) && 0 < len && ep + len <= 64
    ensures NextAddr(ep, w) == ep && StepLen(len, ep, w) == len
  {
    assert LastAddr(w) == 63;
    hide LastAddr;
  }

  /** The first pass sees the whole list from the base of the window on. */
  lemma FirstPass(sgs: seq<Piece>, idx: nat, max: nat, w: Window)
    requires w.base < U64 && idx <= max
    ensures PassAt(sgs, StartOfCall(idx), w, max) == PlacePass(sgs, w.base, w, max - idx)
  {
    hide PlacePass;
    assert PassEntries(sgs, 0, 0) == sgs;
  }

  lemma PassTakes(ps: seq<Piece>, ep: nat, w: Window, slots: nat)
    requires ps != [] && slots > 0
    ensures var c := PlaceEntry(ps[0].addr, ps[0].len, ep, w, slots);
      var rest := PlacePass(ps[1..], c.ep, w, slots - |c.copies|);
      c.left == 0 ==> PlacePass(ps, ep, w, slots) == Pass(c.copies + rest.copies, 1 + rest.entries, rest.part)
  {
    hide PlaceEntry;
  }

  lemma PassEnded(ps: seq<Piece>, ep: nat, w: Window, slots: nat)
    requires ps == [] || slots == 0
    ensures PlacePass(ps, ep, w, slots) == Pass([], 0, 0)
  {
  }

  /** A pass with one slot left takes one descriptor, and so does one with one entry. */
  lemma OneTaken(ps: seq<Piece>, addr: nat, len: nat, ep: nat, w: Window, slots: nat)
    requires ps != [] && ps[0] == Piece(addr, len) && 0 < len && NextAddr(ep, w) == ep && StepLen(len, ep, w) == len
    requires slots > 0 && (slots == 1 || |ps| == 1)
    ensures PlacePass(ps, ep, w, slots) == Pass([Copy(addr, ep, len)], 1, 0)
    ensures LenSum([Copy(addr, ep, len)]) == len
  {
    OneStep(addr, len, ep, w, slots);
    hide LenSum, PlaceEntry, PlacePass, NextAddr, StepLen;
    PassTakes(ps, ep, w, slots);
    PassEnded(ps[1..], (ep + len) % U64, w, slots - 1);
    assert [Copy(addr, ep, len)] + [] == [Copy(addr, ep, len)];
  }

  /** On a ring of one slot every pass takes the first entry, whichever is due. */
  lemma OneSlotPass(sgs: seq<Piece>, c: Cursor, w: Window, max: nat)
    requires c.idx == c.sgOffset == 0 && c.sgIdx < |sgs| && 0 < sgs[0].len
    requires w == Window(0, 64, 64) && c.offset + sgs[0].len <= 64 && max == 1
    ensures var p := PassAt(sgs, c, w, max);
      && p == Pass([Copy(sgs[0].addr, c.offset, sgs[0].len)], 1, 0) && LenSum(p.copies) == sgs[0].len
      && NextCursor(c, p, max) == Cursor(0, c.offset + sgs[0].len, c.sgIdx + 1, 0)
  {
    var ps := PassEntries(sgs, c.sgIdx, c.sgOffset);
    StartsAt(c.offset, w);
    SmallWindow(sgs[0].len, c.offset, w);
    assert ps[0] == sgs[0];
    hide PlacePass, LenSum, StartAddr, PassEntries, NextAddr, StepLen;
    OneTaken(ps, sgs[0].addr, sgs[0].len, c.offset, w, max);
    var p := PassAt(sgs, c, w, max);
    hide PassAt;
    WSmall(c.offset + sgs[0].len);
  }

  lemma FirstOfPasses(sgs: seq<Piece>, c: Cursor, w: Window, max: nat, total: nat, n: nat)
    requires c.idx < max && c.offset < total && n > 0 && PassAt(sgs, c, w, max).copies != []
    ensures var p := PassAt(sgs, c, w, max);
      var t, u := Passes(sgs, c, w, max, total, n), Passes(sgs, NextCursor(c, p, max), w, max, total, n - 1);
      t.copies == p.copies + u.copies && t.end == u.end && t.done == W(LenSum(p.copies)) + u.done
  {
    hide PassAt, NextCursor, LenSum, W;
  }

  lemma AllCounted(sgs: seq<Piece>, c: Cursor, w: Window, max: nat, total: nat, n: nat)
    requires c.idx < max
    ensures c.offset >= total ==> Passes(sgs, c, w, max, total, n) == Trace([], Finished, 0, c, [])
  {
  }

  lemma NoEntriesLeft(sgs: seq<Piece>, c: Cursor, w: Window, max: nat, total: nat, n: nat)
    requires c.idx < max && c.sgIdx >= |sgs| && n > 0
    ensures c.offset < total ==> Passes(sgs, c, w, max, total, n) == Trace([], Stuck, 0, c, [])
  {
    hide StartAddr;
  }

  /** A two-entry list on a ring of one slot: the second pass moves the first entry again. If that one
      is the longer, the call returns more bytes than were asked for and never touches the second
      entry; if it is the shorter, the third pass has nothing to place while bytes are left. */
  lemma TwoEntriesOneSlot(sgs: seq<Piece>, w: Window, max: nat, total: nat, n: nat)
    requires |sgs| == 2 && 0 < sgs[0].len <= 32 && 0 < sgs[1].len && total == sgs[0].len + sgs[1].len
    requires w == Window(0, 64, 64) && max == 1 && n >= 3
    ensures var t := Passes(sgs, StartOfCall(0), w, max, total, n);
      && t.copies == [Copy(sgs[0].addr, 0, sgs[0].len), Copy(sgs[0].addr, sgs[0].len, sgs[0].len)]
      && t.done == 2 * sgs[0].len
      && t.end == if sgs[1].len <= sgs[0].len then Finished else Stuck
  {
    var l := sgs[0].len;
    var c0, c1, c2 := StartOfCall(0), Cursor(0, l, 1, 0), Cursor(0, l + l, 2, 0);
    OneSlotPass(sgs, c0, w, max);
    OneSlotPass(sgs, c1, w, max);
    hide PassAt, NextCursor, Passes, LenSum;
    FirstOfPasses(sgs, c0, w, max, total, n);
    FirstOfPasses(sgs, c1, w, max, total, n - 1);
    WSmall(l);
    AllCounted(sgs, c2, w, max, total, n - 2);
    NoEntriesLeft(sgs, c2, w, max, total, n - 2);
  }

  /** Entries of 8 and 4 bytes: the call returns 16. */
  lemma SecondEntryNeverMoved(sgs: seq<Piece>, w: Window, max: nat, n: nat)
    requires sgs == [Piece(1000, 8), Piece(5000, 4)] && w == Window(0, 64, 64) && max == 1 && n == 3
    ensures var t := Passes(sgs, StartOfCall(0), w, max, 12, n);
      t.end == Finished && t.done == 16 && t.copies == [Copy(1000, 0, 8), Copy(1000, 8, 8)]
  {
    hide Passes;
    TwoEntriesOneSlot(sgs, w, max, 12, n);
  }

  /** Entries of 4 and 8 bytes: the third pass is empty. */
  lemma ThirdPassEmpty(sgs: seq<Piece>, w: Window, max: nat, n: nat)
    requires sgs == [Piece(1000, 4), Piece(5000, 8)] && w == Window(0, 64, 64) && max == 1 && n == 3
    ensures var t := Passes(sgs, StartOfCall(0), w, max, 12, n);
      t.end == Stuck && t.done == 8
  {
    hide Passes;
    TwoEntriesOneSlot(sgs, w, max, 12, n);
  }

  /** A pass that runs out of entries with bytes left overruns the ring when it is linked. */
  lemma EmptyPassOverruns(first: nat, max: nat)
    requires first < max < U32
    ensures LoopBound(0) == U32 - 1 && first + LoopBound(0) >= max
  {
  }

  // ----- An aperture of zero -----

  lemma {:induction false} ZeroPlaced(addr: nat, tlen: nat, w: Window, slots: nat)
    requires w.size == w.maxLen == 0 && w.base < U64 && 0 < tlen < U32
    ensures var r := PlaceEntry(addr, tlen, w.base, w, slots);
      |r.copies| == slots && r.left == tlen && LenSum(r.copies) == 0
    decreases slots
  {
    if slots > 0 {
      ZeroStep(tlen, w);
      hide PlaceEntry, LenSum, StepLen, NextAddr;
      ZeroPlaced(addr, tlen, w, slots - 1);
      var rest := PlaceEntry(addr, tlen, w.base, w, slots - 1);
      PlaceStep(addr, tlen, w.base, w, slots);
      SumsConcat([Copy(addr, w.base, 0)], rest.copies);
      OneLen(Copy(addr, w.base, 0));
    }
  }

  lemma ZeroStep(tlen: nat, w: Window)
    requires w.size == w.maxLen == 0 && w.base < U64 && tlen < U32
    ensures NextAddr(w.base, w) == w.base && StepLen(tlen, w.base, w) == 0 && w.base % U64 == w.base
    ensures tlen % U32 == tlen
  {
  }

  /** With an aperture of zero every pass fills the ring with empty descriptors and moves nothing, so a
      call with a non-empty first entry never gets to its end. */
  lemma {:induction false} ZeroApertureNeverEnds(sgs: seq<Piece>, idx: nat, max: nat, w: Window, total: nat, n: nat)
    requires idx < max && w.size == w.maxLen == 0 && w.base < U64
    requires sgs != [] && 0 < sgs[0].len < U32 && total > 0
    ensures var t := Passes(sgs, StartOfCall(idx), w, max, total, n);
      t.end == Going && t.done == 0
    decreases n
  {
    if n > 0 {
      var c, next := StartOfCall(idx), StartOfCall(Advance(idx, max - idx, max));
      ZeroPass(sgs, w, max - idx);
      FirstPass(sgs, idx, max, w);
      hide PlacePass, LenSum, PlaceEntry, Advance, NextCursor, W, PassAt, Passes;
      SameCursor(idx, max, PassAt(sgs, c, w, max));
      FirstOfPasses(sgs, c, w, max, total, n);
      ZeroApertureNeverEnds(sgs, next.idx, max, w, total, n - 1);
    }
  }

  lemma SameCursor(idx: nat, max: nat, p: Pass)
    requires idx < max && |p.copies| == max - idx && LenSum(p.copies) == 0 && p.entries == p.part == 0
    ensures NextCursor(StartOfCall(idx), p, max) == StartOfCall(Advance(idx, max - idx, max)) && W(0) == 0
  {
  }

  lemma ZeroPass(sgs: seq<Piece>, w: Window, slots: nat)
    requires w.size == w.maxLen == 0 && w.base < U64 && sgs != [] && 0 < sgs[0].len < U32 && slots > 0
    ensures var p := PlacePass(sgs, w.base, w, slots);
      |p.copies| == slots && LenSum(p.copies) == 0 && p.entries == p.part == 0
  {
    ZeroPlaced(sgs[0].addr, sgs[0].len, w, slots);
    hide PlaceEntry, LenSum;
  }

  // ----- Non-incremental address mode -----

  /** One entry of 64 bytes and an aperture of 64: every ring has room for the one descriptor it needs. */
  lemma OneDescriptor(sgs: seq<Piece>, w: Window)
    requires |sgs| == 1 && sgs[0].len == 64 && w == Window(0, 64, 64)
    ensures ListCount(sgs, 0, w) == 1 && TotalLen(sgs) == 64
  {
    assert sgs[1..] == [];
    var len := PieceLen(64, 0, w);
    assert len == 64 && EntryCount(64 - len, Wrap(len, w), w) == 0;
  }

  /** The call meets the condition on lists, rings and apertures. On an engine in non-incremental address
      mode it still never moves its bytes round the window: they all go to or from its base. */
  lemma NonIncrementalStaysAtBase(sgs: seq<Piece>, max: nat, w: Window, total: nat, n: nat)
    requires |sgs| == 1 && sgs[0].len == total == 64 && w == Window(0, 64, 64) && 0 < max && n > 0
    ensures GoesRight(sgs, 0, max, w)
    ensures var t := Passes(sgs, StartOfCall(0), w, max, total, n);
      && t.end == Finished && t.done == total
      && Moves(t.copies, true) == seq(total, k => (sgs[0].addr + k, 0))
      && !MovedAll(t, sgs, 0, w, true)
  {
    OneDescriptor(sgs, w);
    OnePassGoesRight(sgs, 0, max, w);
    OneEntryPass(sgs, max, w, total, n);
    MovesOne(Copy(sgs[0].addr, 0, total), true);
    hide Passes, GoesRight, ListCount, TotalLen, Moves, MovedAll;
    var t := Passes(sgs, StartOfCall(0), w, max, total, n);
    RightCall(sgs, 0, max, w, n);
    RightMovesAllIff(sgs, t, w, n, true);
    assert Moves(t.copies, true) == seq(total, k => (sgs[0].addr + k, 0));
  }

  lemma OneEntryPass(sgs: seq<Piece>, max: nat, w: Window, total: nat, n: nat)
    requires |sgs| == 1 && sgs[0].len == total == 64 && w == Window(0, 64, 64) && 0 < max && n > 0
    ensures var t := Passes(sgs, StartOfCall(0), w, max, total, n);
      t.end == Finished && t.done == total && t.copies == [Copy(sgs[0].addr, 0, total)]
  {
    SmallWindow(sgs[0].len, 0, w);
    hide PlacePass, LenSum, NextAddr, StepLen, PassAt;
    OneTaken(sgs, sgs[0].addr, sgs[0].len, w.base, w, max);
    FirstPass(sgs, 0, max, w);
    OnlyPass(sgs, PassAt(sgs, StartOfCall(0), w, max), w, max, total, n);
  }

  // ----- A window near the end of the address space -----

  /** ep_addr = 2^64 - 100 and an aperture of 64, entries of 60 and 64 bytes: the sum (2^64 - 40) + 64
      wraps to 24, so the second descriptor is not cut at the end of the window and leaves it. On
      positions it would have been cut to 4 bytes. */
  lemma SumWrapsPastWindow(sgs: seq<Piece>, w: Window, max: nat)
    requires |sgs| == 2 && sgs[0].len == 60 && sgs[1].len == 64 && w == Window(U64 - 100, 64, 64) && max >= 2
    ensures w.base + w.size <= U64 && !Proper(w) && !AllStepsAgree(w) && PieceLen(64, 60, w) == 4
    ensures var p := PassAt(sgs, StartOfCall(0), w, max);
      && p.copies == [Copy(sgs[0].addr, w.base, 60), Copy(sgs[1].addr, w.base + 60, 64)] && p.entries == 2
      && !Inside(p.copies[1], w)
  {
    NearTheEnd(w, sgs[1].addr);
    WideWindow(sgs[0].len, 0, w);
    WideWindow(sgs[1].len, 60, w);
    hide PlaceEntry, PlacePass, AllStepsAgree, NextAddr, StepLen, LenSum, PassAt, PieceLen, Inside;
    OneStep(sgs[0].addr, sgs[0].len, w.base, w, max);
    OneTaken(sgs[1..], sgs[1].addr, sgs[1].len, w.base + 60, w, max - 1);
    PassTakes(sgs, w.base, w, max);
    FirstPass(sgs, 0, max, w);
    var c, d := Copy(sgs[0].addr, w.base, 60), Copy(sgs[1].addr, w.base + 60, 64);
    assert [c] + [d] == [c, d];
  }

  /** The condition on lists, rings and apertures holds of this call, but it finishes with a byte moved to
      or from the address behind the window. */
  lemma WrappedCallLeavesWindow(sgs: seq<Piece>, w: Window, max: nat, total: nat, n: nat)
    requires |sgs| == 2 && sgs[0].len == 60 && sgs[1].len == 64 && w == Window(U64 - 100, 64, 64) && max >= 3
    requires total == 124 && n > 0
    ensures GoesRight(sgs, 0, max, w)
    ensures var t := Passes(sgs, StartOfCall(0), w, max, total, n);
      && t.end == Finished && t.done == total
      && (sgs[1].addr + 4, w.base + w.size) in Moves(t.copies, false) && !MovedAll(t, sgs, 0, w, false)
  {
    ThreeDescriptors(sgs, w);
    OnePassGoesRight(sgs, 0, max, w);
    SumWrapsPastWindow(sgs, w, max);
    hide PassAt, GoesRight, Moves, LenSum, CopyMoves, Turn, Around, ListCount, Bytes, AllStepsAgree;
    var p := PassAt(sgs, StartOfCall(0), w, max);
    var cs := p.copies;
    TwoLens(cs);
    OnlyPass(sgs, p, w, max, total, n);
    MoveOfCopy(cs, 1, 4, false);
    var t := Passes(sgs, StartOfCall(0), w, max, total, n);
    assert Moves(cs, false)[64] == (sgs[1].addr + 4, w.base + w.size);
    if MovedAll(t, sgs, 0, w, false) {
      RoundAt(Bytes(sgs)[0..], 0, w, 64);
    }
  }

  /** A call whose first pass counts every byte. */
  lemma OnlyPass(sgs: seq<Piece>, p: Pass, w: Window, max: nat, total: nat, n: nat)
    requires max > 0 && p == PassAt(sgs, StartOfCall(0), w, max) && p.copies != []
    requires LenSum(p.copies) == total && 0 < total < U32 && n > 0
    ensures var t := Passes(sgs, StartOfCall(0), w, max, total, n);
      t.end == Finished && t.done == total && t.copies == p.copies
  {
    hide PassAt, LenSum;
    WSmall(total);
    FirstOfPasses(sgs, StartOfCall(0), w, max, total, n);
    NextOffset(StartOfCall(0), p, max);
    hide NextCursor, W, Passes;
    AllCounted(sgs, NextCursor(StartOfCall(0), p, max), w, max, total, n - 1);
    assert p.copies + [] == p.copies;
  }

  lemma TwoLens(cs: seq<Copy>)
    requires |cs| == 2 && cs[0].len == 60 && cs[1].len == 64
    ensures LenSum(cs) == 124 && LenSum(cs[..1]) == 60
  {
    assert cs[..1] == [cs[0]];
    OneLen(cs[0]);
  }

  lemma ThreeDescriptors(sgs: seq<Piece>, w: Window)
    requires |sgs| == 2 && sgs[0].len == 60 && sgs[1].len == 64 && w == Window(U64 - 100, 64, 64)
    ensures ListCount(sgs, 0, w) == 3
  {
    TurnSmall(60, w);
    assert EntryCount(0, 60, w) == 0 && EntryCount(60, 0, w) == 1 && EntryCount(64, 60, w) == 1 + EntryCount(60, 0, w);
    hide EntryCount, Turn;
    assert ListCount(sgs[1..], 60, w) == 2;
  }

  lemma NearTheEnd(w: Window, host: nat)
    requires w == Window(U64 - 100, 64, 64)
    ensures w.base + w.size <= U64 && !Proper(w) && !AllStepsAgree(w) && PieceLen(64, 60, w) == 4
    ensures !Inside(Copy(host, w.base + 60, 64), w)
  {
    StepAgreesIff(w);
    hide AllStepsAgree;
  }

  lemma WideWindow(len: nat, pos: nat, w: Window)
    requires w == Window(U64 - 100, 64, 64)
    requires (len == 60 && pos == 0) || (len == 64 && pos == 60)
    ensures NextAddr(w.base + pos, w) == w.base + pos && StepLen(len, w.base + pos, w) == len
    ensures pos == 0 ==> (w.base + pos + len) % U64 == w.base + len
  {
    assert LastAddr(w) == U64 - 37;
    hide LastAddr;
    assert pos == 60 ==> (w.base + pos + len) % U64 == 24;
  }
}
