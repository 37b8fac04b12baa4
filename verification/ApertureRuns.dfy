/** The passes of one xdma_xfer_aperture call, one after the other: exactly which calls move the right
    bytes. Each pass starts over at the first entry of the list, so a call goes wrong as soon as a pass
    leaves the first entry behind without ending the list. */
module ApertureRuns {
  import opened Words
  import opened Arithmetic
  import opened Bits
  import opened EngineSpec
  import opened Requests
  import opened Transfers
  import opened Copying
  import opened Aperture

  // ----- The passes of a call -----

  /** Every byte has been counted, the waits ran out, or a pass has nothing to place. */
  datatype RunEnd = Finished | Going | Stuck

  /** What n passes do: the copies, how they end, the bytes counted, the state after them, and the
      transfers queued. */
  datatype Trace = Trace(copies: seq<Copy>, end: RunEnd, done: nat, cursor: Cursor, xfers: seq<Xfer>)

  function PassXfer(p: Pass, next: Cursor, total: nat): Xfer {
    Xfer(0, |p.copies|, New, 0, false, next.offset == total)
  }

  function Passes(sgs: seq<Piece>, c: Cursor, w: Window, max: nat, total: nat, n: nat): (t: Trace)
    requires c.idx < max
    ensures t.cursor.idx < max && |t.xfers| <= n
    decreases n
  {
    if c.offset >= total then Trace([], Finished, 0, c, [])
    else if n == 0 then Trace([], Going, 0, c, [])
    else
      var p := PassAt(sgs, c, w, max);
      if p.copies == [] then Trace([], Stuck, 0, c, [])
      else
        var next := NextCursor(c, p, max);
        var t := Passes(sgs, next, w, max, total, n - 1);
        Trace(p.copies + t.copies, t.end, W(LenSum(p.copies)) + t.done, t.cursor, [PassXfer(p, next, total)] + t.xfers)
  }

  /** One more pass at the end. */
  lemma {:induction false} PassesSnoc(sgs: seq<Piece>, c: Cursor, w: Window, max: nat, total: nat, n: nat)
    requires c.idx < max && Passes(sgs, c, w, max, total, n).end == Going
    ensures var t := Passes(sgs, c, w, max, total, n);
      && t.cursor.offset < total && |t.xfers| == n
      && var p := PassAt(sgs, t.cursor, w, max);
         var next := NextCursor(t.cursor, p, max);
         Passes(sgs, c, w, max, total, n + 1)
         == if p.copies == [] then t.(end := Stuck)
            else Trace(t.copies + p.copies, if next.offset >= total then Finished else Going,
                       t.done + W(LenSum(p.copies)), next, t.xfers + [PassXfer(p, next, total)])
    decreases n
  {
    hide PassAt, NextCursor, LenSum, W;
    if n == 0 {
      PassesOne(sgs, c, w, max, total);
    } else {
      var p := PassAt(sgs, c, w, max);
      PassesSnoc(sgs, NextCursor(c, p, max), w, max, total, n - 1);
    }
  }

  lemma PassesOne(sgs: seq<Piece>, c: Cursor, w: Window, max: nat, total: nat)
    requires c.idx < max && c.offset < total
    ensures var p := PassAt(sgs, c, w, max);
      var next := NextCursor(c, p, max);
      Passes(sgs, c, w, max, total, 1)
      == if p.copies == [] then Trace([], Stuck, 0, c, [])
         else Trace(p.copies, if next.offset >= total then Finished else Going, W(LenSum(p.copies)), next,
                    [PassXfer(p, next, total)])
  {
    hide PassAt, NextCursor, LenSum, W;
    var p := PassAt(sgs, c, w, max);
    if p.copies != [] {
      var t := Passes(sgs, NextCursor(c, p, max), w, max, total, 0);
      assert p.copies + t.copies == p.copies;
    }
  }

  // ----- The condition -----

  /** Descriptors of the first entry, and the bytes the first d of them carry. */
  function FirstCount(sgs: seq<Piece>, w: Window): nat { if sgs == [] then 0 else EntryCount(sgs[0].len, 0, w) }

  function FirstCut(sgs: seq<Piece>, d: nat, w: Window): Cut
    requires sgs != []
  {
    EntryCut(sgs[0].addr, sgs[0].len, 0, w, d)
  }

  function FirstBytes(sgs: seq<Piece>, d: nat, w: Window): nat {
    if sgs == [] then 0 else sgs[0].len - FirstCut(sgs, d, w).left
  }

  /** The position in the window a pass starts at: the masked offset. */
  function StartPos(offset: nat, w: Window): (pos: nat)
    requires w.size > 0
    ensures pos < w.size
  {
    AndAtMost(offset, w.size - 1);
    And(offset, w.size - 1)
  }

  /** The mask finds the position in the window at this offset. */
  predicate MaskAgrees(offset: nat, w: Window)
    requires w.size > 0
  {
    StartPos(offset, w) == Turn(offset, w)
  }

  /** After d descriptors a pass may end without harm: still in the first entry, and at an offset whose
      position in the window the mask finds. */
  predicate HarmlessEnd(sgs: seq<Piece>, d: nat, w: Window)
    requires w.size > 0
  {
    d < FirstCount(sgs, w) && MaskAgrees(FirstBytes(sgs, d, w), w)
  }

  /** Wherever the ring ends inside the descriptors of the list, from `from` on, it ends harmlessly. */
  ghost predicate GoesRightFrom(sgs: seq<Piece>, idx: nat, max: nat, w: Window, from: nat)
    requires max > 0 && w.size > 0
  {
    forall d :: from < d < ListCount(sgs, 0, w) && Advance(idx, d, max) == 0 ==> HarmlessEnd(sgs, d, w)
  }

  /** The condition on the arguments of a call: the list, the ring index, desc_max, the aperture and the
      longest descriptor. */
  ghost predicate GoesRight(sgs: seq<Piece>, idx: nat, max: nat, w: Window)
    requires max > 0 && w.size > 0
  {
    GoesRightFrom(sgs, idx, max, w, 0)
  }

  /** A list that needs no more descriptors than the ring has left goes right, whatever the aperture. */
  lemma OnePassGoesRight(sgs: seq<Piece>, idx: nat, max: nat, w: Window)
    requires idx < max && w.size > 0 && ListCount(sgs, 0, w) <= max - idx
    ensures GoesRight(sgs, idx, max, w)
  {
    forall d | 0 < d < ListCount(sgs, 0, w) ensures Advance(idx, d, max) != 0 {
      ModUnique(idx + d, max, 0, idx + d);
    }
  }

  /** With an aperture that is a power of two the mask finds every position. */
  lemma PowerOfTwoAgrees(offset: nat, w: Window)
    requires w.size > 0 && IsPow2(w.size)
    ensures MaskAgrees(offset, w)
  {
    MaskIsModIff(w.size);
  }

  /** Then a list of one entry goes right, however often it takes the ring round; and any list does
      exactly if the ring never ends after the first entry and before the end of the list. */
  lemma PowerOfTwoGoesRightIff(sgs: seq<Piece>, idx: nat, max: nat, w: Window)
    requires idx < max && w.size > 0 && IsPow2(w.size)
    ensures |sgs| == 1 ==> GoesRight(sgs, idx, max, w)
    ensures GoesRight(sgs, idx, max, w) <==>
      forall d :: 0 < d && FirstCount(sgs, w) <= d < ListCount(sgs, 0, w) ==> Advance(idx, d, max) != 0
  {
    hide IsPow2, EntryCount, FirstBytes, MaskAgrees, Turn, Advance;
    forall d: nat ensures MaskAgrees(FirstBytes(sgs, d, w), w) {
      PowerOfTwoAgrees(FirstBytes(sgs, d, w), w);
    }
    if |sgs| == 1 {
      assert sgs[1..] == [];
      assert ListCount(sgs, 0, w) == FirstCount(sgs, w);
    }
  }

  // ----- A pass that starts in the first entry -----

  /** The call after d descriptors, all of them in the first entry, at a position the mask finds. */
  ghost predicate InFirst(sgs: seq<Piece>, c: Cursor, d: nat, idx: nat, max: nat, w: Window)
    requires max > 0 && w.size > 0
  {
    && d < FirstCount(sgs, w)
    && c == Cursor(Advance(idx, d, max), FirstBytes(sgs, d, w), 0, FirstBytes(sgs, d, w))
    && MaskAgrees(c.offset, w)
  }

  /** Descriptors placed in two goes. */
  lemma {:induction false} CutSplit(addr: nat, tlen: nat, pos: nat, w: Window, d: nat, m: nat)
    ensures var a := EntryCut(addr, tlen, pos, w, d);
      var b := EntryCut(addr + (tlen - a.left), a.left, a.pos, w, m);
      EntryCut(addr, tlen, pos, w, d + m) == Cut(a.copies + b.copies, b.left, b.pos)
    decreases d
  {
    hide PieceLen, Wrap, EntryCut;
    if tlen == 0 || d == 0 {
      CutEnds(addr, tlen, pos, w, d);
      CutNothing(addr, tlen, pos, w, d, m);
    } else {
      var len := PieceLen(tlen, pos, w);
      var next := Wrap(pos + len, w);
      CutStep(addr, tlen, pos, w, d);
      CutStep(addr, tlen, pos, w, d + m);
      CutSplit(addr + len, tlen - len, next, w, d - 1, m);
      var a := EntryCut(addr + len, tlen - len, next, w, d - 1);
      var b := EntryCut(addr + (tlen - a.left), a.left, a.pos, w, m);
      var c := Copy(addr, w.base + pos, len);
      assert addr + len + (tlen - len - a.left) == addr + (tlen - a.left);
      assert [c] + (a.copies + b.copies) == ([c] + a.copies) + b.copies;
    }
  }

  lemma CutNothing(addr: nat, tlen: nat, pos: nat, w: Window, d: nat, m: nat)
    requires tlen == 0 || d == 0
    ensures var b := EntryCut(addr, tlen, pos, w, m);
      EntryCut(addr, tlen, pos, w, d + m) == Cut([] + b.copies, b.left, b.pos)
  {
    var b := EntryCut(addr, tlen, pos, w, m);
    assert [] + b.copies == b.copies;
  }

  /** The first entry is used up exactly by its last descriptor. */
  lemma FirstCutIs(sgs: seq<Piece>, d: nat, w: Window)
    requires Proper(w) && sgs != []
    ensures var c := FirstCut(sgs, d, w);
      && (c.left > 0 <==> d < FirstCount(sgs, w))
      && (c.left > 0 ==> |c.copies| == d && EntryCount(c.left, c.pos, w) == FirstCount(sgs, w) - d)
      && c.pos == Turn(FirstBytes(sgs, d, w), w)
  {
    hide EntryCut, EntryCount, Carries, Turn;
    EntryCutMoves(sgs[0].addr, sgs[0].len, 0, w, d);
    var c := FirstCut(sgs, d, w);
    EntryNeeds(c.left, c.pos, w);
  }

  /** What a pass from within the first entry sees: the rest of the list, which needs the descriptors
      still missing. */
  lemma SeesRest(sgs: seq<Piece>, d: nat, w: Window)
    requires Proper(w) && sgs != [] && d < FirstCount(sgs, w) && TotalLen(sgs) < U32
    ensures var off := FirstBytes(sgs, d, w);
      var ps := PassEntries(sgs, 0, off);
      && off < sgs[0].len < U32 && off <= |Bytes(sgs)|
      && ps == [Piece(sgs[0].addr + off, sgs[0].len - off)] + sgs[1..]
      && Bytes(ps) == Bytes(sgs)[off..]
      && TotalLen(ps) == TotalLen(sgs) - off
      && ListCount(ps, Turn(off, w), w) == ListCount(sgs, 0, w) - d
  {
    hide EntryCut, EntryCount, Turn, Bytes, PassEntries;
    FirstCutIs(sgs, d, w);
    OneEntry(sgs, 0);
    var off := FirstBytes(sgs, d, w);
    PassEntriesFirst(sgs, off);
    PassContinuesList(sgs, off);
    var ps := PassEntries(sgs, 0, off);
    assert ps[1..] == sgs[1..];
    TurnAdd(off, sgs[0].len - off, w);
  }

  lemma ShortEntry(sgs: seq<Piece>, sgIdx: nat, sgOffset: nat, i: nat)
    requires TotalLen(sgs) < U32 && i < |PassEntries(sgs, sgIdx, sgOffset)|
    ensures PassEntries(sgs, sgIdx, sgOffset)[i].len < U32
  {
    OneEntry(sgs, i);
    PassEntryAt(sgs, sgIdx, sgOffset, i);
  }

  /** In a proper window the driver's pass is the one on positions, from the masked offset on. */
  lemma PassOnPositions(sgs: seq<Piece>, c: Cursor, w: Window, max: nat)
    requires Proper(w) && c.idx <= max && TotalLen(sgs) < U32
    ensures PassAt(sgs, c, w, max)
         == PassCut(PassEntries(sgs, c.sgIdx, c.sgOffset), StartPos(c.offset, w), w, max - c.idx)
  {
    hide PassCut, PlacePass, PassEntries, TotalLen, And;
    var ps, pos := PassEntries(sgs, c.sgIdx, c.sgOffset), StartPos(c.offset, w);
    forall i | 0 <= i < |ps| ensures ps[i].len < U32 {
      ShortEntry(sgs, c.sgIdx, c.sgOffset, i);
    }
    AddrOfPos(pos, w);
    BelowEnd(pos, w);
    PlacePassIsCut(ps, pos, w, max - c.idx);
  }

  lemma AroundTurn(hosts: seq<nat>, off: nat, w: Window)
    requires w.size > 0
    ensures Around(hosts, Turn(off, w), w) == Around(hosts, off, w)
  {
    hide Turn, Around;
    var l, r := Around(hosts, Turn(off, w), w), Around(hosts, off, w);
    forall k | 0 <= k < |l| ensures l[k] == r[k] {
      TurnTwice(off, k, w);
    }
  }

  lemma TurnTwice(off: nat, k: nat, w: Window)
    requires w.size > 0
    ensures Turn(Turn(off, w) + k, w) == Turn(off + k, w)
  {
    TurnAdd(off, k, w);
  }

  /** The copies move bytes off to off + m of the list, each round the window to its own position. */
  ghost predicate Carried(cs: seq<Copy>, sgs: seq<Piece>, off: nat, m: nat, w: Window)
    requires w.size > 0
  {
    off + m <= |Bytes(sgs)| && Carries(cs, Bytes(sgs)[off..off + m], off, w)
  }

  lemma CarriesTurned(cs: seq<Copy>, hosts: seq<nat>, off: nat, w: Window)
    requires w.size > 0 && Carries(cs, hosts, Turn(off, w), w)
    ensures Carries(cs, hosts, off, w)
  {
    hide Turn, Around, Moves, LenSum;
    AroundTurn(hosts, off, w);
  }

  lemma CarriedConcat(a: seq<Copy>, b: seq<Copy>, sgs: seq<Piece>, off: nat, m: nat, k: nat, w: Window)
    requires w.size > 0 && Carried(a, sgs, off, m, w) && Carried(b, sgs, off + m, k, w)
    ensures Carried(a + b, sgs, off, m + k, w)
  {
    hide Carries, Turn, Bytes;
    var hs := Bytes(sgs);
    assert hs[off..off + m + k] == hs[off..off + m] + hs[off + m..off + m + k];
    CarriesBack(b, hs[off + m..off + m + k], off + m, w);
    CarriesConcat(a, b, hs[off..off + m], hs[off + m..off + m + k], off, w);
  }

  lemma CarriesBack(cs: seq<Copy>, hosts: seq<nat>, off: nat, w: Window)
    requires w.size > 0 && Carries(cs, hosts, off, w)
    ensures Carries(cs, hosts, Turn(off, w), w)
  {
    hide Turn, Around, Moves, LenSum;
    AroundTurn(hosts, off, w);
  }

  lemma {:induction false} InsideIsNotEmpty(cs: seq<Copy>, w: Window)
    requires AllInside(cs, w)
    ensures LenSum(cs) >= |cs|
  {
    if cs != [] { InsideIsNotEmpty(cs[..|cs| - 1], w); }
  }

  /** What such a pass does: it carries on, makes progress, and ends the list exactly if the ring has
      room for the descriptors still missing. */
  lemma PassInFirst(sgs: seq<Piece>, c: Cursor, d: nat, idx: nat, max: nat, w: Window)
    requires Proper(w) && idx < max && InFirst(sgs, c, d, idx, max, w) && TotalLen(sgs) < U32
    ensures c.idx < max
    ensures var p := PassAt(sgs, c, w, max);
      var n := LenSum(p.copies);
      && p.copies != [] && n > 0 && Carried(p.copies, sgs, c.offset, n, w)
      && c.offset < TotalLen(sgs) && c.offset + n <= TotalLen(sgs) == |Bytes(sgs)|
      && (c.offset + n == TotalLen(sgs) <==> ListCount(sgs, 0, w) <= d + (max - c.idx))
      && |p.copies| == Min(max - c.idx, ListCount(sgs, 0, w) - d)
  {
    hide PassAt, StartPos, PassCut, PassEntries, EntryCut, EntryCount, ListCount, Turn, LenSum, Carries, Bytes, And, Advance;
    var ps, slots := PassEntries(sgs, 0, c.offset), max - c.idx;
    AdvanceBound(idx, d, max);
    SeesRest(sgs, d, w);
    PassOnPositions(sgs, c, w, max);
    PassMoves(ps, Turn(c.offset, w), w, slots);
    FirstBelowList(sgs, w);
    var p := PassAt(sgs, c, w, max);
    var n := LenSum(p.copies);
    BytesLen(sgs);
    assert Bytes(sgs)[c.offset..][..n] == Bytes(sgs)[c.offset..c.offset + n];
    CarriesTurned(p.copies, Bytes(sgs)[c.offset..c.offset + n], c.offset, w);
    CarriesInside(p.copies, Bytes(sgs)[c.offset..c.offset + n], c.offset, w);
    InsideIsNotEmpty(p.copies, w);
  }

  lemma CarriesInside(cs: seq<Copy>, hosts: seq<nat>, pos: nat, w: Window)
    requires w.size > 0 && Carries(cs, hosts, pos, w)
    ensures AllInside(cs, w)
  {
  }

  lemma AdvanceBound(idx: nat, d: nat, max: nat)
    requires max > 0
    ensures Advance(idx, d, max) < max
  {
  }

  lemma FirstBelowList(sgs: seq<Piece>, w: Window)
    requires w.size > 0
    ensures FirstCount(sgs, w) <= ListCount(sgs, 0, w)
  {
    hide EntryCount;
  }

  /** What further slots make of the rest of the first entry. */
  lemma RestOfFirst(sgs: seq<Piece>, d: nat, slots: nat, w: Window)
    requires Proper(w) && sgs != [] && d < FirstCount(sgs, w)
    ensures var off := FirstBytes(sgs, d, w);
      var cut := EntryCut(sgs[0].addr + off, sgs[0].len - off, Turn(off, w), w, slots);
      && (cut.left > 0 <==> d + slots < FirstCount(sgs, w))
      && FirstBytes(sgs, d + slots, w) == sgs[0].len - cut.left
      && LenSum(cut.copies) == sgs[0].len - off - cut.left
  {
    hide EntryCut, EntryCount, Turn, LenSum;
    var p, off := sgs[0], FirstBytes(sgs, d, w);
    FirstCutIs(sgs, d, w);
    FirstCutIs(sgs, d + slots, w);
    CutSplit(p.addr, p.len, 0, w, d, slots);
    EntryCutLen(p.addr + off, p.len - off, Turn(off, w), w, slots);
  }

  lemma FirstEntryOfPass(ps: seq<Piece>, pos: nat, w: Window, slots: nat)
    requires ps != [] && slots > 0
    ensures var c := EntryCut(ps[0].addr, ps[0].len, pos, w, slots);
      if c.left > 0 then PassCut(ps, pos, w, slots) == Pass(c.copies, 0, ps[0].len - c.left)
      else PassCut(ps, pos, w, slots).entries >= 1
  {
    hide EntryCut;
  }

  /** If the ring ends in the first entry, the next pass starts there. */
  lemma StaysInFirst(sgs: seq<Piece>, c: Cursor, d: nat, idx: nat, max: nat, w: Window)
    requires Proper(w) && idx < max && InFirst(sgs, c, d, idx, max, w) && TotalLen(sgs) < U32
    requires c.idx < max && d + (max - c.idx) < FirstCount(sgs, w)
    ensures var p := PassAt(sgs, c, w, max);
      var e := d + (max - c.idx);
      && NextCursor(c, p, max) == Cursor(Advance(idx, e, max), FirstBytes(sgs, e, w), 0, FirstBytes(sgs, e, w))
      && FirstBytes(sgs, e, w) == c.offset + LenSum(p.copies)
  {
    hide PassAt, StartPos, EntryCut, PassCut, EntryCount, ListCount, Turn, LenSum, Bytes, And, Advance, PassEntries, FirstBytes, W;
    var slots := max - c.idx;
    var p, ps := sgs[0], PassEntries(sgs, 0, c.offset);
    SeesRest(sgs, d, w);
    RestOfFirst(sgs, d, slots, w);
    PassOnPositions(sgs, c, w, max);
    FirstEntryOfPass(ps, Turn(c.offset, w), w, slots);
    AdvanceAdd(idx, d, slots, max);
    WSmall(FirstBytes(sgs, d + slots, w));
  }

  /** If the ring ends after the first entry and before the end of the list, the next pass starts in a
      later entry k, q bytes into it, where the byte is due that follows the ones moved. */
  lemma LeavesFirst(sgs: seq<Piece>, c: Cursor, d: nat, idx: nat, max: nat, w: Window)
    requires Proper(w) && idx < max && InFirst(sgs, c, d, idx, max, w) && TotalLen(sgs) < U32 && NonEmpty(sgs)
    requires c.idx < max && FirstCount(sgs, w) <= d + (max - c.idx) < ListCount(sgs, 0, w)
    ensures var next := NextCursor(c, PassAt(sgs, c, w, max), max);
      && next.offset == c.offset + LenSum(PassAt(sgs, c, w, max).copies) < |Bytes(sgs)|
      && 1 <= next.sgIdx < |sgs| && next.sgOffset < sgs[next.sgIdx].len
      && Bytes(sgs)[next.offset] == sgs[next.sgIdx].addr + next.sgOffset
  {
    hide PassAt, StartPos, EntryCut, PassCut, EntryCount, ListCount, Turn, LenSum, Carries, Bytes, And, Advance, PassEntries, FirstBytes, W,
         StopsAt;
    var slots := max - c.idx;
    var ps, p := PassEntries(sgs, 0, c.offset), PassAt(sgs, c, w, max);
    PassInFirst(sgs, c, d, idx, max, w);
    SeesRest(sgs, d, w);
    RestOfFirst(sgs, d, slots, w);
    PassOnPositions(sgs, c, w, max);
    FirstEntryOfPass(ps, Turn(c.offset, w), w, slots);
    forall i | 0 <= i < |ps| ensures ps[i].len > 0 { assert i > 0 ==> ps[i] == sgs[i]; }
    PassStops(ps, Turn(c.offset, w), w, slots);
    StopsOn(p, ps);
    OneEntry(sgs, p.entries);
    WSmall(p.part);
    WSmall(c.offset + LenSum(p.copies));
  }

  lemma StopsOn(r: Pass, ps: seq<Piece>)
    requires StopsAt(r, ps)
    ensures r.entries < |ps| && r.part < ps[r.entries].len && LenSum(r.copies) < |Bytes(ps)|
    ensures Bytes(ps)[LenSum(r.copies)] == ps[r.entries].addr + r.part
  {
  }

  // ----- Where the ring ends -----

  /** The first end of the ring after d descriptors. */
  lemma NextRingEnd(idx: nat, d: nat, max: nat, e: nat)
    requires max > 0 && d < e
    ensures var left := max - Advance(idx, d, max);
      && (e < d + left ==> Advance(idx, e, max) != 0)
      && (e == d + left ==> Advance(idx, e, max) == 0)
  {
    var r := Advance(idx, d, max);
    AdvanceAdd(idx, d, e - d, max);
    assert Advance(r, e - d, max) == Advance(idx, e, max);
    if e < d + (max - r) {
      ModUnique(r + (e - d), max, 0, r + (e - d));
    } else if e == d + (max - r) {
      ModUnique(max, max, 1, 0);
    }
  }

  /** Going right from d on: the next end of the ring is harmless or past the list, and so on. */
  lemma GoesRightStep(sgs: seq<Piece>, idx: nat, max: nat, w: Window, d: nat)
    requires idx < max && w.size > 0
    ensures var e := d + (max - Advance(idx, d, max));
      GoesRightFrom(sgs, idx, max, w, d) <==>
        (e < ListCount(sgs, 0, w) ==> HarmlessEnd(sgs, e, w)) && GoesRightFrom(sgs, idx, max, w, e)
  {
    hide Advance, HarmlessEnd, ListCount;
    AdvanceBound(idx, d, max);
    var e := d + (max - Advance(idx, d, max));
    NextRingEnd(idx, d, max, e);
    if GoesRightFrom(sgs, idx, max, w, e) && (e < ListCount(sgs, 0, w) ==> HarmlessEnd(sgs, e, w)) {
      forall x | d < x < ListCount(sgs, 0, w) && Advance(idx, x, max) == 0 ensures HarmlessEnd(sgs, x, w) {
        NextRingEnd(idx, d, max, x);
      }
    }
  }

  // ----- Calls that go right -----

  /** The trace carries on from byte off without getting stuck, and is finished exactly when the whole
      list has been moved, which takes `need` descriptors; as many passes as there are bytes are
      enough. */
  ghost predicate RunsRight(t: Trace, sgs: seq<Piece>, off: nat, w: Window, n: nat, need: nat)
    requires w.size > 0
  {
    && Carried(t.copies, sgs, off, t.done, w)
    && t.end != Stuck
    && (t.end == Finished <==> off + t.done == |Bytes(sgs)|)
    && (off + n >= |Bytes(sgs)| ==> t.end == Finished)
    && (t.end == Finished ==> |t.copies| == need)
  }

  lemma NothingCarried(sgs: seq<Piece>, off: nat, w: Window)
    requires w.size > 0 && off <= |Bytes(sgs)|
    ensures Carried([], sgs, off, 0, w)
  {
    assert Bytes(sgs)[off..off + 0] == [];
    CarriesNothing(off, w);
  }

  lemma RunsRightStep(p: seq<Copy>, t: Trace, cursor: Cursor, xfers: seq<Xfer>, sgs: seq<Piece>, off: nat, m: nat, w: Window,
                      n: nat, need: nat)
    requires w.size > 0 && n > 0 && m > 0
    requires Carried(p, sgs, off, m, w) && RunsRight(t, sgs, off + m, w, n - 1, need)
    ensures RunsRight(Trace(p + t.copies, t.end, m + t.done, cursor, xfers), sgs, off, w, n, |p| + need)
  {
    hide Carried, Bytes;
    CarriedConcat(p, t.copies, sgs, off, m, t.done, w);
  }

  lemma {:induction false} RightFromFirst(sgs: seq<Piece>, c: Cursor, d: nat, idx: nat, max: nat, w: Window, n: nat)
    requires Proper(w) && idx < max && InFirst(sgs, c, d, idx, max, w) && TotalLen(sgs) < U32 && c.idx < max
    requires GoesRightFrom(sgs, idx, max, w, d)
    ensures d < ListCount(sgs, 0, w)
    ensures RunsRight(Passes(sgs, c, w, max, TotalLen(sgs), n), sgs, c.offset, w, n, ListCount(sgs, 0, w) - d)
    decreases n
  {
    hide PassAt, NextCursor, Carried, RunsRight, LenSum, W, TotalLen, Bytes, Advance, GoesRightFrom, FirstBytes, FirstCount,
         MaskAgrees, ListCount;
    PassInFirst(sgs, c, d, idx, max, w);
    FirstBelowList(sgs, w);
    var total, need := TotalLen(sgs), ListCount(sgs, 0, w);
    if n == 0 {
      StopsRight(sgs, Passes(sgs, c, w, max, total, 0), c.offset, w, 0, need - d);
    } else {
      var p := PassAt(sgs, c, w, max);
      var next, m, e := NextCursor(c, p, max), LenSum(p.copies), d + (max - c.idx);
      var t := Passes(sgs, next, w, max, total, n - 1);
      WSmall(m);
      GoesRightStep(sgs, idx, max, w, d);
      if e < ListCount(sgs, 0, w) {
        StaysInFirst(sgs, c, d, idx, max, w);
        RightFromFirst(sgs, next, e, idx, max, w, n - 1);
      } else {
        NextOffset(c, p, max);
        StopsRight(sgs, t, c.offset + m, w, n - 1, 0);
      }
      RunsRightStep(p.copies, t, t.cursor, [PassXfer(p, next, total)] + t.xfers, sgs, c.offset, m, w, n,
                    need - d - |p.copies|);
    }
  }

  lemma NextOffset(c: Cursor, p: Pass, max: nat)
    requires max > 0 && c.offset + LenSum(p.copies) < U32
    ensures NextCursor(c, p, max).offset == c.offset + LenSum(p.copies)
  {
    WSmall(c.offset + LenSum(p.copies));
  }

  lemma StopsRight(sgs: seq<Piece>, t: Trace, off: nat, w: Window, n: nat, need: nat)
    requires w.size > 0 && off <= |Bytes(sgs)| && t.copies == [] && t.done == 0
    requires if off == |Bytes(sgs)| then t.end == Finished && need == 0 else t.end == Going && n == 0
    ensures RunsRight(t, sgs, off, w, n, need)
  {
    NothingCarried(sgs, off, w);
    hide Bytes, Carried;
  }

  /** The state in which a call starts. */
  function StartOfCall(idx: nat): Cursor { Cursor(idx, 0, 0, 0) }

  lemma StartsInFirst(sgs: seq<Piece>, idx: nat, max: nat, w: Window)
    requires Proper(w) && idx < max && FirstCount(sgs, w) > 0
    ensures InFirst(sgs, StartOfCall(idx), 0, idx, max, w)
  {
    hide EntryCount;
    ModUnique(idx, max, 0, idx);
    TurnSmall(0, w);
  }

  /** A list the ring has room for takes one pass. */
  lemma OnePass(sgs: seq<Piece>, idx: nat, max: nat, w: Window, n: nat)
    requires Proper(w) && idx < max && TotalLen(sgs) < U32 && ListCount(sgs, 0, w) <= max - idx
    ensures RunsRight(Passes(sgs, StartOfCall(idx), w, max, TotalLen(sgs), n), sgs, 0, w, n, ListCount(sgs, 0, w))
  {
    hide PassAt, StartPos, PassCut, NextCursor, LenSum, W, TotalLen, Bytes, ListCount, Carries, And;
    var c, total := StartOfCall(idx), TotalLen(sgs);
    BytesLen(sgs);
    NothingNeeded(sgs, 0, w);
    if total == 0 || n == 0 {
      StopsRight(sgs, Passes(sgs, c, w, max, total, n), 0, w, n, ListCount(sgs, 0, w));
    } else {
      var p := PassAt(sgs, c, w, max);
      var m, next := LenSum(p.copies), NextCursor(c, p, max);
      assert PassEntries(sgs, 0, 0) == sgs;
      PassOnPositions(sgs, c, w, max);
      ZeroStart(w);
      PassMoves(sgs, 0, w, max - idx);
      NoBytesNoLen();
      assert Bytes(sgs)[0..0 + m] == Bytes(sgs)[..m];
      WSmall(m);
      NextOffset(c, p, max);
      var t := Passes(sgs, next, w, max, total, n - 1);
      StopsRight(sgs, t, m, w, n - 1, 0);
      RunsRightStep(p.copies, t, t.cursor, [PassXfer(p, next, total)] + t.xfers, sgs, 0, m, w, n, 0);
    }
  }

  lemma ZeroStart(w: Window)
    requires w.size > 0
    ensures StartPos(0, w) == 0
  {
  }

  lemma NoBytesNoLen()
    ensures LenSum([]) == 0
  {
  }

  /** A call that meets the condition points its descriptors right in every pass, for any list and any
      aperture: after n passes they carry a prefix of the list, byte b once and in order to or from
      ep_addr + b mod aperture, and with enough passes all of it, with no more descriptors than it
      needs. */
  lemma RightCall(sgs: seq<Piece>, idx: nat, max: nat, w: Window, n: nat)
    requires Proper(w) && idx < max && TotalLen(sgs) < U32 && GoesRight(sgs, idx, max, w)
    ensures RunsRight(Passes(sgs, StartOfCall(idx), w, max, TotalLen(sgs), n), sgs, 0, w, n, ListCount(sgs, 0, w))
  {
    hide Passes, RunsRight, TotalLen, ListCount, EntryCount;
    if FirstCount(sgs, w) > 0 {
      StartsInFirst(sgs, idx, max, w);
      RightFromFirst(sgs, StartOfCall(idx), 0, idx, max, w, n);
    } else {
      ModUnique(max, max, 1, 0);
      assert Advance(idx, max - idx, max) == 0 && !HarmlessEnd(sgs, max - idx, w);
      OnePass(sgs, idx, max, w, n);
    }
  }

  // ----- Non-incremental address mode -----

  /** What carried copies amount to on an engine in non-incremental address mode: the same host bytes in
      the same order, but all bytes of a descriptor to or from the window address of its first one. */
  ghost predicate Fed(cs: seq<Copy>, sgs: seq<Piece>, off: nat, m: nat, w: Window)
    requires w.size > 0
  {
    && off + m <= |Bytes(sgs)| && LenSum(cs) == |Moves(cs, true)| == m
    && (forall x :: 0 <= x < m ==> Moves(cs, true)[x].0 == Bytes(sgs)[off + x])
    && (forall j :: 0 <= j < |cs| ==> cs[j].dev == w.base + Turn(off + LenSum(cs[..j]), w))
  }

  lemma CarriedFeeds(cs: seq<Copy>, sgs: seq<Piece>, off: nat, m: nat, w: Window)
    requires Proper(w) && Carried(cs, sgs, off, m, w)
    ensures Fed(cs, sgs, off, m, w)
  {
    hide Moves, Bytes, Turn, LenSum;
    MovesLen(cs, true);
    SameHosts(cs);
    forall j | 0 <= j < |cs| ensures cs[j].dev == w.base + Turn(off + LenSum(cs[..j]), w) {
      CarriedAt(cs, Bytes(sgs)[off..off + m], off, w, j);
    }
  }

  lemma CarriedAt(cs: seq<Copy>, hosts: seq<nat>, off: nat, w: Window, j: nat)
    requires Proper(w) && Carries(cs, hosts, off, w) && j < |cs|
    ensures cs[j].dev == w.base + Turn(off + LenSum(cs[..j]), w)
  {
    hide Moves, CopyMoves, Turn, LenSum, Around;
    var x := LenSum(cs[..j]);
    assert Inside(cs[j], w);
    MoveOfCopy(cs, j, 0, false);
    assert Around(hosts, off, w)[x] == ByteAt(hosts[x], off + x, w);
  }

  lemma {:induction false} ShortCopiesMoveAlike(cs: seq<Copy>)
    requires forall j :: 0 <= j < |cs| ==> cs[j].len <= 1
    ensures Moves(cs, true) == Moves(cs, false)
  {
    if cs != [] { ShortCopiesMoveAlike(cs[..|cs| - 1]); }
  }

  lemma {:induction false} AllShort(cs: seq<Copy>, w: Window)
    requires AllInside(cs, w)
    ensures LenSum(cs) == |cs| <==> forall j :: 0 <= j < |cs| ==> cs[j].len <= 1
  {
    if cs != [] {
      var n := |cs| - 1;
      AllShort(cs[..n], w);
      InsideIsNotEmpty(cs[..n], w);
      assert Inside(cs[n], w);
    }
  }

  lemma TurnGoesOn(x: nat, w: Window)
    requires w.size > 1
    ensures Turn(x + 1, w) != Turn(x, w)
  {
    TurnAdd(x, 1, w);
    var r := Turn(x, w);
    if r + 1 < w.size {
      TurnSmall(r + 1, w);
    } else {
      ModUnique(w.size, w.size, 1, 0);
    }
  }

  lemma IsInside(cs: seq<Copy>, w: Window, j: nat)
    requires AllInside(cs, w) && j < |cs|
    ensures Inside(cs[j], w)
  {
  }

  lemma RoundAt(hosts: seq<nat>, pos: nat, w: Window, x: nat)
    requires w.size > 0 && x < |hosts|
    ensures Around(hosts, pos, w)[x].1 == w.base + Turn(pos + x, w)
  {
  }

  /** A descriptor of two bytes puts both at one address. */
  lemma LongCopyMovesWrong(cs: seq<Copy>, hosts: seq<nat>, pos: nat, w: Window, j: nat)
    requires w.size > 0 && Carries(cs, hosts, pos, w) && j < |cs| && cs[j].len > 1
    ensures Moves(cs, true) != Around(hosts, pos, w)
  {
    hide Moves, CopyMoves, Turn, LenSum, Around, AllInside;
    var x := LenSum(cs[..j]);
    CarriesInside(cs, hosts, pos, w);
    assert Inside(cs[j], w) by { IsInside(cs, w, j); }
    MoveOfCopy(cs, j, 0, true);
    MoveOfCopy(cs, j, 1, true);
    TurnGoesOn(pos + x, w);
    RoundAt(hosts, pos, w, x);
    RoundAt(hosts, pos, w, x + 1);
  }

  /** Carried copies move their bytes round the window in this mode too exactly if there are as many
      descriptors as bytes. */
  lemma {:induction false} FixedAddressIff(cs: seq<Copy>, hosts: seq<nat>, pos: nat, w: Window)
    requires w.size > 0 && Carries(cs, hosts, pos, w)
    ensures Moves(cs, true) == Around(hosts, pos, w) <==> |cs| == |hosts|
  {
    hide Moves, Turn, LenSum, Around;
    AllShort(cs, w);
    if |cs| == |hosts| {
      ShortCopiesMoveAlike(cs);
    } else {
      var j :| 0 <= j < |cs| && cs[j].len > 1;
      LongCopyMovesWrong(cs, hosts, pos, w, j);
    }
  }

  // ----- Calls that go wrong -----

  /** No two entries overlap on the bus. */
  ghost predicate Disjoint(sgs: seq<Piece>) {
    forall i, j :: 0 <= i < j < |sgs| ==>
      sgs[i].addr + sgs[i].len <= sgs[j].addr || sgs[j].addr + sgs[j].len <= sgs[i].addr
  }

  /** The trace is finished and has moved exactly the bytes from off on. */
  ghost predicate MovedAll(t: Trace, sgs: seq<Piece>, off: nat, w: Window, nonIncr: bool)
    requires w.size > 0
  {
    t.end == Finished && off <= |Bytes(sgs)| && Moves(t.copies, nonIncr) == Around(Bytes(sgs)[off..], off, w)
  }

  /** The next pass places nothing, or its first byte is not the one due, in either address mode. */
  ghost predicate FirstByteWrong(sgs: seq<Piece>, c: Cursor, w: Window, max: nat)
    requires w.size > 0 && c.idx < max && c.offset < |Bytes(sgs)|
  {
    var cs := PassAt(sgs, c, w, max).copies;
    cs == [] || (cs[0].len > 0 && (cs[0].host, cs[0].dev % U64) != ByteAt(Bytes(sgs)[c.offset], c.offset, w))
  }

  lemma FirstMove(cs: seq<Copy>, nonIncr: bool)
    requires cs != [] && cs[0].len > 0
    ensures |Moves(cs, nonIncr)| > 0 && Moves(cs, nonIncr)[0] == (cs[0].host, cs[0].dev % U64)
  {
    hide Moves, CopyMoves;
    MoveOfCopy(cs, 0, 0, nonIncr);
    NoBytesNoLen();
    assert cs[..0] == [];
  }

  /** Then nothing that follows repairs it. */
  lemma WrongByteStays(sgs: seq<Piece>, c: Cursor, w: Window, max: nat, n: nat, nonIncr: bool)
    requires w.size > 0 && c.idx < max && c.offset < |Bytes(sgs)| && FirstByteWrong(sgs, c, w, max)
    ensures !MovedAll(Passes(sgs, c, w, max, |Bytes(sgs)|, n), sgs, c.offset, w, nonIncr)
  {
    hide PassAt, NextCursor, LenSum, W, Moves, Bytes, Turn, Around;
    var total := |Bytes(sgs)|;
    var p := PassAt(sgs, c, w, max);
    if n > 0 && p.copies != [] {
      var next := NextCursor(c, p, max);
      var t := Passes(sgs, next, w, max, total, n - 1);
      FirstMove(p.copies + t.copies, nonIncr);
      assert Around(Bytes(sgs)[c.offset..], c.offset, w)[0] == ByteAt(Bytes(sgs)[c.offset], c.offset, w);
    }
  }

  /** A right pass does not help if the rest goes wrong. */
  lemma WrongAfterRight(sgs: seq<Piece>, c: Cursor, m: nat, w: Window, max: nat, n: nat, nonIncr: bool)
    requires w.size > 0 && c.idx < max && c.offset < |Bytes(sgs)| && n > 0
    requires var p := PassAt(sgs, c, w, max);
      && p.copies != [] && Carried(p.copies, sgs, c.offset, m, w)
      && NextCursor(c, p, max).offset == c.offset + m
      && !MovedAll(Passes(sgs, NextCursor(c, p, max), w, max, |Bytes(sgs)|, n - 1), sgs, c.offset + m, w, nonIncr)
    ensures !MovedAll(Passes(sgs, c, w, max, |Bytes(sgs)|, n), sgs, c.offset, w, nonIncr)
  {
    hide PassAt, NextCursor, LenSum, W, Moves, Bytes, Turn, Around, AllInside;
    var p := PassAt(sgs, c, w, max);
    var t := Passes(sgs, NextCursor(c, p, max), w, max, |Bytes(sgs)|, n - 1);
    var hs, off := Bytes(sgs), c.offset;
    assert hs[off..][m..] == hs[off + m..];
    CarriesLen(p.copies, hs[off..off + m], off, w);
    if Moves(p.copies + t.copies, nonIncr) == Around(hs[off..], off, w) {
      RestMoved(p.copies, t.copies, hs[off..], m, off, w, nonIncr);
    }
  }

  /** If all bytes move right, so do those behind the first m. */
  lemma RestMoved(a: seq<Copy>, b: seq<Copy>, hosts: seq<nat>, m: nat, off: nat, w: Window, nonIncr: bool)
    requires w.size > 0 && LenSum(a) == m <= |hosts|
    requires Moves(a + b, nonIncr) == Around(hosts, off, w)
    ensures Moves(b, nonIncr) == Around(hosts[m..], off + m, w)
  {
    hide LenSum, Moves, Turn, Around;
    MovesConcat(a, b, nonIncr);
    MovesLen(a, nonIncr);
    assert hosts == hosts[..m] + hosts[m..];
    AroundConcat(hosts[..m], hosts[m..], off, w);
    AroundTurn(hosts[m..], off + m, w);
    SameTails(Moves(a, nonIncr), Around(hosts[..m], off, w), Moves(b, nonIncr), Around(hosts[m..], off + m, w));
  }

  lemma SameTails<T>(a: seq<T>, b: seq<T>, c: seq<T>, d: seq<T>)
    requires |a| == |b| && a + c == b + d
    ensures c == d
  {
    assert c == (a + c)[|a|..];
    assert d == (b + d)[|b|..];
  }

  /** Where the first byte of carried copies goes. */
  lemma StartsRound(cs: seq<Copy>, hosts: seq<nat>, pos: nat, w: Window)
    requires w.size > 0 && Carries(cs, hosts, pos, w)
    ensures cs != [] ==> cs[0].len > 0 && hosts != [] && (cs[0].host, cs[0].dev % U64) == ByteAt(hosts[0], pos, w)
  {
    hide Moves, LenSum, Turn, Around;
    InsideIsNotEmpty(cs, w);
    if cs != [] {
      assert Inside(cs[0], w);
      FirstMove(cs, false);
      assert Around(hosts, pos, w)[0] == ByteAt(hosts[0], pos + 0, w);
    }
  }

  /** A pass that starts in a later entry starts over at the first one, so it places nothing or moves a
      byte that is not the one due. */
  lemma LaterPassWrong(sgs: seq<Piece>, c: Cursor, w: Window, max: nat)
    requires Proper(w) && c.idx < max && TotalLen(sgs) < U32 && NonEmpty(sgs) && Disjoint(sgs)
    requires 1 <= c.sgIdx < |sgs| && c.sgOffset < sgs[c.sgIdx].len && c.offset < |Bytes(sgs)|
    requires Bytes(sgs)[c.offset] == sgs[c.sgIdx].addr + c.sgOffset
    ensures FirstByteWrong(sgs, c, w, max)
  {
    hide PassAt, StartPos, Moves, PassAt, StartPos, PassCut, PassEntries, LenSum, Bytes, Turn, And;
    var ps := PassEntries(sgs, c.sgIdx, c.sgOffset);
    var pos, p := StartPos(c.offset, w), PassAt(sgs, c, w, max);
    PassOnPositions(sgs, c, w, max);
    PassMoves(ps, pos, w, max - c.idx);
    if p.copies != [] {
      StartsRound(p.copies, Bytes(ps)[..LenSum(p.copies)], pos, w);
      WrongFirstByte(sgs, c.sgIdx, c.sgOffset);
    }
  }

  lemma WrongFirstByte(sgs: seq<Piece>, k: nat, q: nat)
    requires NonEmpty(sgs) && Disjoint(sgs) && 1 <= k < |sgs| && q < sgs[k].len
    ensures var bs := Bytes(PassEntries(sgs, k, q));
      bs == [] || bs[0] != sgs[k].addr + q
  {
    var ps := PassEntries(sgs, k, q);
    PassEntryAt(sgs, k, q, 0);
    hide PassEntries, Bytes, Span;
    ByteInFirst(ps, 0);
    if ps[0].len == 0 && |ps| > 1 {
      PassEntryAt(sgs, k, q, 1);
      ByteInFirst(ps[1..], 0);
      assert ps[1..][0] == ps[1];
    } else if ps[0].len == 0 {
      NoEntriesNoBytes(ps[1..]);
    }
  }

  lemma NoEntriesNoBytes(ps: seq<Piece>)
    ensures ps == [] ==> Bytes(ps) == []
  {
  }

  /** A pass that the mask starts at a wrong position in the window moves its first byte wrong. */
  lemma MaskedPassWrong(sgs: seq<Piece>, c: Cursor, d: nat, w: Window, max: nat)
    requires Proper(w) && c.idx < max && TotalLen(sgs) < U32
    requires d < FirstCount(sgs, w) && c.sgIdx == 0 && c.sgOffset == c.offset == FirstBytes(sgs, d, w)
    requires !MaskAgrees(c.offset, w)
    ensures c.offset < |Bytes(sgs)| && FirstByteWrong(sgs, c, w, max)
  {
    hide PassAt, StartPos, Moves, PassAt, StartPos, PassCut, PassEntries, LenSum, Bytes, And, FirstBytes, EntryCount, ListCount, Turn;
    var ps := PassEntries(sgs, 0, c.offset);
    var pos, p := StartPos(c.offset, w), PassAt(sgs, c, w, max);
    SeesRest(sgs, d, w);
    BytesLen(sgs);
    BytesLen(ps);
    PassOnPositions(sgs, c, w, max);
    PassMoves(ps, pos, w, max - c.idx);
    NothingNeeded(ps, pos, w);
    TotalOfFirst(ps);
    StartsRound(p.copies, Bytes(ps)[..LenSum(p.copies)], pos, w);
    TurnSmall(pos, w);
  }

  lemma TotalOfFirst(ps: seq<Piece>)
    requires ps != []
    ensures TotalLen(ps) >= ps[0].len
  {
  }

  lemma {:induction false} WrongFromFirst(sgs: seq<Piece>, c: Cursor, d: nat, idx: nat, max: nat, w: Window, n: nat,
                                          nonIncr: bool)
    requires Proper(w) && idx < max && InFirst(sgs, c, d, idx, max, w) && TotalLen(sgs) < U32 && c.idx < max
    requires NonEmpty(sgs) && Disjoint(sgs)
    requires !GoesRightFrom(sgs, idx, max, w, d)
    ensures !MovedAll(Passes(sgs, c, w, max, |Bytes(sgs)|, n), sgs, c.offset, w, nonIncr)
    decreases n
  {
    hide PassAt, NextCursor, Carried, LenSum, W, TotalLen, Bytes, Advance, GoesRightFrom, FirstBytes, FirstCount,
         MaskAgrees, ListCount, MovedAll, FirstByteWrong, NonEmpty, Disjoint;
    PassInFirst(sgs, c, d, idx, max, w);
    if n == 0 {
      NotMovedYet(sgs, c, w, max, nonIncr);
    } else {
      var p := PassAt(sgs, c, w, max);
      var next, m, e := NextCursor(c, p, max), LenSum(p.copies), d + (max - c.idx);
      GoesRightStep(sgs, idx, max, w, d);
      PastListGoesRight(sgs, idx, max, w, e);
      if FirstCount(sgs, w) <= e {
        LeavesFirst(sgs, c, d, idx, max, w);
        LaterPassWrong(sgs, next, w, max);
        WrongByteStays(sgs, next, w, max, n - 1, nonIncr);
      } else {
        StaysInFirst(sgs, c, d, idx, max, w);
        if MaskAgrees(FirstBytes(sgs, e, w), w) {
          WrongFromFirst(sgs, next, e, idx, max, w, n - 1, nonIncr);
        } else {
          MaskedPassWrong(sgs, next, e, w, max);
          WrongByteStays(sgs, next, w, max, n - 1, nonIncr);
        }
      }
      WrongAfterRight(sgs, c, m, w, max, n, nonIncr);
    }
  }

  lemma NotMovedYet(sgs: seq<Piece>, c: Cursor, w: Window, max: nat, nonIncr: bool)
    requires w.size > 0 && c.idx < max && c.offset < |Bytes(sgs)|
    ensures !MovedAll(Passes(sgs, c, w, max, |Bytes(sgs)|, 0), sgs, c.offset, w, nonIncr)
  {
  }

  lemma PastListGoesRight(sgs: seq<Piece>, idx: nat, max: nat, w: Window, e: nat)
    requires max > 0 && w.size > 0
    ensures ListCount(sgs, 0, w) <= e ==> GoesRightFrom(sgs, idx, max, w, e)
  {
  }

  /** A call that does not meet the condition never finishes with the right bytes moved, however many
      passes it takes and in either address mode, if its entries are not empty and do not overlap. */
  lemma WrongCall(sgs: seq<Piece>, idx: nat, max: nat, w: Window, n: nat, nonIncr: bool)
    requires Proper(w) && idx < max && TotalLen(sgs) < U32 && !GoesRight(sgs, idx, max, w)
    requires NonEmpty(sgs) && Disjoint(sgs)
    ensures !MovedAll(Passes(sgs, StartOfCall(idx), w, max, TotalLen(sgs), n), sgs, 0, w, nonIncr)
  {
    hide Passes, MovedAll, TotalLen, ListCount, EntryCount, Disjoint, Bytes;
    BytesLen(sgs);
    if sgs == [] {
      EmptyListNeedsNone(w);
    } else {
      EntryNeeds(sgs[0].len, 0, w);
      StartsInFirst(sgs, idx, max, w);
      WrongFromFirst(sgs, StartOfCall(idx), 0, idx, max, w, n, nonIncr);
    }
  }

  lemma EmptyListNeedsNone(w: Window)
    requires w.size > 0
    ensures ListCount([], 0, w) == 0
  {
  }

  /** No descriptor of the list is longer than one byte: it needs as many as it has bytes. */
  predicate ByteWise(sgs: seq<Piece>, w: Window)
    requires w.size > 0
  {
    ListCount(sgs, 0, w) == TotalLen(sgs)
  }

  /** The whole call, on its arguments: for non-empty entries that do not overlap, some number of passes
      finishes with every byte of the list moved exactly once, in order, byte b to or from
      ep_addr + b mod aperture, if and only if wherever the ring ends inside the descriptors of the
      list it ends in the first entry and at an offset whose position the mask finds, and, on an engine
      in non-incremental address mode, no descriptor is longer than one byte. */
  lemma WholeCallIff(sgs: seq<Piece>, idx: nat, max: nat, w: Window, nonIncr: bool)
    requires Proper(w) && idx < max && TotalLen(sgs) < U32
    requires NonEmpty(sgs) && Disjoint(sgs)
    ensures (exists n: nat :: MovedAll(Passes(sgs, StartOfCall(idx), w, max, TotalLen(sgs), n), sgs, 0, w, nonIncr))
       <==> GoesRight(sgs, idx, max, w) && (nonIncr ==> ByteWise(sgs, w))
  {
    hide Passes, MovedAll, TotalLen, ByteWise, NonEmpty, Disjoint, GoesRight, ListCount;
    var total := TotalLen(sgs);
    if GoesRight(sgs, idx, max, w) {
      forall n: nat
        ensures var t := Passes(sgs, StartOfCall(idx), w, max, total, n);
          MovedAll(t, sgs, 0, w, nonIncr) <==> t.end == Finished && (nonIncr ==> ByteWise(sgs, w))
        ensures n == total ==> Passes(sgs, StartOfCall(idx), w, max, total, n).end == Finished
      {
        RightCall(sgs, idx, max, w, n);
        RightMovesAllIff(sgs, Passes(sgs, StartOfCall(idx), w, max, total, n), w, n, nonIncr);
      }
      assert Passes(sgs, StartOfCall(idx), w, max, total, total).end == Finished;
    } else {
      forall n: nat ensures !MovedAll(Passes(sgs, StartOfCall(idx), w, max, total, n), sgs, 0, w, nonIncr) {
        WrongCall(sgs, idx, max, w, n, nonIncr);
      }
    }
  }

  lemma RightMovesAllIff(sgs: seq<Piece>, t: Trace, w: Window, n: nat, nonIncr: bool)
    requires w.size > 0 && RunsRight(t, sgs, 0, w, n, ListCount(sgs, 0, w))
    ensures MovedAll(t, sgs, 0, w, nonIncr) <==> t.end == Finished && (nonIncr ==> ByteWise(sgs, w))
    ensures n == TotalLen(sgs) ==> t.end == Finished
  {
    BytesLen(sgs);
    hide Bytes, Moves, Around, LenSum, AllInside, ListCount, TotalLen;
    if t.end == Finished {
      assert Bytes(sgs)[0..0 + t.done] == Bytes(sgs)[0..];
      FixedAddressIff(t.copies, Bytes(sgs)[0..], 0, w);
    }
  }
}
