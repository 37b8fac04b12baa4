/** xdma_init_request: cutting a mapped scatter list into software descriptors. */
module Requests {
  import opened Words
  import opened Arithmetic

  /** A DMA-mapped scatterlist entry, and `struct sw_desc`: len bytes from a bus address. */
  datatype Piece = Piece(addr: nat, len: nat)

  function Span(addr: nat, len: nat): (r: seq<nat>)
    ensures |r| == len && forall k :: 0 <= k < len ==> r[k] == addr + k
  {
    seq(len, k => addr + k)
  }

  /** The bus addresses of the bytes described, in order. */
  function Bytes(ps: seq<Piece>): seq<nat> {
    if ps == [] then [] else Span(ps[0].addr, ps[0].len) + Bytes(ps[1..])
  }

  function TotalLen(ps: seq<Piece>): nat {
    if ps == [] then 0 else ps[0].len + TotalLen(ps[1..])
  }

  lemma {:induction false} BytesLen(ps: seq<Piece>)
    ensures |Bytes(ps)| == TotalLen(ps)
  {
    if ps != [] { BytesLen(ps[1..]); }
  }

  lemma {:induction false} BytesConcat(a: seq<Piece>, b: seq<Piece>)
    ensures Bytes(a + b) == Bytes(a) + Bytes(b)
    ensures TotalLen(a + b) == TotalLen(a) + TotalLen(b)
  {
    if a == [] {
      assert a + b == b;
    } else {
      assert (a + b)[1..] == a[1..] + b;
      BytesConcat(a[1..], b);
    }
  }

  lemma EmptyBytes()
    ensures Bytes([]) == [] && TotalLen([]) == 0
  {
  }

  lemma BytesSnoc(ps: seq<Piece>)
    requires ps != []
    ensures var n := |ps| - 1;
      && Bytes(ps) == Bytes(ps[..n]) + Span(ps[n].addr, ps[n].len)
      && TotalLen(ps) == TotalLen(ps[..n]) + ps[n].len
  {
    var n := |ps| - 1;
    hide Bytes, TotalLen, Span;
    assert ps == ps[..n] + [ps[n]];
    BytesConcat(ps[..n], [ps[n]]);
    BytesOne(ps[n]);
  }

  lemma BytesOne(p: Piece)
    ensures Bytes([p]) == Span(p.addr, p.len) && TotalLen([p]) == p.len
  {
    assert [p][1..] == [];
  }

  lemma TakeConcat(a: seq<Piece>, b: seq<Piece>, i: nat)
    requires i < |a + b|
    ensures (a + b)[..i] == if i < |a| then a[..i] else a + b[..i - |a|]
  {
  }

  // ----- The split -----

  function CutEntry(addr: nat, len: nat, blen: nat): (r: seq<Piece>)
    requires blen > 0
    decreases len
  {
    if len == 0 then []
    else if len > blen then [Piece(addr, blen)] + CutEntry(addr + blen, len - blen, blen)
    else [Piece(addr, len)]
  }

  function Split(sgs: seq<Piece>, blen: nat): seq<Piece>
    requires blen > 0
    decreases |sgs|
  {
    if sgs == [] then [] else
    var last := sgs[|sgs| - 1];
    Split(sgs[..|sgs| - 1], blen) + CutEntry(last.addr, last.len, blen)
  }

  ghost predicate Bounded(ps: seq<Piece>, blen: nat) {
    forall i :: 0 <= i < |ps| ==> 1 <= ps[i].len <= blen
  }

  lemma {:induction false} CutEntryTiles(addr: nat, len: nat, blen: nat)
    requires blen > 0
    ensures Bytes(CutEntry(addr, len, blen)) == Span(addr, len)
    ensures Bounded(CutEntry(addr, len, blen), blen)
    ensures TotalLen(CutEntry(addr, len, blen)) == len
    decreases len
  {
    var r := CutEntry(addr, len, blen);
    if len > blen {
      CutEntryTiles(addr + blen, len - blen, blen);
      assert r[1..] == CutEntry(addr + blen, len - blen, blen);
      assert Span(addr, len) == Span(addr, blen) + Span(addr + blen, len - blen);
    } else if len > 0 {
      assert r[1..] == [];
    }
  }

  /** The split describes the same bytes in the same order, in non-empty pieces of at most blen. */
  lemma {:induction false} SplitTiles(sgs: seq<Piece>, blen: nat)
    requires blen > 0
    ensures Bytes(Split(sgs, blen)) == Bytes(sgs)
    ensures Bounded(Split(sgs, blen), blen)
    ensures TotalLen(Split(sgs, blen)) == TotalLen(sgs)
    decreases |sgs|
  {
    hide Bytes, Span, CutEntry, TotalLen;
    if sgs == [] {
      EmptyBytes();
    } else {
      var n := |sgs| - 1;
      var last := sgs[n];
      SplitTiles(sgs[..n], blen);
      CutEntryTiles(last.addr, last.len, blen);
      BytesConcat(Split(sgs[..n], blen), CutEntry(last.addr, last.len, blen));
      BytesSnoc(sgs);
    }
  }

  // ----- The allocation -----

  /** Pieces beyond one an entry is given room for, in u32 arithmetic. */
  function ExtraFor(len: nat, blen: nat): nat
    requires blen > 0
  {
    if len > blen then (len + blen - 1) % U32 / blen else 0
  }

  function Extra(sgs: seq<Piece>, blen: nat): nat
    requires blen > 0
  {
    if sgs == [] then 0 else Extra(sgs[..|sgs| - 1], blen) + ExtraFor(sgs[|sgs| - 1].len, blen)
  }

  /** The rounding sum wraps for no entry. */
  ghost predicate NoWrap(sgs: seq<Piece>, blen: nat) {
    forall i :: 0 <= i < |sgs| ==> sgs[i].len + blen <= U32
  }

  /** sizeof(struct xdma_request_cb) on a 64-bit kernel without lock debugging, and
      sizeof(struct sw_desc). */
  const REQUEST_CB_SIZE := 336
  const SW_DESC_SIZE := 16

  /** xdma_request_alloc: the slots for software descriptors in the block it allocates for `nr` of
      them. The size of the block is an unsigned int. */
  function Slots(nr: nat): (r: nat)
    ensures r <= nr && r < 0x1000_0000
  {
    var size := W(REQUEST_CB_SIZE + W(nr) * SW_DESC_SIZE);
    if size < REQUEST_CB_SIZE then 0 else (size - REQUEST_CB_SIZE) / SW_DESC_SIZE
  }

  /** Slots asked for, and slots there are. */
  function Asked(sgs: seq<Piece>, blen: nat): nat
    requires blen > 0
  {
    |sgs| + Extra(sgs, blen)
  }

  function Room(sgs: seq<Piece>, blen: nat): nat
    requires blen > 0
  {
    Slots(Asked(sgs, blen))
  }

  lemma {:induction false} CutEntryCount(addr: nat, len: nat, blen: nat)
    requires blen > 0
    ensures |CutEntry(addr, len, blen)| == (len + blen - 1) / blen
    decreases len
  {
    if len > blen {
      CutEntryCount(addr + blen, len - blen, blen);
      DivStep(len - 1, blen);
    } else if len > 0 {
      DivSmall(len - 1, blen);
    } else {
      assert (blen - 1) / blen == 0 by { DivZero(blen - 1, blen); }
    }
  }

  lemma EntryRoom(addr: nat, len: nat, blen: nat)
    requires blen > 0 && len + blen <= U32
    ensures |CutEntry(addr, len, blen)| <= 1 + ExtraFor(len, blen)
  {
    hide CutEntry;
    CutEntryCount(addr, len, blen);
    if len == 0 {
      DivZero(blen - 1, blen);
    } else if len <= blen {
      DivSmall(len - 1, blen);
    } else {
      assert (len + blen - 1) % U32 == len + blen - 1;
    }
  }

  /** Without wrap-around enough slots are asked for. */
  lemma {:induction false} AskedCoversSplit(sgs: seq<Piece>, blen: nat)
    requires blen > 0 && NoWrap(sgs, blen)
    ensures |Split(sgs, blen)| <= Asked(sgs, blen)
    decreases |sgs|
  {
    hide CutEntry, ExtraFor;
    if sgs != [] {
      var last := sgs[|sgs| - 1];
      AskedCoversSplit(sgs[..|sgs| - 1], blen);
      EntryRoom(last.addr, last.len, blen);
    }
  }

  /** Nor are many more asked for than needed: at most one for every entry and half as many again as
      there are pieces. */
  lemma {:induction false} AskedNearSplit(sgs: seq<Piece>, blen: nat, empties: nat)
    requires blen > 0
    requires forall i :: empties <= i < |sgs| ==> sgs[i].len > 0
    ensures 2 * Asked(sgs, blen) <= 3 * |Split(sgs, blen)| + 2 * Min(empties, |sgs|)
    decreases |sgs|
  {
    hide CutEntry, ExtraFor;
    if sgs != [] {
      var n := |sgs| - 1;
      AskedNearSplit(sgs[..n], blen, empties);
      EntryRoomAtMost(sgs[n].addr, sgs[n].len, blen);
    }
  }

  lemma EntryRoomAtMost(addr: nat, len: nat, blen: nat)
    requires blen > 0
    ensures 2 * ExtraFor(len, blen) <= 3 * |CutEntry(addr, len, blen)|
    ensures len > 0 ==> 2 * (1 + ExtraFor(len, blen)) <= 3 * |CutEntry(addr, len, blen)|
  {
    LongEntryCut(addr, len, blen);
    hide CutEntry;
    CutEntryCount(addr, len, blen);
    if len > blen {
      WrapAtMost(len + blen - 1);
      DivMonotone((len + blen - 1) % U32, len + blen - 1, blen);
    }
  }

  lemma WrapAtMost(x: nat)
    ensures x % U32 <= x
  {
  }

  lemma DivMonotone(x: nat, y: nat, b: nat)
    requires b > 0 && x <= y
    ensures x / b <= y / b
  {
    DivBelow(x, b, y / b + 1);
    DivBelow(y, b, y / b + 1);
  }

  const XDMA_DESC_BLEN_MAX := 0xFFF_FFFF

  lemma {:induction false} NothingExtra(sgs: seq<Piece>, blen: nat)
    requires blen > 0 && forall i :: 0 <= i < |sgs| ==> ExtraFor(sgs[i].len, blen) == 0
    ensures Extra(sgs, blen) == 0
  {
    if sgs != [] { NothingExtra(sgs[..|sgs| - 1], blen); }
  }

  /** Non-empty entries take at least one piece each, and entry w takes two if it is too long for one. */
  lemma {:induction false} SplitAtLeast(sgs: seq<Piece>, blen: nat, w: nat)
    requires blen > 0 && forall i :: 0 <= i < |sgs| ==> sgs[i].len > 0
    ensures |Split(sgs, blen)| >= |sgs| + if w < |sgs| && sgs[w].len > blen then 1 else 0
  {
    if sgs != [] {
      var n := |sgs| - 1;
      SplitAtLeast(sgs[..n], blen, w);
      LongEntryCut(sgs[n].addr, sgs[n].len, blen);
    }
  }

  lemma LongEntryCut(addr: nat, len: nat, blen: nat)
    requires blen > 0
    ensures |CutEntry(addr, len, blen)| >= if len > blen then 2 else if len > 0 then 1 else 0
  {
  }

  lemma {:induction false} TwoEntries(sgs: seq<Piece>, i: nat, j: nat)
    requires i < j < |sgs|
    ensures sgs[i].len + sgs[j].len <= TotalLen(sgs)
  {
    if i == 0 { OneEntry(sgs[1..], j - 1); } else { TwoEntries(sgs[1..], i - 1, j - 1); }
  }

  lemma {:induction false} OneEntry(sgs: seq<Piece>, j: nat)
    requires j < |sgs|
    ensures sgs[j].len <= TotalLen(sgs)
  {
    if j > 0 { OneEntry(sgs[1..], j - 1); }
  }

  /** An entry whose rounding sum wraps is given no extra room, and neither is any other. */
  lemma WrapGivesNoRoom(sgs: seq<Piece>, blen: nat, w: nat)
    requires 0 < blen <= XDMA_DESC_BLEN_MAX && TotalLen(sgs) < U32
    requires w < |sgs| && sgs[w].len + blen > U32
    ensures Extra(sgs, blen) == 0
  {
    forall i | 0 <= i < |sgs| ensures ExtraFor(sgs[i].len, blen) == 0 {
      if i == w {
        OneEntry(sgs, w);
        WrappedRoom(sgs[w].len, blen);
      } else {
        TwoEntries(sgs, if i < w then i else w, if i < w then w else i);
      }
    }
    NothingExtra(sgs, blen);
  }

  lemma WrappedRoom(len: nat, blen: nat)
    requires 0 < blen <= XDMA_DESC_BLEN_MAX && U32 - blen < len < U32
    ensures ExtraFor(len, blen) == 0
  {
    assert (len + blen - 1) % U32 == len + blen - 1 - U32;
    DivZero(len + blen - 1 - U32, blen);
  }

  /** The size of the block fits its unsigned int. */
  predicate SizeFits(sgs: seq<Piece>, blen: nat)
    requires blen > 0
  {
    REQUEST_CB_SIZE + Asked(sgs, blen) * SW_DESC_SIZE < U32
  }

  lemma SlotsWhenSizeFits(nr: nat)
    requires REQUEST_CB_SIZE + nr * SW_DESC_SIZE < U32
    ensures Slots(nr) == nr
  {
  }

  /** A wrapped size leaves far fewer slots than two thirds of those asked for. */
  lemma SlotsWhenSizeWraps(nr: nat)
    requires REQUEST_CB_SIZE + nr * SW_DESC_SIZE >= U32
    ensures 3 * Slots(nr) < 2 * nr
  {
    if nr < 0x1800_0000 {
      assert W(nr) == nr;
      assert REQUEST_CB_SIZE + nr * SW_DESC_SIZE < 2 * U32;
    }
  }

  /** For non-empty entries of less than 4 GiB in all, the slots suffice exactly when the rounding
      sum wraps for no entry and the size of the block fits its unsigned int. */
  lemma AllocationSufficesIff(sgs: seq<Piece>, blen: nat)
    requires 0 < blen <= XDMA_DESC_BLEN_MAX && TotalLen(sgs) < U32
    requires forall i :: 0 <= i < |sgs| ==> sgs[i].len > 0
    ensures |Split(sgs, blen)| <= Room(sgs, blen) <==> NoWrap(sgs, blen) && SizeFits(sgs, blen)
  {
    hide Split, Extra, TotalLen, Slots;
    if !NoWrap(sgs, blen) {
      var w: nat :| w < |sgs| && sgs[w].len + blen > U32;
      WrapGivesNoRoom(sgs, blen, w);
      SplitAtLeast(sgs, blen, w);
    } else if SizeFits(sgs, blen) {
      AskedCoversSplit(sgs, blen);
      SlotsWhenSizeFits(Asked(sgs, blen));
    } else {
      AskedNearSplit(sgs, blen, 0);
      SlotsWhenSizeWraps(Asked(sgs, blen));
    }
  }

  /** The second condition does not follow from the first: 2 GiB in one entry, cut into pieces of
      8 bytes, ask for 2^28 + 1 slots and get none. */
  lemma SizeWrapsForSmallPieces(sgs: seq<Piece>)
    requires sgs == [Piece(0, 0x8000_0000)]
    ensures NoWrap(sgs, 8) && Asked(sgs, 8) == 0x1000_0001 && Room(sgs, 8) == 1
    ensures |Split(sgs, 8)| == 0x1000_0000
  {
    assert sgs[..0] == [];
    assert Split(sgs, 8) == [] + CutEntry(0, 0x8000_0000, 8);
    CutEntryCount(0, 0x8000_0000, 8);
    hide CutEntry;
    assert (0x8000_0000 + 7) % U32 == 0x8000_0007;
    assert ExtraFor(0x8000_0000, 8) == 0x8000_0007 / 8 == 0x1000_0000;
    assert Extra(sgs, 8) == Extra(sgs[..0], 8) + 0x1000_0000 == 0x1000_0000;
    assert W(REQUEST_CB_SIZE + 0x1000_0001 * SW_DESC_SIZE) == REQUEST_CB_SIZE + SW_DESC_SIZE;
  }

  /** `struct xdma_request_cb`. */
  class XdmaRequest {
    const sdesc: array<Piece>
    var swDescIdx: nat
    var swDescCnt: nat
    var epAddr: nat
    var totalLen: nat

    /** xdma_request_alloc and the assignment of the endpoint address. */
    constructor (nr: nat, epAddr: nat)
      ensures sdesc.Length == Slots(nr) && swDescIdx == 0 && swDescCnt == 0 && totalLen == 0
      ensures this.epAddr == epAddr && fresh(sdesc)
    {
      var slots := Slots(nr);
      sdesc := new Piece[slots](_ => Piece(0, 0));
      swDescIdx, swDescCnt, totalLen := 0, 0, 0;
      this.epAddr := epAddr;
    }
  }

  lemma SplitGrows(sgs: seq<Piece>, i: nat, blen: nat)
    requires blen > 0 && i <= |sgs|
    ensures |Split(sgs[..i], blen)| <= |Split(sgs, blen)|
    decreases |sgs|
  {
    if i < |sgs| {
      SplitGrows(sgs[..|sgs| - 1], i, blen);
      assert sgs[..|sgs| - 1][..i] == sgs[..i];
    } else {
      assert sgs[..i] == sgs;
    }
  }

  /** The first loop: slots beyond one an entry, in 32 bits. */
  method CountExtra(sgs: seq<Piece>, descBlenMax: nat) returns (extra: nat)
    requires 0 < descBlenMax
    ensures extra == W(Extra(sgs, descBlenMax))
  {
    hide Extra, W;
    ExtraEmpty(sgs, descBlenMax);
    extra := 0;
    for i := 0 to |sgs|
      invariant extra == W(Extra(sgs[..i], descBlenMax))
    {
      ExtraSnoc(sgs, i, descBlenMax);
      WAdd(Extra(sgs[..i], descBlenMax), ExtraFor(sgs[i].len, descBlenMax));
      var len := sgs[i].len;
      if len > descBlenMax {
        extra := W(extra + (len + descBlenMax - 1) % U32 / descBlenMax);
      }
    }
    assert sgs[..|sgs|] == sgs;
  }

  lemma ExtraEmpty(sgs: seq<Piece>, blen: nat)
    requires blen > 0
    ensures Extra(sgs[..0], blen) == 0 && W(0) == 0
  {
  }

  lemma ExtraSnoc(sgs: seq<Piece>, i: nat, blen: nat)
    requires blen > 0 && i < |sgs|
    ensures Extra(sgs[..i + 1], blen) == Extra(sgs[..i], blen) + ExtraFor(sgs[i].len, blen)
  {
    assert sgs[..i + 1][..i] == sgs[..i];
  }

  /** The inner loop of the second pass: the pieces of one entry, from slot j. It overruns the block
      exactly when they do not fit behind the others; the model ends there. */
  method FillEntry(sdesc: array<Piece>, j0: nat, sg: Piece, descBlenMax: nat) returns (j: nat, overrun: bool)
    requires 0 < descBlenMax && j0 <= sdesc.Length
    modifies sdesc
    ensures overrun <==> j0 + |CutEntry(sg.addr, sg.len, descBlenMax)| > sdesc.Length
    ensures !overrun ==>
      && j == j0 + |CutEntry(sg.addr, sg.len, descBlenMax)|
      && sdesc[..j] == old(sdesc[..j0]) + CutEntry(sg.addr, sg.len, descBlenMax)
  {
    ghost var goal := sdesc[..j0] + CutEntry(sg.addr, sg.len, descBlenMax);
    var tlen: nat, addr: nat := sg.len, sg.addr;
    j, overrun := j0, false;
    while tlen > 0
      invariant j <= sdesc.Length
      invariant j + |CutEntry(addr, tlen, descBlenMax)| == |goal|
      invariant sdesc[..j] + CutEntry(addr, tlen, descBlenMax) == goal
      decreases tlen
    {
      ghost var made, rest := sdesc[..j], CutEntry(addr, tlen, descBlenMax);
      if j == sdesc.Length {
        return j, true;
      }
      if tlen > descBlenMax {
        sdesc[j] := Piece(addr, descBlenMax);
        addr := addr + descBlenMax;
        tlen := tlen - descBlenMax;
      } else {
        sdesc[j] := Piece(addr, tlen);
        tlen := 0;
      }
      j := j + 1;
      assert sdesc[..j] == made + [rest[0]];
      assert rest == [rest[0]] + CutEntry(addr, tlen, descBlenMax);
    }
  }

  lemma SplitSnoc(sgs: seq<Piece>, i: nat, blen: nat)
    requires blen > 0 && i < |sgs|
    ensures Split(sgs[..i + 1], blen) == Split(sgs[..i], blen) + CutEntry(sgs[i].addr, sgs[i].len, blen)
    ensures TotalLen(sgs[..i + 1]) == TotalLen(sgs[..i]) + sgs[i].len
  {
    assert sgs[..i + 1][..i] == sgs[..i];
    BytesSnoc(sgs[..i + 1]);
  }

  /** An int holding the bits of a u32. */
  function AsInt(x: nat): int { if x < 0x8000_0000 then x else x - U32 }

  /** How xdma_init_request ends: with a request, at the "more than supported" exit, or writing past
      the block. */
  datatype InitEnd = Ready | TooMany | PastBlock

  function InitEndOf(sgs: seq<Piece>, blen: nat): InitEnd
    requires blen > 0
  {
    if |Split(sgs, blen)| > Room(sgs, blen) then PastBlock
    else if |Split(sgs, blen)| > AsInt(W(Asked(sgs, blen))) then TooMany
    else Ready
  }

  /** The "more than supported" exit is unreachable for lists of less than 2^30 entries: whenever the
      pieces would exceed the slots asked for, the block has been overrun before. */
  lemma TooManyUnreachable(sgs: seq<Piece>, blen: nat)
    requires blen > 0 && |sgs| < 0x4000_0000
    ensures InitEndOf(sgs, blen) != TooMany
  {
    hide Split, Extra;
    AskedNearSplit(sgs, blen, |sgs|);
  }

  method XdmaInitRequest(sgs: seq<Piece>, descBlenMax: nat, epAddr: nat) returns (end: InitEnd, req: XdmaRequest)
    requires 0 < descBlenMax
    ensures end == InitEndOf(sgs, descBlenMax)
    ensures fresh(req) && fresh(req.sdesc)
    ensures end == Ready ==>
      && req.swDescCnt <= req.sdesc.Length
      && req.sdesc[..req.swDescCnt] == Split(sgs, descBlenMax)
      && req.swDescIdx == 0 && req.epAddr == epAddr
      && req.totalLen == W(TotalLen(sgs))
  {
    hide CutEntry, Split, Extra, TotalLen, Slots, W;
    var extra := CountExtra(sgs, descBlenMax);
    var max := W(|sgs| + extra);
    AskedWord(sgs, descBlenMax);
    req := new XdmaRequest(max, epAddr);
    EmptySplit(sgs, descBlenMax);
    var j := 0;
    for i := 0 to |sgs|
      invariant fresh(req) && fresh(req.sdesc) && req.sdesc.Length == Room(sgs, descBlenMax)
      invariant 0 <= j <= req.sdesc.Length
      invariant req.sdesc[..j] == Split(sgs[..i], descBlenMax)
      invariant req.swDescIdx == 0 && req.epAddr == epAddr
      invariant req.totalLen == W(TotalLen(sgs[..i]))
    {
      SplitGrows(sgs, i + 1, descBlenMax);
      SplitSnoc(sgs, i, descBlenMax);
      WAdd(TotalLen(sgs[..i]), sgs[i].len);
      req.totalLen := W(req.totalLen + sgs[i].len);
      var overrun;
      j, overrun := FillEntry(req.sdesc, j, sgs[i], descBlenMax);
      if overrun {
        return PastBlock, req;
      }
    }
    assert sgs[..|sgs|] == sgs;
    if j > AsInt(max) {
      return TooMany, req;
    }
    req.swDescCnt := j;
    end := Ready;
  }

  lemma AskedWord(sgs: seq<Piece>, blen: nat)
    requires blen > 0
    ensures W(|sgs| + W(Extra(sgs, blen))) == W(Asked(sgs, blen))
    ensures Slots(W(Asked(sgs, blen))) == Slots(Asked(sgs, blen))
  {
    WAdd(Extra(sgs, blen), |sgs|);
    WSmall(W(Asked(sgs, blen)));
  }

  lemma EmptySplit(sgs: seq<Piece>, blen: nat)
    requires blen > 0
    ensures Split(sgs[..0], blen) == [] && TotalLen(sgs[..0]) == 0 && W(0) == 0
  {
  }
}
