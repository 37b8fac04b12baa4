/** cdev_sgdma.c: cutting a user buffer at page boundaries, and the alignment check. */
module UserBuffer {
  import opened Words
  import opened Arithmetic
  import opened Errno
  import opened Bits
  import opened Requests
  import opened Transfers

  const PAGE_SIZE := 4096

  /** What get_user_pages_fast came back with. */
  datatype Pin = PinError(errno: int) | Pinned(pages: seq<nat>)

  /** A scatterlist entry as sg_set_page leaves it. */
  datatype SgPage = SgPage(page: nat, len: nat, offset: nat)

  /** The bytes of [buf, buf + len) page by page, as user addresses. */
  function PagePieces(buf: nat, len: nat): seq<Piece>
    decreases len
  {
    if len == 0 then []
    else
      var n := Min(PAGE_SIZE - buf % PAGE_SIZE, len);
      [Piece(buf, n)] + PagePieces(buf + n, len - n)
  }

  /** The page count the driver computes, before truncation to 32 bits. */
  function PageCount(buf: nat, len: nat): nat {
    (buf + len + PAGE_SIZE - 1 - (buf - buf % PAGE_SIZE)) / PAGE_SIZE
  }

  /** The computed count is the number of pages touched; an empty buffer that does not start a page
      is counted as one. */
  lemma {:induction false} PieceCountIsPageCount(buf: nat, len: nat)
    ensures |PagePieces(buf, len)| == PageCount(buf, len) <==> len > 0 || buf % PAGE_SIZE == 0
    ensures len > 0 ==> PageCount(buf, len) == (buf + len - 1) / PAGE_SIZE - buf / PAGE_SIZE + 1
    ensures len > 0 ==> |PagePieces(buf, len)| == PageCount(buf, len)
    decreases len
  {
    if len > 0 {
      var n := Min(PAGE_SIZE - buf % PAGE_SIZE, len);
      PieceCountIsPageCount(buf + n, len - n);
    }
  }

  /** The first piece fills its page or ends the buffer; the next one starts the next page. */
  lemma FirstPiece(buf: nat, len: nat)
    requires len > 0
    ensures var n := Min(PAGE_SIZE - buf % PAGE_SIZE, len);
      && 0 < n <= len
      && (buf + n - 1) / PAGE_SIZE == buf / PAGE_SIZE
      && (n < len ==> (buf + n) / PAGE_SIZE == buf / PAGE_SIZE + 1)
  {
  }

  /** For every buffer the pieces are one for each page touched, in order; each is non-empty and
      stays inside its page; together they are exactly the bytes of the buffer. */
  lemma {:induction false} PagePiecesTile(buf: nat, len: nat)
    ensures var ps := PagePieces(buf, len);
      && Bytes(ps) == Span(buf, len) && TotalLen(ps) == len
      && forall i :: 0 <= i < |ps| ==>
           && ps[i].len > 0
           && ps[i].addr / PAGE_SIZE == (ps[i].addr + ps[i].len - 1) / PAGE_SIZE == buf / PAGE_SIZE + i
    decreases len
  {
    if len > 0 {
      var n := Min(PAGE_SIZE - buf % PAGE_SIZE, len);
      var ps, rest := PagePieces(buf, len), PagePieces(buf + n, len - n);
      FirstPiece(buf, len);
      PagePiecesTile(buf + n, len - n);
      assert ps == [Piece(buf, n)] + rest;
      assert len == n ==> rest == [];
      assert Span(buf, len) == Span(buf, n) + Span(buf + n, len - n);
      hide PagePieces, Bytes, TotalLen;
      forall i | 0 <= i < |ps|
        ensures ps[i].len > 0
        ensures ps[i].addr / PAGE_SIZE == (ps[i].addr + ps[i].len - 1) / PAGE_SIZE == buf / PAGE_SIZE + i
      {
        if i > 0 { assert ps[i] == rest[i - 1] && n < len; }
      }
    }
  }

  /** The table of a buffer whose pages are pinned: entry k is the part of the buffer in its k-th page. An
      empty buffer that does not start a page has one empty entry. */
  function Table(buf: nat, len: nat, pages: seq<nat>): (r: seq<SgPage>)
    requires len > 0 ==> |pages| == |PagePieces(buf, len)|
    ensures |r| == |pages|
  {
    var ps := PagePieces(buf, len);
    seq(|pages|, k requires 0 <= k < |pages| =>
      if len == 0 then SgPage(pages[k], 0, buf % PAGE_SIZE)
      else SgPage(pages[k], ps[k].len, ps[k].addr % PAGE_SIZE))
  }

  /** The loop that fills the table; `left` is what remains of the length. */
  method FillTable(sgl: array<SgPage>, pages: seq<nat>, buf0: nat, len0: nat) returns (left: nat)
    requires sgl.Length == |pages|
    requires len0 == 0 ==> |pages| <= 1
    requires len0 < U32 && len0 > 0 ==> |pages| == PageCount(buf0, len0)
    modifies sgl
    ensures left == 0 <==> len0 < U32
    ensures len0 > 0 ==> |PagePieces(buf0, len0)| == PageCount(buf0, len0)
    ensures len0 < U32 ==> sgl[..] == Table(buf0, len0, pages)
  {
    ghost var ps := PagePieces(buf0, len0);
    PieceCountIsPageCount(buf0, len0);
    var buf: nat, len: nat := buf0, len0;
    for i := 0 to |pages|
      invariant len0 >= U32 ==> len >= U32
      invariant len0 < U32 ==> len < U32
      invariant 0 < len0 < U32 ==> PagePieces(buf, len) == ps[i..]
      invariant 0 < len0 < U32 ==> forall k :: 0 <= k < i ==> sgl[k] == SgPage(pages[k], ps[k].len, ps[k].addr % PAGE_SIZE)
      invariant len0 == 0 ==> len == 0 && buf == buf0
      invariant len0 == 0 ==> forall k :: 0 <= k < i ==> sgl[k] == SgPage(pages[k], 0, buf0 % PAGE_SIZE)
    {
      var offset := buf % PAGE_SIZE;
      var nbytes := Min(PAGE_SIZE - offset, len % U32);
      sgl[i] := SgPage(pages[i], nbytes, offset);
      buf := buf + nbytes;
      len := len - nbytes;
    }
    left := len;
  }

  predicate Usable(pin: Pin, pagesNr: nat) {
    && pin.Pinned?
    && |pin.pages| == pagesNr
    && forall i, j :: 0 <= i < |pin.pages| - 1 && j == i + 1 ==> pin.pages[i] != pin.pages[j]
  }

  /** Whether the table can be built. */
  predicate Mappable(buf: nat, len: nat, tableOk: bool, pin: Pin) {
    && tableOk && PageCount(buf, len) % U32 != 0
    && Usable(pin, PageCount(buf, len) % U32) && len < U32
  }

  lemma MappablePages(buf: nat, len: nat, tableOk: bool, pin: Pin)
    requires Mappable(buf, len, tableOk, pin)
    ensures pin.Pinned? && len < U32
    ensures len > 0 ==> |pin.pages| == |PagePieces(buf, len)|
    ensures len == 0 ==> |pin.pages| == 1
  {
    SmallCounts(buf, len);
    PieceCountIsPageCount(buf, len);
  }

  /** char_sgdma_map_user_buf_to_sgl. Once the pages are pinned it succeeds exactly for buffers
      below 4 GiB that touch a page at all, and then entry k covers the bytes of the buffer in its
      k-th page. For longer buffers the per-page length is truncated to 32 bits and the leftover
      check fails. */
  method MapUserBuf(buf: nat, len: nat, tableOk: bool, pin: Pin) returns (rv: int, sgl: array<SgPage>)
    requires buf + len + PAGE_SIZE <= U64
    requires pin.PinError? ==> pin.errno > 0
    ensures rv <= 0 && (rv == 0 <==> Mappable(buf, len, tableOk, pin))
    ensures PageCount(buf, len) % U32 == 0 ==> rv == -EINVAL
    ensures rv == 0 ==>
      && (if len > 0 then |pin.pages| == |PagePieces(buf, len)| else |pin.pages| == 1)
      && sgl[..] == Table(buf, len, pin.pages)
  {
    var pagesNr := PageCount(buf, len) % U32;
    sgl := new SgPage[0];
    if pagesNr == 0 {
      return -EINVAL, sgl;
    }
    if !tableOk {
      return -ENOMEM, sgl;
    }
    if pin.PinError? {
      return -pin.errno, sgl;
    }
    if |pin.pages| != pagesNr {
      return -EFAULT, sgl;
    }
    for i := 1 to pagesNr
      invariant forall k, j :: 0 <= k < i - 1 && j == k + 1 ==> pin.pages[k] != pin.pages[j]
    {
      if pin.pages[i - 1] == pin.pages[i] {
        return -EFAULT, sgl;
      }
    }
    sgl := new SgPage[pagesNr](_ => SgPage(0, 0, 0));
    SmallCounts(buf, len);
    var left := FillTable(sgl, pin.pages, buf, len);
    if left > 0 {
      return -EINVAL, sgl;
    }
    rv := 0;
  }

  lemma SmallCounts(buf: nat, len: nat)
    ensures len == 0 ==> PageCount(buf, len) <= 1
    ensures len < U32 ==> PageCount(buf, len) < U32
  {
  }

  // ----- Alignment -----

  /** The engine properties check_transfer_align reads; u8 fields. */
  datatype Alignments = Alignments(addrAlign: nat, lenGranularity: nat, nonIncrAddr: bool)

  /** x & (m - 1) for a u8 m, in the given word size; m == 0 masks nothing off. */
  function LowBits(x: nat, m: nat, word: nat): nat
    requires word > 0
  {
    if m == 0 then x % word else And(x % word, m - 1)
  }

  function CheckTransferAlign(e: Alignments, buf: nat, count: nat, pos: nat, sync: bool): int {
    var bufLsb := LowBits(buf, e.addrAlign, U32);
    var posLsb := LowBits(pos, e.addrAlign, U32);
    if e.nonIncrAddr then
      if bufLsb != 0 then -EINVAL
      else if posLsb != 0 && sync then -EINVAL
      else if LowBits(count, e.lenGranularity, U64) != 0 then -EINVAL
      else 0
    else if bufLsb != posLsb then -EINVAL
    else 0
  }

  predicate Congruent(x: nat, y: nat, m: nat)
    requires m > 0
  {
    x % m == y % m
  }

  /** Piece i sits at the phase its position in the buffer asks for, modulo m. */
  predicate PhaseAt(ps: seq<Piece>, i: nat, buf: nat, m: nat)
    requires m > 0 && i < |ps|
  {
    Congruent(ps[i].addr, buf + TotalLen(ps[..i]), m)
  }

  ghost predicate InPhase(ps: seq<Piece>, buf: nat, m: nat)
    requires m > 0
  {
    forall i :: 0 <= i < |ps| ==> PhaseAt(ps, i, buf, m)
  }

  lemma PhaseAtConcat(a: seq<Piece>, b: seq<Piece>, i: nat, buf: nat, m: nat)
    requires m > 0 && i < |a + b|
    ensures PhaseAt(a + b, i, buf, m)
        == if i < |a| then PhaseAt(a, i, buf, m) else PhaseAt(b, i - |a|, buf + TotalLen(a), m)
  {
    hide TotalLen, Bytes, Congruent;
    TakeConcat(a, b, i);
    if i >= |a| {
      BytesConcat(a, b[..i - |a|]);
      assert buf + TotalLen((a + b)[..i]) == buf + TotalLen(a) + TotalLen(b[..i - |a|]);
    }
  }

  lemma InPhaseConcat(a: seq<Piece>, b: seq<Piece>, buf: nat, m: nat)
    requires m > 0 && InPhase(a, buf, m) && InPhase(b, buf + TotalLen(a), m)
    ensures InPhase(a + b, buf, m)
  {
    hide PhaseAt, TotalLen;
    forall i | 0 <= i < |a + b| ensures PhaseAt(a + b, i, buf, m) {
      PhaseAtConcat(a, b, i, buf, m);
    }
  }

  lemma {:induction false} CutEntryInPhase(addr: nat, len: nat, blen: nat, buf: nat, m: nat)
    requires m > 0 && blen > 0 && addr % m == buf % m
    ensures InPhase(CutEntry(addr, len, blen), buf, m)
    decreases len
  {
    var r := CutEntry(addr, len, blen);
    if len > blen {
      ModAdd(addr, blen, m);
      ModAdd(buf, blen, m);
      CutEntryInPhase(addr + blen, len - blen, blen, buf + blen, m);
      BytesOne(Piece(addr, blen));
      InPhaseConcat([Piece(addr, blen)], CutEntry(addr + blen, len - blen, blen), buf, m);
    }
  }

  /** Cutting at desc_blen_max keeps every piece in phase. */
  lemma {:induction false} SplitInPhase(sgs: seq<Piece>, blen: nat, buf: nat, m: nat)
    requires m > 0 && blen > 0 && InPhase(sgs, buf, m)
    ensures InPhase(Split(sgs, blen), buf, m)
    decreases |sgs|
  {
    if sgs != [] {
      var n := |sgs| - 1;
      forall i | 0 <= i < n ensures PhaseAt(sgs[..n], i, buf, m) {
        assert sgs[..n][..i] == sgs[..i] && PhaseAt(sgs, i, buf, m);
      }
      assert PhaseAt(sgs, n, buf, m);
      SplitInPhase(sgs[..n], blen, buf, m);
      SplitTiles(sgs[..n], blen);
      CutEntryInPhase(sgs[n].addr, sgs[n].len, blen, buf + TotalLen(sgs[..n]), m);
      InPhaseConcat(Split(sgs[..n], blen), CutEntry(sgs[n].addr, sgs[n].len, blen), buf, m);
    }
  }

  /** A DMA mapping of the page pieces, entry by entry, that keeps lengths and in-page offsets. */
  ghost predicate KeepsOffsets(sgs: seq<Piece>, ps: seq<Piece>) {
    && |sgs| == |ps|
    && forall i :: 0 <= i < |ps| ==> sgs[i].len == ps[i].len && sgs[i].addr % PAGE_SIZE == ps[i].addr % PAGE_SIZE
  }

  lemma {:induction false} PagePieceStarts(buf: nat, len: nat, i: nat)
    requires i < |PagePieces(buf, len)|
    ensures PagePieces(buf, len)[i].addr == buf + TotalLen(PagePieces(buf, len)[..i])
    decreases i
  {
    if i > 0 {
      var n := Min(PAGE_SIZE - buf % PAGE_SIZE, len);
      PagePieceStarts(buf + n, len - n, i - 1);
      assert PagePieces(buf, len)[..i][1..] == PagePieces(buf + n, len - n)[..i - 1];
    }
  }

  lemma {:induction false} SameLens(a: seq<Piece>, b: seq<Piece>)
    requires |a| == |b| && forall i :: 0 <= i < |a| ==> a[i].len == b[i].len
    ensures TotalLen(a) == TotalLen(b)
  {
    if a != [] { SameLens(a[1..], b[1..]); }
  }

  lemma MappedInPhase(sgs: seq<Piece>, buf: nat, len: nat)
    requires KeepsOffsets(sgs, PagePieces(buf, len))
    ensures InPhase(sgs, buf, PAGE_SIZE)
  {
    var ps := PagePieces(buf, len);
    forall i | 0 <= i < |sgs| ensures PhaseAt(sgs, i, buf, PAGE_SIZE) {
      PagePieceStarts(buf, len, i);
      SameLens(sgs[..i], ps[..i]);
    }
  }

  lemma FinerPhase(ps: seq<Piece>, buf: nat, p: nat)
    requires p <= 12 && InPhase(ps, buf, PAGE_SIZE)
    ensures InPhase(ps, buf, Pow2(p))
  {
    Pow2Values();
    hide TotalLen;
    forall i | 0 <= i < |ps| ensures PhaseAt(ps, i, buf, Pow2(p)) {
      assert PhaseAt(ps, i, buf, PAGE_SIZE);
      ModOfPow2(ps[i].addr, p, 12);
      ModOfPow2(buf + TotalLen(ps[..i]), p, 12);
    }
  }

  lemma LowBitsAreRemainder(x: nat, p: nat)
    requires p <= 12
    ensures LowBits(x, Pow2(p), U32) == x % Pow2(p)
  {
    Pow2Values();
    AndMask(x % U32, p);
    ModOfPow2(x, p, 32);
  }

  /** The check accepts exactly when the two addresses agree modulo the alignment. */
  lemma CheckAcceptsIff(e: Alignments, p: nat, buf: nat, count: nat, pos: nat, sync: bool)
    requires !e.nonIncrAddr && p <= 12 && e.addrAlign == Pow2(p)
    ensures CheckTransferAlign(e, buf, count, pos, sync) == 0 <==> buf % Pow2(p) == pos % Pow2(p)
  {
    LowBitsAreRemainder(buf, p);
    LowBitsAreRemainder(pos, p);
    hide LowBits;
  }

  lemma SameShift(x: nat, y: nat, off: nat, m: nat)
    requires m > 0 && x % m == y % m
    ensures (x + off) % m == (y + off) % m
  {
    ModAdd(x, off, m);
    ModAdd(y, off, m);
  }

  lemma DeviceAddress(ps: seq<Piece>, pos: nat, i: nat, p: nat)
    requires i < |ps| && p <= 12
    ensures Copies(ps, pos, false)[i].dev % Pow2(p) == (pos + TotalLen(ps[..i])) % Pow2(p)
  {
    hide TotalLen, Pow2;
    Pow2Values();
    ModOfPow2(pos + TotalLen(ps[..i]), p, 64);
  }

  lemma HostAddress(ps: seq<Piece>, buf: nat, i: nat, m: nat)
    requires m > 0 && i < |ps| && InPhase(ps, buf, m)
    ensures ps[i].addr % m == (buf + TotalLen(ps[..i])) % m
  {
    hide TotalLen;
    assert PhaseAt(ps, i, buf, m);
  }

  /** One check covers every descriptor: when the alignment is a power of two dividing the page size
      and the check accepts, the i-th descriptor of the request has its host address and its device
      address equal modulo the alignment, wherever the buffer is cut. */
  lemma CheckedTransferIsAligned(
    e: Alignments, p: nat, buf: nat, len: nat, pos: nat, sgs: seq<Piece>, blen: nat, i: nat)
    requires !e.nonIncrAddr && p <= 12 && e.addrAlign == Pow2(p)
    requires CheckTransferAlign(e, buf, len, pos, true) == 0
    requires KeepsOffsets(sgs, PagePieces(buf, len))
    requires blen > 0 && i < |Split(sgs, blen)|
    ensures var c := Copies(Split(sgs, blen), pos, false)[i];
      c.host % e.addrAlign == c.dev % e.addrAlign
  {
    hide CheckTransferAlign, TotalLen, Split, LowBits, InPhase, Pow2, KeepsOffsets;
    var ps := Split(sgs, blen);
    CheckAcceptsIff(e, p, buf, len, pos, true);
    MappedInPhase(sgs, buf, len);
    FinerPhase(sgs, buf, p);
    SplitInPhase(sgs, blen, buf, Pow2(p));
    HostAddress(ps, buf, i, Pow2(p));
    DeviceAddress(ps, pos, i, p);
    SameShift(buf, pos, TotalLen(ps[..i]), Pow2(p));
  }
}
