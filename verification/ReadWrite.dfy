/** char_sgdma_read_write: from a user buffer to the bytes moved. */
module ReadWrite {
  import opened Words
  import opened Arithmetic
  import opened Errno
  import opened EngineSpec
  import opened EngineRuns
  import opened Xdma
  import opened EngineWait
  import opened Descriptors
  import opened Requests
  import opened Transfers
  import opened Copying
  import opened Submit
  import opened UserBuffer

  // ----- The mapping -----

  /** The table's pages on the bus, when page slot k starts at bus(k). */
  function OnBus(table: seq<SgPage>, bus: nat -> nat): (r: seq<Piece>)
    ensures |r| == |table|
  {
    seq(|table|, k requires 0 <= k < |table| => Piece(bus(k) + table[k].offset, table[k].len))
  }

  /** What dma_map_sg promises of a list it does not fail on: the bytes of the table, in order, wherever
      entries were merged. */
  ghost predicate KeepsBytes(sgs: seq<Piece>, table: seq<SgPage>, bus: nat -> nat) {
    Bytes(sgs) == Bytes(OnBus(table, bus))
  }

  /** The bus address of byte b of the user buffer. */
  function UserByte(buf: nat, b: nat, bus: nat -> nat): nat {
    PageByte(buf / PAGE_SIZE, buf + b, bus)
  }

  /** The bus address of user address u, when page `first` is in slot 0. */
  function PageByte(first: nat, u: nat, bus: nat -> nat): nat
    requires first <= u / PAGE_SIZE
  {
    bus(u / PAGE_SIZE - first) + u % PAGE_SIZE
  }

  /** The pieces of the pages from buf on, the first of them in slot `slot`. */
  ghost predicate Placed(pieces: seq<Piece>, buf: nat, len: nat, slot: nat, bus: nat -> nat) {
    var ps := PagePieces(buf, len);
    && |pieces| == |ps|
    && forall k :: 0 <= k < |ps| ==> pieces[k] == Piece(bus(slot + k) + ps[k].addr % PAGE_SIZE, ps[k].len)
  }

  lemma InFirstPage(buf: nat, len: nat, b: nat)
    requires b < Min(PAGE_SIZE - buf % PAGE_SIZE, len)
    ensures (buf + b) / PAGE_SIZE == buf / PAGE_SIZE && (buf + b) % PAGE_SIZE == buf % PAGE_SIZE + b
  {
  }

  lemma RestPlaced(pieces: seq<Piece>, buf: nat, len: nat, slot: nat, bus: nat -> nat)
    requires Placed(pieces, buf, len, slot, bus) && len > 0
    ensures var n := Min(PAGE_SIZE - buf % PAGE_SIZE, len);
      && pieces != [] && pieces[0] == Piece(bus(slot) + buf % PAGE_SIZE, n)
      && Placed(pieces[1..], buf + n, len - n, slot + 1, bus)
  {
    var n := Min(PAGE_SIZE - buf % PAGE_SIZE, len);
    var ps, rest := PagePieces(buf, len), PagePieces(buf + n, len - n);
    assert ps == [Piece(buf, n)] + rest;
    hide PagePieces;
    forall k | 0 <= k < |rest|
      ensures pieces[1..][k] == Piece(bus(slot + 1 + k) + rest[k].addr % PAGE_SIZE, rest[k].len)
    {
      assert rest[k] == ps[k + 1];
    }
  }

  lemma {:induction false} PlacedBytes(pieces: seq<Piece>, buf: nat, len: nat, slot: nat, first: nat, bus: nat -> nat)
    requires Placed(pieces, buf, len, slot, bus) && buf / PAGE_SIZE == first + slot
    ensures |Bytes(pieces)| == len
    ensures forall b :: 0 <= b < len ==> Bytes(pieces)[b] == PageByte(first, buf + b, bus)
    decreases len
  {
    if len > 0 {
      var n := Min(PAGE_SIZE - buf % PAGE_SIZE, len);
      FirstPiece(buf, len);
      RestPlaced(pieces, buf, len, slot, bus);
      if n < len {
        PlacedBytes(pieces[1..], buf + n, len - n, slot + 1, first, bus);
      } else {
        assert pieces[1..] == [];
      }
      hide PagePieces, Placed;
      forall b | 0 <= b < len ensures Bytes(pieces)[b] == PageByte(first, buf + b, bus) {
        if b < n {
          InFirstPage(buf, len, b);
        } else {
          assert buf + n + (b - n) == buf + b;
        }
      }
    }
  }

  /** Byte b of the mapped list is byte b of the user buffer. */
  lemma MappedBytes(sgs: seq<Piece>, buf: nat, len: nat, pages: seq<nat>, bus: nat -> nat)
    requires if len > 0 then |pages| == |PagePieces(buf, len)| else |pages| == 1
    requires KeepsBytes(sgs, Table(buf, len, pages), bus)
    ensures |Bytes(sgs)| == len
    ensures forall b :: 0 <= b < len ==> Bytes(sgs)[b] == UserByte(buf, b, bus)
  {
    var pieces := OnBus(Table(buf, len, pages), bus);
    if len > 0 {
      hide PagePieces, Bytes;
      PlacedBytes(pieces, buf, len, 0, buf / PAGE_SIZE, bus);
    } else {
      assert pieces == [Piece(bus(0) + buf % PAGE_SIZE, 0)] && pieces[1..] == [];
    }
  }

  // ----- The call -----

  /** The copies move the first done bytes of the user buffer, byte b to or from device address pos + b,
      or in non-incremental mode pos. */
  ghost predicate MovesUser(cs: seq<Copy>, buf: nat, done: nat, pos: nat, bus: nat -> nat, nonIncr: bool) {
    var ms := Moves(cs, nonIncr);
    && |ms| == done
    && forall b :: 0 <= b < done ==> ms[b] == (UserByte(buf, b, bus), (pos + if nonIncr then 0 else b) % U64)
  }

  lemma FirstMovesUser(cs: seq<Copy>, sgs: seq<Piece>, buf: nat, len: nat, pages: seq<nat>, bus: nat -> nat, done: nat,
                       pos: nat, nonIncr: bool)
    requires if len > 0 then |pages| == |PagePieces(buf, len)| else |pages| == 1
    requires KeepsBytes(sgs, Table(buf, len, pages), bus) && MovesFirst(cs, sgs, done, pos, nonIncr)
    ensures done <= len && MovesUser(cs, buf, done, pos, bus, nonIncr)
  {
    hide Moves, UserByte, Bytes, KeepsBytes, Table, PagePieces;
    MappedBytes(sgs, buf, len, pages, bus);
  }

  /** char_sgdma_read_write, the hardware's part, the pinned pages and the mapping being supplied. The
      call fails without programming anything if the direction or the alignment is wrong or the table
      cannot be built. Otherwise the completed rounds, run to their end, move exactly a prefix of the
      user buffer, byte b to or from device address pos + b (pos in non-incremental mode), and the
      result is its length or the error if it is empty; on an idle engine that reports every transfer
      it is the whole buffer. */
  method CharSgdmaReadWrite(e: XdmaEngine, ring: DescRing, addrAlign: nat, lenGranularity: nat, write: bool,
                            buf: nat, count: nat, pos: nat, tableOk: bool, pin: Pin,
                            mapping: seq<SgPage> -> seq<Piece>, ghost bus: nat -> nat, descBlenMax: nat,
                            inputs: nat -> WaitInput)
    returns (end: CallEnd, ghost rounds: seq<Round>)
    requires e.Valid() && Settled(e.model) && ring.Valid() && ring.descBus % DESC_SIZE == 0 && e.dir == ring.dir
    requires 0 < descBlenMax && pos < U64 && buf + count + PAGE_SIZE <= U64
    requires pin.PinError? ==> pin.errno > 0
    requires forall table :: mapping(table) == [] || KeepsBytes(mapping(table), table, bus)
    modifies e, e.transferList, ring`descIdx, ring`descUsed, ring.desc
    ensures e.Valid() && Settled(e.model) && ring.Valid()
    ensures var check := CheckTransferAlign(Alignments(addrAlign, lenGranularity, ring.nonIncrAddr), buf, count, pos, true);
      && (write != e.dir.ToDevice? ==> end == Returned(-EINVAL))
      && (write == e.dir.ToDevice? && check != 0 ==> end == Returned(check))
      && (write == e.dir.ToDevice? && check == 0 && !Mappable(buf, count, tableOk, pin) ==>
            end.Returned? && end.result < 0)
      && (write != e.dir.ToDevice? || check != 0 || !Mappable(buf, count, tableOk, pin) ==>
            rounds == [] && e.model == old(e.model) && ring.descUsed == old(ring.descUsed))
      && (write == e.dir.ToDevice? && check == 0 && Mappable(buf, count, tableOk, pin) ==>
            && (count > 0 ==> |pin.pages| == |PagePieces(buf, count)|)
            && var sgs := mapping(Table(buf, count, pin.pages));
               if old(e.offline) then end == Returned(-EBUSY)
               else if sgs == [] then end == Returned(-EIO)
               else if InitEndOf(sgs, descBlenMax) == PastBlock then end == Overran
               else if InitEndOf(sgs, descBlenMax) == TooMany then end == Returned(-ENOMEM)
               else
                 var ps := Split(sgs, descBlenMax);
                 var p := Rounds(|ps|, old(ring.descIdx), ring.desc.Length, old(e.model), inputs, 0);
                 var done := TotalLen(ps[..p.completed]);
                 && end == Returned(if done > 0 then done else p.rv)
                 && done <= count
                 && MovesUser(AllCopies(CompletedRounds(rounds, p.rv), ring.dir), buf, done, pos, bus, ring.nonIncrAddr)
                 && (ring.desc.Length < U32 && Idle(old(e.model))
                     && AllReported(|ps|, old(ring.descIdx), ring.desc.Length, e.dir, inputs, 0) ==>
                       done == count && end == Returned(count)))
  {
    hide MovesUser, KeepsBytes, Bytes, Settled, Distinct, Show, Rounds, Split, TotalLen, Table, PagePieces, Mappable,
         CheckTransferAlign, InitEndOf, Programmed, MovesFirst, CompletedRounds, AllCopies, AllReported, Idle;
    rounds := [];
    if write != e.dir.ToDevice? {
      return Returned(-EINVAL), [];
    }
    var check := CheckTransferAlign(Alignments(addrAlign, lenGranularity, ring.nonIncrAddr), buf, count, pos, true);
    if check != 0 {
      return Returned(check), [];
    }
    var rv, sgl := MapUserBuf(buf, count, tableOk, pin);
    if rv < 0 {
      return Returned(rv), [];
    }
    MappablePages(buf, count, tableOk, pin);
    var sgs := mapping(sgl[..]);
    MappedLen(sgs, buf, count, pin.pages, bus);
    ghost var s, idx, offline := e.model, ring.descIdx, e.offline;
    end, rounds := XdmaXferSubmit(e, ring, write, pos, sgs, descBlenMax, inputs);
    if !offline && sgs != [] && InitEndOf(sgs, descBlenMax) == Ready {
      ghost var ps := Split(sgs, descBlenMax);
      ghost var p := Rounds(|ps|, idx, ring.desc.Length, s, inputs, 0);
      FirstMovesUser(AllCopies(CompletedRounds(rounds, p.rv), ring.dir), sgs, buf, count, pin.pages, bus,
                     TotalLen(ps[..p.completed]), pos, ring.nonIncrAddr);
      ReportedReturnsAll(sgs, descBlenMax, pos, idx, ring.desc.Length, s, inputs);
    }
  }

  lemma ReportedReturnsAll(sgs: seq<Piece>, blen: nat, pos: nat, idx: nat, max: nat, s: EngineState, inputs: nat -> WaitInput)
    requires blen > 0 && idx < max
    ensures var ps := Split(sgs, blen);
      var p := Rounds(|ps|, idx, max, s, inputs, 0);
      max < U32 && Idle(s) && AllReported(|ps|, idx, max, s.dir, inputs, 0) ==>
        TotalLen(ps[..p.completed]) == TotalLen(sgs) && p.rv == 0
  {
    hide Rounds, Split, TotalLen, AllReported, Idle, Moves, Straight;
    if max < U32 && Idle(s) && AllReported(|Split(sgs, blen)|, idx, max, s.dir, inputs, 0) {
      EndToEnd(sgs, blen, pos, false, idx, max, s, inputs);
    }
  }

  lemma MappedLen(sgs: seq<Piece>, buf: nat, len: nat, pages: seq<nat>, bus: nat -> nat)
    requires if len > 0 then |pages| == |PagePieces(buf, len)| else |pages| == 1
    requires sgs == [] || KeepsBytes(sgs, Table(buf, len, pages), bus)
    ensures sgs == [] ==> TotalLen(sgs) == 0
    ensures sgs != [] ==> TotalLen(sgs) == len
  {
    if sgs != [] {
      MappedBytes(sgs, buf, len, pages, bus);
      BytesLen(sgs);
    }
  }
}
