/** The 32-byte descriptors of libxdma.h: the control-word setters, the prefetch ("adjacent")
    counts, and what an engine that prefetches blocks by those counts visits. */
module Descriptors {
  import opened Words
  import opened Arithmetic
  const DESC_SIZE := 32
  const XDMA_PAGE_SIZE := 0x1000
  const XDMA_MAX_ADJ_BLOCK_SIZE := 0x40

  const DESC_MAGIC: bv32 := 0xAD4B_0000
  const LS_BYTE_MASK: bv32 := 0x0000_00FF
  const XDMA_DESC_STOPPED: bv32 := 0x01
  const XDMA_DESC_COMPLETED: bv32 := 0x02
  const XDMA_DESC_EOP: bv32 := 0x10

  /** `struct xdma_desc`. */
  datatype Desc = Desc(
    control: bv32, bytes: nat,
    srcLo: nat, srcHi: nat, dstLo: nat, dstHi: nat, nextLo: nat, nextHi: nat)

  function Lo(a: nat): nat { a % U32 }
  function Hi(a: nat): nat { a / U32 }
  function Address(lo: nat, hi: nat): nat { hi * U32 + lo }
  function Next(d: Desc): nat { Address(d.nextLo, d.nextHi) }

  // ----- The control word -----

  /** xdma_desc_adjacent: keeps bits 0-7 and 12-15 of the old word. */
  function SetAdjacent(control: bv32, adjacent: bv32): bv32 {
    (control & 0x0000_F0FF) | (DESC_MAGIC | (adjacent << 8))
  }

  /** xdma_desc_control_set; a field outside the low byte is refused and changes nothing. */
  function SetControl(control: bv32, field: bv32): bv32 {
    if field & !LS_BYTE_MASK != 0 then control else (control & !LS_BYTE_MASK) | field
  }

  /** xdma_desc_link: drops the adjacent count. */
  function RelinkControl(control: bv32): bv32 { (control & 0x00FF_C0FF) | DESC_MAGIC }

  /** What the engine reads: magic in the upper half, six bits of adjacent count, the flags. */
  function MagicOf(control: bv32): bv32 { control >> 16 }
  function AdjacentBits(control: bv32): bv32 { (control >> 8) & 0x3F }
  function FlagsOf(control: bv32): bv32 { control & LS_BYTE_MASK }

  function AdjacentOf(control: bv32): nat { (AdjacentBits(control) as bv6) as nat }
  predicate StopFlag(control: bv32) { control & XDMA_DESC_STOPPED != 0 }

  function AdjacentWord(n: nat): bv32
    requires n < XDMA_MAX_ADJ_BLOCK_SIZE
  {
    (n as bv6) as bv32
  }

  /** A word that has seen only transfer_desc_init and the control setter. */
  predicate Fresh(control: bv32) { control & !LS_BYTE_MASK == DESC_MAGIC }

  lemma AdjacentWordReadsBack(n: nat)
    requires n < XDMA_MAX_ADJ_BLOCK_SIZE
    ensures AdjacentWord(n) < 0x40 && ((AdjacentWord(n) as bv6) as nat) == n
  {
    assert (n as bv6) as nat == n;
    assert ((n as bv6) as bv32) as bv6 == n as bv6;
  }

  /** The count written by xdma_desc_adjacent is the one the engine reads back exactly when no old
      bit 12 or 13 sticks out of it; magic is set and the flags survive whatever the old word. */
  lemma SetAdjacentReadsBackIff(control: bv32, adjacent: bv32)
    requires adjacent < 0x40
    ensures AdjacentBits(SetAdjacent(control, adjacent)) == adjacent
       <==> (control >> 8) & 0x30 & !adjacent == 0
    ensures MagicOf(SetAdjacent(control, adjacent)) == 0xAD4B
    ensures FlagsOf(SetAdjacent(control, adjacent)) == FlagsOf(control)
  {
  }

  lemma SetAdjacentOnFresh(control: bv32, n: nat)
    requires Fresh(control) && n < XDMA_MAX_ADJ_BLOCK_SIZE
    ensures AdjacentOf(SetAdjacent(control, AdjacentWord(n))) == n
  {
    AdjacentWordReadsBack(n);
    FreshBits(control);
    hide MagicOf, FlagsOf, Fresh;
    SetAdjacentReadsBackIff(control, AdjacentWord(n));
  }

  lemma FreshBits(control: bv32)
    requires Fresh(control)
    ensures (control >> 8) & 0x30 == 0
  {
  }

  /** The flag setter keeps count and magic. */
  lemma SetControlKeepsTheRest(control: bv32, field: bv32)
    ensures AdjacentBits(SetControl(control, field)) == AdjacentBits(control)
    ensures MagicOf(SetControl(control, field)) == MagicOf(control)
    ensures field & !LS_BYTE_MASK == 0 ==> FlagsOf(SetControl(control, field)) == field
  {
    SetControlMagic(control, field);
    hide MagicOf;
  }

  lemma SetControlMagic(control: bv32, field: bv32)
    ensures MagicOf(SetControl(control, field)) == MagicOf(control)
  {
  }

  /** Linking keeps flags and magic and clears the count. */
  lemma RelinkKeepsTheRest(control: bv32)
    ensures FlagsOf(RelinkControl(control)) == FlagsOf(control)
    ensures AdjacentBits(RelinkControl(control)) == 0
    ensures MagicOf(control) == 0xAD4B ==> MagicOf(RelinkControl(control)) == 0xAD4B
  {
  }

  // ----- xdma_get_next_adj -----

  function NextAdj(remaining: nat, nextLo: nat): (r: nat)
    ensures r < XDMA_MAX_ADJ_BLOCK_SIZE
    ensures r == 0 || r < remaining
  {
    if remaining <= 1 then 0
    else
      var nextIndex := nextLo % XDMA_PAGE_SIZE / DESC_SIZE % XDMA_MAX_ADJ_BLOCK_SIZE;
      if XDMA_MAX_ADJ_BLOCK_SIZE - nextIndex - 1 <= remaining - 1
      then XDMA_MAX_ADJ_BLOCK_SIZE - nextIndex - 1
      else remaining - 1
  }

  // ----- The fetching engine -----

  /** `count` consecutive descriptors read in one go. */
  datatype Block = Block(addr: nat, count: nat)

  /** The addresses of the descriptors processed, in order, and the blocks fetched after the
      first; or the engine left the table, met a bad magic, or did not stop in `fuel` steps. */
  datatype Walk = Stopped(visited: seq<nat>, blocks: seq<Block>) | Lost {
    /** The walk that first processes `addr` and fetches `fetched`. */
    function After(addr: nat, fetched: seq<Block>): Walk {
      match this
      case Lost => Lost
      case Stopped(v, b) => Stopped([addr] + v, fetched + b)
    }
  }

  predicate InTable(descs: seq<Desc>, base: nat, addr: nat) {
    base <= addr && (addr - base) % DESC_SIZE == 0 && (addr - base) / DESC_SIZE < |descs|
  }

  function DescAt(descs: seq<Desc>, base: nat, addr: nat): Desc
    requires InTable(descs, base, addr)
  {
    descs[(addr - base) / DESC_SIZE]
  }

  /** The engine at descriptor `addr` with `left` more descriptors prefetched behind it. */
  function FetchFrom(descs: seq<Desc>, base: nat, addr: nat, left: nat, fuel: nat): Walk
    decreases fuel
  {
    if fuel == 0 || !InTable(descs, base, addr) then Lost
    else
      var d := DescAt(descs, base, addr);
      if MagicOf(d.control) != 0xAD4B then Lost
      else if StopFlag(d.control) || Next(d) == 0 then Stopped([addr], [])
      else if left > 0 then
        FetchFrom(descs, base, addr + DESC_SIZE, left - 1, fuel - 1).After(addr, [])
      else
        var adj := AdjacentOf(d.control);
        FetchFrom(descs, base, Next(d), adj, fuel - 1).After(addr, [Block(Next(d), adj + 1)])
  }

  /** A run as engine_start begins it: first descriptor address and first_desc_adjacent. */
  function FetchRun(descs: seq<Desc>, base: nat): Walk {
    var adj := NextAdj(|descs|, Lo(base));
    match FetchFrom(descs, base, base, adj, |descs|)
    case Lost => Lost
    case Stopped(v, b) => Stopped(v, [Block(base, adj + 1)] + b)
  }

  // ----- What the driver builds -----

  /** A linked transfer: n descriptors at `base`, each pointing at the next, the last one stopping. */
  ghost predicate Chained(descs: seq<Desc>, base: nat) {
    forall i {:trigger descs[i]} :: 0 <= i < |descs| ==> ChainedAt(descs[i], i, |descs|, base)
  }

  predicate ChainedAt(d: Desc, i: nat, n: nat, base: nat)
    requires i < n
  {
    && Next(d) == (if i < n - 1 then base + DESC_SIZE * (i + 1) else 0)
    && MagicOf(d.control) == 0xAD4B
    && (StopFlag(d.control) <==> i == n - 1)
    && AdjacentOf(d.control) == NextAdj(n - i - 1, if i < n - 1 then Lo(base + DESC_SIZE * (i + 1)) else 0)
  }

  /** Consecutive blocks from address a to address z, none crossing a page. */
  predicate Tiles(blocks: seq<Block>, a: nat, z: nat) {
    if blocks == [] then a == z
    else
      var b := blocks[0];
      && b.addr == a && b.count > 0
      && a / XDMA_PAGE_SIZE == (a + DESC_SIZE * b.count - 1) / XDMA_PAGE_SIZE
      && Tiles(blocks[1..], a + DESC_SIZE * b.count, z)
  }

  function Addresses(base: nat, i: nat, n: nat): (r: seq<nat>)
    requires i <= n
    ensures |r| == n - i && forall k :: 0 <= k < n - i ==> r[k] == base + DESC_SIZE * (i + k)
    decreases n - i
  {
    if i == n then [] else [base + DESC_SIZE * i] + Addresses(base, i + 1, n)
  }

  /** The index of a descriptor among its block of 64, as xdma_get_next_adj computes it. */
  lemma IndexInBlock(addr: nat)
    requires addr % DESC_SIZE == 0
    ensures var idx := Lo(addr) % XDMA_PAGE_SIZE / DESC_SIZE % XDMA_MAX_ADJ_BLOCK_SIZE;
      addr % 2048 == DESC_SIZE * idx
  {
    hide Lo;
    LowHalfOfPage(addr);
    IndexInPage(addr);
  }

  lemma LowHalfOfPage(addr: nat)
    ensures Lo(addr) % XDMA_PAGE_SIZE == addr % XDMA_PAGE_SIZE
  {
  }

  lemma IndexInPage(addr: nat)
    requires addr % DESC_SIZE == 0
    ensures addr % 2048 == DESC_SIZE * (addr % XDMA_PAGE_SIZE / DESC_SIZE % XDMA_MAX_ADJ_BLOCK_SIZE)
  {
    var i, r := DivMod(addr, 32);
    assert addr == 32 * i;
    MultipleMod(i, 32, 128);
    MultipleMod(i, 32, 64);
    ModOfProduct(i, 64, 2);
    TimesOver(i % 128);
  }

  lemma TimesOver(j: nat)
    ensures 32 * j / 32 == j
  {
  }

  lemma SamePage(addr: nat, size: nat)
    requires 0 < size && addr % 2048 + size <= 2048
    ensures addr / XDMA_PAGE_SIZE == (addr + size - 1) / XDMA_PAGE_SIZE
  {
  }

  /** A block whose count comes from xdma_get_next_adj ends inside its page. */
  lemma BlockStaysInPage(addr: nat, remaining: nat)
    requires addr % DESC_SIZE == 0 && remaining > 0
    ensures addr / XDMA_PAGE_SIZE
         == (addr + DESC_SIZE * (NextAdj(remaining, Lo(addr)) + 1) - 1) / XDMA_PAGE_SIZE
  {
    IndexInBlock(addr);
    hide Lo;
    SamePage(addr, DESC_SIZE * (NextAdj(remaining, Lo(addr)) + 1));
  }

  lemma TableEntry(descs: seq<Desc>, base: nat, i: nat)
    requires i < |descs|
    ensures InTable(descs, base, base + DESC_SIZE * i)
    ensures DescAt(descs, base, base + DESC_SIZE * i) == descs[i]
  {
  }

  lemma TilesCons(b: Block, rest: seq<Block>, z: nat)
    requires b.count > 0 && Tiles(rest, b.addr + DESC_SIZE * b.count, z)
    requires b.addr / XDMA_PAGE_SIZE == (b.addr + DESC_SIZE * b.count - 1) / XDMA_PAGE_SIZE
    ensures Tiles([b] + rest, b.addr, z)
  {
    assert ([b] + rest)[1..] == rest;
  }

  /** One step along a chain: inside a block, or to the block its last descriptor announces. */
  lemma FetchStep(descs: seq<Desc>, base: nat, i: nat, left: nat, fuel: nat)
    requires Chained(descs, base) && i < |descs| - 1 && 0 < fuel
    ensures var here, next := base + DESC_SIZE * i, base + DESC_SIZE * (i + 1);
      var adj := NextAdj(|descs| - i - 1, Lo(next));
      FetchFrom(descs, base, here, left, fuel) ==
      if left > 0 then FetchFrom(descs, base, next, left - 1, fuel - 1).After(here, [])
      else FetchFrom(descs, base, next, adj, fuel - 1).After(here, [Block(next, adj + 1)])
  {
    hide InTable, DescAt, MagicOf, StopFlag, AdjacentOf, Lo, NextAdj, Next;
    assert ChainedAt(descs[i], i, |descs|, base);
    TableEntry(descs, base, i);
    assert base + DESC_SIZE * (i + 1) == base + DESC_SIZE * i + DESC_SIZE;
  }

  lemma FetchStop(descs: seq<Desc>, base: nat, left: nat, fuel: nat)
    requires Chained(descs, base) && 0 < |descs| && 0 < fuel
    ensures var here := base + DESC_SIZE * (|descs| - 1);
      FetchFrom(descs, base, here, left, fuel) == Stopped([here], [])
  {
    hide InTable, DescAt, MagicOf, StopFlag, AdjacentOf, Lo, NextAdj, Next;
    assert ChainedAt(descs[|descs| - 1], |descs| - 1, |descs|, base);
    TableEntry(descs, base, |descs| - 1);
  }

  lemma {:induction false} FetchFromVisitsRest(
    descs: seq<Desc>, base: nat, i: nat, left: nat, fuel: nat)
    requires Chained(descs, base) && base % DESC_SIZE == 0
    requires i < |descs| && i + left < |descs| && |descs| - i <= fuel
    ensures var w := FetchFrom(descs, base, base + DESC_SIZE * i, left, fuel);
      && w.Stopped? && w.visited == Addresses(base, i, |descs|)
      && Tiles(w.blocks, base + DESC_SIZE * (i + left + 1), base + DESC_SIZE * |descs|)
    decreases |descs| - i
  {
    hide FetchFrom, Chained, Lo, NextAdj, Tiles;
    var n := |descs|;
    var next := base + DESC_SIZE * (i + 1);
    if i == n - 1 {
      FetchStop(descs, base, left, fuel);
      TilesNothing(base + DESC_SIZE * n);
    } else {
      FetchStep(descs, base, i, left, fuel);
      if left > 0 {
        FetchFromVisitsRest(descs, base, i + 1, left - 1, fuel - 1);
        var w := FetchFrom(descs, base, next, left - 1, fuel - 1);
        assert [] + w.blocks == w.blocks;
      } else {
        var adj := NextAdj(n - i - 1, Lo(next));
        FetchFromVisitsRest(descs, base, i + 1, adj, fuel - 1);
        BlockStaysInPage(next, n - i - 1);
        assert base + DESC_SIZE * (i + 1 + adj + 1) == next + DESC_SIZE * (adj + 1);
        TilesCons(Block(next, adj + 1), FetchFrom(descs, base, next, adj, fuel - 1).blocks, base + DESC_SIZE * n);
      }
    }
  }

  lemma TilesNothing(a: nat)
    ensures Tiles([], a, a)
  {
  }

  /** Block fetch equals list walk: started with the count engine_start writes, the engine visits
      the descriptors of a chained transfer once each, in order, and stops; the blocks it fetches
      tile exactly the transfer and none crosses a page, for any 32-byte-aligned base. */
  lemma BlockFetchIsListWalk(descs: seq<Desc>, base: nat)
    requires Chained(descs, base) && |descs| > 0 && base % DESC_SIZE == 0
    ensures var w := FetchRun(descs, base);
      && w.Stopped? && w.visited == Addresses(base, 0, |descs|)
      && Tiles(w.blocks, base, base + DESC_SIZE * |descs|)
  {
    BlockStaysInPage(base, |descs|);
    FetchFromVisitsRest(descs, base, 0, NextAdj(|descs|, Lo(base)), |descs|);
  }
}
