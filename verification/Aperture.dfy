/** xdma_xfer_aperture: one pass, which places descriptors through a window of endpoint addresses that
    wraps around, and links them into a transfer. */
module Aperture {
  import opened Words
  import opened Arithmetic
  import opened Bits
  import opened EngineSpec
  import opened Descriptors
  import opened Requests
  import opened Transfers
  import opened Copying

  /** The window [base, base + size) of endpoint addresses, and the longest descriptor. */
  datatype Window = Window(base: nat, size: nat, maxLen: nat)

  function WindowOf(epAddr: nat, aperture: nat, descBlenMax: nat): Window {
    Window(epAddr, aperture, Min(aperture, descBlenMax))
  }

  /** A window in which the driver's u64 arithmetic places descriptors as it should
      (`StepAgreesIff`). */
  predicate Proper(w: Window) { 0 < w.size && 0 < w.maxLen && w.base + w.size + w.maxLen <= U64 }

  // ----- The driver's steps -----

  /** ep_addr_max. */
  function LastAddr(w: Window): nat { (w.base + w.size + U64 - 1) % U64 }

  /** Past the last address the next descriptor starts over at the base. */
  function NextAddr(ep: nat, w: Window): nat { if ep > LastAddr(w) then w.base else ep }

  /** The length of a descriptor at ep for an entry with tlen bytes left: a u64 comparison, and a u64
      difference assigned to an unsigned int. */
  function StepLen(tlen: nat, ep: nat, w: Window): nat {
    var len := Min(tlen, w.maxLen);
    if (ep + len) % U64 > LastAddr(w) then (LastAddr(w) - ep + 1) % U64 % U32 else len
  }

  /** The descriptors made of an entry, what is left of it, and the address after them. */
  datatype Placed = Placed(copies: seq<Copy>, left: nat, ep: nat)

  /** The inner loop: tlen bytes at addr, until they are used up or no ring slot is left. */
  function PlaceEntry(addr: nat, tlen: nat, ep: nat, w: Window, slots: nat): (r: Placed)
    ensures |r.copies| <= slots
    decreases slots
  {
    if tlen == 0 || slots == 0 then Placed([], tlen, ep)
    else
      var at := NextAddr(ep, w);
      var len := StepLen(tlen, at, w);
      var rest := PlaceEntry(addr + len, (tlen - len) % U32, (at + len) % U64, w, slots - 1);
      Placed([Copy(addr, at, len)] + rest.copies, rest.left, rest.ep)
  }

  /** The descriptors made in one pass, the entries used up, and the bytes used of the next one. */
  datatype Pass = Pass(copies: seq<Copy>, entries: nat, part: nat)

  /** The loop over the entries ps. */
  function PlacePass(ps: seq<Piece>, ep: nat, w: Window, slots: nat): (r: Pass)
    ensures |r.copies| <= slots
    decreases |ps|
  {
    if ps == [] || slots == 0 then Pass([], 0, 0)
    else
      var c := PlaceEntry(ps[0].addr, ps[0].len, ep, w, slots);
      if c.left > 0 then Pass(c.copies, 0, LenSum(c.copies))
      else
        var rest := PlacePass(ps[1..], c.ep, w, slots - |c.copies|);
        Pass(c.copies + rest.copies, 1 + rest.entries, rest.part)
  }

  // ----- The same as positions in the window -----

  /** Positions in the window start over at its end. */
  function Wrap(pos: nat, w: Window): nat { if pos >= w.size then 0 else pos }

  /** The next descriptor of an entry with tlen bytes left ends with the entry, at the maximum length,
      or at the end of the window. */
  function PieceLen(tlen: nat, pos: nat, w: Window): (r: nat)
    ensures r <= tlen
  {
    Min(Min(tlen, w.maxLen), if pos <= w.size then w.size - pos else 0)
  }

  /** The descriptors made of an entry, what is left of it, and the position after them. */
  datatype Cut = Cut(copies: seq<Copy>, left: nat, pos: nat)

  /** The inner loop on positions. */
  function EntryCut(addr: nat, tlen: nat, pos: nat, w: Window, slots: nat): (r: Cut)
    ensures |r.copies| <= slots && r.left <= tlen
    ensures r.left == 0 || |r.copies| == slots
    decreases slots
  {
    if tlen == 0 || slots == 0 then Cut([], tlen, pos)
    else
      var len := PieceLen(tlen, pos, w);
      var rest := EntryCut(addr + len, tlen - len, Wrap(pos + len, w), w, slots - 1);
      Cut([Copy(addr, w.base + pos, len)] + rest.copies, rest.left, rest.pos)
  }

  /** The loop over the entries on positions. */
  function PassCut(ps: seq<Piece>, pos: nat, w: Window, slots: nat): (r: Pass)
    ensures |r.copies| <= slots && r.entries <= |ps|
    ensures r.entries == |ps| || |r.copies| == slots
    decreases |ps|
  {
    if ps == [] || slots == 0 then Pass([], 0, 0)
    else
      var c := EntryCut(ps[0].addr, ps[0].len, pos, w, slots);
      if c.left > 0 then Pass(c.copies, 0, ps[0].len - c.left)
      else
        var rest := PassCut(ps[1..], c.pos, w, slots - |c.copies|);
        Pass(c.copies + rest.copies, 1 + rest.entries, rest.part)
  }

  // ----- When the driver's steps are those -----

  /** A step at position pos: the driver's descriptor starts there, has the right length, and the next
      one starts at the next position. */
  predicate StepAgrees(tlen: nat, pos: nat, w: Window) {
    var at, len := NextAddr((w.base + pos) % U64, w), PieceLen(tlen, pos, w);
    && at == w.base + pos
    && StepLen(tlen, at, w) == len
    && NextAddr((at + len) % U64, w) == w.base + Wrap(pos + len, w)
  }

  ghost predicate AllStepsAgree(w: Window) {
    forall tlen: nat, pos: nat :: 0 < tlen < U32 && pos < w.size ==> StepAgrees(tlen, pos, w)
  }

  /** Every step of the driver is the step it should be if and only if the window ends at least the
      longest descriptor before 2^64: closer to it the sum `ep_addr + len` wraps and a descriptor leaves
      the window, or its end wraps and the next one starts at address 0. */
  lemma StepAgreesIff(w: Window)
    requires w.base < U64 && 0 < w.maxLen <= w.size < U32
    ensures AllStepsAgree(w) <==> w.base + w.size + w.maxLen <= U64
  {
    if w.base + w.size + w.maxLen <= U64 {
      forall tlen: nat, pos: nat | 0 < tlen < U32 && pos < w.size ensures StepAgrees(tlen, pos, w) {
        ProperStep(tlen, pos, w);
      }
    } else {
      LastStepDiffers(w);
    }
  }

  /** Addresses of such a window do not wrap, not even the one after its end. */
  lemma AddrOfPos(pos: nat, w: Window)
    requires Proper(w) && pos <= w.size
    ensures LastAddr(w) == w.base + w.size - 1
    ensures (w.base + pos) % U64 == w.base + pos
    ensures NextAddr(w.base + pos, w) == w.base + Wrap(pos, w)
  {
  }

  lemma LenAtPos(tlen: nat, pos: nat, w: Window)
    requires Proper(w) && pos < w.size
    ensures var len := PieceLen(tlen, pos, w);
      len <= tlen && pos + len <= w.size && (tlen < U32 ==> StepLen(tlen, w.base + pos, w) == len)
  {
    AddrOfPos(0, w);
    hide LastAddr;
    var len := Min(tlen, w.maxLen);
    assert (w.base + pos + len) % U64 == w.base + pos + len;
  }

  lemma ProperStep(tlen: nat, pos: nat, w: Window)
    requires Proper(w) && pos < w.size && tlen < U32
    ensures StepAgrees(tlen, pos, w)
  {
    hide NextAddr, StepLen, PieceLen, Wrap;
    AddrOfPos(pos, w);
    LenAtPos(tlen, pos, w);
    AddrOfPos(pos + PieceLen(tlen, pos, w), w);
    BelowEnd(pos, w);
  }

  lemma BelowEnd(pos: nat, w: Window)
    ensures pos < w.size ==> Wrap(pos, w) == pos
    ensures w.size > 0 ==> Wrap(pos, w) < w.size
  {
  }

  /** The longest descriptor at the last position of the window, or a single byte there, goes wrong. */
  lemma LastStepDiffers(w: Window)
    requires w.base < U64 && 0 < w.maxLen <= w.size < U32 && w.base + w.size + w.maxLen > U64
    ensures !StepAgrees(w.maxLen, w.size - 1, w)
  {
  }

  /** In such a window a pass on positions is the driver's. */
  lemma {:induction false} PlaceEntryIsCut(addr: nat, tlen: nat, pos: nat, w: Window, slots: nat)
    requires Proper(w) && pos <= w.size && tlen < U32
    ensures var r := PlaceEntry(addr, tlen, w.base + pos, w, slots);
      var c := EntryCut(addr, tlen, Wrap(pos, w), w, slots);
      && r.copies == c.copies && r.left == c.left
      && w.base <= r.ep <= w.base + w.size && Wrap(r.ep - w.base, w) == c.pos
    decreases slots
  {
    hide NextAddr, StepLen, PieceLen, Wrap, PlaceEntry, EntryCut;
    AddrOfPos(pos, w);
    BelowEnd(pos, w);
    if tlen == 0 || slots == 0 {
      PlaceEnds(addr, tlen, w.base + pos, w, slots);
      CutEnds(addr, tlen, Wrap(pos, w), w, slots);
    } else {
      var at := Wrap(pos, w);
      var len := PieceLen(tlen, at, w);
      LenAtPos(tlen, at, w);
      AddrOfPos(at + len, w);
      PlaceStep(addr, tlen, w.base + pos, w, slots);
      CutStep(addr, tlen, at, w, slots);
      PlaceEntryIsCut(addr + len, tlen - len, at + len, w, slots - 1);
    }
  }

  lemma {:induction false} PlacePassIsCut(ps: seq<Piece>, pos: nat, w: Window, slots: nat)
    requires Proper(w) && pos <= w.size && forall i :: 0 <= i < |ps| ==> ps[i].len < U32
    ensures PlacePass(ps, w.base + pos, w, slots) == PassCut(ps, Wrap(pos, w), w, slots)
    decreases |ps|
  {
    hide PlaceEntry, EntryCut, LenSum, Wrap;
    if ps != [] && slots > 0 {
      var c := PlaceEntry(ps[0].addr, ps[0].len, w.base + pos, w, slots);
      PlaceEntryIsCut(ps[0].addr, ps[0].len, pos, w, slots);
      EntryCutLen(ps[0].addr, ps[0].len, Wrap(pos, w), w, slots);
      if c.left == 0 {
        PlacePassIsCut(ps[1..], c.ep - w.base, w, slots - |c.copies|);
      }
    }
  }

  // ----- Where the bytes go -----

  /** The position in the window of byte x of an endless stream round it. */
  function Turn(x: nat, w: Window): (r: nat)
    requires w.size > 0
    ensures r < w.size
  {
    x % w.size
  }

  lemma TurnAdd(x: nat, y: nat, w: Window)
    requires w.size > 0
    ensures Turn(Turn(x, w) + y, w) == Turn(x + y, w)
  {
    ModAdd(x, y, w.size);
  }

  lemma TurnSmall(x: nat, w: Window)
    requires x < w.size
    ensures Turn(x, w) == x
  {
    ModUnique(x, w.size, 0, x);
  }

  /** A host byte against the window. */
  function ByteAt(host: nat, at: nat, w: Window): (nat, nat)
    requires w.size > 0
  {
    (host, w.base + Turn(at, w))
  }

  /** The host bytes in order against the window from position pos on, round and round. */
  function Around(hosts: seq<nat>, pos: nat, w: Window): (r: seq<(nat, nat)>)
    requires w.size > 0
    ensures |r| == |hosts|
    ensures forall k :: 0 <= k < |hosts| ==> r[k] == ByteAt(hosts[k], pos + k, w)
  {
    seq(|hosts|, k requires 0 <= k < |hosts| => ByteAt(hosts[k], pos + k, w))
  }

  lemma AroundConcatAt(a: seq<nat>, b: seq<nat>, pos: nat, w: Window, k: nat)
    requires w.size > 0 && k < |a + b|
    ensures Around(a + b, pos, w)[k]
         == if k < |a| then Around(a, pos, w)[k] else Around(b, Turn(pos + |a|, w), w)[k - |a|]
  {
    hide Turn, Around;
    if k >= |a| {
      TurnAdd(pos + |a|, k - |a|, w);
      assert pos + |a| + (k - |a|) == pos + k;
    }
  }

  lemma AroundConcat(a: seq<nat>, b: seq<nat>, pos: nat, w: Window)
    requires w.size > 0
    ensures Around(a + b, pos, w) == Around(a, pos, w) + Around(b, Turn(pos + |a|, w), w)
  {
    hide Turn, Around;
    var l, r := Around(a + b, pos, w), Around(a, pos, w) + Around(b, Turn(pos + |a|, w), w);
    forall k | 0 <= k < |l| ensures l[k] == r[k] {
      AroundConcatAt(a, b, pos, w, k);
    }
  }

  /** The descriptor is non-empty, no longer than the maximum, and wholly inside the window. */
  predicate Inside(c: Copy, w: Window) {
    1 <= c.len <= w.maxLen && w.base <= c.dev && c.dev + c.len <= w.base + w.size
  }

  ghost predicate AllInside(cs: seq<Copy>, w: Window) {
    forall i :: 0 <= i < |cs| ==> Inside(cs[i], w)
  }

  /** Descriptors an entry needs from a position on; none help in a window that takes none. */
  function EntryCount(tlen: nat, pos: nat, w: Window): nat
    decreases tlen
  {
    var len := PieceLen(tlen, pos, w);
    if len == 0 then 0 else 1 + EntryCount(tlen - len, Wrap(pos + len, w), w)
  }

  /** Descriptors a list needs. */
  function ListCount(ps: seq<Piece>, pos: nat, w: Window): nat
    requires w.size > 0
  {
    if ps == [] then 0
    else EntryCount(ps[0].len, pos, w) + ListCount(ps[1..], Turn(pos + ps[0].len, w), w)
  }

  /** One descriptor further: its length, and the position after it. */
  lemma PieceStep(tlen: nat, pos: nat, w: Window)
    requires Proper(w) && pos < w.size && tlen > 0
    ensures var len := PieceLen(tlen, pos, w);
      && 1 <= len <= w.maxLen && pos + len <= w.size
      && Wrap(pos + len, w) == Turn(pos + len, w)
  {
    var len := PieceLen(tlen, pos, w);
    if pos + len < w.size {
      ModUnique(pos + len, w.size, 0, pos + len);
    } else {
      ModUnique(w.size, w.size, 1, 0);
    }
  }

  lemma PieceByte(addr: nat, pos: nat, len: nat, w: Window, k: nat)
    requires Proper(w) && pos + len <= w.size && k < len
    ensures CopyMoves(Copy(addr, w.base + pos, len), false)[k] == ByteAt(addr + k, pos + k, w)
  {
    hide CopyMoves, Turn;
    TurnSmall(pos + k, w);
  }

  lemma PieceMoves(addr: nat, pos: nat, len: nat, w: Window)
    requires Proper(w) && pos + len <= w.size
    ensures Moves([Copy(addr, w.base + pos, len)], false) == Around(Span(addr, len), pos, w)
    ensures LenSum([Copy(addr, w.base + pos, len)]) == len
  {
    hide CopyMoves, ByteAt, Around, Span, Moves;
    var c := Copy(addr, w.base + pos, len);
    MovesOne(c, false);
    OneLen(c);
    var l, r := CopyMoves(c, false), Around(Span(addr, len), pos, w);
    assert |l| == |r| == len;
    forall k | 0 <= k < len ensures l[k] == r[k] {
      PieceByte(addr, pos, len, w, k);
    }
  }

  lemma SpanGrows(addr: nat, a: nat, b: nat)
    ensures Span(addr, a) + Span(addr + a, b) == Span(addr, a + b)
  {
  }

  /** The copies carry the hosts round the window from pos on, every one of them inside it. */
  ghost predicate Carries(cs: seq<Copy>, hosts: seq<nat>, pos: nat, w: Window)
    requires w.size > 0
  {
    Moves(cs, false) == Around(hosts, pos, w) && LenSum(cs) == |hosts| && AllInside(cs, w)
  }

  lemma CarriesConcat(a: seq<Copy>, b: seq<Copy>, ha: seq<nat>, hb: seq<nat>, pos: nat, w: Window)
    requires w.size > 0 && Carries(a, ha, pos, w) && Carries(b, hb, Turn(pos + |ha|, w), w)
    ensures Carries(a + b, ha + hb, pos, w)
  {
    hide Moves, Around, LenSum, Turn, Inside;
    MovesConcat(a, b, false);
    SumsConcat(a, b);
    AroundConcat(ha, hb, pos, w);
  }

  lemma CarriesNothing(pos: nat, w: Window)
    requires w.size > 0
    ensures Carries([], [], pos, w)
  {
    assert Moves([], false) == Around([], pos, w);
  }

  lemma CarriesPiece(addr: nat, pos: nat, len: nat, w: Window)
    requires Proper(w) && 1 <= len <= w.maxLen && pos + len <= w.size
    ensures Carries([Copy(addr, w.base + pos, len)], Span(addr, len), pos, w)
  {
    hide Moves, Around, LenSum;
    PieceMoves(addr, pos, len, w);
  }

  /** What the inner loop achieves: the bytes it used go round the window from pos on, and the
      descriptors it made and those still needed add up. */
  lemma {:induction false} EntryCutMoves(addr: nat, tlen: nat, pos: nat, w: Window, slots: nat)
    requires Proper(w) && pos < w.size
    ensures var r := EntryCut(addr, tlen, pos, w, slots);
      var n := tlen - r.left;
      && Carries(r.copies, Span(addr, n), pos, w)
      && r.pos == Turn(pos + n, w)
      && |r.copies| + EntryCount(r.left, r.pos, w) == EntryCount(tlen, pos, w)
    decreases slots
  {
    hide Turn, Carries, Wrap, PieceLen;
    if tlen == 0 || slots == 0 {
      TurnSmall(pos, w);
      CarriesNothing(pos, w);
    } else {
      var len := PieceLen(tlen, pos, w);
      var next := Wrap(pos + len, w);
      PieceStep(tlen, pos, w);
      EntryCutMoves(addr + len, tlen - len, next, w, slots - 1);
      var rest := EntryCut(addr + len, tlen - len, next, w, slots - 1);
      var n := tlen - len - rest.left;
      CarriesPiece(addr, pos, len, w);
      CarriesConcat([Copy(addr, w.base + pos, len)], rest.copies, Span(addr, len), Span(addr + len, n), pos, w);
      SpanGrows(addr, len, n);
      TurnAdd(pos + len, n, w);
      assert pos + len + n == pos + (tlen - rest.left);
    }
  }

  lemma EntryNeeds(tlen: nat, pos: nat, w: Window)
    requires Proper(w) && pos < w.size
    ensures EntryCount(tlen, pos, w) == 0 <==> tlen == 0
  {
    if tlen > 0 { PieceStep(tlen, pos, w); }
  }

  lemma {:induction false} NothingNeeded(ps: seq<Piece>, pos: nat, w: Window)
    requires Proper(w) && pos < w.size
    ensures ListCount(ps, pos, w) == 0 <==> TotalLen(ps) == 0
  {
    hide EntryCount, Turn;
    if ps != [] {
      EntryNeeds(ps[0].len, pos, w);
      NothingNeeded(ps[1..], Turn(pos + ps[0].len, w), w);
    }
  }

  /** What a pass achieves: it carries a prefix of its entries round the window from pos on, and ends
      with the entries exactly if the slots suffice for them. */
  ghost predicate PassCarries(r: Pass, ps: seq<Piece>, pos: nat, w: Window, slots: nat)
    requires w.size > 0
  {
    var n := LenSum(r.copies);
    && n <= TotalLen(ps) == |Bytes(ps)|
    && Carries(r.copies, Bytes(ps)[..n], pos, w)
    && |r.copies| == Min(slots, ListCount(ps, pos, w))
    && (n == TotalLen(ps) <==> ListCount(ps, pos, w) <= slots)
  }

  lemma PassStopsInside(ps: seq<Piece>, pos: nat, w: Window, slots: nat)
    requires Proper(w) && pos < w.size && ps != [] && slots > 0
    requires EntryCut(ps[0].addr, ps[0].len, pos, w, slots).left > 0
    ensures PassCarries(PassCut(ps, pos, w, slots), ps, pos, w, slots)
  {
    hide EntryCut, EntryCount, Turn, Carries, LenSum, Bytes;
    var c := EntryCut(ps[0].addr, ps[0].len, pos, w, slots);
    var n := ps[0].len - c.left;
    BytesLen(ps);
    EntryCutMoves(ps[0].addr, ps[0].len, pos, w, slots);
    CarriesLen(c.copies, Span(ps[0].addr, n), pos, w);
    EntryNeeds(c.left, c.pos, w);
    TakeInFirst(ps, n);
  }

  lemma PassGoesOn(ps: seq<Piece>, pos: nat, w: Window, slots: nat)
    requires Proper(w) && pos < w.size && ps != [] && slots > 0
    requires var c := EntryCut(ps[0].addr, ps[0].len, pos, w, slots);
      && c.left == 0 && c.pos < w.size
      && PassCarries(PassCut(ps[1..], c.pos, w, slots - |c.copies|), ps[1..], c.pos, w, slots - |c.copies|)
    ensures PassCarries(PassCut(ps, pos, w, slots), ps, pos, w, slots)
  {
    hide EntryCut, EntryCount, Turn, Carries, LenSum, Bytes;
    var c := EntryCut(ps[0].addr, ps[0].len, pos, w, slots);
    var n := ps[0].len;
    var rest := PassCut(ps[1..], c.pos, w, slots - |c.copies|);
    BytesLen(ps);
    EntryCutMoves(ps[0].addr, n, pos, w, slots);
    CarriesLen(c.copies, Span(ps[0].addr, n), pos, w);
    EntryNeeds(0, c.pos, w);
    SumsConcat(c.copies, rest.copies);
    CarriesConcat(c.copies, rest.copies, Span(ps[0].addr, n), Bytes(ps[1..])[..LenSum(rest.copies)], pos, w);
    TakePastFirst(ps, LenSum(rest.copies));
  }

  lemma {:induction false} PassMoves(ps: seq<Piece>, pos: nat, w: Window, slots: nat)
    requires Proper(w) && pos < w.size
    ensures PassCarries(PassCut(ps, pos, w, slots), ps, pos, w, slots)
    decreases |ps|
  {
    if ps == [] || slots == 0 {
      hide EntryCount, Turn, Carries, LenSum, Bytes;
      BytesLen(ps);
      NothingNeeded(ps, pos, w);
      EmptyPass(ps, pos, w);
    } else {
      hide EntryCut, PassCarries, PassCut, Turn, Carries, EntryCount;
      var c := EntryCut(ps[0].addr, ps[0].len, pos, w, slots);
      if c.left > 0 {
        PassStopsInside(ps, pos, w, slots);
      } else {
        EntryCutMoves(ps[0].addr, ps[0].len, pos, w, slots);
        PassMoves(ps[1..], c.pos, w, slots - |c.copies|);
        PassGoesOn(ps, pos, w, slots);
      }
    }
  }

  lemma CarriesLen(cs: seq<Copy>, hosts: seq<nat>, pos: nat, w: Window)
    requires w.size > 0 && Carries(cs, hosts, pos, w)
    ensures LenSum(cs) == |hosts|
  {
  }

  lemma EmptyPass(ps: seq<Piece>, pos: nat, w: Window)
    requires w.size > 0
    ensures LenSum([]) == 0 && Bytes(ps)[..0] == [] && Carries([], Bytes(ps)[..0], pos, w)
  {
    CarriesNothing(pos, w);
  }

  lemma TakeInFirst(ps: seq<Piece>, n: nat)
    requires ps != [] && n <= ps[0].len
    ensures n <= |Bytes(ps)| && Bytes(ps)[..n] == Span(ps[0].addr, n)
  {
  }

  lemma TakePastFirst(ps: seq<Piece>, m: nat)
    requires ps != [] && m <= |Bytes(ps[1..])|
    ensures ps[0].len + m <= |Bytes(ps)|
    ensures Bytes(ps)[..ps[0].len + m] == Span(ps[0].addr, ps[0].len) + Bytes(ps[1..])[..m]
  {
    var a, b := Span(ps[0].addr, ps[0].len), Bytes(ps[1..]);
    assert (a + b)[..|a| + m] == a + b[..m];
  }

  lemma ByteInFirst(ps: seq<Piece>, m: nat)
    requires ps != []
    ensures Bytes(ps) == Span(ps[0].addr, ps[0].len) + Bytes(ps[1..])
    ensures m < ps[0].len ==> m < |Bytes(ps)| && Bytes(ps)[m] == ps[0].addr + m
    ensures ps[0].len <= m < |Bytes(ps)| ==>
      m - ps[0].len < |Bytes(ps[1..])| && Bytes(ps)[m] == Bytes(ps[1..])[m - ps[0].len]
  {
  }

  ghost predicate NonEmpty(ps: seq<Piece>) { forall i :: 0 <= i < |ps| ==> ps[i].len > 0 }

  /** The pass used up r.entries entries and r.part bytes of the next, where it stopped. */
  ghost predicate StopsAt(r: Pass, ps: seq<Piece>) {
    && r.entries < |ps| && r.part < ps[r.entries].len
    && LenSum(r.copies) < |Bytes(ps)|
    && Bytes(ps)[LenSum(r.copies)] == ps[r.entries].addr + r.part
  }

  lemma StopsPastFirst(ps: seq<Piece>, first: seq<Copy>, rest: Pass)
    requires ps != [] && LenSum(first) == ps[0].len && StopsAt(rest, ps[1..])
    ensures StopsAt(Pass(first + rest.copies, 1 + rest.entries, rest.part), ps)
  {
    hide LenSum, Bytes, Span;
    SumsConcat(first, rest.copies);
    ByteInFirst(ps, ps[0].len + LenSum(rest.copies));
  }

  lemma StopsInFirst(ps: seq<Piece>, cs: seq<Copy>, n: nat)
    requires ps != [] && LenSum(cs) == n < ps[0].len
    ensures StopsAt(Pass(cs, 0, n), ps)
  {
    hide LenSum, Bytes, Span;
    ByteInFirst(ps, n);
  }

  /** Where a pass stops that does not end with its entries, if none is empty. */
  lemma {:induction false} PassStops(ps: seq<Piece>, pos: nat, w: Window, slots: nat)
    requires Proper(w) && pos < w.size && NonEmpty(ps)
    requires LenSum(PassCut(ps, pos, w, slots).copies) < TotalLen(ps)
    ensures StopsAt(PassCut(ps, pos, w, slots), ps)
    decreases |ps|
  {
    hide EntryCut, EntryCount, ListCount, Turn, Carries, LenSum, Bytes, Span, StopsAt;
    if slots == 0 || ps == [] {
      EmptyPass(ps, pos, w);
      if ps != [] { StopsInFirst(ps, [], 0); }
    } else {
      var c := EntryCut(ps[0].addr, ps[0].len, pos, w, slots);
      EntryCutMoves(ps[0].addr, ps[0].len, pos, w, slots);
      CarriesLen(c.copies, Span(ps[0].addr, ps[0].len - c.left), pos, w);
      if c.left == 0 {
        var rest := PassCut(ps[1..], c.pos, w, slots - |c.copies|);
        SumsConcat(c.copies, rest.copies);
        PassStops(ps[1..], c.pos, w, slots - |c.copies|);
        StopsPastFirst(ps, c.copies, rest);
      } else {
        StopsInFirst(ps, c.copies, ps[0].len - c.left);
      }
    }
  }

  // ----- The scatter list as a pass sees it -----

  /** Each pass starts over at the first entry but takes only as many entries as are left, and skips
      `sgOffset` bytes of the first one, in u32 arithmetic. */
  function PassEntries(sgs: seq<Piece>, sgIdx: nat, sgOffset: nat): seq<Piece> {
    if sgIdx >= |sgs| then []
    else if sgOffset == 0 then sgs[..|sgs| - sgIdx]
    else [Piece(sgs[0].addr + sgOffset, (sgs[0].len - sgOffset) % U32)] + sgs[1..|sgs| - sgIdx]
  }

  /** A pass that starts in the first entry continues the list where it was left. */
  lemma PassContinuesList(sgs: seq<Piece>, sgOffset: nat)
    requires sgs != [] && sgOffset <= sgs[0].len < U32
    ensures |Bytes(sgs)| >= sgOffset
    ensures Bytes(PassEntries(sgs, 0, sgOffset)) == Bytes(sgs)[sgOffset..]
  {
    hide Bytes, Span, PassEntries;
    var p, rest := sgs[0], sgs[1..];
    PassEntriesFirst(sgs, sgOffset);
    assert Bytes(sgs) == Bytes([p] + rest) by { assert sgs == [p] + rest; }
    DropBytes(p, rest, sgOffset);
  }

  lemma DropBytes(p: Piece, rest: seq<Piece>, off: nat)
    requires off <= p.len
    ensures |Bytes([p] + rest)| >= off
    ensures Bytes([Piece(p.addr + off, p.len - off)] + rest) == Bytes([p] + rest)[off..]
  {
    hide Bytes, Span;
    BytesCons(p, rest);
    BytesCons(Piece(p.addr + off, p.len - off), rest);
    DropSpan(p.addr, p.len, off);
    DropInFirst(Span(p.addr, p.len), Bytes(rest), off);
  }

  lemma PassEntriesFirst(sgs: seq<Piece>, sgOffset: nat)
    requires sgs != [] && sgOffset <= sgs[0].len < U32
    ensures PassEntries(sgs, 0, sgOffset) == [Piece(sgs[0].addr + sgOffset, sgs[0].len - sgOffset)] + sgs[1..]
  {
    assert sgs[..|sgs|] == [sgs[0]] + sgs[1..] && sgs[1..|sgs|] == sgs[1..];
  }

  lemma DropSpan(addr: nat, len: nat, k: nat)
    requires k <= len
    ensures Span(addr, len)[k..] == Span(addr + k, len - k)
  {
  }

  lemma BytesCons(p: Piece, ps: seq<Piece>)
    ensures Bytes([p] + ps) == Span(p.addr, p.len) + Bytes(ps)
  {
    hide Bytes, Span;
    BytesConcat([p], ps);
    BytesOne(p);
  }

  lemma DropInFirst(a: seq<nat>, b: seq<nat>, k: nat)
    requires k <= |a|
    ensures (a + b)[k..] == a[k..] + b
  {
  }

  // ----- The state between passes -----

  /** The ring index and the request fields when a pass starts. */
  datatype Cursor = Cursor(idx: nat, offset: nat, sgIdx: nat, sgOffset: nat)

  /** aperture - 1 as an unsigned int. */
  function Mask(size: nat): nat { if size == 0 then U32 - 1 else size - 1 }

  function StartAddr(offset: nat, w: Window): nat { (w.base + And(offset, Mask(w.size))) % U64 }

  function PassAt(sgs: seq<Piece>, c: Cursor, w: Window, max: nat): Pass
    requires c.idx <= max
  {
    PlacePass(PassEntries(sgs, c.sgIdx, c.sgOffset), StartAddr(c.offset, w), w, max - c.idx)
  }

  function NextCursor(c: Cursor, p: Pass, max: nat): (r: Cursor)
    requires max > 0
    ensures r.idx < max
  {
    Cursor(Advance(c.idx, |p.copies|, max), W(c.offset + LenSum(p.copies)), c.sgIdx + p.entries,
           W((if p.entries == 0 then c.sgOffset else 0) + p.part))
  }

  /** The request fields the passes advance. */
  class ApertureRequest {
    const epAddr: nat
    const aperture: nat
    const totalLen: nat
    var offset: nat
    var sgIdx: nat
    var sgOffset: nat

    constructor (epAddr: nat, aperture: nat, totalLen: nat)
      ensures this.epAddr == epAddr && this.aperture == aperture && this.totalLen == totalLen
      ensures offset == 0 && sgIdx == 0 && sgOffset == 0
    {
      this.epAddr, this.aperture, this.totalLen := epAddr, aperture, totalLen;
      offset, sgIdx, sgOffset := 0, 0, 0;
    }
  }

  function CursorOf(ring: DescRing, req: ApertureRequest): Cursor
    reads ring, req
  {
    Cursor(ring.descIdx, req.offset, req.sgIdx, req.sgOffset)
  }

  // ----- The loops -----

  /** One descriptor for the bytes at addr. */
  method PlaceOne(ring: DescRing, addr: nat, tlen: nat, ep0: nat, w: Window, idx: nat)
    returns (len: nat, ep: nat, ghost c: Copy)
    requires idx < ring.desc.Length
    modifies ring.desc
    ensures var at := NextAddr(ep0, w);
      && len == StepLen(tlen, at, w) && c == Copy(addr, at, len) && ep == (at + len) % U64
    ensures CopyOf(ring.desc[idx], ring.dir) == c
    ensures forall k | 0 <= k < ring.desc.Length && k != idx :: ring.desc[k] == old(ring.desc[k])
  {
    hide Address, Lo, Hi;
    var epAddrMax := (w.base + w.size + U64 - 1) % U64;
    ep := ep0;
    len := Min(tlen, w.maxLen);
    if ep > epAddrMax {
      ep := w.base;
    }
    if (ep + len) % U64 > epAddrMax {
      len := (epAddrMax - ep + 1) % U64 % U32;
    }
    ring.desc[idx] := Filled(ring.desc[idx], Piece(addr, len), ep, ring.dir);
    AddressOfHalves(addr);
    AddressOfHalves(ep);
    c := Copy(addr, ep, len);
    ep := (ep + len) % U64;
  }

  /** The ring slots from `first` on hold the copies. */
  ghost predicate SlotsHold(ring: DescRing, first: nat, cs: seq<Copy>)
    reads ring.desc
  {
    && first + |cs| <= ring.desc.Length
    && forall k :: 0 <= k < |cs| ==> CopyOf(ring.desc[first + k], ring.dir) == cs[k]
  }

  /** The inner loop, behind the copies `cs0` made in this pass from slot `first` on; `used` is the sum
      of the lengths. */
  method FillFromEntry(ring: DescRing, addr0: nat, tlen0: nat, ep0: nat, w: Window, idx: nat,
                       ghost first: nat, ghost cs0: seq<Copy>)
    returns (idx': nat, ep: nat, left: nat, used: nat, ghost cs: seq<Copy>)
    requires idx < ring.desc.Length
    requires idx == first + |cs0| && SlotsHold(ring, first, cs0)
    modifies ring.desc
    ensures Placed(cs, left, ep) == PlaceEntry(addr0, tlen0, ep0, w, ring.desc.Length - idx)
    ensures used == W(LenSum(cs))
    ensures idx' == idx + |cs| && SlotsHold(ring, first, cs0 + cs)
    ensures forall k | 0 <= k < ring.desc.Length && !(idx <= k < idx') :: ring.desc[k] == old(ring.desc[k])
  {
    hide CopyOf, StepLen, NextAddr, PlaceEntry, LenSum, W;
    idx', ep, left, used, cs := idx, ep0, tlen0, 0, [];
    ghost var goal := PlaceEntry(addr0, tlen0, ep0, w, ring.desc.Length - idx);
    var addr := addr0;
    NoLen();
    assert [] + goal.copies == goal.copies && cs0 + [] == cs0;
    while left > 0
      invariant idx <= idx' == idx + |cs| <= ring.desc.Length
      invariant left == 0 || idx' < ring.desc.Length
      invariant var r := PlaceEntry(addr, left, ep, w, ring.desc.Length - idx');
        cs + r.copies == goal.copies && r.left == goal.left && r.ep == goal.ep
      invariant used == W(LenSum(cs))
      invariant SlotsHold(ring, first, cs0 + cs)
      invariant forall k | 0 <= k < ring.desc.Length && !(idx <= k < idx') :: ring.desc[k] == old(ring.desc[k])
      decreases ring.desc.Length - idx'
    {
      ghost var rest := PlaceEntry(addr, left, ep, w, ring.desc.Length - idx');
      PlaceStep(addr, left, ep, w, ring.desc.Length - idx');
      var len;
      ghost var c;
      len, ep, c := PlaceOne(ring, addr, left, ep, w, idx');
      assert cs + rest.copies == (cs + [c]) + rest.copies[1..];
      assert cs0 + (cs + [c]) == (cs0 + cs) + [c];
      LenSumSnoc(cs, c);
      WAdd(LenSum(cs), len);
      cs := cs + [c];
      used := W(used + len);
      addr := addr + len;
      left := (left - len) % U32;
      idx' := idx' + 1;
      if idx' == ring.desc.Length {
        break;
      }
    }
    PlaceEnds(addr, left, ep, w, ring.desc.Length - idx');
    assert cs + [] == cs;
  }

  lemma NoLen()
    ensures LenSum([]) == 0 && W(0) == 0
  {
  }

  lemma PlaceStep(addr: nat, tlen: nat, ep: nat, w: Window, slots: nat)
    requires tlen > 0 && slots > 0
    ensures var at := NextAddr(ep, w);
      var len := StepLen(tlen, at, w);
      var r, rest := PlaceEntry(addr, tlen, ep, w, slots),
                     PlaceEntry(addr + len, (tlen - len) % U32, (at + len) % U64, w, slots - 1);
      r == Placed([Copy(addr, at, len)] + rest.copies, rest.left, rest.ep)
  {
  }

  lemma PlaceEnds(addr: nat, tlen: nat, ep: nat, w: Window, slots: nat)
    requires tlen == 0 || slots == 0
    ensures PlaceEntry(addr, tlen, ep, w, slots) == Placed([], tlen, ep)
  {
  }

  lemma CutStep(addr: nat, tlen: nat, pos: nat, w: Window, slots: nat)
    requires tlen > 0 && slots > 0
    ensures var len := PieceLen(tlen, pos, w);
      var r, rest := EntryCut(addr, tlen, pos, w, slots), EntryCut(addr + len, tlen - len, Wrap(pos + len, w), w, slots - 1);
      r == Cut([Copy(addr, w.base + pos, len)] + rest.copies, rest.left, rest.pos)
  {
  }

  lemma CutEnds(addr: nat, tlen: nat, pos: nat, w: Window, slots: nat)
    requires tlen == 0 || slots == 0
    ensures EntryCut(addr, tlen, pos, w, slots) == Cut([], tlen, pos)
  {
  }

  /** How a pass goes on after k entries, with cs made: the rest of it starts at address ep. */
  ghost predicate PassGoes(goal: Pass, cs: seq<Copy>, k: nat, ps: seq<Piece>, ep: nat, w: Window, slots: nat)
    requires k <= |ps|
  {
    var rest := PlacePass(ps[k..], ep, w, slots);
    goal == Pass(cs + rest.copies, k + rest.entries, rest.part)
  }

  lemma PassGoesEntry(goal: Pass, cs: seq<Copy>, k: nat, ps: seq<Piece>, ep: nat, w: Window, slots: nat)
    requires k < |ps| && slots > 0 && PassGoes(goal, cs, k, ps, ep, w, slots)
    ensures var c := PlaceEntry(ps[k].addr, ps[k].len, ep, w, slots);
      if c.left > 0 then goal == Pass(cs + c.copies, k, LenSum(c.copies))
      else PassGoes(goal, cs + c.copies, k + 1, ps, c.ep, w, slots - |c.copies|)
  {
    hide PlaceEntry, LenSum;
    var c := PlaceEntry(ps[k].addr, ps[k].len, ep, w, slots);
    assert ps[k..][1..] == ps[k + 1..];
    if c.left == 0 {
      var rest := PlacePass(ps[k + 1..], c.ep, w, slots - |c.copies|);
      assert cs + (c.copies + rest.copies) == (cs + c.copies) + rest.copies;
    }
  }

  lemma PassGoesStart(ps: seq<Piece>, ep: nat, w: Window, slots: nat)
    ensures PassGoes(PlacePass(ps, ep, w, slots), [], 0, ps, ep, w, slots)
  {
    assert ps[0..] == ps;
    var p := PlacePass(ps, ep, w, slots);
    assert [] + p.copies == p.copies;
  }

  lemma PassGoesEnd(goal: Pass, cs: seq<Copy>, k: nat, ps: seq<Piece>, ep: nat, w: Window, slots: nat)
    requires k <= |ps| && (k == |ps| || slots == 0) && PassGoes(goal, cs, k, ps, ep, w, slots)
    ensures goal == Pass(cs, k, 0)
  {
    assert cs + [] == cs;
  }

  lemma PassEntryAt(sgs: seq<Piece>, sgIdx: nat, sgOffset: nat, k: nat)
    requires sgIdx + k < |sgs|
    ensures var ps := PassEntries(sgs, sgIdx, sgOffset);
      && |ps| == |sgs| - sgIdx
      && ps[k] == if k == 0 && sgOffset != 0 then Piece(sgs[0].addr + sgOffset, (sgs[0].len - sgOffset) % U32)
                  else sgs[k]
  {
  }

  lemma PassLength(sgs: seq<Piece>, sgIdx: nat, sgOffset: nat)
    ensures |PassEntries(sgs, sgIdx, sgOffset)| == if sgIdx >= |sgs| then 0 else |sgs| - sgIdx
  {
  }

  lemma LenSumConcatWords(a: seq<Copy>, b: seq<Copy>, x: nat)
    ensures W(W(x + LenSum(a)) + W(LenSum(b))) == W(x + LenSum(a + b))
    ensures W(W(LenSum(a)) + W(LenSum(b))) == W(LenSum(a + b))
  {
    hide LenSum, W;
    SumsConcat(a, b);
    WAdd(x + LenSum(a), LenSum(b));
    WAdd(LenSum(b), W(x + LenSum(a)));
    WAdd(LenSum(a), LenSum(b));
    WAdd(LenSum(b), W(LenSum(a)));
  }

  /** The inner loop moves exactly the bytes it uses, whatever the window. */
  lemma {:induction false} EntryCutLen(addr: nat, tlen: nat, pos: nat, w: Window, slots: nat)
    ensures var r := EntryCut(addr, tlen, pos, w, slots);
      LenSum(r.copies) == tlen - r.left
    decreases slots
  {
    hide PieceLen, Wrap, EntryCut;
    if tlen == 0 || slots == 0 {
      CutEnds(addr, tlen, pos, w, slots);
    } else {
      hide LenSum;
      CutStep(addr, tlen, pos, w, slots);
      var len := PieceLen(tlen, pos, w);
      var next := Wrap(pos + len, w);
      EntryCutLen(addr + len, tlen - len, next, w, slots - 1);
      var rest := EntryCut(addr + len, tlen - len, next, w, slots - 1);
      SumsConcat([Copy(addr, w.base + pos, len)], rest.copies);
      OneLen(Copy(addr, w.base + pos, len));
    }
  }

  lemma OneLen(c: Copy)
    ensures LenSum([c]) == c.len
  {
    LenSumSnoc([], c);
    assert [] + [c] == [c];
  }

  /** Where a pass stands with cs made: at address `ep` before entry k, or stopped inside it after
      `part` bytes. */
  ghost predicate PassStands(ring: DescRing, goal: Pass, cs: seq<Copy>, k: nat, part: nat, stopped: bool,
                             ps: seq<Piece>, ep: nat, w: Window)
    reads ring, ring.desc
  {
    && k <= |ps| && ring.descIdx + |cs| <= ring.desc.Length
    && SlotsHold(ring, ring.descIdx, cs)
    && if stopped then goal == Pass(cs, k, part)
       else part == 0 && PassGoes(goal, cs, k, ps, ep, w, ring.desc.Length - ring.descIdx - |cs|)
  }

  /** Entry k of the pass. */
  method TakeEntry(ring: DescRing, addr: nat, tlen: nat, ep0: nat, w: Window, idx: nat, ghost at: nat,
                   ghost goal: Pass, ghost cs0: seq<Copy>, ghost ps: seq<Piece>, ghost k: nat)
    returns (idx': nat, ep: nat, left: nat, used: nat, ghost cs: seq<Copy>, ghost part: nat)
    requires PassStands(ring, goal, cs0, k, 0, false, ps, ep0, w)
    requires k < |ps| && ps[k] == Piece(addr, tlen) && idx == ring.descIdx + |cs0| < ring.desc.Length
    modifies ring.desc
    ensures idx <= idx' == ring.descIdx + |cs| <= ring.desc.Length && used == W(part)
    ensures if left == 0 then PassStands(ring, goal, cs, k + 1, 0, false, ps, ep, w)
            else PassStands(ring, goal, cs, k, part, true, ps, ep, w)
    ensures W(W(at + LenSum(cs0)) + used) == W(at + LenSum(cs))
    ensures W(W(LenSum(cs0)) + used) == W(LenSum(cs))
    ensures forall k | 0 <= k < ring.desc.Length && !(idx <= k < idx') :: ring.desc[k] == old(ring.desc[k])
  {
    hide LenSum, PlacePass, PlaceEntry, PassGoes, W, SlotsHold;
    PassGoesEntry(goal, cs0, k, ps, ep0, w, ring.desc.Length - idx);
    ghost var made;
    idx', ep, left, used, made := FillFromEntry(ring, addr, tlen, ep0, w, idx, ring.descIdx, cs0);
    LenSumConcatWords(cs0, made, at);
    cs, part := cs0 + made, LenSum(made);
  }

  /** The loops of one pass. */
  method BuildPass(ring: DescRing, req: ApertureRequest, sgs: seq<Piece>, w: Window)
    returns (cnt: nat, len: nat, ghost cs: seq<Copy>)
    requires ring.Valid() && w.base == req.epAddr && w.size == req.aperture
    requires req.sgOffset < U32 && req.offset < U32
    modifies ring.desc, req`offset, req`sgIdx, req`sgOffset
    ensures ring.Valid() && cnt == |cs| && SlotsHold(ring, ring.descIdx, cs)
    ensures var p := PassAt(sgs, old(CursorOf(ring, req)), w, ring.desc.Length);
      && cs == p.copies && len == W(LenSum(cs))
      && var next := NextCursor(old(CursorOf(ring, req)), p, ring.desc.Length);
         req.offset == next.offset && req.sgIdx == next.sgIdx && req.sgOffset == next.sgOffset
    ensures forall k | 0 <= k < ring.desc.Length && !(0 <= k - ring.descIdx < cnt) :: ring.desc[k] == old(ring.desc[k])
  {
    hide LenSum, PassEntries, PlacePass, PassStands, PassGoes, W, And, SlotsHold;
    ghost var at, off, ps, max := req.offset, req.sgOffset, PassEntries(sgs, req.sgIdx, req.sgOffset), ring.desc.Length;
    ghost var goal := PassAt(sgs, CursorOf(ring, req), w, max);
    var descIdx, sgOffset, i, s := ring.descIdx, req.sgOffset, req.sgIdx, 0;
    var ep: nat := (w.base + And(req.offset, Mask(w.size))) % U64;
    ghost var k: nat, part: nat := 0, 0;
    cs, len := [], 0;
    var stopped := false;
    PassStarts(ring, sgs, CursorOf(ring, req), w);
    PassLength(sgs, req.sgIdx, off);
    while i < |sgs| && descIdx < ring.desc.Length && !stopped
      invariant req.sgIdx == old(req.sgIdx) && i == req.sgIdx + k && s == k <= |ps|
      invariant descIdx == ring.descIdx + |cs| <= max
      invariant PassStands(ring, goal, cs, k, part, stopped, ps, ep, w)
      invariant !stopped ==> part == 0 && sgOffset == if k == 0 then off else 0
      invariant sgOffset == W((if k == 0 then off else 0) + part)
      invariant len == W(LenSum(cs)) && req.offset == W(at + LenSum(cs))
      invariant forall k | 0 <= k < ring.desc.Length && !(ring.descIdx <= k < descIdx) ::
                  ring.desc[k] == old(ring.desc[k])
      decreases |sgs| - i, !stopped
    {
      PassEntryAt(sgs, req.sgIdx, off, k);
      var addr, tlen := sgs[s].addr, sgs[s].len;
      if sgOffset != 0 {
        tlen := (tlen - sgOffset) % U32;
        addr := addr + sgOffset;
      }
      var left, used;
      ghost var n;
      descIdx, ep, left, used, cs, n := TakeEntry(ring, addr, tlen, ep, w, descIdx, at, goal, cs, ps, k);
      req.offset := W(req.offset + used);
      len := W(len + used);
      if left == 0 {
        sgOffset := 0;
        i, s := i + 1, s + 1;
        k := k + 1;
      } else {
        WAdd(n, sgOffset);
        sgOffset := W(sgOffset + used);
        part := n;
        stopped := true;
      }
    }
    PassEnds(ring, goal, cs, k, part, stopped, ps, ep, w);
    cnt := descIdx - ring.descIdx;
    req.sgOffset := sgOffset;
    req.sgIdx := i;
  }

  lemma PassStarts(ring: DescRing, sgs: seq<Piece>, c: Cursor, w: Window)
    requires ring.Valid() && c.idx == ring.descIdx && c.offset < U32 && c.sgOffset < U32
    ensures PassStands(ring, PassAt(sgs, c, w, ring.desc.Length), [], 0, 0, false,
                       PassEntries(sgs, c.sgIdx, c.sgOffset), (w.base + And(c.offset, Mask(w.size))) % U64, w)
    ensures LenSum([]) == 0 && W(0) == 0 && W(c.offset) == c.offset && W(c.sgOffset) == c.sgOffset
  {
    hide PlacePass, PassGoes, And;
    PassGoesStart(PassEntries(sgs, c.sgIdx, c.sgOffset), StartAddr(c.offset, w), w, ring.desc.Length - c.idx);
  }

  lemma PassEnds(ring: DescRing, goal: Pass, cs: seq<Copy>, k: nat, part: nat, stopped: bool, ps: seq<Piece>,
                 ep: nat, w: Window)
    requires PassStands(ring, goal, cs, k, part, stopped, ps, ep, w)
    requires stopped || k == |ps| || ring.descIdx + |cs| == ring.desc.Length
    ensures goal == Pass(cs, k, part) && SlotsHold(ring, ring.descIdx, cs)
  {
    hide PassGoes;
    if !stopped {
      PassGoesEnd(goal, cs, k, ps, ep, w, ring.desc.Length - ring.descIdx - |cs|);
    }
  }

  // ----- Linking the pass -----

  /** Descriptor i of a pass of n, as the linking loop leaves it. */
  function PassLinked(d: Desc, i: nat, n: nat, bus: nat): Desc {
    var next := if i < n - 1 then bus + DESC_SIZE * (i + 1) else 0;
    d.(nextLo := Lo(next), nextHi := Hi(next),
       control := if i < n - 1 then DESC_MAGIC else DESC_MAGIC | LAST_CONTROL)
  }

  /** The bound of the linking loop for a pass of cnt descriptors: desc_cnt - 1 as an unsigned int. */
  function LoopBound(cnt: nat): nat { (cnt + U32 - 1) % U32 }

  /** The loop that links a pass, and the loop that counts it. A pass without descriptors makes the
      first one run 2^32 - 1 times, far past the ring; the model ends there. */
  method LinkPass(desc: array<Desc>, first: nat, cnt: nat, bus: nat) returns (overrun: bool)
    requires first < desc.Length < U32 && first + cnt <= desc.Length
    modifies desc
    ensures overrun <==> cnt == 0
    ensures overrun <==> first + LoopBound(cnt) >= desc.Length
    ensures !overrun ==> forall k :: first <= k < first + cnt ==>
              desc[k] == Counted(PassLinked(old(desc[k]), k - first, cnt, bus), k - first, cnt)
    ensures !overrun ==> forall k | 0 <= k < desc.Length && !(first <= k < first + cnt) :: desc[k] == old(desc[k])
  {
    hide Counted;
    LoZero();
    var last := LoopBound(cnt);
    overrun := first + last >= desc.Length;
    if overrun {
      return;
    }
    var i, descBus := 0, bus;
    while i < last
      invariant 0 <= i <= last == cnt - 1 && descBus == bus + DESC_SIZE * i
      invariant forall k :: first <= k < first + i ==> desc[k] == PassLinked(old(desc[k]), k - first, cnt, bus)
      invariant forall k | 0 <= k < desc.Length && !(first <= k < first + i) :: desc[k] == old(desc[k])
    {
      descBus := descBus + DESC_SIZE;
      desc[first + i] := desc[first + i].(nextLo := Lo(descBus), nextHi := Hi(descBus), control := DESC_MAGIC);
      i := i + 1;
    }
    desc[first + i] := desc[first + i].(nextLo := 0, nextHi := 0, control := DESC_MAGIC | LAST_CONTROL);
    FillAdjacent(desc, first, cnt);
  }

  lemma LastControlWord()
    ensures SetControl(DESC_MAGIC, LAST_CONTROL) == DESC_MAGIC | LAST_CONTROL
  {
  }

  /** A linked and counted pass makes the engine perform its copies. */
  lemma LinkedPassCopies(olds: seq<Desc>, descs: seq<Desc>, bus: nat, dir: Direction, cs: seq<Copy>)
    requires 0 < |olds| == |descs| == |cs| && bus % DESC_SIZE == 0
    requires forall i :: 0 <= i < |cs| ==> CopyOf(olds[i], dir) == cs[i]
    requires forall i :: 0 <= i < |cs| ==> descs[i] == Counted(PassLinked(olds[i], i, |cs|, bus), i, |cs|)
    ensures Chained(descs, bus) && EngineCopies(descs, bus, dir) == cs
  {
    hide Lo, Hi, Address, Counted, ChainedAt, EngineCopies, SetControl;
    LastControlWord();
    forall i | 0 <= i < |cs|
      ensures ChainedAt(descs[i], i, |cs|, bus) && CopyOf(descs[i], dir) == cs[i]
    {
      CountedChainedAt(PassLinked(olds[i], i, |cs|, bus), i, |cs|, bus);
      CountedKeepsCopy(PassLinked(olds[i], i, |cs|, bus), i, |cs|, dir);
    }
    EngineCopiesChain(descs, bus, dir);
  }

  lemma CountedKeepsCopy(d: Desc, i: nat, n: nat, dir: Direction)
    requires i < n
    ensures CopyOf(Counted(d, i, n), dir) == CopyOf(d, dir)
  {
    hide SetAdjacent, NextAdj, AdjacentWord, Address;
  }

  /** One round of xdma_xfer_aperture up to transfer_queue: the engine would perform exactly the
      copies of the pass; a pass without any overruns the ring. */
  method AperturePass(ring: DescRing, req: ApertureRequest, sgs: seq<Piece>, w: Window)
    returns (overrun: bool, xfer: Transfer, ghost r: Round)
    requires ring.Valid() && ring.desc.Length < U32 && ring.descBus % DESC_SIZE == 0
    requires w.base == req.epAddr && w.size == req.aperture
    requires req.sgOffset < U32 && req.offset < U32
    modifies ring`descIdx, ring`descUsed, ring.desc, req`offset, req`sgIdx, req`sgOffset
    ensures ring.Valid()
    ensures var p := PassAt(sgs, old(CursorOf(ring, req)), w, ring.desc.Length);
      && (overrun <==> p.copies == [])
      && (!overrun ==>
            && CursorOf(ring, req) == NextCursor(old(CursorOf(ring, req)), p, ring.desc.Length)
            && xfer.descNum == |p.copies| && xfer.len == W(LenSum(p.copies))
            && EngineCopies(r.descs, r.xfer.descBus, ring.dir) == p.copies)
    ensures !overrun ==>
      && r.xfer == xfer && WellBuilt(r) && xfer.descIndex == old(ring.descIdx)
      && ring.descUsed == old(ring.descUsed) + xfer.descNum
      && xfer.descIndex + xfer.descNum <= ring.desc.Length
      && r.descs == ring.desc[xfer.descIndex..xfer.descIndex + xfer.descNum]
    ensures !overrun ==> forall k | 0 <= k < ring.desc.Length && !(0 <= k - xfer.descIndex < xfer.descNum) ::
              ring.desc[k] == old(ring.desc[k])
    ensures overrun ==> ring.descIdx == old(ring.descIdx) && ring.descUsed == old(ring.descUsed)
  {
    hide PassAt, EngineCopies, LenSum, W, Chained, Counted, CopyOf, Advance;
    ghost var first := ring.descIdx;
    var cnt, len;
    ghost var cs;
    var bus := ring.descBus + DESC_SIZE * ring.descIdx;
    xfer, r := Transfer(0, 0, 0, 0), Round(Transfer(0, 0, 0, 0), []);
    cnt, len, cs := BuildPass(ring, req, sgs, w);
    ghost var olds := ring.desc[first..first + cnt];
    ring.descUsed := ring.descUsed + cnt;
    overrun := LinkPass(ring.desc, ring.descIdx, cnt, bus);
    if overrun {
      return;
    }
    ghost var descs := ring.desc[first..first + cnt];
    LinkedPassCopies(olds, descs, bus, ring.dir, cs);
    xfer := Transfer(ring.descIdx, cnt, bus, len);
    r := Round(xfer, descs);
    ring.descIdx := Advance(ring.descIdx, cnt, ring.desc.Length);
  }
}
