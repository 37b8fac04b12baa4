/** What an engine copies that is started on a table of descriptors, and the bytes this moves. */
module Copying {
  import opened Words
  import opened EngineSpec
  import opened Descriptors
  import opened Transfers

  // ----- What the engine copies -----

  /** The copies of the descriptors at the visited addresses. */
  function CopiesAt(descs: seq<Desc>, base: nat, visited: seq<nat>, dir: Direction): seq<Copy> {
    if visited == [] then []
    else if !InTable(descs, base, visited[0]) then CopiesAt(descs, base, visited[1..], dir)
    else [CopyOf(DescAt(descs, base, visited[0]), dir)] + CopiesAt(descs, base, visited[1..], dir)
  }

  /** What an engine does that is started on the table; nothing if it gets lost. */
  function EngineCopies(descs: seq<Desc>, base: nat, dir: Direction): seq<Copy> {
    match FetchRun(descs, base)
    case Lost => []
    case Stopped(visited, _) => CopiesAt(descs, base, visited, dir)
  }

  /** One round: the transfer and its descriptors as the engine finds them. */
  datatype Round = Round(xfer: Transfer, descs: seq<Desc>)

  ghost predicate WellBuilt(r: Round) {
    && 0 < |r.descs| == r.xfer.descNum
    && Chained(r.descs, r.xfer.descBus)
  }

  function AllCopies(rounds: seq<Round>, dir: Direction): seq<Copy> {
    if rounds == [] then []
    else
      var r := rounds[|rounds| - 1];
      AllCopies(rounds[..|rounds| - 1], dir) + EngineCopies(r.descs, r.xfer.descBus, dir)
  }

  lemma {:induction false} CopiesAtAddresses(descs: seq<Desc>, base: nat, i: nat, dir: Direction)
    requires i <= |descs|
    ensures var cs := CopiesAt(descs, base, Addresses(base, i, |descs|), dir);
      |cs| == |descs| - i && forall k :: 0 <= k < |descs| - i ==> cs[k] == CopyOf(descs[i + k], dir)
    decreases |descs| - i
  {
    hide CopyOf, InTable, DescAt;
    if i < |descs| {
      CopiesAtOne(descs, base, i, dir);
      CopiesAtAddresses(descs, base, i + 1, dir);
      hide CopiesAt, Addresses;
      var cs := CopiesAt(descs, base, Addresses(base, i, |descs|), dir);
      forall k | 1 <= k < |descs| - i ensures cs[k] == CopyOf(descs[i + k], dir) {
        assert i + k == (i + 1) + (k - 1);
      }
    }
  }

  lemma CopiesAtOne(descs: seq<Desc>, base: nat, i: nat, dir: Direction)
    requires i < |descs|
    ensures CopiesAt(descs, base, Addresses(base, i, |descs|), dir)
         == [CopyOf(descs[i], dir)] + CopiesAt(descs, base, Addresses(base, i + 1, |descs|), dir)
  {
    hide CopyOf, InTable, DescAt;
    TableEntry(descs, base, i);
    assert Addresses(base, i, |descs|)[1..] == Addresses(base, i + 1, |descs|);
  }

  /** The engine performs the copies of a chained transfer's descriptors, once each and in order. */
  lemma EngineCopiesChain(descs: seq<Desc>, base: nat, dir: Direction)
    requires Chained(descs, base) && |descs| > 0 && base % DESC_SIZE == 0
    ensures var cs := EngineCopies(descs, base, dir);
      |cs| == |descs| && forall k :: 0 <= k < |descs| ==> cs[k] == CopyOf(descs[k], dir)
  {
    hide CopyOf, Chained, FetchRun, CopiesAt;
    BlockFetchIsListWalk(descs, base);
    CopiesAtAddresses(descs, base, 0, dir);
    var cs := EngineCopies(descs, base, dir);
    assert cs == CopiesAt(descs, base, Addresses(base, 0, |descs|), dir);
  }

  lemma AllCopiesAppend(rounds: seq<Round>, r: Round, dir: Direction)
    ensures AllCopies(rounds + [r], dir) == AllCopies(rounds, dir) + EngineCopies(r.descs, r.xfer.descBus, dir)
  {
    hide EngineCopies;
    assert (rounds + [r])[..|rounds|] == rounds;
  }

  // ----- Byte for byte -----

  /** The byte moves of one copy: (host address, device address). An engine in non-incremental address
      mode stays at the device address it was given. */
  function CopyMoves(c: Copy, nonIncr: bool): (r: seq<(nat, nat)>)
    ensures |r| == c.len
    ensures forall t :: 0 <= t < c.len ==> r[t] == (c.host + t, (c.dev + if nonIncr then 0 else t) % U64)
  {
    seq(c.len, t => (c.host + t, (c.dev + if nonIncr then 0 else t) % U64))
  }

  /** The byte moves a list of copies amounts to. */
  function Moves(cs: seq<Copy>, nonIncr: bool): seq<(nat, nat)> {
    if cs == [] then [] else Moves(cs[..|cs| - 1], nonIncr) + CopyMoves(cs[|cs| - 1], nonIncr)
  }

  lemma MovesLast(cs: seq<Copy>, c: Copy, nonIncr: bool)
    ensures Moves(cs + [c], nonIncr) == Moves(cs, nonIncr) + CopyMoves(c, nonIncr)
  {
    assert (cs + [c])[..|cs|] == cs;
  }

  lemma MovesOne(c: Copy, nonIncr: bool)
    ensures Moves([c], nonIncr) == CopyMoves(c, nonIncr)
  {
    MovesLast([], c, nonIncr);
    assert [] + [c] == [c];
  }

  lemma {:induction false} MovesConcat(a: seq<Copy>, b: seq<Copy>, nonIncr: bool)
    ensures Moves(a + b, nonIncr) == Moves(a, nonIncr) + Moves(b, nonIncr)
  {
    if b == [] {
      assert a + b == a;
    } else {
      var n := |b| - 1;
      hide Moves, CopyMoves;
      assert a + b == (a + b[..n]) + [b[n]] && b == b[..n] + [b[n]];
      MovesConcat(a, b[..n], nonIncr);
      MovesLast(a + b[..n], b[n], nonIncr);
      MovesLast(b[..n], b[n], nonIncr);
    }
  }

  function LenSum(cs: seq<Copy>): nat {
    if cs == [] then 0 else LenSum(cs[..|cs| - 1]) + cs[|cs| - 1].len
  }

  lemma LenSumSnoc(cs: seq<Copy>, c: Copy)
    ensures LenSum(cs + [c]) == LenSum(cs) + c.len
  {
    assert (cs + [c])[..|cs|] == cs;
  }

  lemma {:induction false} MovesLen(cs: seq<Copy>, nonIncr: bool)
    ensures |Moves(cs, nonIncr)| == LenSum(cs)
  {
    if cs != [] { MovesLen(cs[..|cs| - 1], nonIncr); }
  }

  lemma {:induction false} SumsConcat(a: seq<Copy>, b: seq<Copy>)
    ensures LenSum(a + b) == LenSum(a) + LenSum(b)
  {
    if b == [] {
      assert a + b == a;
    } else {
      var n := |b| - 1;
      hide LenSum;
      assert a + b == (a + b[..n]) + [b[n]] && b == b[..n] + [b[n]];
      SumsConcat(a, b[..n]);
      LenSumSnoc(a + b[..n], b[n]);
      LenSumSnoc(b[..n], b[n]);
    }
  }

  /** Where byte t of descriptor j is among all moves. */
  lemma MoveOfCopy(cs: seq<Copy>, j: nat, t: nat, nonIncr: bool)
    requires j < |cs| && t < cs[j].len
    ensures LenSum(cs[..j]) + t < LenSum(cs) == |Moves(cs, nonIncr)|
    ensures Moves(cs, nonIncr)[LenSum(cs[..j]) + t] == CopyMoves(cs[j], nonIncr)[t]
  {
    hide Moves, CopyMoves, LenSum;
    var a, b := cs[..j], cs[j + 1..];
    assert cs == (a + [cs[j]]) + b;
    MovesConcat(a + [cs[j]], b, nonIncr);
    MovesLast(a, cs[j], nonIncr);
    SumsConcat(a + [cs[j]], b);
    LenSumSnoc(a, cs[j]);
    MovesLen(a, nonIncr);
    MovesLen(b, nonIncr);
  }

  /** In either mode the same host bytes are moved in the same order. */
  lemma {:induction false} SameHosts(cs: seq<Copy>)
    ensures |Moves(cs, true)| == |Moves(cs, false)|
    ensures forall x :: 0 <= x < |Moves(cs, true)| ==> Moves(cs, true)[x].0 == Moves(cs, false)[x].0
  {
    if cs != [] { SameHosts(cs[..|cs| - 1]); }
  }
}
