/** Which descriptors of the ring the live transfers hold. transfer_init allocates from `desc_idx`
    and never looks at `desc_used`; transfers are released oldest first. */
module RingOccupancy {
  import opened Arithmetic
  import opened Transfers

  /** The descriptors [start, start + len) of one live transfer, and how many behind it were taken
      by refused transfers before the next one started. */
  datatype Run = Run(start: nat, len: nat, gap: nat)

  /** `lost` counts the descriptors of refused transfers behind no live one. */
  datatype RingState = RingState(idx: nat, used: int, live: seq<Run>, lost: nat)

  /** An allocation for a request with `left` pieces to go, the same for a transfer that is then
      refused and never released, or the release of the oldest transfer. */
  datatype Op = Allocate(left: nat) | Refuse(left: nat) | Release

  function Perform(s: RingState, op: Op, max: nat): RingState
    requires s.idx < max
  {
    match op
    case Allocate(left) =>
      if left == 0 then s
      else
        var n := PieceCount(left, s.idx, max);
        RingState(Advance(s.idx, n, max), s.used + n, s.live + [Run(s.idx, n, 0)], s.lost)
    case Refuse(left) =>
      var n := PieceCount(left, s.idx, max);
      var t := s.(idx := Advance(s.idx, n, max), used := s.used + n);
      if s.live == [] then t.(lost := s.lost + n)
      else
        var last := s.live[|s.live| - 1];
        t.(live := s.live[..|s.live| - 1] + [last.(gap := last.gap + n)])
    case Release =>
      if s.live == [] then s
      else RingState(s.idx, s.used - s.live[0].len, s.live[1..], s.lost + s.live[0].gap)
  }

  function PerformAll(s: RingState, ops: seq<Op>, max: nat): RingState
    requires s.idx < max
    decreases |ops|
  {
    if ops == [] then s else PerformAll(Perform(s, ops[0], max), ops[1..], max)
  }

  function UsedBy(live: seq<Run>): nat {
    if live == [] then 0 else UsedBy(live[..|live| - 1]) + Stride(live[|live| - 1])
  }

  /** Descriptors from the start of a run to the start of the next. */
  function Stride(r: Run): nat { r.len + r.gap }

  /** Where the run after r starts. */
  function EndOf(r: Run, max: nat): nat
    requires max > 0
  {
    Advance(r.start, Stride(r), max)
  }

  /** The live transfers occupy ring runs that follow each other, but for the descriptors of refused
      transfers, up to desc_idx; none wraps; desc_used is the total of all these. */
  ghost predicate Consecutive(s: RingState, max: nat) {
    && s.idx < max
    && s.used == UsedBy(s.live) + s.lost
    && (forall i :: 0 <= i < |s.live| ==> s.live[i].len > 0 && s.live[i].start + s.live[i].len <= max)
    && (forall i, j :: 0 <= i < |s.live| - 1 && j == i + 1 ==> s.live[j].start == EndOf(s.live[i], max))
    && (s.live != [] ==> s.idx == EndOf(s.live[|s.live| - 1], max))
  }

  lemma {:induction false} UsedByTail(live: seq<Run>)
    requires live != []
    ensures UsedBy(live) == Stride(live[0]) + UsedBy(live[1..])
  {
    var n := |live| - 1;
    if n > 0 {
      UsedByTail(live[..n]);
      assert live[..n][1..] == live[1..][..n - 1];
    } else {
      assert live[..0] == [] && live[1..] == [];
    }
  }

  lemma UsedBySnoc(live: seq<Run>, r: Run)
    ensures UsedBy(live + [r]) == UsedBy(live) + Stride(r)
  {
    assert (live + [r])[..|live|] == live;
  }

  lemma AllocateKeepsConsecutive(s: RingState, left: nat, max: nat)
    requires Consecutive(s, max) && left > 0
    ensures Consecutive(Perform(s, Allocate(left), max), max)
  {
    hide Advance, PieceCount, UsedBy;
    var n := PieceCount(left, s.idx, max);
    var t := Perform(s, Allocate(left), max);
    UsedBySnoc(s.live, Run(s.idx, n, 0));
    forall i, j | 0 <= i < |t.live| - 1 && j == i + 1
      ensures t.live[j].start == EndOf(t.live[i], max)
    {
      if j < |s.live| {
        assert s.live[j].start == EndOf(s.live[i], max);
      }
    }
  }

  lemma ReleaseKeepsConsecutive(s: RingState, max: nat)
    requires Consecutive(s, max) && s.live != []
    ensures Consecutive(Perform(s, Release, max), max)
  {
    hide EndOf, UsedBy;
    UsedByTail(s.live);
    var t := Perform(s, Release, max);
    forall i, j | 0 <= i < |t.live| - 1 && j == i + 1
      ensures t.live[j].start == EndOf(t.live[i], max)
    {
      assert s.live[j + 1].start == EndOf(s.live[i + 1], max);
    }
  }

  lemma RefuseKeepsConsecutive(s: RingState, left: nat, max: nat)
    requires Consecutive(s, max)
    ensures Consecutive(Perform(s, Refuse(left), max), max)
  {
    hide Advance, PieceCount, UsedBy;
    if s.live != [] {
      var m := |s.live| - 1;
      var n := PieceCount(left, s.idx, max);
      var last := s.live[m];
      AdvanceAdd(last.start, Stride(last), n, max);
      UsedBySnoc(s.live[..m], last);
      UsedBySnoc(s.live[..m], last.(gap := last.gap + n));
      assert s.live == s.live[..m] + [last];
    }
  }

  lemma PerformKeepsConsecutive(s: RingState, op: Op, max: nat)
    requires Consecutive(s, max)
    ensures Consecutive(Perform(s, op, max), max)
  {
    hide Consecutive;
    match op
    case Allocate(left) => if left > 0 { AllocateKeepsConsecutive(s, left, max); }
    case Refuse(left) => RefuseKeepsConsecutive(s, left, max);
    case Release => if s.live != [] { ReleaseKeepsConsecutive(s, max); }
  }

  lemma {:induction false} PerformAllKeepsConsecutive(s: RingState, ops: seq<Op>, max: nat)
    requires Consecutive(s, max)
    ensures Consecutive(PerformAll(s, ops, max), max)
    decreases |ops|
  {
    if ops != [] {
      PerformKeepsConsecutive(s, ops[0], max);
      PerformAllKeepsConsecutive(Perform(s, ops[0], max), ops[1..], max);
    }
  }

  // ----- When live transfers share a descriptor -----

  predicate Apart(a: Run, b: Run) { a.start + a.len <= b.start || b.start + b.len <= a.start }

  ghost predicate PairwiseApart(live: seq<Run>) {
    forall i, j :: 0 <= i < j < |live| ==> Apart(live[i], live[j])
  }

  /** Run k starts where the descriptors before it end, counted from the first run. */
  lemma {:induction false} StartOf(s: RingState, k: nat, max: nat)
    requires Consecutive(s, max) && k < |s.live|
    ensures s.live[k].start == Advance(s.live[0].start, UsedBy(s.live[..k]), max)
  {
    if k == 0 {
      ModUnique(s.live[0].start, max, 0, s.live[0].start);
    } else {
      StartOf(s, k - 1, max);
      assert s.live[..k][..k - 1] == s.live[..k - 1];
      AdvanceAdd(s.live[0].start, UsedBy(s.live[..k - 1]), Stride(s.live[k - 1]), max);
    }
  }

  lemma {:induction false} UsedByMonotone(live: seq<Run>, i: nat, j: nat)
    requires i < j <= |live|
    ensures UsedBy(live[..i]) + Stride(live[i]) <= UsedBy(live[..j]) <= UsedBy(live)
    decreases |live|
  {
    var n := |live| - 1;
    if j <= n {
      UsedByMonotone(live[..n], i, j);
      assert live[..n][..i] == live[..i] && live[..n][..j] == live[..j];
    } else {
      assert live[..j] == live;
      if i < n {
        UsedByMonotone(live[..n], i, n);
        assert live[..n][..i] == live[..i] && live[..n][..n] == live[..n];
      }
    }
  }

  /** Two stretches of less than a lap in all do not meet on the ring. */
  lemma LessThanALapApart(base: nat, offA: nat, lenA: nat, offB: nat, lenB: nat, max: nat)
    requires max > 0 && offA + lenA <= offB && offB + lenB <= offA + max
    requires Advance(base, offA, max) + lenA <= max
    ensures Apart(Run(Advance(base, offA, max), lenA, 0), Run(Advance(base, offB, max), lenB, 0))
  {
    var s, d := Advance(base, offA, max), offB - offA;
    AdvanceAdd(base, offA, d, max);
    if s + d < max {
      ModUnique(s + d, max, 0, s + d);
    } else {
      ModUnique(s + d, max, 1, s + d - max);
    }
  }

  lemma WithinALapAllApart(s: RingState, max: nat)
    requires Consecutive(s, max) && s.used <= max
    ensures PairwiseApart(s.live)
  {
    forall i, j | 0 <= i < j < |s.live| ensures Apart(s.live[i], s.live[j]) {
      StartOf(s, i, max);
      StartOf(s, j, max);
      UsedByMonotone(s.live, i, j);
      UsedByMonotone(s.live, j, j + 1);
      LessThanALapApart(s.live[0].start, UsedBy(s.live[..i]), s.live[i].len,
                        UsedBy(s.live[..j]), s.live[j].len, max);
    }
  }

  /** No transfer was refused. */
  predicate NoGaps(s: RingState) {
    s.lost == 0 && forall i :: 0 <= i < |s.live| ==> s.live[i].gap == 0
  }

  lemma {:induction false} WithoutRefusalsNoGaps(s: RingState, ops: seq<Op>, max: nat)
    requires s.idx < max && NoGaps(s) && forall i :: 0 <= i < |ops| ==> !ops[i].Refuse?
    ensures NoGaps(PerformAll(s, ops, max))
    decreases |ops|
  {
    if ops != [] {
      WithoutRefusalsNoGaps(Perform(s, ops[0], max), ops[1..], max);
    }
  }

  /** The run holding descriptor number `pos`, counted over all live transfers. */
  lemma {:induction false} RunAt(live: seq<Run>, pos: nat) returns (j: nat)
    requires pos < UsedBy(live) && forall i :: 0 <= i < |live| ==> live[i].gap == 0
    ensures j < |live| && UsedBy(live[..j]) <= pos < UsedBy(live[..j]) + live[j].len
  {
    var n := |live| - 1;
    if UsedBy(live[..n]) <= pos {
      j := n;
    } else {
      j := RunAt(live[..n], pos);
      assert live[..n][..j] == live[..j];
    }
  }

  lemma OverALapMeets(s: RingState, max: nat)
    requires Consecutive(s, max) && s.used > max && NoGaps(s)
    ensures !PairwiseApart(s.live)
  {
    var j := RunAt(s.live, max);
    var first, run := s.live[0], s.live[j];
    var off := UsedBy(s.live[..j]);
    assert s.live[..0] == [] && first.len <= max;
    assert j != 0;
    StartOf(s, j, max);
    AdvanceAdd(first.start, off, max - off, max);
    ModUnique(first.start + max, max, 1, first.start);
    var t := max - off;
    assert Advance(run.start, t, max) == first.start;
    ModUnique(run.start + t, max, 0, run.start + t);
    assert !Apart(first, run);
  }

  /** In every run of allocations, refusals and oldest-first releases from an empty ring: desc_idx
      stays in range, no live transfer wraps, and while desc_used has not passed desc_max, which the
      code never checks, no two live transfers share a descriptor. */
  lemma WithinALapDisjoint(idx: nat, ops: seq<Op>, max: nat)
    requires idx < max
    ensures var s := PerformAll(RingState(idx, 0, [], 0), ops, max);
      Consecutive(s, max) && (s.used <= max ==> PairwiseApart(s.live))
  {
    hide Perform, PairwiseApart;
    var s0 := RingState(idx, 0, [], 0);
    PerformAllKeepsConsecutive(s0, ops, max);
    var s := PerformAll(s0, ops, max);
    if s.used <= max { WithinALapAllApart(s, max); }
  }

  /** Without refused transfers that condition is exact. */
  lemma SharedDescriptorsIff(idx: nat, ops: seq<Op>, max: nat)
    requires idx < max && forall i :: 0 <= i < |ops| ==> !ops[i].Refuse?
    ensures var s := PerformAll(RingState(idx, 0, [], 0), ops, max);
      PairwiseApart(s.live) <==> s.used <= max
  {
    hide Perform, PairwiseApart;
    var s0 := RingState(idx, 0, [], 0);
    WithinALapDisjoint(idx, ops, max);
    WithoutRefusalsNoGaps(s0, ops, max);
    var s := PerformAll(s0, ops, max);
    if s.used > max { OverALapMeets(s, max); }
  }

  /** With refused transfers it is not: on a ring of four, two refusals of three pieces leave
      desc_used above desc_max with no transfer live. */
  lemma RefusalsOvercount()
    ensures var s := PerformAll(RingState(0, 0, [], 0), [Refuse(3), Refuse(3), Refuse(3)], 4);
      s.used > 4 && s.live == []
  {
    var s1 := Perform(RingState(0, 0, [], 0), Refuse(3), 4);
    var s2 := Perform(s1, Refuse(3), 4);
    var s3 := Perform(s2, Refuse(3), 4);
    var ops := [Refuse(3), Refuse(3), Refuse(3)];
    assert ops[1..] == [Refuse(3), Refuse(3)] && ops[1..][1..] == [Refuse(3)];
    assert PerformAll(s2, [Refuse(3)], 4) == PerformAll(s3, [Refuse(3)][1..], 4) == s3;
    assert PerformAll(s1, ops[1..], 4) == PerformAll(s2, ops[1..][1..], 4);
  }

  /** An asynchronous request of one or two transfers has both in the ring at once: the second one
      overwrites descriptors of the first exactly when the request has more than desc_max pieces. */
  lemma TwoTransfersApartIff(cnt: nat, idx: nat, max: nat)
    requires idx < max && 0 < cnt && idx + cnt <= 2 * max
    ensures var n := PieceCount(cnt, idx, max);
      var next := Advance(idx, n, max);
      var m := PieceCount(cnt - n, next, max);
      n + m == cnt && (Apart(Run(idx, n, 0), Run(next, m, 0)) <==> cnt <= max)
  {
    if idx + cnt < max {
      ModUnique(idx + cnt, max, 0, idx + cnt);
    } else {
      ModUnique(max, max, 1, 0);
    }
  }
}
