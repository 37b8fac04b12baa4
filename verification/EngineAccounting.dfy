/** How one service call turns a completed-descriptor count into transfer states. */
module EngineAccounting {
  import opened Words
  import opened EngineSpec

  function DescSum(q: seq<Xfer>): nat {
    if q == [] then 0 else q[0].descNum + DescSum(q[1..])
  }

  /** The transfers of q as the list loop leaves them. */
  function AllCompleted(q: seq<Xfer>): (r: seq<Xfer>)
    ensures |r| == |q|
    ensures forall i :: 0 <= i < |q| ==> r[i] == q[i].(state := Completed)
  {
    seq(|q|, i requires 0 <= i < |q| => q[i].(state := Completed))
  }

  lemma {:induction false} DescSumSplit(q: seq<Xfer>, k: nat)
    requires k <= |q|
    ensures DescSum(q) == DescSum(q[..k]) + DescSum(q[k..])
  {
    if k == 0 {
      assert q[0..] == q;
    } else {
      assert q[1..][..k - 1] == q[..k][1..];
      assert q[1..][k - 1..] == q[k..];
      DescSumSplit(q[1..], k - 1);
    }
  }

  lemma DescSumTake(q: seq<Xfer>, k: nat)
    requires 0 < k <= |q|
    ensures DescSum(q[..k]) == DescSum(q[..k - 1]) + q[k - 1].descNum
  {
    DescSumSplit(q[..k], k - 1);
    assert q[..k][..k - 1] == q[..k - 1];
    assert q[..k][k - 1..] == [q[k - 1]];
  }

  lemma AllCompletedCons(q: seq<Xfer>, k: nat)
    requires 0 < k <= |q|
    ensures AllCompleted(q[..k]) == [q[0].(state := Completed)] + AllCompleted(q[1..][..k - 1])
  {
  }

  lemma DescSumCons(q: seq<Xfer>, k: nat)
    requires 0 < k <= |q|
    ensures DescSum(q[..k]) == q[0].descNum + DescSum(q[1..][..k - 1])
  {
    assert q[..k][1..] == q[1..][..k - 1];
  }

  /** t and left are what the list loop makes of s when it retires the first k transfers. */
  ghost predicate ListRetired(s: EngineState, count: nat, k: nat, t: EngineState, left: nat)
    requires k <= |s.queue|
  {
    && t.queue == s.queue[k..]
    && t.retired == s.retired + AllCompleted(s.queue[..k])
    && t.descDequeued == s.descDequeued + DescSum(s.queue[..k])
    && left == count - DescSum(s.queue[..k])
    && t.running == s.running && t.status == s.status && t.dir == s.dir
  }

  lemma ListRetiredStep(s: EngineState, count: nat, k: nat, t: EngineState, left: nat)
    requires 0 < k <= |s.queue| && count > s.queue[0].descNum
    requires ListRetired(PopCompleted(s), count - s.queue[0].descNum, k - 1, t, left)
    ensures ListRetired(s, count, k, t, left)
  {
    hide AllCompleted, DescSum;
    DescSumCons(s.queue, k);
    AllCompletedCons(s.queue, k);
    assert s.queue[1..][k - 1..] == s.queue[k..];
  }

  /** The list loop retires exactly the first k transfers when the count exceeds their total but
      not that of the first k + 1. */
  lemma {:induction false} ListRetiresPrefix(s: EngineState, count: nat, k: nat)
    requires k <= |s.queue|
    requires k > 0 ==> DescSum(s.queue[..k]) < count
    requires k < |s.queue| ==> count <= DescSum(s.queue[..k + 1])
    ensures ListRetired(s, count, k, ServiceList(s, count).0, ServiceList(s, count).1)
    decreases k
  {
    var q := s.queue;
    if k == 0 {
      if q != [] { DescSumCons(q, 1); }
      assert s.retired + AllCompleted(q[..0]) == s.retired;
    } else {
      hide AllCompleted, ListRetired;
      DescSumCons(q, k);
      if k < |q| { DescSumCons(q, k + 1); }
      ListRetiresPrefix(PopCompleted(s), count - q[0].descNum, k - 1);
      ListRetiredStep(s, count, k, ServiceList(s, count).0, ServiceList(s, count).1);
    }
  }

  /** Prefix accounting of one error-free service. Let k be the transfer on which the count c
      stops: the prefix sums before and after it bracket c. Then exactly transfers 0..k leave the
      queue; those before k are COMPLETED, and k is COMPLETED if its own last descriptor is done
      and FAILED otherwise. The dequeued total grows by all their descriptors, so when k is done
      it equals the count the hardware reported. */
  lemma PrefixAccounting(s: EngineState, c: nat, k: nat)
    requires !HasError(s.dir, s.status)
    requires k < |s.queue|
    requires k > 0 ==> DescSum(s.queue[..k]) < c
    requires c <= DescSum(s.queue[..k + 1])
    ensures var t := Account(s, c);
      var before := DescSum(s.queue[..k]);
      var last := s.queue[k];
      && t.queue == s.queue[k + 1..]
      && t.retired == s.retired + AllCompleted(s.queue[..k])
         + [if c == before + last.descNum
            then last.(state := Completed, descCmpl := last.descNum)
            else last.(state := Failed, descCmpl := c - before)]
      && t.descDequeued == s.descDequeued + before + last.descNum
      && t.running == s.running
  {
    hide AllCompleted, HasError, ServiceList;
    ListRetiresPrefix(s, c, k);
    DescSumTake(s.queue, k + 1);
  }

  /** With an error bit in the status the same prefix is COMPLETED, transfer k is FAILED whatever
      the count, its descriptors are not counted, and the engine is stopped. */
  lemma ErrorAccounting(s: EngineState, c: nat, k: nat)
    requires HasError(s.dir, s.status)
    requires k < |s.queue|
    requires k > 0 ==> DescSum(s.queue[..k]) < c
    requires c <= DescSum(s.queue[..k + 1])
    ensures var t := Account(s, c);
      && t.queue == s.queue[k + 1..]
      && t.retired == s.retired + AllCompleted(s.queue[..k]) + [s.queue[k].(state := Failed)]
      && t.descDequeued == s.descDequeued + DescSum(s.queue[..k])
      && !t.running
  {
    hide AllCompleted, HasError, ServiceList;
    ListRetiresPrefix(s, c, k);
  }

  /** A count beyond the whole queue completes every transfer. */
  lemma OvercountCompletesAll(s: EngineState, c: nat)
    requires c > DescSum(s.queue)
    ensures var t := Account(s, c);
      && t.queue == []
      && t.retired == s.retired + AllCompleted(s.queue)
      && t.descDequeued == s.descDequeued + DescSum(s.queue)
  {
    var n := |s.queue|;
    assert s.queue[..n] == s.queue;
    ListRetiresPrefix(s, c, n);
  }

  /** Every count stops on some transfer or exceeds the whole queue, so the three lemmas above
      cover every service. */
  lemma {:induction false} StopsSomewhere(q: seq<Xfer>, c: nat) returns (k: nat)
    ensures k <= |q|
    ensures k > 0 ==> DescSum(q[..k]) < c
    ensures k < |q| ==> c <= DescSum(q[..k + 1])
  {
    if q == [] || c <= q[0].descNum {
      k := 0;
      if q != [] { DescSumCons(q, 1); }
    } else {
      var j := StopsSomewhere(q[1..], c - q[0].descNum);
      k := j + 1;
      DescSumCons(q, k);
      if k < |q| { DescSumCons(q, k + 1); }
    }
  }

  lemma AllCompletedAt(q: seq<Xfer>, k: nat)
    requires k <= |q|
    ensures |AllCompleted(q[..k])| == k
    ensures forall i :: 0 <= i < k ==> AllCompleted(q[..k])[i] == q[i].(state := Completed)
  {
  }

  /** In t exactly the first k transfers of `queue` have joined `retired`, all COMPLETED. */
  ghost predicate CompletedExactly(queue: seq<Xfer>, retired: seq<Xfer>, k: nat, t: EngineState)
    requires k <= |queue|
  {
    && t.queue == queue[k..]
    && |t.retired| == |retired| + k
    && t.retired[..|retired|] == retired
    && var done := t.retired[|retired|..];
       forall i :: 0 <= i < k ==> done[i].state == Completed && done[i].ticket == queue[i].ticket
  }

  lemma ExactPrefix(s: EngineState, k: nat)
    requires !HasError(s.dir, s.status)
    requires 0 < k <= |s.queue|
    requires forall x :: x in s.queue ==> x.descNum > 0
    ensures var t := Account(s, DescSum(s.queue[..k]));
      CompletedExactly(s.queue, s.retired, k, t) && t.descDequeued == s.descDequeued + DescSum(s.queue[..k])
  {
    hide Account, HasError, AllCompleted;
    assert s.queue[k - 1] in s.queue;
    DescSumTake(s.queue, k);
    PrefixAccounting(s, DescSum(s.queue[..k]), k - 1);
    AllCompletedAt(s.queue, k - 1);
  }

  lemma ServiceOpens(s: EngineState, wb: nat, hw: Hw, c: nat)
    requires s.running && 0 < c && DescCount(wb, hw) == s.descDequeued + c < U32
    ensures Service(s, wb, hw) == Resume(Account(ServiceEntry(s, wb, hw), c), hw)
  {
    hide Account, Resume, ServiceEntry;
    assert NewlyCompleted(DescCount(wb, hw), s.descDequeued) == c;
  }

  lemma EntryKeepsLedger(s: EngineState, wb: nat, hw: Hw)
    ensures var t := ServiceEntry(s, wb, hw);
      t.queue == s.queue && t.retired == s.retired && t.descDequeued == s.descDequeued && t.dir == s.dir
      && t.offline == s.offline && t.shutdownRequest == s.shutdownRequest
  {
    hide Busy, WbCount, WbError;
  }

  /** In the exact case, seen from engine_service: when the reported count is what was already
      dequeued plus the first k queued transfers, exactly those complete, the rest of the queue is
      untouched, and before the engine resumes the dequeued total equals the reported count. */
  lemma ExactCountCompletesPrefix(s: EngineState, wb: nat, hw: Hw, k: nat)
    requires s.running && !HasError(s.dir, ServiceEntry(s, wb, hw).status)
    requires 0 < k <= |s.queue|
    requires forall x :: x in s.queue ==> x.descNum > 0
    requires DescCount(wb, hw) == s.descDequeued + DescSum(s.queue[..k]) < U32
    ensures var t := Account(ServiceEntry(s, wb, hw), DescSum(s.queue[..k]));
      && Service(s, wb, hw) == Resume(t, hw)
      && CompletedExactly(s.queue, s.retired, k, t)
      && t.descDequeued == DescCount(wb, hw)
  {
    hide Service, ServiceEntry, Account, Resume, HasError, DescCount, CompletedExactly;
    assert s.queue[k - 1] in s.queue;
    DescSumTake(s.queue, k);
    EntryKeepsLedger(s, wb, hw);
    ServiceOpens(s, wb, hw, DescSum(s.queue[..k]));
    ExactPrefix(ServiceEntry(s, wb, hw), k);
  }

  // ----- A transfer alone on the engine, as the synchronous submit path leaves it -----

  predicate SameFlags(s: EngineState, t: EngineState) {
    t.offline == s.offline && t.shutdownRequest == s.shutdownRequest && t.dir == s.dir
  }

  lemma AccountLone(s: EngineState, c: nat)
    requires |s.queue| == 1
    ensures var t := Account(s, c);
      && t.queue == [] && |t.retired| == |s.retired| + 1 && SameFlags(s, t)
      && t.retired[|s.retired|].ticket == s.queue[0].ticket
      && t.retired[|s.retired|].state
         == if c > s.queue[0].descNum || (c == s.queue[0].descNum && !HasError(s.dir, s.status))
            then Completed else Failed
  {
    hide HasError;
    var x := s.queue[0];
    if c > x.descNum { assert ServiceList(PopCompleted(s), c - x.descNum).0 == PopCompleted(s); }
  }

  /** A transfer submitted to an idle engine and serviced once with a non-zero count: it is retired
      whatever happens, and the waiting submitter finds it COMPLETED exactly when the count exceeds
      its descriptors, or meets them with no error bit in the status; otherwise it finds it FAILED. */
  lemma LoneTransferOutcome(s: EngineState, x: Xfer, startHw: Hw, wb: nat, hw: Hw)
    requires !s.running && s.queue == [] && Accepts(s, x)
    requires 0 < DescCount(wb, hw) < U32
    ensures var started := Enqueue(s, x, startHw);
      var t := Service(started, wb, hw);
      && started.running && started.queue != []
      && t.queue == [] && !t.running && |t.retired| == |s.retired| + 1 && SameFlags(s, t)
      && t.retired[|s.retired|].ticket == |s.accepted|
      && t.retired[|s.retired|].state
         == if DescCount(wb, hw) > x.descNum
               || (DescCount(wb, hw) == x.descNum && !HasError(s.dir, ServiceEntry(started, wb, hw).status))
            then Completed else Failed
  {
    var started := Enqueue(s, x, startHw);
    hide HasError, Account, Busy, ServiceEntry, DescCount;
    EntryKeepsLedger(started, wb, hw);
    AccountLone(ServiceEntry(started, wb, hw), DescCount(wb, hw));
    ServiceOpens(started, wb, hw, DescCount(wb, hw));
    ResumeOnEmpty(Account(ServiceEntry(started, wb, hw), DescCount(wb, hw)), hw);
  }

  lemma ResumeOnEmpty(s: EngineState, hw: Hw)
    requires s.queue == []
    ensures var t := Resume(s, hw);
      t.queue == [] && !t.running && t.retired == s.retired && SameFlags(s, t)
  {
  }

  // ----- Writeback polling against the interrupt path -----

  /** What the rest of the driver can tell apart: everything but the stored status word. */
  predicate SameButStatus(s: EngineState, t: EngineState) {
    s == t.(status := s.status)
  }

  lemma {:induction false} ServiceListIgnoresStatus(s: EngineState, t: EngineState, c: nat)
    requires SameButStatus(s, t)
    ensures ServiceList(s, c).1 == ServiceList(t, c).1
    ensures SameButStatus(ServiceList(s, c).0, ServiceList(t, c).0)
    ensures ServiceList(s, c).0.status == s.status && ServiceList(t, c).0.status == t.status
    ensures ServiceList(s, c).0.dir == s.dir
    decreases |s.queue|
  {
    if s.queue != [] && c > s.queue[0].descNum {
      ServiceListIgnoresStatus(PopCompleted(s), PopCompleted(t), c - s.queue[0].descNum);
    }
  }

  lemma FinalIgnoresStatus(s: EngineState, t: EngineState, c: nat)
    requires SameButStatus(s, t)
    requires !HasError(s.dir, s.status) && !HasError(t.dir, t.status)
    ensures SameButStatus(ServiceFinal(s, c), ServiceFinal(t, c))
  {
    hide HasError;
    if s.queue != [] && c < s.queue[0].descNum {
      assert ServiceFinal(t, c).retired == ServiceFinal(s, c).retired;
    }
  }

  lemma ResumeIgnoresStatus(s: EngineState, t: EngineState, sHw: Hw, tHw: Hw)
    requires SameButStatus(s, t)
    requires sHw.statusAtStart == tHw.statusAtStart
    ensures SameButStatus(Resume(s, sHw), Resume(t, tHw))
  {
  }

  /** Servicing an error-free writeback of c descriptors leaves the engine as an interrupt service
      does that reads an idle, error-free status and the same count, provided the stored status
      carried no error bit. */
  lemma PolledRefinesInterrupt(s: EngineState, wb: nat, pollHw: Hw, irqHw: Hw)
    requires WbCount(wb) != 0 && !WbError(wb)
    requires !HasError(s.dir, s.status)
    requires !Busy(irqHw.statusClear) && !HasError(s.dir, irqHw.statusClear)
    requires irqHw.completedCount == WbCount(wb)
    requires pollHw.statusAtStart == irqHw.statusAtStart
    ensures SameButStatus(Service(s, wb, pollHw), Service(s, 0, irqHw))
  {
    if s.running {
      hide ServiceList, ServiceFinal, Resume, HasError;
      var c := NewlyCompleted(WbCount(wb), s.descDequeued);
      var p, i := ServiceEntry(s, wb, pollHw), ServiceEntry(s, 0, irqHw);
      ServiceListIgnoresStatus(p, i, c);
      FinalIgnoresStatus(ServiceList(p, c).0, ServiceList(i, c).0, ServiceList(p, c).1);
      ResumeIgnoresStatus(Account(p, c), Account(i, c), pollHw, irqHw);
    }
  }

  lemma ResumeKeepsRetired(s: EngineState, hw: Hw)
    ensures Resume(s, hw).retired == s.retired
  {
  }

  /** Where the k-th transfer ends up when the count is exact for k transfers. */
  lemma ExactOutcome(s: EngineState, k: nat)
    requires 0 < k <= |s.queue| && s.queue[k - 1].descNum > 0
    ensures var t := Account(s, DescSum(s.queue[..k]));
      var n := |s.retired| + k;
      |t.retired| == n && (t.retired[n - 1].state == Failed <==> HasError(s.dir, s.status))
  {
    hide Account, HasError, AllCompleted;
    DescSumTake(s.queue, k);
    if HasError(s.dir, s.status) {
      ErrorAccounting(s, DescSum(s.queue[..k]), k - 1);
    } else {
      PrefixAccounting(s, DescSum(s.queue[..k]), k - 1);
    }
  }

  /** The last transfer an exact service retires is FAILED exactly when the status word in force
      has an error bit. */
  lemma ExactServiceOutcome(s: EngineState, wb: nat, hw: Hw, k: nat)
    requires s.running && 0 < k <= |s.queue| && s.queue[k - 1].descNum > 0
    requires DescCount(wb, hw) == s.descDequeued + DescSum(s.queue[..k]) < U32
    ensures var t, n := Service(s, wb, hw), |s.retired| + k;
      |t.retired| == n
      && (t.retired[n - 1].state == Failed <==> HasError(s.dir, ServiceEntry(s, wb, hw).status))
  {
    hide Service, ServiceEntry, Account, Resume, HasError, DescCount;
    DescSumTake(s.queue, k);
    EntryKeepsLedger(s, wb, hw);
    ServiceOpens(s, wb, hw, DescSum(s.queue[..k]));
    ExactOutcome(ServiceEntry(s, wb, hw), k);
    ResumeKeepsRetired(Account(ServiceEntry(s, wb, hw), DescSum(s.queue[..k])), hw);
  }

  /** The list loop on the polled and on the interrupt state, up to the transfer the count stops on. */
  lemma ListsAgree(p: EngineState, i: EngineState, c: nat, k: nat)
    requires SameButStatus(p, i) && k <= |p.queue|
    requires k > 0 ==> DescSum(p.queue[..k]) < c
    requires k < |p.queue| ==> c <= DescSum(p.queue[..k + 1])
    ensures var (u, left) := ServiceList(p, c);
      && ServiceList(i, c) == (u.(status := i.status), left)
      && u.queue == p.queue[k..] && left == c - DescSum(p.queue[..k])
      && u.status == p.status && u.dir == p.dir && u.running == p.running
  {
    ListRetiresPrefix(p, c, k);
    ServiceListIgnoresStatus(p, i, c);
    hide ServiceList;
  }

  /** What the two services make of the transfer they stop on, when only the polled one sees an
      error bit. */
  lemma FinalsMatchIff(u: EngineState, status: Status, left: nat, hw: Hw, irqHw: Hw)
    requires HasError(u.dir, u.status) && !HasError(u.dir, status) && !u.running
    requires u.queue != [] ==> u.queue[0].descNum > 0
    requires hw.statusAtStart == irqHw.statusAtStart
    ensures SameButStatus(Resume(ServiceFinal(u, left), hw), Resume(ServiceFinal(u.(status := status), left), irqHw))
       <==> u.queue == [] || (|u.queue| > 1 && left < u.queue[0].descNum && left == u.queue[0].descCmpl)
  {
    hide HasError;
    if u.queue != [] {
      var p, i := ServiceFinal(u, left), ServiceFinal(u.(status := status), left);
      var n := |u.retired|;
      assert p.retired[n] == u.queue[0].(state := Failed);
      assert Resume(p, hw).retired == p.retired && Resume(i, irqHw).retired == i.retired;
      if left < u.queue[0].descNum {
        assert i.retired[n] == u.queue[0].(state := Failed, descCmpl := left);
      } else {
        assert i.retired[n].state == Completed;
      }
    }
  }

  /** When the proviso is needed: let transfer k be the one the newly reported count stops on, or the
      whole queue's length if the count goes beyond it. A polled service and an interrupt service
      agree exactly if the stored status has no error bit, or no transfer is stopped on, or the
      transfer has just made no progress past what is recorded of it and another one waits behind
      it. Otherwise the polled service takes a stale bit for a failure of this transfer. */
  lemma PolledMatchesInterruptIff(s: EngineState, wb: nat, pollHw: Hw, irqHw: Hw, k: nat)
    requires s.running && WbCount(wb) != 0 && !WbError(wb)
    requires !Busy(irqHw.statusClear) && !HasError(s.dir, irqHw.statusClear)
    requires irqHw.completedCount == WbCount(wb)
    requires pollHw.statusAtStart == irqHw.statusAtStart
    requires var c := NewlyCompleted(WbCount(wb), s.descDequeued);
      && k <= |s.queue|
      && (k > 0 ==> DescSum(s.queue[..k]) < c)
      && (k < |s.queue| ==> c <= DescSum(s.queue[..k + 1]) && s.queue[k].descNum > 0)
    ensures var left := NewlyCompleted(WbCount(wb), s.descDequeued) - DescSum(s.queue[..k]);
      SameButStatus(Service(s, wb, pollHw), Service(s, 0, irqHw)) <==>
        || !HasError(s.dir, s.status)
        || k == |s.queue|
        || (k + 1 < |s.queue| && left < s.queue[k].descNum && left == s.queue[k].descCmpl)
  {
    if !HasError(s.dir, s.status) {
      hide Service, HasError;
      PolledRefinesInterrupt(s, wb, pollHw, irqHw);
    } else {
      hide ServiceList, ServiceFinal, Resume, HasError, DescSum;
      var c := NewlyCompleted(WbCount(wb), s.descDequeued);
      var p, i := ServiceEntry(s, wb, pollHw), ServiceEntry(s, 0, irqHw);
      assert i == p.(status := irqHw.statusClear);
      ListsAgree(p, i, c, k);
      var (u, left) := ServiceList(p, c);
      FinalsMatchIff(u, irqHw.statusClear, left, pollHw, irqHw);
    }
  }
}
