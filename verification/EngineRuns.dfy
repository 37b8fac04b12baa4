/** What holds over every run of queue, service, abort, offline and online sections. */
module EngineRuns {
  import opened EngineSpec

  datatype Step =
    | DoQueue(x: Xfer, hw: Hw)
    | DoService(wb: nat, hw: Hw)
    | DoAbort(i: nat, status: Status)
    | DoOffline
    | DoOnline

  function Apply(s: EngineState, step: Step): EngineState {
    match step
    case DoQueue(x, hw) => Enqueue(s, x, hw)
    case DoService(wb, hw) => Service(s, wb, hw)
    case DoAbort(i, status) => if i < |s.queue| then AbortAt(s, i, status) else s
    case DoOffline => Offline(s)
    case DoOnline => Online(s)
  }

  function Run(s: EngineState, steps: seq<Step>): EngineState
    decreases |steps|
  {
    if steps == [] then s else Run(Apply(s, steps[0]), steps[1..])
  }

  predicate Initial(s: EngineState) {
    && s.queue == [] && !s.running && s.accepted == [] && s.retired == []
    && s.wakeups == [] && s.callbacks == []
  }

  // ----- FIFO conservation -----

  function Originals(xs: seq<Xfer>): (r: seq<Xfer>)
    ensures |r| == |xs|
    ensures forall i :: 0 <= i < |xs| ==> r[i] == AsSubmitted(xs[i])
  {
    seq(|xs|, i requires 0 <= i < |xs| => AsSubmitted(xs[i]))
  }

  /** Tickets of the transfers that service, not abort, took off the queue. */
  function Serviced(xs: seq<Xfer>): seq<nat> {
    if xs == [] then [] else
    var x := xs[|xs| - 1];
    Serviced(xs[..|xs| - 1]) + if x.state != Aborted then [x.ticket] else []
  }

  /** Those among them that end an asynchronous request. */
  function Notified(xs: seq<Xfer>): seq<nat> {
    if xs == [] then [] else
    var x := xs[|xs| - 1];
    Notified(xs[..|xs| - 1])
    + if x.state != Aborted && x.hasCallback && x.lastInRequest then [x.ticket] else []
  }

  /** An abort that does not take the head leaves its transfer on the queue. */
  predicate Queued(t: TransferState, heads: bool) { t == Submitted || (t == Aborted && !heads) }

  predicate Final(t: TransferState) { t == Completed || t == Failed || t == Aborted }

  /** The ledger of an engine. With `heads` every abort so far took the head of the queue. */
  ghost predicate Conserved(s: EngineState, heads: bool) {
    && s.accepted == Originals(s.retired + s.queue)
    && (forall i :: 0 <= i < |s.accepted| ==> s.accepted[i].ticket == i)
    && (forall i :: 0 <= i < |s.queue| ==> s.queue[i].descNum > 0 && Queued(s.queue[i].state, heads))
    && (forall i :: 0 <= i < |s.retired| ==> Final(s.retired[i].state))
    && s.wakeups == Serviced(s.retired)
    && s.callbacks == Notified(s.retired)
  }

  lemma RetireConserves(s: EngineState, x: Xfer, heads: bool)
    requires Conserved(s, heads) && s.queue != []
    requires AsSubmitted(x) == AsSubmitted(s.queue[0])
    requires x.state == Completed || x.state == Failed
    ensures Conserved(Retire(s, x), heads)
  {
    var r := Retire(s, x);
    assert r.retired + r.queue == s.retired + [x] + s.queue[1..];
    assert r.retired[..|r.retired| - 1] == s.retired;
    assert s.accepted == Originals(r.retired + r.queue);
  }

  lemma ServiceListConserves(s: EngineState, count: nat, heads: bool)
    requires Conserved(s, heads)
    ensures Conserved(ServiceList(s, count).0, heads)
    decreases |s.queue|
  {
    hide Conserved;
    if s.queue != [] && count > s.queue[0].descNum {
      var x := s.queue[0];
      LedgerConserves(s, s.(descDequeued := s.descDequeued + x.descNum), heads);
      RetireConserves(s.(descDequeued := s.descDequeued + x.descNum), x.(state := Completed), heads);
      ServiceListConserves(PopCompleted(s), count - x.descNum, heads);
    }
  }

  /** Only these fields matter to conservation. */
  predicate SameLedger(s: EngineState, t: EngineState) {
    && s.queue == t.queue && s.accepted == t.accepted && s.retired == t.retired
    && s.wakeups == t.wakeups && s.callbacks == t.callbacks
  }

  lemma LedgerConserves(s: EngineState, t: EngineState, heads: bool)
    requires Conserved(s, heads) && SameLedger(s, t)
    ensures Conserved(t, heads)
  {
  }

  lemma FinalConserves(s: EngineState, count: nat, heads: bool)
    requires Conserved(s, heads)
    ensures Conserved(ServiceFinal(s, count), heads)
  {
    hide Conserved, HasError;
    if s.queue != [] {
      var x := s.queue[0];
      if HasError(s.dir, s.status) {
        LedgerConserves(s, Stop(s), heads);
        RetireConserves(Stop(s), x.(state := Failed), heads);
      } else {
        var u := s.(descDequeued := s.descDequeued + x.descNum);
        LedgerConserves(s, u, heads);
        RetireConserves(u, if count < x.descNum then x.(state := Failed, descCmpl := count)
                           else x.(state := Completed, descCmpl := x.descNum), heads);
      }
    }
  }

  lemma EntryConserves(s: EngineState, wb: nat, hw: Hw, heads: bool)
    requires Conserved(s, heads)
    ensures Conserved(ServiceEntry(s, wb, hw), heads)
  {
    hide Conserved, Busy, WbCount, WbError;
    LedgerConserves(s, ServiceEntry(s, wb, hw), heads);
  }

  lemma ResumeConserves(s: EngineState, hw: Hw, heads: bool)
    requires Conserved(s, heads)
    ensures Conserved(Resume(s, hw), heads)
  {
    hide Conserved;
    LedgerConserves(s, Resume(s, hw), heads);
  }

  lemma ServiceConserves(s: EngineState, wb: nat, hw: Hw, heads: bool)
    requires Conserved(s, heads)
    ensures Conserved(Service(s, wb, hw), heads)
  {
    hide Conserved, ServiceEntry, DescCount, Resume, ServiceFinal, ServiceList, NewlyCompleted;
    if s.running {
      var s1 := ServiceEntry(s, wb, hw);
      var c := NewlyCompleted(DescCount(wb, hw), s.descDequeued);
      EntryConserves(s, wb, hw, heads);
      ServiceListConserves(s1, c, heads);
      FinalConserves(ServiceList(s1, c).0, ServiceList(s1, c).1, heads);
      ResumeConserves(Account(s1, c), hw, heads);
    } else {
      LedgerConserves(s, Service(s, wb, hw), heads);
    }
  }

  lemma EnqueueConserves(s: EngineState, x: Xfer, hw: Hw, heads: bool)
    requires Conserved(s, heads)
    ensures Conserved(Enqueue(s, x, hw), heads)
  {
    if Accepts(s, x) {
      var r := Enqueue(s, x, hw);
      assert r.retired + r.queue == s.retired + s.queue + [x.(state := Submitted, ticket := |s.accepted|)];
      assert r.accepted == Originals(r.retired + r.queue);
    }
  }

  lemma AbortConserves(s: EngineState, i: nat, status: Status, heads: bool)
    requires Conserved(s, heads) && i < |s.queue| && (heads ==> i == 0)
    ensures Conserved(AbortAt(s, i, status), heads)
  {
    if i == 0 {
      AbortHeadConserves(s, status, heads);
    } else {
      AbortOtherConserves(s, i, status, heads);
    }
  }

  lemma AbortHeadConserves(s: EngineState, status: Status, heads: bool)
    requires Conserved(s, heads) && s.queue != []
    ensures Conserved(AbortAt(s, 0, status), heads)
  {
    var r := AbortAt(s, 0, status);
    var y := s.queue[0].(state := Aborted);
    assert r.retired + r.queue == s.retired + [y] + s.queue[1..];
    assert r.retired[..|r.retired| - 1] == s.retired;
    assert r.accepted == Originals(r.retired + r.queue);
  }

  lemma AbortOtherConserves(s: EngineState, i: nat, status: Status, heads: bool)
    requires Conserved(s, heads) && 0 < i < |s.queue| && !heads
    ensures Conserved(AbortAt(s, i, status), heads)
  {
    var r := AbortAt(s, i, status);
    var y := s.queue[i].(state := Aborted);
    assert r.queue == s.queue[i := y] && r.retired == s.retired;
    var a, b := s.retired + s.queue, r.retired + r.queue;
    assert forall k :: 0 <= k < |a| ==> AsSubmitted(b[k]) == AsSubmitted(a[k]);
    assert r.accepted == Originals(b);
  }

  predicate AbortsHead(step: Step) { step.DoAbort? ==> step.i == 0 }

  lemma StepConserves(s: EngineState, step: Step, heads: bool)
    requires Conserved(s, heads) && (heads ==> AbortsHead(step))
    ensures Conserved(Apply(s, step), heads)
  {
    match step
    case DoQueue(x, hw) => EnqueueConserves(s, x, hw, heads);
    case DoService(wb, hw) => ServiceConserves(s, wb, hw, heads);
    case DoAbort(i, status) => if i < |s.queue| { AbortConserves(s, i, status, heads); }
    case DoOffline => LedgerConserves(s, Offline(s), heads);
    case DoOnline => LedgerConserves(s, Online(s), heads);
  }

  lemma {:induction false} RunConserves(s: EngineState, steps: seq<Step>, heads: bool)
    requires Conserved(s, heads) && (heads ==> forall i :: 0 <= i < |steps| ==> AbortsHead(steps[i]))
    ensures Conserved(Run(s, steps), heads)
    decreases |steps|
  {
    if steps != [] {
      StepConserves(s, steps[0], heads);
      RunConserves(Apply(s, steps[0]), steps[1..], heads);
    }
  }

  predicate TicketsAreIndices(xs: seq<Xfer>) {
    forall i :: 0 <= i < |xs| ==> xs[i].ticket == i
  }

  lemma {:induction false} ServicedOnce(xs: seq<Xfer>, t: nat)
    requires TicketsAreIndices(xs)
    ensures multiset(Serviced(xs))[t] == if t < |xs| && xs[t].state != Aborted then 1 else 0
    ensures multiset(Notified(xs))[t]
         == if t < |xs| && xs[t].state != Aborted && xs[t].hasCallback && xs[t].lastInRequest then 1 else 0
  {
    if xs != [] {
      ServicedOnce(xs[..|xs| - 1], t);
    }
  }

  /** Over every run: the transfers accepted so far are, in order, the retired ones followed by the
      queued ones, each unchanged but for its progress, wherever in the queue aborts hit. Every queued
      transfer is SUBMITTED or ABORTED, and SUBMITTED if only heads were aborted; every retired one is
      in a final state, its ticket is its place in the order (so none retires twice), and it was
      announced exactly once if service retired it and never if it was aborted off the queue;
      `io_done` is called once for the last transfer of an asynchronous request. */
  lemma FifoConservation(s0: EngineState, steps: seq<Step>)
    requires Initial(s0)
    ensures var s := Run(s0, steps);
      && s.accepted == Originals(s.retired + s.queue)
      && TicketsAreIndices(s.retired + s.queue)
      && (forall x :: x in s.queue ==> x.state == Submitted || x.state == Aborted)
      && ((forall i :: 0 <= i < |steps| ==> AbortsHead(steps[i])) ==> forall x :: x in s.queue ==> x.state == Submitted)
      && (forall x :: x in s.retired ==> Final(x.state))
      && (forall i :: 0 <= i < |s.accepted| ==>
            multiset(s.wakeups)[i] == if i < |s.retired| && s.retired[i].state != Aborted then 1 else 0)
      && (forall i :: 0 <= i < |s.accepted| ==>
            multiset(s.callbacks)[i] ==
            if i < |s.retired| && s.retired[i].state != Aborted
               && s.retired[i].hasCallback && s.retired[i].lastInRequest then 1 else 0)
  {
    var heads := forall i :: 0 <= i < |steps| ==> AbortsHead(steps[i]);
    assert Conserved(s0, heads);
    RunConserves(s0, steps, heads);
    var s := Run(s0, steps);
    var all := s.retired + s.queue;
    forall i | 0 <= i < |all| ensures all[i].ticket == i {
      assert s.accepted[i] == AsSubmitted(all[i]);
    }
    forall i | 0 <= i < |s.retired| ensures s.retired[i].ticket == i {
      assert all[i] == s.retired[i];
    }
    forall t: nat
      ensures multiset(s.wakeups)[t] == if t < |s.retired| && s.retired[t].state != Aborted then 1 else 0
      ensures multiset(s.callbacks)[t]
           == if t < |s.retired| && s.retired[t].state != Aborted && s.retired[t].hasCallback
                 && s.retired[t].lastInRequest then 1 else 0
    {
      ServicedOnce(s.retired, t);
    }
  }

  // ----- Aborting a transfer that is not the head -----

  /** Aborting keeps every queued transfer SUBMITTED exactly when it aborts the head: the code
      marks any other transfer ABORTED and leaves it in the queue. */
  lemma AbortKeepsSubmittedIffHead(s: EngineState, i: nat, status: Status)
    requires Conserved(s, true) && i < |s.queue|
    ensures (forall x :: x in AbortAt(s, i, status).queue ==> x.state == Submitted) <==> i == 0
  {
    var r := AbortAt(s, i, status);
    if i > 0 {
      assert r.queue[i].state == Aborted;
      assert r.queue[i] in r.queue;
    }
  }

  // ----- Work conservation -----

  /** A running engine has work. */
  predicate BusyHasWork(s: EngineState) { s.running ==> s.queue != [] }

  /** Nothing waits on a stopped engine. */
  predicate WorkRuns(s: EngineState) { s.queue != [] ==> s.running }

  lemma StepBusyHasWork(s: EngineState, step: Step)
    requires BusyHasWork(s)
    ensures BusyHasWork(Apply(s, step))
  {
    hide Account, HasError, Busy, WbCount, WbError;
  }

  lemma {:induction false} RunBusyHasWork(s: EngineState, steps: seq<Step>)
    requires BusyHasWork(s)
    ensures BusyHasWork(Run(s, steps))
    decreases |steps|
  {
    hide Apply;
    if steps != [] {
      StepBusyHasWork(s, steps[0]);
      RunBusyHasWork(Apply(s, steps[0]), steps[1..]);
    }
  }

  /** When one step leaves no transfer waiting on a stopped engine. */
  predicate LeavesWorkRunning(s: EngineState, step: Step) {
    match step
    case DoQueue(x, _) => Accepts(s, x) || WorkRuns(s)
    case DoService(wb, hw) =>
      s.queue == [] || (s.running && (DescCount(wb, hw) != 0 || Busy(hw.statusClear)))
    case DoAbort(i, _) => if i < |s.queue| then |s.queue| == 1 else WorkRuns(s)
    case DoOffline => s.queue == []
    case DoOnline => WorkRuns(s)
  }

  lemma ResumeRunsWork(s: EngineState, hw: Hw)
    ensures WorkRuns(Resume(s, hw))
  {
  }

  lemma ServiceWorkRuns(s: EngineState, wb: nat, hw: Hw)
    requires BusyHasWork(s)
    ensures WorkRuns(Service(s, wb, hw)) <==> LeavesWorkRunning(s, DoService(wb, hw))
  {
    if s.running && DescCount(wb, hw) != 0 {
      hide Account, Resume, ServiceEntry, DescCount;
      ResumeRunsWork(Account(ServiceEntry(s, wb, hw), NewlyCompleted(DescCount(wb, hw), s.descDequeued)), hw);
    } else {
      hide Account, Busy;
    }
  }

  lemma StepWorkRuns(s: EngineState, step: Step)
    requires BusyHasWork(s)
    ensures WorkRuns(Apply(s, step)) <==> LeavesWorkRunning(s, step)
  {
    hide Service;
    if step.DoService? { ServiceWorkRuns(s, step.wb, step.hw); }
  }

  /** In every reachable state a running engine has a transfer queued, and one more step leaves no
      transfer waiting on a stopped engine exactly when: a submission is accepted; a service found
      the engine running and either saw a completed descriptor or found the hardware busy; an
      abort removed the only transfer; or nothing was waiting and the step changed nothing. */
  lemma WorkConservation(s0: EngineState, steps: seq<Step>, step: Step)
    requires Initial(s0)
    ensures var s := Run(s0, steps);
      && BusyHasWork(s)
      && (WorkRuns(Apply(s, step)) <==> LeavesWorkRunning(s, step))
  {
    hide Run, Apply, LeavesWorkRunning;
    RunBusyHasWork(s0, steps);
    StepWorkRuns(Run(s0, steps), step);
  }

  /** A stopped engine with waiting transfers stays so through any number of service calls. */
  lemma {:induction false} StalledThroughServices(s: EngineState, steps: seq<Step>)
    requires !s.running
    requires forall i :: 0 <= i < |steps| ==> steps[i].DoService?
    ensures var r := Run(s, steps);
      !r.running && r.queue == s.queue && r.retired == s.retired
    decreases |steps|
  {
    if steps != [] {
      StalledThroughServices(Apply(s, steps[0]), steps[1..]);
    }
  }

  // ----- Settled engines -----

  /** Every accepted transfer is retired or queued; the retired ones are in a final state and the
      queued ones SUBMITTED, or ABORTED by a caller that gave up on them. */
  ghost predicate Settled(s: EngineState) {
    && |s.accepted| == |s.retired| + |s.queue|
    && (forall i :: 0 <= i < |s.retired| ==> Final(s.retired[i].state))
    && (forall i :: 0 <= i < |s.queue| ==> s.queue[i].state == Submitted || s.queue[i].state == Aborted)
  }

  lemma RetireSettled(s: EngineState, x: Xfer)
    requires Settled(s) && s.queue != [] && Final(x.state)
    ensures Settled(Retire(s, x))
  {
  }

  lemma ServiceListSettled(s: EngineState, count: nat)
    requires Settled(s)
    ensures Settled(ServiceList(s, count).0)
    decreases |s.queue|
  {
    hide Settled;
    if s.queue != [] && count > s.queue[0].descNum {
      var x := s.queue[0];
      LedgerSettled(s, s.(descDequeued := s.descDequeued + x.descNum));
      RetireSettled(s.(descDequeued := s.descDequeued + x.descNum), x.(state := Completed));
      ServiceListSettled(PopCompleted(s), count - x.descNum);
    }
  }

  lemma LedgerSettled(s: EngineState, t: EngineState)
    requires Settled(s) && SameLedger(s, t)
    ensures Settled(t)
  {
  }

  lemma FinalSettled(s: EngineState, count: nat)
    requires Settled(s)
    ensures Settled(ServiceFinal(s, count))
  {
    hide Settled, HasError;
    if s.queue != [] {
      var x := s.queue[0];
      if HasError(s.dir, s.status) {
        LedgerSettled(s, Stop(s));
        RetireSettled(Stop(s), x.(state := Failed));
      } else {
        var u := s.(descDequeued := s.descDequeued + x.descNum);
        LedgerSettled(s, u);
        RetireSettled(u, if count < x.descNum then x.(state := Failed, descCmpl := count)
                         else x.(state := Completed, descCmpl := x.descNum));
      }
    }
  }

  lemma ServiceSettled(s: EngineState, wb: nat, hw: Hw)
    requires Settled(s)
    ensures Settled(Service(s, wb, hw))
  {
    hide Settled, DescCount, ServiceFinal, ServiceList, NewlyCompleted, Busy, WbCount, WbError;
    if s.running {
      var s1 := ServiceEntry(s, wb, hw);
      var c := NewlyCompleted(DescCount(wb, hw), s.descDequeued);
      LedgerSettled(s, s1);
      ServiceListSettled(s1, c);
      FinalSettled(ServiceList(s1, c).0, ServiceList(s1, c).1);
      LedgerSettled(Account(s1, c), Resume(Account(s1, c), hw));
    } else {
      LedgerSettled(s, Service(s, wb, hw));
    }
  }

  lemma EnqueueSettled(s: EngineState, x: Xfer, hw: Hw)
    requires Settled(s)
    ensures Settled(Enqueue(s, x, hw))
  {
  }

  /** Aborting any queued transfer, not only the head, leaves the engine settled. */
  lemma AbortSettled(s: EngineState, i: nat, status: Status)
    requires Settled(s) && i < |s.queue|
    ensures Settled(AbortAt(s, i, status))
  {
  }
}
