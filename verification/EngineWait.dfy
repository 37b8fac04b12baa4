/** One synchronous transfer against its engine: transfer_queue, the service calls that run while the
    submitter waits, and giving up after a timeout. */
module EngineWait {
  import opened Errno
  import opened EngineSpec
  import opened EngineRuns
  import opened Xdma
  import opened EngineService

  /** A call of engine_service with the registers it reads. */
  datatype ServiceCall = ServiceCall(wb: nat, hw: Hw)

  /** What the hardware contributes to one wait: its registers when the engine starts, the service
      calls until the wait times out, and the status read then. */
  datatype WaitInput = WaitInput(start: Hw, services: seq<ServiceCall>, timeoutStatus: Status)

  /** How a transfer turned out: refused by transfer_queue, or in some state when the wait ended. */
  datatype Wait = Refused | Ended(state: TransferState)

  /** How a submit call ends: it returns, it has overrun memory, after which the model says nothing, or
      it is still waiting. */
  datatype CallEnd = Returned(result: int) | Overran | Waiting

  function ErrorOf(w: Wait): int {
    match w
    case Refused => -EBUSY
    case Ended(Completed) => 0
    case Ended(Failed) => -EIO
    case Ended(_) => -ERESTARTSYS
  }

  /** The state of the transfer with ticket t. */
  function StateAt(s: EngineState, t: nat): TransferState {
    if t < |s.retired| then s.retired[t].state
    else if t - |s.retired| < |s.queue| then s.queue[t - |s.retired|].state
    else New
  }

  /** Service calls until transfer t is no longer SUBMITTED. */
  function Serve(s: EngineState, t: nat, calls: seq<ServiceCall>): EngineState
    decreases |calls|
  {
    if calls == [] || StateAt(s, t) != Submitted then s
    else Serve(Service(s, calls[0].wb, calls[0].hw), t, calls[1..])
  }

  function GiveUp(s: EngineState, t: nat, status: Status): EngineState {
    if |s.retired| <= t < |s.retired| + |s.queue| then AbortAt(s, t - |s.retired|, status) else s
  }

  function Await(s: EngineState, x: Xfer, input: WaitInput): (EngineState, Wait) {
    if !Accepts(s, x) then (s, Refused)
    else
      var t := |s.accepted|;
      var served := Serve(Enqueue(s, x, input.start), t, input.services);
      var state := StateAt(served, t);
      if state == Completed || state == Failed then (served, Ended(state))
      else (GiveUp(served, t, input.timeoutStatus), Ended(state))
  }

  lemma AwaitIgnoresTicket(s: EngineState, x: Xfer, input: WaitInput, ticket: nat)
    ensures Await(s, x.(ticket := ticket), input) == Await(s, x, input)
  {
    assert Enqueue(s, x.(ticket := ticket), input.start) == Enqueue(s, x, input.start);
  }

  lemma StateIsModelState(e: XdmaEngine, t: nat)
    requires e.Valid() && t < |e.history|
    ensures e.history[t].state == StateAt(e.model, t)
  {
    assert e.history[t].View() == (e.model.retired + e.model.queue)[t];
  }

  // ----- A waiting transfer is not aborted by the services -----

  lemma RetireStates(s: EngineState, x: Xfer, t: nat)
    requires s.queue != []
    ensures StateAt(Retire(s, x), t) == if t == |s.retired| then x.state else StateAt(s, t)
  {
  }

  lemma ServiceListNotAborted(s: EngineState, count: nat, t: nat)
    requires StateAt(s, t) != Aborted
    ensures StateAt(ServiceList(s, count).0, t) != Aborted
    decreases |s.queue|
  {
    hide StateAt;
    if s.queue != [] && count > s.queue[0].descNum {
      var x := s.queue[0];
      var u := s.(descDequeued := s.descDequeued + x.descNum);
      SameStates(s, u, t);
      RetireStates(u, x.(state := Completed), t);
      ServiceListNotAborted(PopCompleted(s), count - x.descNum, t);
    }
  }

  lemma SameStates(s: EngineState, u: EngineState, t: nat)
    requires u.queue == s.queue && u.retired == s.retired
    ensures StateAt(u, t) == StateAt(s, t)
  {
  }

  lemma FinalNotAborted(s: EngineState, count: nat, t: nat)
    requires StateAt(s, t) != Aborted
    ensures StateAt(ServiceFinal(s, count), t) != Aborted
  {
    hide StateAt, Retire, HasError;
    if s.queue != [] {
      var x := s.queue[0];
      var u := s.(descDequeued := s.descDequeued + x.descNum);
      SameStates(s, u, t);
      SameStates(s, Stop(s), t);
      RetireStates(Stop(s), x.(state := Failed), t);
      RetireStates(u, x.(state := Failed, descCmpl := count), t);
      RetireStates(u, x.(state := Completed, descCmpl := x.descNum), t);
    }
  }

  lemma ServiceNotAborted(s: EngineState, wb: nat, hw: Hw, t: nat)
    requires StateAt(s, t) != Aborted
    ensures StateAt(Service(s, wb, hw), t) != Aborted
  {
    hide StateAt, DescCount, ServiceFinal, ServiceList, NewlyCompleted, Busy, WbCount, WbError;
    if s.running {
      var s1 := ServiceEntry(s, wb, hw);
      var c := NewlyCompleted(DescCount(wb, hw), s.descDequeued);
      SameStates(s, s1, t);
      ServiceListNotAborted(s1, c, t);
      FinalNotAborted(ServiceList(s1, c).0, ServiceList(s1, c).1, t);
      SameStates(Account(s1, c), Resume(Account(s1, c), hw), t);
    } else {
      SameStates(s, Service(s, wb, hw), t);
    }
  }

  // ----- The wait -----

  /** A transfer still SUBMITTED is still queued. */
  lemma SubmittedIsQueued(e: XdmaEngine, t: nat)
    requires e.Valid() && Settled(e.model) && t < |e.history| && e.history[t].state == Submitted
    ensures e.retiredCount <= t && t - e.retiredCount < |e.transferList| == |e.model.queue|
    ensures e.retiredCount == |e.model.retired|
    ensures e.transferList[t - e.retiredCount] == e.history[t]
  {
    StateIsModelState(e, t);
    assert |e.history| == |e.model.retired + e.model.queue|;
  }

  /** Services until the transfer is no longer SUBMITTED or none is left. */
  method WaitServices(e: XdmaEngine, transfer: XdmaTransfer, ghost t: nat, services: seq<ServiceCall>)
    requires e.Valid() && Settled(e.model)
    requires t < |e.history| && transfer == e.history[t] && transfer.state == Submitted
    modifies e, e.transferList
    ensures e.Valid() && Settled(e.model)
    ensures e.history == old(e.history) && e.retiredCount >= old(e.retiredCount)
    ensures e.model == Serve(old(e.model), t, services)
    ensures transfer.state == Submitted || transfer.state == Completed || transfer.state == Failed
  {
    hide Distinct, Show, Settled, Service, StateAt, Serve;
    StateIsModelState(e, t);
    assert services[0..] == services;
    var k := 0;
    while k < |services| && transfer.state == Submitted
      invariant 0 <= k <= |services|
      invariant e.Valid() && Settled(e.model)
      invariant e.history == old(e.history) && e.retiredCount >= old(e.retiredCount)
      invariant Serve(e.model, t, services[k..]) == Serve(old(e.model), t, services)
      invariant transfer.state == StateAt(e.model, t) != Aborted
    {
      ServeStep(e.model, t, services, k);
      ServiceSettled(e.model, services[k].wb, services[k].hw);
      ServiceNotAborted(e.model, services[k].wb, services[k].hw, t);
      var rv := ServiceEngine(e, services[k].wb, services[k].hw);
      StateIsModelState(e, t);
      k := k + 1;
    }
    ServeDone(e.model, t, services[k..]);
    SettledState(e, t);
  }

  lemma ServeStep(s: EngineState, t: nat, calls: seq<ServiceCall>, k: nat)
    requires k < |calls| && StateAt(s, t) == Submitted
    ensures Serve(s, t, calls[k..]) == Serve(Service(s, calls[k].wb, calls[k].hw), t, calls[k + 1..])
  {
    hide Service, StateAt;
    assert calls[k..][1..] == calls[k + 1..];
  }

  lemma ServeDone(s: EngineState, t: nat, calls: seq<ServiceCall>)
    requires calls == [] || StateAt(s, t) != Submitted
    ensures Serve(s, t, calls) == s
  {
  }

  lemma SettledState(e: XdmaEngine, t: nat)
    requires e.Valid() && Settled(e.model) && t < |e.history|
    ensures StateAt(e.model, t) != New
  {
    assert |e.history| == |e.model.retired + e.model.queue|;
  }

  /** transfer_queue as the submitter of a new transfer sees it. */
  method QueueNew(e: XdmaEngine, transfer: XdmaTransfer, hw: Hw) returns (rv: int)
    requires e.Valid() && Settled(e.model) && transfer !in e.history
    modifies e, transfer
    ensures e.Valid() && Settled(e.model)
    ensures rv == 0 <==> Accepts(old(e.model), old(transfer.View()))
    ensures rv == 0 ==> var t := |old(e.model).accepted|;
      && e.model == Enqueue(old(e.model), old(transfer.View()), hw)
      && t < |e.history| && e.history[t] == transfer && transfer.state == Submitted
    ensures rv != 0 ==> e.model == old(e.model)
    ensures e.history == old(e.history) + if rv == 0 then [transfer] else []
    ensures e.retiredCount == old(e.retiredCount)
  {
    hide Distinct, Start;
    ghost var s0, x := e.model, transfer.View();
    assert |s0.accepted| == |e.history| by { assert |e.history| == |s0.retired + s0.queue|; }
    EnqueueSettled(s0, x, hw);
    rv := TransferQueue(e, transfer, hw);
    if rv == 0 {
      NewTransferState(e, s0, x, hw);
    }
  }

  lemma NewTransferState(e: XdmaEngine, s0: EngineState, x: Xfer, hw: Hw)
    requires e.Valid() && Settled(s0) && Accepts(s0, x) && e.model == Enqueue(s0, x, hw)
    requires |e.history| == |s0.accepted| + 1
    ensures e.history[|s0.accepted|].state == Submitted
  {
    hide Distinct;
    StateIsModelState(e, |s0.accepted|);
  }

  /** The submitter's side: queue, wait through the service calls, give up on a timeout. */
  method AwaitTransfer(e: XdmaEngine, transfer: XdmaTransfer, input: WaitInput) returns (w: Wait)
    requires e.Valid() && Settled(e.model) && transfer !in e.history
    modifies e, e.transferList, transfer
    ensures e.Valid() && Settled(e.model)
    ensures (e.model, w) == Await(old(e.model), old(transfer.View()), input)
    ensures e.history == old(e.history) + if w == Refused then [] else [transfer]
    ensures forall x :: x in e.transferList ==> x in old(e.transferList) || x == transfer
  {
    hide Distinct, Show, Settled, Service, AbortAt, Enqueue, Accepts, Serve, StateAt;
    ghost var t := |e.model.accepted|;
    var rv := QueueNew(e, transfer, input.start);
    if rv != 0 {
      return Refused;
    }
    WaitServices(e, transfer, t, input.services);
    StateIsModelState(e, t);
    w := Ended(transfer.state);
    if transfer.state != Completed && transfer.state != Failed {
      SubmittedIsQueued(e, t);
      AbortSettled(e.model, t - e.retiredCount, input.timeoutStatus);
      AbortAndStop(e, transfer, input.timeoutStatus, t - e.retiredCount);
    }
  }
}
