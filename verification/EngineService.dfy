/** The lock-held sections of libxdma.c that work on an engine's queue, each proved to do to the
    engine what `EngineSpec` says. */
module EngineService {
  import opened Errno
  import opened EngineSpec
  import opened Xdma

  method XdmaEngineStop(e: XdmaEngine)
    requires e.Valid()
    modifies e
    ensures e.Valid() && e.history == old(e.history) && e.retiredCount == old(e.retiredCount)
    ensures e.model == Stop(old(e.model))
  {
    e.running := false;
    e.model := Stop(e.model);
  }

  /** engine_start: null if the engine runs already or has nothing to do. */
  method EngineStart(e: XdmaEngine, hw: Hw) returns (started: XdmaTransfer?)
    requires e.Valid()
    modifies e
    ensures e.Valid() && e.history == old(e.history) && e.retiredCount == old(e.retiredCount)
    ensures e.model == Start(old(e.model), hw)
    ensures started == if old(e.running) then null else e.Head()
  {
    e.model := Start(e.model, hw);
    if e.running {
      return null;
    }
    if |e.transferList| == 0 {
      return null;
    }
    started := e.transferList[0];
    e.shutdownRequest, e.shutdownIdle := false, false;
    e.descDequeued := 0;
    e.status := hw.statusAtStart;
    e.running := true;
  }

  /** Updates the progress of the i-th queued transfer. */
  method Mark(e: XdmaEngine, transfer: XdmaTransfer, ghost i: nat, state: TransferState, descCmpl: nat)
    requires e.Valid() && i < |e.transferList| && transfer == e.transferList[i]
    modifies e`model, transfer
    ensures e.Valid()
    ensures transfer.View() == old(e.model.queue[i]).(state := state, descCmpl := descCmpl)
    ensures e.model == old(e.model).(queue := old(e.model.queue)[i := transfer.View()])
  {
    ghost var k := e.retiredCount + i;
    ghost var ledger := e.model.retired + e.model.queue;
    assert transfer == e.history[k] && ledger[k] == e.model.queue[i];
    transfer.state := state;
    transfer.descCmpl := descCmpl;
    e.model := e.model.(queue := e.model.queue[i := transfer.View()]);
    assert e.model.retired + e.model.queue == ledger[k := transfer.View()];
  }

  /** list_del of the head. */
  method Unlink(e: XdmaEngine)
    requires e.Valid() && |e.transferList| > 0
    modifies e
    ensures e.Valid() && e.history == old(e.history) && e.retiredCount == old(e.retiredCount) + 1
    ensures e.model == old(e.model).(queue := old(e.model.queue)[1..],
                                     retired := old(e.model.retired) + [old(e.model.queue[0])])
  {
    ghost var ledger := e.model.retired + e.model.queue;
    e.transferList := e.transferList[1..];
    e.retiredCount := e.retiredCount + 1;
    e.model := e.model.(queue := e.model.queue[1..], retired := e.model.retired + [e.model.queue[0]]);
    assert e.model.retired + e.model.queue == ledger;
  }

  /** Gives the head its final state, takes it off the queue and announces it (the state update,
      list_del and engine_transfer_completion). */
  method RetireHead(e: XdmaEngine, transfer: XdmaTransfer, state: TransferState, descCmpl: nat)
    requires e.Valid() && transfer == e.Head()
    modifies e, transfer
    ensures e.Valid() && e.history == old(e.history) && e.retiredCount == old(e.retiredCount) + 1
    ensures e.model
         == Retire(old(e.model), old(e.model.queue[0]).(state := state, descCmpl := descCmpl))
  {
    hide Distinct, Show;
    HeadIsModelHead(e);
    ghost var before := e.model;
    Mark(e, transfer, 0, state, descCmpl);
    Unlink(e);
    e.model := Retire(before, transfer.View());
  }

  /** Retires the head and counts its descriptors as dequeued. */
  method CountAndRetire(e: XdmaEngine, transfer: XdmaTransfer, state: TransferState, descCmpl: nat)
    requires e.Valid() && transfer == e.Head()
    modifies e, transfer
    ensures e.Valid() && e.history == old(e.history) && e.retiredCount == old(e.retiredCount) + 1
    ensures var s, x := old(e.model), old(e.model.queue[0]);
      e.model == Retire(s.(descDequeued := s.descDequeued + x.descNum),
                        x.(state := state, descCmpl := descCmpl))
  {
    hide Distinct, Show;
    HeadIsModelHead(e);
    e.descDequeued := e.descDequeued + transfer.descNum;
    e.model := e.model.(descDequeued := e.descDequeued);
    RetireHead(e, transfer, state, descCmpl);
  }

  /** engine_err_handle and the unlinking that follows it. */
  method EngineErrHandle(e: XdmaEngine, transfer: XdmaTransfer)
    requires e.Valid() && transfer == e.Head()
    modifies e, transfer
    ensures e.Valid() && e.history == old(e.history) && e.retiredCount == old(e.retiredCount) + 1
    ensures e.model == Retire(Stop(old(e.model)), old(e.model.queue[0]).(state := Failed))
  {
    hide Distinct, Show;
    HeadIsModelHead(e);
    XdmaEngineStop(e);
    RetireHead(e, transfer, Failed, transfer.descCmpl);
  }

  lemma QueueIsModelQueue(e: XdmaEngine, i: nat)
    requires e.Valid() && i < |e.transferList|
    ensures |e.transferList| == |e.model.queue|
    ensures e.transferList[i].View() == e.model.queue[i]
  {
    assert e.transferList[i] == e.history[e.retiredCount + i];
    assert e.model.queue[i] == (e.model.retired + e.model.queue)[e.retiredCount + i];
  }

  lemma HeadIsModelHead(e: XdmaEngine)
    requires e.Valid()
    ensures |e.transferList| == |e.model.queue|
    ensures e.Head() == null <==> e.model.queue == []
    ensures e.Head() != null ==> e.Head().View() == e.model.queue[0] && e.Head() in e.history[e.retiredCount..]
  {
    if e.transferList != [] { assert e.Head() == e.history[e.retiredCount]; }
  }

  method EngineServiceTransferList(e: XdmaEngine, head: XdmaTransfer?, pdescCompleted: nat)
    returns (transfer: XdmaTransfer?, left: nat)
    requires e.Valid() && head == e.Head()
    modifies e, e.transferList
    ensures e.Valid() && transfer == e.Head() && e.history == old(e.history)
    ensures e.retiredCount >= old(e.retiredCount)
    ensures (e.model, left) == ServiceList(old(e.model), pdescCompleted)
  {
    hide Distinct, Show;
    transfer, left := head, pdescCompleted;
    HeadIsModelHead(e);
    while transfer != null && left > transfer.descNum
      invariant e.Valid() && transfer == e.Head() && e.history == old(e.history)
      invariant e.retiredCount >= old(e.retiredCount)
      invariant transfer == null <==> e.model.queue == []
      invariant transfer != null ==> transfer.View() == e.model.queue[0]
      invariant transfer != null ==> transfer in old(e.transferList)
      invariant ServiceList(e.model, left) == ServiceList(old(e.model), pdescCompleted)
      decreases |e.transferList|
    {
      left := left - transfer.descNum;
      CountAndRetire(e, transfer, Completed, transfer.descCmpl);
      transfer := if |e.transferList| > 0 then e.transferList[0] else null;
      HeadIsModelHead(e);
    }
  }

  /** The transfer the engine stopped on. `warned` is the WARN_ON of a count beyond its end. */
  method EngineServiceFinalTransfer(e: XdmaEngine, transfer: XdmaTransfer?, pdescCompleted: nat)
    returns (warned: bool)
    requires e.Valid() && transfer == e.Head()
    modifies e, e.transferList
    ensures e.Valid() && e.history == old(e.history) && e.retiredCount >= old(e.retiredCount)
    ensures e.model == ServiceFinal(old(e.model), pdescCompleted)
    ensures warned ==> transfer != null && pdescCompleted > old(transfer.descNum)
  {
    hide Distinct, Show, HasError;
    HeadIsModelHead(e);
    warned := false;
    if transfer == null {
      return;
    }
    if HasError(e.dir, e.status) {
      EngineErrHandle(e, transfer);
      return;
    }
    warned := pdescCompleted > transfer.descNum;
    if pdescCompleted < transfer.descNum {
      CountAndRetire(e, transfer, Failed, pdescCompleted);
    } else {
      CountAndRetire(e, transfer, Completed, transfer.descNum);
    }
  }

  method EngineServiceResume(e: XdmaEngine, hw: Hw)
    requires e.Valid()
    modifies e
    ensures e.Valid() && e.history == old(e.history) && e.retiredCount == old(e.retiredCount)
    ensures e.model == Resume(old(e.model), hw)
  {
    hide Distinct, Show;
    HeadIsModelHead(e);
    if !e.running {
      if |e.transferList| > 0 {
        var started := EngineStart(e, hw);
      } else if e.shutdownRequest {
        e.shutdownIdle := true;
        e.model := e.model.(shutdownIdle := true);
      }
    } else if |e.transferList| == 0 {
      XdmaEngineStop(e);
    }
  }

  /** engine_service up to the descriptor count: status read and shutdown. */
  method EngineServiceEntry(e: XdmaEngine, descWriteback: nat, hw: Hw)
    requires e.Valid() && e.running
    modifies e
    ensures e.Valid() && e.history == old(e.history) && e.retiredCount == old(e.retiredCount)
    ensures e.model == ServiceEntry(old(e.model), descWriteback, hw)
    ensures e.descDequeued == old(e.descDequeued)
  {
    hide Distinct, Show, Busy;
    var descCount := WbCount(descWriteback);
    if descCount == 0 || WbError(descWriteback) {
      e.status := hw.statusClear;
      e.model := e.model.(status := hw.statusClear);
    }
    if (e.running && !Busy(e.status)) || descCount != 0 {
      XdmaEngineStop(e);
    }
  }

  /** engine_service: -1 if the writeback carried the error flag. */
  method ServiceEngine(e: XdmaEngine, descWriteback: nat, hw: Hw) returns (rv: int)
    requires e.Valid()
    modifies e, e.transferList
    ensures e.Valid() && e.history == old(e.history) && e.retiredCount >= old(e.retiredCount)
    ensures e.model == Service(old(e.model), descWriteback, hw)
    ensures rv == if old(e.running) && WbError(descWriteback) then -1 else 0
  {
    hide Distinct, Show, Busy, ServiceList, ServiceFinal, Resume, ServiceEntry;
    if !e.running {
      e.status := hw.statusClear;
      e.model := e.model.(status := hw.statusClear);
      return 0;
    }
    rv := if WbError(descWriteback) then -1 else 0;
    EngineServiceEntry(e, descWriteback, hw);
    var descCount := WbCount(descWriteback);
    if descCount == 0 {
      descCount := hw.completedCount;
    }
    if descCount == 0 {
      return;
    }
    var warned := AccountEngine(e, NewlyCompleted(descCount, e.descDequeued));
    EngineServiceResume(e, hw);
  }

  /** The two halves of the accounting. The WARN_ON of the final transfer never fires. */
  method AccountEngine(e: XdmaEngine, descCount: nat) returns (warned: bool)
    requires e.Valid()
    modifies e, e.transferList
    ensures !warned
    ensures e.Valid() && e.history == old(e.history) && e.retiredCount >= old(e.retiredCount)
    ensures e.model == Account(old(e.model), descCount)
  {
    hide Distinct, Show, ServiceList, ServiceFinal;
    var transfer, left := EngineServiceTransferList(e, e.Head(), descCount);
    HeadIsModelHead(e);
    warned := EngineServiceFinalTransfer(e, transfer, left);
  }

  method TransferQueue(e: XdmaEngine, transfer: XdmaTransfer, hw: Hw) returns (rv: int)
    requires e.Valid() && transfer !in e.history
    modifies e, transfer
    ensures e.Valid()
    ensures e.model == Enqueue(old(e.model), old(transfer.View()), hw)
    ensures rv == 0 <==> Accepts(old(e.model), old(transfer.View()))
    ensures rv != 0 ==> rv == if old(transfer.descNum) == 0 then -EINVAL else -EBUSY
    ensures e.history == old(e.history) + if rv == 0 then [transfer] else []
    ensures e.retiredCount == old(e.retiredCount)
  {
    if transfer.descNum == 0 {
      return -EINVAL;
    }
    if e.offline {
      return -EBUSY;
    }
    if e.shutdownRequest {
      return -EBUSY;
    }
    Append(e, transfer);
    hide Distinct, Show;
    HeadIsModelHead(e);
    if !e.running {
      var started := EngineStart(e, hw);
    }
    rv := 0;
  }

  method Append(e: XdmaEngine, transfer: XdmaTransfer)
    requires e.Valid() && transfer !in e.history
    modifies e, transfer
    ensures e.Valid() && e.history == old(e.history) + [transfer] && e.retiredCount == old(e.retiredCount)
    ensures var s, y := old(e.model), old(transfer.View()).(state := Submitted, ticket := |old(e.model).accepted|);
      e.model == s.(queue := s.queue + [y], accepted := s.accepted + [AsSubmitted(y)])
  {
    ghost var ledger := e.model.retired + e.model.queue;
    transfer.state := Submitted;
    transfer.ticket := |e.model.accepted|;
    e.transferList := e.transferList + [transfer];
    e.history := e.history + [transfer];
    e.model := e.model.(queue := e.model.queue + [transfer.View()],
                        accepted := e.model.accepted + [AsSubmitted(transfer.View())]);
    assert e.model.retired + e.model.queue == ledger + [transfer.View()];
  }

  /** engine_status_read. */
  method EngineStatusRead(e: XdmaEngine, status: Status)
    requires e.Valid()
    modifies e
    ensures e.Valid() && e.history == old(e.history) && e.retiredCount == old(e.retiredCount)
    ensures e.model == old(e.model).(status := status)
    ensures e.transferList == old(e.transferList)
  {
    hide Distinct, Show;
    e.status := status;
    e.model := e.model.(status := status);
  }

  method AbortTransfer(e: XdmaEngine, transfer: XdmaTransfer, ghost i: nat)
    requires e.Valid() && i < |e.transferList| && transfer == e.transferList[i]
    modifies e, transfer
    ensures e.Valid() && e.history == old(e.history)
    ensures e.retiredCount >= old(e.retiredCount)
    ensures e.model == TransferAbort(old(e.model), i)
    ensures transfer.state == if old(transfer.state) == Submitted then Aborted else old(transfer.state)
  {
    hide Show;
    HeadIsModelHead(e);
    assert transfer.View() == e.model.queue[i] by { QueueIsModelQueue(e, i); }
    var head := e.transferList[0];
    if transfer.state == Submitted {
      Mark(e, transfer, i, Aborted, transfer.descCmpl);
    }
    assert head == transfer <==> i == 0 by { assert head == e.history[e.retiredCount]; }
    if head == transfer {
      Unlink(e);
    }
  }

  /** What the submit paths do with a transfer that timed out: read the status, transfer_abort,
      xdma_engine_stop. */
  method AbortAndStop(e: XdmaEngine, transfer: XdmaTransfer, status: Status, ghost i: nat)
    requires e.Valid() && i < |e.transferList| && transfer == e.transferList[i]
    modifies e, transfer
    ensures e.Valid() && e.history == old(e.history)
    ensures e.retiredCount >= old(e.retiredCount)
    ensures e.model == AbortAt(old(e.model), i, status)
    ensures transfer.state == if old(transfer.state) == Submitted then Aborted else old(transfer.state)
  {
    hide Distinct, Show, TransferAbort;
    QueueIsModelQueue(e, i);
    EngineStatusRead(e, status);
    AbortTransfer(e, transfer, i);
    XdmaEngineStop(e);
  }

  /** One engine's share of xdma_device_offline. */
  method DeviceOffline(e: XdmaEngine)
    requires e.Valid()
    modifies e
    ensures e.Valid() && e.history == old(e.history)
    ensures e.model == Offline(old(e.model))
  {
    hide Distinct, Show;
    e.offline, e.shutdownRequest := true, true;
    e.model := e.model.(offline := true, shutdownRequest := true);
    XdmaEngineStop(e);
  }

  method DeviceOnline(e: XdmaEngine)
    requires e.Valid()
    modifies e
    ensures e.Valid() && e.history == old(e.history)
    ensures e.model == Online(old(e.model))
  {
    hide Distinct, Show;
    e.offline, e.shutdownRequest := false, false;
    e.model := Online(e.model);
  }
}
