/** The engine queue of libxdma.c as a state machine over values: what each lock-held section
    does to the engine, with the registers it reads handed in as an `Hw` value. */
module EngineSpec {
  import opened Words

  /** A status word, as the set of the positions of its one bits; masking is intersection. */
  type Status = set<nat>

  datatype TransferState = New | Submitted | Completed | Failed | Aborted

  datatype Direction = ToDevice | FromDevice

  /** The part of `struct xdma_transfer` the queue looks at. `ticket` is a history value: the
      position of the transfer among all accepted submissions. */
  datatype Xfer = Xfer(
    ticket: nat, descNum: nat, state: TransferState, descCmpl: nat,
    hasCallback: bool, lastInRequest: bool)

  /** `accepted`, `retired`, `wakeups` and `callbacks` are histories: the transfers as submitted,
      the transfers as they left the queue, the completions announced on a transfer's wait queue
      and the `io_done` calls. */
  datatype EngineState = EngineState(
    dir: Direction,
    queue: seq<Xfer>,
    running: bool,
    descDequeued: nat,
    status: Status,
    shutdownRequest: bool,
    shutdownIdle: bool,
    offline: bool,
    accepted: seq<Xfer>,
    retired: seq<Xfer>,
    wakeups: seq<nat>,
    callbacks: seq<nat>)

  /** What the driver reads from the hardware in one section: the status register read with
      clear, the completed-descriptor count, and the status read back when the engine starts. */
  datatype Hw = Hw(statusClear: Status, completedCount: nat, statusAtStart: Status)

  /** Bit positions of the status register. */
  const STAT_BUSY: Status := {0}
  /** Alignment mismatch, magic stopped, invalid length. */
  const STAT_COMMON_ERR: Status := {3, 4, 5}
  const STAT_DESC_ERR: Status := {19, 20, 21, 22, 23}
  const STAT_H2C_ERR: Status := STAT_COMMON_ERR + STAT_DESC_ERR + {9, 10, 11, 12, 13} + {14, 15}
  const STAT_C2H_ERR: Status := STAT_COMMON_ERR + STAT_DESC_ERR + {9, 10}

  predicate Busy(status: Status) { status * STAT_BUSY != {} }

  predicate HasError(dir: Direction, status: Status) {
    match dir
    case FromDevice => status * STAT_C2H_ERR != {}
    case ToDevice => status * STAT_H2C_ERR != {}
  }

  // ----- engine_start, xdma_engine_stop -----

  function Stop(s: EngineState): EngineState { s.(running := false) }

  function Start(s: EngineState, hw: Hw): EngineState {
    if s.running || s.queue == [] then s
    else s.(shutdownRequest := false, shutdownIdle := false, descDequeued := 0,
            running := true, status := hw.statusAtStart)
  }

  // ----- engine_service_transfer_list, engine_service_final_transfer -----

  /** The head leaves the queue with its final state `x` and its completion is announced. */
  function Retire(s: EngineState, x: Xfer): EngineState
    requires s.queue != []
  {
    s.(queue := s.queue[1..],
       retired := s.retired + [x],
       wakeups := s.wakeups + [x.ticket],
       callbacks := s.callbacks + if x.hasCallback && x.lastInRequest then [x.ticket] else [])
  }

  function PopCompleted(s: EngineState): EngineState
    requires s.queue != []
  {
    var x := s.queue[0];
    Retire(s.(descDequeued := s.descDequeued + x.descNum), x.(state := Completed))
  }

  /** All transfers but the one the engine stopped on; the second result is what is left of the
      completed count. */
  function ServiceList(s: EngineState, count: nat): (r: (EngineState, nat))
    ensures r.0.queue != [] ==> r.1 <= r.0.queue[0].descNum
    decreases |s.queue|
  {
    if s.queue == [] || count <= s.queue[0].descNum then (s, count)
    else ServiceList(PopCompleted(s), count - s.queue[0].descNum)
  }

  function ServiceFinal(s: EngineState, count: nat): EngineState {
    if s.queue == [] then s
    else
      var x := s.queue[0];
      if HasError(s.dir, s.status) then
        Retire(Stop(s), x.(state := Failed))
      else if count < x.descNum then
        Retire(s.(descDequeued := s.descDequeued + x.descNum), x.(state := Failed, descCmpl := count))
      else
        Retire(s.(descDequeued := s.descDequeued + x.descNum), x.(state := Completed, descCmpl := x.descNum))
  }

  function Account(s: EngineState, count: nat): EngineState {
    var (listed, left) := ServiceList(s, count);
    ServiceFinal(listed, left)
  }

  // ----- engine_service_resume, engine_service -----

  function Resume(s: EngineState, hw: Hw): EngineState {
    if !s.running then
      if s.queue != [] then Start(s, hw)
      else if s.shutdownRequest then s.(shutdownIdle := true)
      else s
    else if s.queue == [] then Stop(s)
    else s
  }

  function WbCount(wb: nat): nat { wb % 0x100_0000 }
  predicate WbError(wb: nat) { wb / 0x8000_0000 % 2 == 1 }

  function DescCount(wb: nat, hw: Hw): nat {
    if WbCount(wb) == 0 then hw.completedCount else WbCount(wb)
  }

  /** Status read and shutdown: everything engine_service does before it looks at the count. */
  function ServiceEntry(s: EngineState, wb: nat, hw: Hw): EngineState {
    var s1 := if WbCount(wb) == 0 || WbError(wb) then s.(status := hw.statusClear) else s;
    if !Busy(s1.status) || WbCount(wb) != 0 then Stop(s1) else s1
  }

  /** The u32 subtraction of the descriptors already accounted for in this run. */
  function NewlyCompleted(count: nat, dequeued: nat): nat { (count - dequeued) % U32 }

  function Service(s: EngineState, wb: nat, hw: Hw): EngineState {
    if !s.running then s.(status := hw.statusClear)
    else
      var s1 := ServiceEntry(s, wb, hw);
      var count := DescCount(wb, hw);
      if count == 0 then s1
      else Resume(Account(s1, NewlyCompleted(count, s.descDequeued)), hw)
  }

  // ----- transfer_queue, transfer_abort, offline and online -----

  /** A transfer with its progress erased: what was handed to transfer_queue. */
  function AsSubmitted(x: Xfer): Xfer { x.(state := Submitted, descCmpl := 0) }

  predicate Accepts(s: EngineState, x: Xfer) { x.descNum != 0 && !s.offline && !s.shutdownRequest }

  function Enqueue(s: EngineState, x: Xfer, hw: Hw): EngineState {
    if !Accepts(s, x) then s
    else
      var y := x.(state := Submitted, ticket := |s.accepted|);
      Start(s.(queue := s.queue + [y], accepted := s.accepted + [AsSubmitted(y)]), hw)
  }

  /** transfer_abort of the transfer at position i of the queue. */
  function TransferAbort(s: EngineState, i: nat): EngineState
    requires i < |s.queue|
  {
    var x := s.queue[i];
    var y := if x.state == Submitted then x.(state := Aborted) else x;
    if i == 0 then s.(queue := s.queue[1..], retired := s.retired + [y])
    else s.(queue := s.queue[i := y])
  }

  /** What the submit paths do after a timeout: the status is read again, the transfer aborted and
      the engine stopped. */
  function AbortAt(s: EngineState, i: nat, status: Status): EngineState
    requires i < |s.queue|
  {
    Stop(TransferAbort(s.(status := status), i))
  }

  function Offline(s: EngineState): EngineState {
    Stop(s.(offline := true, shutdownRequest := true))
  }

  function Online(s: EngineState): EngineState {
    s.(offline := false, shutdownRequest := false)
  }
}
