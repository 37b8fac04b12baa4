/** The structures of libxdma.h that the driver updates in place. */
module Xdma {
  import opened EngineSpec

  /** `struct xdma_transfer`. */
  class XdmaTransfer {
    var descNum: nat
    var descCmpl: nat
    var state: TransferState
    var hasCallback: bool
    var lastInRequest: bool
    ghost var ticket: nat

    constructor (descNum: nat, hasCallback: bool, lastInRequest: bool)
      ensures this.descNum == descNum && this.hasCallback == hasCallback
      ensures this.lastInRequest == lastInRequest && state == New && descCmpl == 0
    {
      this.descNum, this.hasCallback, this.lastInRequest := descNum, hasCallback, lastInRequest;
      state, descCmpl := New, 0;
    }

    ghost function View(): Xfer
      reads this
    {
      Xfer(ticket, descNum, state, descCmpl, hasCallback, lastInRequest)
    }
  }

  ghost predicate Distinct(ts: seq<XdmaTransfer>) {
    forall i, j :: 0 <= i < j < |ts| ==> ts[i] != ts[j]
  }

  /** The transfers look like xs, entry by entry. */
  ghost predicate Show(ts: seq<XdmaTransfer>, xs: seq<Xfer>)
    reads ts
  {
    |ts| == |xs| && forall i :: 0 <= i < |ts| ==> ts[i].View() == xs[i]
  }

  /** `struct xdma_engine`: the transfer queue and the run state. The offline flag is the device's. */
  class XdmaEngine {
    const dir: Direction
    var transferList: seq<XdmaTransfer>
    var running: bool
    var descDequeued: nat
    var status: Status
    var shutdownRequest: bool
    var shutdownIdle: bool
    var offline: bool

    /** Every transfer ever accepted, oldest first; the first `retiredCount` have left the queue. */
    ghost var history: seq<XdmaTransfer>
    ghost var retiredCount: nat
    /** The state of this engine as a value. */
    ghost var model: EngineState

    constructor (dir: Direction)
      ensures Valid() && history == []
      ensures model == EngineState(dir, [], false, 0, {}, false, false, false, [], [], [], [])
    {
      this.dir := dir;
      transferList, running, descDequeued, status := [], false, 0, {};
      shutdownRequest, shutdownIdle, offline := false, false, false;
      history, retiredCount := [], 0;
      model := EngineState(dir, [], false, 0, {}, false, false, false, [], [], [], []);
    }

    ghost predicate FieldsAgree()
      reads this
    {
      && model.dir == dir && model.running == running && model.descDequeued == descDequeued
      && model.status == status && model.shutdownRequest == shutdownRequest
      && model.shutdownIdle == shutdownIdle && model.offline == offline
    }

    /** A transfer is queued at most once, and `model` describes the engine. */
    ghost predicate Valid()
      reads this, history
    {
      && FieldsAgree()
      && retiredCount <= |history|
      && transferList == history[retiredCount..]
      && Distinct(history)
      && |model.retired| == retiredCount
      && Show(history, model.retired + model.queue)
    }

    function Head(): XdmaTransfer?
      reads this
    {
      if transferList == [] then null else transferList[0]
    }
  }
}
