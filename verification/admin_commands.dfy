/**
 * The admin commands of the gve driver: each builds one command record
 * from the driver's state and runs it through `ExecuteCmd`; the batch
 * operations run one such command per queue, in queue order, and stop at
 * the first failure.
 */
module AdminCommands {
  import opened Wire
  import opened Errno
  import opened Commands
  import Opcodes
  import opened Transport
  import opened Descriptor
  import opened Negotiation
  import opened RingArith

  /** `GVE_SET_PARAM_MTU` */
  const SET_PARAM_MTU: U32 := 1
  /** `GVE_NTFY_BLK_BASE_MSIX_IDX` */
  const NTFY_BLK_BASE_MSIX_IDX: U32 := 0

  /**
   * Constants of the platform header gve.h, which is not part of this
   * model: `GVE_MAX_RING_SIZE`, `GVE_DEFAULT_RX_BUFFER_SIZE`, `PAGE_SIZE`
   * and `sizeof(struct gve_irq_db)`.
   */
  datatype Platform = Platform(maxRingSize: U16, defaultRxBufferSize: U16, pageSize: U64, irqDbStride: U32)

  /** The parts of `priv->rx[i]` the create command reads. */
  datatype RxRing = RxRing(ntfyId: U32, queueResourcesAddr: U64, descRingAddr: U64, dataRingAddr: U64, qplId: U32)

  /** The parts of `priv->tx[i]` the create command reads. */
  datatype TxRing = TxRing(ntfyId: U32, queueResourcesAddr: U64, descRingAddr: U64, qplId: U32)

  /** The parts of `priv` that `gve_adminq_configure_device_resources` sends. */
  datatype DeviceResources = DeviceResources(
    counterArrayAddr: U64, numEventCounters: U16, irqDbAddr: U64, numQueues: U32, queueFormat: Byte)

  // ---- the command each operation sends ----

  /**
   * The create command for rx queue `index`: queue id and index both name
   * the queue, the ring sizes are the driver's descriptor count and the
   * default buffer size, and the members the source leaves to its memset
   * are zero.
   */
  function CreateRxCommand(rx: RxRing, index: U32, p: Platform, rxDescCnt: U16): (c: Command)
    ensures OpcodeOf(c) == Opcodes.CreateRxQueue
    ensures c.CreateRxQueue? && c.queueId == index && c.index == index
    ensures c.ntfyId == rx.ntfyId && c.queuePageListId == rx.qplId
    ensures c.rxRingSize == rxDescCnt && c.packetBufferSize == p.defaultRxBufferSize
    ensures c.rxBuffRingSize == 0 && c.enableRsc == 0
  {
    CreateRxQueue(index, index, rx.ntfyId, rx.queueResourcesAddr, rx.descRingAddr, rx.dataRingAddr, rx.qplId,
                  rxDescCnt, p.defaultRxBufferSize, 0, 0)
  }

  /**
   * The create command for tx queue `index`: the queue id is the index,
   * the ring size the driver's descriptor count, and the completion-ring
   * members the source leaves to its memset are zero.
   */
  function CreateTxCommand(tx: TxRing, index: U32, txDescCnt: U16): (c: Command)
    ensures OpcodeOf(c) == Opcodes.CreateTxQueue
    ensures c.CreateTxQueue? && c.queueId == index
    ensures c.ntfyId == tx.ntfyId && c.queuePageListId == tx.qplId && c.txRingSize == txDescCnt
    ensures c.txCompRingAddr == 0 && c.txCompRingSize == 0
  {
    CreateTxQueue(index, tx.queueResourcesAddr, tx.descRingAddr, tx.qplId, tx.ntfyId, 0, txDescCnt, 0)
  }

  /**
   * The configure command: one interrupt doorbell per queue, of the
   * platform's doorbell size, with notification blocks from MSI-X vector
   * `GVE_NTFY_BLK_BASE_MSIX_IDX` on.
   */
  function ConfigureCommand(res: DeviceResources, p: Platform): (c: Command)
    ensures OpcodeOf(c) == Opcodes.ConfigureDeviceResources
    ensures c.ConfigureDeviceResources? && c.numIrqDbs == res.numQueues && c.irqDbStride == p.irqDbStride
    ensures c.numCounters == res.numEventCounters && c.ntfyBlkMsixBaseIdx == NTFY_BLK_BASE_MSIX_IDX
    ensures c.queueFormat == res.queueFormat
  {
    ConfigureDeviceResources(res.counterArrayAddr, res.irqDbAddr, res.numEventCounters, res.numQueues,
                             p.irqDbStride, NTFY_BLK_BASE_MSIX_IDX, res.queueFormat)
  }

  // ---- the records the batch operations send ----

  /** The create commands of `gve_adminq_create_rx_queues` for the first `n` queues, in queue order. */
  function RxCommands(rxs: seq<RxRing>, n: nat, p: Platform, rxDescCnt: U16): (cs: seq<Command>)
    requires n <= |rxs| && n <= TWO_32
    ensures |cs| == n
    decreases n
  {
    if n == 0 then [] else RxCommands(rxs, n - 1, p, rxDescCnt) + [CreateRxCommand(rxs[n - 1], n - 1, p, rxDescCnt)]
  }

  /** The create commands of `gve_adminq_create_tx_queues` for the first `n` queues, in queue order. */
  function TxCommands(txs: seq<TxRing>, n: nat, txDescCnt: U16): (cs: seq<Command>)
    requires n <= |txs| && n <= TWO_32
    ensures |cs| == n
    decreases n
  {
    if n == 0 then [] else TxCommands(txs, n - 1, txDescCnt) + [CreateTxCommand(txs[n - 1], n - 1, txDescCnt)]
  }

  /** The destroy commands of `gve_adminq_destroy_rx_queues` for queues `0 .. n-1`. */
  function DestroyRxCommands(n: nat): (cs: seq<Command>)
    requires n <= TWO_32
    ensures |cs| == n
  {
    if n == 0 then [] else DestroyRxCommands(n - 1) + [DestroyRxQueue(n - 1)]
  }

  /** The destroy commands of `gve_adminq_destroy_tx_queues` for queues `0 .. n-1`. */
  function DestroyTxCommands(n: nat): (cs: seq<Command>)
    requires n <= TWO_32
    ensures |cs| == n
  {
    if n == 0 then [] else DestroyTxCommands(n - 1) + [DestroyTxQueue(n - 1)]
  }

  /** `f` applied to every element of `xs`, in order. */
  function MapSeq<A, B>(f: A -> B, xs: seq<A>): (ys: seq<B>)
    ensures |ys| == |xs| && forall i :: 0 <= i < |xs| ==> ys[i] == f(xs[i])
  {
    seq(|xs|, i requires 0 <= i < |xs| => f(xs[i]))
  }

  lemma MapSeqSnoc<A, B>(f: A -> B, h: seq<B>, xs: seq<A>, x: A)
    ensures h + MapSeq(f, xs + [x]) == (h + MapSeq(f, xs)) + [f(x)]
  {
    assert MapSeq(f, xs + [x]) == MapSeq(f, xs) + [f(x)];
  }

  /** The records of a sequence of commands, in order. */
  function Records(cs: seq<Command>): (rs: seq<seq<Byte>>)
    ensures |rs| == |cs|
  {
    MapSeq(Encode, cs)
  }

  /** Every record the batch sends decodes to the command it was built from. */
  lemma RecordsDecode(cs: seq<Command>)
    ensures forall i :: 0 <= i < |cs| ==> Decode(Records(cs)[i]) == Some(cs[i])
  {
    forall i | 0 <= i < |cs| ensures Decode(Records(cs)[i]) == Some(cs[i]) {
      DecodeEncode(cs[i]);
    }
  }

  /** The batch of rx creates addresses queue `i` with its `i`-th command, for every `i`. */
  lemma {:induction false} RxCommandsInOrder(rxs: seq<RxRing>, n: nat, p: Platform, rxDescCnt: U16)
    requires n <= |rxs| && n <= TWO_32
    ensures forall i :: 0 <= i < n ==> RxCommands(rxs, n, p, rxDescCnt)[i] == CreateRxCommand(rxs[i], i, p, rxDescCnt)
    decreases n
  {
    if n > 0 {
      RxCommandsInOrder(rxs, n - 1, p, rxDescCnt);
    }
  }

  /** The batch of tx creates addresses queue `i` with its `i`-th command, for every `i`. */
  lemma {:induction false} TxCommandsInOrder(txs: seq<TxRing>, n: nat, txDescCnt: U16)
    requires n <= |txs| && n <= TWO_32
    ensures forall i :: 0 <= i < n ==> TxCommands(txs, n, txDescCnt)[i] == CreateTxCommand(txs[i], i, txDescCnt)
    decreases n
  {
    if n > 0 {
      TxCommandsInOrder(txs, n - 1, txDescCnt);
    }
  }

  /** The destroy batches address queue `i` with their `i`-th command, for every `i`. */
  lemma {:induction false} DestroyCommandsInOrder(n: nat)
    requires n <= TWO_32
    ensures forall i :: 0 <= i < n ==> DestroyRxCommands(n)[i] == DestroyRxQueue(i)
    ensures forall i :: 0 <= i < n ==> DestroyTxCommands(n)[i] == DestroyTxQueue(i)
    decreases n
  {
    if n > 0 {
      DestroyCommandsInOrder(n - 1);
    }
  }

  /** Record `i` of a successful rx create batch decodes to the create command of queue `i`. */
  lemma RxRecordsDecode(rxs: seq<RxRing>, n: nat, p: Platform, rxDescCnt: U16)
    requires n <= |rxs| && n <= TWO_32
    ensures forall i :: 0 <= i < n ==>
              Decode(Records(RxCommands(rxs, n, p, rxDescCnt))[i]) == Some(CreateRxCommand(rxs[i], i, p, rxDescCnt))
  {
    RxCommandsInOrder(rxs, n, p, rxDescCnt);
    RecordsDecode(RxCommands(rxs, n, p, rxDescCnt));
  }

  /** Record `i` of a successful tx create batch decodes to the create command of queue `i`. */
  lemma TxRecordsDecode(txs: seq<TxRing>, n: nat, txDescCnt: U16)
    requires n <= |txs| && n <= TWO_32
    ensures forall i :: 0 <= i < n ==>
              Decode(Records(TxCommands(txs, n, txDescCnt))[i]) == Some(CreateTxCommand(txs[i], i, txDescCnt))
  {
    TxCommandsInOrder(txs, n, txDescCnt);
    RecordsDecode(TxCommands(txs, n, txDescCnt));
  }

  /** Record `i` of a successful destroy batch decodes to the destroy command of queue `i`. */
  lemma DestroyRecordsDecode(n: nat)
    requires n <= TWO_32
    ensures forall i :: 0 <= i < n ==> Decode(Records(DestroyRxCommands(n))[i]) == Some(DestroyRxQueue(i))
    ensures forall i :: 0 <= i < n ==> Decode(Records(DestroyTxCommands(n))[i]) == Some(DestroyTxQueue(i))
  {
    DestroyCommandsInOrder(n);
    RecordsDecode(DestroyRxCommands(n));
    RecordsDecode(DestroyTxCommands(n));
  }

  // ---- single commands ----

  /** `gve_adminq_create_rx_queue`: queue id and index are both the queue's index. */
  method AdminqCreateRxQueue(aq: AdminQueue, rx: RxRing, index: U32, p: Platform, rxDescCnt: U16) returns (rc: Rc)
    requires aq.Valid()
    modifies aq, aq.dev, aq.ring
    ensures aq.Valid() && Executed(aq, Encode(CreateRxCommand(rx, index, p, rxDescCnt)), rc)
  {
    rc := aq.ExecuteCmd(Encode(CreateRxCommand(rx, index, p, rxDescCnt)));
  }

  /** `gve_adminq_create_tx_queue` */
  method AdminqCreateTxQueue(aq: AdminQueue, tx: TxRing, index: U32, txDescCnt: U16) returns (rc: Rc)
    requires aq.Valid()
    modifies aq, aq.dev, aq.ring
    ensures aq.Valid() && Executed(aq, Encode(CreateTxCommand(tx, index, txDescCnt)), rc)
  {
    rc := aq.ExecuteCmd(Encode(CreateTxCommand(tx, index, txDescCnt)));
  }

  /** `gve_adminq_destroy_tx_queue` */
  method AdminqDestroyTxQueue(aq: AdminQueue, id: U32) returns (rc: Rc)
    requires aq.Valid()
    modifies aq, aq.dev, aq.ring
    ensures aq.Valid() && Executed(aq, Encode(DestroyTxQueue(id)), rc)
  {
    rc := aq.ExecuteCmd(Encode(DestroyTxQueue(id)));
  }

  /** `gve_adminq_destroy_rx_queue` */
  method AdminqDestroyRxQueue(aq: AdminQueue, id: U32) returns (rc: Rc)
    requires aq.Valid()
    modifies aq, aq.dev, aq.ring
    ensures aq.Valid() && Executed(aq, Encode(DestroyRxQueue(id)), rc)
  {
    rc := aq.ExecuteCmd(Encode(DestroyRxQueue(id)));
  }

  /** `gve_adminq_set_mtu`: a set-driver-parameter command of type MTU. */
  method AdminqSetMtu(aq: AdminQueue, mtu: U32) returns (rc: Rc)
    requires aq.Valid()
    modifies aq, aq.dev, aq.ring
    ensures aq.Valid() && Executed(aq, Encode(SetDriverParameter(SET_PARAM_MTU, mtu)), rc)
  {
    rc := aq.ExecuteCmd(Encode(SetDriverParameter(SET_PARAM_MTU, mtu)));
  }

  /** `gve_adminq_unregister_page_list` */
  method AdminqUnregisterPageList(aq: AdminQueue, pageListId: U32) returns (rc: Rc)
    requires aq.Valid()
    modifies aq, aq.dev, aq.ring
    ensures aq.Valid() && Executed(aq, Encode(UnregisterPageList(pageListId)), rc)
  {
    rc := aq.ExecuteCmd(Encode(UnregisterPageList(pageListId)));
  }

  /** `gve_adminq_configure_device_resources` */
  method AdminqConfigureDeviceResources(aq: AdminQueue, res: DeviceResources, p: Platform) returns (rc: Rc)
    requires aq.Valid()
    modifies aq, aq.dev, aq.ring
    ensures aq.Valid() && Executed(aq, Encode(ConfigureCommand(res, p)), rc)
  {
    rc := aq.ExecuteCmd(Encode(ConfigureCommand(res, p)));
  }

  /** `gve_adminq_deconfigure_device_resources` */
  method AdminqDeconfigureDeviceResources(aq: AdminQueue) returns (rc: Rc)
    requires aq.Valid()
    modifies aq, aq.dev, aq.ring
    ensures aq.Valid() && Executed(aq, Encode(DeconfigureDeviceResources), rc)
  {
    rc := aq.ExecuteCmd(Encode(DeconfigureDeviceResources));
  }

  /** `gve_adminq_verify_driver_compatibility` */
  method AdminqVerifyDriverCompatibility(aq: AdminQueue, driverInfoLen: U64, driverInfoAddr: U64) returns (rc: Rc)
    requires aq.Valid()
    modifies aq, aq.dev, aq.ring
    ensures aq.Valid() && Executed(aq, Encode(VerifyDriverCompatibility(driverInfoLen, driverInfoAddr)), rc)
  {
    rc := aq.ExecuteCmd(Encode(VerifyDriverCompatibility(driverInfoLen, driverInfoAddr)));
  }

  // ---- one turn of each batch loop ----

  /**
   * The part of the admin queue a batch's contract speaks about: the
   * event-counter reads made so far, the producer count, the doorbell
   * register, `adminq_cmd_fail`, `adminq_timeouts` and the records sent.
   */
  datatype QueueState = QueueState(counterReads: nat, prod: U32, doorbell: U32, fail: U32, timeouts: U32, history: seq<seq<Byte>>)

  ghost function StateOf(aq: AdminQueue): QueueState
    reads aq, aq.dev
  {
    QueueState(aq.dev.counterReads, aq.prodCnt, aq.dev.doorbell, aq.cmdFail, aq.timeouts, aq.history)
  }

  /**
   * The counters and registers one command with outcome `out` moved from
   * `before` to `after`, as `Transport.Executed` says: the reads grew by
   * the command's, cmd_fail by its failure count and the timeouts as
   * `Charged` says; the producer count advanced exactly when the command
   * was issued, which it was when it succeeded and only when the ring was
   * idle; a busy ring left the doorbell alone, and otherwise it holds the
   * new producer count.
   */
  predicate Moved(out: CommandOutcome, before: QueueState, after: QueueState)
  {
    && (out.rc == Ok ==> out.issued) && (out.issued ==> out.idle)
    && after.counterReads == before.counterReads + out.readCount
    && after.fail == (if out.failures == 1 then Inc32(before.fail) else before.fail)
    && Charged(before.fail, before.timeouts, after.fail, after.timeouts, out.rc)
    && after.prod == (if out.issued then Inc32(before.prod) else before.prod)
    && after.doorbell == (if out.idle then after.prod else before.doorbell)
  }

  /** `Moved`, and the command's record `record` was appended to the history exactly when it was issued. */
  predicate Turned(out: CommandOutcome, record: seq<Byte>, before: QueueState, after: QueueState)
  {
    && Moved(out, before, after)
    && after.history == (if out.issued then before.history + [record] else before.history)
  }

  /**
   * The counters and registers of a batch that started in state `s0`, each
   * command run by `exec`, once its first `k` commands have all succeeded:
   * their reads were made, the producer count advanced once per command,
   * the doorbell holds it (or is untouched when there were none) and the
   * counters are unchanged.
   */
  predicate Counted(exec: (nat, U32) -> CommandOutcome, s0: QueueState, k: nat, s: QueueState)
  {
    && BatchResult(exec, s0.counterReads, s0.prod, k) == Ok
    && s.counterReads == s0.counterReads + BatchReads(exec, s0.counterReads, s0.prod, k)
    && s.prod == Advance(s0.prod, k)
    && s.doorbell == (if k == 0 then s0.doorbell else s.prod)
    && s.fail == s0.fail && s.timeouts == s0.timeouts
  }

  /**
   * `Counted` for the commands `cmds`, whose records, as `encode` builds
   * them (`Encode` in the batches), follow the earlier history in order.
   */
  predicate SoFar(exec: (nat, U32) -> CommandOutcome, encode: Command -> seq<Byte>, s0: QueueState, cmds: seq<Command>, s: QueueState)
  {
    && Counted(exec, s0, |cmds|, s)
    && s.history == s0.history + MapSeq(encode, cmds)
  }

  /**
   * The counters and registers of a batch that started in state `s0`, each
   * command run by `exec`, when its first `k` commands succeeded and the
   * next one started at read number `start` and failed with `rc`: `rc` is
   * that command's result; the reads and cmd_fail grew by its own and the
   * timeouts as `Charged` says; the producer count moved past it exactly
   * when it was issued; and the doorbell holds the producer count, unless
   * the ring was busy, when it is where the successful commands left it.
   */
  predicate Stopped(exec: (nat, U32) -> CommandOutcome, s0: QueueState, k: nat, start: nat, rc: Rc, s: QueueState)
  {
    var out := exec(start, Advance(s0.prod, k));
    && BatchResult(exec, s0.counterReads, s0.prod, k) == Ok
    && start == s0.counterReads + BatchReads(exec, s0.counterReads, s0.prod, k)
    && rc == out.rc && rc != Ok
    && s.counterReads == start + out.readCount
    && s.fail == (if out.failures == 1 then Inc32(s0.fail) else s0.fail)
    && Charged(s0.fail, s0.timeouts, s.fail, s.timeouts, rc)
    && s.prod == Advance(s0.prod, if out.issued then k + 1 else k)
    && s.doorbell == (if !out.idle then (if k == 0 then s0.doorbell else Advance(s0.prod, k)) else s.prod)
  }

  /**
   * `Stopped` after the commands `cmds`, the failing one being `c`: the
   * records of `cmds`, as `encode` builds them, follow the earlier
   * history, and then `c`'s own record exactly when it was issued.
   */
  predicate FailedAt(exec: (nat, U32) -> CommandOutcome, encode: Command -> seq<Byte>, s0: QueueState, cmds: seq<Command>, c: Command, start: nat, rc: Rc, s: QueueState)
  {
    var issued := exec(start, Advance(s0.prod, |cmds|)).issued;
    && Stopped(exec, s0, |cmds|, start, rc, s)
    && (issued ==> s.history == s0.history + MapSeq(encode, cmds + [c]))
    && (!issued ==> s.history == s0.history + MapSeq(encode, cmds))
  }

  /**
   * The counters and registers over one turn of a batch loop: after `k`
   * successes the next command either makes `next`, that is `k + 1`, or
   * stops the batch as `Stopped` says, and its result is the batch's
   * result so far.
   */
  lemma CountedTurn(exec: (nat, U32) -> CommandOutcome, s0: QueueState, k: nat, next: nat,
                    before: QueueState, out: CommandOutcome, after: QueueState)
    requires k < TWO_32 && next == k + 1 && Counted(exec, s0, k, before)
    requires out == exec(before.counterReads, before.prod) && Moved(out, before, after)
    ensures out.rc == BatchResult(exec, s0.counterReads, s0.prod, next)
    ensures out.rc == Ok ==> Counted(exec, s0, next, after)
    ensures out.rc != Ok ==> Stopped(exec, s0, k, before.counterReads, out.rc, after)
  {
    AdvanceStep(s0.prod, k);
    CommandStep(exec, s0.counterReads, s0.prod, k, out);
  }

  /** The history over one turn of a batch loop: the turn's record follows the earlier ones exactly when it was issued. */
  lemma HistoryTurn(encode: Command -> seq<Byte>, h0: seq<seq<Byte>>, cmds: seq<Command>, c: Command, issued: bool, before: seq<seq<Byte>>, after: seq<seq<Byte>>)
    requires before == h0 + MapSeq(encode, cmds)
    requires after == (if issued then before + [encode(c)] else before)
    ensures issued ==> after == h0 + MapSeq(encode, cmds + [c])
    ensures !issued ==> after == h0 + MapSeq(encode, cmds)
  {
    MapSeqSnoc(encode, h0, cmds, c);
  }

  /**
   * One turn of a batch loop: after a run of successes `cmds`, the next
   * command `c` either extends the run or ends the batch as `FailedAt`
   * says, and its result is the batch's result so far.
   */
  lemma BatchTurn(exec: (nat, U32) -> CommandOutcome, encode: Command -> seq<Byte>, s0: QueueState, cmds: seq<Command>, c: Command,
                  before: QueueState, out: CommandOutcome, after: QueueState)
    requires |cmds| < TWO_32 && SoFar(exec, encode, s0, cmds, before)
    requires out == exec(before.counterReads, before.prod) && Turned(out, encode(c), before, after)
    ensures out.rc == BatchResult(exec, s0.counterReads, s0.prod, |cmds| + 1)
    ensures out.rc == Ok ==> SoFar(exec, encode, s0, cmds + [c], after)
    ensures out.rc != Ok ==> FailedAt(exec, encode, s0, cmds, c, before.counterReads, out.rc, after)
  {
    CountedTurn(exec, s0, |cmds|, |cmds + [c]|, before, out, after);
    HistoryTurn(encode, s0.history, cmds, c, exec(before.counterReads, Advance(s0.prod, |cmds|)).issued, before.history, after.history);
  }

  /** Queue `i` of `gve_adminq_create_rx_queues`: `SoFar` before it, and after it `SoFar` with its command added when it succeeds, `FailedAt` when it fails. */
  method CreateRxStep(aq: AdminQueue, rxs: seq<RxRing>, i: nat, p: Platform, rxDescCnt: U16, ghost s0: QueueState) returns (rc: Rc)
    requires aq.Valid() && i < |rxs| && i < TWO_32
    requires SoFar(ExecuteOutcome(aq.dev.eventCounter, aq.dev.completion, aq.dev.maxChecks, aq.slots), Encode, s0, RxCommands(rxs, i, p, rxDescCnt), StateOf(aq))
    modifies aq, aq.dev, aq.ring
    ensures aq.Valid()
    ensures aq.Setup() == old(aq.Setup()) && aq.dev.adminqAddr == old(aq.dev.adminqAddr)
    ensures rc == BatchResult(ExecuteOutcome(aq.dev.eventCounter, aq.dev.completion, aq.dev.maxChecks, aq.slots), s0.counterReads, s0.prod, i + 1)
    ensures rc == Ok ==> SoFar(ExecuteOutcome(aq.dev.eventCounter, aq.dev.completion, aq.dev.maxChecks, aq.slots), Encode, s0, RxCommands(rxs, i + 1, p, rxDescCnt), StateOf(aq))
    ensures rc != Ok ==> FailedAt(ExecuteOutcome(aq.dev.eventCounter, aq.dev.completion, aq.dev.maxChecks, aq.slots), Encode, s0, RxCommands(rxs, i, p, rxDescCnt), CreateRxCommand(rxs[i], i, p, rxDescCnt), old(aq.dev.counterReads), rc, StateOf(aq))
    ensures Executed(aq, Encode(CreateRxCommand(rxs[i], i, p, rxDescCnt)), rc)
  {
    assert RxCommands(rxs, i + 1, p, rxDescCnt) == RxCommands(rxs, i, p, rxDescCnt) + [CreateRxCommand(rxs[i], i, p, rxDescCnt)];
    ghost var before := StateOf(aq);
    rc := AdminqCreateRxQueue(aq, rxs[i], i, p, rxDescCnt);
    ExecuteOutcomeAt(aq.dev.eventCounter, aq.dev.completion, aq.dev.maxChecks, aq.slots, before.counterReads, before.prod);
    BatchTurn(ExecuteOutcome(aq.dev.eventCounter, aq.dev.completion, aq.dev.maxChecks, aq.slots), Encode, s0, RxCommands(rxs, i, p, rxDescCnt), CreateRxCommand(rxs[i], i, p, rxDescCnt), before, ExecuteOutcome(aq.dev.eventCounter, aq.dev.completion, aq.dev.maxChecks, aq.slots)(before.counterReads, before.prod), StateOf(aq));
  }

  /** Queue `i` of `gve_adminq_create_tx_queues`. */
  method CreateTxStep(aq: AdminQueue, txs: seq<TxRing>, i: nat, txDescCnt: U16, ghost s0: QueueState) returns (rc: Rc)
    requires aq.Valid() && i < |txs| && i < TWO_32
    requires SoFar(ExecuteOutcome(aq.dev.eventCounter, aq.dev.completion, aq.dev.maxChecks, aq.slots), Encode, s0, TxCommands(txs, i, txDescCnt), StateOf(aq))
    modifies aq, aq.dev, aq.ring
    ensures aq.Valid()
    ensures aq.Setup() == old(aq.Setup()) && aq.dev.adminqAddr == old(aq.dev.adminqAddr)
    ensures rc == BatchResult(ExecuteOutcome(aq.dev.eventCounter, aq.dev.completion, aq.dev.maxChecks, aq.slots), s0.counterReads, s0.prod, i + 1)
    ensures rc == Ok ==> SoFar(ExecuteOutcome(aq.dev.eventCounter, aq.dev.completion, aq.dev.maxChecks, aq.slots), Encode, s0, TxCommands(txs, i + 1, txDescCnt), StateOf(aq))
    ensures rc != Ok ==> FailedAt(ExecuteOutcome(aq.dev.eventCounter, aq.dev.completion, aq.dev.maxChecks, aq.slots), Encode, s0, TxCommands(txs, i, txDescCnt), CreateTxCommand(txs[i], i, txDescCnt), old(aq.dev.counterReads), rc, StateOf(aq))
    ensures Executed(aq, Encode(CreateTxCommand(txs[i], i, txDescCnt)), rc)
  {
    assert TxCommands(txs, i + 1, txDescCnt) == TxCommands(txs, i, txDescCnt) + [CreateTxCommand(txs[i], i, txDescCnt)];
    ghost var before := StateOf(aq);
    rc := AdminqCreateTxQueue(aq, txs[i], i, txDescCnt);
    ExecuteOutcomeAt(aq.dev.eventCounter, aq.dev.completion, aq.dev.maxChecks, aq.slots, before.counterReads, before.prod);
    BatchTurn(ExecuteOutcome(aq.dev.eventCounter, aq.dev.completion, aq.dev.maxChecks, aq.slots), Encode, s0, TxCommands(txs, i, txDescCnt), CreateTxCommand(txs[i], i, txDescCnt), before, ExecuteOutcome(aq.dev.eventCounter, aq.dev.completion, aq.dev.maxChecks, aq.slots)(before.counterReads, before.prod), StateOf(aq));
  }

  /** Queue `i` of `gve_adminq_destroy_rx_queues`. */
  method DestroyRxStep(aq: AdminQueue, i: nat, ghost s0: QueueState) returns (rc: Rc)
    requires aq.Valid() && i < TWO_32
    requires SoFar(ExecuteOutcome(aq.dev.eventCounter, aq.dev.completion, aq.dev.maxChecks, aq.slots), Encode, s0, DestroyRxCommands(i), StateOf(aq))
    modifies aq, aq.dev, aq.ring
    ensures aq.Valid()
    ensures aq.Setup() == old(aq.Setup()) && aq.dev.adminqAddr == old(aq.dev.adminqAddr)
    ensures rc == BatchResult(ExecuteOutcome(aq.dev.eventCounter, aq.dev.completion, aq.dev.maxChecks, aq.slots), s0.counterReads, s0.prod, i + 1)
    ensures rc == Ok ==> SoFar(ExecuteOutcome(aq.dev.eventCounter, aq.dev.completion, aq.dev.maxChecks, aq.slots), Encode, s0, DestroyRxCommands(i + 1), StateOf(aq))
    ensures rc != Ok ==> FailedAt(ExecuteOutcome(aq.dev.eventCounter, aq.dev.completion, aq.dev.maxChecks, aq.slots), Encode, s0, DestroyRxCommands(i), DestroyRxQueue(i), old(aq.dev.counterReads), rc, StateOf(aq))
    ensures Executed(aq, Encode(DestroyRxQueue(i)), rc)
  {
    assert DestroyRxCommands(i + 1) == DestroyRxCommands(i) + [DestroyRxQueue(i)];
    ghost var before := StateOf(aq);
    rc := AdminqDestroyRxQueue(aq, i);
    ExecuteOutcomeAt(aq.dev.eventCounter, aq.dev.completion, aq.dev.maxChecks, aq.slots, before.counterReads, before.prod);
    BatchTurn(ExecuteOutcome(aq.dev.eventCounter, aq.dev.completion, aq.dev.maxChecks, aq.slots), Encode, s0, DestroyRxCommands(i), DestroyRxQueue(i), before, ExecuteOutcome(aq.dev.eventCounter, aq.dev.completion, aq.dev.maxChecks, aq.slots)(before.counterReads, before.prod), StateOf(aq));
  }

  /** Queue `i` of `gve_adminq_destroy_tx_queues`. */
  method DestroyTxStep(aq: AdminQueue, i: nat, ghost s0: QueueState) returns (rc: Rc)
    requires aq.Valid() && i < TWO_32
    requires SoFar(ExecuteOutcome(aq.dev.eventCounter, aq.dev.completion, aq.dev.maxChecks, aq.slots), Encode, s0, DestroyTxCommands(i), StateOf(aq))
    modifies aq, aq.dev, aq.ring
    ensures aq.Valid()
    ensures aq.Setup() == old(aq.Setup()) && aq.dev.adminqAddr == old(aq.dev.adminqAddr)
    ensures rc == BatchResult(ExecuteOutcome(aq.dev.eventCounter, aq.dev.completion, aq.dev.maxChecks, aq.slots), s0.counterReads, s0.prod, i + 1)
    ensures rc == Ok ==> SoFar(ExecuteOutcome(aq.dev.eventCounter, aq.dev.completion, aq.dev.maxChecks, aq.slots), Encode, s0, DestroyTxCommands(i + 1), StateOf(aq))
    ensures rc != Ok ==> FailedAt(ExecuteOutcome(aq.dev.eventCounter, aq.dev.completion, aq.dev.maxChecks, aq.slots), Encode, s0, DestroyTxCommands(i), DestroyTxQueue(i), old(aq.dev.counterReads), rc, StateOf(aq))
    ensures Executed(aq, Encode(DestroyTxQueue(i)), rc)
  {
    assert DestroyTxCommands(i + 1) == DestroyTxCommands(i) + [DestroyTxQueue(i)];
    ghost var before := StateOf(aq);
    rc := AdminqDestroyTxQueue(aq, i);
    ExecuteOutcomeAt(aq.dev.eventCounter, aq.dev.completion, aq.dev.maxChecks, aq.slots, before.counterReads, before.prod);
    BatchTurn(ExecuteOutcome(aq.dev.eventCounter, aq.dev.completion, aq.dev.maxChecks, aq.slots), Encode, s0, DestroyTxCommands(i), DestroyTxQueue(i), before, ExecuteOutcome(aq.dev.eventCounter, aq.dev.completion, aq.dev.maxChecks, aq.slots)(before.counterReads, before.prod), StateOf(aq));
  }

  // ---- what a batch does on the device ----

  /**
   * What one command of a batch did: its return value, the event-counter
   * reads it made, how much it charged `adminq_cmd_fail`, whether it was
   * issued, and whether the ring was idle when it started.
   */
  datatype CommandOutcome = CommandOutcome(rc: Rc, readCount: nat, failures: nat, issued: bool, idle: bool)

  /**
   * `gve_adminq_execute_cmd` as a function of the read number it starts at
   * and the producer count; the outcome does not depend on the record.
   */
  function ExecuteOutcome(eventCounter: nat -> U32, completion: U32 -> U32, polls: nat, slots: nat): (nat, U32) -> CommandOutcome
  {
    (reads0: nat, prod: U32) =>
      CommandOutcome(ExecuteResult(eventCounter, completion, polls, reads0, prod, slots),
                     ExecuteReads(eventCounter, completion, polls, reads0, prod, slots),
                     ExecuteFailures(eventCounter, completion, polls, reads0, prod, slots),
                     Issues(eventCounter, completion, polls, reads0, prod, slots),
                     Idle(eventCounter, reads0, prod))
  }

  /** What `ExecuteOutcome` gives for one start. */
  lemma ExecuteOutcomeAt(eventCounter: nat -> U32, completion: U32 -> U32, polls: nat, slots: nat, reads0: nat, prod: U32)
    ensures ExecuteOutcome(eventCounter, completion, polls, slots)(reads0, prod) ==
              CommandOutcome(ExecuteResult(eventCounter, completion, polls, reads0, prod, slots),
                             ExecuteReads(eventCounter, completion, polls, reads0, prod, slots),
                             ExecuteFailures(eventCounter, completion, polls, reads0, prod, slots),
                             Issues(eventCounter, completion, polls, reads0, prod, slots),
                             Idle(eventCounter, reads0, prod))
  {
  }

  /**
   * The event-counter reads a batch of `k` commands makes when it starts at
   * read number `reads0` with producer count `prod` and each command is run
   * by `exec`: the batch stops at its first failure, so a command after a
   * failed one makes none.
   */
  function BatchReads(exec: (nat, U32) -> CommandOutcome, reads0: nat, prod: U32, k: nat): nat
    decreases k, 0
  {
    if k == 0 then 0
    else if BatchResult(exec, reads0, prod, k - 1) != Ok then BatchReads(exec, reads0, prod, k - 1)
    else BatchReads(exec, reads0, prod, k - 1) + ReadsAt(exec, reads0, prod, k - 1)
  }

  /** The return value of a batch of `k` commands run by `exec`: that of the first one to fail, Ok when none does. */
  function BatchResult(exec: (nat, U32) -> CommandOutcome, reads0: nat, prod: U32, k: nat): Rc
    decreases k, 0
  {
    if k == 0 then Ok
    else
      var r := BatchResult(exec, reads0, prod, k - 1);
      if r != Ok then r else ResultAt(exec, reads0, prod, k - 1)
  }

  /**
   * Command `j` of a batch, run once the commands before it have run: it
   * starts where they stopped, with the producer count advanced `j` times.
   */
  function CommandAt(exec: (nat, U32) -> CommandOutcome, reads0: nat, prod: U32, j: nat): CommandOutcome
    decreases j, 1
  {
    exec(reads0 + BatchReads(exec, reads0, prod, j), Advance(prod, j))
  }

  /** The return value of command `j` of a batch. */
  function ResultAt(exec: (nat, U32) -> CommandOutcome, reads0: nat, prod: U32, j: nat): Rc
    decreases j, 2
  {
    CommandAt(exec, reads0, prod, j).rc
  }

  /** The event-counter reads command `j` of a batch makes. */
  function ReadsAt(exec: (nat, U32) -> CommandOutcome, reads0: nat, prod: U32, j: nat): nat
    decreases j, 2
  {
    CommandAt(exec, reads0, prod, j).readCount
  }

  /** A batch succeeds exactly when each of its commands succeeds where the one before it left the device. */
  lemma {:induction false} BatchOkIffEachOk(exec: (nat, U32) -> CommandOutcome, reads0: nat, prod: U32, k: nat)
    ensures BatchResult(exec, reads0, prod, k) == Ok <==> forall j :: 0 <= j < k ==> ResultAt(exec, reads0, prod, j) == Ok
    decreases k
  {
    if k > 0 {
      BatchOkIffEachOk(exec, reads0, prod, k - 1);
      if BatchResult(exec, reads0, prod, k - 1) != Ok {
        var j :| 0 <= j < k - 1 && ResultAt(exec, reads0, prod, j) != Ok;
        assert BatchResult(exec, reads0, prod, k) != Ok && 0 <= j < k;
      } else if ResultAt(exec, reads0, prod, k - 1) != Ok {
        assert BatchResult(exec, reads0, prod, k) != Ok;
        assert exists j :: 0 <= j < k && ResultAt(exec, reads0, prod, j) != Ok by {
          assert 0 <= k - 1 < k && ResultAt(exec, reads0, prod, k - 1) != Ok;
        }
      } else {
        assert BatchResult(exec, reads0, prod, k) == Ok;
        forall j | 0 <= j < k
          ensures ResultAt(exec, reads0, prod, j) == Ok
        {
          if j < k - 1 {
            assert 0 <= j < k - 1;
          }
        }
      }
    }
  }

  /**
   * A failed batch returns the result of one of its commands, the first
   * to fail: every command before it succeeded.
   */
  lemma {:induction false} BatchFailureIsFirstFailure(exec: (nat, U32) -> CommandOutcome, reads0: nat, prod: U32, k: nat)
    requires BatchResult(exec, reads0, prod, k) != Ok
    ensures exists j :: 0 <= j < k && BatchResult(exec, reads0, prod, j) == Ok &&
                        ResultAt(exec, reads0, prod, j) == BatchResult(exec, reads0, prod, k)
    decreases k
  {
    if BatchResult(exec, reads0, prod, k - 1) != Ok {
      BatchFailureIsFirstFailure(exec, reads0, prod, k - 1);
    } else {
      assert ResultAt(exec, reads0, prod, k - 1) == BatchResult(exec, reads0, prod, k);
    }
  }

  /**
   * One more command after a successful prefix: it starts where the prefix
   * left the device, the batch's reads grow by its reads, and its result is
   * the batch's.
   */
  lemma BatchExtends(exec: (nat, U32) -> CommandOutcome, reads0: nat, prod: U32, k: nat)
    requires BatchResult(exec, reads0, prod, k) == Ok
    ensures CommandAt(exec, reads0, prod, k) == exec(reads0 + BatchReads(exec, reads0, prod, k), Advance(prod, k))
    ensures BatchReads(exec, reads0, prod, k + 1) == BatchReads(exec, reads0, prod, k) + CommandAt(exec, reads0, prod, k).readCount
    ensures BatchResult(exec, reads0, prod, k + 1) == CommandAt(exec, reads0, prod, k).rc
  {
    assert ReadsAt(exec, reads0, prod, k) == CommandAt(exec, reads0, prod, k).readCount;
    assert ResultAt(exec, reads0, prod, k) == CommandAt(exec, reads0, prod, k).rc;
  }

  /**
   * Command `i` of a batch, run where the successful commands before it
   * left the device, moves the batch on by one: its reads are the batch's
   * next ones, and its result is the batch's.
   */
  lemma CommandStep(exec: (nat, U32) -> CommandOutcome, reads0: nat, prod: U32, i: nat, out: CommandOutcome)
    requires BatchResult(exec, reads0, prod, i) == Ok
    requires exec(reads0 + BatchReads(exec, reads0, prod, i), Advance(prod, i)) == out
    ensures BatchReads(exec, reads0, prod, i + 1) == BatchReads(exec, reads0, prod, i) + out.readCount
    ensures BatchResult(exec, reads0, prod, i + 1) == out.rc
  {
    BatchExtends(exec, reads0, prod, i);
  }

  /** Once a command of a batch has failed, no later command changes the batch's result. */
  lemma {:induction false} BatchStopsAtFailure(exec: (nat, U32) -> CommandOutcome, reads0: nat, prod: U32, k: nat, m: nat)
    requires k <= m && BatchResult(exec, reads0, prod, k) != Ok
    ensures BatchResult(exec, reads0, prod, m) == BatchResult(exec, reads0, prod, k)
    decreases m
  {
    if k < m {
      BatchStopsAtFailure(exec, reads0, prod, k, m - 1);
    }
  }

  /** A batch started while commands are outstanding fails with EINVAL at its first command, which is not issued. */
  lemma BusyRingFailsBatch(eventCounter: nat -> U32, completion: U32 -> U32, polls: nat, reads0: nat, prod: U32, slots: nat, n: nat)
    requires 0 < n && !Idle(eventCounter, reads0, prod)
    ensures BatchResult(ExecuteOutcome(eventCounter, completion, polls, slots), reads0, prod, n) == EINVAL
    ensures !Issues(eventCounter, completion, polls, reads0, prod, slots)
  {
    var exec := ExecuteOutcome(eventCounter, completion, polls, slots);
    assert Advance(prod, 0) == prod && BatchReads(exec, reads0, prod, 0) == 0;
    ExecuteOutcomeAt(eventCounter, completion, polls, slots, reads0, prod);
    CommandStep(exec, reads0, prod, 0, exec(reads0, prod));
    BatchStopsAtFailure(exec, reads0, prod, 1, n);
  }

  // ---- batches ----

  /**
   * `gve_adminq_create_rx_queues`: create queues `0 .. n-1` in order. On
   * success every create record was sent, in queue order; on failure the
   * records of the queues before the failing one were sent, followed by
   * at most the failing queue's own record, and no later queue was tried.
   */
  method AdminqCreateRxQueues(aq: AdminQueue, rxs: seq<RxRing>, n: nat, p: Platform, rxDescCnt: U16) returns (rc: Rc, ghost failed: nat, ghost failReads: nat)
    requires aq.Valid() && n <= |rxs| && n <= TWO_32
    modifies aq, aq.dev, aq.ring
    ensures aq.Valid()
    ensures aq.Setup() == old(aq.Setup()) && aq.dev.adminqAddr == old(aq.dev.adminqAddr)
    ensures Charged(old(aq.cmdFail), old(aq.timeouts), aq.cmdFail, aq.timeouts, rc)
    ensures rc == BatchResult(ExecuteOutcome(aq.dev.eventCounter, aq.dev.completion, aq.dev.maxChecks, aq.slots), old(aq.dev.counterReads), old(aq.prodCnt), n)
    ensures rc == Ok ==> aq.prodCnt == Advance(old(aq.prodCnt), n)
    ensures rc == Ok ==> aq.dev.counterReads == old(aq.dev.counterReads) + BatchReads(ExecuteOutcome(aq.dev.eventCounter, aq.dev.completion, aq.dev.maxChecks, aq.slots), old(aq.dev.counterReads), old(aq.prodCnt), n)
    ensures rc == Ok && 0 < n ==> aq.dev.doorbell == Advance(old(aq.prodCnt), n)
    ensures rc == Ok ==> aq.history == old(aq.history) + Records(RxCommands(rxs, n, p, rxDescCnt))
    ensures rc != Ok ==> failed < n && FailedAt(ExecuteOutcome(aq.dev.eventCounter, aq.dev.completion, aq.dev.maxChecks, aq.slots), Encode, old(StateOf(aq)), RxCommands(rxs, failed, p, rxDescCnt), CreateRxCommand(rxs[failed], failed, p, rxDescCnt), failReads, rc, StateOf(aq))
  {
    failed, failReads := 0, 0;
    ghost var exec := ExecuteOutcome(aq.dev.eventCounter, aq.dev.completion, aq.dev.maxChecks, aq.slots);
    ghost var s0 := StateOf(aq);
    var i := 0;
    while i < n
      invariant 0 <= i <= n && aq.Valid()
      invariant SoFar(exec, Encode, s0, RxCommands(rxs, i, p, rxDescCnt), StateOf(aq))
      invariant aq.dev.adminqAddr == old(aq.dev.adminqAddr) && aq.Setup() == old(aq.Setup())
    {
      ghost var readsBefore := aq.dev.counterReads;
      rc := CreateRxStep(aq, rxs, i, p, rxDescCnt, s0);
      if rc != Ok {
        failed, failReads := i, readsBefore;
        BatchStopsAtFailure(exec, s0.counterReads, s0.prod, i + 1, n);
        return;
      }
      i := i + 1;
    }
    assert i == n;
    return Ok, 0, 0;
  }

  /** `gve_adminq_create_tx_queues`: the tx counterpart of `AdminqCreateRxQueues`. */
  method AdminqCreateTxQueues(aq: AdminQueue, txs: seq<TxRing>, n: nat, txDescCnt: U16) returns (rc: Rc, ghost failed: nat, ghost failReads: nat)
    requires aq.Valid() && n <= |txs| && n <= TWO_32
    modifies aq, aq.dev, aq.ring
    ensures aq.Valid()
    ensures aq.Setup() == old(aq.Setup()) && aq.dev.adminqAddr == old(aq.dev.adminqAddr)
    ensures Charged(old(aq.cmdFail), old(aq.timeouts), aq.cmdFail, aq.timeouts, rc)
    ensures rc == BatchResult(ExecuteOutcome(aq.dev.eventCounter, aq.dev.completion, aq.dev.maxChecks, aq.slots), old(aq.dev.counterReads), old(aq.prodCnt), n)
    ensures rc == Ok ==> aq.prodCnt == Advance(old(aq.prodCnt), n)
    ensures rc == Ok ==> aq.dev.counterReads == old(aq.dev.counterReads) + BatchReads(ExecuteOutcome(aq.dev.eventCounter, aq.dev.completion, aq.dev.maxChecks, aq.slots), old(aq.dev.counterReads), old(aq.prodCnt), n)
    ensures rc == Ok && 0 < n ==> aq.dev.doorbell == Advance(old(aq.prodCnt), n)
    ensures rc == Ok ==> aq.history == old(aq.history) + Records(TxCommands(txs, n, txDescCnt))
    ensures rc != Ok ==> failed < n && FailedAt(ExecuteOutcome(aq.dev.eventCounter, aq.dev.completion, aq.dev.maxChecks, aq.slots), Encode, old(StateOf(aq)), TxCommands(txs, failed, txDescCnt), CreateTxCommand(txs[failed], failed, txDescCnt), failReads, rc, StateOf(aq))
  {
    failed, failReads := 0, 0;
    ghost var exec := ExecuteOutcome(aq.dev.eventCounter, aq.dev.completion, aq.dev.maxChecks, aq.slots);
    ghost var s0 := StateOf(aq);
    var i := 0;
    while i < n
      invariant 0 <= i <= n && aq.Valid()
      invariant SoFar(exec, Encode, s0, TxCommands(txs, i, txDescCnt), StateOf(aq))
      invariant aq.dev.adminqAddr == old(aq.dev.adminqAddr) && aq.Setup() == old(aq.Setup())
    {
      ghost var readsBefore := aq.dev.counterReads;
      rc := CreateTxStep(aq, txs, i, txDescCnt, s0);
      if rc != Ok {
        failed, failReads := i, readsBefore;
        BatchStopsAtFailure(exec, s0.counterReads, s0.prod, i + 1, n);
        return;
      }
      i := i + 1;
    }
    assert i == n;
    return Ok, 0, 0;
  }

  /** `gve_adminq_destroy_rx_queues`: destroy rx queues `0 .. n-1` in order, stopping at the first failure. */
  method AdminqDestroyRxQueues(aq: AdminQueue, n: nat) returns (rc: Rc, ghost failed: nat, ghost failReads: nat)
    requires aq.Valid() && n <= TWO_32
    modifies aq, aq.dev, aq.ring
    ensures aq.Valid()
    ensures aq.Setup() == old(aq.Setup()) && aq.dev.adminqAddr == old(aq.dev.adminqAddr)
    ensures Charged(old(aq.cmdFail), old(aq.timeouts), aq.cmdFail, aq.timeouts, rc)
    ensures rc == BatchResult(ExecuteOutcome(aq.dev.eventCounter, aq.dev.completion, aq.dev.maxChecks, aq.slots), old(aq.dev.counterReads), old(aq.prodCnt), n)
    ensures rc == Ok ==> aq.prodCnt == Advance(old(aq.prodCnt), n)
    ensures rc == Ok ==> aq.dev.counterReads == old(aq.dev.counterReads) + BatchReads(ExecuteOutcome(aq.dev.eventCounter, aq.dev.completion, aq.dev.maxChecks, aq.slots), old(aq.dev.counterReads), old(aq.prodCnt), n)
    ensures rc == Ok && 0 < n ==> aq.dev.doorbell == Advance(old(aq.prodCnt), n)
    ensures rc == Ok ==> aq.history == old(aq.history) + Records(DestroyRxCommands(n))
    ensures rc != Ok ==> failed < n && FailedAt(ExecuteOutcome(aq.dev.eventCounter, aq.dev.completion, aq.dev.maxChecks, aq.slots), Encode, old(StateOf(aq)), DestroyRxCommands(failed), DestroyRxQueue(failed), failReads, rc, StateOf(aq))
  {
    failed, failReads := 0, 0;
    ghost var exec := ExecuteOutcome(aq.dev.eventCounter, aq.dev.completion, aq.dev.maxChecks, aq.slots);
    ghost var s0 := StateOf(aq);
    var i := 0;
    while i < n
      invariant 0 <= i <= n && aq.Valid()
      invariant SoFar(exec, Encode, s0, DestroyRxCommands(i), StateOf(aq))
      invariant aq.dev.adminqAddr == old(aq.dev.adminqAddr) && aq.Setup() == old(aq.Setup())
    {
      ghost var readsBefore := aq.dev.counterReads;
      rc := DestroyRxStep(aq, i, s0);
      if rc != Ok {
        failed, failReads := i, readsBefore;
        BatchStopsAtFailure(exec, s0.counterReads, s0.prod, i + 1, n);
        return;
      }
      i := i + 1;
    }
    assert i == n;
    return Ok, 0, 0;
  }

  /** `gve_adminq_destroy_tx_queues`: destroy tx queues `0 .. n-1` in order, stopping at the first failure. */
  method AdminqDestroyTxQueues(aq: AdminQueue, n: nat) returns (rc: Rc, ghost failed: nat, ghost failReads: nat)
    requires aq.Valid() && n <= TWO_32
    modifies aq, aq.dev, aq.ring
    ensures aq.Valid()
    ensures aq.Setup() == old(aq.Setup()) && aq.dev.adminqAddr == old(aq.dev.adminqAddr)
    ensures Charged(old(aq.cmdFail), old(aq.timeouts), aq.cmdFail, aq.timeouts, rc)
    ensures rc == BatchResult(ExecuteOutcome(aq.dev.eventCounter, aq.dev.completion, aq.dev.maxChecks, aq.slots), old(aq.dev.counterReads), old(aq.prodCnt), n)
    ensures rc == Ok ==> aq.prodCnt == Advance(old(aq.prodCnt), n)
    ensures rc == Ok ==> aq.dev.counterReads == old(aq.dev.counterReads) + BatchReads(ExecuteOutcome(aq.dev.eventCounter, aq.dev.completion, aq.dev.maxChecks, aq.slots), old(aq.dev.counterReads), old(aq.prodCnt), n)
    ensures rc == Ok && 0 < n ==> aq.dev.doorbell == Advance(old(aq.prodCnt), n)
    ensures rc == Ok ==> aq.history == old(aq.history) + Records(DestroyTxCommands(n))
    ensures rc != Ok ==> failed < n && FailedAt(ExecuteOutcome(aq.dev.eventCounter, aq.dev.completion, aq.dev.maxChecks, aq.slots), Encode, old(StateOf(aq)), DestroyTxCommands(failed), DestroyTxQueue(failed), failReads, rc, StateOf(aq))
  {
    failed, failReads := 0, 0;
    ghost var exec := ExecuteOutcome(aq.dev.eventCounter, aq.dev.completion, aq.dev.maxChecks, aq.slots);
    ghost var s0 := StateOf(aq);
    var i := 0;
    while i < n
      invariant 0 <= i <= n && aq.Valid()
      invariant SoFar(exec, Encode, s0, DestroyTxCommands(i), StateOf(aq))
      invariant aq.dev.adminqAddr == old(aq.dev.adminqAddr) && aq.Setup() == old(aq.Setup())
    {
      ghost var readsBefore := aq.dev.counterReads;
      rc := DestroyTxStep(aq, i, s0);
      if rc != Ok {
        failed, failReads := i, readsBefore;
        BatchStopsAtFailure(exec, s0.counterReads, s0.prod, i + 1, n);
        return;
      }
      i := i + 1;
    }
    assert i == n;
    return Ok, 0, 0;
  }

  // ---- page lists and the device description ----

  /**
   * The page-address list `gve_adminq_register_page_list` fills in a
   * zeroed DMA buffer: entry `i` holds the big-endian bus address of page
   * `i`, so the device reads back exactly the driver's addresses.
   */
  method StagePageList(busAddrs: seq<U64>) returns (pageList: array<seq<Byte>>)
    ensures fresh(pageList) && pageList.Length == |busAddrs|
    ensures pageList[..] == MapSeq(Be64, busAddrs)
    ensures forall i :: 0 <= i < |busAddrs| ==> |pageList[i]| == 8 && ReadBe64(pageList[i], 0) == busAddrs[i]
  {
    pageList := new seq<Byte>[|busAddrs|](_ => Zeros(8));
    for i := 0 to |busAddrs|
      invariant pageList[..i] == MapSeq(Be64, busAddrs[..i])
    {
      pageList[i] := Be64(busAddrs[i]);
      assert busAddrs[..i + 1] == busAddrs[..i] + [busAddrs[i]];
      MapSeqSnoc(Be64, [], busAddrs[..i], busAddrs[i]);
    }
    assert busAddrs[..|busAddrs|] == busAddrs;
  }

  /**
   * `gve_adminq_register_page_list`. `dmaRc` is the result of allocating
   * the list buffer, `listAddr` its bus address. A failed allocation is
   * reported as ENOMEM whatever its cause and sends nothing; otherwise the
   * staged list holds every page address and one register command naming
   * the list, its length and the page size is executed.
   */
  method AdminqRegisterPageList(aq: AdminQueue, qplId: U32, busAddrs: seq<U64>, dmaRc: Rc, listAddr: U64, p: Platform)
    returns (rc: Rc, ghost staged: seq<seq<Byte>>)
    requires aq.Valid() && |busAddrs| * 8 < TWO_32
    modifies aq, aq.dev, aq.ring
    ensures aq.Valid()
    ensures dmaRc != Ok ==> rc == ENOMEM && unchanged(aq) && unchanged(aq.dev) && unchanged(aq.ring)
    ensures dmaRc == Ok ==>
              && staged == MapSeq(Be64, busAddrs)
              && Executed(aq, Encode(RegisterPageList(qplId, |busAddrs|, listAddr, p.pageSize)), rc)
  {
    if dmaRc != Ok {
      return ENOMEM, [];
    }
    var pageList := StagePageList(busAddrs);
    staged := pageList[..];
    rc := aq.ExecuteCmd(Encode(RegisterPageList(qplId, |busAddrs|, listAddr, p.pageSize)));
  }

  /**
   * `gve_adminq_describe_device`. `allocRc` is the result of allocating
   * the `ADMINQ_SIZE` descriptor buffer at `descAddr`, and `buf` the
   * descriptor the device writes there while it runs the command. A failed
   * allocation is returned and sends nothing; a failed command is returned
   * with the capabilities untouched; after a successful one the result and
   * the new capabilities are those of `Negotiate` on the descriptor.
   */
  method AdminqDescribeDevice(aq: AdminQueue, allocRc: Rc, descAddr: U64, buf: seq<Byte>, caps: Capabilities, p: Platform)
    returns (rc: Rc, newCaps: Capabilities, ghost execRc: Rc)
    requires aq.Valid() && |buf| == aq.adminqSize && DESCRIPTOR_SIZE <= |buf|
    modifies aq, aq.dev, aq.ring
    ensures aq.Valid()
    ensures allocRc != Ok ==> rc == allocRc && newCaps == caps && unchanged(aq) && unchanged(aq.dev) && unchanged(aq.ring)
    ensures allocRc == Ok ==> Executed(aq, Encode(DescribeDevice(descAddr, DEVICE_DESCRIPTOR_VERSION, aq.adminqSize)), execRc)
    ensures allocRc == Ok && execRc != Ok ==> rc == execRc && newCaps == caps
    ensures allocRc == Ok && execRc == Ok ==> Negotiated(rc, newCaps) == Negotiate(caps, buf, p.maxRingSize)
  {
    if allocRc != Ok {
      return allocRc, caps, allocRc;
    }
    var e := aq.ExecuteCmd(Encode(DescribeDevice(descAddr, DEVICE_DESCRIPTOR_VERSION, aq.adminqSize)));
    execRc := e;
    if e != Ok {
      return e, caps, e;
    }
    var n := Negotiate(caps, buf, p.maxRingSize);
    rc, newCaps := n.rc, n.caps;
  }
}
