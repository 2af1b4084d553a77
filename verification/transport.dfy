/**
 * The admin queue transport: the ring of 64-byte command slots the driver
 * fills (`gve_adminq_issue_cmd`), the doorbell and event-counter registers
 * it uses to hand commands to the device and wait for them
 * (`gve_adminq_kick_cmd`, `gve_adminq_wait_for_cmd`,
 * `gve_adminq_kick_and_wait`), the one-command entry point
 * (`gve_adminq_execute_cmd`), the status translation with its failure
 * counter (`gve_adminq_parse_err`) and the set-up of the ring
 * (`gve_adminq_alloc`).
 *
 * The device is an environment: the values the event-counter register
 * returns, read after read, are the function `eventCounter` of the read
 * number, and the status the device leaves in the slot of the command with
 * counter value `i` is `completion(i)`.
 */
module Transport {
  import opened Wire
  import opened Errno
  import Opcodes
  import opened Commands
  import opened StatusTranslation
  import opened RingArith
  import opened CompletionScan

  /** `GVE_MAX_ADMINQ_EVENT_COUNTER_CHECK` */
  const MAX_EVENT_COUNTER_CHECKS: nat := 10

  // ---- the device side ----

  /** The value the `j`-th event-counter read after read number `start` returns. */
  function CounterAt(eventCounter: nat -> U32, start: nat, j: nat): U32
  {
    eventCounter(start + j)
  }

  /** The first of `polls` event-counter reads, starting at read number `start`, that returns `prod`. */
  function FirstMatch(eventCounter: nat -> U32, start: nat, prod: U32, polls: nat): (r: Option<nat>)
    ensures r.Some? ==> r.value < polls && CounterAt(eventCounter, start, r.value) == prod
    decreases polls
  {
    if polls == 0 then None
    else match FirstMatch(eventCounter, start, prod, polls - 1)
      case Some(j) => Some(j)
      case None => if CounterAt(eventCounter, start, polls - 1) == prod then Some(polls - 1) else None
  }

  /**
   * `FirstMatch` finds the earliest matching read: every read before it
   * misses, and it finds none exactly when all `polls` reads miss.
   */
  lemma {:induction false} FirstMatchSpec(eventCounter: nat -> U32, start: nat, prod: U32, polls: nat)
    ensures var r := FirstMatch(eventCounter, start, prod, polls);
            r.Some? ==> forall j :: 0 <= j < r.value ==> CounterAt(eventCounter, start, j) != prod
    ensures FirstMatch(eventCounter, start, prod, polls).None? <==>
              forall j :: 0 <= j < polls ==> CounterAt(eventCounter, start, j) != prod
    decreases polls
  {
    if polls > 0 {
      FirstMatchSpec(eventCounter, start, prod, polls - 1);
    }
  }

  /** Polling longer does not change a match already found. */
  lemma {:induction false} FirstMatchExtends(eventCounter: nat -> U32, start: nat, prod: U32, n: nat, m: nat)
    requires n <= m && FirstMatch(eventCounter, start, prod, n).Some?
    ensures FirstMatch(eventCounter, start, prod, m) == FirstMatch(eventCounter, start, prod, n)
    decreases m
  {
    if n < m {
      FirstMatchExtends(eventCounter, start, prod, n, m - 1);
    }
  }

  /** What a flush reports: its return value, the event-counter reads it makes and the failures it counts. */
  datatype FlushOutcome = FlushOutcome(rc: Rc, readCount: nat, failures: nat)

  /**
   * A flush (`gve_adminq_kick_and_wait`) started at read number `reads0`
   * with producer count `head`: the event counter is read once for the
   * tail and then polled up to `polls` times; a timeout is
   * ENOTRECOVERABLE, otherwise the commands outstanding against the tail
   * are scanned.
   */
  function Flush(eventCounter: nat -> U32, completion: U32 -> U32, polls: nat, reads0: nat, head: U32): (f: FlushOutcome)
    ensures f.rc == ENOTRECOVERABLE <==> FirstMatch(eventCounter, reads0 + 1, head, polls).None?
    ensures 1 <= f.readCount <= 1 + polls
    ensures f.failures <= 1
    ensures f.failures == 1 ==> f.rc != Ok && f.rc != ENOTRECOVERABLE
  {
    var tail := eventCounter(reads0);
    match FirstMatch(eventCounter, reads0 + 1, head, polls)
    case None => FlushOutcome(ENOTRECOVERABLE, 1 + polls, 0)
    case Some(j) =>
      FlushOutcome(ScanFrom(completion, tail, Sub32(head, tail)), 1 + j + 1, FailuresFrom(completion, tail, Sub32(head, tail)))
  }

  /**
   * A flush succeeds exactly when the event counter reaches the producer
   * count within `polls` reads and every command outstanding against the
   * tail read first has status PASSED.
   */
  lemma FlushOkIffAllPassed(eventCounter: nat -> U32, completion: U32 -> U32, polls: nat, reads0: nat, head: U32)
    ensures Flush(eventCounter, completion, polls, reads0, head).rc == Ok <==>
              && (var start := reads0 + 1; exists j :: 0 <= j < polls && CounterAt(eventCounter, start, j) == head)
              && forall k :: 0 <= k < Sub32(head, eventCounter(reads0)) ==>
                   completion(Advance(eventCounter(reads0), k)) == Opcodes.STATUS_PASSED
  {
    FirstMatchSpec(eventCounter, reads0 + 1, head, polls);
    if FirstMatch(eventCounter, reads0 + 1, head, polls).Some? {
      FlushScansOutstanding(eventCounter, completion, polls, reads0, head);
    }
  }

  /**
   * Once the device has caught up, the flush reports the first failure
   * among all the commands outstanding against the tail, oldest first, and
   * counts it as the first-failure scan does, across a 2^32 wrap as well.
   */
  lemma FlushScansOutstanding(eventCounter: nat -> U32, completion: U32 -> U32, polls: nat, reads0: nat, head: U32)
    requires FirstMatch(eventCounter, reads0 + 1, head, polls).Some?
    ensures var f := Flush(eventCounter, completion, polls, reads0, head);
            var statuses := StatusesOf(Outstanding(eventCounter(reads0), head), completion);
            f.rc == ScanResult(statuses) && f.failures == FailuresCounted(statuses)
  {
    var tail := eventCounter(reads0);
    OutstandingIsWindow(tail, head);
    ScanFromAgrees(completion, tail, Sub32(head, tail));
    FailuresFromAgrees(completion, tail, Sub32(head, tail));
  }

  /**
   * Without a wrap between the tail read and the producer count, the flush
   * reports what the source's loop over the counter values from the tail
   * up to the producer count reports.
   */
  lemma FlushAgreesWithoutWrap(eventCounter: nat -> U32, completion: U32 -> U32, polls: nat, reads0: nat, head: U32)
    requires FirstMatch(eventCounter, reads0 + 1, head, polls).Some?
    requires eventCounter(reads0) <= head
    ensures var f := Flush(eventCounter, completion, polls, reads0, head);
            var statuses := StatusesOf(OutstandingAsWritten(eventCounter(reads0), head), completion);
            f.rc == ScanResult(statuses) && f.failures == FailuresCounted(statuses)
  {
    FlushScansOutstanding(eventCounter, completion, polls, reads0, head);
    AsWrittenAgreesWithoutWrap(eventCounter(reads0), head);
  }

  /**
   * How one call moves the two error counters from `fail0` and
   * `timeouts0`: `adminq_timeouts` grows by one exactly when the call
   * returns ENOTRECOVERABLE, and `adminq_cmd_fail` grows by at most one,
   * and only on a failure reported by the device.
   */
  predicate Charged(fail0: U32, timeouts0: U32, fail: U32, timeouts: U32, rc: Rc)
  {
    && timeouts == (if rc == ENOTRECOVERABLE then Inc32(timeouts0) else timeouts0)
    && (fail == fail0 || (fail == Inc32(fail0) && rc != Ok && rc != ENOTRECOVERABLE))
  }

  /** The BAR registers the admin queue uses. */
  class Device {
    const eventCounter: nat -> U32
    const completion: U32 -> U32
    /** How many times `gve_adminq_wait_for_cmd` polls: `GVE_MAX_ADMINQ_EVENT_COUNTER_CHECK`. */
    const maxChecks: nat
    /** How many times `ADMINQ_EVENT_COUNTER` has been read. */
    var counterReads: nat
    /** The last value written to `ADMINQ_DOORBELL`. */
    var doorbell: U32
    /** The last value written to `GVE_REG_ADMINQ_ADDR`. */
    var adminqAddr: U32

    constructor (eventCounter: nat -> U32, completion: U32 -> U32)
      ensures this.eventCounter == eventCounter && this.completion == completion
      ensures maxChecks == MAX_EVENT_COUNTER_CHECKS
      ensures counterReads == 0 && doorbell == 0 && adminqAddr == 0
    {
      this.eventCounter := eventCounter;
      this.completion := completion;
      maxChecks := MAX_EVENT_COUNTER_CHECKS;
      counterReads := 0;
      doorbell := 0;
      adminqAddr := 0;
    }

    /** `gve_reg_bar_read_4(priv, ADMINQ_EVENT_COUNTER)` */
    method ReadEventCounter() returns (v: U32)
      modifies this
      ensures v == eventCounter(old(counterReads)) && counterReads == old(counterReads) + 1
      ensures doorbell == old(doorbell) && adminqAddr == old(adminqAddr)
    {
      v := eventCounter(counterReads);
      counterReads := counterReads + 1;
    }

    /** `gve_adminq_kick_cmd`: ring the doorbell with the producer count. */
    method KickCmd(prodCnt: U32)
      modifies this
      ensures doorbell == prodCnt && counterReads == old(counterReads) && adminqAddr == old(adminqAddr)
    {
      doorbell := prodCnt;
    }

    method WriteAdminqAddr(v: U32)
      modifies this
      ensures adminqAddr == v && counterReads == old(counterReads) && doorbell == old(doorbell)
    {
      adminqAddr := v;
    }

    /**
     * `gve_adminq_wait_for_cmd`: poll the event counter up to `maxChecks` times
     * until it equals `prodCnt`; the sleeps between polls are not modelled.
     */
    method WaitForCmd(prodCnt: U32) returns (done: bool)
      modifies this
      ensures done <==> FirstMatch(eventCounter, old(counterReads), prodCnt, maxChecks).Some?
      ensures done ==> counterReads == old(counterReads) + FirstMatch(eventCounter, old(counterReads), prodCnt, maxChecks).value + 1
      ensures !done ==> counterReads == old(counterReads) + maxChecks
      ensures doorbell == old(doorbell) && adminqAddr == old(adminqAddr)
    {
      var i := 0;
      while i < maxChecks
        invariant 0 <= i <= maxChecks
        invariant counterReads == old(counterReads) + i
        invariant FirstMatch(eventCounter, old(counterReads), prodCnt, i).None?
        invariant doorbell == old(doorbell) && adminqAddr == old(adminqAddr)
      {
        var v := ReadEventCounter();
        if v == prodCnt {
          FirstMatchExtends(eventCounter, old(counterReads), prodCnt, i + 1, maxChecks);
          return true;
        }
        i := i + 1;
      }
      return false;
    }
  }

  // ---- per-opcode issue counters ----

  /**
   * One `uint32_t` counter per opcode (`adminq_describe_device_cnt` and the
   * others); an opcode without an entry has count 0.
   */
  type IssueCounts = map<Opcodes.Opcode, U32>

  function Count(counts: IssueCounts, op: Opcodes.Opcode): U32
  {
    if op in counts then counts[op] else 0
  }

  /** Every counter present and zero. */
  const ZeroCounts: IssueCounts := map op: Opcodes.Opcode | op in Opcodes.AllOpcodes :: 0

  /**
   * The counter update of `gve_adminq_issue_cmd`: the counter of the
   * record's opcode goes up by one (wrapping at 2^32); a record with an
   * unknown opcode changes no counter.
   */
  function CountIssued(counts: IssueCounts, record: seq<Byte>): (r: IssueCounts)
    requires |record| == COMMAND_SIZE
    ensures Opcodes.OpcodeOf(ReadBe32(record, 0)).None? ==> r == counts
    ensures Opcodes.OpcodeOf(ReadBe32(record, 0)).Some? ==>
              var op := Opcodes.OpcodeOf(ReadBe32(record, 0)).value;
              Count(r, op) == Inc32(Count(counts, op)) && forall other :: other != op ==> Count(r, other) == Count(counts, other)
  {
    match Opcodes.OpcodeOf(ReadBe32(record, 0))
    case None => counts
    case Some(op) => counts[op := Inc32(Count(counts, op))]
  }

  /** An encoded command bumps exactly its own opcode's counter. */
  lemma CountIssuedEncoded(counts: IssueCounts, c: Command)
    ensures Count(CountIssued(counts, Encode(c)), OpcodeOf(c)) == Inc32(Count(counts, OpcodeOf(c)))
    ensures forall other :: other != OpcodeOf(c) ==> Count(CountIssued(counts, Encode(c)), other) == Count(counts, other)
  {
    Opcodes.OpcodeRoundTrip(OpcodeOf(c));
  }

  /**
   * The counter resets of `gve_adminq_alloc` as written: thirteen of the
   * fourteen per-opcode counters are cleared;
   * `adminq_verify_driver_compatibility_cnt` keeps its value.
   */
  function ResetCountsAsWritten(counts: IssueCounts): (r: IssueCounts)
    ensures Count(r, Opcodes.VerifyDriverCompatibility) == Count(counts, Opcodes.VerifyDriverCompatibility)
    ensures forall op :: op != Opcodes.VerifyDriverCompatibility ==> Count(r, op) == 0
  {
    var r := counts[Opcodes.DescribeDevice := 0][Opcodes.ConfigureDeviceResources := 0]
      [Opcodes.RegisterPageList := 0][Opcodes.UnregisterPageList := 0]
      [Opcodes.CreateTxQueue := 0][Opcodes.CreateRxQueue := 0]
      [Opcodes.DestroyTxQueue := 0][Opcodes.DestroyRxQueue := 0]
      [Opcodes.DeconfigureDeviceResources := 0][Opcodes.SetDriverParameter := 0]
      [Opcodes.ReportStats := 0][Opcodes.ReportLinkSpeed := 0][Opcodes.GetPtypeMap := 0];
    assert forall op :: op != Opcodes.VerifyDriverCompatibility ==> Count(r, op) == 0 by {
      forall op | op != Opcodes.VerifyDriverCompatibility
        ensures Count(r, op) == 0
      {
        Opcodes.OpcodeCases(op);
      }
    }
    r
  }

  /**
   * The as-written reset agrees with the corrected one on every counter
   * but verify-driver-compatibility, and leaves a stale count there
   * exactly when that counter was not zero already.
   */
  lemma ResetAsWrittenKeepsVerifyCount(counts: IssueCounts)
    ensures forall op :: op != Opcodes.VerifyDriverCompatibility ==>
              Count(ResetCountsAsWritten(counts), op) == Count(ZeroCounts, op)
    ensures (Count(ResetCountsAsWritten(counts), Opcodes.VerifyDriverCompatibility) != Count(ZeroCounts, Opcodes.VerifyDriverCompatibility))
              <==> Count(counts, Opcodes.VerifyDriverCompatibility) != 0
  {
    ZeroCountsAreZero();
  }

  /** The corrected reset clears every counter. */
  lemma ZeroCountsAreZero()
    ensures forall op :: op in ZeroCounts && Count(ZeroCounts, op) == 0
  {
    Opcodes.OpcodesDistinct();
  }

  // ---- the driver side ----

  /** `ADMINQ_SIZE / sizeof(union gve_adminq_command)` slots, a power of two. */
  predicate ValidRing(adminqSize: nat)
  {
    ValidSlotCount(adminqSize / COMMAND_SIZE) && adminqSize < TWO_32
  }

  /**
   * What the full-ring check of `gve_adminq_issue_cmd` reports: its return
   * value, the event-counter reads it makes and the failures its flush
   * counts.
   */
  datatype RoomOutcome = RoomOutcome(rc: Rc, readCount: nat, failures: nat)

  /**
   * The full-ring check started at read number `reads0` with producer
   * count `prod` and `slots` ring slots: Ok at once when fewer than `slots`
   * commands are outstanding against the tail read; otherwise the slow
   * path `Recheck` from the next read.
   */
  function Room(eventCounter: nat -> U32, completion: U32 -> U32, polls: nat, reads0: nat, prod: U32, slots: nat): (r: RoomOutcome)
    ensures 1 <= r.readCount <= polls + 3
    ensures Sub32(prod, eventCounter(reads0)) < slots <==> r.rc == Ok && r.readCount == 1
    ensures r.failures <= 1
    ensures r.failures == 1 ==> r.rc != Ok && r.rc != ENOTRECOVERABLE
  {
    if Sub32(prod, eventCounter(reads0)) < slots then RoomOutcome(Ok, 1, 0)
    else
      var r := Recheck(eventCounter, completion, polls, reads0 + 1, prod, slots);
      RoomOutcome(r.rc, 1 + r.readCount, r.failures)
  }

  /**
   * The slow path of the full-ring check, from read number `reads1`: the
   * flush's error, or else Ok or ENOMEM by the tail read after it.
   */
  function Recheck(eventCounter: nat -> U32, completion: U32 -> U32, polls: nat, reads1: nat, prod: U32, slots: nat): (r: RoomOutcome)
    ensures 1 <= r.readCount <= polls + 2
    ensures var f := Flush(eventCounter, completion, polls, reads1, prod);
            && (f.rc != Ok ==> r.rc == f.rc)
            && (r.rc == Ok ==> f.rc == Ok && Sub32(prod, eventCounter(reads1 + r.readCount - 1)) < slots)
            && r.failures == f.failures
    ensures r.failures == 1 ==> r.rc != Ok && r.rc != ENOTRECOVERABLE
  {
    var f := Flush(eventCounter, completion, polls, reads1, prod);
    if f.rc != Ok then RoomOutcome(f.rc, f.readCount, f.failures)
    else RoomOutcome(if Sub32(prod, eventCounter(reads1 + f.readCount)) < slots then Ok else ENOMEM, f.readCount + 1, 0)
  }

  /** After a successful flush that ended at read number `reads2`, the slow path decides by the tail read there. */
  lemma RecheckAfterFlush(eventCounter: nat -> U32, completion: U32 -> U32, polls: nat, reads1: nat, prod: U32, slots: nat, reads2: nat)
    requires Flush(eventCounter, completion, polls, reads1, prod).rc == Ok
    requires reads2 == reads1 + Flush(eventCounter, completion, polls, reads1, prod).readCount
    ensures Recheck(eventCounter, completion, polls, reads1, prod, slots) ==
              RoomOutcome(if Sub32(prod, eventCounter(reads2)) < slots then Ok else ENOMEM, reads2 - reads1 + 1, 0)
  {
  }

  /**
   * The full-ring check gives Ok only when the last tail it read leaves a
   * free slot, ENOMEM only after the ring looked full, and any other error
   * is the flush's.
   */
  lemma RoomSpec(eventCounter: nat -> U32, completion: U32 -> U32, polls: nat, reads0: nat, prod: U32, slots: nat)
    ensures var r := Room(eventCounter, completion, polls, reads0, prod, slots);
            var last := reads0 + r.readCount - 1;
            && 1 <= r.readCount
            && (r.rc == Ok ==> Sub32(prod, eventCounter(last)) < slots)
            && (r.rc == ENOMEM ==> Sub32(prod, eventCounter(reads0)) >= slots)
            && (Sub32(prod, eventCounter(reads0)) < slots ==> r.rc == Ok && last == reads0)
            && (r.rc != ENOMEM && r.rc != Ok ==> r.rc == Flush(eventCounter, completion, polls, reads0 + 1, prod).rc)
  {
  }

  /** The tail the full-ring check read last. */
  function LastTail(eventCounter: nat -> U32, completion: U32 -> U32, polls: nat, reads0: nat, prod: U32, slots: nat): U32
  {
    var r := Room(eventCounter, completion, polls, reads0, prod, slots);
    eventCounter(if r.readCount == 0 then reads0 else reads0 + r.readCount - 1)
  }

  /**
   * When the full-ring check gives Ok, the producer slot holds no command
   * that the last tail it read shows as outstanding.
   */
  lemma RoomOkSlotFree(eventCounter: nat -> U32, completion: U32 -> U32, polls: nat, reads0: nat, prod: U32, slots: nat)
    requires ValidSlotCount(slots)
    requires Room(eventCounter, completion, polls, reads0, prod, slots).rc == Ok
    ensures SlotFree(slots, LastTail(eventCounter, completion, polls, reads0, prod, slots), prod)
  {
    RoomSpec(eventCounter, completion, polls, reads0, prod, slots);
    NextSlotIsFree(slots, LastTail(eventCounter, completion, polls, reads0, prod, slots), prod);
  }

  /**
   * Whether `gve_adminq_execute_cmd`, started at read number `reads0`
   * with producer count `prod`, places its record: the ring was idle and
   * the full-ring check passed.
   */
  predicate Issues(eventCounter: nat -> U32, completion: U32 -> U32, polls: nat, reads0: nat, prod: U32, slots: nat)
  {
    Idle(eventCounter, reads0, prod) && Room(eventCounter, completion, polls, reads0 + 1, prod, slots).rc == Ok
  }

  /** The tail read at read number `reads0` shows no command outstanding. */
  predicate Idle(eventCounter: nat -> U32, reads0: nat, prod: U32)
  {
    eventCounter(reads0) == prod
  }

  /**
   * The return value of `gve_adminq_execute_cmd`: EINVAL while commands
   * are outstanding, the full-ring check's error, or the result of the
   * flush that follows the issue.
   */
  function ExecuteResult(eventCounter: nat -> U32, completion: U32 -> U32, polls: nat, reads0: nat, prod: U32, slots: nat): (rc: Rc)
    ensures !Idle(eventCounter, reads0, prod) ==> rc == EINVAL
    ensures rc == Ok ==> Issues(eventCounter, completion, polls, reads0, prod, slots)
  {
    if !Idle(eventCounter, reads0, prod) then EINVAL
    else IssueAndFlushResult(eventCounter, completion, polls, reads0 + 1, prod, slots)
  }

  /** Issue from read number `reads1`, then flush: the full-ring check's error or the flush's result. */
  function IssueAndFlushResult(eventCounter: nat -> U32, completion: U32 -> U32, polls: nat, reads1: nat, prod: U32, slots: nat): (rc: Rc)
    ensures var r := Room(eventCounter, completion, polls, reads1, prod, slots);
            && (r.rc != Ok ==> rc == r.rc)
            && (rc == Ok ==> r.rc == Ok && Flush(eventCounter, completion, polls, reads1 + r.readCount, Inc32(prod)).rc == Ok)
  {
    var r := Room(eventCounter, completion, polls, reads1, prod, slots);
    if r.rc != Ok then r.rc
    else Flush(eventCounter, completion, polls, reads1 + r.readCount, Inc32(prod)).rc
  }

  /**
   * The event-counter reads of `IssueAndFlushResult`: those of the
   * full-ring check, then, once the record is placed, those of the flush;
   * at most two rounds of polling and four single reads.
   */
  function IssueAndFlushReads(eventCounter: nat -> U32, completion: U32 -> U32, polls: nat, reads1: nat, prod: U32, slots: nat): (n: nat)
    ensures var r := Room(eventCounter, completion, polls, reads1, prod, slots);
            && r.readCount <= n <= 2 * polls + 4
            && (r.rc == Ok <==> r.readCount < n)
  {
    var r := Room(eventCounter, completion, polls, reads1, prod, slots);
    if r.rc != Ok then r.readCount
    else r.readCount + Flush(eventCounter, completion, polls, reads1 + r.readCount, Inc32(prod)).readCount
  }

  /** The failures `IssueAndFlushResult` counts in `adminq_cmd_fail`: one at most, and only with a device error returned. */
  function IssueAndFlushFailures(eventCounter: nat -> U32, completion: U32 -> U32, polls: nat, reads1: nat, prod: U32, slots: nat): (c: nat)
    ensures c <= 1
    ensures c == 1 ==> var rc := IssueAndFlushResult(eventCounter, completion, polls, reads1, prod, slots);
                       rc != Ok && rc != ENOTRECOVERABLE
  {
    var r := Room(eventCounter, completion, polls, reads1, prod, slots);
    if r.rc != Ok then r.failures
    else Flush(eventCounter, completion, polls, reads1 + r.readCount, Inc32(prod)).failures
  }

  /** The event-counter reads of `gve_adminq_execute_cmd`: the idle check alone while commands are outstanding. */
  function ExecuteReads(eventCounter: nat -> U32, completion: U32 -> U32, polls: nat, reads0: nat, prod: U32, slots: nat): (n: nat)
    ensures 1 <= n <= 2 * polls + 5
    ensures n == 1 <==> !Idle(eventCounter, reads0, prod)
  {
    if !Idle(eventCounter, reads0, prod) then 1
    else 1 + IssueAndFlushReads(eventCounter, completion, polls, reads0 + 1, prod, slots)
  }

  /** The failures `gve_adminq_execute_cmd` counts: none while commands are outstanding, otherwise those of issue and flush. */
  function ExecuteFailures(eventCounter: nat -> U32, completion: U32 -> U32, polls: nat, reads0: nat, prod: U32, slots: nat): (c: nat)
    ensures c <= 1
    ensures !Idle(eventCounter, reads0, prod) ==> c == 0
    ensures c == 1 ==> var rc := ExecuteResult(eventCounter, completion, polls, reads0, prod, slots);
                       rc != Ok && rc != ENOTRECOVERABLE
  {
    if !Idle(eventCounter, reads0, prod) then 0
    else IssueAndFlushFailures(eventCounter, completion, polls, reads0 + 1, prod, slots)
  }

  /** Issue and flush, taken apart: a failed full-ring check is the whole story; after a passed one the flush follows. */
  lemma IssueAndFlushParts(eventCounter: nat -> U32, completion: U32 -> U32, polls: nat, reads1: nat, prod: U32, slots: nat)
    ensures var r := Room(eventCounter, completion, polls, reads1, prod, slots);
            r.rc != Ok ==>
              && IssueAndFlushResult(eventCounter, completion, polls, reads1, prod, slots) == r.rc
              && IssueAndFlushReads(eventCounter, completion, polls, reads1, prod, slots) == r.readCount
              && IssueAndFlushFailures(eventCounter, completion, polls, reads1, prod, slots) == r.failures
              && Sub32(prod, eventCounter(reads1)) >= slots
    ensures var r := Room(eventCounter, completion, polls, reads1, prod, slots);
            var f := Flush(eventCounter, completion, polls, reads1 + r.readCount, Inc32(prod));
            r.rc == Ok ==>
              && r.failures == 0
              && IssueAndFlushResult(eventCounter, completion, polls, reads1, prod, slots) == f.rc
              && IssueAndFlushReads(eventCounter, completion, polls, reads1, prod, slots) == r.readCount + f.readCount
              && IssueAndFlushFailures(eventCounter, completion, polls, reads1, prod, slots) == f.failures
  {
  }

  /** With the ring idle at the first read, `gve_adminq_execute_cmd` is issue and flush from the next read. */
  lemma ExecuteParts(eventCounter: nat -> U32, completion: U32 -> U32, polls: nat, reads0: nat, prod: U32, slots: nat)
    requires Idle(eventCounter, reads0, prod)
    ensures ExecuteResult(eventCounter, completion, polls, reads0, prod, slots) == IssueAndFlushResult(eventCounter, completion, polls, reads0 + 1, prod, slots)
    ensures ExecuteReads(eventCounter, completion, polls, reads0, prod, slots) == 1 + IssueAndFlushReads(eventCounter, completion, polls, reads0 + 1, prod, slots)
    ensures ExecuteFailures(eventCounter, completion, polls, reads0, prod, slots) == IssueAndFlushFailures(eventCounter, completion, polls, reads0 + 1, prod, slots)
    ensures Issues(eventCounter, completion, polls, reads0, prod, slots) <==> Room(eventCounter, completion, polls, reads0 + 1, prod, slots).rc == Ok
  {
  }

  /** Once the full-ring check passes, the result is that of the flush after it. */
  lemma IssuedThenFlushes(eventCounter: nat -> U32, completion: U32 -> U32, polls: nat, reads1: nat, prod: U32, slots: nat, reads2: nat)
    requires Room(eventCounter, completion, polls, reads1, prod, slots).rc == Ok
    requires reads2 == reads1 + Room(eventCounter, completion, polls, reads1, prod, slots).readCount
    ensures IssueAndFlushResult(eventCounter, completion, polls, reads1, prod, slots) ==
              Flush(eventCounter, completion, polls, reads2, Inc32(prod)).rc
  {
  }

  /**
   * A command that succeeds was placed in the ring, and the device reached
   * it within the poll budget and reported every outstanding command,
   * itself included, as PASSED.
   */
  lemma ExecuteOkMeansIssuedAndPassed(eventCounter: nat -> U32, completion: U32 -> U32, polls: nat, reads0: nat, prod: U32, slots: nat)
    requires ExecuteResult(eventCounter, completion, polls, reads0, prod, slots) == Ok
    ensures Issues(eventCounter, completion, polls, reads0, prod, slots)
    ensures var reads1 := reads0 + 1 + Room(eventCounter, completion, polls, reads0 + 1, prod, slots).readCount;
            var tail := eventCounter(reads1);
            && FirstMatch(eventCounter, reads1 + 1, Inc32(prod), polls).Some?
            && forall k :: 0 <= k < Sub32(Inc32(prod), tail) ==> completion(Advance(tail, k)) == Opcodes.STATUS_PASSED
  {
    var reads1 := reads0 + 1 + Room(eventCounter, completion, polls, reads0 + 1, prod, slots).readCount;
    FlushOkIffAllPassed(eventCounter, completion, polls, reads1, Inc32(prod));
  }

  /** With the ring idle on both tail reads, the record is placed without a flush. */
  lemma IdleRingIssuesAtOnce(eventCounter: nat -> U32, completion: U32 -> U32, polls: nat, reads0: nat, prod: U32, slots: nat)
    requires ValidSlotCount(slots)
    requires eventCounter(reads0) == prod && eventCounter(reads0 + 1) == prod
    ensures Issues(eventCounter, completion, polls, reads0, prod, slots)
    ensures Room(eventCounter, completion, polls, reads0 + 1, prod, slots).readCount == 1
  {
  }

  /**
   * What one `gve_adminq_execute_cmd` of `record` did between the old and
   * the new state: it returned `ExecuteResult` after `ExecuteReads`
   * event-counter reads; exactly when `Issues` holds, which it does when
   * the command succeeded, it wrote the record into the producer slot,
   * advanced the producer count, bumped the record's opcode counter and
   * rang the doorbell with the new count, and otherwise left ring and
   * counts alone, ringing the doorbell with the old count only when the
   * full-ring check flushed; `adminq_cmd_fail` grew by
   * `ExecuteFailures` and the timeouts as `Charged` says; the queue
   * address register and the set-up state are untouched.
   */
  twostate predicate Executed(aq: AdminQueue, record: seq<Byte>, rc: Rc)
    reads aq, aq.dev, aq.ring
  {
    && |record| == COMMAND_SIZE && ValidSlotCount(aq.slots) && aq.ring.Length == aq.slots
    && rc == ExecuteResult(aq.dev.eventCounter, aq.dev.completion, aq.dev.maxChecks, old(aq.dev.counterReads), old(aq.prodCnt), aq.slots)
    && (rc == Ok ==> Issues(aq.dev.eventCounter, aq.dev.completion, aq.dev.maxChecks, old(aq.dev.counterReads), old(aq.prodCnt), aq.slots))
    && aq.dev.counterReads == old(aq.dev.counterReads) +
         ExecuteReads(aq.dev.eventCounter, aq.dev.completion, aq.dev.maxChecks, old(aq.dev.counterReads), old(aq.prodCnt), aq.slots)
    && aq.dev.adminqAddr == old(aq.dev.adminqAddr)
    && aq.dev.doorbell == (if !Idle(aq.dev.eventCounter, old(aq.dev.counterReads), old(aq.prodCnt)) then old(aq.dev.doorbell)
                           else if Issues(aq.dev.eventCounter, aq.dev.completion, aq.dev.maxChecks, old(aq.dev.counterReads), old(aq.prodCnt), aq.slots)
                           then Inc32(old(aq.prodCnt)) else old(aq.prodCnt))
    && aq.cmdFail == (if ExecuteFailures(aq.dev.eventCounter, aq.dev.completion, aq.dev.maxChecks, old(aq.dev.counterReads), old(aq.prodCnt), aq.slots) == 1
                      then Inc32(old(aq.cmdFail)) else old(aq.cmdFail))
    && (Issues(aq.dev.eventCounter, aq.dev.completion, aq.dev.maxChecks, old(aq.dev.counterReads), old(aq.prodCnt), aq.slots) ==>
          && aq.history == old(aq.history) + [record]
          && aq.ring[Slot(old(aq.prodCnt), aq.slots)] == record
          && (forall i :: 0 <= i < aq.ring.Length && i != Slot(old(aq.prodCnt), aq.slots) ==> aq.ring[i] == old(aq.ring[i]))
          && aq.prodCnt == Inc32(old(aq.prodCnt))
          && aq.issued == CountIssued(old(aq.issued), record))
    && (!Issues(aq.dev.eventCounter, aq.dev.completion, aq.dev.maxChecks, old(aq.dev.counterReads), old(aq.prodCnt), aq.slots) ==>
          aq.history == old(aq.history) && aq.prodCnt == old(aq.prodCnt) && aq.issued == old(aq.issued) && aq.ring[..] == old(aq.ring[..]))
    && Charged(old(aq.cmdFail), old(aq.timeouts), aq.cmdFail, aq.timeouts, rc)
    && aq.Setup() == old(aq.Setup())
  }

  class AdminQueue {
    const dev: Device
    /** `ADMINQ_SIZE`, defined in gve.h. */
    const adminqSize: nat
    /** `adminq_mask + 1`. */
    const slots: nat
    /** `priv->adminq`: the DMA region of `slots` command records. */
    const ring: array<seq<Byte>>

    var prodCnt: U32
    var cmdFail: U32
    var timeouts: U32
    var issued: IssueCounts
    /** `GVE_STATE_FLAG_ADMINQ_OK` */
    var adminqOk: bool
    /** `priv->aq_mem.cpu_addr != NULL` */
    var memAllocated: bool
    var aqBusAddr: U64
    /** Every record handed to the device, in issue order. */
    ghost var history: seq<seq<Byte>>

    ghost predicate Valid()
      reads this, ring
    {
      && ValidRing(adminqSize)
      && slots == adminqSize / COMMAND_SIZE
      && ring.Length == slots
      && forall i :: 0 <= i < ring.Length ==> |ring[i]| == COMMAND_SIZE
    }

    /** The set-up state `gve_adminq_alloc` establishes: the ADMINQ_OK flag, whether the region is held, its bus address. */
    ghost function Setup(): (bool, bool, U64)
      reads this
    {
      (adminqOk, memAllocated, aqBusAddr)
    }

    constructor (dev: Device, adminqSize: nat)
      requires ValidRing(adminqSize)
      ensures Valid() && this.dev == dev && this.adminqSize == adminqSize
      ensures !adminqOk && !memAllocated && history == []
      ensures fresh(ring)
    {
      this.dev := dev;
      this.adminqSize := adminqSize;
      slots := adminqSize / COMMAND_SIZE;
      ring := new seq<Byte>[adminqSize / COMMAND_SIZE](_ => Zeros(COMMAND_SIZE));
      prodCnt, cmdFail, timeouts := 0, 0, 0;
      issued := ZeroCounts;
      adminqOk, memAllocated := false, false;
      aqBusAddr := 0;
      history := [];
    }

    /**
     * `gve_adminq_alloc`. `allocRc` is the result of the DMA allocation,
     * made only when no region is held yet; `busAddr` the address it
     * returns. All counters are cleared, the per-opcode ones by the
     * corrected reset `ZeroCounts`, which also clears the
     * verify-driver-compatibility counter that the source's reset list
     * (`ResetCountsAsWritten`) leaves alone.
     */
    method Alloc(allocRc: Rc, busAddr: U64) returns (rc: Rc)
      requires Valid()
      modifies this, dev
      ensures Valid()
      ensures old(adminqOk) ==> rc == Ok && unchanged(this) && unchanged(dev)
      ensures !old(adminqOk) && !old(memAllocated) && allocRc != Ok ==>
                rc == allocRc && unchanged(this) && unchanged(dev)
      ensures !old(adminqOk) && (old(memAllocated) || allocRc == Ok) ==>
                && rc == Ok && adminqOk && memAllocated
                && aqBusAddr == (if old(memAllocated) then old(aqBusAddr) else busAddr)
                && prodCnt == 0 && cmdFail == 0 && timeouts == 0 && issued == ZeroCounts
                && dev.adminqAddr == (aqBusAddr / adminqSize) % TWO_32
                && dev.counterReads == old(dev.counterReads) && dev.doorbell == old(dev.doorbell)
                && history == old(history)
    {
      if adminqOk {
        return Ok;
      }
      if !memAllocated {
        if allocRc != Ok {
          return allocRc;
        }
        memAllocated := true;
        aqBusAddr := busAddr;
      }
      prodCnt := 0;
      cmdFail := 0;
      timeouts := 0;
      issued := ZeroCounts;
      dev.WriteAdminqAddr((aqBusAddr / adminqSize) % TWO_32);
      adminqOk := true;
      return Ok;
    }

    /** `gve_adminq_parse_err` */
    method ParseErr(status: U32) returns (rc: Rc)
      modifies this
      ensures rc == ErrOfStatus(status)
      ensures cmdFail == (if CountsAsFailure(status) then Inc32(old(cmdFail)) else old(cmdFail))
      ensures prodCnt == old(prodCnt) && timeouts == old(timeouts) && issued == old(issued)
      ensures Setup() == old(Setup())
      ensures history == old(history)
    {
      if status != Opcodes.STATUS_PASSED && status != Opcodes.STATUS_UNSET {
        cmdFail := Inc32(cmdFail);
      }
      rc := ErrOfStatus(status);
    }

    /**
     * The status loop of `gve_adminq_kick_and_wait`: the statuses of the
     * `Sub32(head, tail)` commands from `tail` on, oldest first, each
     * through `ParseErr`, stopping at the first error. The loop runs over
     * all outstanding commands, also when the producer count has wrapped
     * past 2^32.
     */
    method ScanCompletions(tail: U32, head: U32) returns (rc: Rc)
      modifies this
      ensures rc == ScanFrom(dev.completion, tail, Sub32(head, tail))
      ensures cmdFail == (if FailuresFrom(dev.completion, tail, Sub32(head, tail)) == 1 then Inc32(old(cmdFail)) else old(cmdFail))
      ensures prodCnt == old(prodCnt) && timeouts == old(timeouts) && issued == old(issued) && history == old(history)
      ensures Setup() == old(Setup())
    {
      var n := Sub32(head, tail);
      var i := tail;
      var k := 0;
      while k < n
        invariant 0 <= k <= n
        invariant ScanFrom(dev.completion, tail, n) == ScanFrom(dev.completion, i, n - k)
        invariant FailuresFrom(dev.completion, tail, n) == FailuresFrom(dev.completion, i, n - k)
        invariant cmdFail == old(cmdFail) && timeouts == old(timeouts) && prodCnt == old(prodCnt)
        invariant issued == old(issued) && history == old(history)
        invariant Setup() == old(Setup())
      {
        var status := dev.completion(i);
        var err := ParseErr(status);
        if err != Ok {
          return err;
        }
        i := Inc32(i);
        k := k + 1;
      }
      return Ok;
    }

    /**
     * `gve_adminq_kick_and_wait`: read the tail, ring the doorbell with the
     * producer count, wait for the event counter to reach it (a timeout
     * counts in `timeouts` and is ENOTRECOVERABLE), then scan the statuses
     * of the outstanding commands.
     */
    method KickAndWait() returns (rc: Rc)
      modifies this, dev
      ensures var f := Flush(dev.eventCounter, dev.completion, dev.maxChecks, old(dev.counterReads), old(prodCnt));
              && rc == f.rc
              && dev.counterReads == old(dev.counterReads) + f.readCount
              && timeouts == (if f.rc == ENOTRECOVERABLE then Inc32(old(timeouts)) else old(timeouts))
              && cmdFail == (if f.failures == 1 then Inc32(old(cmdFail)) else old(cmdFail))
      ensures Charged(old(cmdFail), old(timeouts), cmdFail, timeouts, rc)
      ensures dev.doorbell == old(prodCnt) && dev.adminqAddr == old(dev.adminqAddr)
      ensures prodCnt == old(prodCnt) && issued == old(issued) && history == old(history)
      ensures Setup() == old(Setup())
    {
      var tail := dev.ReadEventCounter();
      var head := prodCnt;
      dev.KickCmd(head);
      var done := dev.WaitForCmd(head);
      if !done {
        timeouts := Inc32(timeouts);
        return ENOTRECOVERABLE;
      }
      rc := ScanCompletions(tail, head);
    }

    /**
     * The full-ring check of `gve_adminq_issue_cmd`: read the tail; when
     * the ring looks full against it, flush, and give up with ENOMEM if it
     * still looks full against the tail read after the flush.
     */
    method MakeRoom() returns (rc: Rc)
      modifies this, dev
      ensures var r := Room(dev.eventCounter, dev.completion, dev.maxChecks, old(dev.counterReads), old(prodCnt), slots);
              && rc == r.rc && dev.counterReads == old(dev.counterReads) + r.readCount
              && cmdFail == (if r.failures == 1 then Inc32(old(cmdFail)) else old(cmdFail))
      ensures dev.doorbell == (if Sub32(old(prodCnt), dev.eventCounter(old(dev.counterReads))) < slots then old(dev.doorbell) else old(prodCnt))
      ensures dev.adminqAddr == old(dev.adminqAddr)
      ensures Charged(old(cmdFail), old(timeouts), cmdFail, timeouts, rc)
      ensures prodCnt == old(prodCnt) && issued == old(issued) && history == old(history)
      ensures Setup() == old(Setup())
    {
      ghost var reads0, fail0 := dev.counterReads, cmdFail;
      ghost var room := Room(dev.eventCounter, dev.completion, dev.maxChecks, reads0, prodCnt, slots);
      var tail := dev.ReadEventCounter();
      if Sub32(prodCnt, tail) > slots - 1 {
        ghost var r := Recheck(dev.eventCounter, dev.completion, dev.maxChecks, reads0 + 1, prodCnt, slots);
        assert room == RoomOutcome(r.rc, 1 + r.readCount, r.failures);
        rc := FlushAndRecheck();
        assert rc == room.rc && dev.counterReads == reads0 + room.readCount;
        assert cmdFail == (if room.failures == 1 then Inc32(fail0) else fail0);
      } else {
        assert room == RoomOutcome(Ok, 1, 0);
        rc := Ok;
      }
    }

    /** The slow path of the full-ring check: flush, then read the tail again. */
    method FlushAndRecheck() returns (rc: Rc)
      modifies this, dev
      ensures var r := Recheck(dev.eventCounter, dev.completion, dev.maxChecks, old(dev.counterReads), prodCnt, slots);
              && rc == r.rc && dev.counterReads == old(dev.counterReads) + r.readCount
              && cmdFail == (if r.failures == 1 then Inc32(old(cmdFail)) else old(cmdFail))
      ensures dev.doorbell == prodCnt && dev.adminqAddr == old(dev.adminqAddr)
      ensures Charged(old(cmdFail), old(timeouts), cmdFail, timeouts, rc)
      ensures prodCnt == old(prodCnt) && issued == old(issued) && history == old(history)
      ensures Setup() == old(Setup())
    {
      rc := KickAndWait();
      if rc != Ok {
        return;
      }
      ghost var last := dev.counterReads;
      RecheckAfterFlush(dev.eventCounter, dev.completion, dev.maxChecks, old(dev.counterReads), prodCnt, slots, last);
      var tail := dev.ReadEventCounter();
      if Sub32(prodCnt, tail) > slots - 1 {
        rc := ENOMEM;
      }
    }

    /**
     * `gve_adminq_issue_cmd`: copy a 64-byte record into the next slot and
     * advance the producer count, once `MakeRoom` has found the ring not
     * full. The slot written never holds a command that the last tail read
     * shows as outstanding, and no other slot changes.
     */
    method IssueCmd(record: seq<Byte>) returns (rc: Rc)
      requires Valid() && |record| == COMMAND_SIZE
      modifies this, dev, ring
      ensures Valid()
      ensures var r := Room(dev.eventCounter, dev.completion, dev.maxChecks, old(dev.counterReads), old(prodCnt), slots);
              && rc == r.rc && dev.counterReads == old(dev.counterReads) + r.readCount
              && cmdFail == (if r.failures == 1 then Inc32(old(cmdFail)) else old(cmdFail))
      ensures dev.doorbell == (if Sub32(old(prodCnt), dev.eventCounter(old(dev.counterReads))) < slots then old(dev.doorbell) else old(prodCnt))
      ensures dev.adminqAddr == old(dev.adminqAddr)
      ensures rc == Ok ==>
                && SlotFree(slots, LastTail(dev.eventCounter, dev.completion, dev.maxChecks, old(dev.counterReads), old(prodCnt), slots), old(prodCnt))
                && ring[Slot(old(prodCnt), slots)] == record
                && (forall i :: 0 <= i < ring.Length && i != Slot(old(prodCnt), slots) ==> ring[i] == old(ring[i]))
                && prodCnt == Inc32(old(prodCnt))
                && issued == CountIssued(old(issued), record)
                && history == old(history) + [record]
      ensures rc != Ok ==>
                prodCnt == old(prodCnt) && issued == old(issued) && history == old(history) && ring[..] == old(ring[..])
      ensures Charged(old(cmdFail), old(timeouts), cmdFail, timeouts, rc)
      ensures Setup() == old(Setup())
    {
      rc := MakeRoom();
      if rc != Ok {
        return;
      }
      RoomOkSlotFree(dev.eventCounter, dev.completion, dev.maxChecks, old(dev.counterReads), prodCnt, slots);
      PlaceRecord(record);
    }

    /** The write half of `gve_adminq_issue_cmd`: the record goes into the producer slot. */
    method PlaceRecord(record: seq<Byte>)
      requires Valid() && |record| == COMMAND_SIZE
      modifies this, ring
      ensures Valid()
      ensures ring[Slot(old(prodCnt), slots)] == record
      ensures forall i :: 0 <= i < ring.Length && i != Slot(old(prodCnt), slots) ==> ring[i] == old(ring[i])
      ensures prodCnt == Inc32(old(prodCnt))
      ensures issued == CountIssued(old(issued), record)
      ensures history == old(history) + [record]
      ensures cmdFail == old(cmdFail) && timeouts == old(timeouts)
      ensures Setup() == old(Setup())
    {
      ring[Slot(prodCnt, slots)] := record;
      prodCnt := Inc32(prodCnt);
      issued := CountIssued(issued, record);
      history := history + [record];
    }

    /**
     * `gve_adminq_execute_cmd`: refuse with EINVAL, changing nothing, while
     * commands are outstanding; otherwise issue the record and flush.
     */
    method ExecuteCmd(record: seq<Byte>) returns (rc: Rc)
      requires Valid() && |record| == COMMAND_SIZE
      modifies this, dev, ring
      ensures Valid() && Executed(this, record, rc)
      ensures !Idle(dev.eventCounter, old(dev.counterReads), old(prodCnt)) ==>
                && rc == EINVAL && cmdFail == old(cmdFail) && timeouts == old(timeouts)
                && dev.counterReads == old(dev.counterReads) + 1 && dev.doorbell == old(dev.doorbell)
    {
      var tail := dev.ReadEventCounter();
      if tail != prodCnt {
        return EINVAL;
      }
      ExecuteParts(dev.eventCounter, dev.completion, dev.maxChecks, old(dev.counterReads), old(prodCnt), slots);
      rc := IssueAndFlush(record);
    }

    /** The second half of `gve_adminq_execute_cmd`: issue the record and, if that worked, flush. */
    method IssueAndFlush(record: seq<Byte>) returns (rc: Rc)
      requires Valid() && |record| == COMMAND_SIZE
      modifies this, dev, ring
      ensures Valid()
      ensures rc == IssueAndFlushResult(dev.eventCounter, dev.completion, dev.maxChecks, old(dev.counterReads), old(prodCnt), slots)
      ensures dev.counterReads == old(dev.counterReads) + IssueAndFlushReads(dev.eventCounter, dev.completion, dev.maxChecks, old(dev.counterReads), old(prodCnt), slots)
      ensures cmdFail == (if IssueAndFlushFailures(dev.eventCounter, dev.completion, dev.maxChecks, old(dev.counterReads), old(prodCnt), slots) == 1
                          then Inc32(old(cmdFail)) else old(cmdFail))
      ensures dev.adminqAddr == old(dev.adminqAddr)
      ensures var ok := Room(dev.eventCounter, dev.completion, dev.maxChecks, old(dev.counterReads), old(prodCnt), slots).rc == Ok;
              && (ok ==> dev.doorbell == Inc32(old(prodCnt)))
              && (!ok ==> dev.doorbell == old(prodCnt))
              && (ok ==> ring[Slot(old(prodCnt), slots)] == record && prodCnt == Inc32(old(prodCnt))
                         && (forall i :: 0 <= i < ring.Length && i != Slot(old(prodCnt), slots) ==> ring[i] == old(ring[i]))
                         && issued == CountIssued(old(issued), record) && history == old(history) + [record])
              && (!ok ==> prodCnt == old(prodCnt) && issued == old(issued) && history == old(history) && ring[..] == old(ring[..]))
      ensures Charged(old(cmdFail), old(timeouts), cmdFail, timeouts, rc)
      ensures Setup() == old(Setup())
    {
      ghost var reads1, prod, fail0 := dev.counterReads, prodCnt, cmdFail;
      ghost var r := Room(dev.eventCounter, dev.completion, dev.maxChecks, reads1, prod, slots);
      IssueAndFlushParts(dev.eventCounter, dev.completion, dev.maxChecks, reads1, prod, slots);
      rc := IssueCmd(record);
      if rc != Ok {
        return;
      }
      assert dev.counterReads == reads1 + r.readCount && cmdFail == fail0;
      ghost var f := Flush(dev.eventCounter, dev.completion, dev.maxChecks, dev.counterReads, prodCnt);
      rc := KickAndWait();
      assert dev.counterReads == reads1 + r.readCount + f.readCount;
      assert cmdFail == (if f.failures == 1 then Inc32(fail0) else fail0);
    }
  }
}
