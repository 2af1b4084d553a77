/**
 * The completion scan of `gve_adminq_kick_and_wait`: once the device's
 * event counter has reached the producer count, the statuses of the
 * commands issued since the last flush are examined in issue order and
 * the first error is reported.
 */
module CompletionScan {
  import opened Wire
  import opened Errno
  import opened StatusTranslation
  import opened RingArith
  import Opcodes

  /** The counter values of the commands between `tail` and `head`, oldest first, across a 2^32 wrap. */
  function Outstanding(tail: U32, head: U32): (r: seq<U32>)
    ensures |r| == Sub32(head, tail)
    ensures forall k :: 0 <= k < |r| ==> r[k] == Advance(tail, k)
  {
    seq(Sub32(head, tail), (k: nat) => Advance(tail, k))
  }

  /** The position of the first status other than PASSED, if any. */
  function FirstNotPassed(statuses: seq<U32>): (r: Option<nat>)
    ensures r.None? <==> forall j :: 0 <= j < |statuses| ==> statuses[j] == Opcodes.STATUS_PASSED
    ensures r.Some? ==> r.value < |statuses| && statuses[r.value] != Opcodes.STATUS_PASSED
    ensures r.Some? ==> forall j :: 0 <= j < r.value ==> statuses[j] == Opcodes.STATUS_PASSED
  {
    if statuses == [] then None
    else if statuses[0] != Opcodes.STATUS_PASSED then Some(0)
    else match FirstNotPassed(statuses[1..])
      case None => None
      case Some(i) => Some(i + 1)
  }

  /**
   * The scan's return value: 0 when every command passed, otherwise the
   * translation of the first status that is not PASSED.
   */
  function ScanResult(statuses: seq<U32>): (rc: Rc)
    ensures rc == Ok <==> forall j :: 0 <= j < |statuses| ==> statuses[j] == Opcodes.STATUS_PASSED
    ensures rc != ENOTRECOVERABLE
  {
    match FirstNotPassed(statuses)
    case None => Ok
    case Some(i) => ErrOfStatus(statuses[i])
  }

  /** `adminq_cmd_fail` grows by one if the status the scan stops at counts as a failure, otherwise not at all. */
  function FailuresCounted(statuses: seq<U32>): (c: nat)
    ensures c <= 1
    ensures c == 1 ==> ScanResult(statuses) != Ok
  {
    match FirstNotPassed(statuses)
    case None => 0
    case Some(i) => if CountsAsFailure(statuses[i]) then 1 else 0
  }

  /**
   * Completions are reported in issue order: if the commands before `i`
   * passed and command `i` did not, the scan reports command `i`'s error,
   * whatever the later commands did.
   */
  lemma {:induction false} ReportsFirstFailure(statuses: seq<U32>, i: nat)
    requires i < |statuses| && statuses[i] != Opcodes.STATUS_PASSED
    requires forall j :: 0 <= j < i ==> statuses[j] == Opcodes.STATUS_PASSED
    ensures FirstNotPassed(statuses) == Some(i)
    ensures ScanResult(statuses) == ErrOfStatus(statuses[i])
    ensures FailuresCounted(statuses) == (if CountsAsFailure(statuses[i]) then 1 else 0)
  {
  }

  /** Later statuses never change the outcome once an earlier command has failed. */
  lemma ScanIgnoresLaterStatuses(statuses: seq<U32>, more: seq<U32>)
    requires ScanResult(statuses) != Ok
    ensures ScanResult(statuses + more) == ScanResult(statuses)
    ensures FailuresCounted(statuses + more) == FailuresCounted(statuses)
  {
    var i := FirstNotPassed(statuses).value;
    ReportsFirstFailure(statuses + more, i);
  }

  // ---- the scan, command by command ----

  /**
   * The scan as the driver runs it: the `n` commands from counter value
   * `tail` on, one after the other, stopping at the first status other
   * than PASSED and translating it.
   */
  function ScanFrom(completion: U32 -> U32, tail: U32, n: nat): (rc: Rc)
    ensures rc != ENOTRECOVERABLE
    decreases n
  {
    if n == 0 then Ok
    else if completion(tail) != Opcodes.STATUS_PASSED then ErrOfStatus(completion(tail))
    else ScanFrom(completion, Inc32(tail), n - 1)
  }

  /** How much `adminq_cmd_fail` grows during `ScanFrom`. */
  function FailuresFrom(completion: U32 -> U32, tail: U32, n: nat): (c: nat)
    ensures c <= 1
    ensures c == 1 ==> ScanFrom(completion, tail, n) != Ok
    decreases n
  {
    if n == 0 then 0
    else if completion(tail) != Opcodes.STATUS_PASSED then (if CountsAsFailure(completion(tail)) then 1 else 0)
    else FailuresFrom(completion, Inc32(tail), n - 1)
  }

  /** The `n` counter values from `tail` on. */
  function Window(tail: U32, n: nat): seq<U32>
  {
    seq(n, (k: nat) => Advance(tail, k))
  }

  lemma AdvanceInc(t: U32, k: nat)
    ensures Advance(Inc32(t), k) == Advance(t, k + 1)
  {
    if t == TWO_32 - 1 {
      ModShift(k, 1, TWO_32);
    }
  }

  lemma WindowCons(tail: U32, n: nat)
    requires 0 < n
    ensures Window(tail, n) == [tail] + Window(Inc32(tail), n - 1)
  {
    forall k | 0 <= k < n - 1
      ensures Advance(Inc32(tail), k) == Advance(tail, k + 1)
    {
      AdvanceInc(tail, k);
    }
  }

  /** The statuses of the window from `tail` are the first one followed by those of the window from `tail + 1`. */
  lemma StatusesOfWindowCons(completion: U32 -> U32, tail: U32, n: nat)
    requires 0 < n
    ensures var st := StatusesOf(Window(tail, n), completion);
            st[0] == completion(tail) && st[1..] == StatusesOf(Window(Inc32(tail), n - 1), completion)
  {
    WindowCons(tail, n);
  }

  /** The command-by-command scan returns what the first-failure scan over the window's statuses returns. */
  lemma {:induction false} ScanFromAgrees(completion: U32 -> U32, tail: U32, n: nat)
    ensures ScanFrom(completion, tail, n) == ScanResult(StatusesOf(Window(tail, n), completion))
    decreases n
  {
    if n > 0 {
      StatusesOfWindowCons(completion, tail, n);
      ScanFromAgrees(completion, Inc32(tail), n - 1);
    }
  }

  /** The command-by-command failure count agrees with the one of the first-failure scan. */
  lemma {:induction false} FailuresFromAgrees(completion: U32 -> U32, tail: U32, n: nat)
    ensures FailuresFrom(completion, tail, n) == FailuresCounted(StatusesOf(Window(tail, n), completion))
    decreases n
  {
    if n > 0 {
      StatusesOfWindowCons(completion, tail, n);
      FailuresFromAgrees(completion, Inc32(tail), n - 1);
    }
  }

  /** The window of `Sub32(head, tail)` values from `tail` is the outstanding commands. */
  lemma OutstandingIsWindow(tail: U32, head: U32)
    ensures Outstanding(tail, head) == Window(tail, Sub32(head, tail))
  {
  }

  // ---- the scan as written ----

  /**
   * The counter values the source's loop `for (i = tail; i < head; i++)`
   * visits: with `tail` and `head` compared as unsigned words, none at all
   * once the producer count has wrapped past 2^32 and `head < tail`.
   */
  function OutstandingAsWritten(tail: U32, head: U32): (r: seq<U32>)
    ensures head <= tail ==> r == []
    ensures tail < head ==> |r| == Sub32(head, tail)
    ensures |r| <= Sub32(head, tail)
    ensures forall k :: 0 <= k < |r| ==> r[k] == Advance(tail, k)
  {
    if tail < head then seq(head - tail, k requires 0 <= k < head - tail => tail + k) else []
  }

  /** Without a wrap the loop visits exactly the outstanding commands. */
  lemma AsWrittenAgreesWithoutWrap(tail: U32, head: U32)
    requires tail <= head
    ensures OutstandingAsWritten(tail, head) == Outstanding(tail, head)
  {
  }

  /**
   * Across the wrap: one command issued at counter 0xFFFFFFFF, the producer
   * count now 0. The device aborted it; the scan as written reports
   * success, the scan over `Outstanding` reports EAGAIN.
   */
  lemma WrappedScanMissesFailure(completion: U32 -> U32)
    requires completion(0xFFFF_FFFF) == Opcodes.StatusValue(Opcodes.Aborted)
    ensures OutstandingAsWritten(0xFFFF_FFFF, 0) == []
    ensures Outstanding(0xFFFF_FFFF, 0) == [0xFFFF_FFFF]
    ensures ScanResult(StatusesOf(OutstandingAsWritten(0xFFFF_FFFF, 0), completion)) == Ok
    ensures ScanResult(StatusesOf(Outstanding(0xFFFF_FFFF, 0), completion)) == EAGAIN
  {
    assert Outstanding(0xFFFF_FFFF, 0)[0] == 0xFFFF_FFFF;
    assert StatusesOf([0xFFFF_FFFF], completion) == [completion(0xFFFF_FFFF)];
    assert FirstNotPassed([completion(0xFFFF_FFFF)]) == Some(0);
  }

  /** The statuses the device wrote for the commands with the given counter values. */
  function StatusesOf(indices: seq<U32>, completion: U32 -> U32): (r: seq<U32>)
    ensures |r| == |indices| && forall k :: 0 <= k < |indices| ==> r[k] == completion(indices[k])
  {
    seq(|indices|, k requires 0 <= k < |indices| => completion(indices[k]))
  }
}
