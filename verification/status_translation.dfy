/**
 * `gve_adminq_parse_err`: the translation of the status word the device
 * writes into a command slot into an errno value, and the rule for which
 * statuses count as failed commands.
 */
module StatusTranslation {
  import opened Wire
  import opened Errno
  import Opcodes

  /** The errno class of each status of the enumeration. */
  function ErrOf(s: Opcodes.Status): Rc
  {
    match s
    case Passed => Ok
    case Unset => EINVAL
    case Aborted => EAGAIN
    case Cancelled => EAGAIN
    case DataLoss => EAGAIN
    case FailedPrecondition => EAGAIN
    case Unavailable => EAGAIN
    case AlreadyExists => EINVAL
    case InternalError => EINVAL
    case InvalidArgument => EINVAL
    case NotFound => EINVAL
    case OutOfRange => EINVAL
    case UnknownError => EINVAL
    case DeadlineExceeded => ETIME
    case PermissionDenied => EACCES
    case Unauthenticated => EACCES
    case ResourceExhausted => ENOMEM
    case Unimplemented => EOPNOTSUPP
  }

  /**
   * The return value of `gve_adminq_parse_err` for a raw status word, case
   * by case as its `switch` lists them; a value outside the enumeration
   * takes the `default:` arm.
   */
  function ErrOfStatus(status: U32): (rc: Rc)
    ensures rc == Ok <==> status == Opcodes.STATUS_PASSED
    ensures rc != ENOTRECOVERABLE
  {
    if status == 0x1 then Ok
    else if status == 0x0 then EINVAL
    // aborted, cancelled, data loss, failed precondition, unavailable
    else if status == 0xFFFF_FFF0 || status == 0xFFFF_FFF2 || status == 0xFFFF_FFF3
         || status == 0xFFFF_FFF5 || status == 0xFFFF_FFFD then EAGAIN
    // already exists, internal error, invalid argument, not found, out of range, unknown error
    else if status == 0xFFFF_FFF1 || status == 0xFFFF_FFF6 || status == 0xFFFF_FFF7
         || status == 0xFFFF_FFF8 || status == 0xFFFF_FFF9 || status == 0xFFFF_FFFF then EINVAL
    // deadline exceeded
    else if status == 0xFFFF_FFF4 then ETIME
    // permission denied, unauthenticated
    else if status == 0xFFFF_FFFA || status == 0xFFFF_FFFB then EACCES
    // resource exhausted
    else if status == 0xFFFF_FFFC then ENOMEM
    // unimplemented
    else if status == 0xFFFF_FFFE then EOPNOTSUPP
    else EINVAL
  }

  /** A word that is not one of the eighteen statuses is reported as EINVAL. */
  lemma UnknownStatusIsInvalid(status: U32)
    requires Opcodes.StatusOf(status).None?
    ensures ErrOfStatus(status) == EINVAL
  {
  }

  /** `adminq_cmd_fail` is bumped for every status other than PASSED and UNSET. */
  predicate CountsAsFailure(status: U32)
  {
    status != Opcodes.STATUS_PASSED && status != Opcodes.STATUS_UNSET
  }

  /** Every counted failure is reported as an error, and UNSET is an error that is not counted. */
  lemma FailureIsError(status: U32)
    ensures CountsAsFailure(status) ==> ErrOfStatus(status) != Ok
    ensures status == Opcodes.STATUS_UNSET ==> ErrOfStatus(status) == EINVAL && !CountsAsFailure(status)
    ensures ErrOfStatus(status) == Ok <==> !CountsAsFailure(status) && status != Opcodes.STATUS_UNSET
  {
  }

  /** Over the enumeration, the translation only depends on the status, through `ErrOf`. */
  lemma ErrOfStatusAgrees(s: Opcodes.Status)
    ensures ErrOfStatus(Opcodes.StatusValue(s)) == ErrOf(s)
  {
    Opcodes.StatusRoundTrip(s);
  }
}
