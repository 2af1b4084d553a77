/**
 * The closed enumerations of the admin queue wire protocol: the command
 * opcodes and the status codes the device writes back into a command slot.
 */
module Opcodes {
  import opened Wire

  /** `enum gve_adminq_opcodes`. */
  datatype Opcode =
    | DescribeDevice
    | ConfigureDeviceResources
    | RegisterPageList
    | UnregisterPageList
    | CreateTxQueue
    | CreateRxQueue
    | DestroyTxQueue
    | DestroyRxQueue
    | DeconfigureDeviceResources
    | SetDriverParameter
    | ReportStats
    | ReportLinkSpeed
    | GetPtypeMap
    | VerifyDriverCompatibility

  const AllOpcodes: seq<Opcode> := [
    DescribeDevice, ConfigureDeviceResources, RegisterPageList, UnregisterPageList,
    CreateTxQueue, CreateRxQueue, DestroyTxQueue, DestroyRxQueue,
    DeconfigureDeviceResources, SetDriverParameter, ReportStats, ReportLinkSpeed,
    GetPtypeMap, VerifyDriverCompatibility]

  /** The wire value of an opcode: 0x1 to 0xF, with 0xA unused. */
  function OpcodeValue(op: Opcode): (v: U32)
    ensures 0x1 <= v <= 0xF && v != 0xA
  {
    match op
    case DescribeDevice => 0x1
    case ConfigureDeviceResources => 0x2
    case RegisterPageList => 0x3
    case UnregisterPageList => 0x4
    case CreateTxQueue => 0x5
    case CreateRxQueue => 0x6
    case DestroyTxQueue => 0x7
    case DestroyRxQueue => 0x8
    case DeconfigureDeviceResources => 0x9
    case SetDriverParameter => 0xB
    case ReportStats => 0xC
    case ReportLinkSpeed => 0xD
    case GetPtypeMap => 0xE
    case VerifyDriverCompatibility => 0xF
  }

  /** Recognise a wire value; the `default:` arm of the source's switches is `None`. */
  function OpcodeOf(v: U32): (r: Option<Opcode>)
    ensures r.Some? <==> 0x1 <= v <= 0xF && v != 0xA
    ensures r.Some? ==> OpcodeValue(r.value) == v
  {
    if v == 0x1 then Some(DescribeDevice)
    else if v == 0x2 then Some(ConfigureDeviceResources)
    else if v == 0x3 then Some(RegisterPageList)
    else if v == 0x4 then Some(UnregisterPageList)
    else if v == 0x5 then Some(CreateTxQueue)
    else if v == 0x6 then Some(CreateRxQueue)
    else if v == 0x7 then Some(DestroyTxQueue)
    else if v == 0x8 then Some(DestroyRxQueue)
    else if v == 0x9 then Some(DeconfigureDeviceResources)
    else if v == 0xB then Some(SetDriverParameter)
    else if v == 0xC then Some(ReportStats)
    else if v == 0xD then Some(ReportLinkSpeed)
    else if v == 0xE then Some(GetPtypeMap)
    else if v == 0xF then Some(VerifyDriverCompatibility)
    else None
  }

  lemma OpcodeRoundTrip(op: Opcode)
    ensures OpcodeOf(OpcodeValue(op)) == Some(op)
  {
  }

  /** The fourteen opcodes are listed once each and have fourteen distinct wire values. */
  lemma OpcodesDistinct()
    ensures |AllOpcodes| == 14
    ensures forall op: Opcode :: op in AllOpcodes
    ensures forall i, j :: 0 <= i < j < |AllOpcodes| ==> OpcodeValue(AllOpcodes[i]) != OpcodeValue(AllOpcodes[j])
  {
    forall op: Opcode ensures op in AllOpcodes {
      var v := OpcodeValue(op);
      assert AllOpcodes[if v < 0xA then v - 1 else v - 2] == op;
    }
  }

  /** Every opcode is one of the fourteen. */
  lemma OpcodeCases(op: Opcode)
    ensures || op == DescribeDevice || op == ConfigureDeviceResources || op == RegisterPageList
            || op == UnregisterPageList || op == CreateTxQueue || op == CreateRxQueue
            || op == DestroyTxQueue || op == DestroyRxQueue || op == DeconfigureDeviceResources
            || op == SetDriverParameter || op == ReportStats || op == ReportLinkSpeed
            || op == GetPtypeMap || op == VerifyDriverCompatibility
  {
  }

  /** `enum gve_adminq_statuses`. */
  datatype Status =
    | Unset
    | Passed
    | Aborted
    | AlreadyExists
    | Cancelled
    | DataLoss
    | DeadlineExceeded
    | FailedPrecondition
    | InternalError
    | InvalidArgument
    | NotFound
    | OutOfRange
    | PermissionDenied
    | Unauthenticated
    | ResourceExhausted
    | Unavailable
    | Unimplemented
    | UnknownError

  const AllStatuses: seq<Status> := [
    Unset, Passed, Aborted, AlreadyExists, Cancelled, DataLoss, DeadlineExceeded,
    FailedPrecondition, InternalError, InvalidArgument, NotFound, OutOfRange,
    PermissionDenied, Unauthenticated, ResourceExhausted, Unavailable, Unimplemented,
    UnknownError]

  const STATUS_UNSET: U32 := 0x0
  const STATUS_PASSED: U32 := 0x1

  /** UNSET is 0, PASSED is 1, and the sixteen errors fill 0xFFFFFFF0..0xFFFFFFFF. */
  function StatusValue(s: Status): (v: U32)
    ensures s == Unset <==> v == STATUS_UNSET
    ensures s == Passed <==> v == STATUS_PASSED
    ensures s != Unset && s != Passed <==> 0xFFFF_FFF0 <= v
  {
    match s
    case Unset => 0x0
    case Passed => 0x1
    case Aborted => 0xFFFF_FFF0
    case AlreadyExists => 0xFFFF_FFF1
    case Cancelled => 0xFFFF_FFF2
    case DataLoss => 0xFFFF_FFF3
    case DeadlineExceeded => 0xFFFF_FFF4
    case FailedPrecondition => 0xFFFF_FFF5
    case InternalError => 0xFFFF_FFF6
    case InvalidArgument => 0xFFFF_FFF7
    case NotFound => 0xFFFF_FFF8
    case OutOfRange => 0xFFFF_FFF9
    case PermissionDenied => 0xFFFF_FFFA
    case Unauthenticated => 0xFFFF_FFFB
    case ResourceExhausted => 0xFFFF_FFFC
    case Unavailable => 0xFFFF_FFFD
    case Unimplemented => 0xFFFF_FFFE
    case UnknownError => 0xFFFF_FFFF
  }

  function StatusOf(v: U32): (r: Option<Status>)
    ensures r.Some? <==> v <= 1 || 0xFFFF_FFF0 <= v
    ensures r.Some? ==> StatusValue(r.value) == v
  {
    if v < 0xFFFF_FFF0 then
      (if v == 0x0 then Some(Unset) else if v == 0x1 then Some(Passed) else None)
    else
      Some(AllStatuses[v - 0xFFFF_FFF0 + 2])
  }

  lemma StatusRoundTrip(s: Status)
    ensures StatusOf(StatusValue(s)) == Some(s)
  {
  }

  /** The eighteen status codes are listed once each and have eighteen distinct wire values. */
  lemma StatusesDistinct()
    ensures |AllStatuses| == 18
    ensures forall s: Status :: s in AllStatuses
    ensures forall i, j :: 0 <= i < j < |AllStatuses| ==> StatusValue(AllStatuses[i]) != StatusValue(AllStatuses[j])
  {
    forall s: Status ensures s in AllStatuses {
      var v := StatusValue(s);
      assert AllStatuses[if v <= 1 then v else v - 0xFFFF_FFF0 + 2] == s;
    }
  }
}
