/**
 * The 64-byte admin queue command record (`union gve_adminq_command`): a
 * big-endian opcode, a big-endian status written by the device, and a
 * payload union addressed by the opcode. The payload is a tagged variant
 * here, one constructor per member of the union.
 */
module Commands {
  import opened Wire
  import opened Layout
  import Opcodes

  const COMMAND_SIZE: nat := 64
  const HEADER_SIZE: nat := 8
  const PAYLOAD_CAPACITY: nat := COMMAND_SIZE - HEADER_SIZE

  /** Payloads of the union; `reserved` and `padding` members are always zero and are not fields. */
  datatype Command =
    | DescribeDevice(deviceDescriptorAddr: U64, deviceDescriptorVersion: U32, availableLength: U32)
    | ConfigureDeviceResources(counterArray: U64, irqDbAddr: U64, numCounters: U32, numIrqDbs: U32,
                               irqDbStride: U32, ntfyBlkMsixBaseIdx: U32, queueFormat: Byte)
    | RegisterPageList(pageListId: U32, numPages: U32, pageAddressListAddr: U64, pageSize: U64)
    | UnregisterPageList(pageListId: U32)
    | CreateTxQueue(queueId: U32, queueResourcesAddr: U64, txRingAddr: U64, queuePageListId: U32,
                    ntfyId: U32, txCompRingAddr: U64, txRingSize: U16, txCompRingSize: U16)
    | CreateRxQueue(queueId: U32, index: U32, ntfyId: U32, queueResourcesAddr: U64,
                    rxDescRingAddr: U64, rxDataRingAddr: U64, queuePageListId: U32,
                    rxRingSize: U16, packetBufferSize: U16, rxBuffRingSize: U16, enableRsc: Byte)
    | DestroyTxQueue(queueId: U32)
    | DestroyRxQueue(queueId: U32)
    | DeconfigureDeviceResources
    | SetDriverParameter(parameterType: U32, parameterValue: U64)
    | ReportStats(statsReportLen: U64, statsReportAddr: U64, interval: U64)
    | ReportLinkSpeed(linkSpeedAddress: U64)
    | GetPtypeMap(ptypeMapLen: U64, ptypeMapAddr: U64)
    | VerifyDriverCompatibility(driverInfoLen: U64, driverInfoAddr: U64)

  function OpcodeOf(c: Command): Opcodes.Opcode
  {
    match c
    case DescribeDevice(_, _, _) => Opcodes.DescribeDevice
    case ConfigureDeviceResources(_, _, _, _, _, _, _) => Opcodes.ConfigureDeviceResources
    case RegisterPageList(_, _, _, _) => Opcodes.RegisterPageList
    case UnregisterPageList(_) => Opcodes.UnregisterPageList
    case CreateTxQueue(_, _, _, _, _, _, _, _) => Opcodes.CreateTxQueue
    case CreateRxQueue(_, _, _, _, _, _, _, _, _, _, _) => Opcodes.CreateRxQueue
    case DestroyTxQueue(_) => Opcodes.DestroyTxQueue
    case DestroyRxQueue(_) => Opcodes.DestroyRxQueue
    case DeconfigureDeviceResources => Opcodes.DeconfigureDeviceResources
    case SetDriverParameter(_, _) => Opcodes.SetDriverParameter
    case ReportStats(_, _, _) => Opcodes.ReportStats
    case ReportLinkSpeed(_) => Opcodes.ReportLinkSpeed
    case GetPtypeMap(_, _) => Opcodes.GetPtypeMap
    case VerifyDriverCompatibility(_, _) => Opcodes.VerifyDriverCompatibility
  }

  /** The packed member layout of each payload structure, in declaration order. */
  function PayloadLayout(op: Opcodes.Opcode): seq<Width>
  {
    match op
    case DescribeDevice => [W64, W32, W32]
    case ConfigureDeviceResources => [W64, W64, W32, W32, W32, W32, W8, WReserved(7)]
    case RegisterPageList => [W32, W32, W64, W64]
    case UnregisterPageList => [W32]
    case CreateTxQueue => [W32, WReserved(4), W64, W64, W32, W32, W64, W16, W16, WReserved(4)]
    case CreateRxQueue => [W32, W32, WReserved(4), W32, W64, W64, W64, W32, W16, W16, W16, W8, WReserved(5)]
    case DestroyTxQueue => [W32]
    case DestroyRxQueue => [W32]
    case DeconfigureDeviceResources => []
    case SetDriverParameter => [W32, WReserved(4), W64]
    case ReportStats => [W64, W64, W64]
    case ReportLinkSpeed => [W64]
    case GetPtypeMap => [W64, W64]
    case VerifyDriverCompatibility => [W64, W64]
  }

  /**
   * The sizes the header pins with static_assert. The deconfigure command
   * has no payload; `get_ptype_map` has no static_assert but is two be64s.
   */
  function DeclaredPayloadSize(op: Opcodes.Opcode): nat
  {
    match op
    case DescribeDevice => 16
    case ConfigureDeviceResources => 40
    case RegisterPageList => 24
    case UnregisterPageList => 4
    case CreateTxQueue => 48
    case CreateRxQueue => 56
    case DestroyTxQueue => 4
    case DestroyRxQueue => 4
    case DeconfigureDeviceResources => 0
    case SetDriverParameter => 16
    case ReportStats => 24
    case ReportLinkSpeed => 8
    case GetPtypeMap => 16
    case VerifyDriverCompatibility => 16
  }

  /**
   * The layouts agree with the static_assert sizes, every payload fits in the
   * 56 bytes after the opcode and status, and create_rx_queue fills them exactly.
   */
  lemma PayloadsFit(op: Opcodes.Opcode)
    ensures SizeOf(PayloadLayout(op)) == DeclaredPayloadSize(op)
    ensures SizeOf(PayloadLayout(op)) <= PAYLOAD_CAPACITY
    ensures op == Opcodes.CreateRxQueue ==> SizeOf(PayloadLayout(op)) == PAYLOAD_CAPACITY
  {
    match op
    case DescribeDevice => SizeOfDescribeDevice();
    case ConfigureDeviceResources => SizeOfConfigureDeviceResources();
    case RegisterPageList => SizeOfRegisterPageList();
    case UnregisterPageList => SizeOfUnregisterPageList();
    case CreateTxQueue => SizeOfCreateTxQueue();
    case CreateRxQueue => SizeOfCreateRxQueue();
    case DestroyTxQueue => SizeOfDestroyTxQueue();
    case DestroyRxQueue => SizeOfDestroyRxQueue();
    case DeconfigureDeviceResources => SizeOfDeconfigureDeviceResources();
    case SetDriverParameter => SizeOfSetDriverParameter();
    case ReportStats => SizeOfReportStats();
    case ReportLinkSpeed => SizeOfReportLinkSpeed();
    case GetPtypeMap => SizeOfGetPtypeMap();
    case VerifyDriverCompatibility => SizeOfVerifyDriverCompatibility();
  }

  // One evaluation per structure keeps each size computation a separate proof.
  lemma SizeOfDescribeDevice() ensures SizeOf(PayloadLayout(Opcodes.DescribeDevice)) == 16 {}
  lemma SizeOfConfigureDeviceResources() ensures SizeOf(PayloadLayout(Opcodes.ConfigureDeviceResources)) == 40 {}
  lemma SizeOfRegisterPageList() ensures SizeOf(PayloadLayout(Opcodes.RegisterPageList)) == 24 {}
  lemma SizeOfUnregisterPageList() ensures SizeOf(PayloadLayout(Opcodes.UnregisterPageList)) == 4 {}
  lemma SizeOfCreateTxQueue() ensures SizeOf(PayloadLayout(Opcodes.CreateTxQueue)) == 48 {}
  lemma SizeOfCreateRxQueue() ensures SizeOf(PayloadLayout(Opcodes.CreateRxQueue)) == 56 {}
  lemma SizeOfDestroyTxQueue() ensures SizeOf(PayloadLayout(Opcodes.DestroyTxQueue)) == 4 {}
  lemma SizeOfDestroyRxQueue() ensures SizeOf(PayloadLayout(Opcodes.DestroyRxQueue)) == 4 {}
  lemma SizeOfDeconfigureDeviceResources() ensures SizeOf(PayloadLayout(Opcodes.DeconfigureDeviceResources)) == 0 {}
  lemma SizeOfSetDriverParameter() ensures SizeOf(PayloadLayout(Opcodes.SetDriverParameter)) == 16 {}
  lemma SizeOfReportStats() ensures SizeOf(PayloadLayout(Opcodes.ReportStats)) == 24 {}
  lemma SizeOfReportLinkSpeed() ensures SizeOf(PayloadLayout(Opcodes.ReportLinkSpeed)) == 8 {}
  lemma SizeOfGetPtypeMap() ensures SizeOf(PayloadLayout(Opcodes.GetPtypeMap)) == 16 {}
  lemma SizeOfVerifyDriverCompatibility() ensures SizeOf(PayloadLayout(Opcodes.VerifyDriverCompatibility)) == 16 {}

  function PayloadFields(c: Command): (fs: seq<Field>)
    ensures Widths(fs) == PayloadLayout(OpcodeOf(c))
  {
    match c
    case DescribeDevice(addr, version, len) => [U64F(addr), U32F(version), U32F(len)]
    case ConfigureDeviceResources(counters, irqDb, numCounters, numIrqDbs, stride, msixBase, format) =>
      [U64F(counters), U64F(irqDb), U32F(numCounters), U32F(numIrqDbs), U32F(stride), U32F(msixBase),
       U8F(format), Reserved(7)]
    case RegisterPageList(id, numPages, addr, pageSize) => [U32F(id), U32F(numPages), U64F(addr), U64F(pageSize)]
    case UnregisterPageList(id) => [U32F(id)]
    case CreateTxQueue(id, res, ring, qpl, ntfy, comp, size, compSize) =>
      [U32F(id), Reserved(4), U64F(res), U64F(ring), U32F(qpl), U32F(ntfy), U64F(comp), U16F(size),
       U16F(compSize), Reserved(4)]
    case CreateRxQueue(id, index, ntfy, res, desc, data, qpl, size, bufSize, buffRingSize, rsc) =>
      [U32F(id), U32F(index), Reserved(4), U32F(ntfy), U64F(res), U64F(desc), U64F(data), U32F(qpl),
       U16F(size), U16F(bufSize), U16F(buffRingSize), U8F(rsc), Reserved(5)]
    case DestroyTxQueue(id) => [U32F(id)]
    case DestroyRxQueue(id) => [U32F(id)]
    case DeconfigureDeviceResources => []
    case SetDriverParameter(kind, value) => [U32F(kind), Reserved(4), U64F(value)]
    case ReportStats(len, addr, interval) => [U64F(len), U64F(addr), U64F(interval)]
    case ReportLinkSpeed(addr) => [U64F(addr)]
    case GetPtypeMap(len, addr) => [U64F(len), U64F(addr)]
    case VerifyDriverCompatibility(len, addr) => [U64F(len), U64F(addr)]
  }

  // Members of a decoded payload; a member of another width reads as zero.
  function U64Of(f: Field): U64 { if f.U64F? then f.d else 0 }
  function U32Of(f: Field): U32 { if f.U32F? then f.w else 0 }
  function U16Of(f: Field): U16 { if f.U16F? then f.h else 0 }
  function ByteOf(f: Field): Byte { if f.U8F? then f.b else 0 }

  /** Rebuild a payload from its decoded members. */
  function PayloadOf(op: Opcodes.Opcode, fs: seq<Field>): (c: Command)
    requires |fs| == |PayloadLayout(op)|
    ensures OpcodeOf(c) == op
  {
    match op
    case DescribeDevice => DescribeDevice(U64Of(fs[0]), U32Of(fs[1]), U32Of(fs[2]))
    case ConfigureDeviceResources => ConfigureDeviceResources(U64Of(fs[0]), U64Of(fs[1]), U32Of(fs[2]), U32Of(fs[3]), U32Of(fs[4]), U32Of(fs[5]), ByteOf(fs[6]))
    case RegisterPageList => RegisterPageList(U32Of(fs[0]), U32Of(fs[1]), U64Of(fs[2]), U64Of(fs[3]))
    case UnregisterPageList => UnregisterPageList(U32Of(fs[0]))
    case CreateTxQueue => CreateTxQueue(U32Of(fs[0]), U64Of(fs[2]), U64Of(fs[3]), U32Of(fs[4]), U32Of(fs[5]), U64Of(fs[6]), U16Of(fs[7]), U16Of(fs[8]))
    case CreateRxQueue =>
      CreateRxQueue(U32Of(fs[0]), U32Of(fs[1]), U32Of(fs[3]), U64Of(fs[4]), U64Of(fs[5]), U64Of(fs[6]), U32Of(fs[7]), U16Of(fs[8]), U16Of(fs[9]), U16Of(fs[10]), ByteOf(fs[11]))
    case DestroyTxQueue => DestroyTxQueue(U32Of(fs[0]))
    case DestroyRxQueue => DestroyRxQueue(U32Of(fs[0]))
    case DeconfigureDeviceResources => DeconfigureDeviceResources
    case SetDriverParameter => SetDriverParameter(U32Of(fs[0]), U64Of(fs[2]))
    case ReportStats => ReportStats(U64Of(fs[0]), U64Of(fs[1]), U64Of(fs[2]))
    case ReportLinkSpeed => ReportLinkSpeed(U64Of(fs[0]))
    case GetPtypeMap => GetPtypeMap(U64Of(fs[0]), U64Of(fs[1]))
    case VerifyDriverCompatibility => VerifyDriverCompatibility(U64Of(fs[0]), U64Of(fs[1]))
  }

  lemma PayloadOfFields(c: Command)
    ensures PayloadOf(OpcodeOf(c), PayloadFields(c)) == c
  {
  }

  /**
   * Serialise a command the way the encoders build it: the record is zeroed
   * (memset), the opcode and payload are stored big-endian, and the status
   * stays UNSET until the device writes it.
   */
  function Encode(c: Command): (r: seq<Byte>)
    ensures |r| == COMMAND_SIZE
    ensures ReadBe32(r, 0) == Opcodes.OpcodeValue(OpcodeOf(c))
    ensures ReadBe32(r, 4) == Opcodes.STATUS_UNSET
    ensures forall i :: HEADER_SIZE + DeclaredPayloadSize(OpcodeOf(c)) <= i < COMMAND_SIZE ==> r[i] == 0
  {
    EncodeParts(c);
    Be32(Opcodes.OpcodeValue(OpcodeOf(c))) + Be32(Opcodes.STATUS_UNSET) + EncodedPayload(c)
  }

  /** The 56 bytes after the header: the payload structure, then zeros. */
  function EncodedPayload(c: Command): (r: seq<Byte>)
    ensures |r| == PAYLOAD_CAPACITY
  {
    PayloadsFit(OpcodeOf(c));
    EncodeFields(PayloadFields(c)) + Zeros(PAYLOAD_CAPACITY - DeclaredPayloadSize(OpcodeOf(c)))
  }

  lemma EncodeParts(c: Command)
    ensures var r := Be32(Opcodes.OpcodeValue(OpcodeOf(c))) + Be32(Opcodes.STATUS_UNSET) + EncodedPayload(c);
      |r| == COMMAND_SIZE && r[HEADER_SIZE..] == EncodedPayload(c) &&
      ReadBe32(r, 0) == Opcodes.OpcodeValue(OpcodeOf(c)) && ReadBe32(r, 4) == Opcodes.STATUS_UNSET &&
      forall i :: HEADER_SIZE + DeclaredPayloadSize(OpcodeOf(c)) <= i < COMMAND_SIZE ==> r[i] == 0
  {
    PayloadsFit(OpcodeOf(c));
    var r := Be32(Opcodes.OpcodeValue(OpcodeOf(c))) + Be32(Opcodes.STATUS_UNSET) + EncodedPayload(c);
    TwoWordsThen(Opcodes.OpcodeValue(OpcodeOf(c)), Opcodes.STATUS_UNSET, EncodedPayload(c));
    forall i | HEADER_SIZE + DeclaredPayloadSize(OpcodeOf(c)) <= i < COMMAND_SIZE ensures r[i] == 0 {
      assert r[i] == r[HEADER_SIZE..][i - HEADER_SIZE];
    }
  }

  /** The status word of a command slot. */
  function StatusWord(r: seq<Byte>): U32
    requires |r| == COMMAND_SIZE
  {
    ReadBe32(r, 4)
  }

  /** Read a record back: an unknown opcode yields None, reserved bytes are ignored. */
  function Decode(r: seq<Byte>): (c: Option<Command>)
    requires |r| == COMMAND_SIZE
    ensures c.Some? <==> Opcodes.OpcodeOf(ReadBe32(r, 0)).Some?
    ensures c.Some? ==> Opcodes.OpcodeValue(OpcodeOf(c.value)) == ReadBe32(r, 0)
  {
    match Opcodes.OpcodeOf(ReadBe32(r, 0))
    case None => None
    case Some(op) =>
      PayloadsFit(op);
      Some(PayloadOf(op, DecodeFields(PayloadLayout(op), r[HEADER_SIZE..])))
  }

  /** Every command survives serialisation: decode(encode(c)) == c, for all field values. */
  lemma DecodeEncode(c: Command)
    ensures Decode(Encode(c)) == Some(c)
  {
    var op := OpcodeOf(c);
    PayloadsFit(op);
    Opcodes.OpcodeRoundTrip(op);
    EncodeParts(c);
    DecodeEncodeFields(PayloadFields(c), Zeros(PAYLOAD_CAPACITY - DeclaredPayloadSize(op)));
    PayloadOfFields(c);
  }

  /** Different commands serialise to different records. */
  lemma EncodeInjective(c: Command, d: Command)
    requires Encode(c) == Encode(d)
    ensures c == d
  {
    DecodeEncode(c);
    DecodeEncode(d);
  }
}
