/**
 * The device descriptor the device writes in answer to DESCRIBE_DEVICE,
 * and the option records that follow it: a 40-byte header, then
 * `num_device_options` records of an 8-byte option header and a body.
 */
module Descriptor {
  import opened Wire
  import opened Layout

  const DESCRIPTOR_SIZE: nat := 40
  const OPTION_HEADER_SIZE: nat := 8
  const DEVICE_DESCRIPTOR_VERSION: U32 := 1

  // `enum gve_dev_opt_id`
  const OPT_ID_GQI_RAW_ADDRESSING: U16 := 0x1
  const OPT_ID_GQI_RDA: U16 := 0x2
  const OPT_ID_GQI_QPL: U16 := 0x3
  const OPT_ID_DQO_RDA: U16 := 0x4
  const OPT_ID_MODIFY_RING: U16 := 0x6
  const OPT_ID_JUMBO_FRAMES: U16 := 0x8

  // `enum gve_dev_opt_req_feat_mask`: no option requires a feature of the driver.
  const REQ_FEAT_MASK_GQI_RAW_ADDRESSING: U32 := 0x0
  const REQ_FEAT_MASK_GQI_RDA: U32 := 0x0
  const REQ_FEAT_MASK_GQI_QPL: U32 := 0x0
  const REQ_FEAT_MASK_DQO_RDA: U32 := 0x0
  const REQ_FEAT_MASK_MODIFY_RING: U32 := 0x0
  const REQ_FEAT_MASK_JUMBO_FRAMES: U32 := 0x0

  // `enum gve_sup_feature_mask`
  const SUP_MODIFY_RING_MASK: U32 := 1     // 1 << 0
  const SUP_JUMBO_FRAMES_MASK: U32 := 4    // 1 << 2

  type MacAddress = m: seq<Byte> | |m| == 6 witness [0, 0, 0, 0, 0, 0]

  /** `struct gve_device_descriptor`, without its reserved members. */
  datatype DeviceDescriptor = DeviceDescriptor(
    maxRegisteredPages: U64,
    txQueueEntries: U16,
    rxQueueEntries: U16,
    defaultNumQueues: U16,
    mtu: U16,
    counters: U16,
    rxPagesPerQpl: U16,
    mac: MacAddress,
    numDeviceOptions: U16,
    totalLength: U16)

  /** The members before `num_device_options`. */
  const DescriptorHead: seq<Width> :=
    [W64, WReserved(2)]               // max_registered_pages, reserved1
    + [W16, W16]                      // tx_queue_entries, rx_queue_entries
    + [W16, W16]                      // default_num_queues, mtu
    + [W16, WReserved(2)]             // counters, reserved2
    + [W16]                           // rx_pages_per_qpl
    + [W8, W8] + [W8, W8] + [W8, W8]  // mac

  const DescriptorLayout: seq<Width> :=
    DescriptorHead
    + [W16]                           // num_device_options
    + [W16, WReserved(6)]             // total_length, reserved3

  const NUM_DEVICE_OPTIONS_MEMBER: nat := 15
  const TOTAL_LENGTH_MEMBER: nat := 16

  /** The descriptor header is 40 bytes; the option count sits at byte 30 and the total length at byte 32. */
  lemma DescriptorLayoutFacts()
    ensures |DescriptorLayout| == 18
    ensures SizeOf(DescriptorLayout) == DESCRIPTOR_SIZE
    ensures OffsetOf(DescriptorLayout, NUM_DEVICE_OPTIONS_MEMBER) == 30
    ensures OffsetOf(DescriptorLayout, TOTAL_LENGTH_MEMBER) == 32
    ensures DescriptorLayout[NUM_DEVICE_OPTIONS_MEMBER] == W16 && DescriptorLayout[TOTAL_LENGTH_MEMBER] == W16
  {
    DescriptorHeadSize();
    var withCount := DescriptorHead + [W16];
    SizeOfAppend(DescriptorHead, [W16]);
    SizeOfAppend(withCount, [W16, WReserved(6)]);
    assert DescriptorLayout == withCount + [W16, WReserved(6)];
    assert DescriptorLayout[..15] == DescriptorHead;
    assert DescriptorLayout[..16] == withCount;
  }

  lemma DescriptorHeadSize()
    ensures |DescriptorHead| == 15 && SizeOf(DescriptorHead) == 30
  {
    var a := [W64, WReserved(2)] + [W16, W16];
    var b := a + [W16, W16];
    var c := b + [W16, WReserved(2)];
    var d := c + [W16];
    var e := d + [W8, W8];
    var f := e + [W8, W8];
    SizeOfAppend([W64, WReserved(2)], [W16, W16]);
    SizeOfAppend(a, [W16, W16]);
    SizeOfAppend(b, [W16, WReserved(2)]);
    SizeOfAppend(c, [W16]);
    SizeOfAppend(d, [W8, W8]);
    SizeOfAppend(e, [W8, W8]);
    SizeOfAppend(f, [W8, W8]);
  }

  /**
   * Read the descriptor header at the front of the descriptor buffer. The
   * byte offsets are those of `DescriptorLayout`; `HeaderReadsAgree` checks
   * the two counts the option walk relies on against the layout.
   */
  function ParseDescriptor(buf: seq<Byte>): (d: DeviceDescriptor)
    requires DESCRIPTOR_SIZE <= |buf|
    ensures d.numDeviceOptions == NumDeviceOptions(buf) && d.totalLength == TotalLength(buf)
    ensures d.mac == buf[24..30]
  {
    DeviceDescriptor(
      ReadBe64(buf, 0), ReadBe16(buf, 10), ReadBe16(buf, 12), ReadBe16(buf, 14), ReadBe16(buf, 16),
      ReadBe16(buf, 18), ReadBe16(buf, 22), buf[24..30], ReadBe16(buf, 30), ReadBe16(buf, 32))
  }

  /** The descriptor depends on its 40-byte header alone, not on the option records after it. */
  lemma ParseDescriptorReadsHeader(buf: seq<Byte>, more: seq<Byte>)
    requires DESCRIPTOR_SIZE <= |buf|
    ensures ParseDescriptor(buf + more) == ParseDescriptor(buf)
    ensures ParseDescriptor(buf) == ParseDescriptor(buf[..DESCRIPTOR_SIZE])
  {
    assert (buf + more)[24..30] == buf[24..30] == buf[..DESCRIPTOR_SIZE][24..30];
  }

  /** `be16toh(descriptor->num_device_options)` */
  function NumDeviceOptions(buf: seq<Byte>): U16
    requires DESCRIPTOR_SIZE <= |buf|
  {
    ReadBe16(buf, 30)
  }

  /** `be16toh(descriptor->total_length)` */
  function TotalLength(buf: seq<Byte>): U16
    requires DESCRIPTOR_SIZE <= |buf|
  {
    ReadBe16(buf, 32)
  }

  /** The fixed-offset reads the option walk uses agree with the structure layout. */
  lemma HeaderReadsAgree(buf: seq<Byte>)
    requires DESCRIPTOR_SIZE <= |buf|
    ensures SizeOf(DescriptorLayout) <= |buf|
    ensures DecodeFields(DescriptorLayout, buf)[NUM_DEVICE_OPTIONS_MEMBER] == U16F(NumDeviceOptions(buf))
    ensures DecodeFields(DescriptorLayout, buf)[TOTAL_LENGTH_MEMBER] == U16F(TotalLength(buf))
    ensures ParseDescriptor(buf).numDeviceOptions == NumDeviceOptions(buf)
    ensures ParseDescriptor(buf).totalLength == TotalLength(buf)
  {
    DescriptorLayoutFacts();
    DecodeFieldsIndex(DescriptorLayout, buf, NUM_DEVICE_OPTIONS_MEMBER);
    DecodeFieldsIndex(DescriptorLayout, buf, TOTAL_LENGTH_MEMBER);
  }

  /** `struct gve_device_option` */
  datatype OptionHeader = OptionHeader(optionId: U16, optionLength: U16, requiredFeaturesMask: U32)

  const OptionHeaderLayout: seq<Width> := [W16, W16, W32]

  lemma OptionHeaderSize() ensures SizeOf(OptionHeaderLayout) == OPTION_HEADER_SIZE {}

  function OptionHeaderFields(h: OptionHeader): (fs: seq<Field>)
    ensures Widths(fs) == OptionHeaderLayout
  {
    [U16F(h.optionId), U16F(h.optionLength), U32F(h.requiredFeaturesMask)]
  }

  function EncodeOptionHeader(h: OptionHeader): (r: seq<Byte>)
    ensures |r| == OPTION_HEADER_SIZE
  {
    OptionHeaderSize();
    EncodeFields(OptionHeaderFields(h))
  }

  /** Read the option header at byte `off` of the descriptor buffer. */
  function ParseOptionHeader(buf: seq<Byte>, off: nat): OptionHeader
    requires off + OPTION_HEADER_SIZE <= |buf|
  {
    OptionHeader(ReadBe16(buf, off), ReadBe16(buf, off + 2), ReadBe32(buf, off + 4))
  }

  /** The header read is the decoding of `struct gve_device_option`'s members at `off`. */
  lemma ParseOptionHeaderDecodes(buf: seq<Byte>, off: nat)
    requires off + OPTION_HEADER_SIZE <= |buf|
    ensures SizeOf(OptionHeaderLayout) <= |buf[off..]|
    ensures DecodeFields(OptionHeaderLayout, buf[off..]) == OptionHeaderFields(ParseOptionHeader(buf, off))
  {
    OptionHeaderSize();
    var s := buf[off..];
    DecodeFieldsCons(OptionHeaderLayout, s);
    DecodeFieldsCons(OptionHeaderLayout[1..], s[2..]);
    DecodeFieldsCons(OptionHeaderLayout[2..], s[4..]);
    assert OptionHeaderLayout[1..][1..] == OptionHeaderLayout[2..];
    assert s[2..][2..] == s[4..];
  }

  /** An option header reads back from wherever it is placed. */
  lemma OptionHeaderRoundTrip(h: OptionHeader, pre: seq<Byte>, post: seq<Byte>)
    ensures |pre| + OPTION_HEADER_SIZE <= |pre + EncodeOptionHeader(h) + post|
    ensures ParseOptionHeader(pre + EncodeOptionHeader(h) + post, |pre|) == h
  {
    var e := EncodeOptionHeader(h);
    var buf := pre + e + post;
    assert buf[|pre|..] == e + post;
    DecodeEncodeFields(OptionHeaderFields(h), post);
    ParseOptionHeaderDecodes(buf, |pre|);
    OptionHeaderFieldsInjective(ParseOptionHeader(buf, |pre|), h);
  }

  lemma OptionHeaderFieldsInjective(a: OptionHeader, b: OptionHeader)
    requires OptionHeaderFields(a) == OptionHeaderFields(b)
    ensures a == b
  {
    assert OptionHeaderFields(a)[0] == OptionHeaderFields(b)[0];
    assert OptionHeaderFields(a)[1] == OptionHeaderFields(b)[1];
    assert OptionHeaderFields(a)[2] == OptionHeaderFields(b)[2];
  }

  // Option bodies. Each begins with `supported_features_mask`.
  const GQI_QPL_OPTION_SIZE: nat := 4
  const JUMBO_FRAMES_OPTION_SIZE: nat := 8
  const JumboFramesLayout: seq<Width> := [W32, W16, WReserved(2)]   // mask, max_mtu, padding
  const ModifyRingLayout: seq<Width> := [W32, W16, W16]             // mask, max rx/tx ring size

  /** The option bodies have the sizes the header pins, and `max_mtu` is at byte 4 of a jumbo-frames body. */
  lemma OptionBodyFacts()
    ensures SizeOf([W32]) == GQI_QPL_OPTION_SIZE
    ensures SizeOf(JumboFramesLayout) == JUMBO_FRAMES_OPTION_SIZE
    ensures SizeOf(ModifyRingLayout) == 8
    ensures OffsetOf(JumboFramesLayout, 1) == 4 && JumboFramesLayout[1] == W16
  {
    assert JumboFramesLayout[..1] == [W32];
  }
}
