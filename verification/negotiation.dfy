/**
 * What `gve_adminq_describe_device` does with the descriptor once the
 * device has written it: select the queue format from the options, copy
 * the header values into the driver's capabilities, enable jumbo frames
 * when both the option and the feature bit are present, and clamp the
 * ring sizes to the driver's maximum.
 */
module Negotiation {
  import opened Wire
  import opened Errno
  import opened Descriptor
  import opened OptionWalk

  /** `priv->queue_format`; GQI-QPL is the only format this driver negotiates. */
  datatype QueueFormat = Unspecified | GqiQpl

  /** The members of the driver's private state that negotiation writes. */
  datatype Capabilities = Capabilities(
    maxRxDescCnt: U16,
    maxTxDescCnt: U16,
    queueFormat: QueueFormat,
    supportedFeatures: U32,
    numEventCounters: U16,
    defaultNumQueues: U16,
    txDescCnt: U16,
    rxDescCnt: U16,
    rxPagesPerQpl: U16,
    maxRegisteredPages: U64,
    maxMtu: U16,
    mac: MacAddress)

  function Min(a: U16, b: U16): (m: U16)
    ensures m <= a && m <= b && (m == a || m == b)
  {
    if a < b then a else b
  }

  /** The `supported_features_mask` at the front of an accepted option body. */
  function SupportedFeaturesAt(buf: seq<Byte>, body: nat): U32
    requires body + 4 <= |buf|
  {
    ReadBe32(buf, body)
  }

  /** `max_mtu`, four bytes into an accepted jumbo-frames body. */
  function MaxMtuAt(buf: seq<Byte>, body: nat): U16
    requires body + JUMBO_FRAMES_OPTION_SIZE <= |buf|
  {
    ReadBe16(buf, body + 4)
  }

  /** Bit test of `mask & GVE_SUP_JUMBO_FRAMES_MASK`. */
  predicate JumboFramesSupported(mask: U32)
  {
    (mask as bv32) & (SUP_JUMBO_FRAMES_MASK as bv32) != 0
  }

  /**
   * `gve_enable_supported_features`: the jumbo-frames option raises the
   * maximum MTU only when the queue-format option also advertises jumbo
   * frames in its supported-features mask.
   */
  function EnableSupportedFeatures(caps: Capabilities, buf: seq<Byte>, mask: U32, jumbo: Option<nat>): (r: Capabilities)
    requires jumbo.Some? ==> jumbo.value + JUMBO_FRAMES_OPTION_SIZE <= |buf|
    ensures jumbo.Some? && JumboFramesSupported(mask) ==> r == caps.(maxMtu := MaxMtuAt(buf, jumbo.value))
    ensures !(jumbo.Some? && JumboFramesSupported(mask)) ==> r == caps
  {
    if jumbo.Some? && JumboFramesSupported(mask) then caps.(maxMtu := MaxMtuAt(buf, jumbo.value)) else caps
  }

  /** Bit 2 of the mask, stated without bit-vectors. */
  lemma JumboFramesBit(mask: U32)
    ensures JumboFramesSupported(mask) <==> (mask / 4) % 2 == 1
  {
    BitTwoOfWord(mask as bv32);
    LowBitOfShift(mask);
  }

  lemma BitTwoOfWord(b: bv32)
    ensures b & 4 != 0 <==> (b >> 2) & 1 == 1
  {
  }

  lemma LowBitOfShift(mask: U32)
    ensures ((mask as bv32 >> 2) & 1) as int == (mask / 4) % 2
  {
  }

  /** The part of negotiation that only reads the descriptor: the result code and the new capabilities. */
  datatype Negotiated = Negotiated(rc: Rc, caps: Capabilities)

  /**
   * Everything after a successful describe-device command. The ring maxima
   * are set before the walk, so they are updated even when the walk fails
   * or finds no queue format.
   */
  function Negotiate(caps: Capabilities, buf: seq<Byte>, maxRingSize: U16): (r: Negotiated)
    requires DESCRIPTOR_SIZE <= |buf|
    ensures r.rc == Ok <==> ProcessDeviceOptions(buf).Success? && ProcessDeviceOptions(buf).value.gqiQpl.Some?
    ensures r.rc != Ok ==> r.rc == EINVAL && r.caps == caps.(maxRxDescCnt := maxRingSize, maxTxDescCnt := maxRingSize)
    ensures r.caps.maxRxDescCnt == maxRingSize && r.caps.maxTxDescCnt == maxRingSize
    ensures r.rc == Ok ==>
              var sel := ProcessDeviceOptions(buf).value;
              var desc := ParseDescriptor(buf);
              && r.caps.queueFormat == GqiQpl
              && r.caps.supportedFeatures == SupportedFeaturesAt(buf, sel.gqiQpl.value)
              && r.caps.rxDescCnt == Min(desc.rxQueueEntries, maxRingSize)
              && r.caps.txDescCnt == Min(desc.txQueueEntries, maxRingSize)
              && r.caps.numEventCounters == desc.counters
              && r.caps.defaultNumQueues == desc.defaultNumQueues
              && r.caps.rxPagesPerQpl == desc.rxPagesPerQpl
              && r.caps.maxRegisteredPages == desc.maxRegisteredPages
              && r.caps.mac == desc.mac
              && (sel.jumboFrames.Some? && JumboFramesSupported(r.caps.supportedFeatures) ==>
                    r.caps.maxMtu == MaxMtuAt(buf, sel.jumboFrames.value))
              && (!(sel.jumboFrames.Some? && JumboFramesSupported(r.caps.supportedFeatures)) ==>
                    r.caps.maxMtu == desc.mtu)
  {
    var caps1 := caps.(maxRxDescCnt := maxRingSize, maxTxDescCnt := maxRingSize);
    match ProcessDeviceOptions(buf)
    case Failure(e) => Negotiated(e, caps1)
    case Success(sel) =>
      if sel.gqiQpl.None? then Negotiated(EINVAL, caps1)
      else
        var desc := ParseDescriptor(buf);
        var mask := SupportedFeaturesAt(buf, sel.gqiQpl.value);
        var caps2 := caps1.(
          queueFormat := GqiQpl,
          supportedFeatures := mask,
          numEventCounters := desc.counters,
          defaultNumQueues := desc.defaultNumQueues,
          txDescCnt := desc.txQueueEntries,
          rxDescCnt := desc.rxQueueEntries,
          rxPagesPerQpl := desc.rxPagesPerQpl,
          maxRegisteredPages := desc.maxRegisteredPages,
          maxMtu := desc.mtu);
        var caps3 := EnableSupportedFeatures(caps2, buf, mask, sel.jumboFrames);
        var caps4 := caps3.(
          rxDescCnt := if caps3.maxRxDescCnt < caps3.rxDescCnt then caps3.maxRxDescCnt else caps3.rxDescCnt);
        var caps5 := caps4.(
          txDescCnt := if caps4.maxTxDescCnt < caps4.txDescCnt then caps4.maxTxDescCnt else caps4.txDescCnt);
        Negotiated(Ok, caps5.(mac := desc.mac))
  }

  /** Negotiation succeeds exactly when the walk succeeds with a GQI-QPL option accepted somewhere in the chain. */
  lemma NegotiationNeedsAcceptedQpl(caps: Capabilities, buf: seq<Byte>, maxRingSize: U16)
    requires DESCRIPTOR_SIZE <= |buf| && TotalLength(buf) <= |buf|
    requires OptionOffsets(buf, TotalLength(buf), NumDeviceOptions(buf), DESCRIPTOR_SIZE).Some?
    requires var offs := OptionOffsets(buf, TotalLength(buf), NumDeviceOptions(buf), DESCRIPTOR_SIZE).value;
             forall i :: 0 <= i < |offs| ==> !AcceptsGqiQpl(ParseOptionHeader(buf, offs[i]))
    ensures Negotiate(caps, buf, maxRingSize).rc == EINVAL
  {
    var total := TotalLength(buf);
    var offs := OptionOffsets(buf, total, NumDeviceOptions(buf), DESCRIPTOR_SIZE).value;
    WalkIsChainThenFold(buf, total, NumDeviceOptions(buf), DESCRIPTOR_SIZE, NoneSelected);
    NoneAcceptedKeepsSelection(buf, offs, NoneSelected);
  }

  // ---- the two describe-device scenarios ----

  /** A descriptor header announcing `num` options and `total` bytes, followed by the options. */
  function DescriptorWith(num: U16, total: U16, options: seq<Byte>): (buf: seq<Byte>)
    ensures |buf| == DESCRIPTOR_SIZE + |options|
    ensures NumDeviceOptions(buf) == num && TotalLength(buf) == total
    ensures buf[DESCRIPTOR_SIZE..] == options
  {
    var head := Zeros(30) + Be16(num) + Be16(total) + Zeros(6);
    assert head[30..32] == Be16(num) && head[32..34] == Be16(total);
    var buf := head + options;
    ReadBe16Suffix(Zeros(30), Be16(num) + Be16(total) + Zeros(6), 0);
    ReadBe16Suffix(Zeros(30), Be16(num) + Be16(total) + Zeros(6), 2);
    assert head == Zeros(30) + (Be16(num) + Be16(total) + Zeros(6));
    ReadBe16Suffix(Zeros(30) + Be16(num), Be16(total) + Zeros(6), 0);
    ReadBe16Prefix(head, options, 30);
    ReadBe16Prefix(head, options, 32);
    ReadBe16Prefix(Be16(num), Be16(total) + Zeros(6), 0);
    ReadBe16Prefix(Be16(total), Zeros(6), 0);
    assert head[DESCRIPTOR_SIZE..] == [];
    buf
  }

  /** One GQI-QPL option: length 4, required-features mask 0, and a body holding `mask`. */
  function QplOption(mask: U32): (o: seq<Byte>)
    ensures |o| == OPTION_HEADER_SIZE + GQI_QPL_OPTION_SIZE
  {
    Be16(OPT_ID_GQI_QPL) + Be16(4) + Be32(REQ_FEAT_MASK_GQI_QPL) + Be32(mask)
  }

  /** A descriptor with one matching GQI-QPL option negotiates the GQI-QPL format. */
  lemma OneQplOptionSucceeds(caps: Capabilities, mask: U32, maxRingSize: U16)
    ensures var buf := DescriptorWith(1, 52, QplOption(mask));
            && ProcessDeviceOptions(buf) == Success(Selected(Some(48), None))
            && Negotiate(caps, buf, maxRingSize).rc == Ok
            && Negotiate(caps, buf, maxRingSize).caps.queueFormat == GqiQpl
            && Negotiate(caps, buf, maxRingSize).caps.supportedFeatures == mask
  {
    var o := QplOption(mask);
    var buf := DescriptorWith(1, 52, o);
    var hdr := Be16(OPT_ID_GQI_QPL) + Be16(4) + Be32(REQ_FEAT_MASK_GQI_QPL);
    assert o == hdr + Be32(mask);
    assert buf == buf[..DESCRIPTOR_SIZE] + o;
    ReadBe16Prefix(Be16(OPT_ID_GQI_QPL), Be16(4) + Be32(REQ_FEAT_MASK_GQI_QPL), 0);
    ReadBe16Suffix(Be16(OPT_ID_GQI_QPL), Be16(4) + Be32(REQ_FEAT_MASK_GQI_QPL), 0);
    ReadBe16Prefix(Be16(4), Be32(REQ_FEAT_MASK_GQI_QPL), 0);
    ReadBe32Suffix(Be16(OPT_ID_GQI_QPL) + Be16(4), Be32(REQ_FEAT_MASK_GQI_QPL), 0);
    assert hdr == Be16(OPT_ID_GQI_QPL) + (Be16(4) + Be32(REQ_FEAT_MASK_GQI_QPL));
    ReadBe16Prefix(hdr, Be32(mask), 0);
    ReadBe16Prefix(hdr, Be32(mask), 2);
    ReadBe32Prefix(hdr, Be32(mask), 4);
    ReadBe32Suffix(hdr, Be32(mask), 0);
    assert buf == buf[..DESCRIPTOR_SIZE] + o;
    ReadBe16Suffix(buf[..DESCRIPTOR_SIZE], o, 0);
    ReadBe16Suffix(buf[..DESCRIPTOR_SIZE], o, 2);
    ReadBe32Suffix(buf[..DESCRIPTOR_SIZE], o, 4);
    ReadBe32Suffix(buf[..DESCRIPTOR_SIZE], o, 8);
  }

  /** The same descriptor announcing no options has no compatible queue format. */
  lemma NoOptionsFails(caps: Capabilities, mask: U32, maxRingSize: U16)
    ensures var buf := DescriptorWith(0, 52, QplOption(mask));
            Negotiate(caps, buf, maxRingSize).rc == EINVAL
  {
  }

  /**
   * A `total_length` shorter than the options it announces: the option
   * ends at byte 52 but the descriptor claims 51, so negotiation fails.
   */
  lemma TruncatedTotalLengthFails(caps: Capabilities, mask: U32, maxRingSize: U16)
    ensures var buf := DescriptorWith(1, 51, QplOption(mask));
            ProcessDeviceOptions(buf) == Failure(EINVAL) && Negotiate(caps, buf, maxRingSize).rc == EINVAL
  {
    var o := QplOption(mask);
    var buf := DescriptorWith(1, 51, o);
    assert o == Be16(OPT_ID_GQI_QPL) + (Be16(4) + Be32(REQ_FEAT_MASK_GQI_QPL) + Be32(mask));
    ReadBe16Prefix(Be16(4), Be32(REQ_FEAT_MASK_GQI_QPL) + Be32(mask), 0);
    ReadBe16Suffix(Be16(OPT_ID_GQI_QPL), Be16(4) + Be32(REQ_FEAT_MASK_GQI_QPL) + Be32(mask), 0);
    assert buf == buf[..DESCRIPTOR_SIZE] + o;
    ReadBe16Suffix(buf[..DESCRIPTOR_SIZE], o, 2);
  }
}
