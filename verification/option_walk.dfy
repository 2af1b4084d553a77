/**
 * The walk over the device options that follow the descriptor header
 * (`gve_get_next_option`, `gve_parse_device_option`,
 * `gve_process_device_options`). An address into the descriptor buffer
 * is a byte offset here; an accepted option is remembered by the offset of
 * its body, the address the driver keeps.
 */
module OptionWalk {
  import opened Wire
  import opened Errno
  import opened Descriptor

  /** The options accepted so far: offsets of the GQI-QPL and jumbo-frames bodies. */
  datatype Selected = Selected(gqiQpl: Option<nat>, jumboFrames: Option<nat>)

  const NoneSelected: Selected := Selected(None, None)

  /** Every accepted body lies, whole, below `limit`. */
  predicate BodiesWithin(sel: Selected, limit: nat)
  {
    && (sel.gqiQpl.Some? ==> sel.gqiQpl.value + GQI_QPL_OPTION_SIZE <= limit)
    && (sel.jumboFrames.Some? ==> sel.jumboFrames.value + JUMBO_FRAMES_OPTION_SIZE <= limit)
  }

  /**
   * `gve_get_next_option`: the offset just past the option at `off`, or
   * None when that end lies beyond the descriptor's `total_length`.
   */
  function NextOption(total: U16, off: nat, optionLength: U16): (next: Option<nat>)
    ensures next.None? <==> off + OPTION_HEADER_SIZE + optionLength > total
    ensures next.Some? ==> next.value == off + OPTION_HEADER_SIZE + optionLength
    ensures next.Some? ==> off + OPTION_HEADER_SIZE <= next.value <= total
  {
    var optionEnd := off + OPTION_HEADER_SIZE + optionLength;
    if optionEnd > total then None else Some(optionEnd)
  }

  /** Whether an option with this header enables its feature (length and required-feature mask both fit). */
  predicate AcceptsGqiQpl(h: OptionHeader)
  {
    h.optionId == OPT_ID_GQI_QPL && h.optionLength >= GQI_QPL_OPTION_SIZE
    && h.requiredFeaturesMask == REQ_FEAT_MASK_GQI_QPL
  }

  predicate AcceptsJumboFrames(h: OptionHeader)
  {
    h.optionId == OPT_ID_JUMBO_FRAMES && h.optionLength >= JUMBO_FRAMES_OPTION_SIZE
    && h.requiredFeaturesMask == REQ_FEAT_MASK_JUMBO_FRAMES
  }

  /**
   * `gve_parse_device_option` for the option whose header is at `off`: a
   * recognised option that passes its checks replaces the earlier choice;
   * anything else leaves the choice as it was. A body longer than expected
   * is accepted.
   */
  function ParseDeviceOption(h: OptionHeader, off: nat, sel: Selected): (r: Selected)
    ensures h.optionId != OPT_ID_GQI_QPL && h.optionId != OPT_ID_JUMBO_FRAMES ==> r == sel
    ensures AcceptsGqiQpl(h) ==> r == sel.(gqiQpl := Some(off + OPTION_HEADER_SIZE))
    ensures AcceptsJumboFrames(h) ==> r == sel.(jumboFrames := Some(off + OPTION_HEADER_SIZE))
    ensures !AcceptsGqiQpl(h) && !AcceptsJumboFrames(h) ==> r == sel
  {
    if h.optionId == OPT_ID_GQI_QPL then
      if h.optionLength < GQI_QPL_OPTION_SIZE || h.requiredFeaturesMask != REQ_FEAT_MASK_GQI_QPL then sel
      else sel.(gqiQpl := Some(off + OPTION_HEADER_SIZE))
    else if h.optionId == OPT_ID_JUMBO_FRAMES then
      if h.optionLength < JUMBO_FRAMES_OPTION_SIZE || h.requiredFeaturesMask != REQ_FEAT_MASK_JUMBO_FRAMES then sel
      else sel.(jumboFrames := Some(off + OPTION_HEADER_SIZE))
    else sel
  }

  /**
   * The remaining `remaining` options, the next at `off`, inside a
   * descriptor of `total` bytes. A header that would begin past `total`
   * ends the walk with EINVAL without being read (its end could not be
   * within `total` either).
   */
  function Walk(buf: seq<Byte>, total: U16, remaining: nat, off: nat, sel: Selected): (r: Result<Selected>)
    requires total <= |buf|
    requires BodiesWithin(sel, total)
    ensures r.Failure? ==> r.error == EINVAL
    ensures r.Success? ==> BodiesWithin(r.value, total)
    decreases remaining
  {
    if remaining == 0 then Success(sel)
    else if off + OPTION_HEADER_SIZE > total then Failure(EINVAL)
    else
      var h := ParseOptionHeader(buf, off);
      match NextOption(total, off, h.optionLength)
      case None => Failure(EINVAL)
      case Some(next) => Walk(buf, total, remaining - 1, next, ParseDeviceOption(h, off, sel))
  }

  /**
   * `gve_process_device_options`: walk `num_device_options` options from
   * byte 40. A descriptor whose `total_length` exceeds the buffer it was
   * written into is rejected before the walk.
   */
  function ProcessDeviceOptions(buf: seq<Byte>): (r: Result<Selected>)
    requires DESCRIPTOR_SIZE <= |buf|
    ensures r.Failure? ==> r.error == EINVAL
    ensures r.Success? ==> BodiesWithin(r.value, TotalLength(buf)) && BodiesWithin(r.value, |buf|)
  {
    var total := TotalLength(buf);
    if total > |buf| then Failure(EINVAL)
    else Walk(buf, total, NumDeviceOptions(buf), DESCRIPTOR_SIZE, NoneSelected)
  }

  /** The same walk, as the driver's loop over the option cursor. */
  method ProcessDeviceOptionsLoop(buf: seq<Byte>) returns (r: Result<Selected>)
    requires DESCRIPTOR_SIZE <= |buf|
    ensures r == ProcessDeviceOptions(buf)
  {
    var total := TotalLength(buf);
    if total > |buf| {
      return Failure(EINVAL);
    }
    var numOptions: nat := NumDeviceOptions(buf);
    var off: nat := DESCRIPTOR_SIZE;
    var sel := NoneSelected;
    var i: nat := 0;
    while i < numOptions
      invariant 0 <= i <= numOptions
      invariant BodiesWithin(sel, total)
      invariant Walk(buf, total, numOptions - i, off, sel) == ProcessDeviceOptions(buf)
    {
      if off + OPTION_HEADER_SIZE > total {
        return Failure(EINVAL);
      }
      var h := ParseOptionHeader(buf, off);
      var next := NextOption(total, off, h.optionLength);
      if next.None? {
        return Failure(EINVAL);
      }
      sel := ParseDeviceOption(h, off, sel);
      off := next.value;
      i := i + 1;
    }
    return Success(sel);
  }

  // ---- a reference definition: the chain of option offsets, then a fold ----

  /**
   * The offsets of the `n` option headers starting at `off`, each option
   * beginning where the previous one ends, or None if one of them does
   * not end within `total`.
   */
  function OptionOffsets(buf: seq<Byte>, total: U16, n: nat, off: nat): (r: Option<seq<nat>>)
    requires total <= |buf|
    ensures r.Some? ==> |r.value| == n
    ensures r.Some? ==> forall i :: 0 <= i < n ==> r.value[i] + OPTION_HEADER_SIZE <= total
    ensures r.Some? && n > 0 ==> r.value[0] == off
    decreases n
  {
    if n == 0 then Some([])
    else if off + OPTION_HEADER_SIZE > total then None
    else
      match NextOption(total, off, ParseOptionHeader(buf, off).optionLength)
      case None => None
      case Some(next) =>
        match OptionOffsets(buf, total, n - 1, next)
        case None => None
        case Some(rest) => Some([off] + rest)
  }

  /** Apply `gve_parse_device_option` to the options at `offs`, in order. */
  function SelectAll(buf: seq<Byte>, offs: seq<nat>, sel: Selected): Selected
    requires forall i :: 0 <= i < |offs| ==> offs[i] + OPTION_HEADER_SIZE <= |buf|
  {
    if offs == [] then sel
    else SelectAll(buf, offs[1..], ParseDeviceOption(ParseOptionHeader(buf, offs[0]), offs[0], sel))
  }

  /**
   * The walk visits exactly the chain of options in order and applies the
   * per-option rule to each; it fails precisely when the chain breaks.
   */
  lemma {:induction false} WalkIsChainThenFold(buf: seq<Byte>, total: U16, n: nat, off: nat, sel: Selected)
    requires total <= |buf| && BodiesWithin(sel, total)
    ensures OptionOffsets(buf, total, n, off).None? ==> Walk(buf, total, n, off, sel) == Failure(EINVAL)
    ensures OptionOffsets(buf, total, n, off).Some? ==>
              Walk(buf, total, n, off, sel) == Success(SelectAll(buf, OptionOffsets(buf, total, n, off).value, sel))
    decreases n
  {
    if n > 0 && off + OPTION_HEADER_SIZE <= total {
      var h := ParseOptionHeader(buf, off);
      var optionEnd := off + OPTION_HEADER_SIZE + h.optionLength;
      if optionEnd <= total {
        var sel' := ParseDeviceOption(h, off, sel);
        assert Walk(buf, total, n, off, sel) == Walk(buf, total, n - 1, optionEnd, sel');
        WalkIsChainThenFold(buf, total, n - 1, optionEnd, sel');
        var rest := OptionOffsets(buf, total, n - 1, optionEnd);
        if rest.Some? {
          assert OptionOffsets(buf, total, n, off) == Some([off] + rest.value);
          SelectAllCons(buf, off, rest.value, sel);
        } else {
          assert OptionOffsets(buf, total, n, off) == None;
        }
      }
    }
  }

  lemma SelectAllCons(buf: seq<Byte>, off: nat, rest: seq<nat>, sel: Selected)
    requires off + OPTION_HEADER_SIZE <= |buf|
    requires forall i :: 0 <= i < |rest| ==> rest[i] + OPTION_HEADER_SIZE <= |buf|
    ensures forall i :: 0 <= i < |[off] + rest| ==> ([off] + rest)[i] + OPTION_HEADER_SIZE <= |buf|
    ensures SelectAll(buf, [off] + rest, sel)
         == SelectAll(buf, rest, ParseDeviceOption(ParseOptionHeader(buf, off), off, sel))
  {
    assert ([off] + rest)[1..] == rest;
  }

  /** The last accepted option of each kind is the one that counts. */
  lemma {:induction false} LastAcceptedWins(buf: seq<Byte>, offs: seq<nat>, sel: Selected)
    requires forall i :: 0 <= i < |offs| ==> offs[i] + OPTION_HEADER_SIZE <= |buf|
    requires offs != [] && AcceptsGqiQpl(ParseOptionHeader(buf, offs[|offs| - 1]))
    ensures SelectAll(buf, offs, sel).gqiQpl == Some(offs[|offs| - 1] + OPTION_HEADER_SIZE)
    decreases |offs|
  {
    if |offs| > 1 {
      LastAcceptedWins(buf, offs[1..], ParseDeviceOption(ParseOptionHeader(buf, offs[0]), offs[0], sel));
    }
  }

  /** An option list with no acceptable option of a kind leaves that kind unselected. */
  lemma {:induction false} NoneAcceptedKeepsSelection(buf: seq<Byte>, offs: seq<nat>, sel: Selected)
    requires forall i :: 0 <= i < |offs| ==> offs[i] + OPTION_HEADER_SIZE <= |buf|
    requires forall i :: 0 <= i < |offs| ==> !AcceptsGqiQpl(ParseOptionHeader(buf, offs[i]))
    ensures SelectAll(buf, offs, sel).gqiQpl == sel.gqiQpl
    decreases |offs|
  {
    if offs != [] {
      NoneAcceptedKeepsSelection(buf, offs[1..], ParseDeviceOption(ParseOptionHeader(buf, offs[0]), offs[0], sel));
    }
  }

  /** With no options the walk selects nothing, so no queue format is found. */
  lemma NoOptionsSelectsNothing(buf: seq<Byte>)
    requires DESCRIPTOR_SIZE <= |buf| && NumDeviceOptions(buf) == 0
    ensures ProcessDeviceOptions(buf).Success? ==> ProcessDeviceOptions(buf).value == NoneSelected
    ensures TotalLength(buf) <= |buf| ==> ProcessDeviceOptions(buf) == Success(NoneSelected)
  {
  }

  // ---- the walk as the source writes it ----

  /** The result of the walk, or the offset of the first header read outside the buffer. */
  datatype Outcome = Completed(result: Result<Selected>) | ReadBeyondBuffer(offset: nat)

  /**
   * The walk as written. `gve_get_next_option` reads only the option's
   * `option_length` (bytes 2-3 of its header) and compares the option's
   * end against the device-supplied `total_length` alone; only an option
   * that passes is handed to `gve_parse_device_option`, which reads the
   * whole 8-byte header. A read outside the buffer is reported by the
   * offset of the header it falls in.
   */
  function WalkAsWritten(buf: seq<Byte>, total: U16, remaining: nat, off: nat, sel: Selected): (r: Outcome)
    ensures r.ReadBeyondBuffer? ==> off <= r.offset && |buf| < r.offset + OPTION_HEADER_SIZE
    ensures r.ReadBeyondBuffer? ==>
              |buf| < r.offset + 4 || NextOption(total, r.offset, ReadBe16(buf, r.offset + 2)).Some?
    ensures r.Completed? && r.result.Failure? ==> r.result.error == EINVAL
    decreases remaining
  {
    if remaining == 0 then Completed(Success(sel))
    else if off + 4 > |buf| then ReadBeyondBuffer(off)
    else match NextOption(total, off, ReadBe16(buf, off + 2))
      case None => Completed(Failure(EINVAL))
      case Some(next) =>
        if off + OPTION_HEADER_SIZE > |buf| then ReadBeyondBuffer(off)
        else WalkAsWritten(buf, total, remaining - 1, next, ParseDeviceOption(ParseOptionHeader(buf, off), off, sel))
  }

  /**
   * `gve_process_device_options` as written: the walk from byte 40 with
   * no check of `total_length` against the buffer. It either completes,
   * with EINVAL as its only error, or first reads outside the buffer in a
   * header at or after byte 40 that does not fit there, either at its
   * `option_length` or after that option passed the `total_length` test.
   */
  function ProcessDeviceOptionsAsWritten(buf: seq<Byte>): (r: Outcome)
    requires DESCRIPTOR_SIZE <= |buf|
    ensures r.ReadBeyondBuffer? ==> DESCRIPTOR_SIZE <= r.offset && |buf| < r.offset + OPTION_HEADER_SIZE
    ensures r.ReadBeyondBuffer? ==>
              |buf| < r.offset + 4 || NextOption(TotalLength(buf), r.offset, ReadBe16(buf, r.offset + 2)).Some?
    ensures r.Completed? && r.result.Failure? ==> r.result.error == EINVAL
  {
    WalkAsWritten(buf, TotalLength(buf), NumDeviceOptions(buf), DESCRIPTOR_SIZE, NoneSelected)
  }

  /**
   * Whenever the buffer extends at least a header's length past both the
   * descriptor header and `total_length`, the walk as written reads only
   * inside the buffer and agrees with `ProcessDeviceOptions`.
   */
  lemma AsWrittenAgrees(buf: seq<Byte>)
    requires DESCRIPTOR_SIZE <= |buf|
    requires TotalLength(buf) + OPTION_HEADER_SIZE <= |buf| && DESCRIPTOR_SIZE + OPTION_HEADER_SIZE <= |buf|
    ensures ProcessDeviceOptionsAsWritten(buf) == Completed(ProcessDeviceOptions(buf))
  {
    WalkAgrees(buf, TotalLength(buf), NumDeviceOptions(buf), DESCRIPTOR_SIZE, NoneSelected);
  }

  lemma {:induction false} WalkAgrees(buf: seq<Byte>, total: U16, n: nat, off: nat, sel: Selected)
    requires total + OPTION_HEADER_SIZE <= |buf| && off + OPTION_HEADER_SIZE <= |buf|
    requires BodiesWithin(sel, total)
    ensures WalkAsWritten(buf, total, n, off, sel) == Completed(Walk(buf, total, n, off, sel))
    decreases n
  {
    if n > 0 && off + OPTION_HEADER_SIZE <= |buf| {
      var h := ParseOptionHeader(buf, off);
      var next := NextOption(total, off, h.optionLength);
      if next.Some? {
        WalkAgrees(buf, total, n - 1, next.value, ParseDeviceOption(h, off, sel));
      }
    }
  }

  /**
   * A page-sized (4096-byte) descriptor buffer that claims a
   * `total_length` of 0xFFFF and two options, the first with id 0 and
   * length 4050 at byte 40. The walk as written accepts the first option,
   * since its end (byte 4098) is within the claimed total length, and then
   * reads the second header at byte 4098, past the buffer; the checked
   * walk rejects the descriptor.
   */
  lemma OverlongTotalLengthReadsPastBuffer()
    ensures var buf := Zeros(30) + [0, 2] + [0xFF, 0xFF] + Zeros(6) + [0, 0, 0x0F, 0xD2, 0, 0, 0, 0] + Zeros(4048);
      |buf| == 4096
      && NumDeviceOptions(buf) == 2 && TotalLength(buf) == 0xFFFF
      && ProcessDeviceOptionsAsWritten(buf) == ReadBeyondBuffer(4098)
      && ProcessDeviceOptions(buf) == Failure(EINVAL)
  {
    var buf := Zeros(30) + [0, 2] + [0xFF, 0xFF] + Zeros(6) + [0, 0, 0x0F, 0xD2, 0, 0, 0, 0] + Zeros(4048);
    assert buf[30] == 0 && buf[31] == 2 && buf[32] == 0xFF && buf[33] == 0xFF;
    assert buf[42] == 0x0F && buf[43] == 0xD2;
    var h := ParseOptionHeader(buf, 40);
    assert h.optionLength == 4050;
  }

  /**
   * A 4096-byte page whose `total_length` 0x0FFF lies inside it, with a
   * first option of length 4042 at byte 40, so that the second header at
   * byte 4090 is only partly inside the page. Its `option_length` (bytes
   * 4092-4093) is still inside and is 0, so that option would end at 4098,
   * past `total_length`: the walk as written stops with EINVAL before
   * reading the rest of the header, as the checked walk does.
   */
  lemma EdgeHeaderPartlyInside()
    ensures var buf := Zeros(30) + [0, 2] + [0x0F, 0xFF] + Zeros(6) + [0, 0, 0x0F, 0xCA, 0, 0, 0, 0] + Zeros(4048);
      |buf| == 4096
      && NumDeviceOptions(buf) == 2 && TotalLength(buf) == 0x0FFF
      && ProcessDeviceOptionsAsWritten(buf) == Completed(Failure(EINVAL))
      && ProcessDeviceOptions(buf) == Failure(EINVAL)
  {
    var buf := Zeros(30) + [0, 2] + [0x0F, 0xFF] + Zeros(6) + [0, 0, 0x0F, 0xCA, 0, 0, 0, 0] + Zeros(4048);
    assert buf[30] == 0 && buf[31] == 2 && buf[32] == 0x0F && buf[33] == 0xFF;
    assert buf[42] == 0x0F && buf[43] == 0xCA;
    assert ReadBe16(buf, 42) == 4042;
    assert buf[4092] == 0 && buf[4093] == 0;
  }
}
