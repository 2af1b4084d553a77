# gve admin queue — a Dafny model

This project models the admin queue of the gve (Google Virtual Ethernet)
driver. The admin queue is the control channel the driver uses to talk to
the virtual NIC. The driver writes 64-byte big-endian command records into
a ring of `ADMINQ_SIZE / 64` slots in DMA memory. It rings a doorbell with
its free-running 32-bit producer count. It then polls the device's event
counter until that count reaches the producer count. Finally it reads each
completed command's status word and translates the first one that is not
PASSED into an errno.

The model covers:

- **Wire format** (`Wire`, `Layout`, `Opcodes`, `Commands`):
  - the `union gve_adminq_command` record: opcode, status and a 56-byte payload;
  - every payload structure as a sequence of big-endian fields, with its declared size;
  - the option-header and option-body layouts.

  The command union's members are packed, and each member's size is proved
  equal to its `static_assert`. Encoding a command and decoding the record
  gives the command back.
- **Status translation** (`StatusTranslation`): `gve_adminq_parse_err` as a
  function from the 32-bit status word to an errno.
- **Device description** (`Descriptor`, `OptionWalk`, `Negotiation`):
  - the walk over the device options that follow `struct gve_device_descriptor`;
  - the selection of the GQI-QPL and jumbo-frames options;
  - the capabilities `gve_adminq_describe_device` derives from the descriptor.

  The required-feature masks are all 0. The jumbo-frames feature is bit
  `1 << 2` of the supported-features word, and the modify-ring feature is
  bit `1 << 0`.
- **Ring transport** (`RingArith`, `CompletionScan`, `Transport`):
  - `gve_adminq_issue_cmd`, `gve_adminq_kick_and_wait`, `gve_adminq_wait_for_cmd`,
    `gve_adminq_execute_cmd` and `gve_adminq_alloc`, as methods of the classes
    `Device` (the register BAR) and `AdminQueue` (the `priv` fields of the admin queue).
  - The ring is an `array` of records. A ghost `history` holds every record
    ever placed in it.
  - The device is two oracles. `eventCounter(k)` is the value returned by the
    k-th read of the event counter, and `completion(i)` is the status the
    device leaves in the record with counter value `i`.
- **Admin commands** (`AdminCommands`):
  - every operation that builds one command and executes it;
  - the four batch loops over queues. A batch's result and event-counter
    reads are `BatchResult` and `BatchReads`: the commands run one after
    the other, each where the previous one left the device, stopping at
    the first failure;
  - the page-list staging loop of `gve_adminq_register_page_list`;
  - `gve_adminq_describe_device`.

The model follows the structure declaration in `gve_adminq.h:95-111`. There,
`num_device_options` sits at byte 30 of the descriptor and `total_length` at
byte 32, because the fields before them add up to 8+2+2+2+2+2+2+2+2+6 = 30
bytes. `Descriptor.DescriptorLayoutFacts` proves these offsets.

## Model

| member | source | states |
|---|---|---|
| Wire.Inc32 | gve_adminq.c:764 | the producer count advances by one and wraps from 2^32-1 to 0 |
| Wire.Sub32 | gve_adminq.c:743 | unsigned 32-bit difference: `a - b` when `b <= a`, and `2^32 - (b - a)` when the subtraction wraps |
| Wire.Zeros | gve_adminq.c:180 | the memset of a record: `n` bytes, all zero |
| Wire.Be16 | gve_adminq.c:185 | htobe16: two bytes that read back as the value |
| Wire.Be32 | gve_adminq.c:181 | htobe32: four bytes that read back as the value |
| Wire.Be64 | gve_adminq.c:454 | htobe64: eight bytes that read back as the value |
| Wire.Be64OfRead | gve_adminq.c:410 | reading eight big-endian bytes and writing them back gives the same bytes (be64toh is the inverse of htobe64) |
| Wire.Be32Injective | gve_adminq.c:181 | distinct 32-bit values have distinct big-endian encodings |
| Layout.EncodeFields | gve_adminq.h:83-86 | a packed structure's bytes are exactly as long as the sum of its field widths |
| Layout.DecodeFields | gve_adminq.h:83-86 | decoding by a width list yields fields of exactly those widths |
| Layout.DecodeEncodeFields | gve_adminq.h:83-86 | decoding a packed structure's bytes, with anything after them, gives its fields back |
| Layout.DecodeFieldsIndex | gve_adminq.h:83-86 | field `k` of a packed structure is read at the sum of the widths before it |
| Opcodes.OpcodeValue | gve_adminq.h:42-57 | every opcode is in 0x1..0xF and none is 0xA |
| Opcodes.OpcodeOf | gve_adminq.c:773-819 | a word names an opcode exactly when it is in 0x1..0xF and not 0xA, and then it is that opcode's value |
| Opcodes.OpcodeRoundTrip | gve_adminq.h:42-57 | recognising an opcode's value gives the opcode back |
| Opcodes.OpcodesDistinct | gve_adminq.h:42-57 | the 14 opcodes have pairwise different values |
| Opcodes.StatusValue | gve_adminq.h:60-79 | UNSET is 0, PASSED is 1, every error status is at or above 0xFFFFFFF0 |
| Opcodes.StatusOf | gve_adminq.h:60-79 | a word names a status exactly when it is at most 1 or at least 0xFFFFFFF0 |
| Opcodes.StatusRoundTrip | gve_adminq.h:60-79 | recognising a status's value gives the status back |
| Opcodes.StatusesDistinct | gve_adminq.h:60-79 | the 18 statuses have pairwise different values |
| Commands.PayloadsFit | gve_adminq.h:412-437 | every payload's packed layout has its declared size and fits in the 56 bytes of the union; create_rx_queue fills all 56 |
| Commands.SizeOfDescribeDevice | gve_adminq.h:87-93 | the describe-device payload is 16 bytes |
| Commands.SizeOfConfigureDeviceResources | gve_adminq.h:230-241 | the configure-device-resources payload is 40 bytes |
| Commands.SizeOfRegisterPageList | gve_adminq.h:243-250 | the register-page-list payload is 24 bytes |
| Commands.SizeOfUnregisterPageList | gve_adminq.h:252-256 | the unregister-page-list payload is 4 bytes |
| Commands.SizeOfCreateTxQueue | gve_adminq.h:260-273 | the create-tx-queue payload is 48 bytes |
| Commands.SizeOfCreateRxQueue | gve_adminq.h:275-291 | the create-rx-queue payload is 56 bytes |
| Commands.SizeOfDestroyTxQueue | gve_adminq.h:306-310 | the destroy-tx-queue payload is 4 bytes |
| Commands.SizeOfDestroyRxQueue | gve_adminq.h:312-316 | the destroy-rx-queue payload is 4 bytes |
| Commands.SizeOfDeconfigureDeviceResources | gve_adminq.h:412-437 | deconfigure carries no payload |
| Commands.SizeOfSetDriverParameter | gve_adminq.h:323-329 | the set-driver-parameter payload is 16 bytes |
| Commands.SizeOfReportStats | gve_adminq.h:331-337 | the report-stats payload is 24 bytes |
| Commands.SizeOfReportLinkSpeed | gve_adminq.h:339-343 | the report-link-speed payload is 8 bytes |
| Commands.SizeOfGetPtypeMap | gve_adminq.h:407-410 | the get-ptype-map payload is 16 bytes |
| Commands.SizeOfVerifyDriverCompatibility | gve_adminq.h:223-228 | the verify-driver-compatibility payload is 16 bytes |
| Commands.PayloadFields | gve_adminq.h:412-435 | a command's fields have exactly the widths of its opcode's payload structure |
| Commands.Encode | gve_adminq.c:180-188 | a record is 64 bytes, carries the opcode's value in bytes 0-3 and status UNSET in bytes 4-7, and is zero after its payload |
| Commands.PayloadOf | gve_adminq.h:412-437 | the command rebuilt from an opcode's payload fields carries that opcode |
| Commands.Decode | gve_adminq.h:412-437 | a record decodes exactly when its first word names an opcode, and the decoded command carries that opcode |
| Commands.DecodeEncode | gve_adminq.h:412-437 | decoding an encoded record gives the command back |
| Commands.EncodeInjective | gve_adminq.h:412-437 | different commands give different records |
| StatusTranslation.ErrOfStatus | gve_adminq.c:636-668 | the result is 0 exactly for PASSED and is never ENOTRECOVERABLE |
| StatusTranslation.UnknownStatusIsInvalid | gve_adminq.c:665-667 | a word that names no status maps to EINVAL |
| StatusTranslation.FailureIsError | gve_adminq.c:630-635 | a status counted as a failure is an error; UNSET is EINVAL but not counted; the result is 0 exactly when the status is neither a failure nor UNSET |
| StatusTranslation.ErrOfStatusAgrees | gve_adminq.c:636-668 | the translation of a raw word agrees with the per-status table for every known status |
| Descriptor.DescriptorLayoutFacts | gve_adminq.h:95-111 | the descriptor has 18 members and 40 bytes; num_device_options is 16 bits at byte 30 and total_length is 16 bits at byte 32 |
| Descriptor.HeaderReadsAgree | gve_adminq.h:95-111 | the two direct big-endian reads agree with the decoded descriptor's num_device_options and total_length |
| Descriptor.ParseDescriptor | gve_adminq.c:407-413 | the parsed descriptor's option count and total length are the two header words the option walk reads, and its MAC is bytes 24-29 |
| Descriptor.ParseDescriptorReadsHeader | gve_adminq.c:407-413 | the parsed descriptor depends only on the 40-byte header, not on the option records after it |
| Descriptor.OptionHeaderSize | gve_adminq.h:113-119 | an option header is 8 bytes |
| Descriptor.EncodeOptionHeader | gve_adminq.h:113-119 | an encoded option header is 8 bytes |
| Descriptor.OptionHeaderFields | gve_adminq.h:113-119 | an option header's fields have the header's widths (16, 16, 32) |
| Descriptor.ParseOptionHeaderDecodes | gve_adminq.h:113-119 | reading an option header at an offset decodes the packed header there |
| Descriptor.OptionHeaderRoundTrip | gve_adminq.h:113-119 | an option header written anywhere in a buffer reads back unchanged |
| Descriptor.OptionBodyFacts | gve_adminq.h:127-153 | the GQI-QPL body is 4 bytes, the jumbo-frames body 8 with max_mtu at byte 4, the modify-ring body 8 |
| OptionWalk.NextOption | gve_adminq.c:67-77 | the next option starts right after this one's header and body, or there is none when that passes total_length |
| OptionWalk.ParseDeviceOption | gve_adminq.c:79-133 | a well-sized GQI-QPL or jumbo-frames option with zero required features selects its body; any other option leaves the selection unchanged |
| OptionWalk.Walk | gve_adminq.c:136-164 | the walk fails only with EINVAL, and every selected body lies within total_length |
| OptionWalk.ProcessDeviceOptions | gve_adminq.c:136-164 | the walk over the descriptor fails only with EINVAL, and every selected body lies within total_length and within the buffer |
| OptionWalk.ProcessDeviceOptionsLoop | gve_adminq.c:136-164 | the driver's loop returns what the recursive walk returns |
| OptionWalk.OptionOffsets | gve_adminq.c:145-161 | the chain of option offsets starts at the given offset, has one entry per option, and every header lies within total_length |
| OptionWalk.WalkIsChainThenFold | gve_adminq.c:145-161 | the walk fails with EINVAL exactly when the offset chain breaks, and otherwise folds the option parser over the chain |
| OptionWalk.LastAcceptedWins | gve_adminq.c:93-108 | when the last option is an acceptable GQI-QPL option, its body is the one selected |
| OptionWalk.NoneAcceptedKeepsSelection | gve_adminq.c:93-132 | with no acceptable GQI-QPL option, the GQI-QPL selection stays as it was |
| OptionWalk.NoOptionsSelectsNothing | gve_adminq.c:140-163 | a descriptor with no options selects nothing, and the walk succeeds when total_length fits the buffer |
| OptionWalk.AsWrittenAgrees | gve_adminq.c:136-164 | when total_length and the first header fit the buffer, the loop as written and the bounded walk agree |
| OptionWalk.WalkAgrees | gve_adminq.c:136-164 | step-by-step agreement of the walk as written and the bounded walk under the same condition |
| OptionWalk.WalkAsWritten | gve_adminq.c:145-161 | the loop as written, in the source's order: through `gve_get_next_option` it reads an option's `option_length`, tests the option's end against `total_length` alone, and only then reads the whole header; it either completes, failing only with EINVAL, or stops at a header at or after the start that does not fit in the buffer, either already at its `option_length` or after the option passed the `total_length` test |
| OptionWalk.ProcessDeviceOptionsAsWritten | gve_adminq.c:136-164 | the option walk as written from byte 40: EINVAL is its only error, and a read outside the buffer is of a header at or after byte 40 that does not fit, either at its `option_length` or after that option passed the `total_length` test |
| OptionWalk.EdgeHeaderPartlyInside | gve_adminq.c:150-155 | a 4096-byte page with `total_length` 0x0FFF and a first option of length 4042, so that the second header at byte 4090 is only partly inside: its `option_length` is read inside the page and fails the `total_length` test, so the loop as written returns EINVAL before reading the rest of the header, as the bounded walk does |
| OptionWalk.OverlongTotalLengthReadsPastBuffer | gve_adminq.c:145-155 | a 4096-byte descriptor page that declares two options and total_length 0xFFFF, the first of length 4050, makes the loop as written read the second header at byte 4098, past the page; the bounded walk returns EINVAL |
| Negotiation.EnableSupportedFeatures | gve_adminq.c:336-347 | max_mtu is taken from the jumbo-frames option only when that option was selected and the device supports jumbo frames; otherwise nothing changes |
| Negotiation.JumboFramesBit | gve_adminq.c:341-342 | the jumbo-frames test on the supported-features mask is a test of bit 2 |
| Negotiation.Negotiate | gve_adminq.c:384-429 | describe-device succeeds exactly when the option walk succeeds and selects GQI-QPL; on failure it returns EINVAL; on success it fixes the queue format, supported features, clamped ring sizes, counters, queues, pages, MTU and MAC as the descriptor gives them |
| Negotiation.NegotiationNeedsAcceptedQpl | gve_adminq.c:392-404 | without an acceptable GQI-QPL option, describe-device returns EINVAL |
| Negotiation.OneQplOptionSucceeds | gve_adminq.c:384-407 | a descriptor with one GQI-QPL option is accepted, and that option's mask becomes the supported features |
| Negotiation.NoOptionsFails | gve_adminq.c:399-404 | a descriptor that declares no options is rejected with EINVAL |
| Negotiation.TruncatedTotalLengthFails | gve_adminq.c:148-154 | a total_length one byte short of the option it declares makes the walk and describe-device fail with EINVAL |
| RingArith.Slot | gve_adminq.c:763 | a counter's slot lies within the ring |
| RingArith.NextSlotIsFree | gve_adminq.c:740-763 | with fewer than `n` commands outstanding, the producer's slot holds none of them |
| RingArith.AdvanceStep | gve_adminq.c:764 | advancing the producer count once more is one 32-bit increment |
| RingArith.AdvanceToHead | gve_adminq.c:715 | counting forward from the tail by the unsigned difference reaches the head, through the values in order when there is no wrap |
| CompletionScan.Outstanding | gve_adminq.c:715 | the outstanding counter values, oldest first, across a wrap, one per unit of the unsigned difference |
| CompletionScan.FirstNotPassed | gve_adminq.c:715-725 | the position of the first status other than PASSED, none exactly when all passed |
| CompletionScan.ScanResult | gve_adminq.c:715-727 | the scan returns 0 exactly when every status passed, and never ENOTRECOVERABLE |
| CompletionScan.FailuresCounted | gve_adminq.c:630-635 | the scan counts at most one failure, and only when it returns an error |
| CompletionScan.ReportsFirstFailure | gve_adminq.c:715-725 | the scan reports the first command that did not pass, whatever came after it |
| CompletionScan.ScanIgnoresLaterStatuses | gve_adminq.c:722-723 | once a command has failed, appending further statuses changes neither the result nor the count |
| CompletionScan.ScanFrom | gve_adminq.c:715-725 | the command-by-command scan never returns ENOTRECOVERABLE |
| CompletionScan.FailuresFrom | gve_adminq.c:630-635 | the command-by-command scan counts at most one failure, and only when it returns an error |
| CompletionScan.ScanFromAgrees | gve_adminq.c:715-725 | the command-by-command scan equals the first-failure scan over the window's statuses |
| CompletionScan.FailuresFromAgrees | gve_adminq.c:715-725 | the command-by-command failure count equals the first-failure count |
| CompletionScan.OutstandingAsWritten | gve_adminq.c:715 | the loop as written visits the values from the tail up to the head in order when the tail is below the head, and none otherwise, never more than the outstanding count |
| CompletionScan.AsWrittenAgreesWithoutWrap | gve_adminq.c:715 | without a wrap, the loop as written visits exactly the outstanding commands |
| CompletionScan.WrappedScanMissesFailure | gve_adminq.c:715 | across the wrap, an aborted command at 0xFFFFFFFF is skipped by the loop as written (result 0), while the outstanding-window scan reports EAGAIN |
| Transport.FirstMatch | gve_adminq.c:678-691 | the poll index at which the event counter first equals the producer count, within the poll budget |
| Transport.FirstMatchSpec | gve_adminq.c:678-691 | no earlier poll matched, and there is no match exactly when no poll in the budget matched |
| Transport.Flush | gve_adminq.c:696-728 | kick-and-wait times out (ENOTRECOVERABLE) exactly when the counter never reaches the producer count; it reads the counter at least once and at most once per poll plus the tail read; it counts at most one failure, and only with an error that is not a timeout |
| Transport.FlushOkIffAllPassed | gve_adminq.c:696-728 | kick-and-wait returns 0 exactly when the counter reached the producer count and every outstanding command passed |
| Transport.FlushScansOutstanding | gve_adminq.c:715-725 | after a successful wait, the result and failure count are those of the first-failure scan over the outstanding commands |
| Transport.FlushAgreesWithoutWrap | gve_adminq.c:715-725 | without a wrap between the tail and the producer count, the flush's result and failure count are those of the loop as written |
| Transport.CountIssued | gve_adminq.c:773-819 | issuing a record bumps its opcode's counter by one (mod 2^32), leaves the others alone, and counts nothing for an unknown opcode |
| Transport.CountIssuedEncoded | gve_adminq.c:773-819 | issuing an encoded command bumps exactly that command's counter |
| Transport.ResetCountsAsWritten | gve_adminq.c:581-597 | the reset as written zeroes every per-opcode counter except verify_driver_compatibility's, which keeps its value |
| Transport.ResetAsWrittenKeepsVerifyCount | gve_adminq.c:581-597 | for every prior state, the reset as written agrees with the corrected reset on every counter but verify_driver_compatibility's, and differs there exactly when that counter was not already zero |
| Transport.ZeroCountsAreZero | gve_adminq.c:581-597 | the corrected reset zeroes every per-opcode counter |
| Transport.Room | gve_adminq.c:740-759 | the full-ring check reads the tail at least once; it succeeds after that single read exactly when fewer than `slots` commands are outstanding against it |
| Transport.Recheck | gve_adminq.c:748-759 | the slow path reads at least once, passes any flush error on, and succeeds only after a successful flush and a tail read that leaves a free slot |
| Transport.RecheckAfterFlush | gve_adminq.c:748-759 | after a successful flush, the recheck re-reads the tail once and reports ENOMEM exactly when the ring is still full |
| Transport.RoomSpec | gve_adminq.c:740-759 | a ring that is not full issues after one read; ENOMEM only when the ring was full at first; any other error is the flush's |
| Transport.RoomOkSlotFree | gve_adminq.c:740-763 | when room is found, the producer's slot holds no command outstanding at the last tail read |
| Transport.IssuedThenFlushes | gve_adminq.c:838-842 | once the full-ring check passes, issue-and-flush returns the flush's result from the read after the check, at the new producer count |
| Transport.ExecuteOkMeansIssuedAndPassed | gve_adminq.c:828-843 | a zero from execute means the command was issued, the device reached the new producer count, and every outstanding command passed |
| Transport.ExecuteResult | gve_adminq.c:828-843 | execute returns EINVAL whenever commands are outstanding, and a zero only when the command was issued |
| Transport.IssueAndFlushResult | gve_adminq.c:838-842 | an issue error is returned as it is; a zero means the issue found room and the flush after it succeeded |
| Transport.IssueAndFlushReads | gve_adminq.c:838-842 | issue then flush reads at least what the full-ring check reads and at most two rounds of polls plus four; it reads more than the check exactly when the check found room (the flush ran) |
| Transport.IssueAndFlushFailures | gve_adminq.c:838-842 | issue then flush counts at most one failure, and only with a returned error that is not a timeout |
| Transport.ExecuteReads | gve_adminq.c:828-843 | execute reads the counter at least once and at most `2 * polls + 5` times, and exactly once when commands are outstanding |
| Transport.ExecuteFailures | gve_adminq.c:828-843 | execute counts at most one failure, none on a busy ring, and only with a returned error that is not a timeout |
| Transport.IssueAndFlushParts | gve_adminq.c:733-759 | a failed full-ring check is the whole result, reads and failures of issue-and-flush, and occurs only when the ring looked full; after a passed one, with no failure counted, they are those of the flush at the new producer count |
| Transport.ExecuteParts | gve_adminq.c:833-842 | on an idle ring, execute is one tail read followed by issue-and-flush, and issues exactly when the full-ring check passes |
| Transport.IdleRingIssuesAtOnce | gve_adminq.c:740-763 | on an idle ring the command is issued after a single tail read |
| Transport.Device.ReadEventCounter | gve_adminq.c:740 | a read returns the next oracle value and changes only the read count |
| Transport.Device.KickCmd | gve_adminq.c:671-676 | the doorbell holds the producer count; nothing else changes |
| Transport.Device.WriteAdminqAddr | gve_adminq.c:599-600 | the admin queue address register holds the written value; nothing else changes |
| Transport.Device.WaitForCmd | gve_adminq.c:678-691 | returns true exactly when some poll within the budget saw the producer count, having read up to and including that poll, or all polls otherwise |
| Transport.AdminQueue.Alloc | gve_adminq.c:558-604 | a second call does nothing; a failed DMA allocation is returned unchanged; otherwise the producer count, cmd_fail and timeouts are zeroed, the per-opcode counters are set by the corrected reset (see Left out and Findings) and the register holds bus address / ADMINQ_SIZE |
| Transport.AdminQueue.ParseErr | gve_adminq.c:627-669 | returns the status's translation and bumps cmd_fail exactly for a failure status |
| Transport.AdminQueue.ScanCompletions | gve_adminq.c:715-725 | the loop returns the command-by-command scan and bumps cmd_fail by its failure count |
| Transport.AdminQueue.KickAndWait | gve_adminq.c:696-728 | rings the doorbell, returns the flush's result, bumps timeouts exactly on timeout and cmd_fail on a counted failure, and changes neither the producer count nor the per-opcode counters |
| Transport.AdminQueue.MakeRoom | gve_adminq.c:740-759 | returns `Room`'s decision after exactly `Room`'s reads; cmd_fail grows by exactly `Room`'s failure count; the doorbell is kept when the first tail read shows room and holds the producer count when it flushed; the queue-address register, producer count, per-opcode counters and set-up state are kept; the error counters move only as `Charged` allows |
| Transport.AdminQueue.FlushAndRecheck | gve_adminq.c:748-759 | returns `Recheck`'s result (the flush's error, or ENOMEM exactly when the ring is still full) after exactly its reads; cmd_fail grows by exactly its failure count; the doorbell holds the producer count; the queue-address register, producer count, per-opcode counters and set-up state are kept |
| Transport.AdminQueue.IssueCmd | gve_adminq.c:733-821 | returns `Room`'s decision after exactly its reads, with cmd_fail grown by exactly its failure count and the doorbell as `MakeRoom` leaves it; on room: writes the record into a slot holding no outstanding command, changes no other slot, advances the producer count and the opcode's counter; otherwise changes neither ring, producer count nor per-opcode counters; the queue-address register is kept; the error counters move only as `Charged` allows |
| Transport.AdminQueue.PlaceRecord | gve_adminq.c:763-819 | the record lands in the producer's slot, no other slot changes, the producer count and the opcode's counter advance |
| Transport.AdminQueue.ExecuteCmd | gve_adminq.c:828-843 | `Executed`: the result is `ExecuteResult`; the event-counter reads are exactly `ExecuteReads`; cmd_fail grows by exactly `ExecuteFailures`; the doorbell is kept on a busy ring, and otherwise holds the producer count after the issue, or before it when the full-ring check failed; the queue-address register is kept; exactly when the command is issued, the record lands in the producer slot, no other slot changes, the producer count and the opcode's counter advance; otherwise ring, producer count and per-opcode counters are unchanged; timeouts grows exactly on ENOTRECOVERABLE (`Charged`); the set-up state is unchanged. A busy ring gives EINVAL after one read, with the doorbell and error counters untouched |
| Transport.AdminQueue.IssueAndFlush | gve_adminq.c:838-842 | issue then kick-and-wait: the result is `IssueAndFlushResult` after exactly `IssueAndFlushReads` reads, with cmd_fail grown by exactly `IssueAndFlushFailures`; on room the record lands in the producer slot, no other slot changes and the doorbell holds the new producer count; otherwise nothing is issued and the doorbell holds the old count; the queue-address register and set-up state are kept |
| AdminCommands.CreateRxCommand | gve_adminq.c:180-197 | the create-rx command names queue `index` as both queue id and index, carries the ring's notify block and page list, the driver's descriptor count and the default buffer size, and leaves the buffer-ring size and RSC flag zero |
| AdminCommands.CreateTxCommand | gve_adminq.c:229-242 | the create-tx command names queue `index`, carries the ring's notify block and page list and the driver's descriptor count, and leaves the completion-ring members zero |
| AdminCommands.ConfigureCommand | gve_adminq.c:500-513 | the configure command asks for one doorbell per queue of the platform's doorbell size, the driver's event counters, notify blocks from MSI-X vector 0, and the queue format |
| AdminCommands.RxCommands | gve_adminq.c:208-216 | the create-rx batch for `n` queues has `n` commands (their order: `RxCommandsInOrder`) |
| AdminCommands.TxCommands | gve_adminq.c:253-261 | the create-tx batch for `n` queues has `n` commands (their order: `TxCommandsInOrder`) |
| AdminCommands.DestroyRxCommands | gve_adminq.c:296-304 | the destroy-rx batch for `n` queues has `n` commands (their order: `DestroyCommandsInOrder`) |
| AdminCommands.DestroyTxCommands | gve_adminq.c:313-321 | the destroy-tx batch for `n` queues has `n` commands (their order: `DestroyCommandsInOrder`) |
| AdminCommands.RxCommandsInOrder | gve_adminq.c:208-216 | the batch's i-th command creates rx queue i from ring i |
| AdminCommands.TxCommandsInOrder | gve_adminq.c:253-261 | the batch's i-th command creates tx queue i from ring i |
| AdminCommands.DestroyCommandsInOrder | gve_adminq.c:296-304 | the destroy batches' i-th command destroys queue i |
| AdminCommands.RecordsDecode | gve_adminq.h:412-437 | each record in a batch decodes to its command |
| AdminCommands.RxRecordsDecode | gve_adminq.c:169-217 | record i of a create-rx batch decodes to create-rx-queue i |
| AdminCommands.TxRecordsDecode | gve_adminq.c:219-262 | record i of a create-tx batch decodes to create-tx-queue i |
| AdminCommands.DestroyRecordsDecode | gve_adminq.c:264-322 | record i of a destroy batch decodes to destroy queue i |
| AdminCommands.ExecuteOutcomeAt | gve_adminq.c:828-843 | one command of a batch, started at a read number and producer count, returns `ExecuteResult` after `ExecuteReads` reads |
| AdminCommands.BatchOkIffEachOk | gve_adminq.c:208-216 | a batch returns 0 exactly when every command, run where the previous ones left the device, returns 0 |
| AdminCommands.BatchFailureIsFirstFailure | gve_adminq.c:208-213 | a failed batch returns the result of some command before which the batch had succeeded |
| AdminCommands.BatchExtends | gve_adminq.c:208-216 | one more command adds its reads to the batch's and, after a successful prefix, its result is the batch's; it starts where the prefix left the device |
| AdminCommands.CommandStep | gve_adminq.c:208-216 | a command run where the batch's first `i` commands left the device makes the batch's next reads and, after a successful prefix, gives its result |
| AdminCommands.BatchStopsAtFailure | gve_adminq.c:210-213 | once a command has failed, later commands do not change the batch's result |
| AdminCommands.BusyRingFailsBatch | gve_adminq.c:833-837 | a non-empty batch started while commands are outstanding returns EINVAL, and its first command is not issued |
| AdminCommands.CountedTurn | gve_adminq.c:208-216 | one turn of a batch loop, for the counters and registers: after `k` successes the next execute's result is the batch's result for `k + 1` commands; on success the state is that of `k + 1` successes (reads `BatchReads`, producer count advanced `k + 1` times, the doorbell holding it, error counters unchanged); on failure the batch stops as `Stopped` says: the reads grew by the failing command's own, cmd_fail by exactly its failures, the producer count moved past it exactly when it was issued, and the doorbell holds the producer count unless the ring was busy, when it stays where the successful commands left it |
| AdminCommands.HistoryTurn | gve_adminq.c:763-766 | one turn of a batch loop, for the history: the turn's record follows those of the earlier commands exactly when it was issued |
| AdminCommands.BatchTurn | gve_adminq.c:208-216 | one turn of a batch loop: after a run of successes the next command either extends the run (counters as `CountedTurn` says, its record appended) or ends the batch as `FailedAt` says: `Stopped`, with the records of the earlier commands followed by the failing command's own exactly when it was issued; its result is the batch's result so far |
| AdminCommands.AdminqCreateRxQueue | gve_adminq.c:169-200 | `Executed` for the create-rx-queue command built from ring `index`: the result is `ExecuteResult`, the reads exactly `ExecuteReads`, cmd_fail grown by exactly `ExecuteFailures`, the doorbell and queue-address register as execute leaves them, and exactly when issued the slot, producer-count and opcode-counter update; a busy ring gives EINVAL with nothing issued; the set-up state is unchanged |
| AdminCommands.AdminqCreateTxQueue | gve_adminq.c:219-245 | `Executed` for the create-tx-queue command built from ring `index`: the result is `ExecuteResult`, the reads exactly `ExecuteReads`, cmd_fail grown by exactly `ExecuteFailures`, the doorbell and queue-address register as execute leaves them, and exactly when issued the slot, producer-count and opcode-counter update; a busy ring gives EINVAL with nothing issued; the set-up state is unchanged |
| AdminCommands.AdminqDestroyTxQueue | gve_adminq.c:264-275 | `Executed` for destroy-tx-queue for the id: the result is `ExecuteResult`, the reads exactly `ExecuteReads`, cmd_fail grown by exactly `ExecuteFailures`, the doorbell and queue-address register as execute leaves them, and exactly when issued the slot, producer-count and opcode-counter update; a busy ring gives EINVAL with nothing issued; the set-up state is unchanged |
| AdminCommands.AdminqDestroyRxQueue | gve_adminq.c:277-288 | `Executed` for destroy-rx-queue for the id: the result is `ExecuteResult`, the reads exactly `ExecuteReads`, cmd_fail grown by exactly `ExecuteFailures`, the doorbell and queue-address register as execute leaves them, and exactly when issued the slot, producer-count and opcode-counter update; a busy ring gives EINVAL with nothing issued; the set-up state is unchanged |
| AdminCommands.AdminqSetMtu | gve_adminq.c:324-334 | `Executed` for set-driver-parameter with parameter MTU and the value: the result is `ExecuteResult`, the reads exactly `ExecuteReads`, cmd_fail grown by exactly `ExecuteFailures`, the doorbell and queue-address register as execute leaves them, and exactly when issued the slot, producer-count and opcode-counter update; a busy ring gives EINVAL with nothing issued; the set-up state is unchanged |
| AdminCommands.AdminqUnregisterPageList | gve_adminq.c:472-484 | `Executed` for unregister-page-list for the id: the result is `ExecuteResult`, the reads exactly `ExecuteReads`, cmd_fail grown by exactly `ExecuteFailures`, the doorbell and queue-address register as execute leaves them, and exactly when issued the slot, producer-count and opcode-counter update; a busy ring gives EINVAL with nothing issued; the set-up state is unchanged |
| AdminCommands.AdminqConfigureDeviceResources | gve_adminq.c:487-519 | `Executed` for the configure-device-resources command: the result is `ExecuteResult`, the reads exactly `ExecuteReads`, cmd_fail grown by exactly `ExecuteFailures`, the doorbell and queue-address register as execute leaves them, and exactly when issued the slot, producer-count and opcode-counter update; a busy ring gives EINVAL with nothing issued; the set-up state is unchanged |
| AdminCommands.AdminqDeconfigureDeviceResources | gve_adminq.c:521-538 | `Executed` for deconfigure-device-resources: the result is `ExecuteResult`, the reads exactly `ExecuteReads`, cmd_fail grown by exactly `ExecuteFailures`, the doorbell and queue-address register as execute leaves them, and exactly when issued the slot, producer-count and opcode-counter update; a busy ring gives EINVAL with nothing issued; the set-up state is unchanged |
| AdminCommands.AdminqVerifyDriverCompatibility | gve_adminq.c:540-556 | `Executed` for verify-driver-compatibility with the driver-info length and address: the result is `ExecuteResult`, the reads exactly `ExecuteReads`, cmd_fail grown by exactly `ExecuteFailures`, the doorbell and queue-address register as execute leaves them, and exactly when issued the slot, producer-count and opcode-counter update; a busy ring gives EINVAL with nothing issued; the set-up state is unchanged |
| AdminCommands.CreateRxStep | gve_adminq.c:208-216 | one turn of the create-rx batch loop: `Executed` for queue `i`'s command (its result, reads, cmd_fail, doorbell, slot and counters as for every executed command); started in the state the first `i` commands left (`SoFar`), its result is the batch's result for `i + 1` commands; on success the state is `SoFar` for `i + 1` commands: reads `BatchReads`, producer count advanced `i + 1` times, doorbell holding it, error counters unchanged, and the records of queues `0 .. i` in order; on failure it is `FailedAt`: the counters and doorbell as `CountedTurn` gives them for a failing command, and the records of queues `0 .. i-1` followed by queue `i`'s own exactly when it was issued |
| AdminCommands.CreateTxStep | gve_adminq.c:253-261 | one turn of the create-tx batch loop: `Executed` for queue `i`'s command (its result, reads, cmd_fail, doorbell, slot and counters as for every executed command); started in the state the first `i` commands left (`SoFar`), its result is the batch's result for `i + 1` commands; on success the state is `SoFar` for `i + 1` commands: reads `BatchReads`, producer count advanced `i + 1` times, doorbell holding it, error counters unchanged, and the records of queues `0 .. i` in order; on failure it is `FailedAt`: the counters and doorbell as `CountedTurn` gives them for a failing command, and the records of queues `0 .. i-1` followed by queue `i`'s own exactly when it was issued |
| AdminCommands.DestroyRxStep | gve_adminq.c:296-304 | one turn of the destroy-rx batch loop: `Executed` for queue `i`'s command (its result, reads, cmd_fail, doorbell, slot and counters as for every executed command); started in the state the first `i` commands left (`SoFar`), its result is the batch's result for `i + 1` commands; on success the state is `SoFar` for `i + 1` commands: reads `BatchReads`, producer count advanced `i + 1` times, doorbell holding it, error counters unchanged, and the records of queues `0 .. i` in order; on failure it is `FailedAt`: the counters and doorbell as `CountedTurn` gives them for a failing command, and the records of queues `0 .. i-1` followed by queue `i`'s own exactly when it was issued |
| AdminCommands.DestroyTxStep | gve_adminq.c:313-321 | one turn of the destroy-tx batch loop: `Executed` for queue `i`'s command (its result, reads, cmd_fail, doorbell, slot and counters as for every executed command); started in the state the first `i` commands left (`SoFar`), its result is the batch's result for `i + 1` commands; on success the state is `SoFar` for `i + 1` commands: reads `BatchReads`, producer count advanced `i + 1` times, doorbell holding it, error counters unchanged, and the records of queues `0 .. i` in order; on failure it is `FailedAt`: the counters and doorbell as `CountedTurn` gives them for a failing command, and the records of queues `0 .. i-1` followed by queue `i`'s own exactly when it was issued |
| AdminCommands.AdminqCreateRxQueues | gve_adminq.c:202-217 | the result is `BatchResult` of `n` executes run one after the other on the device (Ok exactly when each succeeds, by `BatchOkIffEachOk`); on success one create-rx record per queue in queue order was issued, the producer count advanced by `n`, the reads are `BatchReads` of the `n` commands and the doorbell holds the final producer count; on failure at queue `failed < n` it is `FailedAt`: the commands before it succeeded and it started at `failReads`, the read count they left (`BatchReads` of `failed` commands), and at the producer count `Advance(prod, failed)`; the result is its own `ExecuteResult` there; the reads are `failReads` plus its own `ExecuteReads`; cmd_fail grew by exactly its `ExecuteFailures`; when it was issued (`Issues` at that start) the producer count is `Advance(prod, failed + 1)` and the history holds the records of queues `0 .. failed`, and otherwise the producer count is `Advance(prod, failed)` and the history the records of queues `0 .. failed-1`; the doorbell is as execute leaves it: on a busy ring where the successful commands left it, otherwise the final producer count; the queue-address register and set-up state are kept and the error counters move only as `Charged` allows |
| AdminCommands.AdminqCreateTxQueues | gve_adminq.c:247-262 | the result is `BatchResult` of `n` executes run one after the other on the device (Ok exactly when each succeeds, by `BatchOkIffEachOk`); on success one create-tx record per queue in queue order was issued, the producer count advanced by `n`, the reads are `BatchReads` of the `n` commands and the doorbell holds the final producer count; on failure at queue `failed < n` it is `FailedAt`: the commands before it succeeded and it started at `failReads`, the read count they left (`BatchReads` of `failed` commands), and at the producer count `Advance(prod, failed)`; the result is its own `ExecuteResult` there; the reads are `failReads` plus its own `ExecuteReads`; cmd_fail grew by exactly its `ExecuteFailures`; when it was issued (`Issues` at that start) the producer count is `Advance(prod, failed + 1)` and the history holds the records of queues `0 .. failed`, and otherwise the producer count is `Advance(prod, failed)` and the history the records of queues `0 .. failed-1`; the doorbell is as execute leaves it: on a busy ring where the successful commands left it, otherwise the final producer count; the queue-address register and set-up state are kept and the error counters move only as `Charged` allows |
| AdminCommands.AdminqDestroyRxQueues | gve_adminq.c:290-305 | the result is `BatchResult` of `n` executes run one after the other on the device (Ok exactly when each succeeds, by `BatchOkIffEachOk`); on success one destroy-rx record per queue in queue order was issued, the producer count advanced by `n`, the reads are `BatchReads` of the `n` commands and the doorbell holds the final producer count; on failure at queue `failed < n` it is `FailedAt`: the commands before it succeeded and it started at `failReads`, the read count they left (`BatchReads` of `failed` commands), and at the producer count `Advance(prod, failed)`; the result is its own `ExecuteResult` there; the reads are `failReads` plus its own `ExecuteReads`; cmd_fail grew by exactly its `ExecuteFailures`; when it was issued (`Issues` at that start) the producer count is `Advance(prod, failed + 1)` and the history holds the records of queues `0 .. failed`, and otherwise the producer count is `Advance(prod, failed)` and the history the records of queues `0 .. failed-1`; the doorbell is as execute leaves it: on a busy ring where the successful commands left it, otherwise the final producer count; the queue-address register and set-up state are kept and the error counters move only as `Charged` allows |
| AdminCommands.AdminqDestroyTxQueues | gve_adminq.c:307-322 | the result is `BatchResult` of `n` executes run one after the other on the device (Ok exactly when each succeeds, by `BatchOkIffEachOk`); on success one destroy-tx record per queue in queue order was issued, the producer count advanced by `n`, the reads are `BatchReads` of the `n` commands and the doorbell holds the final producer count; on failure at queue `failed < n` it is `FailedAt`: the commands before it succeeded and it started at `failReads`, the read count they left (`BatchReads` of `failed` commands), and at the producer count `Advance(prod, failed)`; the result is its own `ExecuteResult` there; the reads are `failReads` plus its own `ExecuteReads`; cmd_fail grew by exactly its `ExecuteFailures`; when it was issued (`Issues` at that start) the producer count is `Advance(prod, failed + 1)` and the history holds the records of queues `0 .. failed`, and otherwise the producer count is `Advance(prod, failed)` and the history the records of queues `0 .. failed-1`; the doorbell is as execute leaves it: on a busy ring where the successful commands left it, otherwise the final producer count; the queue-address register and set-up state are kept and the error counters move only as `Charged` allows |
| AdminCommands.StagePageList | gve_adminq.c:453-454 | the page list holds, in order, each page's bus address as eight big-endian bytes |
| AdminCommands.AdminqRegisterPageList | gve_adminq.c:434-470 | a failed DMA allocation returns ENOMEM and changes nothing; otherwise the page list holds every page address, big-endian, in order, and `Executed` holds for register-page-list with the entry count, list address and page size (result, reads, doorbell, cmd_fail, slot and counters as for every executed command) |
| AdminCommands.AdminqDescribeDevice | gve_adminq.c:349-432 | a failed allocation is returned with nothing changed; otherwise `Executed` holds for describe-device with the buffer address, version and size; an execute error is returned with the capabilities unchanged; after success the result and capabilities are the negotiation over the descriptor |

## Left out

- Logging, the sysctl interface, `bus_dmamap_sync`, memory barriers and locking are not modelled. They do not change any value the model computes.
- DMA allocation is a parameter: its result code (`allocRc`, `dmaRc`) and the bus address it yields. The descriptor page's contents are the `buf` parameter of `AdminqDescribeDevice`.
- The statuses the device writes back are the `completion` oracle. The event-counter reads are the `eventCounter` oracle, indexed by read number.
- `msleep` between polls is not modelled. `GVE_MAX_ADMINQ_EVENT_COUNTER_CHECK` (gve_adminq.c:44) is the `maxChecks` field of `Device`.
- gve_adminq_release (gve_adminq.c:606-625) is left out, because it waits for the device without bound.
- The contents of the driver-info structure, the stats report and the ptype map are left out. Only the commands that send their addresses are modelled.
- The `priv->adminq == NULL` check of gve_adminq_alloc (gve_adminq.c:578-579) is left out, because after a successful DMA allocation the model's ring always exists.
- The constants of gve.h are fields of the `Platform` datatype. That header is not part of this model. `ADMINQ_SIZE` is the `adminqSize` field of `AdminQueue`.
- `& adminq_mask` is modelled as `% slots`. The two agree for a power-of-two ring of `ADMINQ_SIZE / 64` slots (`RingArith.ValidSlotCount`).
- AdminCommands.AdminqRegisterPageList: requires `num_entries * 8 < 2^32`. The source computes that size in 32 bits without a check.
- AdminCommands.AdminqCreateRxQueues: the loop index is `int` in the source and is treated as unbounded here, with `n <= 2^32`. The same holds for the other three batch loops.
- Transport.Flush: scans the `Sub32(head, tail)` commands outstanding modulo 2^32, the corrected loop of the second Findings row. The source's `for (i = tail; i < head; i++)` scans nothing once the producer count has wrapped below the tail. The two agree whenever the tail is not above the head (`Transport.FlushAgreesWithoutWrap`).
- Transport.AdminQueue.ScanCompletions: loops over the outstanding commands modulo 2^32, as `Transport.Flush` does, not over `tail < head` as written.
- Transport.AdminQueue.KickAndWait: its result is the corrected `Transport.Flush`; the as-written scan differs only after a wrap of the producer count.
- Transport.FlushOkIffAllPassed: is stated for the corrected scan. For the loop as written it holds whenever the tail is not above the head, by `Transport.FlushAgreesWithoutWrap`.
- Transport.ExecuteOkMeansIssuedAndPassed: is stated for the corrected scan, like `Transport.FlushOkIffAllPassed`. `Transport.AdminQueue.MakeRoom`, `Transport.AdminQueue.IssueCmd`, `Transport.AdminQueue.ExecuteCmd` and the admin commands inherit the corrected scan through the flush.
- Transport.AdminQueue.Alloc: clears the per-opcode counters with the corrected reset `ZeroCounts`. The source's list of resets (`Transport.ResetCountsAsWritten`) leaves the verify-driver-compatibility counter alone; see the third Findings row.
- AdminCommands.AdminqCreateRxQueues: the ring slots and per-opcode counters are stated per command, by `Transport.Executed` in the ensures of the step methods such as `AdminCommands.CreateRxStep`. The batch's own ensures state the result, the records issued, the producer count, the reads, the doorbell and the error counters, on success and on failure, but not the ring slots or the per-opcode totals. The same holds for the other three batch loops.
- OptionWalk.ProcessDeviceOptions: adds the check `total_length <= buffer length` that the source lacks. The source's behaviour is `ProcessDeviceOptionsAsWritten`, see Findings.
- OptionWalk.ProcessDeviceOptionsLoop: inherits the check `total_length <= buffer length` from `OptionWalk.ProcessDeviceOptions`. For a 4096-byte descriptor page with `total_length` 0xFFFF and one well-formed GQI-QPL option of length 4 at byte 40, the source accepts the option; the model returns EINVAL.
- Negotiation.Negotiate: inherits the same check. For a 4096-byte descriptor page with `total_length` 0xFFFF and one well-formed GQI-QPL option of length 4 at byte 40, the source's describe-device succeeds; the model returns EINVAL.
- AdminCommands.AdminqDescribeDevice: inherits the same check through `Negotiation.Negotiate`. For a 4096-byte descriptor page with `total_length` 0xFFFF and one well-formed GQI-QPL option of length 4 at byte 40, the source returns 0; the model returns EINVAL, with only the maximum ring sizes set in the capabilities.

## Findings

| source | as written | input that shows it | evidently intended | confidence | as-written member | corrected member |
|---|---|---|---|---|---|---|
| gve_adminq.c:145-155 | the option loop bounds each option by the descriptor's `total_length` only, never by the size of the descriptor page | a 4096-byte descriptor page that declares 2 options and `total_length` 0xFFFF, the first option with id 0 and length 4050 at byte 40: that option ends at byte 4098, within `total_length`, so the second header is read at byte 4098, past the end of the page | reject a `total_length` larger than the buffer, as an inconsistent descriptor | medium, not executed | OptionWalk.OverlongTotalLengthReadsPastBuffer | OptionWalk.ProcessDeviceOptions |
| gve_adminq.c:715 | the completion loop is `for (i = tail; i < head; i++)` on unsigned 32-bit counters | one command issued at counter 0xFFFFFFFF, so that the producer count wraps to 0 and the device aborts it: the loop runs zero times and kick-and-wait returns 0 | scan the `head - tail` commands modulo 2^32, so that the failure is reported (EAGAIN) | medium, not executed | CompletionScan.WrappedScanMissesFailure | Transport.FlushScansOutstanding |
| gve_adminq.c:581-597 | gve_adminq_alloc resets every per-opcode counter except `adminq_verify_driver_compatibility_cnt` | re-allocating with any non-zero verify-driver-compatibility count, say 7 after seven such commands, leaves that count unchanged while all the others are 0 | reset that counter with the others | low, not executed | Transport.ResetAsWrittenKeepsVerifyCount | Transport.ZeroCountsAreZero |
