# A verified model of the elanmoc2 fingerprint-sensor drivers

The repository drives a match-on-chip fingerprint sensor over USB: a small Rust driver with a
command-line tool, patches to the C driver for the same protocol, and a read-only USB probe. This
project models the byte-level behaviour of all of them in Dafny and proves what they promise.

- `Proto.dfy` - the ten-command table, status bytes, request framing (`src/proto.rs`).
- `Sensor.dfy` - the far end. It is given bytes only and decodes them itself: stored templates, the
  record identified last, and two readings of `ff 12`.
- `Usb.dfy` - the bus: a reply queue for each IN endpoint, the wire, and an open handle.
- `Device.dfy` - the driver object and its operations (`src/device.rs`), each proved against a pure
  account of one request.
- `Runs.dfy` - what every run of requests keeps: storage safety, reply pairing.
- `Simulation.dfy` - the two readings of `ff 12`, told apart or not.
- `Automata.dfy`, `Cli.dfy` - the four `elanctl` commands as programs, and the automata they follow.
- `UserId.dfy`, `DeleteFrames.dfy` - user-id extraction in Rust and C, and the 72-byte delete request
  built in three places.
- `DeleteDriver.dfy`, `DeleteRuns.dfy` - the patched driver's delete state machine and the delete in
  enroll, over the same bus; what they do to storage and to the host's count of it, on every run.
- `HidReport.dfy`, `DescriptorWalk.dfy` - the probe's two binary decoders.

What the environment may do is an arbitrary function, so every theorem over a run holds for all of
it: any transfer may fail (a failed write may have reached the sensor, a failed read may leave its
reply to arrive late), any reply may have any length and any bytes, and storage after an enroll or
commit may be anything. What is assumed of the sensor:

- from `docs/PROTOCOL.md:182-212`: an identify reply with an ordinary status names a slot that holds a
  template, and that template's record becomes the one identified last;
- from `docs/PROTOCOL.md:276-288`, and line 247 for the wipe: only `ff 01`, `ff 11`, `ff 13` and `ff 99` are known to write
  storage (a request the documents do not describe may do anything), a wipe that arrives empties it
  and is not answered, and a reply is sent on the endpoint the command table gives;
- from how the driver judges a delete (`patches/0002-elanmoc2-combined-wipe-fix-and-delete.patch:85-103`),
  as `docs/PROTOCOL.md` leaves it open: status 0 means that exactly the named template went, any
  other status that none did;
- from how the driver builds a delete (line 66 of the same patch): byte 3 names the slot, as
  (byte 3 - 5) mod 16. That the user id behind it plays no part in what is removed is the model's own
  assumption; the payload's meaning is an open question in `docs/PROTOCOL.md:379-380`.

Where the code and its own text differ, the model follows what was found last. The comments at
`src/proto.rs:116` and `src/device.rs:312` say that `ff 12` is rejected; `docs/PROTOCOL.md:182`
supersedes them: it returns the record identified last and ignores its index. Both readings are
modelled. `docs/PROTOCOL.md:146` says replies have exactly `in_len` bytes; the Rust code accepts
any shorter reply, and so does the model. The C transport is not in the repository: it is taken
to read at most the two bytes a delete is answered with, to fail on a reply without the magic byte
(`docs/PROTOCOL.md:146-148`), and to end the state machine on any failure.

## Model

| member | source | states |
|---|---|---|
| Proto.BuildFrame | src/proto.rs:321-331 | a frame exists exactly when the payload fits, and the zeroed buffer filled in place is magic, opcode, payload, zeros |
| Proto.FramesEqualIff | src/proto.rs:321-331 | two table commands give equal frames exactly when they are one command and their payloads agree up to trailing zeros, one- and two-byte opcodes mixed |
| Proto.BcdExact | src/proto.rs:313-316 | every byte is read digit by digit, so every two-digit packed-BCD byte decodes to its number |
| Proto.StatusExact | src/proto.rs:252-268 | which byte each status stands for, both ways, and that exactly the bytes below 16 name a slot |
| Sensor.DecodesAsMeant | src/proto.rs:86-214 | a sensor that sees only the bytes recovers each command's effect class, reply endpoint and slot |
| Device.ElanMoc2.Transceive | src/device.rs:203-207 | a persistent command is refused with the bus untouched; anything else is one request whose reply is what the caller sees |
| Device.ElanMoc2.TransceiveDestructive | src/device.rs:210-217 | the token path carries any command as one request |
| Device.ElanMoc2.TransceiveUnchecked | src/device.rs:219-239 | write, read and magic check do exactly what one request does to the bus |
| Device.ElanMoc2.TransceiveRaw | src/device.rs:247-259 | the same without the magic check, still gated |
| Device.ElanMoc2.TransceiveRetrying | src/device.rs:262-270 | the same frame at most three times, stopping at the first reply that is not empty or at an error |
| Device.ElanMoc2.FirmwareVersion | src/device.rs:279-292 | one raw request, and the version or the error it yields |
| Device.VersionReadsBack | src/device.rs:279-292 | a version in packed BCD comes back as its two numbers, in order; a reply of less than two bytes is too short |
| Device.ElanMoc2.EnrolledCount | src/device.rs:295-304 | one retried query, and exactly byte 1 of its last reply, or the error it yields |
| Device.CountIsByteOne | src/device.rs:295-304 | a retried count query returns byte 1 of a reply of two bytes or more, Short for one byte, NoResponse after three empty replies, and otherwise the error that ended it |
| Device.ElanMoc2.ReadFingerInfo | src/device.rs:309-334 | one retried query for the slot; the pop loop computes the trimmed user id, with the status and length errors of the source |
| Device.FingerInfoExact | src/device.rs:309-334 | by its bytes, when a reply parses, when it is too short for the header of its PID, and which status error it gives: 0xff is Rejected, 0xfd NotEnrolled |
| Device.ElanMoc2.Abort | src/device.rs:337-340 | one framed abort request, its reply dropped and its error kept |
| Runs.WireIsLog | src/device.rs:219-259 | over every run the wire carries the frames of the requests made, each once, in order, and nothing else |
| Runs.RequestExact | src/device.rs:203-259 | from any bus, which error each request for a table command ends with, when the bus has moved, and otherwise which reply it hands over; a command without a reply reads nothing and succeeds |
| Runs.FramedIsFilteredRaw | src/device.rs:219-259 | framed and raw paths do the same to the bus; the framed reply is the raw one filtered by the magic check |
| Runs.OnlyRetriesGiveUp | src/device.rs:262-270 | over every run no single request reports that nothing answered |
| Runs.RetryVerdict | src/device.rs:262-270 | a retried query gives up exactly when all three replies were empty, and otherwise returns the first that was not |
| Runs.StorageSafe | src/device.rs:203-259 | over every run without the token, whatever sensor and bus do, no frame decodes to a storage write and the stored templates never change |
| Runs.DriverStorageSafe | src/device.rs:150-155 | the same for a driver object after any calls on it |
| Runs.GateIsExact | src/device.rs:347-352 | for any command value at all, some payload gets a storage write past the gate exactly when its effect tag and its opcode disagree |
| Runs.RepliesPaired | src/device.rs:219-239 | while no request that reads on an endpoint has met a USB failure, its queue is empty between requests and every reply read there answers its own request |
| Runs.DriverRepliesPaired | src/device.rs:150-155 | the same for a driver object after any calls on it |
| Runs.QueuedRepliesAreOld | src/device.rs:219-259 | over every run, a waiting reply answers a frame already sent |
| Runs.PairedIffNothingWaiting | src/device.rs:224-231 | a reply read answers its own request if and only if nothing was waiting on the endpoint |
| Runs.LateReplyWaits | src/device.rs:229 | a reply that comes late is left waiting for the next request |
| Simulation.FirmwaresIndistinguishable | docs/PROTOCOL.md:182-212 | for every adaptive client and every behaviour of sensor and bus, a log that asks only about the slot just identified is the same on both firmwares |
| Simulation.DistinguishedIff | docs/PROTOCOL.md:182-212 | on any bus with nothing waiting on its endpoint, asking about a slot has the same outcome on both firmwares exactly when it is not answered with a record, or both would give the same record, or neither record fits |
| Simulation.LateIdentifyDistinguishedIff | src/device.rs:229 | where indistinguishability ends: from queues with nothing waiting, an identify whose reply is late, an identify, and a lookup of the slot just told give the same log on both firmwares exactly when the two slots identified hold the same record |
| Automata.TameIsStorageSafe | src/bin/elanctl.rs:3-6 | every program that keeps to ungated table commands leaves storage as it was, on every run |
| Automata.BudgetBounds | src/device.rs:262-270 | a budget that every request spends bounds every log of a program, retries included |
| Automata.DriverLogIsPlay | src/bin/elanctl.rs:62-81 | what a program leaves on the driver, log and bus, is the play of its automaton as a client, so what holds of every client holds of the program |
| Cli.CmdIdentify | src/bin/elanctl.rs:212-250 | the program follows the identify automaton to its end, and returns the result the automaton ends in |
| Cli.CmdInfo | src/bin/elanctl.rs:90-134 | the program, with its loop over slots, follows the info automaton to its end |
| Cli.CmdDump | src/bin/elanctl.rs:136-178 | whatever fails, exactly twelve requests: the version, the count, and slots 0 to 9 in order |
| Cli.CmdCollision | src/bin/elanctl.rs:180-210 | one request, and its error if it has one |
| Cli.CollisionIsExact | src/bin/elanctl.rs:180-185 | collision makes one raw ff 10 request and nothing after it |
| Cli.CliIsTame | src/bin/elanctl.rs:3-6 | all four programs ask only for table commands that need no token |
| Cli.IdentifyBounded | src/bin/elanctl.rs:212-250 | identify puts at most 7 frames on the wire |
| Cli.IdentifyIsExact | src/bin/elanctl.rs:212-250 | a log is one of identify's if and only if each request in it is the one that a rule on the log alone, without phases, says is due; it has ended exactly when none is, and with which error |
| Cli.IdentifyOrder | src/bin/elanctl.rs:212-250 | a match only after a nonzero count, an abort only after the match failed, a lookup only of the slot just returned |
| Cli.IdentifyIndistinguishable | src/bin/elanctl.rs:212-250 | identify has the same log on both firmwares at every point of every run, retries and faults included |
| Cli.InfoIsExact | src/bin/elanctl.rs:90-134 | the same for info: version, count, then the slots in order, retries included |
| Cli.InfoBounded | src/bin/elanctl.rs:90-134 | info puts at most 34 frames on the wire |
| Cli.InfoVisitsEverySlot | src/bin/elanctl.rs:121-132 | a finished info has asked about exactly the slots below byte 1 of the count reply and below ten |
| Cli.DumpIsFixed | src/bin/elanctl.rs:139-176 | a dump asks the version, the count and slots 0 to 9, in that order, whatever it is told |
| Cli.DumpSlotsAnswerAlike | docs/PROTOCOL.md:184-195 | without faults, the ten slots of a dump all answer with the one record identified last, stored or not |
| UserId.UserIdRoundTrip | src/device.rs:309-334 | for every PID, an id without a trailing NUL comes back from any zero-padded reply with an ordinary status |
| UserId.ParsedReplyRepads | src/device.rs:309-334 | which replies parse, and that the id found re-pads to the reply it came from |
| UserId.LengthsAgreeIff | scripts/asan-repro-upstream.c:18-21 | for every 64-bit length the patched length saturates; the wrapping one equals it, and stays inside the reply, exactly when the reply is as long as its header |
| UserId.GetUserIdString | patches/0004-elanmoc2-fix-memory-safety-in-user-id-parsing.patch:108-145 | the copied bytes are the payload, the terminator is in bounds, and the length is the saturated one |
| UserId.NewPrintUserId | patches/0004-elanmoc2-fix-memory-safety-in-user-id-parsing.patch:156-193 | the stored id is cut at the first NUL when it starts with "FP" and whole otherwise, with every access in bounds |
| UserId.StoredIdExact | patches/0004-elanmoc2-fix-memory-safety-in-user-id-parsing.patch:162-166 | the stored id ends at the first NUL if and only if the payload begins with 46 50 or holds no NUL; any other payload is stored whole |
| UserId.TrimIsCutIff | patches/0004-elanmoc2-fix-memory-safety-in-user-id-parsing.patch:162-166 | trimming trailing NULs equals cutting at the first NUL exactly when nothing nonzero follows it |
| UserId.RustAgreesWithC | src/device.rs:322-333 | the Rust id is the C payload trimmed, and exactly when it is the id C stores |
| DeleteFrames.SlotByteExact | patches/0002-elanmoc2-combined-wipe-fix-and-delete.patch:66 | the slot byte is f0 plus (id + 5) mod 16; slot bytes are equal exactly for ids equal modulo 16, and the sensor's decoding recovers every ordinary slot |
| DeleteFrames.EnrollDeleteFrame | patches/0004-elanmoc2-fix-memory-safety-in-user-id-parsing.patch:198-222 | no frame exactly when no command buffer could be had; otherwise it holds the header, the slot byte, the whole payload and zeros, in bounds for every reply |
| DeleteFrames.DeleteSendFrame | patches/0002-elanmoc2-combined-wipe-fix-and-delete.patch:53-71 | no frame exactly when no command buffer could be had; otherwise it holds the header, the slot byte, the kept id and zeros |
| DeleteFrames.RustDeleteFrame | src/proto.rs:321-331 | the Rust framing of slot byte and id is that same buffer, and decodes to that slot |
| DeleteFrames.DeletePathsAgreeIff | patches/0004-elanmoc2-fix-memory-safety-in-user-id-parsing.patch:208-222 | for one slot and one reply the two C paths and Rust send the same 72 bytes exactly when an "FP" payload holds only NULs after its first |
| DeleteFrames.WellFormedIdAgrees | scripts/asan-repro-patched.c:28-45 | for every id as libfprint writes it, Rust and C read it back and all three build one frame |
| DeleteDriver.FpiDeviceElanMoC2.DeleteRunState | patches/0002-elanmoc2-combined-wipe-fix-and-delete.patch:41-105 | one entry into the handler, with the reentry when no command buffer could be had |
| DeleteDriver.FpiDeviceElanMoC2.DeletePrint | patches/0002-elanmoc2-combined-wipe-fix-and-delete.patch:107-141 | starting a delete, and the early end for a print with bad data |
| DeleteDriver.FpiDeviceElanMoC2.EnrollCheckDeleted | patches/0002-elanmoc2-combined-wipe-fix-and-delete.patch:7-25 | a refused delete ends the enroll with an error; an accepted one goes on |
| DeleteDriver.FpiDeviceElanMoC2.EnrollAttemptDelete | patches/0004-elanmoc2-fix-memory-safety-in-user-id-parsing.patch:193-222 | the enroll path sends the delete frame of the reply it took, or moves on with no reply when no command buffer could be had |
| DeleteDriver.CmdTransceive | patches/0002-elanmoc2-combined-wipe-fix-and-delete.patch:71 | the transport does to the bus what one delete request of the shared protocol does, and hands over the reply or a failure |
| DeleteDriver.Operate | patches/0002-elanmoc2-combined-wipe-fix-and-delete.patch:107-141 | the handler's entries and callbacks, run with the bus in between, are one delete of the runs below |
| DeleteRuns.DeleteTouchesOnlyItsTarget | patches/0002-elanmoc2-combined-wipe-fix-and-delete.patch:75-103 | on any bus: storage after a delete is the old one, or the old one minus the named template exactly when the sensor carried it out; at most one frame is sent; success is reported and counted exactly when the reply handed over says so, and a refusal exactly when it says that |
| DeleteRuns.DeleteAsksForItsOwn | patches/0002-elanmoc2-combined-wipe-fix-and-delete.patch:63-71 | every delete that is sent puts one 72-byte frame on the wire, with its own finger's slot byte, the first 68 bytes of its own user id, and zeros |
| DeleteRuns.StoredPrintIsAskedForAlikeIff | patches/0004-elanmoc2-fix-memory-safety-in-user-id-parsing.patch:208-222 | deleting a print made from a reply sends the very frame the enroll path sends for that reply, exactly when an "FP" payload holds only NULs after its first |
| DeleteRuns.NoReplyIff | patches/0002-elanmoc2-combined-wipe-fix-and-delete.patch:75-83 | when a delete reports bad data, and when it reports that no reply came |
| DeleteRuns.DeleteLeavesAlone | patches/0002-elanmoc2-combined-wipe-fix-and-delete.patch:107-141 | the print index and the enroll print are left alone, and a print with bad data changes nothing but the reports |
| DeleteRuns.ReportIsHonestIff | patches/0002-elanmoc2-combined-wipe-fix-and-delete.patch:75-103 | on any bus: a reported success changed storage and a reported refusal did not, if and only if the delete was not handed a reply left from before that says the opposite of what happened; with nothing waiting, each is reported exactly when true and readable |
| DeleteRuns.FalseSuccessIff | patches/0002-elanmoc2-combined-wipe-fix-and-delete.patch:85-103 | success is reported although nothing went exactly when the delete read a success that was waiting from before |
| DeleteRuns.FalseRefusalIff | patches/0002-elanmoc2-combined-wipe-fix-and-delete.patch:85-95 | a refusal is reported although the template went exactly when the delete read a refusal that was waiting from before |
| DeleteRuns.LateSuccessIsMisjudged | patches/0002-elanmoc2-combined-wipe-fix-and-delete.patch:85-103 | a run to a false success from an endpoint with nothing waiting: a delete whose reply is late, then a refused delete that reports success |
| DeleteRuns.LateRefusalIsMisjudged | patches/0002-elanmoc2-combined-wipe-fix-and-delete.patch:85-95 | a run to a false refusal from an endpoint with nothing waiting: a refused delete whose reply is late, then a delete that removes its template, reports a refusal and leaves the count as it was |
| DeleteRuns.JudgesItsOwnReplyIff | patches/0002-elanmoc2-combined-wipe-fix-and-delete.patch:75-103 | the reply judged is the operation's own if and only if nothing was waiting on the endpoint |
| DeleteRuns.CleanDeletesJudgeTheirOwn | patches/0002-elanmoc2-combined-wipe-fix-and-delete.patch:75-103 | over any sequence of deletes without a failed transfer, nothing is ever left waiting and every reply judged is the operation's own |
| DeleteRuns.DeleteReportsOnce | patches/0002-elanmoc2-combined-wipe-fix-and-delete.patch:42-105 | a delete without transport failure reports its end exactly once and leaves no machine running |
| DeleteRuns.StaleBufferIgnored | patches/0002-elanmoc2-combined-wipe-fix-and-delete.patch:47-49 | whatever `buffer_in` held before, a delete does the same |
| DeleteRuns.CountTracksStorage | patches/0002-elanmoc2-combined-wipe-fix-and-delete.patch:97-99 | over any sequence of deletes on any bus, replies late, lost or short, the host's count is the sensor's, plus the successes still waiting, plus the successes lost or unreadable |
| DeleteRuns.CountExactWhileClean | patches/0002-elanmoc2-combined-wipe-fix-and-delete.patch:97-99 | while no transfer fails and every reply can be judged, the count is exact |
| DeleteRuns.DeletesAreContained | patches/0002-elanmoc2-combined-wipe-fix-and-delete.patch:75-103 | over any sequence of deletes on any bus: one report for each the transport did not fail, nothing newly stored or altered, and whatever is gone was named by a delete that was sent |
| DeleteRuns.OperateEnroll | patches/0002-elanmoc2-combined-wipe-fix-and-delete.patch:7-25 | the two enroll states, run with the bus in between, are the run that the next rows speak of |
| DeleteRuns.EnrollDeleteIsContained | patches/0002-elanmoc2-combined-wipe-fix-and-delete.patch:7-25 | on any bus and with or without a command buffer: the enroll removes the named template or nothing, goes on exactly when the reply handed over is a success, and fails, with no further frame, exactly when it is a refusal |
| DeleteRuns.EnrollAsksForItsOwn | patches/0004-elanmoc2-fix-memory-safety-in-user-id-parsing.patch:208-222 | the enroll path puts one 72-byte frame on the wire: its own finger's slot byte, the whole payload of the reply it took, and zeros |
| DeleteRuns.EnrollIsHonestIff | patches/0002-elanmoc2-combined-wipe-fix-and-delete.patch:7-25 | on any bus: going on means the template went and failing means nothing did, if and only if no opposite reply left from before was handed over; it fails with the template gone exactly when the delete is carried out and reads a waiting refusal |
| DeleteRuns.EscalationLosesEverything | patches/0002-elanmoc2-combined-wipe-fix-and-delete.patch:7-11 | before the patch, on any bus: the enroll went on to wipe exactly when the reply handed over was a refusal, its own or a waiting one, and the wipe empties the storage, which a refused delete had left whole; with nothing waiting, exactly when the delete was refused and a readable reply came over |
| HidReport.DecodeReportDescriptor | src/bin/probe.rs:228-259 | the loop ends on every buffer, in bounds, with exactly the specified items |
| HidReport.ItemsTile | src/bin/probe.rs:228-259 | prefix and data bytes of the items put together are the buffer, and only the last item can be cut short |
| HidReport.ValueIsLittleEndian | src/bin/probe.rs:239 | the value of one, two or four data bytes is their little-endian number |
| HidReport.ShortItemsRoundTrip | src/bin/probe.rs:231-239 | decoding any encoded sequence of items whose fields are in range, among them all short items of section 6.2.2.2 of HID 1.11, gives it back, 32-bit values included |
| HidReport.WholeBuffersReencode | src/bin/probe.rs:228-259 | every buffer whose last item is whole is the encoding of what it decodes to |
| HidReport.DecoderCutsAsStandardIff | src/bin/probe.rs:228-259 | on any encoded sequence of short and long items (section 6.2.2.3 of HID 1.11), the decoder cuts where the standard does exactly when no long item carries data |
| HidReport.LongItemsAreSeen | src/bin/probe.rs:228-259 | a decoded item has the long prefix 0xfe exactly when the sequence holds a long item, so a reader of the output can tell |
| HidReport.ShortStandardItemsDecode | src/bin/probe.rs:231-239 | without long items, the decoded items are exactly the standard's |
| DescriptorWalk.DecodeHidDescriptor | src/bin/probe.rs:202-225 | the loop ends on every buffer, in bounds, with the specified reports and visited offsets |
| DescriptorWalk.WalkFindsDescriptors | src/bin/probe.rs:202-225 | over well-formed descriptors and then bytes that are not one, it visits exactly the boundaries and reports exactly the HID descriptors, in order |
| DescriptorWalk.WalkOnAnyBytes | src/bin/probe.rs:202-225 | on arbitrary bytes, the input splits into self-sized descriptors and a rest, and that is what is visited and reported |
| DescriptorWalk.WalkReportsExactly | src/bin/probe.rs:202-225 | on arbitrary bytes, what is reported is, in order and one for one, the descriptors of nine bytes or more with type 0x21, longer ones included, every field read from its own offset |
| DescriptorWalk.HidDescriptorsRoundTrip | src/bin/probe.rs:210-222 | HID descriptors encoded one after another (section 6.2.1 of HID 1.11) are walked back to themselves, every field in place and the 16-bit lengths exact |

## Left out

- libusb, device discovery, kernel-driver detach, timeouts as time, `Drop`: foreign calls. A transfer
  succeeds or fails; opening is modelled only as far as the driver object's fields.
- `write_bulk`'s returned count is ignored by the source, so a write that succeeds is taken to be
  complete. The OUT endpoint number is not modelled, as there is only one.
- Printing, argument parsing, elapsed times, `user_id_display`, `hex`, `describe` and
  `is_retryable`: display, or not used by any operation. Command names are an enumeration.
- Cli.CmdIdentify: says what it does on a freshly opened driver, as `elanctl` always calls it; so do
  the other three commands.
- Runs.StorageSafe: is for the ten table commands. `Cmd` has public fields, and for any other value
  Runs.GateIsExact gives the exact condition.
- Simulation.FirmwaresIndistinguishable: does not cover a client that goes on after a USB failure of
  an identify or enroll: there it fails, and Simulation.LateIdentifyDistinguishedIff gives the input
  and its exact condition.
- UserId.LengthsAgreeIff: models the upstream helper by its length arithmetic and the bytes it reads.
  Its terminator is one past the end of its array for every input, so it has no in-bounds run.
- DeleteDriver.FpiDeviceElanMoC2.EnrollCheckDeleted: takes a reply of at least two bytes; what the
  state does with a missing or shorter one stands before the lines the patches show, so there a run
  is left in that state.
- DeleteRuns.DeleteReportsOnce: on a transport failure says only that the handler reports nothing;
  the completed-callback that reports it is not part of this model.
- DeleteRuns.ReportIsHonestIff: the code judges whatever reply it is handed, so a waiting success can
  pass for a delete that did nothing, and a waiting refusal for one that removed its template.
  DeleteRuns.FalseSuccessIff and DeleteRuns.FalseRefusalIff give the exact conditions.
- DeleteRuns.CountExactWhileClean: is for runs without faults; on every other run
  DeleteRuns.CountTracksStorage says by how much the count is off.
- The rest of the C driver (full enroll and identify machines) and libfprint's reporting functions
  are not in the repository; patch 0003's error ownership depends on them. `fpi-data` is taken to
  carry finger and id unchanged.
- The probe's item and type names are display text. It has no case for long items: one that carries
  data is cut in the wrong place, and HidReport.DecoderCutsAsStandardIff says exactly when.
- DescriptorWalk.WalkFindsDescriptors: needs bLength of at least 2 to place the visits; on a bLength
  of 1 the walk steps by one byte, which DescriptorWalk.WalkOnAnyBytes covers.
- Shell scripts, packaging, PID lists, `packaging/*.patch` and patch 0001: scripting, duplicates or
  superseded.
