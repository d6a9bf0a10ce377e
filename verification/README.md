# OptiBridge, verified

OptiBridge is a small part that receives a BPF image over I2C, stages it in NOR flash, commits it
with a marker written last, and runs it on command or on a timer. This project models that path in
Dafny and proves what the design relies on:

- **RAM and flash agree** in every state of every run, with any flash operation failing, any
  programming run torn in any set of bits, and the power going in the middle of any of them; after a
  reboot at any point the part offers no image, an untouched old image, or the image of the last
  transfer that was completely received and matched its declared CRC.
- **The two-phase loader refines a sequential one**: what the callback checked still holds when the
  main loop acts on it, and refusals, retries and idle turns leave no trace.
- **Uploads** of a well-formed image complete with the same flash cells, however it is cut into
  pieces and whatever retries, queries and program runs come between; **a burst of up to 32 wrong
  bits** is always refused; and what is stored **stays** until an erase succeeds.
- **Programs run one at a time**, only from a validated image the flash still holds, under every
  interleaving of the interrupt and the main loop; a claim is released once its program returns, and
  **timer events** run at most once, never early, with their cookie, and not after a later schedule or
  cancel short of a whole cycle of generations. Exactly when a claimed event runs is stated too.
- **Frames, the dispatcher and the two views of a map** do what their wire formats promise.

## How it is built

| file | what it holds |
| --- | --- |
| `Bytes.dfy` | bytes and words, their encodings, bitwise operations |
| `Crc32.dfy`, `CrcCheck.dfy` | the CRC loop, chunk independence, equality with RFC 1952 section 8, burst detection; the standard's check value |
| `MachineBytes.dfy` | the bitwise operations on numbers are the machine's on bytes |
| `NorFlash.dfy` | the flash part: AND-writes, page erases, faults, torn writes, power cuts, bus history |
| `MapLayouts.dfy` | descriptors, the checked 32-bit scan and its unbounded specification |
| `ImageFormat.dfy` | header, marker, slot geometry, and the image a flash content amounts to |
| `LoaderModel.dfy`, `BpfLoader.dfy` | the loader's operations as functions on its state, and the object whose methods are proved against them |
| `ImageStore.dfy`, `LoaderAgreement.dfy` | the abstract image store, the invariant tying RAM to flash, and one simulation lemma an operation |
| `LoaderRuns.dfy`, `WriteDiscipline.dfy`, `Uploads.dfy` | whole runs: crash safety, refinement, bus discipline, durability, uploads |
| `Departures.dfy` | where the loader does not do what its requirements say, and exactly when |
| `Frames.dfy`, `Dispatch.dfy` | parser, captures, encoder, stream; the dispatcher and its contract |
| `HostView.dfy` | which answer each command gets, told by the abstract image store alone |
| `MapAccess.dfy`, `MapElements.dfy` | the paged byte view and the element view of the same backing store |
| `Timer.dfy`, `Runtime.dfy`, `Executions.dfy` | the timer, the main loop with its interrupt as a transition system, and what holds of program executions |
| `EventFates.dfy` | exactly when a claimed timer event executes, and how one is lost or outlives its cancel |
| `Firmware.dfy` | one pass of the main loop on the firmware's objects, proved to be steps of that system |
| `BusView.dfy` | the protocol in literal bytes, sent to the whole machine |
| `HostUploads.dfy` | uploads as frames sent to the whole machine, between anything else that may happen |

Operations that update state in place are methods on classes and arrays (`Flash`, `BpfLoader`,
`Parser`, `Dispatcher`, `TimerState`, the map writers), each proved equal to a function on values;
the properties are proved of those functions. A flash device carries a list of faults, one for each
operation to come: it works, it fails, or the power is cut; a write that fails or is cut leaves any
chosen set of bits unprogrammed. An erase is atomic. The order of events is arbitrary everywhere.

## Where code and requirements differ

The model follows the code.

- `specs/optibridge/requirements.md:296-300` says a failed attempt is not marked committed. If the
  marker write reports failure after both marker bytes reached zero, the loader reports a flash error
  and the next boot commits the image. `Departures.FinalizeExactly` gives the exact outcome of every
  Finalize under every fault, `Departures.FailedAttemptReturns` inputs that show the failure.
- `specs/optibridge/requirements.md:306-313` lets the CRC query report a flash or CRC error after a
  failed operation. Unacceptable descriptors, and also a failed read of a descriptor, make Finalize
  and then the query report Bad State. `Departures.QueryBadState` gives the exact condition for every
  flash; `Departures.UntypedMapRefused` and `Departures.UnreadMapRefused` give inputs of both kinds.
- The same lines keep "no program" for a part without a valid image. At boot a failed read of the
  header or the payload is a flash error, but a failed read of a descriptor leaves the slot reported
  empty although it holds an image. `Departures.BootExactly` gives the exact split,
  `Departures.UnreadMapHidesImage` inputs that show it.
- `specs/optibridge/requirements.md:451-459` has a ready event retained, and names cancel, replacement
  and reset as what discards it. A current event that finds a load parked, or no image loaded, is dropped for good:
  `EventFates.EventFate` gives the exact condition for a claimed event to execute,
  `EventFates.EventGone` shows that otherwise it never does, and `EventFates.CurrentEventLost` is a run
  from power-on that loses a fresh event.
- `specs/optibridge/requirements.md:480-489` forbids that a cancelled or replaced event invokes a
  program. It does exactly after a whole cycle of 2^32 - 1 further schedules and cancels:
  `Executions.EventChecked` gives the condition, `EventFates.StaleEventReached` a run from power-on.

One behaviour may surprise although it contradicts no requirement: a Begin whose erase failed leaves the
old image in flash while the loader reports a flash error, and a reboot offers that image again.
`Departures.BeginExactly` says exactly when.

## Model

| member | source | states |
|---|---|---|
| Crc32.Crc32Update | crates/optibridge-protocol/src/lib.rs:512-528 | The in-place byte and bit loops compute the CRC register function |
| Crc32.UpdateConcat | crates/optibridge-protocol/src/lib.rs:512-528 | The register after a concatenation is the register after the parts: 2 to 12 byte pieces and 16-byte chunks give the same CRC |
| Crc32.ChecksumIsRfc1952 | crates/optibridge-protocol/src/lib.rs:508-532 | The bitwise CRC equals the table-driven CRC-32 of section 8 of RFC 1952, whose table is computed by its own eight steps, on every byte string |
| CrcCheck.CheckValue | crates/optibridge-protocol/src/lib.rs:508-532 | The checksum of the digits "123456789" is 0xcbf4_3926 |
| MachineBytes.CellProgrammed | crates/optibridge-protocol/src/lib.rs:1416-1418 | A programmed cell is the machine's AND of what it held and what was sent, less the bits a torn run kept |
| Bytes.WordValues | crates/optibridge-protocol/src/lib.rs:541-565 | Two and four bytes stand for their little-endian numbers |
| Bytes.WordBytes | crates/optibridge-protocol/src/lib.rs:461-462 | Numbers are written lowest byte first |
| Crc32.BurstChangesChecksum | crates/optibridge-protocol/src/lib.rs:512-532 | Two messages of equal length that differ only inside 32 consecutive bits, across up to five bytes, have different checksums |
| NorFlash.Flash.Read | crates/optibridge-protocol/src/lib.rs:1402-1407 | A read gives the addressed cells, or an error out of range or on a fault, and changes no cell |
| NorFlash.Flash.Write | crates/optibridge-protocol/src/lib.rs:1409-1420 | A halfword-aligned write ANDs its data into the cells one by one in place; a faulty one leaves the torn bits set |
| NorFlash.Flash.Erase | crates/optibridge-protocol/src/lib.rs:1422-1431 | A page-aligned erase sets its pages to 0xff, or fails and changes nothing |
| NorFlash.FlashRaw | crates/optibridge-protocol/src/lib.rs:1401-1431 | Read, write and erase in numbers: when each works, which cells it gives, leaves or sets |
| NorFlash.WriteBlank | crates/optibridge-protocol/src/lib.rs:1409-1420 | Over erased cells an acknowledged write stores exactly what was sent, and no write touches other cells |
| NorFlash.TornOnes | crates/optibridge-protocol/src/lib.rs:1416-1418 | However torn, programming 0xff over an erased byte leaves it erased |
| MapLayouts.ScanLayouts | crates/optibridge-protocol/src/lib.rs:538-589 | The descriptor loop with checked 32-bit arithmetic and 16-bit casts computes the scan function |
| MapLayouts.ScanExact | crates/optibridge-protocol/src/lib.rs:538-589 | A scan succeeds exactly if every read of a descriptor works and the list has type 1, key size 4, nonzero sizes and counts, and an unbounded total of at most 1024; it then returns the prefix sums |
| MapLayouts.ScanRaw | crates/optibridge-protocol/src/lib.rs:546-586 | The same on the raw cells: which four bytes are type, key size, value size and entry count, and each map's offset, length and value size as numbers of them |
| MapLayouts.LayoutsTile | crates/optibridge-protocol/src/lib.rs:566-588 | The ranges are nonempty, follow each other without overlap and cover every byte below the total |
| ImageFormat.HeaderDetermined | crates/optibridge-protocol/src/lib.rs:457-462 | The header's fields determine all sixteen bytes, so header encoding is injective |
| ImageFormat.ParseHeaderExact | crates/optibridge-protocol/src/lib.rs:374-402 | The boot check accepts exactly the headers Begin writes for allowed sizes, with the marker programmed |
| ImageFormat.ParseHeaderRaw | crates/optibridge-protocol/src/lib.rs:379-402 | The boot check on the sixteen raw bytes, with every constant written out |
| ImageFormat.HeaderRaw | crates/optibridge-protocol/src/lib.rs:457-463 | The sixteen bytes Begin writes, written out |
| ImageFormat.SlotRaw | crates/optibridge-protocol/src/lib.rs:29-35 | Where header, marker and data lie, and the one or two pages erased for an image |
| ImageFormat.StoredExact | crates/optibridge-protocol/src/lib.rs:372-435 | Flash holds an image exactly if its marked header, its payload and its vetting all match that image |
| ImageFormat.ErasedPages | crates/optibridge-protocol/src/lib.rs:449-451 | The erased pages are the fewest whole pages that hold header and image, inside the reserved slot |
| BpfLoaderObject.BpfLoader.AcceptsLoad | crates/optibridge-protocol/src/lib.rs:132-197 | The callback's check changes only the parked operation, as the acceptance function says |
| BpfLoaderObject.BpfLoader.QueryCrc | crates/optibridge-protocol/src/lib.rs:199-208 | The query answers as the function of the loader's state says |
| BpfLoaderObject.BpfLoader.Metadata | crates/optibridge-protocol/src/lib.rs:223-246 | The metadata loop copies exactly the committed maps and leaves the rest empty |
| BpfLoaderObject.BpfLoader.StartMetadata | crates/optibridge-protocol/src/lib.rs:210-221 | Metadata for a Start is given only for a committed image with nothing parked, else the status that stands in the way |
| BpfLoaderObject.BpfLoader.EventMetadata | crates/optibridge-protocol/src/lib.rs:248-258 | Metadata for a timer event is given for a committed or running image with nothing parked, else the status |
| BpfLoaderObject.BpfLoader.SetRunning | crates/optibridge-protocol/src/lib.rs:260-270 | Only a committed image is marked running, keeping its CRC |
| BpfLoaderObject.BpfLoader.ExecutePending | crates/optibridge-protocol/src/lib.rs:344-370 | Taking and performing the parked operation updates the fields and the flash array as the step function says |
| BpfLoaderObject.BpfLoader.BeginReception | crates/optibridge-protocol/src/lib.rs:437-474 | Begin erases, writes the unmarked header and resets the transfer fields, or fails |
| BpfLoaderObject.BpfLoader.Commit | crates/optibridge-protocol/src/lib.rs:476-494 | Finalize checks the CRC, scans the descriptors and writes the marker, in this order, each with its own failure |
| BpfLoaderObject.BpfLoader.Validate | crates/optibridge-protocol/src/lib.rs:372-435 | Boot validation rebuilds the loader from flash as the boot function says |
| BpfLoaderObject.ReadCrc | crates/optibridge-protocol/src/lib.rs:403-420 | The 16-byte read loop computes the scanned CRC or stops at a failed read |
| LoaderAgreement.AcceptAgrees | crates/optibridge-protocol/src/lib.rs:132-197 | Accepting keeps RAM and flash in agreement and parks only admissible operations; a refusal changes nothing |
| Uploads.AcceptExact | crates/optibridge-protocol/src/lib.rs:132-197 | A payload is accepted exactly if it spells an operation admissible where the loader stands, and that operation is parked |
| Uploads.AcceptRaw | crates/optibridge-protocol/src/lib.rs:132-197 | Acceptance on raw bytes: every payload's exact status, and the numbers an accepted one parks |
| LoaderAgreement.QueryReportsStored | crates/optibridge-protocol/src/lib.rs:199-208 | The query gives a CRC exactly when an image is ready or running with nothing parked, and it is the checksum of the stored payload |
| LoaderAgreement.BeginAgrees | crates/optibridge-protocol/src/lib.rs:437-474 | Begin keeps the agreement under every fault; a transfer starts exactly if erase and header write work, the stored image is destroyed exactly if the erase works, and a failed erase changes no cell |
| LoaderAgreement.DataAgrees | crates/optibridge-protocol/src/lib.rs:354-367 | Data keeps the agreement: the flash holds exactly the bytes received, erased cells after them to the end of the pages, and the running CRC is theirs; the transfer goes on exactly if the write works |
| LoaderAgreement.FinalizeAgrees | crates/optibridge-protocol/src/lib.rs:476-494 | Finalize commits only the complete vetted image, although it never reads the payload back; on flash that works its verdict is exactly the image's |
| LoaderAgreement.TurnAgrees | crates/optibridge-protocol/src/lib.rs:344-370 | What the callback checked still holds when the main loop performs it, and performing it is a step of the abstract image store |
| LoaderAgreement.MarkRunningAgrees | crates/optibridge-protocol/src/lib.rs:855-872 | After the dispatcher's metadata check, marking succeeds and turns the ready image into the active one |
| LoaderAgreement.CrcScanExact | crates/optibridge-protocol/src/lib.rs:403-420 | Reading 16 bytes at a time gives the CRC of the whole payload, exactly if every such read works |
| LoaderAgreement.BootAgrees | crates/optibridge-protocol/src/lib.rs:372-435 | From any flash content and under any faults boot establishes the agreement, changes no cell and ends in exactly the state its reads and the stored image call for |
| LoaderRuns.RunReachable | crates/optibridge-protocol/src/lib.rs:116-500 | RAM and flash agree in every state of every run with any faults, and a transfer holds exactly what the host sent |
| LoaderRuns.CrashSafety | crates/optibridge-protocol/src/lib.rs:344-494 | Reboot after any run, cut anywhere: no image and no maps, the old image in a flash nothing changed, or a vetted image completely sent before a Finalize that left the flash exactly as it is; never a mixture |
| LoaderRuns.RebootRoundTrip | crates/optibridge-protocol/src/lib.rs:372-435 | A reboot with good reads brings a committed or running image back with the same CRC, length, map count and layouts |
| LoaderRuns.RefinesSequential | crates/optibridge-protocol/src/lib.rs:132-208 | Loader and flash are those of a sequential loader performing only the accepted operations, each still allowed at its turn |
| WriteDiscipline.RunDisciplined | crates/optibridge-protocol/src/lib.rs:354-367 | In every run each attempt is one erase of exactly the pages needed, followed by its header and no other erase, gapless ascending data inside those pages, then the marker; every write finds 0xff |
| WriteDiscipline.RunStaysInSlot | crates/optibridge-protocol/src/lib.rs:437-494 | Every erase and write of every run is aligned, lies in 0x6000 to 0x8000 and writes land on erased bytes |
| WriteDiscipline.PerformErases | crates/optibridge-protocol/src/lib.rs:437-456 | Performing one operation erases at most once, and only if it is a Begin |
| WriteDiscipline.OneErasePerBegin | crates/optibridge-protocol/src/lib.rs:449-456 | Summed over any run there are at most as many erases as performed Begins |
| WriteDiscipline.Durable | crates/optibridge-protocol/src/lib.rs:437-456 | From any reached state outside a transfer every flash byte stays as it is until an erase succeeds, and a boot with good reads offers the stored image again |
| Uploads.UploadEnds | crates/optibridge-protocol/src/lib.rs:139-197 | From any quiet state an image sent in any even pieces of 2 to 12 bytes commits exactly if its CRC matches and its maps are acceptable; cells and metadata depend on the image alone |
| Uploads.ResumeEnds | crates/optibridge-protocol/src/lib.rs:155-178 | A transfer in progress can always be completed, because what is missing has even length |
| Uploads.BurstRejected | crates/optibridge-protocol/src/lib.rs:476-480 | If the bytes received differ from the declared image only within 32 consecutive bits, Finalize ends in Bad CRC and touches no cell |
| Departures.BeginExactly | crates/optibridge-protocol/src/lib.rs:437-474 | The exact state and the exact stored image after every parked Begin under every fault |
| Departures.FinalizeExactly | crates/optibridge-protocol/src/lib.rs:476-494 | The exact state and the exact stored image after every Finalize under every fault; the two differ exactly when the marker lands unacknowledged |
| Departures.FailedAttemptReturns | crates/optibridge-protocol/src/lib.rs:487-490 | Any mapless image, from any quiet state, whose Finalize reports a flash error and is committed by the next boot |
| Departures.ErasedAttemptReturns | crates/optibridge-protocol/src/lib.rs:487-490 | The same for any one instruction sent to an erased part just switched on |
| Departures.QueryBadState | crates/optibridge-protocol/src/lib.rs:481-486 | After Finalize, over any flash, the query answers Bad State exactly if the CRC matched and the descriptors are not acceptable or the read of one failed |
| Departures.UntypedMapRefused | crates/optibridge-protocol/src/lib.rs:481-486 | Images with an untyped descriptor for which the query answers Bad State over working flash |
| Departures.UnreadMapRefused | crates/optibridge-protocol/src/lib.rs:481-486 | Any image with maps and a matching CRC for which a failed descriptor read makes the query answer Bad State |
| Departures.BootExactly | crates/optibridge-protocol/src/lib.rs:372-435 | A boot over a stored image reports a flash error exactly if a header or payload read fails, the image exactly if the descriptor reads work too, and an empty slot otherwise |
| Departures.UnreadMapHidesImage | crates/optibridge-protocol/src/lib.rs:421-425 | Any stored image with maps that one failed descriptor read hides until the next boot |
| MapAccess.ReadMapBytes | crates/optibridge-protocol/src/lib.rs:276-307 | The map read on the loader object and the backing array equals the read function |
| MapAccess.WriteMapInPlace | crates/optibridge-protocol/src/lib.rs:309-342 | The in-place map write equals the write function on the whole backing array |
| MapAccess.ReadMapExact | crates/optibridge-protocol/src/lib.rs:276-307 | A read succeeds exactly for 1 to 16 bytes inside an existing map and returns those bytes |
| MapAccess.WriteMapExact | crates/optibridge-protocol/src/lib.rs:309-342 | A write succeeds exactly for 1 to 14 bytes inside an existing map, replaces those bytes, no other map's and nothing outside; a refused one changes nothing |
| MapAccess.LocateExact | crates/optibridge-protocol/src/lib.rs:837-843 | The masks and shifts accept exactly the packed pairs of a 3-bit ID and a 10-bit offset and give them back |
| MapAccess.PagedTransfer | crates/optibridge-protocol/src/lib.rs:824-851 | Any bytes of any map written in pages of 1 to 14 and read in pages of 1 to 16 come back; all other bytes and maps are unchanged |
| MapElements.UpdateInPlace | firmware/optibridge/src/map_helpers.rs:26-42 | The in-place element update equals the update function on the whole backing slice |
| MapElements.ValueRangeExact | firmware/optibridge/src/map_helpers.rs:7-18 | An index is accepted exactly if it is below the declared entry count, with its range at index times value size |
| MapElements.LookupExact | firmware/optibridge/src/map_helpers.rs:20-24 | Lookup gives the value at the index, or nothing beyond the last entry |
| MapElements.UpdateExact | firmware/optibridge/src/map_helpers.rs:26-42 | Update is the functional array update at that index, byte replacement at index times value size, and changes no other entry, map or byte |
| MapElements.UpdateIsWrite | crates/optibridge-protocol/src/lib.rs:309-342 | A program's update and the host's map write of the same value are the same change |
| MapElements.FindMap | firmware/optibridge/src/main.rs:391-405 | The search loop returns a map that starts at the pointer, or reports that none does |
| MapElements.FindExact | firmware/optibridge/src/main.rs:391-405 | A pointer finds a map exactly if it is that map's start, so the first match is the only one |
| MapElements.UpdateHelper | firmware/optibridge/src/main.rs:438-471 | The in-place update helper equals the helper function: lookup of the map, argument checks, range, copy |
| MapElements.HelperLookupExact | firmware/optibridge/src/main.rs:414-436 | The lookup helper gives the place of the value exactly for a map's start, a readable key and an index below the entry count, and null for anything else and while no program is active |
| MapElements.HelperUpdateExact | firmware/optibridge/src/main.rs:414-471 | The update helper succeeds exactly on valid arguments, is then the element update, and the lookup helper points at what it wrote |
| MapElements.HelperUpdateRefused | firmware/optibridge/src/main.rs:438-461 | For any other pointer, key or without an active program the update helper fails and changes nothing |
| Frames.Parser.PushByte | crates/optibridge-protocol/src/lib.rs:661-698 | Pushing a byte into the buffer equals the push function on the bytes held |
| Frames.PushInvariant | crates/optibridge-protocol/src/lib.rs:661-698 | Between bytes the parser holds an unfinished frame: the buffer never fills, the overflow error never occurs, and what it yields is a valid frame's request |
| Frames.PushRaw | crates/optibridge-protocol/src/lib.rs:661-698 | What each byte does to the parser, in numbers |
| Frames.FrameRaw | crates/optibridge-protocol/src/lib.rs:672-694 | What a frame is and which of its bytes are command, length, sequence, flags and payload |
| Frames.ParsePacket | crates/optibridge-protocol/src/lib.rs:927-941 | The capture loop computes the parsed request |
| Frames.ParsePacketExact | crates/optibridge-protocol/src/lib.rs:927-941 | A capture yields a request exactly if it is complete and one or more valid frames end to end, and then the last one's |
| Frames.FramingUnique | crates/optibridge-protocol/src/lib.rs:922-926 | A byte string is a concatenation of frames in at most one way |
| Frames.ParsedWellFormed | crates/optibridge-protocol/src/lib.rs:683-694 | Every parsed request has at most 16 payload bytes and zeros after them |
| Frames.EncodeResponse | crates/optibridge-protocol/src/lib.rs:706-723 | The encoder writes the frame over the start of the buffer and leaves the rest, or refuses a long payload and writes nothing |
| Frames.EncodeRoundTrip | crates/optibridge-protocol/src/lib.rs:661-723 | Pushing an encoded frame answers at its last byte only, with its fields and its padded payload |
| Frames.DecodeStream | firmware/i2c-bridge/src/main.rs:140-151 | The bridge's loop over one parser computes the stream function |
| Frames.Resynchronises | firmware/i2c-bridge/src/main.rs:140-151 | From any parser state twenty bytes other than the magic leave it idle, and then any frames are decoded in order |
| Dispatch.StatusQueue.Pop | crates/optibridge-protocol/src/lib.rs:629-633 | Pop returns the unread bytes and leaves the queue empty |
| Dispatch.Dispatcher.Handle | crates/optibridge-protocol/src/lib.rs:800-879 | The dispatcher on its objects and buffers equals the dispatch function, and calls the executor exactly as that says |
| Dispatch.Dispatcher.HandlePacket | crates/optibridge-protocol/src/lib.rs:908-920 | A whole capture is dispatched as its last request, or left alone; the payload bound comes from the parser |
| Dispatch.PlainRaw | crates/optibridge-protocol/src/lib.rs:754-781 | The dispatcher of a part without a loader, in numbers |
| Dispatch.ResponsesParse | crates/optibridge-protocol/src/lib.rs:881-890 | Every response is one frame of at most 21 bytes that parses back, with the request's sequence and no flags |
| Dispatch.RefusalsChangeNothing | crates/optibridge-protocol/src/lib.rs:800-879 | A response other than OK to anything but Start changed nothing; a failed Start changed at most map contents |
| Dispatch.StartsExactly | crates/optibridge-protocol/src/lib.rs:855-872 | The executor is called once, exactly for a well-formed Start with an image committed and nothing parked; the image is marked running exactly on result zero |
| Dispatch.DispatchAgrees | crates/optibridge-protocol/src/lib.rs:800-879 | Every dispatch keeps RAM and flash in agreement, and a program it calls is the image the flash holds |
| HostView.LoadAnswered | crates/optibridge-protocol/src/lib.rs:815-823 | Every spelled load operation gets exactly the answer the abstract store and session call for, and is parked exactly if that is OK |
| HostView.AnyLoadAnswered | crates/optibridge-protocol/src/lib.rs:132-197 | Every load request at all, whatever its payload, gets its exact answer; one that spells no operation is refused for its operation byte or its length |
| HostView.IllFormedAnswered | crates/optibridge-protocol/src/lib.rs:811-879 | Every request of any command that is ill-formed - flags, unknown command, payload length, reserved location bits - gets its exact refusal and changes nothing |
| HostView.FormSpelled | crates/optibridge-protocol/src/lib.rs:824-843 | Every map request not refused for its form spells a page read or write, so its answer below applies |
| HostView.QueryAnswered | crates/optibridge-protocol/src/lib.rs:870-876 | The query answers with the checksum of the current image's payload, or with what stands in the way, and changes nothing |
| HostView.StartAnswered | crates/optibridge-protocol/src/lib.rs:852-869 | Start runs the ready image once, and makes it active exactly on result zero; every other session has its own refusal |
| HostView.ReadAnswered | crates/optibridge-protocol/src/lib.rs:824-833 | A map read answers with the bytes of the current image's map, or with the exact refusal |
| HostView.WriteAnswered | crates/optibridge-protocol/src/lib.rs:835-851 | A map write replaces those bytes of that map alone, or changes nothing and answers the exact refusal |
| Dispatch.ReadyOnce | crates/optibridge-protocol/src/lib.rs:613-634 | Over any run only the first valid Read Status answers "ready", every later one is empty |
| Timer.TimerState.NextTimerGeneration | firmware/optibridge/src/main.rs:159-165 | The generation wraps around, skips zero and is never zero |
| Timer.TimerState.ScheduleTimer | firmware/optibridge/src/main.rs:189-204 | A schedule replaces what waits and is ready, or refuses a long delay and changes nothing |
| Timer.TimerState.CancelTimer | firmware/optibridge/src/main.rs:206-214 | A cancel bumps the generation and clears what waits and is ready |
| Timer.TimerState.PollTimer | firmware/optibridge/src/main.rs:216-229 | A due timer becomes the ready event |
| Timer.TimerState.TakeReady | firmware/optibridge/src/main.rs:248-250 | Taking gives the ready event and leaves none |
| Timer.TimerState.RestoreReady | firmware/optibridge/src/main.rs:252-259 | An event is put back only if it is current and none is ready |
| Timer.TimerRaw | firmware/optibridge/src/main.rs:189-229 | Schedule, cancel and poll in numbers: which delays are taken, the deadline, and when a timer falls due |
| Timer.RestoreRaw | firmware/optibridge/src/main.rs:252-259 | An event is put back exactly if it is current and none is ready |
| Timer.NextGenerationCounts | firmware/optibridge/src/main.rs:159-165 | Each bump takes the generation from its count to the next, and never to zero |
| Timer.SameGeneration | firmware/optibridge/src/main.rs:361-366 | Two bump counts share a generation exactly if they lie a whole number of cycles apart |
| Runtime.PacketSafe | firmware/optibridge/src/main.rs:480-540 | The interrupt keeps every runtime invariant wherever the main loop stands |
| BusView.ResetOnBus | firmware/optibridge/src/main.rs:482-539 | The literal reset frame is noted whatever the machine is doing, and changes nothing else |
| BusView.ResetRaised | firmware/optibridge/src/main.rs:531-539 | Nothing but a valid reset request raises the reset |
| BusView.StatusOnBus | firmware/optibridge/src/main.rs:495-527 | The literal status frame is answered with what is unread, which then is read |
| BusView.QueryOnBus | firmware/optibridge/src/main.rs:495-527 | The literal query frame and every answer to it, byte by byte, from the abstract image store |
| BusView.StartOnBus | firmware/optibridge/src/main.rs:495-527 | The literal start frame: the program's effects on maps and timer, the new state and every answer |
| BusView.LoadOnBus | firmware/optibridge/src/main.rs:495-527 | Any literal load frame: its answer from its bytes and the transfer's position, and what is parked |
| BusView.ReadOnBus | firmware/optibridge/src/main.rs:495-527 | Any literal map-read frame and its answer |
| BusView.WriteOnBus | firmware/optibridge/src/main.rs:495-527 | Any literal map-write frame: its answer, the bytes it replaces and all it leaves alone |
| BusView.IllFormedOnBus | firmware/optibridge/src/main.rs:495-527 | Flags, unknown commands and impossible payloads: the literal refusal, and nothing changes |
| BusView.BusyOnBus | firmware/optibridge/src/main.rs:483-494 | While a program runs every valid request but reset is answered 5 and changes nothing |
| BusView.CaptureOnBus | firmware/optibridge/src/main.rs:482-528 | A capture of several frames counts as its last; anything else is not answered |
| BusView.BootFresh | firmware/optibridge/src/main.rs:550-556 | After every boot the maps are zero, "ready" is unread, no timer runs and nothing is parked or claimed |
| BusView.ResetComes | firmware/optibridge/src/main.rs:570-573 | A noted reset boots the part at the top of the loop, is not forgotten before, and comes nearer with every step unless a program goes on |
| BusView.StatusOverRun | crates/optibridge-protocol/src/lib.rs:613-634 | Over any run of the machine the first valid Read Status since a boot finds "ready", every later one nothing |
| BusView.BusyBusHolds | firmware/optibridge/src/main.rs:574-581 | While the bus is busy whenever the loop looks, a parked load is not performed and flash and loader stay |
| Runtime.EffectRaw | firmware/optibridge/src/main.rs:189-214 | What a program's schedules, cancels and delays do, in numbers |
| Runtime.EffectsInOrder | firmware/optibridge/src/main.rs:338-348 | A program's calls take effect one after the other |
| Runtime.RunSafe | firmware/optibridge/src/main.rs:570-591 | In every state of every interleaving: agreement, claim flag and program position match, waiting and taken events fit the timer's history, restoring an event is never needed |
| Executions.TimerExecution | firmware/optibridge/src/main.rs:355-389 | A timer event's program executes only under the claim, with the helpers bound to its own maps, nothing parked, and the vetted image in flash its metadata describes |
| Executions.StartExecution | firmware/optibridge/src/main.rs:495-519 | A Start executes exactly for a well-formed request with nothing else executing, nothing parked and an image committed, and its claim always succeeds |
| Executions.ActiveUndisturbed | firmware/optibridge/src/main.rs:480-494 | While a claim is held no event but a power cycle changes loader, flash or status, and packets change maps and timer neither |
| Executions.ClaimReleased | firmware/optibridge/src/main.rs:355-389 | Every main-loop step brings a claim strictly nearer its release unless the program itself goes on; nothing moves it away |
| Executions.StoreConfined | firmware/optibridge/src/main.rs:290-302 | A program's write takes effect exactly inside one of its image's maps and changes no other map |
| Executions.HelperUpdateStores | firmware/optibridge/src/main.rs:438-471 | The update helper is such a write at index times value size |
| Executions.TimerRunsHonest | firmware/optibridge/src/main.rs:355-389 | Timer executions serve different schedules, in order, each with its cookie, not before its deadline, and with no later schedule or cancel if fewer than 2^32-1 followed |
| Executions.GenerationsCurrent | firmware/optibridge/src/main.rs:189-229 | What waits and what is ready always carries the current generation, which counts the bumps since boot |
| Executions.EventChecked | firmware/optibridge/src/main.rs:361-366 | A claimed event goes on exactly if a whole number of generation cycles passed since its schedule |
| Executions.StaleEventRuns | firmware/optibridge/src/main.rs:361-366 | At any claim of a fresh event a Start that cancels 2^32-1 times leaves that event going on |
| EventFates.EventFate | firmware/optibridge/src/main.rs:355-389 | Whatever packets and delays come between, a claimed event executes exactly if it is current up to a whole cycle, no load is parked and an image is loaded, and then once, with its cookie |
| EventFates.EventGone | firmware/optibridge/src/main.rs:368-379 | A claimed event that does not execute is lost: until the next reset no execution serves its schedule |
| EventFates.ClaimReached | firmware/optibridge/src/main.rs:570-591 | From any idle machine with a committed image a Start that schedules for now brings the loop to that event's claim |
| EventFates.CurrentEventLost | firmware/optibridge/src/main.rs:368-379 | A run from power-on in which a Begin parked at the claim loses a fresh event that nothing cancelled, replaced or reset |
| EventFates.StaleEventReached | firmware/optibridge/src/main.rs:361-366 | A run from power-on in which a cancelled event goes on after a whole cycle of cancels |
| Executions.DueTimerRuns | firmware/optibridge/src/main.rs:570-591 | A due timer with a program loaded and nothing pending is executed for exactly that schedule by the undisturbed main loop |
| Firmware.MainLoop.BeginEvent | firmware/optibridge/src/main.rs:355-380 | Claiming, the generation check, the metadata check and every release on the objects equal the claim function |
| Firmware.MainLoop.TurnOnce | firmware/optibridge/src/main.rs:582-589 | Performing, polling, taking and claiming on loader, flash, timer and claim equal the turn function, up to a program's launch |
| Firmware.MainLoop.LoopOnce | firmware/optibridge/src/main.rs:570-589 | One pass of the loop body up to a program's launch, with its reset check and bus-idle check, equals the pass function |
| Firmware.TurnIsSteps | firmware/optibridge/src/main.rs:582-589 | A turn nothing interrupts is a number of steps of the transition system, ending at the loop's top or at the launch with the same loader, flash, timer and claim |
| Firmware.PassIsSteps | firmware/optibridge/src/main.rs:570-589 | A pass nothing interrupts is steps of the transition system: a boot on a pending reset, an untouched return on a busy bus, or the turn |
| HostUploads.RunPerforms | firmware/optibridge/src/main.rs:480-591 | Along any calm run of the whole machine loader and flash are where performing exactly the acknowledged operations in order would have brought them |
| HostUploads.InterleavedUpload | firmware/optibridge/src/main.rs:480-591 | An image whose frames are acknowledged in order, between any retries, queries, map traffic, broken captures, timer runs and failed or refused Starts, ends with its verdict, cells and metadata as in the bare upload |
| HostUploads.UploadGoesThrough | firmware/optibridge/src/main.rs:480-591 | From any sound, powered machine that is not loading there is such a run, which sends the frames one by one and lets the main loop settle, and it ends in the image's verdict |
| HostUploads.FrameAcknowledged | crates/optibridge-protocol/src/lib.rs:815-823 | With nothing executing or parked, the encoded frame of an admissible operation is acknowledged and parks that operation |
| HostUploads.AcceptingSoon | firmware/optibridge/src/main.rs:570-591 | A busy machine comes strictly nearer to accepting loads with every main-loop step on an idle bus unless a program goes on |
| Executions.RunProjects | firmware/optibridge/src/main.rs:570-591 | Loader and flash inside the interleaved machine are those of some run of the loader alone |
| Executions.MachineCrashSafety | firmware/optibridge/src/main.rs:550-556 | Stop the whole machine anywhere and boot: crash safety and the slot bounds hold |

## Left out

- NorFlash.Flash.Erase: does not model a torn erase; a half-erased committed image could only be refused by luck of its CRC, so no exact statement holds.
- Timer.TimerState.ScheduleTimer: does not model overflow of the 64-bit clock; time is an unbounded number of milliseconds that never runs backwards.
- MapElements.UpdateHelper: does not model raw addresses; a map pointer is an offset into the backing store, and a key or value pointer is the memory from it to the end of RAM, or nothing when it is null or outside RAM.
- Runtime.RunSafe: does not model the interpreter; a program is any finite sequence of map writes, schedules, cancels and delays with any result. The 32-byte timer context is not modelled beyond the cookie.
- Runtime.PacketSafe: does not model the response buffers and the transmit queue; a step gives the frame that would be sent.
- Firmware.MainLoop.LoopOnce: ends where a program is launched; running it and releasing the claim are steps of the transition system only.
- Executions.DueTimerRuns: states progress of the main loop only while nothing interrupts it and programs return; how long steps take is not decided by the code.
- Dispatch.Dispatcher.HandlePacket: the executor is any function of metadata and map contents; `dispatch_with_bpf` and `dispatch_packet` are the cases of a constant executor and of no loader.
- Hardware set-up, pins, clocks, bus-idle spinning, the USB side of the bridge, panic handlers and the size probe: input and output without properties of their own.
- `validate_i2c_request`, `wait_for_timer_or_work` and the bridge's request handling: would add only easy members.
- Finalize's error paths that cannot occur (an image length that overflows on 32 bits, a frame that does not fit the response buffer) are absent rather than modelled.
