# Firmware update protocol: model and proofs

This project models a firmware-update protocol end to end and proves what it is for: a host session
that retries over a wire that loses and damages frames, a bootloader whose power fails in the middle
of flash operations, and the byte streams, bus clients and flash drivers in between.

`dafny verify dfyconfig.toml` verifies everything.

## How it is laid out

| module | models |
|---|---|
| `Bytes`, `Geometry` | octets, little-endian fields, pages laid side by side |
| `Crc8`, `Crc32`, `CheckValues` | both CRCs as linear maps, their programs, their check values |
| `Frames` | the wire frame and the device's and the host's codec |
| `Images` | the host's image: footer, page rendering, page selection |
| `Device`, `Commands`, `SimPort` | the bootloader core: states as values, what its answers mean, and the programs over a flash that tears |
| `Gate` | what the boot gate means |
| `Session`, `Host` | the host session over a schedule of faults: as functions, and as programs |
| `Exchanges`, `Outcomes` | how an exchange ends, and what the result of an update says about its requests |
| `Install`, `Progress`, `OrderFree`, `Idempotence` | whole-run results about updates |
| `Holdback`, `Durable`, `Wear` | the RP2350 flash port: one page held back over NOR flash |
| `Stream`, `Receivers`, `Transports` | stream framing: one parser, two receivers, two polled transports |
| `SpiPump`, `SoftUart`, `Twi` | the device's port state machines |
| `SoftFrames` | whole frames over the bit-banged port |
| `MainLoop`, `TwiLoop`, `LoopProgress` | the main loops of the UART and the TWI port: when they may jump, and when they must |

Code that changes state step by step is a class or a method here; each is proved equal to a function
of the old state, and the properties are proved about those functions.

## The fault model

A `Schedule` gives an `Event` for every request the host sends. The device may reboot just before it,
with or without the entry window running out; power may be armed to fail at any later flash
operation, leaving any prefix of the page behind (the conformance simulator leaves the first half);
the request may be lost or damaged, and so may the reply. A reboot clears the session and keeps what
is in flash. The device has a flat flash port, or one that holds a page back as the RP2350's does: it
programs when the partner comes, when another page comes, or when flash is read (so even INFO and
VERIFY can tear), and a reboot loses what it still holds, acknowledged or not.

Assumptions: every request has at most one reply, its own, so no reply is stale or duplicated; and
damage is damage that the frame check sees (the types `Unparsable` and `Undecodable`). `Crc8` and
`Crc32` are opened only for what they detect; the install results use no property of them.

## Where code and documentation differ

The session documentation asks for a buffer of `(page_size + 5) + 15` octets for an update. The code
needs exactly `page_size + 9`: with that much a calm update succeeds (`Progress.CalmUpdateInstalls`),
with less none ever does (`Progress.RoomIsNeeded`).

The protocol document has the device jump only once the reply to an accepted BOOT has left the wire.
The UART loop does. The TWI loop jumps once the reply given last has been read: if the host writes
another request before it reads, the reply to BOOT is gone and reading the other reply starts the
application (`TwiLoop.BootReplyCanBeSkipped`). The reply that was read is the BOOT's own exactly when
nothing else has been answered since (`TwiLoop.OwnReplyRead`), as with a host that keeps to one
outstanding command.

The SPI documentation (`spi_pump.h`, `spi.rs`, `stream.rs`) calls the octet staked before a reply a busy
octet and the host's scan indifferent to it. The pump stakes what is left of an abandoned response, and
that can be a sync, 0x7E: the host then takes the reply's own sync for a command and loses the reply. In
the windows of the host's session the request ends with the reply exactly when that octet is no sync
and the budget outlasts the polls (`SpiPump.ReplyIffNoStaleSync`); it is one exactly when the exchanges
since the abandoned response was queued end at a sync of it (`SpiPump.AbandonedResponse`), as with an
ECHO of syncs (`SpiPump.EchoHidesReply`).

The model follows the code in all three.

## Model

| member | source | states |
|---|---|---|
| `Install.OkMeansInstalled` | host/updater-core/src/session.rs:150-189 | for every fault schedule, device state, starting flash and buffer, over a flat port and over the RP2350's that holds pages back: if the update returns Ok, flash is exactly the rendered image, and still is after a reboot that loses what is held, and the boot gate accepts it |
| `Install.PreparedUpdate` | host/updater-core/src/session.rs:150-189 | once ERASE_APP is acknowledged, wherever the update ends the gate accepts iff the image is wholly installed, there and after a reboot, and the device has jumped only to an installed image |
| `Install.WritePhaseGate` | host/updater-core/src/session.rs:180-183 | the same after any number of page writes in host order, any prefix tear of the next, and any losses, reboots and autoboots between |
| `Install.BoundedRequests` | host/updater-core/src/session.rs:36-43 | whatever the faults, at most 4 requests per page written and 12 more |
| `Outcomes.OkMeansVerified` | host/updater-core/src/session.rs:183-189 | the last request of an update that returns Ok is a VERIFY of the image's length and CRC, which the device has answered ST_OK with that CRC over its flash |
| `Outcomes.OkMeansAllSent` | host/updater-core/src/session.rs:150-189 | it has sent one request for each listed page and three more at least |
| `Outcomes.FailureIsFinal` | host/updater-core/src/session.rs:150-189 | an update that fails stops at one of its requests, written out in octets, and returns that request's error |
| `Outcomes.OtherGeometryRefused` | host/updater-core/src/session.rs:154-168 | a device of another geometry gets INFO and nothing else, and the error names its geometry |
| `Outcomes.AdmitsExactly` | host/updater-core/src/session.rs:154-168 | the host goes on iff the protocol is 1 and the geometry the image's, and says which of the two it found |
| `Outcomes.InfoRoundTrip` | host/updater-core/src/session.rs:416-428 | INFO's octets are read back as the fields they were made from |
| `Outcomes.FaultsHappen` | conformance/sim/sim_port.c:44-81 | the fault model bites: an event can tear a page write at any octet, lose the request with the device untouched, or lose the reply with the page written |
| `Exchanges.ValidateMeaning` | host/updater-core/src/session.rs:290-307 | the host's verdict on a window is status st iff it holds an encoded reply to that command with that status, and filler |
| `Exchanges.AnswerIsFinal` | host/updater-core/src/session.rs:309-334 | the first answer a device gives, in whichever attempt, ends the exchange: no further request, and its status is the error unless it is ST_OK |
| `Exchanges.AllAttemptsLost` | host/updater-core/src/session.rs:309-334 | with every attempt lost or mangled all are made, and the error is the last one's own |
| `Exchanges.TransactAnswered` | host/updater-core/src/session.rs:236-277 | of four attempts at most, the first answer's payload or status |
| `Exchanges.TransactLost` | host/updater-core/src/session.rs:236-277 | else exactly four requests, and the fourth one's error |
| `Exchanges.TransactNeedsRoom` | host/updater-core/src/session.rs:236-277 | without room for both windows nothing is sent |
| `Exchanges.RefusedOnce` | docs/PROTOCOL.md:125-127 | a refusal over a clean wire is returned after one request |
| `Exchanges.NoAppIsFinal` | device/core/update.c:278-287 | BOOT without a valid image: one request, Device(NO_APP) |
| `Install.AcceptedMeansServed` | host/updater-core/src/session.rs:290-334 | a reply the host accepts proves that the request arrived intact, was carried through without power failing, and was answered ST_OK |
| `Install.LastAttempt` | host/updater-core/src/session.rs:309-334 | an exchange that succeeds has succeeded in one attempt, whatever failed before |
| `Install.InfoIsTrue` | host/updater-core/src/session.rs:416-428 | an acknowledged INFO reports the device's real protocol, geometry and identity, and whether the gate accepts its flash |
| `Install.EraseStartsPhase` | device/core/update.c:135-158 | an acknowledged ERASE_APP left the whole region blank, with nothing held back, on a live device that may write |
| `Install.EraseCompletes` | device/core/update.c:135-158 | an erase that power does not interrupt leaves every octet blank and nothing held back, whatever flash held |
| `Install.FlatWriteKeepsPhase` | conformance/sim/sim_port.c:69-81 | a page write, whole or torn at any octet, first or repeated, keeps flash a prefix of the image |
| `Install.ChipWriteKeepsPhase` | device/ports/rp2350_uart/flash.c:126-148 | so does one that is held, programmed with its partner, or torn in the middle of that, both for what flash reads as and for what a reboot would find |
| `Install.ResetKeepsPhase` | device/core/update.c:95-100 | a reboot, which may lose an acknowledged page that was only held, and an autoboot after it, find a prefix of the image |
| `Install.ExchangeKeepsPhase` | host/updater-core/src/session.rs:309-334 | all attempts at one page keep that, and an accepted one is past the page |
| `Install.UnerasedRefused` | device/core/update.c:164-193 | a WRITE_PAGE exchange on a device without the erased latch, or that starts with a reboot, fails, however often it is sent and whatever the faults |
| `Install.RebootEndsUpdate` | host/updater-core/src/session.rs:178-182 | so a write loop that starts on such a device, or with a reboot, never succeeds |
| `Install.VerifyKeepsInstalled` | host/updater-core/src/session.rs:183-189 | VERIFY and its retries never disturb an installed image |
| `Install.BootOkMeansJumped` | host/updater-core/src/session.rs:133-136 | an acknowledged BOOT has jumped, with the gate accepting |
| `Install.UpdateThenBoot` | host/updater-core/src/session.rs:133-189 | a successful update followed by a successful BOOT has started exactly the image, through any faults around both |
| `Progress.CalmUpdateInstalls` | host/updater-core/src/session.rs:150-189 | if from its first transmission on power is on and one exchange in any four is clean, but for a reboot just before it, an update that finds the device listening succeeds and installs, from any flash contents |
| `Progress.CalmUpdateStarts` | host/updater-core/src/session.rs:133-189 | and a BOOT behind it starts the image; the host gets an OK iff the reply to the first BOOT that reaches the device comes back |
| `Progress.BootExchange` | docs/PROTOCOL.md:139-141 | the same of any valid image: the first BOOT that reaches the device makes it jump, and it is silent from then on |
| `Progress.OneReflashRecovers` | docs/INTEGRATION.md:15 | whatever has happened to a device, dead, torn or in the middle of an update, once it is reset and stays in the bootloader such an update succeeds and installs |
| `Progress.TornUpdateRecovers` | docs/INTEGRATION.md:15 | an update whose erase was acknowledged may end anywhere through any faults: reset, the device either starts, and then exactly that image, or the next such update of any image succeeds and installs it |
| `Progress.RebootListens` | device/core/update.c:84-100 | a reset leaves a device that listens with flash as programmed; if the entry window runs out it has jumped iff the gate accepts that |
| `Progress.ExchangeSucceeds` | host/updater-core/src/session.rs:309-334 | a clean attempt within the retry budget makes the exchange succeed, whatever the losses before it did to the device |
| `Progress.RoomIsNeeded` | host/updater-core/src/session.rs:199-211 | with a buffer under page_size + 9 no update ever returns Ok |
| `OrderFree.AnyOrderInstalls` | device/core/update.c:164-193 | after an erase, any WRITE_PAGEs in any order and multiplicity, over either port, install the image iff they cover the non-blank pages, and then VERIFY answers OK and keeps it |
| `OrderFree.ServeHolds` | device/core/update.c:164-193 | exactly the pages written are rendered, the others blank |
| `Idempotence.EveryCommandRepeats` | docs/PROTOCOL.md:129-149 | executing any request again with power on changes nothing (but the operation count) and is answered alike, over either port |
| `Host.HostSession.DoFlash` | host/updater-core/src/session.rs:150-189 | the update program, over one shared buffer, does to device and wire exactly what `Session.Flash` says, and returns the same |
| `Host.HostSession.DoWritePages` | host/updater-core/src/session.rs:178-182 | the loop over the page iterator writes exactly the pages that must be written |
| `Host.HostSession.DoWritePage` | host/updater-core/src/session.rs:199-232 | the in-place page write, with its size check and its errors |
| `Host.HostSession.SealWriteFrame` | host/updater-core/src/session.rs:211-224 | rendering into the transmit window yields the encoded WRITE_PAGE frame |
| `Host.HostSession.DoTransact` | host/updater-core/src/session.rs:236-277 | window split, encoding, exchange, and the reply payload behind the status |
| `Host.HostSession.DoExchange` | host/updater-core/src/session.rs:309-334 | the retry loop: reply in the receive window, last error when the budget is spent, the request never altered |
| `Host.HostSession.DoInfo` | host/updater-core/src/session.rs:96-99 | INFO and its parsing |
| `Host.HostSession.DoBoot` | host/updater-core/src/session.rs:133-136 | BOOT |
| `Host.Wire.Request` | conformance/sim/sim_port.c:200-276 | one request over the fault schedule: power events, then delivery, then the reply's fate |
| `Commands.StatusMeans` | docs/PROTOCOL.md:112-123 | for every device, frame and capacity, each of the seven error statuses is given exactly in its case, with the constants, lengths and ranges written out |
| `Commands.RefusalChangesNothing` | device/core/update.c:107-294 | a refused request leaves the device as it was, but for the read that BOOT and VERIFY need |
| `Commands.EraseNeedsMagic` | device/core/update.c:138-147 | ERASE_APP with any payload but 45 52 41 53 is BAD_MAGIC and changes nothing |
| `Commands.OnlyWritersWrite` | device/core/update.c:135-193 | flash reads otherwise only after an ERASE_APP with its magic or a whole WRITE_PAGE in range behind one; only the first sets the latch |
| `Commands.PageIsWritten` | device/core/update.c:164-193 | an accepted page of any octets is in flash, the rest unchanged |
| `Commands.EchoReturns` | device/core/update.c:234-254 | up to 16 octets come back behind ST_OK |
| `Commands.InfoReturns` | device/core/update.c:107-128 | the twelve octets of INFO, one by one |
| `Commands.UnreadableAnswered` | conformance/sim/sim_port.c:250-264 | an unreadable request is answered BAD_FRAME, to its first octet |
| `Commands.ResponseSetsTopBit` | docs/PROTOCOL.md:33-36 | a reply's command is the request's with bit 7 set |
| `Commands.ReadersFlush` | device/ports/rp2350_uart/flash.c:150-160 | INFO, BOOT and VERIFY leave nothing held: flash is then what was read |
| `Commands.PairTornAt` | device/ports/rp2350_uart/flash.c:134-140 | power failing while a held page and its partner are programmed leaves exactly a prefix of the two |
| `Commands.EraseTornAt` | conformance/sim/sim_port.c:44-67 | armed for the n-th operation, power fails in page n - 1 of an erase: exactly a blank prefix up to the torn octet, the rest as it was; armed beyond, or disarmed, it does not |
| `Gate.GateIffInstalled` | device/core/update.c:53-78 | for every geometry and image, of all prefixes of the rendering the gate accepts only the whole; no CRC assumption |
| `Gate.GateMeaning` | device/core/update.c:53-78 | the gate accepts iff the last 16 octets hold the magic, a length within the region, and the CRC of that many octets |
| `Gate.InstalledIsAccepted` | device/core/update.c:53-78 | every rendered image is accepted |
| `Gate.CorruptionRefused` | device/core/update.c:39-78 | a change within four consecutive octets before the footer's length makes gate and VERIFY refuse, for every image and length |
| `SimPort.Sim.UpdAppValid` | device/core/update.c:53-78 | the program computes the gate |
| `SimPort.Sim.FlashCrc` | device/core/update.c:39-49 | the streamed CRC is the CRC of the prefix |
| `SimPort.Sim.UpdBootIfValid` | device/core/update.c:84-90 | jumps exactly when the gate accepts flash as it is now |
| `SimPort.Sim.UpdInit` | device/core/update.c:95-100 | clears both session latches and nothing else |
| `SimPort.Sim.UpdHandleInfo` | device/core/update.c:107-128 | the twelve octets, or BAD_FRAME without room |
| `SimPort.Sim.UpdHandleErase` | device/core/update.c:135-158 | magic check, all pages in ascending order, latch |
| `SimPort.Sim.UpdHandleWrite` | device/core/update.c:164-193 | latch, length and range checks in that order, then one page write |
| `SimPort.Sim.UpdHandleVerify` | device/core/update.c:199-226 | length, range and CRC answers; reads only |
| `SimPort.Sim.UpdHandleEcho` | device/core/update.c:234-254 | echo, or BAD_FRAME when too long |
| `SimPort.Sim.UpdHandle` | device/core/update.c:263-294 | the dispatch, BOOT and unknown commands |
| `SimPort.Sim.OpTears` | conformance/sim/sim_port.c:44-53 | counts the operation and tells whether power fails in it |
| `SimPort.Sim.PortFlashErasePage` | conformance/sim/sim_port.c:55-67 | blanks the page, or its prefix when torn; nothing when dead |
| `SimPort.Sim.PortFlashWritePage` | conformance/sim/sim_port.c:69-81 | writes the page, or its prefix when torn; nothing when dead |
| `SimPort.Sim.SimRequest` | conformance/sim/sim_port.c:239-276 | the reference request cycle: silent when dead or jumped, BAD_FRAME echo, reply before the jump |
| `SimPort.Sim.SimReset` | conformance/sim/sim_port.c:200-211 | a reset keeps or blanks flash and forgets the session |
| `SimPort.Sim.SimPowercutAfter` | conformance/sim/sim_port.c:213-217 | arms the power failure, or disarms it |
| `Images.FromBin` | host/updater-core/src/image.rs:94-110 | accepts exactly fitting geometries and sizes, and says which limit was broken |
| `Images.PageInto` | host/updater-core/src/image.rs:184-208 | renders exactly that page and writes nothing else; nothing at all on an error |
| `Images.PagesMakeRegion` | host/updater-core/src/image.rs:159-208 | the pages side by side are the data, 0xFF filler and the footer |
| `Images.MustWriteIffNotBlank` | host/updater-core/src/image.rs:220-230 | a page is selected iff its rendering is not what erased flash holds |
| `Images.PageListHolds` | host/updater-core/src/image.rs:244-255 | the iterator's pages are exactly the non-blank ones |
| `Images.PageListAscends` | host/updater-core/src/image.rs:244-255 | they ascend, the footer page last |
| `Images.Pages.Next` | host/updater-core/src/image.rs:244-255 | yields the head of the remaining list and keeps its tail |
| `Images.WritePrefix` | host/updater-core/src/image.rs:152-154 | in page order, a torn page extends the installed prefix |
| `Images.SkipBlank` | host/updater-core/src/image.rs:220-230 | a page that is not selected is right already |
| `Frames.ParseInvertsEncoded` | device/core/proto.c:28-79 | decoding inverts encoding |
| `Frames.EncodedInvertsParse` | device/core/proto.c:28-79 | encoding inverts decoding on the accept set |
| `Frames.AcceptSetsCoincide` | host/updater-core/src/frame.rs:174-196 | host and device accept the same octet strings and read the same frame |
| `Frames.PaddedAcceptsFiller` | host/updater-core/src/frame.rs:219-237 | the padded decoder accepts exactly an encoded frame followed by 0xFF octets, the extent fixed by LEN |
| `Frames.UpdFrameParse` | device/core/proto.c:28-41 | the device's parser is the accept set |
| `Frames.UpdFrameBuild` | device/core/proto.c:58-79 | builds the encoded frame in place, also when the payload overlaps the buffer at offset 2 or beyond; refuses without writing |
| `Frames.Encode` | host/updater-core/src/frame.rs:131-164 | the host's encoder, both errors, and nothing written on them |
| `Frames.BurstRejected` | host/updater-core/src/frame.rs:174-196 | changing bits within eight consecutive bits of any valid frame makes both codecs reject it |
| `Frames.OctetRejected` | device/core/proto.c:28-41 | so does changing any single octet |
| `Crc8.UpdCrc8` | device/core/crc8.c:8-31 | the device's loop over a wider word computes the CRC |
| `Crc8.Crc8Step` | host/updater-core/src/frame.rs:91-105 | the host's step is the same step |
| `Crc8.Residue` | device/core/crc8.c:8-31 | a frame's register ends at zero exactly when its last octet is its CRC |
| `Crc8.FoldInjective` | device/core/crc8.c:8-31 | the register never merges: different states stay different over any octets |
| `Crc8.BurstDetected` | device/core/crc8.c:8-31 | strings that differ by such a burst drive it to different values |
| `Crc32.UpdCrc32Update` | device/core/crc32.c:11-20 | the device's streaming step |
| `Crc32.HostCrc32` | host/updater-core/src/image.rs:56-69 | the host's loop computes the same CRC |
| `Crc32.FoldInjective` | device/core/crc32.c:11-20 | injectivity of the iterated step |
| `Crc32.FoldAsWord` | device/core/crc32.c:11-20 | up to four octets act on the register as one word |
| `Crc32.BurstDetected` | device/core/crc32.c:8-24 | any change within four consecutive octets changes the CRC, whatever surrounds it |
| `CheckValues.Crc8OfDigits` | docs/PROTOCOL.md:287 | crc8("123456789") = 0xF4 |
| `CheckValues.Crc32OfDigits` | docs/PROTOCOL.md:288 | crc32("123456789") = 0xCBF43926 |
| `Holdback.CoalescingIsFlat` | device/ports/rp2350_uart/flash.c:86-160 | after power on, for every sequence of calls the core can issue, every read returns the octet of a flat page array |
| `Holdback.WriteIsFlatIff` | device/ports/rp2350_uart/flash.c:126-148 | a write acts as on a flat array exactly when no needed bit of the flash under it is cleared |
| `Holdback.WriteView` | device/ports/rp2350_uart/flash.c:126-148 | in every state, a write changes only its page of the visible contents |
| `Holdback.FlushIsInvisible` | device/ports/rp2350_uart/flash.c:102-109 | a flush never changes the visible contents |
| `Holdback.EraseCovers` | device/ports/rp2350_uart/flash.c:113-124 | the core's page-by-page erase, mapped to sectors, leaves every octet blank and nothing held |
| `Holdback.FlashPort.WritePage` | device/ports/rp2350_uart/flash.c:126-148 | hold, replace, pair or flush: the new chip state, and the program operations issued, in order |
| `Holdback.FlashPort.ErasePage` | device/ports/rp2350_uart/flash.c:113-124 | drops the hold; erases a sector at its first page, and logs that |
| `Holdback.FlashPort.ReadByte` | device/ports/rp2350_uart/flash.c:150-160 | flushes, by just those operations, and returns the visible octet |
| `Holdback.FlashPort.HoldFlush` | device/ports/rp2350_uart/flash.c:102-109 | programs the held page with a neutral partner, in one operation or none |
| `Holdback.FlashPort.ProgFlashPage` | device/ports/rp2350_uart/flash.c:86-100 | clears, in one unit, the bits both halves ask for |
| `Durable.PowerLossIsSafe` | device/ports/rp2350_uart/flash.c:102-148 | in an ascending update with retries and reads, power lost at any moment (any prefix of any program, held page gone) leaves a prefix of the image, which the gate accepts iff it is the whole |
| `Durable.FooterIsDurable` | device/ports/rp2350_uart/flash.c:126-148 | once the last page is written nothing is held: the image is in flash |
| `Durable.PageKeeps` | device/ports/rp2350_uart/flash.c:126-148 | one page, in all four cases, keeps flash a prefix of the image throughout |
| `Holdback.ProgramsPerformed` | device/ports/rp2350_uart/flash.c:86-148 | the operations that may tear are, in number, place, octets and order, those `FlashPort` logs (`WritePage`, `HoldFlush` and `ReadByte` ensure that), and carried out they make the next state |
| `Holdback.FlashPort.FlashRangeProgram` | device/ports/rp2350_uart/flash.c:86-100 | clears bits, and is the one place that programs flash: it logs what it is asked for |
| `Holdback.WriteTwice` | device/ports/rp2350_uart/flash.c:126-148 | in every state, a page written again leaves the chip as it was |
| `Wear.EachUnitOnce` | device/ports/rp2350_uart/flash.c:17-25 | an ascending update programs every 256-octet unit exactly once, with both its pages, in order |
| `Wear.EachSectorOnce` | device/ports/rp2350_uart/flash.c:32-35 | the page-by-page erase erases each sector exactly once, in order |
| `Wear.EraseAt` | device/ports/rp2350_uart/flash.c:113-124 | one call blanks the 4096 octets that start at its page, or nothing |
| `Wear.RetryOfHeld` | device/ports/rp2350_uart/flash.c:126-132 | writing the held page again replaces it and programs nothing |
| `Wear.HeldIsFlushed` | device/ports/rp2350_uart/flash.c:126-160 | any other write, or a read, programs it with 0xFF for its partner |
| `Stream.MachineIsParser` | device/core/link_stream.c:95-149 | the receive machine reports exactly the frames of a pure parser of the whole stream, at the same positions |
| `Stream.Resynchronises` | device/core/link_stream.c:42-54 | from every reachable state, as many octets without a sync as the buffer holds lead back to hunting, and the next frame that fits is delivered |
| `Stream.ParseInvertsPrint` | device/core/link_stream.c:156-164 | any list of fitting frames, sent with sync-free noise between them, is received as that list, also with 0x7E inside frames |
| `Stream.Delivered` | device/core/link_stream.c:119-148 | a sync and a valid frame that fits, while hunting, is reported at its last octet |
| `Receivers.PollingIsParsing` | device/core/link_stream.c:95-149 | however arrivals and polls interleave, the frames reported are the parser's, at the same positions, and all of them once the queue is drained |
| `Receivers.Link.Poll` | device/core/link_stream.c:95-149 | the pull loop ends on every queue, behind the first frame or with the queue empty |
| `Receivers.Link.Take` | device/core/link_stream.c:119-148 | one octet is one step of the machine, for every buffer up to 255 octets |
| `Receivers.Link.Send` | device/core/link_stream.c:156-164 | sync, then the frame |
| `Receivers.Link.constructor` | device/core/link_stream.c:61-68 | a fresh link hunts |
| `Receivers.RxScanner.Push` | host/updater-core/src/stream.rs:95-153 | the host's scanner takes the same steps with its own outcomes, and a buffer beyond 255 octets takes no longer frames |
| `Transports.SpiRequest` | host/updater-eh/src/spi.rs:139-164 | clocks at most poll_attempts * (rsp.len + 1) octets whatever the line delivers, and returns the parser's first frame or an honest exhaustion |
| `Transports.UartRequest` | host/updater-eh/src/uart.rs:143-180 | at most poll_attempts idle reads and scan_limit * (rsp.len + 1) octets examined, and the parser's first frame or the limit that was hit |
| `Transports.ChargeOctets` | host/updater-core/src/stream.rs:95-153 | every octet is in the frame under way or charged to a wasted one, at most buffer + 1 to each |
| `SpiPump.Pump.ClockOut` | device/ports/skeletons/spi_pump.c:12-33 | MISO carries the staked octet, then the queue, then 0x00 for ever |
| `SpiPump.Pump.Respond` | device/ports/skeletons/spi_pump.c:35-77 | after a clear and a send: one stale octet, sync, frame, 0x00; idle exactly from the exchange of the last octet on |
| `SpiPump.Pump.PutByte` | device/ports/skeletons/spi_pump.c:35-44 | a full queue drops the octet |
| `SpiPump.Pump.RespondLate` | device/ports/skeletons/spi_pump.c:35-77 | the same behind any exchanges before the reply is queued: polls, or a request that drains what is left of another response |
| `SpiPump.PolledReply` | device/ports/skeletons/spi_pump.c:12-33 | such MISO is busy octets, one more than the polls, then sync and frame; the busy octets hold a sync iff the octet staked at first is one |
| `SpiPump.BusyIsHarmless` | host/updater-eh/src/spi.rs:139-164 | behind any number of sync-free busy octets the host's request ends with exactly the frame, at its last octet, iff there are fewer of them than its budget; else it gives up |
| `SpiPump.LagIsHarmless` | device/ports/skeletons/spi_pump.h:12-25 | for every frame that fits, every window and any number of polls, the host's request ends with exactly the frame at its last octet iff the octet staked at first is no sync and the budget outlasts the polls |
| `SpiPump.ReplyIffNoStaleSync` | host/updater-eh/src/spi.rs:139-164 | in a session's window the request returns the reply iff so; behind a stale sync it returns three idle octets after three polls or more, and else no frame at all if no sync is inside the reply |
| `SpiPump.AbandonedResponse` | device/ports/skeletons/spi_pump.c:65-72 | after an abandoned response the next reply is returned iff the exchanges since that was queued do not end at one of its syncs |
| `SpiPump.EchoHidesReply` | host/updater-core/src/stream.rs:24-26 | a concrete case: abandon the response to an ECHO of sixteen syncs, let the next request end inside it, and no reply is returned whatever the budget |
| `SoftUart.ByteSampled` | device/ports/skeletons/softuart_pump.c:10-51 | any byte, on any line that carries it, with symbols and delays of any lengths, is what the pump returns when its nine samples lie in their symbols |
| `SoftUart.LowStopDropped` | device/ports/skeletons/softuart_pump.c:32-48 | a low stop bit gives no byte, and the pump waits for the first half bit at which the line is high, twenty at most |
| `SoftUart.TwoPercentEach` | device/ports/skeletons/softuart_pump.h:42-48 | at 9600 baud with both clocks within two per cent, 11.9 microseconds of latency and calls together keep the budget |
| `SoftUart.EnoughAtBothEnds` | device/ports/skeletons/softuart_pump.c:10-51 | with even symbols and delays it is enough that first and stop samples keep within half a bit of their centres |
| `SoftUart.SampleInSlot` | device/ports/skeletons/softuart_pump.h:29-48 | within the budget, with a different cost for each delay and a different length for each symbol, every sample lies in its own symbol |
| `SoftUart.ByteInBudget` | device/ports/skeletons/softuart_pump.h:29-48 | so 9.5 times the rate mismatch, latency and overhead together under half a bit suffice to receive the byte |
| `SoftFrames.FrameHeard` | device/ports/skeletons/softuart_pump.h:39-55 | a receiver that polls in a loop and returns to the line within the latency gets exactly the bytes of a whole frame, however many polls it takes: always a prefix, and all of them once the last is over |
| `SoftFrames.BitBangRoundTrip` | device/ports/skeletons/softuart_pump.c:10-69 | bytes driven by one pump, back to back behind anything driven before, are exactly what another pump polling with its own clock receives |
| `SoftFrames.FrameDelivered` | device/core/link_stream.c:95-164 | so a frame sent by the link over one pump is delivered by the link behind the other |
| `SoftFrames.PutAll` | device/core/link_stream.c:156-164 | the pump drives the symbols of all bytes, one byte after the other |
| `SoftUart.Pump.GetByte` | device/ports/skeletons/softuart_pump.c:10-51 | what it returns, when, and that a low stop bit costs at most twenty half bits |
| `SoftUart.Pump.Listen` | device/core/link_stream.c:95-118 | the polling loop: what it has received, and when |
| `SoftUart.Pump.PutByte` | device/ports/skeletons/softuart_pump.c:53-69 | ten symbols, low bit first, the line left high |
| `Twi.ReceivesSegments` | device/ports/avr_ea_twi/twi.c:66-177 | on every bus, the frames handed over are exactly the completed write segments of 1 to 136 octets, in order, each once and unaltered |
| `Twi.ReadsAreResponses` | device/ports/avr_ea_twi/twi.c:56-197 | on every legal bus, each read was sent a prefix of the response there was for it, with 0xFF behind it, and "consumed" holds iff every frame handed over is answered and some read begun since the response was given got all of it and was ended, by a NACK or a stop |
| `Twi.NextEvent` | device/ports/avr_ea_twi/twi.c:66-160 | on every legal bus, the clock is held iff a frame is unanswered, and each octet is the next of the response, from its start again in every read, until the host refuses one |
| `Twi.Port.Poll` | device/ports/avr_ea_twi/twi.c:66-160 | one bus event: the new client state, the octet sent, and whether the clock stays held |
| `Twi.Port.Recv` | device/ports/avr_ea_twi/twi.c:162-177 | hands over a parked frame and starts waiting for its response |
| `Twi.Port.Send` | device/ports/avr_ea_twi/twi.c:179-192 | arms the response |
| `MainLoop.JumpPolicy` | device/ports/avr_ea_uart/main.c:89-120 | in every run from a reset, over either flash port (device/ports/rp2350_uart/main.c runs the same loop), however slowly the transmitter shifts: every jump goes through the gate as it is then, into an application that is all programmed, and follows an accepted BOOT, with that reply and all before it out of the transmitter, or is the first thing after an unrequested window; a refused window is never tried again |
| `MainLoop.Main.UartTxDrain` | device/ports/avr_ea_uart/uart.c:113-121 | waiting for a completion flag that every write clears ends with everything queued on the wire, in order |
| `MainLoop.Main.Turn` | device/ports/avr_ea_uart/main.c:92-119 | one turn of the loop, with its transmitter: serve, drain and try to boot, try the window |
| `TwiLoop.JumpPolicy` | device/ports/avr_ea_twi/main.c:76-113 | on the TWI port, on every legal bus: every jump goes through the gate as it is then; after an accepted BOOT it waits until one read, begun since the last reply was given, has got all of that reply and been ended; else it is the only window attempt, before any valid frame and without an entry request |
| `TwiLoop.OwnReplyRead` | device/ports/avr_ea_twi/main.c:100-106 | the reply read before such a jump is the BOOT's own exactly when nothing else has been answered since the last accepted BOOT |
| `TwiLoop.BootReplyCanBeSkipped` | docs/PROTOCOL.md:219-224 | a legal run, for every device with a valid image, that jumps although no read got the reply to BOOT |
| `TwiLoop.BootReadStarts` | device/ports/avr_ea_twi/main.c:100-106 | the ordinary course: BOOT written, its four octets read and the read ended with or without a NACK, and every device with a valid image has jumped |
| `LoopProgress.BootIsTried` | device/ports/avr_ea_twi/main.c:100-106 | in every run, once the last reply has been read whole and the read ended, an accepted BOOT has been tried |
| `LoopProgress.WindowStarts` | device/ports/avr_ea_uart/main.c:115-119 | on a quiet line with power holding, over either flash port, a reset device has jumped iff there was no entry request, the tick has reached 300 ms and the gate accepts |
| `LoopProgress.WindowStartsTwi` | device/ports/avr_ea_twi/main.c:108-113 | so on the TWI port, whatever the bus does, as long as no valid frame comes |
| `LoopProgress.FrameServed` | device/ports/avr_ea_uart/main.c:92-113 | every frame is answered in its lap, with the handler's reply behind all earlier ones, and the lap ends with a jump iff it is a BOOT the gate accepts |
| `LoopProgress.FrameAnsweredTwi` | device/ports/avr_ea_twi/main.c:76-98 | every frame handed over is answered in its turn, a damaged one BAD_FRAME without holding the device |
| `TwiLoop.Main.DoTurn` | device/ports/avr_ea_twi/main.c:76-113 | one turn of that loop |
| `TwiLoop.Main.AnswerFrame` | device/ports/avr_ea_twi/main.c:78-98 | a valid frame is served and holds the device; anything else is answered BAD_FRAME and does not |
| `MainLoop.BootIsAnswered` | device/core/update.c:278-287 | only a BOOT answered ST_OK leaves a jump pending |

## Left out

- A jump is a terminal step and flash an array of octets: registers, vectors, interrupt masking, the SDK and linker scripts are not part of this model.
- Stale or duplicated replies, and damage that the frame CRC does not see, are outside the fault model.
- On stream transports a damaged request gets no reply; in the session model that is the fate of a lost request.
- The erase phase: what the gate says after a cut inside ERASE_APP is only its definition, since an old image may survive there or a page may already have been blank.
- Install.OkMeansInstalled: the operation counter of the simulator is unbounded here, so its 32-bit wrap-around, which would need 2^32 flash operations in one session, is not modelled, nor is its flag that reports that a cut was hit.
- Host.HostSession.DoFlash: the progress callback is not modelled, and payloads and replies pass as sequences where the code passes slices of its buffer.
- SimPort.Sim.UpdHandle: the response buffer is a returned sequence, bounded by the capacity argument.
- Receivers.Link.Poll: link_poll may run for ever on a line that never stops; here the queue of one poll is finite.
- Transports.SpiRequest: bus errors and the delays between octets are not modelled.
- Transports.UartRequest: port errors and delays are not modelled, and a read that claims more than its buffer is a full read.
- SpiPump.Pump.ClockOut: the pump runs between exchanges; a host that clocks faster than the loop spins is not modelled.
- SpiPump.ReplyIffNoStaleSync: windows of more than 128 octets, which no session has, are left to SpiPump.LagIsHarmless; what is returned behind a stale sync when there is a sync inside the reply is only said not to be the reply.
- SoftUart.ByteInBudget: noise within a bit is not modelled; a line is at one level throughout a symbol.
- SoftFrames.FrameDelivered: the receiver listens and the sender drives; one pump doing both by turns is not modelled.
- Durable.PowerLossIsSafe: power fails between octets of a program operation, not within the bits of one.
- MainLoop.JumpPolicy: the tick, the frames the link completes and the pace of the transmitter are inputs; the program is proved for the AVR's completion flag and flat flash, and the RP2350's busy flag is not modelled.
- TwiLoop.JumpPolicy: the tick is an input, and hardware keeps to legal bus events; only the AVR runs this loop, over flat flash.
- `sim_request_stream`: it is the link of `Receivers` in front of the request cycle of `SimPort`.
- `Session::echo`, Intel HEX parsing, the command-line tool, error texts, `uart_pump.c`, `entry.c` and the entry stub would add only easy members.
