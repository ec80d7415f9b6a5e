# A model of libhoth's stateful algorithms

libhoth is the host side of a root-of-trust (RoT) protocol. This project models the algorithms in it that must
leave a device in a stated condition, each against a small model of that device, and proves what they promise
for all inputs, all states of the device and all points of failure. `dafny verify dfyconfig.toml` checks
everything.

| file | what it models |
|---|---|
| `Bytes.dfy` | bytes, the bitwise AND of a NOR cell, 16-bit integers |
| `NorFlash.dfy`, `SpiWire.dfy` | the flash behind the RoT; the wire format of SPI_OPERATION requests |
| `SpiOperation.dfy` | `struct spi_operation`, the fixed buffer that batches transactions, and the RoT that executes it |
| `SpiPlan.dfy`, `SpiWrap.dfy` | the commands an update amounts to and the theorems about them; exactly which updates fail at the end of the 32-bit address space |
| `SpiProxy.dfy` | the read, verify and update loops |
| `PayloadErase.dfy`, `PayloadPackets.dfy`, `PayloadWrap.dfy`, `PayloadUpdate.dfy` | greedy erase, sparse writer, images past 2^32 bytes, and their loops |
| `UsbTransfers.dfy`, `UsbFifo.dfy`, `Xorshift.dfy` | the two asynchronous transfers, request/response matching, the ID generator |
| `OtVersion.dfy`, `Dfu.dfy` | version comparison, slots, update counting; DFU sessions and installation |
| `SecurityV2Format.dfy`, `SecurityV2.dfy` | the parameter format; serializer, strict and lax reader |
| `Words.dfy`, `Crc32.dfy`, `Provisioning.dfy` | 32-bit words over GF(2), the CRC, chunked log transfer |
| `PanicLog.dfy`, `Console.dfy`, `ClaimDevice.dfy` | ring-buffer unrolling, escape keys, claiming with backoff |

## How it is modelled

- Devices are classes. Where the real device or transport may fail, the model chooses (`*`), and a failed command
  may have been carried out or not: its reply may be what was lost. A SPI request may have stopped after any of its
  transactions, and a failed write to a file may have written a part.
- Ghost counters record the faults of devices and transport. A loop that stops at the first failed command reports
  a failure if and only if one happened; where a failure can go unreported (the end of a DFU session, a payload
  update whose finalization is refused) the contract says what each error means, and that none occurs without cause.
- Devices refuse what does not fit a mailbox of 1024 bytes, so the chunk sizes of the loops matter; where a loop cuts
  its data into chunks, its contract also says how many commands it needs.
- Where a property is stated through a function that the code shares with it (version comparisons, sleeps, erase
  sizes, key codes, wire bytes), a lemma says in numbers what that function is.
- C `assert`s are preconditions, so the proofs of the callers show that none can fire.
- Fixed-width arithmetic is written out: 32-bit page and block ends, 16-bit counters, 32-bit packet offsets.
- The flash: an erase or program needs the write-enable latch and uses it up; an erase sets bits; a program ANDs and
  wraps inside its 256-byte page. It is taken to be in the address mode the caller says. A program of more than 256
  bytes, which the code never sends, would use the first 256.
- The DFU device writes and boots the application slot not booted before, and writes the ROM_EXT slot not booted
  and boots the greater ROM_EXT; on a tie it may do either. This agrees with protocol/opentitan_version.c:270-273.
- Loops that wait for an external event, and the one that may not end, take a bound on how long they are watched (`patience`); a result of its own
  says that they are still waiting.
- Bytes are integers below 256, except where they are combined with 32-bit words (CRC, generator, USB packets),
  where they are 8-bit vectors.

Where the documentation and the code differ, the model follows the code:

- protocol/provisioning.h:128-130 says that reading a log larger than the buffer returns 1; the code returns -1
  (protocol/provisioning.c:139-144), `TooLarge` in the model, and 1 only for an unexpected size.
- examples/host_commands.h:115-116 says that the reserved bytes of a parameter are set to 0; the serializer writes
  neither them nor the padding (examples/htool_security_v2.c:44-61), so they keep what the buffer held. The
  parameters are canonical, and the strict reader takes them back, if and only if those bytes were zero already.
- protocol/provisioning.h:147-150 says that writing a log writes all its bytes; from 65536 bytes on the 16-bit counter
  never reaches the size and the loop does not end (protocol/provisioning.c:203-231).
- transports/libhoth_usb_fifo.c:294-297 speaks of ten tries; eleven packets are compared.

## Model

| member | source | states |
|---|---|---|
| SpiWire.DecodeEncode | protocol/spi_proxy.h:61-69 | the RoT, decoding back-to-back transactions, finds exactly those that were laid out: lengths, MOSI bytes, MISO lengths, order |
| SpiWire.EncodeDecode | protocol/spi_proxy.h:61-69 | any request it accepts is the encoding of what it decoded, so the encoding is unique |
| SpiWire.HeaderBytes | protocol/spi_proxy.h:61-69 | the header of a transaction is its two lengths, least significant byte first, and the MOSI bytes follow |
| SpiOperation.SlicingIsRightIffReadsFirst | protocol/spi_proxy.c:77-97 | response slicing gives every read its own bytes if and only if no read follows a write-only transaction, and is an error otherwise |
| SpiOperation.Operation.Begin | protocol/spi_proxy.c:102-110 | opens a transaction of no bytes after those already encoded, given the two asserted bounds |
| SpiOperation.Operation.WriteMosi | protocol/spi_proxy.c:112-117 | the open transaction grows by the bytes; what was encoded before is intact |
| SpiOperation.Operation.WriteMosiAddress | protocol/spi_proxy.c:119-129 | the address is appended big-endian, in 3 or 4 bytes |
| SpiOperation.Operation.End | protocol/spi_proxy.c:131-158 | the buffer now encodes one more transaction with the right two lengths |
| SpiOperation.Operation.CopyOut | protocol/spi_proxy.c:77-97 | the copying loop returns the slices, or the size error exactly when one runs off the response |
| SpiOperation.Operation.Execute | protocol/spi_proxy.c:63-100 | the device has run exactly the batched transactions, or a prefix of them on failure; reads get the flash's bytes if and only if they come first |
| SpiPlan.RunCommand | protocol/spi_proxy.c:226-260 | a write-enable and an erase or program, as encoded, change flash memory as the command says, whatever the latch was |
| SpiPlan.CommandBytes | protocol/spi_proxy.c:226-260 | the bytes of a command's two transactions: opcodes 06, 20, D8 and 02, and the address with its highest byte first, in 4 or 3 bytes |
| SpiPlan.PlanUpdates | protocol/spi_proxy.c:295-358 | from every state of the loop with no harmful wrap ahead, the remaining commands store the remaining data, erase the remaining sectors and change nothing else |
| SpiPlan.UpdateWorks | protocol/spi_proxy.c:295-358 | for every initial flash, address and buffer in range, sending the update leaves the range equal to the buffer, the rest of its sectors 0xFF, every other byte as it was; `InRange` is every range below 2^24 in 3-byte mode and exactly the ranges that work in 4-byte mode |
| SpiPlan.UpdateErasesEachSectorOnceAndFirst | protocol/spi_proxy.c:310-345 | a sector is erased if the range touches it and never otherwise, by 4K or 64K opcodes, once, or twice if a wrapped block erase had cleared it already; every program finds its sector erased, not erased again, and writes its own piece of the buffer |
| SpiPlan.UpdateErasesBlocks | protocol/spi_proxy.c:318-333 | below the last 64K a 64K erase is sent for exactly the aligned blocks that start no earlier than the range's first sector and end no later than the range |
| SpiPlan.ProgramsArePages | protocol/spi_proxy.c:316-338 | every program lies in one page, starts at the page or the range, and ends at the page's or the range's end |
| SpiPlan.FailedUpdateIsContained | protocol/spi_proxy.c:345-358 | after any prefix of an update's transactions nothing outside the touched sectors has changed, for every range but those that touch the first sector of the last 64K without its last one |
| SpiWrap.UpdateWorksIff | protocol/spi_proxy.c:295-358 | with 4-byte addresses, an update of a range leaves every flash right, whatever the data, if and only if the range meets a condition on its two ends, needed because page, sector and block ends wrap in 32 bits |
| SpiWrap.UpdateFails | protocol/spi_proxy.c:316-333 | outside that condition every update of every flash goes wrong, as long as neither holds 0xFF bytes |
| SpiWrap.UpdateIsContainedIff | protocol/spi_proxy.c:316-333 | no prefix of an update changes another sector if and only if the range does not end, before the last sector, in the last 64K while touching its first sector |
| SpiWrap.FirstPageIsLost | protocol/spi_proxy.c:316-333 | where the wrapped end reads as "nothing is erased", the next page erases again and the page just written is lost |
| SpiProxy.ReadChunk | protocol/spi_proxy.c:160-171 | puts flash bytes into the caller's buffer at the right place and touches no other byte |
| SpiProxy.ReadBytes | protocol/spi_proxy.c:160-168 | the bytes of a read: opcode 03 and the address with its highest byte first |
| SpiProxy.Read | protocol/spi_proxy.c:173-187 | reads any length in chunks of 1007 bytes: the buffer holds the flash range, the flash is unchanged |
| SpiProxy.Verify | protocol/spi_proxy.c:189-224 | unless the device fails, success if and only if the range equals the buffer; otherwise the first difference is reported; it reports a device failure exactly when the device failed |
| SpiProxy.AddPage | protocol/spi_proxy.c:316-340 | one page adds at most 4 transactions and 284 bytes, and exactly the erase and program of the plan |
| SpiProxy.SendUpdate | protocol/spi_proxy.c:295-358 | the loop keeps the batch builder within its asserts, sends the plan or a prefix of it, and on success needs one request for three pages |
| SpiProxy.Update | protocol/spi_proxy.c:295-358 | success sends exactly the plan, with 64K erases for exactly the whole blocks of the range and a request for every three pages, and leaves the flash updated; it fails if and only if the device did, having sent a prefix; nothing outside the touched sectors changes |
| SpiProxy.UpdateAndVerify | examples/htool.c:498-514 | verifying after a successful update never finds a difference |
| PayloadErase.TilingTiles | protocol/payload_update.c:150-165 | the greedy erases follow one another without gap or overlap over exactly the range, each aligned to its own size |
| PayloadErase.TilesEraseExactly | protocol/payload_update.c:150-165 | such a tiling erases exactly the sectors of the range |
| PayloadErase.TilingIsSmallest | protocol/payload_update.c:150-165 | no set of aligned 4K and 64K erases that covers exactly the range, overlapping or not, has fewer members |
| PayloadUpdate.EraseStaging | protocol/payload_update.c:121-169 | each refusal has its exact condition and sends nothing; success sends the greedy tiling and erases exactly the range; any other failure is the device's, and a prefix was sent |
| PayloadPackets.PacketsMerge | protocol/payload_update.c:207-243 | writing the packets of an image of up to 2^32 bytes leaves staging equal to old staging AND image over the image, and unchanged elsewhere |
| PayloadWrap.PacketsMergeIff | protocol/payload_update.c:207-243 | for an image of any size that holds for every staging area of 2^32 bytes if and only if no packet from past 2^32, whose offset has wrapped, clears a bit that the image keeps there |
| PayloadPackets.ChunksAreTight | protocol/payload_update.c:215-231 | every packet holds 1 to 1007 bytes of the image from its offset (modulo 2^32) and neither starts nor ends in 0xFF |
| PayloadPackets.ChunksSendOnce | protocol/payload_update.c:207-243 | every byte other than 0xFF is sent in exactly one packet, every other byte in at most one |
| PayloadPackets.ChunksAreFewest | protocol/payload_update.c:207-243 | no set of packets that fit a mailbox and hold all bytes other than 0xFF has fewer members |
| PayloadUpdate.WriteLoop | protocol/payload_update.c:207-243 | the loop sends exactly these packets in order, or a prefix of them if and only if the device failed |
| PayloadUpdate.EraseSizeIs | protocol/payload_update.c:180-189 | a binary file is padded to the end of its last 4096-byte sector and no further; other images are not |
| PayloadUpdate.Update | protocol/payload_update.c:171-265 | the exact condition of each refusal, in numbers; after a successful update with erase, staging is the image, then 0xFF to the end of a binary file's last sector, and every later byte is as before; without erase it is the AND, for every image that wraps harmlessly |
| PayloadUpdate.ReadChunks | protocol/payload_update.c:295-334 | the file is extended by the bytes read at the 32-bit chunk offsets, which below 2^32 is the staging range, and on failure by a prefix of them; a device error and a file error are reported exactly when there was one |
| PayloadUpdate.ReadBackIsWindow | protocol/payload_update.c:306-331 | chunks of 1016 bytes read from a range below 2^32 put together are that range |
| UsbTransfers.Fifo.Callback | transports/libhoth_usb_fifo.c:78-105 | the flags follow the transfer; the other transfer is cancelled exactly when this one broke and the other is in flight; the combined flag is 1 exactly when both are set |
| UsbTransfers.BrokenStatuses | transports/libhoth_usb_fifo.c:84-86 | the statuses that cancel the other transfer are all but completed and cancelled |
| UsbTransfers.Fifo.HandleEvents | transports/libhoth_usb_fifo.c:55-58 | for any order and statuses of completions, flags stay in step and a broken transfer leaves the other finished or cancel-requested |
| UsbTransfers.Fifo.RunTransfers | transports/libhoth_usb_fifo.c:30-76 | it returns only with nothing in flight and all flags set, whatever was submitted, completed or failed; while draining, all that is in flight has been asked to stop; a completed IN transfer took exactly the next packet; it reports a refused submission, else the first event-loop error, else success; when a submission was refused, the OUT transfer has not run |
| Xorshift.NextInjective | transports/libhoth_usb_fifo.c:107-116 | no two generator states have the same successor |
| Xorshift.DrawNonZero | transports/libhoth_usb_fifo.c:107-127 | a non-zero seed never leads to the all-zero stream |
| Xorshift.IdsDetermineSeeds | transports/libhoth_usb_fifo.c:207-212 | requests sent from different generator states have different IDs |
| Xorshift.DrawMoves | transports/libhoth_usb_fifo.c:107-116 | no power of two of draws leads a state other than zero back to itself |
| Xorshift.LaterIdsDiffer | transports/libhoth_usb_fifo.c:207-212 | IDs drawn a power of two of draws apart, such as those of successive requests, differ |
| Xorshift.KnownDraws | transports/libhoth_usb_fifo.c:107-116 | the first three draws from the seed 1 |
| UsbFifo.DrawId | transports/libhoth_usb_fifo.c:209-212 | the ID is the low bytes of 16 draws, and the state has moved by 16 |
| UsbFifo.SendRequest | transports/libhoth_usb_fifo.c:195-223 | the OUT packet is ID then request; requests over 1024 bytes change nothing; a non-zero state stays non-zero, and the next request will have another ID |
| UsbFifo.LateReplyIsStale | transports/libhoth_usb_fifo.c:286-306 | a late reply to the previous request does not match the ID of the next |
| UsbFifo.Transact | transports/libhoth_usb_fifo.c:195-313 | a request followed by its response: with stale well-formed packets ahead, and unless a named failure happens, the reply is the first packet with the request's ID, and exactly the packets up to it are gone |
| UsbFifo.SearchFindsFirstMatch | transports/libhoth_usb_fifo.c:272-307 | among well-formed packets the first with the request's ID is the reply and the stale ones before it are gone |
| UsbFifo.SearchGivesUp | transports/libhoth_usb_fifo.c:272-307 | on well-formed packets it gives up if and only if none of the first 11 has the ID |
| UsbFifo.Exchange | transports/libhoth_usb_fifo.c:243-262 | a stall is retried once, with both halts cleared first, so nothing is submitted to a halted endpoint and a stall is left standing only if two happened; a completed IN transfer holds the device's next packet, or the one after it if the first exchange stalled |
| UsbFifo.FindReply | transports/libhoth_usb_fifo.c:272-308 | the loop comes to what the search through the device's packets says, and leaves the packets after it |
| UsbFifo.ReceiveResponse | transports/libhoth_usb_fifo.c:225-313 | unless a transfer, submission, halt or the event loop failed, and only then, status, payload and packets taken are those of the search, which starts at most one packet late after a stall; every other status names a failure that happened; the OUT length is cleared except after the early returns and OUT_UNDERFLOW |
| OtVersion.CountIsExact | protocol/dfu_hostcmd.c:102-145 | an update sequence of any length completes a device if and only if it has at least as many updates as counted, or at least one in the misjudged states |
| OtVersion.CountIsLeast | protocol/dfu_hostcmd.c:102-145 | the count is the least completing number if and only if the device is not up to date with a staged ROM_EXT that is too new |
| OtVersion.OneUpdate | protocol/opentitan_version.c:254-262 | any one update passes the check after it, and lowers a count of two to one and any other to zero |
| OtVersion.CompleteWhenCounted | protocol/opentitan_version.c:276-295 | completion holds if and only if the count is 0 and the staged ROM_EXT is not too new |
| OtVersion.Comparisons | protocol/opentitan_version.c:141-166 | what the two comparisons compare: major and minor; security version, major and minor, lexicographically |
| OtVersion.SuccessInNumbers | protocol/opentitan_version.c:228-262 | the check after an update, in version numbers of the booted slots |
| OtVersion.CompletionInNumbers | protocol/opentitan_version.c:276-295 | completion, in version numbers: both application slots have the bundle's, the booted ROM_EXT is not older, the staged one is the bundle's; and which error otherwise |
| OtVersion.CountInNumbers | protocol/dfu_hostcmd.c:102-145 | the count, in version numbers |
| OtVersion.StagedTooNewInNumbers | protocol/opentitan_version.c:287-293 | the misjudged states, in version numbers |
| OtVersion.UpdatesGiveBundle | protocol/dfu_hostcmd.c:102-145 | in version numbers: the device holds the bundle after exactly those update sequences that are at least as long as asked, or one long in the misjudged states |
| OtVersion.BundleIsRead | protocol/opentitan_version.c:35-129 | a bundle laid out at the offset in its header is read as laid out |
| OtVersion.BundleBounds | protocol/opentitan_version.c:35-92 | a bundle is found exactly in images of at least 65600 bytes that start with the magic and hold both version fields; the two checks on the wrapping sum are the right ones |
| OtVersion.MagicIs | protocol/opentitan_version.c:35-65 | the magic is the text _OTFWUPDATE_ |
| Dfu.Update | protocol/dfu_hostcmd.c:31-100 | the chunked session, under a fresh nonce and in chunks of 1000 bytes, delivers exactly the image: at most one update is done, with the image's versions, and without a fault exactly one and success |
| Dfu.Install | protocol/dfu_hostcmd.c:147-219 | in version numbers: success means the device holds the bundle even after faults; without a fault it is updated exactly as often as asked, and fails only, and untouched, with a staged ROM_EXT that is too new or a security version that is too low; every other error means that a fault happened |
| Dfu.InstallTwice | protocol/dfu_hostcmd.c:147-219 | without faults, installing again succeeds and does no further update |
| SecurityV2Format.ParseEncoded | examples/htool_security_v2.c:184-219 | laid-out parameters are read back as they were, whatever follows |
| SecurityV2Format.EncodeParsed | examples/htool_security_v2.c:184-219 | an accepted prefix is the unique layout of what was read |
| SecurityV2Format.ParamsAreAligned | examples/htool_security_v2.h:97-100 | a layout is a whole number of 32-bit words |
| SecurityV2Format.ParamInBytes | examples/host_commands.h:105-122 | a parameter is its size, least significant byte first, two zeros, its value, and zeros up to a multiple of four |
| SecurityV2Format.ResponseInBytes | examples/htool_security_v2.h:34-56 | one response with two parameters, byte by byte |
| SecurityV2Format.ResponseIsEncoding | examples/htool_security_v2.c:238-256 | a response is accepted with given parameters if and only if it begins with their canonical encoding |
| SecurityV2Format.LaxAgrees | examples/htool_security_v2.c:93-118 | where the strict reading accepts, the lax one reads the same |
| SecurityV2Format.LaxReadsOverlay | examples/htool_security_v2.c:44-61 | whatever stood in reserved and padding bytes, the lax reading finds the serialized parameters again |
| SecurityV2Format.OverlayIsCanonicalIff | examples/htool_security_v2.c:44-61 | what the serializer leaves in the buffer is the canonical layout if and only if all reserved and padding bytes were zero before |
| SecurityV2Format.StrictReadsOverlayIff | examples/htool_security_v2.c:151-219 | the strict reader takes serialized parameters back if and only if those bytes were zero |
| SecurityV2Format.ErasedMemoryIsRefused | examples/htool_security_v2.c:44-61 | in a buffer of 0xFF bytes already one empty parameter is written so that the strict reader refuses it |
| SecurityV2Format.OverlayOfZeros | examples/htool_security_v2.c:44-61 | over a zeroed buffer the serializer writes the canonical layout |
| SecurityV2.Buffer.Consume | examples/htool_security_v2.c:15-24 | takes the bytes exactly when that many are left, and never goes past the size |
| SecurityV2.WriteParam | examples/htool_security_v2.c:44-61 | one parameter of any 16-bit size: written if and only if its padded place is there; its copy leaves the buffer if and only if it has more than 65532 bytes and its header fits |
| SecurityV2.Serialize | examples/htool_security_v2.c:34-61 | succeeds if and only if everything fits; then header, sizes and values are written and no other byte changes; the copy leaves the buffer if and only if a parameter of more than 65532 bytes finds room for its header |
| SecurityV2.ReadParam | examples/htool_security_v2.c:151-219 | one strict parameter: accepted, read and consumed exactly as the format says |
| SecurityV2.ReadResponse | examples/htool_security_v2.c:123-149 | header and parameters: accepted exactly as the format says, and the rest is left |
| SecurityV2.ReadLaxParams | examples/htool_security_v2.c:93-118 | for expected sizes of any 16 bits the lax loop reads exactly what the lax format says, and tells exactly when it copies from past the buffer |
| SecurityV2.LaxOverrunsIff | examples/htool_security_v2.c:93-118 | it does that if and only if, after parameters that are read, a header follows with an expected size above 65532 |
| SecurityV2.ReadLaxResponse | examples/htool_security_v2.c:75-120 | with no parameters expected nothing is looked at; otherwise the count must agree and the parameters follow |
| SecurityV2.ExecSerialized | examples/htool_security_v2.c:221-257 | what is sent is the header and parameters over the old contents of the request buffer; it succeeds if and only if the request fits, a reply arrives, and the reply begins with the encoding of the expected number of parameters of 16-bit size, which are then unique and returned; the exact condition for running past the request buffer |
| Crc32.CrcIsTableCrc | protocol/provisioning.c:25-38 | the bit-serial CRC equals the table-driven algorithm of section 8 of RFC 1952 for every buffer and initial value |
| Crc32.KnownAnswers | protocol/provisioning.c:25-38 | the published CRCs of a zero byte and of the letter a |
| Crc32.CrcOfChunks | protocol/provisioning.c:25-38 | continuing from the CRC of one piece gives the CRC of both |
| Crc32.BurstsAreDetected | protocol/provisioning.c:25-38 | equal-length buffers that differ only within four consecutive bytes have different CRCs |
| Crc32.Compute | protocol/provisioning.c:25-38 | the nested loops compute the CRC |
| Provisioning.LogWrite | protocol/provisioning.c:201-234 | without a fault the loop ends within a number of turns if and only if the log is below 65536 bytes and that many chunks are enough; then the chunks, in order, are the log, and the device's running CRC is the log's; otherwise the device has the bytes up to the size modulo 65536 |
| Provisioning.LogCommit | protocol/provisioning.c:236-250 | unless the device fails, accepted if and only if the size modulo 65536 and the CRC agree with what the device received; when it fails the log is the old one or, if they agree, the new one |
| Provisioning.WriteAndCommit | protocol/provisioning.c:201-250 | committing what was written is never rejected; on a failure the device holds the old log or the whole new one; a log of 65536 bytes or more is never committed |
| Provisioning.CommitWrongLog | protocol/provisioning.c:201-250 | writing one log and committing another that differs from it within four bytes is never a success and leaves the device's log alone, even on a failure; without one it is a rejection if and only if the log could be written |
| Provisioning.LogRead | protocol/provisioning.c:83-158 | success copies exactly the device's log; a log larger than the buffer never succeeds and never writes past it; each error has its cause |
| PanicLog.GetConsoleLog | protocol/panic.c:282-315 | the C string is the NUL-free rotation of the ring at the head, empty for erased flash |
| PanicLog.RingIsWindow | protocol/panic.h:61-65 | the ring unrolled at the head is a sliding window of the last 4096 characters |
| PanicLog.LogIsTail | protocol/panic.c:282-315 | for every history of any length, with the head as running 32-bit count, wrapped or not, or as index, the log is the NUL-free last min(n, 4096) characters |
| PanicLog.LogIsExact | protocol/panic.c:301-312 | for NUL-free histories that is exact if and only if the head is not 0xFFFFFFFF |
| Console.Unescaper.Run | protocol/console.c:151-185 | in place: kept characters replace the front of the buffer, writes never overtake reads, state and flags follow the transducer |
| Console.Streaming | protocol/console.c:151-185 | two pieces are treated as one, up to the first quit or break |
| Console.SplitsDoNotMatter | protocol/console.c:151-185 | any split into successive calls gives the output, state and stop of one call |
| Console.DoublingIsUndone | protocol/console.c:151-185 | doubling every escape character is undone |
| Console.Keys | protocol/console.c:155-181 | the keys by name: Ctrl-T escapes; after it Q and q quit, B and b break, Ctrl-T stands for itself, and all others are dropped |
| Console.StopsAreClean | protocol/console.c:168-176 | a quit or break writes nothing and leaves the unescaped state |
| ClaimDevice.Claim | transports/libhoth_device.c:69-125 | terminates for every timeout; returns the first answer that is not busy within the allowed attempts, and busy if and only if all of them are; exact time asleep, in microseconds; no 32-bit overflow |
| ClaimDevice.SleptIs | transports/libhoth_device.c:110-124 | n sleeps take 10000 * (2^n - 1) us up to the seventh, and 999999 us each after that |
| ClaimDevice.SleptBound | transports/libhoth_device.c:94-125 | sleeps add up to at least the timeout when it gives up, and to less than the timeout plus 999999 us |
| ClaimDevice.SleepStep | transports/libhoth_device.c:76-124 | every sleep is between 10000 and 999999 us and follows the doubling rule |

## Left out

- SpiPlan.UpdateWorks: in 3-byte mode ranges end at or below 2^24, where the address bytes end; in 4-byte mode SpiWrap.UpdateWorksIff proves which ranges below 2^32 work, and ranges that go past 2^32 are not modelled.
- SpiOperation.Operation.End: assumes at least one MOSI byte and at most 1016 MISO bytes, as all callers pass; the 16-bit truncation of larger lengths is not modelled.
- SpiOperation.Operation.Execute: destination pointers are returned slices; the caller's buffer is then filled by SpiProxy.ReadChunk.
- PayloadWrap.PacketsMergeIff: staging areas have at most 2^32 bytes, the reach of the 32-bit packet offset.
- PayloadUpdate.Update: finding the image descriptor and the finalize command are Boolean parameters.
- UsbTransfers.Fifo.RunTransfers: that libusb finishes a cancelled transfer is not assumed, so the end of draining is not claimed.
- UsbFifo.ReceiveResponse: when the first exchange stalls, its IN transfer may already have taken a packet, which the retry overwrites; the search is then claimed for the packets after it.
- SecurityV2.Serialize: what a copy that leaves the buffer does to other memory is not modelled; the model stops there and says so.
- Provisioning.LogWrite: that the device itself may refuse a log for its size is not modelled.
- Dfu.Install: what chips do on an update is the device model above; measurement, timestamp and owner configuration are not looked at.
- SPI proxy initialization, progress callbacks, and messages to stderr.
- Host command framing and its checksum: a command is taken to deliver its payload and its reply, or to fail.
- Key provisioning, certificate signing, and console reading and writing: size checks and plumbing around the loops modelled here.
- One-command wrappers, argument parsing, printing, libusb enumeration, MTD and D-Bus transports: nothing beyond a size check or a call.
