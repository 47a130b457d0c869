# Verified model of the MeTee library

MeTee is a library for talking to clients inside the Intel CSME firmware. This project models its three back ends in
Dafny and proves what they keep.

* **The UEFI back end** carries a whole protocol of its own. Its transport moves messages as packets through two ring
  buffers behind control registers (`HeciRegisters`, `HeciDevice`, `HeciPackets`, `HeciCore`, `HeciRing`,
  `HeciLoopback`, `HeciDelivery`). What its loops leave on the record of register accesses, and which end each comes to,
  is laid down in `HeciPolling`, `HeciHandshake`, `HeciReadings` and `HeciWritings`; that the record of a receive admits one
  reading only is `HeciDetermined`. Its session layer keeps a global table of four devices, a client table per device,
  host ids and link generations (`HeciTable`, `HeciWire`, `HeciSession`, `HeciRuns`, `HeciSystem`). What handles that share
  a device get from it is the subject of `FlowControl`, `Conversations` and `Sharing`; `HeciStale`, `Crossed` and
  `OddReplies` are runs in which something goes wrong, made with the small firmware of `HeciFirmware`. The public calls sit
  on top (`TeeEfi`).
* **The Linux and Windows back ends** are state machines over a driver (`TeeLinux`, `TeeWindows`).
* All three are shown to be instances of one two-state session (`TeeSession`).
* `MeiUuid` is the GUID parser of the samples.

## How it is modelled

Code that changes things in place is imperative here too: classes with the fields of the source's structures, methods
with its loops and exits, each proved against a specification function or relation; theorems about whole runs are then
lemmas about those.

**The device is free.** Every register read of `HeciDevice.Device` returns an arbitrary value, except that the depth field
of H_CSR is a constant of the hardware. What is proved of the transport therefore holds for every device behaviour. The
ghost `trace` records each access and each stall. Its type says that the host never moves a dword without credit, that is,
without a control register having shown it since; so `HeciCore` cannot be written without keeping that discipline.
`HeciRing` takes such a trace as the host's side of a system in which host and firmware steps interleave freely, with
unbounded counters behind the 8-bit pointers, and either side may reset. There the credit turns out to be real, the
pointer difference exact, and the overflow marker unreachable.

**The ring depth.** `HeciSend` is proved for every depth but 1, on which its loop makes no progress; that loop has a method
of its own. The length field has 9 bits, so the message arrives exactly when the depth is 2 to 128 or the message shorter
than 512 bytes; both directions are proved. At depth 0 the chunk size wraps around in the source's 64-bit arithmetic.

**Failures have causes.** No contract of the transport only says what success means. `HeciReadings.Receipt` and
`HeciWritings.Dispatch` hold everything a call did and every value it was shown; its status is a function of that, and the
size of a caller's buffer is no part of it. In the same way an enumeration that does not finish names the client whose turn
failed, and the statuses of the three public layers are told apart both ways.

**The firmware of the conversations** (`FlowControl.Firmware`) knows connections and credits only from the bytes of the bus
messages. It answers a payload when its connection is open and a flow-control message for that very connection has allowed
an answer, and is silent otherwise.

**Memory.** The sender loads whole dwords. `HeciCore.MemoryAt` gives it the caller's buffer and, where the last dword
reaches further, arbitrary bytes; no caller has to pad its buffer, and `HeciPackets.LoadsStayInside` says when the loads
stay inside.

**Exchanges.** Each transport call is one entry of its device's ghost `log`, made by `ReadMsg`, `SendMsg` or `ResetLink`.
`HeciWire` says what an entry means on the wire and which accesses explain its status, and every session call keeps the
log in step with the trace. `HeciRuns` describes runs of any number of
handles on up to four devices; `HeciSystem` shows that the imperative calls, made in any order, are such runs.
`HeciDelivery` plays a stretch of a device's log against the firmware's side of the rings, and `Sharing` puts the two
together.

**The kernel and the driver are free.** Each system call or request may succeed, or fail with any error it can give. The
one assumption on Linux is that of POSIX: a failing call sets an error number above zero, and `poll` reports a pipe that
has bytes in it. The error numbers are those of Linux.

## Where the code differs from its documentation, or surprises

The model follows the code.

* `HeciReceive` documents EFI_TIMEOUT, EFI_NOT_READY, EFI_NO_RESPONSE and EFI_BUFFER_TOO_SMALL. A blocking call returns
  none of them: every failed packet read becomes EFI_ABORTED, and too small a buffer is a success that reports the whole
  length (src/uefi/heci_core.c:519-562). `HeciSend` likewise returns neither EFI_NOT_READY nor EFI_TIMEOUT. Hence the
  enumeration retry loop, the 40 second retry and TEE_DEVICE_NOT_READY are never reached.
* A non-blocking `HeciReceive` always aborts, because `IsMeReady` is given no time (src/uefi/heci_core.c:475-479).
* A connect or properties reply with another command ends the call with EFI_SUCCESS (src/uefi/heci_efi.c:545-549,
  704-708). `TeeEfi.ConnectAllOrNothing` therefore says that success means connected, and connected means a valid device, if
  and only if that did not happen; `HeciRuns.FirstSendGate` and `IncompleteConnectSilences` say what comes of it, and
  `OddReplies` has a run for each of the two.
* Releasing a host id does not look at the generation (src/uefi/heci_efi.c:288-293). `HeciRuns.ReleaseExact` gives the
  exact condition under which ids stay distinct, and `HeciStale` a run after which they do not.
* Receiving looks at `connected` but not at the generation (src/uefi/heci_efi.c:852-857), so generation safety holds for
  sending and fails for receiving: `HeciRuns.SendGate` and `ReceiveGate` are the exact conditions, and
  `HeciStale.StaleHandleReceives` is a run in which a handle behind its device takes a message.
* Nothing on the receive path looks at the host address of what arrives (src/uefi/heci_core.c:492-562,
  src/uefi/heci_efi.c:882-936), so handles that share a device are served in the order in which they sent.
  `Sharing.OwnExactly` is the exact condition for getting one's own response, and `Crossed.CrossedResponses` a run in which
  two handles get each other's.
* The address of a fixed client is set and then overwritten by the table's properties (src/uefi/heci_efi.c:675, 731).
* On EFI a session once reported as lost cannot be reconnected on the same handle, since the handle's state stays
  CONNECTED (src/uefi/metee_efi.c:397-402): `TeeEfi.TeeHandle.History`.
* On Linux a cancel is for ever, because nothing drains the pipe, and a reconnect to older firmware is refused although
  the caller asked for no minimum version.
* On Windows a request on an invalid handle answers 87, which is no TEE status
  (src/Windows/metee_winhelpers.c:390-394), and a failed init closes a handle that belongs to the caller
  (src/Windows/metee_win.c:216-217). On a caller's handle a session runs beside a
  request given up earlier exactly as `TeeWindows.BesideExact` says, and `PendingBesideSession` is such a run.
* The GUID parser accepts a hex digit where a dash belongs (samples/meiuuid.c:26-35).

## Model

| member | source | states |
|---|---|---|
| `HeciRegisters.HeaderRoundTrip` | src/uefi/heci_core.c:45-68 | Packing a message header into its dword and unpacking gives it back, for every header: 8-bit addresses, 9-bit length, 6 reserved bits, completion bit. |
| `HeciRegisters.WordRoundTrip` | src/uefi/heci_core.c:45-68 | Every dword is the packing of the header it unpacks to, so no dword read from the ring is outside the format. |
| `HeciRegisters.FilledSlotsExact` | src/uefi/heci_core.c:89-98 | The 8-bit signed pointer difference is the true number of filled slots whenever at most `depth` are filled, for counters of any size; with more filled it is the overflow marker and the free space computed from it wraps to depth + 1. |
| `HeciPackets.FlattenAppend` | src/uefi/heci_core.c:724-756 | The dword stream of two packet sequences is the concatenation of their streams. |
| `HeciPackets.PacketsUnique` | src/uefi/heci_core.c:492-560 | A dword stream that starts with one message splits into packets in one way only: a receiver finds the sender's packet boundaries. |
| `HeciPackets.LoadedBytes` | src/uefi/heci_core.c:625-628 | Loading dwords from memory and laying them out as bytes again gives the same bytes. |
| `HeciPackets.BytesLoad` | src/uefi/heci_core.c:375-377 | And the four bytes of a dword load as that dword. |
| `HeciPackets.HeaderLayout` | src/uefi/heci_core.c:45-68 | Where the fields lie in the four bytes of a header on the wire: the firmware's address in byte 0, the host's in byte 1, the low bits of the length in byte 2, its ninth bit, the reserved bits and MessageComplete in byte 3. |
| `HeciPackets.CountStep` | src/uefi/heci_core.c:738-755 | Each turn of the send loop lowers ceil(length / chunk) by one, and the last turn starts at one, for every depth but 1. |
| `HeciPackets.FragmentsFormMessage` | src/uefi/heci_core.c:724-756 | For every depth but 1 a send makes exactly ceil(L / chunk) well-formed packets with the caller's addresses, MessageComplete on the last only; the chunk is 4(depth - 1), and at depth 0 the wrapped 64-bit difference. |
| `HeciPackets.PacketsFillRing` | src/uefi/heci_core.c:730-739 | For every depth from 2 the number of packets is the least that holds the message with one dword of each ring-full spent on the header; on rings of up to 128 dwords every packet but the last fills the ring, and above that its length field is 4(depth - 1) cut to nine bits. |
| `HeciPackets.DepthZeroSendsOnePacket` | src/uefi/heci_core.c:714-739 | On a ring of depth 0 a message of any 32-bit length goes out as one complete packet, its length cut to nine bits. |
| `HeciPackets.FragmentFits` | src/uefi/heci_core.c:730-739 | With depth 2 to 128 or fewer than 512 bytes left, a packet with its header fits the ring, its 9-bit length is not truncated, its payload is the next bytes of the message, and only a last packet has a length that is no multiple of 4. |
| `HeciPackets.FragmentsCarryMessage` | src/uefi/heci_core.c:724-756 | Under the same condition the lengths of all packets sum to L and their payloads concatenate to the message. |
| `HeciPackets.LengthsFallShort` | src/uefi/heci_core.c:738-739 | The lengths never sum to more than L, and with depth above 128 (or 0) and 512 bytes or more to less: 128 is the largest depth for which the 9-bit field never truncates. |
| `HeciPackets.DepthOneMakesNoProgress` | src/uefi/heci_core.c:724-755 | With a ring of depth 1 the next packet is a header of length 0 without MessageComplete, and the whole rest of the message is still to be sent after it. |
| `HeciPackets.LoadsStayInside` | src/uefi/heci_core.c:625-628 | The dwords loaded for a message stay inside its bytes if and only if it ends on a dword or its last packet has its length cut; they never reach past its last dword. |
| `HeciPackets.ReassembleAppend` | src/uefi/heci_core.c:492-560 | Reassembling two stretches of packets one after the other is reassembling their concatenation. |
| `HeciPackets.ReassembleStaysInside` | src/uefi/heci_core.c:375-381 | For every finite stream of packets and every buffer size no byte past the caller's size is written. |
| `HeciPackets.ReassembleStopsAtEnd` | src/uefi/heci_core.c:547-554 | No byte changes past the last dword received, even where the buffer has room. |
| `HeciPackets.ReassemblyCorrect` | src/uefi/heci_core.c:492-562 | If every packet but the last is a multiple of 4 bytes, the reported length is the sum of the packet lengths and the buffer holds the first min(sum, size) bytes of the concatenated payloads, for every buffer size; too small a buffer changes nothing in the reported length. |
| `HeciPackets.TotalIsSum` | src/uefi/heci_core.c:540 | For any packets at all the reported length is the sum of the lengths modulo 2^32. |
| `HeciPackets.FittingLengthsDeliver` | src/uefi/heci_core.c:492-562 | Reassembling the packets of a send gives the message when lengths fit their field. |
| `HeciPackets.TruncatedLengthsDoNot` | src/uefi/heci_core.c:738-739 | It does not when a length is truncated. |
| `HeciPackets.LoopbackRoundTrip` | src/uefi/heci_core.c:724-756 | A receiver that takes in the dwords of one send ends with exactly the message, for every message, every large enough buffer and every depth but 1, if and only if the depth is 2 to 128 or the message shorter than 512 bytes. |
| `HeciLoopback.Loopback` | src/uefi/heci_core.c:431-761 | The same of the two procedures: when HeciSend and HeciReceive both succeed and the receiver read exactly the dwords written, the buffer holds the message and the length is reported, under exactly that condition, whatever bytes follow the sender's buffer in memory. |
| `HeciLoopback.MessageCrossesRing` | src/uefi/heci_core.c:584-761 | In every interleaving of host and firmware on the ring, what the firmware has drained reads as packets in one way, those packets are the ones the host cut, and reassembled they are the message (same condition). |
| `HeciDevice.Device.ReadWord` | src/uefi/heci_core.c:377 | Reading the data window records one dword and needs credit: a control register seen since said that it is there. |
| `HeciDevice.Device.WriteWord` | src/uefi/heci_core.c:620-628 | Writing the data window records one dword and needs credit: a control register seen since said that there is room. |
| `HeciCore.IsMeReady` | src/uefi/heci_core.c:114-141 | The looks taken are all it does. Ready exactly when the last one showed ready and no reset; not ready exactly when the last one showed a reset, or when all (Timeout - 1) / 1000 looks that the budget allows showed neither; with a timeout of at most one step it never looks. |
| `HeciCore.ResetHeciInterface` | src/uefi/heci_core.c:152-242 | For every device behaviour: success exactly when the register trace went, in order, through a reset seen or asked for, H_CSR with Ready = 0, ME_CSR_HA with Ready = 1, and a final write; both writes change just their bits of what was read; a device that cannot be reached is the only device error, and a timeout means all 15000 stalls of the one budget used up. |
| `HeciCore.RequestReset` | src/uefi/heci_core.c:181-189 | After it a reset has been seen, or asked for by writing back what was read with Reset and IntGenerate set. |
| `HeciCore.WaitHostDown` | src/uefi/heci_core.c:196-209 | Ends with H_CSR seen not ready, or a timeout with the budget used up; stalls and budget add up. |
| `HeciCore.WaitFirmwareUp` | src/uefi/heci_core.c:214-227 | Ends with ME_CSR_HA seen ready, or a timeout with what was left of the same budget used up. |
| `HeciCore.EnableHost` | src/uefi/heci_core.c:233-238 | The last two accesses are a read of H_CSR and the write of the same value with Reset cleared and Ready and IntGenerate set. |
| `HeciCore.HeciPacketRead` | src/uefi/heci_core.c:268-412 | For every device behaviour and every Timeout: all the accesses it makes, and the status each end has. Only between success and "too small" does the space given decide; the buffer takes the payload as far as it fits and is otherwise unchanged, and a packet that is not read to its end changes nothing but what was copied before the firmware went down. |
| `HeciCore.ReadPacketHead` | src/uefi/heci_core.c:290-357 | How a packet read is given up before its payload, each with its cause: a ring empty at every look of the whole budget, the overflow marker, a packet deeper than the ring, or one not whole at any of 5000 looks; the header variable changes only when a header was read. |
| `HeciCore.WaitFirstDword` | src/uefi/heci_core.c:290-309 | Every look but the last showed an empty ring; an empty last one means that the budget, Timeout / 1000 stalls, is used up. Without a budget it looks once. |
| `HeciCore.WaitWholePacket` | src/uefi/heci_core.c:346-357 | Success exactly when a look followed by a stall within the 5000 showed every dword of the packet, all looks before it having shown less; failure means that all 5000 showed less, and one look more, which is not compared. |
| `HeciCore.CopyPayload` | src/uefi/heci_core.c:374-381 | Takes exactly the dwords of the packet off the ring, does nothing else to the device, and stores the bytes that fit the space, as Deposit says. |
| `HeciCore.FinishPacketRead` | src/uefi/heci_core.c:390-409 | Ready exactly when the firmware is still up, and which registers are touched after the payload, with what written. |
| `HeciCore.ReceivePacket` | src/uefi/heci_core.c:492-559 | One turn of the receive loop: a packet read to its end is one RxStep of reassembly, and the status is that of the packet read. |
| `HeciCore.ReceivePackets` | src/uefi/heci_core.c:492-560 | The receive loop alone: aborted exactly when a packet could not be read to its end, for one of the five causes of a packet read; success, whatever the size, when the packet marked complete was, with all packets reassembled. |
| `HeciCore.HeciReceive` | src/uefi/heci_core.c:430-567 | For every device behaviour a call that returns leaves a receipt: all its accesses, with what each look showed, none of which mentions the caller's buffer. The status is that of the receipt: device error exactly when the device cannot be reached; aborted exactly when the firmware was not ready, or a packet was not read to its end; success for every size when all packets were, with the sum of their lengths (mod 2^32) reported and the buffer their reassembly. A non-blocking one never succeeds; bytes past the size are untouched; the stalls are bounded by the packets. |
| `HeciReadings.ReceiptCounts` | src/uefi/heci_core.c:430-567 | What a receipt says of the wire: nothing written, on success exactly the dwords of its packets read, and no more stalls than the budgets of the wait and of its packets. |
| `HeciReadings.StatusTells` | src/uefi/heci_core.c:285-412 | Of any packet read: kept exactly when it was read to its end with the firmware still up; EFI_NO_RESPONSE exactly on an empty ring with no time given. |
| `HeciDetermined.SameReading` | src/uefi/heci_core.c:290-409 | Two packet reads whose accesses begin one record are the same: no way a packet read can end is the beginning of another. |
| `HeciDetermined.SameAnswersSameEnd` | src/uefi/heci_core.c:430-567 | A receive is determined by the device's answers: two receives, with buffers of any two sizes, that are shown the same registers and dwords as far as the first of them goes, make the same accesses, take the same packets and return the same status. |
| `HeciCore.HeciPacketWrite` | src/uefi/heci_core.c:583-647 | All the accesses it makes: a timeout exactly when the ring had too little room at every look of the 5000-stall budget, with nothing written; otherwise the header and its dwords, the interrupt raised, and the status that of the firmware's ready bit afterwards. |
| `HeciCore.WaitForRoom` | src/uefi/heci_core.c:605-616 | Success exactly when the last look showed room for every dword; every look before it, and on failure all of them through the whole budget, showed less. |
| `HeciCore.WriteWords` | src/uefi/heci_core.c:625-628 | The dwords written are those of memory, in order. |
| `HeciCore.SendPacket` | src/uefi/heci_core.c:730-745 | One turn of the send loop, for every ring depth, writes the next fragment whole or, for want of room, nothing. |
| `HeciCore.CountPackets` | src/uefi/heci_core.c:724-756 | A message of any length makes ceil(L / chunk) packets. |
| `HeciCore.HeciSend` | src/uefi/heci_core.c:664-761 | Terminates for every device behaviour and every depth but 1 within 14999 + 5000 * ceil(L / chunk) stalls, and leaves a dispatch: all its accesses. The status is that of the dispatch: device error exactly when the device cannot be reached; aborted exactly when the firmware was not ready, or the packet in turn found no room, or the firmware was down after it; unsupported exactly for an empty message; else success with all fragments written. What is on the ring is always a prefix of the fragments; the bytes past the caller's buffer that the last dword may take in are arbitrary. |
| `HeciCore.SendPackets` | src/uefi/heci_core.c:706-756 | The send loop alone: the packets are written one by one, each with the firmware up after it, until all are or one fails, and that decides the status. |
| `HeciCore.SendTurnsAtDepthOne` | src/uefi/heci_core.c:724-756 | The send loop on a ring of depth 1, for any number of turns: it ends early only by a failed packet, and all it writes are empty headers without MessageComplete. |
| `HeciCore.MemoryAt` | src/uefi/heci_core.c:745 | What the sender's loads find: the caller's buffer, and past it anything. |
| `HeciRing.StepKeepsOk` | src/uefi/heci_core.c:89-98 | Every step of host or firmware, a reset by either included, keeps the ring invariant: at most `depth` slots filled, unread slots hold what was written, and the host's credit is really there. |
| `HeciRing.DisciplineIsLicense` | src/uefi/heci_core.c:290-381 | Where the firmware does not reset, the licence that the ring theorems ask of a run is the credit discipline that all the host code keeps, no more and no less. |
| `HeciRing.FirmwareResetExact` | src/uefi/heci_core.c:385-396 | A reset started by the firmware keeps the invariant if and only if the host has no open credit to read: in the middle of a packet it does not, which is what the check of the ready bit afterwards is for. |
| `HeciRing.RunKeepsOk` | src/uefi/heci_core.c:605-628 | The invariant holds after every interleaving of host and firmware steps in which the host moves a dword only on a register read since the last reset. |
| `HeciRing.EveryHostStepIsSafe` | src/uefi/heci_core.c:606 | At every host step of every run: the register shows the true fill and never the overflow marker, a write meets a free slot, a read takes the next unread dword. |
| `HeciRing.RingsAreFifo` | src/uefi/heci_core.c:375-381 | In every run both rings deliver a prefix of what was put in, in order, and never hold more than their depth. |
| `HeciRing.LogsGrow` | src/uefi/heci_core.c:290-381 | Between any two points of a run without a reset, what the host wrote and read is what its rings took in and gave out, and the other side only grew. |
| `HeciRing.LogsAgree` | src/uefi/heci_core.c:620-628 | Without a reset the ring's own record of the host's dwords is the host's trace. |
| `HeciRing.EndToEnd` | src/uefi/heci_core.c:605-628 | The firmware gets exactly the dwords the host wrote, in order, once it has taken as many. |
| `HeciTable.IndexFrom` | src/uefi/heci_efi.c:89-97 | The first index that holds the key, or the length; no earlier one does. |
| `HeciTable.FoundIsAt` | src/uefi/heci_efi.c:81-116 | The slot a lookup returns is the one the next lookup finds. |
| `HeciTable.LookupKeepsTidy` | src/uefi/heci_efi.c:81-116 | A lookup of a real device keeps used slots in front with distinct keys, leaves every used slot as it was, clears the slot it takes, and finds nothing exactly when all 4 slots belong to other devices. |
| `HeciTable.LookupsKeepSlots` | src/uefi/heci_efi.c:81-116 | Over any sequence of lookups the table stays tidy and no used slot changes. |
| `HeciTable.SameKeySameSlot` | src/uefi/heci_efi.c:81-116 | A device once found is found in the same slot after any other lookups. |
| `HeciTable.FirstMatch` | src/uefi/heci_efi.c:630-654 | The lowest entry with the GUID, or none. |
| `HeciTable.FirstFree` | src/uefi/heci_efi.c:657-670 | The lowest unmarked host id, or none. |
| `HeciTable.ReplyRoundTrip` | src/uefi/heci_efi.c:38-50 | For all properties: what the host enters into its table for the 28-byte reply that carries them is those properties, each from its own place in the reply. |
| `HeciTable.ScanFindsValidEntries` | src/uefi/heci_efi.c:630-654 | The GUID scan, which ignores IsValid, finds the lowest valid matching entry or nothing for every GUID except zero, and stops at an unused entry exactly for the zero GUID. |
| `HeciSession.Registry.GetHeciLibrary` | src/uefi/heci_efi.c:81-116 | The two scans together are one Lookup of the table. |
| `HeciDevice.Device.Enter` | src/uefi/heci_efi.c:118-207 | Each transport call makes one entry in the device's log, with the state of the trace after it, and the log keeps accounting for all that was done to the device. |
| `HeciWire.RecordedGrows` | src/uefi/heci_efi.c:118-193 | A log that is on the wire stays so when an exchange is added that is: a successful send wrote the fragments of its message, a successful receive read the packets of one message, whose reassembly is its content. |
| `HeciWire.WireSlice` | src/uefi/heci_efi.c:118-193 | Any stretch of such a log is on the wire by itself. |
| `HeciDelivery.NextInStream` | src/uefi/heci_core.c:492-560 | A receiver that has read the first k messages of a stream and then reads one more message's packets, has read the next message of the stream and no other. |
| `HeciDelivery.ReceiveTakesNext` | src/uefi/heci_core.c:430-567 | In every interleaving a successful receive hands over the first message that the firmware has queued and the host has not received. |
| `HeciDelivery.HistoryIsInbound` | src/uefi/heci_core.c:430-567 | Firmware to caller: over a whole log the messages received are those the firmware queued, whole and in order, in packets of the firmware's own choice; a receive never finds the queue empty. |
| `HeciDelivery.StretchIsPlayed` | src/uefi/heci_efi.c:118-193 | Whatever stretch of a device's log the session layer has left behind is on the wire, so all that the delivery theorems ask beyond it is how the rings ran. |
| `HeciSession.Impl.EnterReceive` | src/uefi/heci_efi.c:127-140 | One receive and its entry in the log: the outcome, failures included, is the one that its accesses and the answers to them bring about; on success the buffer is the reassembly of one message's packets over what it held before. |
| `HeciSession.Impl.EnterSend` | src/uefi/heci_efi.c:170-178 | The same for sending: the outcome is the one that the accesses bring about, and the entry says which message went where. |
| `HeciSession.Impl.ReadMsg` | src/uefi/heci_efi.c:118-159 | The outcome entered is success, device error or aborted and never a timeout; aborted, and nothing else, ends the link (device invalid, handle unconnected, EFI_MEDIA_CHANGED); the others are passed on. |
| `HeciSession.Impl.SendMsg` | src/uefi/heci_efi.c:161-193 | The same closure for sending. |
| `HeciSession.Impl.ResetLink` | src/uefi/heci_efi.c:195-207 | The status and the accesses are those of the reset handshake; no data moved. |
| `HeciSession.Impl.FwToHostFlowControl` | src/uefi/heci_efi.c:352-393 | One message is taken off the link, none for a fixed address. |
| `HeciSession.Impl.HostToFwFlowControl` | src/uefi/heci_efi.c:395-438 | One flow-control message with the client's address and host id goes out, none for a fixed address; that the firmware finds both where it looks for them is FlowControl.LiveSend. |
| `HeciSession.Impl.RequestBitmap` | src/uefi/heci_efi.c:474-507 | The enumeration request goes out exactly once: the retry loop never comes round. |
| `HeciSession.Impl.EnumerateOne` | src/uefi/heci_efi.c:528-563 | One properties exchange enters the client into the table. Otherwise the table is as it was, and either an exchange failed, which is reported as that failure, or the reply carried another command, which is reported as success. |
| `HeciSession.Impl.EnumerateAll` | src/uefi/heci_efi.c:522-579 | The loop asks exactly for the clients of the bitmap, in order, and the table is what the replies so far stand for; it stops early only in the turn of an announced client that failed, all announced before it having answered. |
| `HeciSession.Impl.EnumerateClients` | src/uefi/heci_efi.c:440-585 | A valid device is left alone; otherwise the generation rises by one, and after a successful reset ids are cleared and the client table is exactly what the replies stand for: entry i is valid iff 1 <= i <= 255, its bit is set and its reply had status 0. IsValid is set when every client of the bitmap answered; when it is not, either the bitmap could not be had or the turn of a certain client failed, and the status is the one that calls for. |
| `HeciSession.ValidUnlessWrongReply` | src/uefi/heci_efi.c:545-581 | An enumeration that reports success leaves the device valid if and only if no properties request was answered with another command. |
| `HeciSession.TableAgreesWithBitmap` | src/uefi/heci_efi.c:471-581 | When enumeration sets IsValid, entry k is valid exactly when 1 <= k <= 255, bit k of the answer's ValidAddresses is set and the properties reply had status 0; it then holds that reply's properties, and every other entry is zero. |
| `HeciSession.ScanAgreesWithBitmap` | src/uefi/heci_efi.c:628-654 | After such an enumeration the GUID scan finds, for every non-zero GUID, the lowest announced client that has it, and nothing when none has. |
| `HeciSession.Impl.Handshake` | src/uefi/heci_efi.c:680-727 | Done exactly on request, positive reply and flow control; how each shorter exchange is reported. |
| `HeciSession.Impl.SelectClient` | src/uefi/heci_efi.c:628-737 | Connects to the lowest entry for the GUID under the lowest free id and marks that id, or changes nothing but the cleared properties (and the device's validity on an abort). |
| `HeciSession.Impl.ConnectClient` | src/uefi/heci_efi.c:589-741 | The whole connect: what it does to the table and the connection for every outcome of every exchange. |
| `HeciSession.Impl.SendMessage` | src/uefi/heci_efi.c:743-822 | Which check refuses first and with which status; a payload goes out only after all of them, behind a flow-control message, from the handle's id to the client's address. |
| `HeciSession.Impl.ReceiveMessage` | src/uefi/heci_efi.c:824-942 | What is read for one receive and what the caller gets: a leading flow-control message is dropped, a trailing one is taken off only by function 0 without fixed address; the generation is not looked at; the 40 second retry is never entered. |
| `HeciSession.ZerosBehindMessage` | src/uefi/heci_efi.c:881-902 | The buffer is cleared before each read: behind the last dword of the message received a caller finds zeros up to its size, and no byte of an earlier message. |
| `HeciSession.Impl.Uninitialize` | src/uefi/heci_efi.c:273-350 | The id is given back whatever its generation, the disconnect exchange happens only for a connected dynamic client, and the handle ends unconnected without an id. |
| `HeciSession.FindClient` | src/uefi/heci_efi.c:630-654 | The scan loop computes FirstMatch. |
| `HeciSession.FindFreeId` | src/uefi/heci_efi.c:656-670 | The scan loop computes FirstFree, starting at 1. |
| `HeciRuns.ConnectKeeps` | src/uefi/heci_efi.c:657-734 | A connect, with any outcome, keeps the run invariant. |
| `HeciRuns.SendKeeps` | src/uefi/heci_efi.c:743-822 | So does a send. |
| `HeciRuns.ReceiveKeeps` | src/uefi/heci_efi.c:824-942 | So does a receive. |
| `HeciRuns.ReleaseExact` | src/uefi/heci_efi.c:288-293 | Giving back an id keeps ids exact if and only if it is not stolen: the handle is of the current generation, or its number is not held by another. |
| `HeciStale.StaleRunIsRun` | src/uefi/heci_efi.c:456-471 | A concrete run from the start, for every device address and every GUID but zero: two handles connect, one loses the link and reconnects, which enumerates the device anew. |
| `HeciStale.StaleReleaseCanSteal` | src/uefi/heci_efi.c:288-293 | At its end closing the handle of the older generation frees the id that the other handle holds, and so breaks the invariant that held before. |
| `HeciStale.StaleHandleReceives` | src/uefi/heci_efi.c:852-857 | In the same run that handle, behind its device's generation, successfully takes a message off the link. |
| `HeciRuns.CloseKeeps` | src/uefi/heci_efi.c:273-350 | A close that steals no id keeps the run invariant. |
| `HeciRuns.RunKeepsInv` | src/uefi/heci_efi.c:657-734 | In every run without a stealing close, on every valid device the marked ids are exactly those held by handles of the current generation, which have pairwise distinct ids in 1..255. |
| `HeciRuns.Holders` | src/uefi/heci_efi.c:657-670 | For any n marked ids there are n different handles that hold them. |
| `HeciRuns.ReportsFullMeans` | src/uefi/heci_efi.c:656-670 | A connect that reports "max client count" did not enumerate: the device was valid before it, with every id marked. |
| `HeciRuns.FullOnlyWhenHeld` | src/uefi/heci_efi.c:656-670 | In every run without a stealing close, a connect reports "max client count" only when 255 different connected handles of the current generation hold one id each. |
| `HeciRuns.StepIsLater` | src/uefi/heci_efi.c:456-462 | No step lowers a generation, moves a device to another slot, or changes anything of a device other than its own handle's. |
| `HeciRuns.SendGate` | src/uefi/heci_efi.c:759-796 | A send puts something on the wire if and only if the message fits, the handle is connected and of the current generation, and its device is valid. |
| `HeciRuns.ReceiveGate` | src/uefi/heci_efi.c:840-857 | A receive takes something off the wire if and only if the room fits and the handle is connected; generation and validity of the device play no part. |
| `HeciRuns.StaysMute` | src/uefi/heci_efi.c:733 | A handle whose device is invalid in the generation it carries, or has a later generation, stays so at every later step until it reconnects. |
| `HeciRuns.MuteHandleNeverSends` | src/uefi/heci_efi.c:770-811 | In every run such a handle puts nothing on the wire until it connects again. |
| `HeciRuns.StaleHandleNeverSends` | src/uefi/heci_efi.c:770-811 | In particular a handle whose generation is behind its device's. |
| `HeciRuns.ConnectionIsCurrent` | src/uefi/heci_efi.c:729-734 | A successful connect leaves the handle in its device's current generation, and the device valid if and only if no properties request of its enumeration was answered with another command. |
| `HeciRuns.FirstSendGate` | src/uefi/heci_efi.c:545-549 | After a connect that succeeds, the first send in range puts something on the wire if and only if no properties request of its enumeration was answered with another command; else it ends the connection. |
| `HeciRuns.IncompleteConnectSilences` | src/uefi/heci_efi.c:545-549 | In every run, after such a connect no send of that handle puts anything on the wire until it connects again, whatever other handles do. |
| `HeciRuns.RunKeepsNoneAhead` | src/uefi/heci_efi.c:729-734 | In every run no handle carries a generation ahead of its device's. |
| `HeciRuns.ReenumerationSilences` | src/uefi/heci_efi.c:456-471 | In every run, stale releases or not: when a step enumerates a device anew, no other handle of that device sends again before it reconnects. |
| `HeciSystem.System.Connect` | src/uefi/heci_efi.c:589-741 | The imperative connect on any of many handles is a step of HeciRuns, so every run theorem holds of it, and the device's log grows by exactly its exchanges. |
| `HeciSystem.System.Send` | src/uefi/heci_efi.c:743-822 | The same for send. |
| `HeciSystem.System.Receive` | src/uefi/heci_efi.c:824-942 | The same for receive. |
| `HeciSystem.System.Close` | src/uefi/heci_efi.c:273-350 | The same for uninitialize. |
| `FlowControl.OneReceive` | src/uefi/heci_efi.c:890-936 | On function 0 without fixed address one receive takes both messages of an answer, and returns the response if and only if the response does not come first looking like a flow-control message (or cannot be told from it). |
| `FlowControl.ConnectLeavesNothing` | src/uefi/heci_efi.c:680-737 | A connect step of a run on a valid device, for a client in its table without fixed address, succeeds against a firmware that accepts, leaves the handle connected in the current generation, and takes both messages it causes off the link; at the firmware it opens the connection of that address and host id, read off bytes 1 and 2 of the request. |
| `FlowControl.LiveSend` | src/uefi/heci_efi.c:798-818 | Against a firmware that answers a payload only on an open connection and only when a flow-control message for that very connection allowed it (address in byte 1, host id in byte 2): a send in range on such a handle succeeds, changes neither table nor handle nor what the firmware remembers, and adds to the inbound queue the answer to its payload. |
| `FlowControl.CreditGivenAndSpent` | src/uefi/heci_efi.c:395-438 | The flow-control message of a send allows the firmware exactly the answer that the payload behind it asks for. |
| `FlowControl.CloseShuts` | src/uefi/heci_efi.c:308-345 | Closing a connected handle shuts at the firmware the connection of its address and host id and no other, whatever generation the device is in. |
| `FlowControl.LiveReceive` | src/uefi/heci_efi.c:882-936 | A receive that finds an answer in front of the inbound queue succeeds, changes neither table nor handle, takes exactly that answer off and returns its response; that is a message meant for another handle if and only if the answer in front is to another handle's message. |
| `FlowControl.UnpairedReceiveLeavesOne` | src/uefi/heci_efi.c:928-936 | On another function or with a fixed address a receive leaves the second message on the link, exactly when the response came first and does not look like flow control. |
| `Sharing.ConversationComesOut` | src/uefi/heci_efi.c:743-942 | On the inbound queue alone: in every order of sends and receives by any handles of a device each call succeeds, and each receive is served the oldest message not yet answered. |
| `Sharing.ReceivesAnswerInOrder` | src/uefi/heci_efi.c:680-942 | The same on any stretch of a device's own log, over the rings, under every interleaving and in packets of the firmware's own choice, against a firmware that accepts the connect and answers a payload with a response and a credit where its connection is open and a flow-control message for it has allowed that: all calls succeed and leave device and handles as the connect left them, each receive returns the response to the oldest message not yet answered, whoever sent it, and the link holds the answers to those not yet answered. |
| `Sharing.OwnExactly` | src/uefi/heci_efi.c:882-936 | Where host ids are distinct (HeciRuns.RunKeepsInv), a receive hands its handle a response meant for it if and only if that handle sent the oldest message not yet answered. |
| `Sharing.RoundsReturnResponses` | src/uefi/heci_efi.c:680-942 | After the connect, n rounds of a send and a receive of the same handle, each round by any handle of the device: every receive returns the response to the message sent just before it, meant for that handle, and after every round the inbound queue is empty and the device and the handles are as the connect left them. |
| `Crossed.CrossedResponses` | src/uefi/heci_core.c:492-562 | A run from the start, for every device on function 0 and every GUID but zero: two handles connect and send, the firmware answers each correctly, every call succeeds, and the second handle is handed the response that carries the first one's host id. |
| `TeeSession.NothingGetsThroughWhileDisconnected` | src/linux/metee_linux.c:321-325 | In every run of the two-state session, from a point without connection up to the next successful connect reads and writes fail without touching the device. |
| `TeeSession.StaysConnected` | src/linux/metee_linux.c:384-388 | A connection lasts as long as every call succeeds. |
| `TeeSession.FailureBetweenConnects` | src/Windows/metee_win.c:292-296 | Between two successful connects some call failed. |
| `TeeSession.ReportIsFromLastConnect` | src/linux/metee_linux.c:284-285 | maxMsgLen and protcolVer are those of the last successful connect. |
| `TeeSession.ExtendHistory` | src/uefi/metee_efi.c:397-402 | Adding an allowed call to a run keeps it a run, and keeps a lost session lost if that call neither succeeds nor touches the device. |
| `TeeEfi.SelectAllOrNothing` | src/uefi/heci_efi.c:628-737 | The part of a connect after enumeration: connected with success, or unconnected without a new id; success without connection only on a reply with the wrong command. |
| `TeeEfi.ConnectAllOrNothing` | src/uefi/metee_efi.c:397-430 | A connect reports success exactly when the handle ends connected to the entry for its GUID, in the current generation under a marked id, unless the connect reply carried another command; the device it is connected to is valid exactly when no properties reply did; a failure marks no id; no response and timeout are never reported. |
| `TeeEfi.ConnectIsReported` | src/uefi/metee_efi.c:402-421 | Of every connect that the session layer can make: the status its outcome is mapped to, and the cause each status stands for, both ways. |
| `TeeEfi.ReceiveIsReported` | src/uefi/metee_efi.c:479-488 | Of every receive on a connected handle: success, loss and failure are told apart exactly. |
| `TeeEfi.SendIsReported` | src/uefi/metee_efi.c:545-554 | Of every send likewise. |
| `OddReplies.OddConnectReply` | src/uefi/heci_efi.c:704-708 | A run from the start in which the connect reply carries another command: the connect reports success, the handle is not connected, and even one byte is too long to send. |
| `OddReplies.OddPropertiesReply` | src/uefi/heci_efi.c:545-549 | A run from the start in which one of two properties replies carries another command: the connect succeeds and connects, on a device that is not valid, and the first send is refused and ends the connection. |
| `TeeEfi.TeeHandle.TeeConnect` | src/uefi/metee_efi.c:377-437 | The call is a step of the two-state session and mirrors the client's properties on success. Each status has its cause: TEE_SUCCESS a connected handle or the wrong connect reply, TEE_CLIENT_NOT_FOUND a GUID in no entry of the table after an enumeration that went well, TEE_UNABLE_TO_COMPLETE_OPERATION a refusal by the firmware, TEE_INTERNAL_ERROR all else; TEE_DEVICE_NOT_READY never. |
| `TeeEfi.TeeHandle.TeeRead` | src/uefi/metee_efi.c:448-503 | A step of the session that delivers what ReceiveMessage received, over a cleared buffer. On a connected handle TEE_SUCCESS is exactly a last exchange that went well, TEE_DISCONNECTED exactly a lost link (and a length in range), TEE_INTERNAL_ERROR all else; and all calls so far form a run in which a session once answered with TEE_DISCONNECTED while connected never succeeds or touches the device again. |
| `TeeEfi.TeeHandle.TeeWrite` | src/uefi/metee_efi.c:514-566 | The same for writing. |
| `TeeEfi.TeeHandle.TeeDisconnect` | src/uefi/metee_efi.c:658-680 | Closes the handle as Uninitialize says and ends its life. |
| `TeeLinux.StepIsAllowed` | src/linux/metee_linux.c:259-416 | Every call of the Linux back end, with every answer of the kernel, is a step of the two-state session. |
| `TeeLinux.LinuxRefinesSession` | src/linux/metee_linux.c:259-416 | Every run of the Linux back end is a run of the two-state session. |
| `TeeLinux.HandleMirrorsClient` | src/linux/metee_linux.c:277-285 | At every point of every run after init the handle's maxMsgLen and protcolVer equal the client's buf_size and prot_ver. |
| `TeeLinux.ReportsLastConnect` | src/linux/mei.c:640-652 | At every point of every run they are what the kernel gave with the last connect that succeeded. |
| `TeeLinux.ReconnectIsOpen` | src/linux/mei.c:607-652 | A client not disabled at init never is: after whatever failures, a connect outside a connection reaches the device, and succeeds exactly when the kernel accepts it and the version is not below the last one accepted. |
| `TeeLinux.VersionNeverDecreases` | src/linux/mei.c:644-652 | prot_ver never decreases, across all reconnects. |
| `TeeLinux.OlderFirmwareIsTurnedAway` | src/linux/mei.c:644-647 | A reconnect that meets a protocol version below one accepted before fails with an internal error and leaves the client unconnected. |
| `TeeLinux.DisabledForever` | src/linux/mei.c:614-617 | A client disabled at init never changes again, and nothing succeeds on it. |
| `TeeLinux.CancelIsSticky` | src/linux/metee_linux.c:45-64 | Once a cancel has written to the pipe no read or write of any later run reaches the device, succeeds or changes anything; only connects still do. |
| `TeeLinux.CancelEndsTransfers` | src/linux/metee_linux.c:492-511 | So behind any cancel of a run that was written, no read or write succeeds or reaches the device. |
| `TeeLinux.LossIsExact` | src/linux/mei.c:135-145 | A connection is lost exactly when a transfer reached the device and failed with an error other than EOPNOTSUPP; a failed or timed-out poll keeps it. |
| `TeeLinux.LostStateIsExact` | src/linux/mei.c:135-153 | And which state it is lost to, by the error number of the transfer. |
| `TeeLinux.TransferStatusIsExact` | src/linux/metee_linux.c:45-64 | What success, TEE_TIMEOUT, TEE_UNABLE_TO_COMPLETE_OPERATION and TEE_DISCONNECTED tell the caller of a read or write on a connected client: how the poll ended, or which error the transfer behind it met. |
| `TeeLinux.ErrorNumbersAreExact` | src/linux/metee_linux.c:66-105 | The same of TEE_BUSY and TEE_CLIENT_NOT_FOUND: one error number each, of the poll or of the transfer. |
| `TeeLinux.OtherErrorsAreExact` | src/linux/metee_linux.c:66-83 | And of TEE_PERMISSION_DENIED, TEE_NOTSUPPORTED and TEE_INSUFFICIENT_BUFFER. |
| `TeeLinux.ConnectStatusIsExact` | src/linux/metee_linux.c:66-105 | A connect reports a missing client, a busy or a lost device exactly when the kernel said so. |
| `TeeLinux.InitStatusIsExact` | src/linux/metee_linux.c:85-97 | What each status of a failed init stands for. |
| `TeeLinux.Mei.Deinit` | src/linux/mei.c:119-133 | Everything is reset, and the descriptor is closed exactly when the library opened it. |
| `TeeLinux.Mei.Init` | src/linux/mei.c:401-447 | On memory with any contents: an absent device gives a disabled client, other failures leave the zero state; the only descriptor ever closed is the one just opened. |
| `TeeLinux.Mei.InitFd` | src/linux/mei.c:511-543 | The caller's descriptor is adopted and not closed on any path. |
| `TeeLinux.Mei.Connect` | src/linux/mei.c:599-655 | The imperative connect computes ClientConnect of the kernel's answer and keeps the error number of a failure. |
| `TeeLinux.Mei.Receive` | src/linux/mei.c:667-691 | Computes ClientTransfer; the buffer holds what the kernel gave and is otherwise unchanged. |
| `TeeLinux.Mei.Send` | src/linux/mei.c:693-717 | Computes ClientTransfer; what the kernel took is the front of the buffer. |
| `TeeLinux.LinuxHandle.Select` | src/linux/metee_linux.c:45-64 | The result of the poll; a byte in the pipe cannot be missed, and an infinite wait never times out. |
| `TeeLinux.LinuxHandle.TeeInit` | src/linux/metee_linux.c:107-221 | Success gives a fresh handle in its initial state with exactly its own descriptor and the two ends of its pipe open; a failure, that of the pipe included, leaves no descriptor open that it opened and closes no other; which addresses are refused; which status each failure reports. |
| `TeeLinux.LinuxHandle.TeeConnect` | src/linux/metee_linux.c:259-292 | Computes After of the kernel's answer: state, report and status. |
| `TeeLinux.LinuxHandle.TeeRead` | src/linux/metee_linux.c:294-355 | Computes After; a success delivers what the kernel gave, a failure leaves the buffer alone. |
| `TeeLinux.LinuxHandle.TeeWrite` | src/linux/metee_linux.c:357-416 | Computes After; the count is what the kernel took. |
| `TeeLinux.LinuxHandle.TeeCancelIO` | src/linux/metee_linux.c:492-511 | At most two bytes go into the pipe; nothing else changes. |
| `TeeLinux.LinuxHandle.TeeDisconnect` | src/linux/metee_linux.c:513-532 | The session ends, both ends of the pipe are closed, and the descriptor exactly when the library opened it. |
| `TeeWindows.StepIsAllowed` | src/Windows/metee_win.c:273-495 | Every call of the Windows back end is a step of the two-state session. |
| `TeeWindows.WindowsRefinesSession` | src/Windows/metee_win.c:273-495 | Every run of the Windows back end is a run of the two-state session. |
| `TeeWindows.ReportsLastConnect` | src/Windows/metee_win.c:318-325 | At every point of every run maxMsgLen and protcolVer are what the driver gave with the last connect that succeeded. |
| `TeeWindows.ConnectStatusIsExact` | src/Windows/metee_win.c:292-330 | A connect outside a session reaches the driver exactly when the device could be reopened, where it had to be, or the handle is valid; it succeeds exactly when the driver then accepts; TEE_CLIENT_NOT_FOUND is what the driver calls an invalid parameter, or its own. |
| `TeeWindows.TransferStatusIsExact` | src/Windows/metee_win.c:362-385 | A transfer in a session succeeds exactly when it completes, any failure ends the session, and TEE_TIMEOUT means that time ran out. |
| `TeeWindows.StepKeepsHandles` | src/Windows/metee_win.c:298-307 | Every call keeps the ownership invariant, and never replaces or closes a caller's handle. |
| `TeeWindows.HandlesBalance` | src/Windows/metee_win.c:298-307 | In every run the library holds exactly its own device handle, closes none twice and never the caller's. |
| `TeeWindows.RecoveryNeedsFreshHandle` | src/Windows/metee_win.c:298-307 | After a failure a session on the library's own handle comes back only over a handle opened since. |
| `TeeWindows.NothingPendingWhileConnected` | src/Windows/metee_win.c:298-307 | In every run on the library's own handle, no request that was given up is still pending while a session is connected. |
| `TeeWindows.BesideStep` | src/Windows/metee_win.c:298-325 | Exactly when one call brings about a session beside a request given up before: a connect on the caller's valid handle, answered well, while one is pending. |
| `TeeWindows.BesideExact` | src/Windows/metee_winhelpers.c:124-137 | Over every run: while connected, an earlier request is still pending if and only if the handle is the caller's and some earlier call gave up a request the driver had accepted. |
| `TeeWindows.PendingBesideSession` | src/Windows/metee_win.c:298-325 | A run on a caller's fresh handle in which it happens: connect, a read that times out, connect again. |
| `TeeWindows.UnlistedIsExact` | src/Windows/metee_winhelpers.c:390-394 | A call answers with a number that is no TEE status exactly when it needs the device and the handle is the invalid one. |
| `TeeWindows.UnlistedFollowsFailedReopen` | src/Windows/metee_winhelpers.c:390-394 | On a handle the library opened this means a query after a reconnect that could not reopen the device. |
| `TeeWindows.WinHandle.TeeInit` | src/Windows/metee_win.c:62-224 | Success gives the initial state over the handle opened or the caller's; a failure closes exactly the handle being set up: the one opened, else the caller's own, else the invalid one; which status each failure has. |
| `TeeWindows.WinHandle.TeeConnect` | src/Windows/metee_win.c:273-332 | Computes After of the driver's answers, reopening first when the session failed before. |
| `TeeWindows.WinHandle.TeeRead` | src/Windows/metee_win.c:334-392 | Computes After; a success delivers what the driver gave; a request given up by a timeout or a failed wait is counted as pending; without timeout it never times out. |
| `TeeWindows.WinHandle.TeeWrite` | src/Windows/metee_win.c:394-451 | The same for writing. |
| `TeeWindows.WinHandle.TeeFWStatus` | src/Windows/metee_win.c:453-495 | Computes After: a failed query drops the session. |
| `TeeWindows.WinHandle.TeeDisconnect` | src/Windows/metee_win.c:563-592 | No handle of the library's is left open, and the caller's is not closed. |
| `MeiUuid.Parse` | samples/meiuuid.c:13-66 | The loops accept exactly the texts of 36 characters with hex digits everywhere and dashes only in the four places, and compute Parsed. |
| `MeiUuid.TextOfNumber` | samples/meiuuid.c:37-39 | Writing the number that digits spell gives the digits back in lower case. |
| `MeiUuid.NumberOfText` | samples/meiuuid.c:37-39 | Reading the written digits of a number that fits gives the number back. |
| `MeiUuid.ReadsAsSpelt` | samples/meiuuid.c:37-52 | Of a canonical text each field is read to its dash, and no field saturates or is cut off. |
| `MeiUuid.RoundTrip` | samples/meiuuid.c:37-64 | Parsing the 8-4-4-4-12 text of any GUID gives it back (section 3 of RFC 4122). |
| `MeiUuid.SpellsIffCanonical` | samples/meiuuid.c:26-64 | Of an accepted text the GUID read is the one spelt if and only if the four dashes are in place; the other accepted texts are read as a different text's GUID. |

## Left out

- HeciCore.HeciSend: requires a ring depth other than 1, which the source does not check; there the loop ends only when a packet fails, and `HeciCore.SendTurnsAtDepthOne` covers any number of its turns. At depth 0 the arithmetic is that of a 64-bit build.
- HeciCore.HeciReceive: covers the calls that return. A firmware that sends packets without end and never completes a message keeps the source reading; `Device.talk`, the number of words with a clear top bit still to come, is finite but arbitrary.
- HeciRing.RunKeepsOk: does not say what a host reads that goes on with a packet across a reset by the firmware; the source discards such a packet when it finds the firmware not ready.
- HeciTable.LookupKeepsTidy: speaks of real device addresses; the all-ones address that marks a free slot is not one.
- HeciRuns.RunKeepsInv: is for runs without a stealing close, with the exact condition in `HeciRuns.ReleaseExact`.
- HeciRuns.MuteHandleNeverSends: takes the generation as an unbounded counter; the source's wraps after 2^32 resets.
- Sharing.ReceivesAnswerInOrder: is for exchanges that the transport reports as successful, since any of them may fail for want of time, and for clients without fixed address on function 0, which are the ones that credits pair with responses.
- Sharing.OwnExactly: asks for distinct host ids, which `HeciRuns.RunKeepsInv` gives for every run without a stealing close.
- TeeEfi.TeeHandle.TeeDisconnect: ends the life of the handle; the source frees the memory and leaves the pointer in the handle.
- TeeLinux.Mei.Connect: does not model the vtag, which only picks another ioctl.
- TeeWindows.WinHandle.TeeRead: takes begin and end of an overlapped request as one step; what a pending request later does to the caller's buffer is not modelled.
- TeeWindows.WinHandle.TeeWrite: likewise.
- A NULL handle pointer: all calls return TEE_INVALID_PARAMETER or nothing; a handle without an internal structure is modelled.
- PCI configuration space, BAR fix-up, wake from D3 and the memory-mapped access itself: one arbitrary outcome per call.
- Firmware status, TRC, kind, driver version, log levels and callbacks: easy members. `TeeFWStatus` is modelled on Windows, where its failure drops the session; `TeeGetTRC` and `GetDriverVersion` treat the state alike.
- The hardware info tables and device selection of src/uefi/metee_efi.c, and the paths and sysfs files of Linux.
- MEI notifications (src/linux/mei.c), which the library does not use.
- TeeCancelIO on Windows: it waits for requests to end, pending ones included, and changes no state of the session.
- The EFI stalls other than TIMER_STEP: the one of 40 seconds is shown unreachable.
- The C++ and C# wrappers, the other samples, tests and build files.
