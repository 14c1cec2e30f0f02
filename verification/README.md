# A verified model of the half_jackal serial link

half_jackal joins a PC to an AVR motor controller by a small serial protocol: packets of at most
61 bytes are followed by a 16-bit check, stuffed so that three byte values are free for control,
and delimited by flags. On the AVR each direction is a *packet ring*, a 64-byte data ring with an
8-entry ring of packet boundaries, which an interrupt handler and the main loop share without
locks. This project models that link and the quadrature counting beside it, and proves what it is
for: under every interleaving of interrupts and main-loop steps, what one side accepts is what the
other side delivers, in order, whole, and once; and where the code does not achieve that, exactly
when it does.

`dafny verify dfyconfig.toml` checks everything.

## How it is organised

| file | what it holds |
|---|---|
| `Crc.dfy` | the check update, its meaning as a shift register, what it detects |
| `Wire.dfy` | flags, stuffing, and a decoder-free definition of what a byte stream *carries* |
| `RxSpec.dfy` | an unbounded decoder and consumer on values; it publishes what the stream carries |
| `PacketBuf.dfy` | the packet ring on values: what each elementary write does to its packets |
| `RxRing.dfy` | class `Receiver`: the receive interrupt and the `frame_recv_*` functions, refining `RxSpec` |
| `TxRing.dfy` | class `Transmitter`: the transmit interrupt, `frame_send` and the packet builder |
| `PcCodec.dfy` | `frame_send` and `frame_recv` of the PC, over streams with a position |
| `PcStreams.dfy` | what `frame_recv` returns on every stream, also with aborts and stray escapes, and when that is what the stream carries |
| `Damage.dfy` | damage on the wire, where frames are stuffed |
| `TxReach.dfy` | rings that `frame_send` makes from power-up, in which the failing cases of `TxRing` occur |
| `RoundTrip.dfy` | both directions of the link, and the agreement of the two decoders |
| `Quadrature.dfy` | class `Encoder`: the edge counters and the local count of the speed controller |

Concurrency. An interrupt handler is one atomic step (interrupts do not nest on this machine). In a
main-loop function a call of `Interrupts` stands between any two accesses to shared memory between
which an interrupt could make a difference, also between the single bytes of a `memcpy`; what only
the main loop writes, such as `rx.tail` and the boundary in its slot, may be read together. The call
performs any number of interrupts, so a proof of such a method covers every interleaving. What they
can do comes from outside: on the receiving side they take the bytes and line errors of
`Receiver.coming`, which are arbitrary, in order; on the sending side they can fire
`Transmitter.due` times in all, which is arbitrary too. Every method states that it takes and sends
nothing itself: `Line`, what has arrived and what is still to arrive, stays the same, and `Sends`
says that each firing sends one byte and that nothing is sent while the interrupt is off.
`Receiver.trace` lists what took effect and in which order, and `Receiver.Valid` says that the ring
holds exactly the packets of the value-level decoder after that trace.
`Transmitter.wire` is what was sent and `Transmitter.log` what was accepted; `Live` says that `wire`
followed by what is still pending in the ring is the encoding of `log`.

Assumptions. `penny/circ_buf.h` is not part of this model: its macros are taken to be the usual
ones for rings of a power-of-two size with one place kept free. avr-libc's `_crc_ccitt_update` is
taken to be the function of `pc/crc.h`. The update uses the polynomial and the initial value of the
16-bit FCS in appendix C.2 of RFC 1662, but no final complement, so the good residue is 0. The AVR
is little-endian, so `htons` swaps the check bytes of `frame_send` there. The data-register-empty
interrupt is a boolean "enabled" (`udrie`). Indices are natural numbers proved to stay below 64 and
8; 16- and 32-bit counters wrap explicitly.

## Where the code falls short of its purpose

Each of these is a statement about all inputs that says exactly when the code does what it should.

- *Publish, then enable.* `frame_send` moves the head (avr/frame_async.c:676) and only then enables
  the interrupt (line 681). An interrupt that was still enabled may drain the ring in between and
  turn itself off; it is then enabled with nothing queued, and its next firing moves the tail past
  the head, because the test of line 453 precedes the guard of line 470. `DispatchedIff` says for
  which schedules the end of `frame_send` and `frame_done` is good, `DispatchIff` that all are if and
  only if the ring is empty before the head moves. So a caller that finds nothing queued is safe, as
  `FrameSend` and `FrameDone` state; with something queued `DrainedTooSoon` gives the schedule that
  breaks the ring, `DrainedWitness` two packets from power-up for it.
- *Six packets queued.* `frame_send` refuses only at seven (line 628), which are never queued, but
  also writes the boundary after its packet (lines 663-664). `SeedIff`: safe exactly with at most
  five. `FrameSend` states that this can only happen when six packets were queued at the call;
  `SixQueuedWitness` queues six and sends a seventh.
- *Empty builds.* `frame_start` makes sure of no data space. `EmptyBuildIff`: `frame_done` without an
  append is safe exactly if two bytes happen to be free. After one packet of 60 bytes they are not
  (`EmptyBuildWitness`).
- *Order of check bytes.* `frame_done` appends them high byte first (line 587), `frame_send` low
  byte first (line 659). `SwappedCheckBytes` and `BuilderFrameIff`: a built packet is received
  exactly if its two check bytes are equal. The same holds of a PC whose byte order is big-endian,
  on which `htons` changes nothing (`SentCheck`).
- *Aborts on the PC.* An abort empties the buffer of `frame_recv` but does not restart the check
  (pc/frame_async.c:91-95), nor does a flag that finds the buffer empty (lines 69-83). `AbortsIff`:
  as long as the buffer suffices, an abort does harm if and only if some bytes stand between the last
  one and the flag and the check
  of all bytes is right, which returns a frame that was never sent; or if none do and the check is
  not by chance back at its initial value, which loses the good frame behind the abort.
  `LossWitness` is the ordinary case of the second: a byte, an abort, a flag, a frame. In the first
  case a single byte behind the abort makes the result -1, as at the end of the stream
  (`AbortWitness`).
- *Escape before a flag on the PC.* A flag does not cancel an escape (pc/frame_async.c:68-86), unless
  the call returns there. `LoneEscapeIff`: the frame after a segment that ends in an escape is
  returned if and only if that segment is itself returned or does not fit the buffer, or the first
  stored byte of the frame is one that is sent escaped.
- *Both, on any stream.* `ReceivesTaken` gives the results of `frame_recv` for every stream;
  `FaithfulIff` says when they are what the stream carries at every flag, `ResultsIff` and
  `HarmlessIff` for arbitrary bytes between two flags and a clean rest.
- *Packets without payload.* The comment at avr/frame_async.c:199-201 says that packets cannot be of
  0 bytes; the code accepts `7e ff ff 7e` as one. The main loop then never pops it (`Poll`).
  `RecvByteIff`: `frame_recv_byte` takes a byte or none under every schedule if and only if a packet
  is queued when it is called; otherwise an empty one can arrive during the call, in every state
  (`EmptyPacketOvertakes`), and it runs past its end (`BumpIff`).

The code is followed in all of these.

One limit is of the protocol and not of the code: the check covers stored bytes. `WireBurstDetected`:
damage on the wire that moves no flag, abort or escape is detected. One flipped bit that makes a flag
need not be (`FlippedBitWitness`).

## Model

| member | source | states |
|---|---|---|
| Crc.UpdateIsClock | pc/crc.h:19-27 | one nibble-trick update equals eight clocks of the shift register with polynomial 0x8408 |
| Crc.FoldIsLfsr | pc/crc.h:19-27 | updating over any byte sequence equals shifting all its bits, least significant first, through that register |
| Crc.ResidueOfTwo | avr/frame_async.c:659 | two more bytes give residue 0 if and only if they are the low and the high byte of the check, in that order |
| Crc.ChecksIff | avr/frame_async.c:334-366 | stored bytes pass the check if and only if there are at least two and the last two are the check bytes of the rest; so trimming two bytes never underflows |
| Crc.CheckBytesCheck | pc/frame_async.c:34-37 | a payload followed by its check bytes, low byte first, always passes |
| Crc.SwappedCheckBytes | avr/frame_async.c:587 | with the check bytes high byte first it passes if and only if the two are equal |
| Crc.FoldInjective | pc/crc.h:19-27 | over the same bytes, different check states stay different |
| Crc.PairInjective | pc/crc.h:19-27 | from the same check state, different byte pairs lead to different states |
| Crc.PairChangeDetected | pc/crc.h:19-27 | changing one byte or two adjacent bytes anywhere in a frame of any length is detected |
| Crc.UpdateLinear | pc/crc.h:19-27 | the update of a sum of states by a sum of bytes is the sum of the updates |
| Crc.KnownAnswer | pc/crc.h:19-27 | the check of the digits 1 to 9 is 0x6f91 |
| Crc.BurstDetected | pc/crc.h:19-27 | any damage to the stored bytes of a frame, after unstuffing, that is confined to 16 consecutive bits, at any bit offset, and keeps their number, is detected, at any length |
| Wire.StuffTransparent | pc/frame_async.c:12-19 | stuffed bytes hold no flag and no abort, end in no open escape, at most double in length, and unstuff to the original |
| Wire.StuffLength | frame/frame_proto.h:17-23 | every byte 0x7d, 0x7e and 0x7f is sent as two and no other is: that gives the length, and what holds none of them is sent as it is |
| Wire.Alphabet | frame/frame_proto.h:17-20 | flag, abort and escape are 0x7e, 0x7f and 0x7d, and the three are sent as 7d 5e, 7d 5f and 7d 5d |
| Wire.StuffInjective | frame/frame_proto.h:17-23 | different bytes are stuffed differently |
| Wire.GoodStored | avr/frame_async.c:354-366 | a stuffed payload with check bytes is a frame with just that payload, if and only if payload and check bytes fit |
| Wire.TransmissionCarries | avr/frame_async.c:453-466 | a sequence of frames carries exactly their payloads, in order, wherever two frames share a flag and wherever they do not |
| Wire.TransmissionUnique | pc/frame_async.c:12-43 | equal transmissions of frames that hold anything are of equal frames, wherever flags are shared: there is one way to split them |
| Wire.CarriedPrefix | avr/frame_async.c:325-376 | what a stream has carried so far is not changed by what follows |
| Damage.WireBurstDetected | frame/frame_proto.h:6-23 | a burst of at most 16 bits within a stuffed frame that leaves every flag, abort and escape where it is and makes no new one is detected: that frame is not carried, what follows is |
| Damage.UnstuffedDamage | pc/frame_async.c:97-105 | such damage changes the unstuffed bytes, not their number; by the same bits, if no escape is among the damaged bytes |
| Damage.FlippedBitWitness | pc/frame_async.c:68-86 | one flipped wire bit that makes a flag can yield a packet that was never sent |
| RxSpec.Step | avr/frame_async.c:300-430 | no event takes back a published packet, a popped one, or the count of lost frames |
| RxSpec.PublishedIsCarried | avr/frame_async.c:300-430 | from any state, over any bytes, line errors and consumer actions, the published packets are those the stream carries, in order, each once and whole, with only frames lost for lack of room left out, and no more of these than counted |
| RxSpec.ReplayIsCarried | avr/frame_async.c:300-430 | the same from power-up; with nothing lost the published packets are exactly those the stream carries |
| RxSpec.LostIff | avr/frame_async.c:334-349 | a frame is lost for lack of room if and only if its closing flag finds six packets queued and it is good, or a byte of it finds all 63 places taken, some of them by packets queued |
| RxSpec.BodyIsStored | avr/frame_async.c:388-414 | a frame body for which there is room is stored unstuffed and whole, whatever the consumer does meanwhile |
| RxSpec.SelfSynchronises | avr/frame_async.c:318-382 | after any history, flag, stuffed payload and check, flag publishes exactly that payload as the newest packet, if after the first flag there was a free slot and room for payload and check |
| RxSpec.FramePublishes | avr/frame_async.c:325-414 | the same from any state behind a flag, and no frame is lost meanwhile |
| RxSpec.AllPublished | avr/frame_async.c:300-430 | over a whole run of frames, if every opening flag finds a free slot and room for its frame, all payloads are published, in order, and none is lost |
| RxSpec.DrainedIsRoomy | avr/frame_async.c:334-349 | a queue that is drained at every byte has that room for payloads of up to 61 bytes |
| RxSpec.DrainedRun | avr/frame_async.c:337-349 | if every byte finds the queue drained, no frame is lost for lack of room |
| RxSpec.ChunksJoin | avr/frame_async.c:214-266 | reading a packet in any number of pieces, with interrupts between them, yields the bytes of one large read; the rest of it and the packets behind it are untouched |
| RxSpec.TakeReads | avr/frame_async.c:261 | a read takes bytes off the front of the current packet and changes nothing else |
| RxSpec.NextBringsUp | avr/frame_async.c:277-281 | leaving a packet brings up the next one whole |
| RxSpec.CollectsPublished | avr/frame_async.c:189-197 | a consumer that reads packets whole before leaving them collects the published packets, in order |
| PacketBuf.StoreAppends | avr/frame_async.c:410-411 | storing a byte while one place stays free extends the packet under construction and no published one, also across the wrap |
| PacketBuf.RewindEmpties | avr/frame_async.c:428-429 | dropping empties the packet under construction and leaves the published ones |
| PacketBuf.ShortenTrims | avr/frame_async.c:355-357 | taking back bytes cuts the end of the packet under construction only |
| PacketBuf.PublishAppends | avr/frame_async.c:357-366 | moving the head over the packet appends it to the queue and leaves an empty one under construction, if at most five are queued |
| PacketBuf.AdvanceReads | avr/frame_async.c:261 | moving the tail's boundary cuts the front of the first packet only, and disturbs no packet under construction |
| PacketBuf.LeavePops | avr/frame_async.c:277-281 | moving the tail removes the first packet only, and disturbs no packet under construction |
| PacketBuf.RewritesFirst | avr/frame_async.c:485-489 | in-place escaping changes the first unsent byte only |
| PacketBuf.WriteBehind | avr/frame_async.c:648-653 | writing behind the published bytes while room remains touches no packet |
| PacketBuf.SetBehind | avr/frame_async.c:655-664 | writing boundary slots behind the head touches no packet, unless the slot is in the queue or the tail's |
| RxRing.RingTotal | avr/frame_async.c:405-409 | the bytes in use are those of the queued packets and of the one under construction; the full test is about their sum |
| RxRing.InterruptRefines | avr/frame_async.c:300-430 | whatever arrives, in any state of the ring, the interrupt does to the ring and its flags what the unbounded decoder does |
| RxRing.InterruptKeepsTail | avr/frame_async.c:300-430 | the interrupt writes neither the tail nor the boundary in the tail's slot |
| RxRing.InterruptsOnlyAdd | avr/frame_async.c:300-430 | interrupts only append to the queue the consumer sees |
| RxRing.StaysAt | avr/frame_async.c:195-197 | whatever it reads, a consumer that does not advance stays at its packet |
| RxRing.RefinesTake | avr/frame_async.c:261 | the write of the tail's boundary is a read of the decoder's current packet |
| RxRing.RefinesNext | avr/frame_async.c:277-281 | the write of the tail is the decoder's advance to the next packet |
| RxRing.BumpIff | avr/frame_async.c:230-233 | moving the byte pointer by one is a read if and only if the packet is not empty; otherwise 63 bytes appear that never came |
| RxRing.EmptyPacketOvertakes | avr/frame_async.c:223-237 | from every state with an empty queue: three interrupts leave it empty with any plain byte behind it, and four more queue an empty packet |
| RxRing.RecvByteQueued | avr/frame_async.c:223-237 | with a packet queued at the call, frame_recv_byte takes exactly one byte or none under every schedule |
| RxRing.RecvByteIff | avr/frame_async.c:223-237 | frame_recv_byte keeps the refinement under every schedule if and only if a packet is queued at the call |
| RxRing.Receiver.constructor | avr/frame_async.c:80-90 | the zeroed ring refines the decoder at power-up |
| RxRing.Receiver.DropPacket | avr/frame_async.c:422-430 | the packet under construction is given up and the flags reset |
| RxRing.Receiver.TakeFlag | avr/frame_async.c:325-376 | a flag publishes, drops or ignores what precedes it, and opens a frame |
| RxRing.Receiver.PutByte | avr/frame_async.c:403-414 | a byte enters the check and, if there is room, the ring |
| RxRing.Receiver.Handle | avr/frame_async.c:300-430 | the handler's effect on ring and flags |
| RxRing.Receiver.RxIsr | avr/frame_async.c:300-430 | the handler keeps the refinement: the ring holds what the decoder has after one more event |
| RxRing.Receiver.Interrupts | avr/frame_async.c:300-430 | any number of interrupts keep the refinement, the consumer's place, and the queue's beginning |
| RxRing.Receiver.FrameRecvLen | avr/frame_async.c:202-212 | with interrupts at every access, the length of the current packet; not 0 only if there is one of that length |
| RxRing.Receiver.FrameRecvByte | avr/frame_async.c:223-237 | with interrupts at every access, takes exactly the next byte of the current packet, also of one that arrives during the call, or takes nothing and returns 0; for a packet present at the call it takes a byte if and only if there is one; keeps the refinement unless the queue was empty and an empty packet arrived |
| RxRing.Receiver.FrameRecvCopy | avr/frame_async.c:244-266 | copies exactly the first bytes of the current packet, as many as fit, across the wrap, leaves the rest of `dst` alone, and returns the packet's length |
| RxRing.Receiver.CopyPacket | avr/frame_async.c:248-262 | the same once a packet is known to be there |
| RxRing.Receiver.CopyBoth | avr/frame_async.c:254-259 | the two memcpy calls together copy the wrapped bytes in order |
| RxRing.Receiver.FrameRecvNext | avr/frame_async.c:277-281 | removes the current packet, and only that |
| RxRing.Receiver.FrameRecvCt | avr/frame_async.c:294-297 | a number of packets between that at the call and that at the return |
| RxRing.Receiver.Poll | avr/main.c:404-408 | finds in `dst` exactly the first bytes of the current packet, as many as fit, also of one that arrives during the call, or nothing; pops the packet if and only if it is not empty |
| RxRing.Receiver.Polls | avr/main.c:404-408 | over any number of rounds the contents of `dst` are the published packets that were popped, in order, each once, and whole if `dst` is long enough; each round pops at most one, and exactly one as long as the packets queued at the call are not empty |
| TxRing.Fire | avr/frame_async.c:434-495 | a firing keeps indices in range |
| TxRing.PendingAppend | avr/frame_async.c:476-481 | publishing a packet adds to what is still to be sent exactly its encoding, with an opening flag of its own if and only if the ring was empty |
| TxRing.FireSends | avr/frame_async.c:434-495 | with packets queued a firing sends exactly the first pending byte, leaves the rest pending, and turns itself off exactly with the last packet; the guard of line 470 is not reached |
| TxRing.FireRely | avr/frame_async.c:434-495 | a firing only frees space and slots, writes nothing of the producer's, and leaves copies of a boundary the producer has read conservative |
| TxRing.RelyTransitive | avr/frame_async.c:605-632 | so do any number of firings |
| TxRing.TailConservative | avr/frame_async.c:607-615 | a copy of the tail and its boundary measures the space in use exactly when it is taken |
| TxRing.FireKeeps | avr/frame_async.c:434-495 | sent bytes and pending bytes together stay the encoding of what was accepted |
| TxRing.LivePublish | avr/frame_async.c:655-676 | moving the head over a built packet adds its encoding to that, with at most five packets queued |
| TxRing.FiringsDrain | avr/frame_async.c:434-495 | n firings send the first n pending bytes, one each, and with the last of them the interrupt is off and the ring empty |
| TxRing.EnabledIff | avr/frame_async.c:453-474 | the next firing keeps a seeded ring in order if and only if something is queued |
| TxRing.IdleFiring | avr/frame_async.c:468-474 | with nothing queued but a packet under construction, a firing sends nothing, leaves the ring alone and turns the interrupt off |
| TxRing.GoodWhileOn | avr/frame_async.c:434-495 | firings while enabled keep a good state good and send one pending byte each until none is left |
| TxRing.DispatchedIff | avr/frame_async.c:676-681 | for every schedule: the end of frame_send and frame_done is good if and only if what was pending is sent before the head moves, or not all the rest is sent before the interrupt is enabled |
| TxRing.DrainedTooSoon | avr/frame_async.c:667-681 | with something queued when the head moves there is a schedule that drains the ring before the interrupt is enabled, and the firing after that breaks the ring |
| TxRing.DispatchIff | avr/frame_async.c:676-681 | the end of frame_send and frame_done is good under every schedule if and only if the ring is empty before the head moves |
| TxRing.SeedIff | avr/frame_async.c:628-664 | seeding the boundary after the packet is safe if and only if at most five are queued; with six it moves the boundary the interrupt stands at |
| TxRing.EmptyBuildIff | avr/frame_async.c:526-599 | publishing a build without appends is safe if and only if two bytes happen to be free |
| TxReach.SendIdle | avr/frame_async.c:603-684 | without interrupts a send that fits queues exactly the payload with its check and leaves the ring ready for the next |
| TxReach.SixQueuedWitness | avr/frame_async.c:617-664 | from power-up, six packets of any payload of up to seven bytes pass all tests of frame_send, and so does a seventh, whose seeding moves the boundary the interrupt stands at |
| TxReach.EmptyBuildWitness | avr/frame_async.c:526-599 | from power-up, after any packet of 60 bytes, an empty build passes all tests and breaks the ring |
| TxReach.DrainedWitness | avr/frame_async.c:676-681 | from power-up, for any two packets that fit together, there is a schedule of the second send after which the next firing breaks the ring |
| TxRing.Transmitter.constructor | avr/frame_async.c:80-90 | the zeroed ring with the interrupt off is a good state |
| TxRing.Transmitter.TxIsr | avr/frame_async.c:434-495 | the handler does what one firing does, and sends what it sends |
| TxRing.Transmitter.Interrupts | avr/frame_async.c:434-495 | any number of firings while enabled keep the state good and give the producer its guarantees |
| TxRing.Transmitter.Append8 | avr/frame_async.c:510-516 | appends a byte to the packet under construction, with firings at every access |
| TxRing.Transmitter.WriteEnd | avr/frame_async.c:515 | the staged bytes become the packet under construction, with firings before the write |
| TxRing.Transmitter.AppendCheck | avr/frame_async.c:518-521 | appends two bytes, in order |
| TxRing.Transmitter.ReadEnds | avr/frame_async.c:605-608 | the space in use that the copies show lies between what is in use after and at the call |
| TxRing.Transmitter.CopyIn | avr/frame_async.c:648-653 | memcpy byte by byte stages the data behind the published bytes |
| TxRing.Transmitter.PutData | avr/frame_async.c:643-656 | the two memcpy calls and the write of the end build the packet, across the wrap |
| TxRing.Transmitter.CrcOf | avr/frame_async.c:634-641 | the loop computes the check of the data |
| TxRing.Transmitter.Dispatch | avr/frame_async.c:662-681 | seeding, publishing and enabling put the built packet, and only it, at the end of the log; nothing is sent but by the interrupt, and with that off at the call nothing at all |
| TxRing.Transmitter.Seed | avr/frame_async.c:663-664 | the slot written is the one the interrupt stands at if and only if the tail is there at the write, which takes six packets queued at the call; otherwise the built packet is undisturbed |
| TxRing.Transmitter.PublishAndEnable | avr/frame_async.c:675-681 | with the boundary seeded and at most five packets queued the packet is logged and adds exactly its bytes to those in use |
| TxRing.Transmitter.FrameSend | avr/frame_async.c:603-684 | accepts whenever there was room at the call, and the head moves if and only if it does; a refusal changes nothing, also no packet under construction; an accepted payload is appended to the log with its check, low byte first; nothing is sent but by the interrupt; a send into an empty ring sends nothing and ends in a good state, any other does if and only if something is still queued |
| TxRing.Transmitter.Accept | avr/frame_async.c:634-681 | with room found, the payload and its check are built and dispatched |
| TxRing.Transmitter.FrameStart | avr/frame_async.c:526-535 | starts an empty packet whenever at most five are queued, otherwise leaves the packet under construction as it was |
| TxRing.Transmitter.StartBuilt | avr/frame_async.c:533 | an empty packet is under construction, with firings at every access |
| TxRing.Transmitter.HasSpace | avr/frame_async.c:542-551 | what fits leaves room for the check; what does not drops and rewinds the packet, and did not fit at the call |
| TxRing.Transmitter.DropBuilt | avr/frame_async.c:505-508 | rewinds the packet under construction, with firings at every access, and disturbs nothing else |
| TxRing.Transmitter.FrameAppendU8 | avr/frame_async.c:537-556 | appends the byte if it and the check fitted at the call; otherwise it is appended or the whole packet dropped and rewound |
| TxRing.Transmitter.FrameAppendU16 | avr/frame_async.c:558-578 | appends both bytes, high one first, or drops the whole packet |
| TxRing.Transmitter.FrameDone | avr/frame_async.c:581-600 | publishes exactly the appended bytes and the check, high byte first, or nothing if an append had not fitted; nothing is sent but by the interrupt; into an empty ring it sends nothing and ends in a good state |
| PcCodec.ReceivesExpected | pc/frame_async.c:45-117 | from any point of a call on, the results of this and all further calls are what the rest of the stream carries |
| PcCodec.ReceivesCarried | pc/frame_async.c:45-117 | on every stream without aborts and without escapes directly before flags, calling until the end returns exactly the payloads the stream carries |
| PcCodec.SuccessChecks | pc/frame_async.c:70-74 | on every stream without aborts a call that succeeds has at least two bytes in the buffer and right check bytes at their end, so `i - 2` does not underflow |
| PcStreams.ThroughSegment | pc/frame_async.c:88-114 | from any state, any bytes between two flags leave in the buffer what follows the last abort, and in the check all of them |
| PcStreams.OverflowSkips | pc/frame_async.c:109-114 | bytes that do not fit end the call with -28, and the next one resumes at the closing flag |
| PcStreams.CallReturns | pc/frame_async.c:45-117 | for every stream, what one call returns: -28 at the first segment that overflows, the length without the check at the first that is returned, -1 if there is neither |
| PcStreams.NoSpaceOnly | pc/frame_async.c:109-114 | -28 is returned only if some segment overflows the buffer |
| PcStreams.ReceivesTaken | pc/frame_async.c:45-117 | for every stream, the results of calling until the end, segment by segment: what is returned, what ends the reading, and what is remembered behind the flag |
| PcStreams.AgreesIff | pc/frame_async.c:68-95 | a segment gives what it carries if and only if it overflows the buffer or leaves at most one byte in it; or, behind an abort, its check is wrong; or, without one, it checks alone as it does behind what is remembered, and to the same payload |
| PcStreams.FaithfulIff | pc/frame_async.c:45-117 | for any bytes between the flags, the results so far are what the stream carries at every flag if and only if each segment is of that kind and none ends the reading too soon |
| PcStreams.ResultsIff | pc/frame_async.c:68-95 | any bytes between two flags, then a clean rest: the results are what the stream carries if and only if nothing with an abort in it is returned, but for a single byte with nothing behind it, and the first non-empty segment of the rest checks alone as it does behind what is remembered |
| PcStreams.HarmlessIff | pc/frame_async.c:68-105 | any bytes between two flags, then a frame and a clean rest: the exact condition on those bytes |
| PcStreams.AbortsIff | pc/frame_async.c:69-95 | with any number of aborts: no harm if and only if there are too many bytes for the buffer, or, with bytes behind the last abort, the check of all bytes is wrong, and without, it is back at its initial value |
| PcStreams.LossWitness | pc/frame_async.c:69-95 | behind a byte and an abort the frame of every payload is lost |
| PcStreams.AbortWitness | pc/frame_async.c:91-95 | the smallest stream with an abort for which the result is -1 though it carries nothing |
| PcStreams.LoneEscapeIff | pc/frame_async.c:68-86 | a segment that ends in an escape, then a frame: all is returned if and only if the segment does not fit, or checks, or the first stored byte of the frame is one that is sent escaped |
| PcCodec.OutStream.SendByte | pc/frame_async.c:12-19 | writes the byte stuffed |
| PcCodec.FrameSend | pc/frame_async.c:21-43 | writes flag, stuffed payload and check in host order, flag |
| PcCodec.FrameRecv | pc/frame_async.c:45-117 | result, buffer contents and what is left of the stream, with the closing flag put back on success; nothing is written beyond the length given |
| RoundTrip.CleanTransmission | avr/frame_async.c:434-495 | nothing a sender of frames writes has an abort or an escape directly before a flag |
| RoundTrip.AvrToPc | avr/frame_async.c:434-495 | at any time of any run, what the PC reads from what was sent is a beginning of what was accepted, and all of it once the ring is drained |
| RoundTrip.AvrToPcRoundTrip | avr/frame_async.c:603-684 | the payloads accepted by frame_send are exactly those the PC gets, in order, given buffers for payload and check |
| RoundTrip.FirstAccepted | avr/frame_async.c:612-632 | of a sender's payloads the first ones are all accepted, as long as they are at most six and fit the ring together |
| RoundTrip.SendFromAvr | avr/frame_async.c:603-684 | from power-up, frame_send called with one payload after the other while the interrupt drains the ring: a payload is left out only if six packets are queued or it does not fit at its turn; what the PC reads from the wire is a beginning of the accepted ones, in order, and all once the ring is drained; the run ends early only when the interrupt is enabled over a drained ring |
| RoundTrip.BuilderFrameIff | avr/frame_async.c:581-600 | a built packet is received if and only if its two check bytes are equal |
| RoundTrip.SendAll | pc/frame_async.c:21-43 | sending payloads one after the other writes their transmission |
| RoundTrip.PcToAvrRoundTrip | avr/frame_async.c:300-430 | payloads of up to 61 bytes sent by a little-endian PC are published on the AVR, exactly and in order, if none is lost for lack of room; and a consumer that reads packets whole collects exactly them |
| RoundTrip.DrainedRoundTrip | avr/frame_async.c:300-430 | so it is, for what is published and what is collected, if the consumer drains the queue before every byte |
| RoundTrip.RoomyRoundTrip | avr/frame_async.c:300-430 | so it is already if every opening flag finds a free slot and room for its frame |
| RoundTrip.ReceiveFromPc | avr/main.c:404-408 | when the line carries what a little-endian PC sends, what any number of main-loop rounds find in `dst` are the next payloads, in order, each once and whole, as long as none is lost for lack of room; each round delivers one as long as those queued are not empty, and once all has arrived enough rounds deliver all |
| RoundTrip.DecodersAgree | pc/frame_async.c:45-117 | on every stream without aborts, line errors and escapes directly before flags the PC with a 63-byte buffer returns the packets the AVR publishes, if none is lost for lack of room |
| Quadrature.EdgesAreCounted | avr/main.c:104-119 | every pin edge is counted exactly once, up or down |
| Quadrature.CountIsPosition | avr/main.c:104-132 | modulo 4 the net count is the change of position in the Gray code plus two for every sample that changes both pins |
| Quadrature.PositionModuloFour | avr/main.c:104-132 | modulo 2 the net count is the change of position always, modulo 4 if and only if an even number of samples changed both pins |
| Quadrature.RetracingRestores | avr/main.c:104-132 | a path without double changes followed by its reverse restores the net count |
| Quadrature.OneTurn | avr/main.c:104-119 | one turn through the four states counts four up and none down |
| Quadrature.LocalFollows | avr/main.c:104-119 | a count up or down is kept modulo 2^16 wherever the local counter wraps |
| Quadrature.Encoder.constructor | avr/main.c:46-50 | the zeroed counters are a good state |
| Quadrature.Encoder.EncIsr | avr/main.c:104-132 | the interrupt keeps all counters in step with the sampled pins |
| Quadrature.Encoder.PidStep | avr/main.c:194-203 | the local count is handed over and restarted, and none is lost; it is exactly what was not handed over yet, if that fits 16 bits |
| Quadrature.Encoder.CountersExact | avr/main.c:104-132 | ct_p and ct_n are the counts up and down, modulo 2^32; ct_local is what was counted and not handed over, exactly if it fits 16 bits and modulo 2^16 always |
| Quadrature.Encoder.CountersTell | avr/main.c:104-132 | at any time the sum of the counters is the number of edges modulo 2^32, and their difference is everything handed to the controller plus the local count modulo 2^16, and the Gray-code displacement modulo 2, and modulo 4 if and only if an even number of samples changed both pins |

## Left out

- FrameSend: requires that the interrupt is not enabled over an empty ring, as the state it may leave behind itself can be when something was queued at the call; from that state nothing useful holds (see `DispatchIff`, `EnabledIff`). It promises nothing about the state after a seeded slot that was in use at the write (`clobbered`, see `Seed`).
- FrameDone: promises nothing about a packet to which nothing was appended and for which two bytes are not free (see `EmptyBuildIff`).
- FrameAppendU8: a packet under construction is preserved by the other builder calls and by interrupts, not by an accepted `frame_send` in between, which uses the same place in the ring.
- FrameRecvByte: promises nothing about the ring after it has run past the end of an empty packet (see `BumpIff`).
- FrameRecvNext: requires a packet, as its comment demands.
- FrameRecv: stream errors (pc/frame_async.c:60-66) and the diagnostic of line 76 are not modelled; a stream only ends.
- WireBurstDetected: speaks of damage within one frame; damage on both sides of a flag is two such cases.
- Length limits of the platform: a buffer of more than 2^63 bytes on the PC.
- `frame_recv_have_pkt` (avr/frame_async.c:286-289): the test that the other functions contain.
- `frame_timeout`, `print_packet_buf` and all dbgprintf code: printing only.
- The UART itself: registers, baud rate and start-up (avr/frame_async.c:687 onwards); it is a source of bytes and error flags and a sink of bytes.
- Reordering of memory accesses by the compiler: each access is taken to happen where the code has it.
- The `#else` variant of the check in pc/crc.h:28-40: not compiled.
- frame/frame.c: wholly within `#if 0`.
- pc/fcb.c: unfinished, does not compile.
- avr/main.c: packet dispatch, byte swapping of fields, watchdog, start-up, and `enc_get`, which reads counters with the interrupt disabled.
- The arithmetic of the speed controller (`muc/pid`): an arbitrary consumer of the local count.
- Motor output, error reporting and the PC tools around `frame_send` and `frame_recv`: wrappers with nothing to prove beyond them.
