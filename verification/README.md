# Driver library proofs

A Dafny model of the device drivers and base routines of the Sonata software tree, and proofs of what they
promise. The model keeps the form of the code: registers and queues are fields of classes, loops are loops, and
hardware acts between any two register accesses.

* **USB device** (`UsbHardware`, `UsbRegisters`, `UsbTransfer`, `UsbDevice`, `UsbRequests`, `UsbRuns`, `UsbUtils`,
  `UsbProperties`, `UsbScenarios`). Thirty-two packet buffers move between software's bitmap, the two Available
  FIFOs, the receive FIFO and twelve IN endpoints. `Usb` holds the registers, the packet memory and the host's side
  of the story: an arbitrary script of what it will attempt, what it has delivered and collected. `Step` is one
  attempt. `Sound` says that every buffer is in exactly one place and every packet in flight is whole; `ControlLaw`
  says what the Default Control Pipe owes the host. Three ghost flags record what has been assumed so far. `clean`:
  every packet was presented on an endpoint with nothing outstanding; conservation of buffers rests on this alone,
  and needs exactly this (`PresentExactly`). `orderly`: moreover, while a reply of endpoint zero was outstanding no
  request was processed and, if that reply acknowledged a SET_ADDRESS or SET_CONFIGURATION, no packet of endpoint
  zero at all; and user code did not send on endpoint zero. The law of the control pipe rests on this; a status
  packet that overtakes the notice of a collected descriptor is allowed. `prompt`: moreover, no packet of endpoint
  zero was processed while any of its replies was outstanding. None of them can fail without a reason that the
  registers' own history shows (`Course`): a packet of endpoint zero that was popped while that endpoint held a
  reply, or a send of user code. In a program whose callbacks send nothing only such a packet can bring one down
  (`EntryPoint`). The host can send them (`StatusThenRequest`, `RequestOvertakes`, `ConfigurationForgotten`, all from
  reset), and what the code does with each packet is stated in every state (`Ep0Recv`).
* **CRC-32** (`Polynomials`, `Crc32`): the register against polynomial division over GF(2).
* **SPI host** (`SpiQueue`, `SpiHostHardware`, `SpiDriver`, `SpiTransaction`): the re-alignment queue, FIFO transfers
  and multi-segment transactions against the byte stream on the wire. Unused bytes of the last FIFO word are dropped
  by the hardware at the end of a segment.
* **Timers and arithmetic** (`Division`, `Gcd`, `TickParams`, `LiveCounters`, `RvTimer`, `I2cTiming`, `Napot`).
* **Memory and MMIO** (`Memory`, `MemoryFunctions`, `Mmio`): head, aligned body and tail against byte-wise meaning.

`Words` holds machine words as bounded naturals and the little-endian byte order. Wrap-around and truncation are
written out where the code relies on them or suffers from them.

Where the code differs from what its text says, the code is modelled:

* A comment in `service` says that retrieving collected packets first concludes the data stage of a control transfer
  before its status stage. The host may act between the two loops of `service`. If it collects a descriptor,
  acknowledges it and sends its next request there, the acknowledgement takes the pipe back to `Ctrl_Setup`, the request
  is answered over the packet not yet retrieved, and that packet's buffer is lost (`StatusThenRequest`). The next look
  for collected packets then takes the new reply for the old one: its buffer is handed to software while the packet is
  still presented (`BufferTwice`), and its request is completed before the host has collected it (`CompletedTooSoon`).
  If the host sends a request alone, the request is taken for the acknowledgement and gets no reply
  (`RequestOvertakes`); after a SET_CONFIGURATION the device then does not become configured
  (`ConfigurationForgotten`). After a SET_ADDRESS a host that follows section 9.4.6 of USB 2.0 uses the new address,
  which the device does not hear before it has acted on the notice (`NewAddressUnheard`). A buffer is lost exactly when
  a request is answered while a reply is outstanding (`Ep0Recv`).
* `ep0_recv` asserts that it can allocate a buffer. This fails exactly when the bitmap is empty (`Ep0Recv`), which
  until a buffer is lost takes a packet outstanding on every endpoint (`AllocationFails`). `NoBufferLeft` is a run from
  reset that comes to it. It cannot happen in the bring-up program while things are orderly (`EntryPoint`).
* `ep0_sent` asserts that `set_device_address` succeeds. It fails exactly for a SET_ADDRESS beyond seven bits
  (`Ep0Sent`), which a host can send (`AddressTooLarge`).
* Data lengths of a transaction are cast to `uint16_t`, and a command of length zero asks the hardware for 2^20
  bytes. A multiple of 65536, zero included, therefore moves no data and upsets the segments after it: transmitting
  one starves some command (`FedExactly`, `EmptyTransmit`), receiving one shifts every later answer (`ReadPosition`,
  `EmptyReceive`). Words left unread by a transaction stopped at an unknown segment shift those of the next one in
  the same way.
* A transaction whose last segment is a dummy of zero cycles never releases chip select (`ChipSelectReleased`).
* `round_up_divide` of a zero time wraps to 2^32 - 1 (`RoundUpDivideZero`).
* `to_napot` of a one-byte region does not decode back, but for two addresses, and then only if the caller's size
  variable already held one (`RoundTripExactly`).
* After a link reset the hardware clears the device address while `devState` and `devAddr` keep their values; the law
  about the address says so.
* `memchr` with len below `PTRDIFF_MAX` reads whole words, so up to three bytes past the first match, while its header
  refers to section 7.24.5.1 of ISO C11, which looks at bytes one after the other. `Memchr` says for which matches this
  happens, and `MemchrReadsOn` is an instance.
* Comments in `dif_rv_timer_arm` say that neither the first nor the second write can set off the alarm. The first never
  does; the second does exactly when the counter has reached 0xffff_ffff followed by the new lower half but not yet
  0xffff_ffff followed by the old one (`Arm`), for which `SecondWriteSetsOff` is an instance.

## Model

| member | source | states |
|---|---|---|
| UsbHardware.StepKeepsSound | hw/vendor/lowrisc_ip/ip/usbdev/rtl/usbdev.sv:502-543 | Whatever the host attempts next, accepted or not (SETUP and OUT deliveries, collections, withdrawals, link resets), every buffer stays in exactly one place and every packet in flight stays whole |
| UsbHardware.StepIsHostOnly | hw/vendor/lowrisc_ip/ip/usbdev/rtl/usbdev.sv:316-343 | The host takes no buffer from software, only drains the Available FIFOs, writes no buffer but one it takes from them, and never changes which endpoints are outstanding |
| UsbHardware.RoomForSetup | hw/vendor/lowrisc_ip/ip/usbdev/rtl/usbdev.sv:315-323 | An OUT delivery never takes the last entry of the receive FIFO, which is left to SETUP packets |
| UsbHardware.LinkResetMeans | hw/vendor/lowrisc_ip/ip/usbdev/rtl/usbdev.sv:502-543 | At any time a link reset may clear the address and withdraw every packet waiting for collection; it changes nothing else |
| UsbHardware.DeliverKeepsPool | hw/vendor/lowrisc_ip/ip/usbdev/rtl/usbdev.sv:255-343 | A delivered packet moves one buffer from an Available FIFO to the receive FIFO |
| UsbHardware.OwnedIsFree | scratch_sw/bare_metal/common/platform-usbdev.hh:240-246 | A buffer that software owns or that waits in an Available FIFO is in no receive entry and on no outstanding endpoint |
| UsbRegisters.SupplyKeepsSound | scratch_sw/bare_metal/common/platform-usbdev.hh:255-274 | A push to an Available FIFO that has room passes the buffer to the hardware; the buffers stay partitioned |
| UsbRegisters.ClearSentKeepsSound | scratch_sw/bare_metal/common/platform-usbdev.hh:461-471 | Clearing one inSent bit passes exactly that endpoint's buffer to software |
| UsbRegisters.PopKeepsSound | scratch_sw/bare_metal/common/platform-usbdev.hh:523-532 | Reading the receive FIFO passes to software the buffer that holds the oldest untaken packet |
| UsbRegisters.PresentExactly | scratch_sw/bare_metal/common/platform-usbdev.hh:489-503 | Presenting a packet keeps every buffer in one place if and only if the endpoint had nothing outstanding |
| UsbRegisters.PresentOverOutstanding | scratch_sw/bare_metal/common/platform-usbdev.hh:489-503 | Otherwise the buffer of the packet that was there is held nowhere any more |
| UsbDevice.OpenTitanUsbdev.SupplyOne | scratch_sw/bare_metal/common/platform-usbdev.hh:258-273 | One buffer goes to the SETUP FIFO if that was found with room in this round, else to the OUT FIFO if that was, else nowhere |
| UsbDevice.OpenTitanUsbdev.SupplyBuffers | scratch_sw/bare_metal/common/platform-usbdev.hh:240-276 | The buffers handed over are exactly those missing from the returned bitmap; no FIFO is ever overfilled; some are left over only when both FIFOs were found full during the call; while the host does nothing the lowest buffers fill the SETUP FIFO, the next ones the OUT FIFO, and exactly the rest are left |
| UsbDevice.DealtFull | scratch_sw/bare_metal/common/platform-usbdev.hh:255-274 | Once both FIFOs are full no further buffer changes them |
| UsbDevice.FirstBuffers | scratch_sw/bare_metal/common/platform-usbdev.hh:240-276 | Of the 32 buffers free at reset, 0 to 3 go to the SETUP FIFO, 4 to 11 to the OUT FIFO, and 12 to 31 stay |
| UsbDevice.OpenTitanUsbdev.RetrieveCollectedPacket | scratch_sw/bare_metal/common/platform-usbdev.hh:441-476 | Returns the lowest endpoint marked as collected and the buffer its register names, which becomes software's while the buffers are partitioned; fails only when nothing had been collected at the call |
| UsbDevice.OpenTitanUsbdev.PacketSend | scratch_sw/bare_metal/common/platform-usbdev.hh:478-503 | Afterwards exactly this packet is outstanding on the endpoint, whatever the host does between the two register writes; the buffers stay partitioned when the endpoint had been idle, and otherwise the buffer of the packet that was there is held nowhere any more |
| UsbDevice.OpenTitanUsbdev.PacketReceive | scratch_sw/bare_metal/common/platform-usbdev.hh:505-540 | Returns the packets in the order the host delivered them, with the bytes, endpoint and kind the host sent; fails only when none had been delivered at the call |
| UsbDevice.OpenTitanUsbdev.SetDeviceAddress | scratch_sw/bare_metal/common/platform-usbdev.hh:421-439 | Accepts exactly the seven-bit addresses and writes nothing otherwise |
| UsbDevice.ResetIsSound | scratch_sw/bare_metal/common/usbdev-utils.hh:145-148 | At reset software owns all 32 buffers and no endpoint is outstanding |
| UsbTransfer.TransferToDevice | scratch_sw/bare_metal/common/platform-usbdev.hh:569-629 | Towards the device, the unrolled copy writes exactly ceil(size / 4) words, the source bytes with zero padding, and no other word |
| UsbTransfer.TransferFromDevice | scratch_sw/bare_metal/common/platform-usbdev.hh:569-629 | From the device, exactly the first size bytes of the destination are replaced |
| UsbTransfer.SendThenReceive | scratch_sw/bare_metal/common/platform-usbdev.hh:558-568 | Sending a packet to a buffer and receiving it back is the identity |
| UsbUtils.UsbdevUtils.constructor | scratch_sw/bare_metal/common/usbdev-utils.hh:130-161 | Establishes the invariant of the class on a device out of reset |
| UsbUtils.UsbdevUtils.BufAlloc | scratch_sw/bare_metal/common/usbdev-utils.hh:182-193 | Takes the lowest available buffer out of the bitmap; fails exactly when none is available |
| UsbUtils.UsbdevUtils.BufRelease | scratch_sw/bare_metal/common/usbdev-utils.hh:195-200 | The released buffer is neither lost nor doubled; some stay in the bitmap only when both Available FIFOs were found full |
| UsbUtils.UsbdevUtils.SupplyBuffers | scratch_sw/bare_metal/common/usbdev-utils.hh:202-206 | The same without a release |
| UsbUtils.UsbdevUtils.SendData | scratch_sw/bare_metal/common/usbdev-utils.hh:239-249 | Fails exactly when no buffer is available, changing nothing; otherwise presents exactly this packet, and records whether the endpoint was idle |
| UsbUtils.UsbdevUtils.Ep0Recv | scratch_sw/bare_metal/common/usbdev-utils.hh:299-383 | In the setup state a known request is answered with the reply it calls for and nothing else is; in a status state nothing is answered and the pipe returns to the setup state; the assertion fails exactly when no buffer is available; buffers stay partitioned but for a request answered while a reply is outstanding, when one is lost |
| UsbUtils.UsbdevUtils.HandleRequest | scratch_sw/bare_metal/common/usbdev-utils.hh:310-373 | The buffer is used for a reply exactly when the packet is one of the answered requests, and that reply is the one of `ReplyMeans` |
| UsbUtils.UsbdevUtils.Ep0Sent | scratch_sw/bare_metal/common/usbdev-utils.hh:385-404 | Completes the outstanding request; the assertion fails if and only if a SET_ADDRESS beyond seven bits is awaited |
| UsbUtils.UsbdevUtils.RetrieveOne | scratch_sw/bare_metal/common/usbdev-utils.hh:257-268 | A reply collected before the call is found and completed, first of all; for any other endpoint its callback is called, and nothing but that |
| UsbUtils.UsbdevUtils.ReceiveOne | scratch_sw/bare_metal/common/usbdev-utils.hh:275-284 | The oldest packet is taken; one for endpoint zero is processed as `Ep0Recv` says, any other is handed to user code as the host sent it |
| UsbUtils.UsbdevUtils.Service | scratch_sw/bare_metal/common/usbdev-utils.hh:251-285 | Keeps the invariant; takes every packet delivered before the call; presents nothing but replies and what user code sends; an assumption fails only with a packet of endpoint zero taken early or a send of user code; while orderly, completes a reply collected before the call, and does so before it takes the first packet; with nothing to retrieve or receive and a host that does nothing it changes nothing but to supply buffers; as long as `clean` holds user code is handed exactly the packets taken for its endpoints, once each and in order; and while orderly an assertion of the code fails only for a SET_ADDRESS beyond seven bits or, after a packet of endpoint zero overtook a notice, with a packet outstanding on every endpoint |
| UsbUtils.AllocationFails | scratch_sw/bare_metal/common/usbdev-utils.hh:303-307 | No buffer is available for a reply only while all twelve endpoints hold one, so never with nothing outstanding on endpoint zero |
| UsbRequests.ReplyMeans | scratch_sw/bare_metal/common/usbdev-utils.hh:310-367 | Request codes 5, 6 (descriptor types 1 and 2), 9 and 0x7c are answered and no others; a descriptor is cut to the length in bytes six and seven of the request, or sent whole if shorter; 5 and 9 get an empty reply |
| UsbRequests.AwaitingMeans | scratch_sw/bare_metal/common/usbdev-utils.hh:310-367 | Which status state follows which request code |
| UsbRequests.LawReplies | scratch_sw/bare_metal/common/usbdev-utils.hh:308-374 | Presenting the reply of the next request keeps the law of the control pipe, with the reply now awaited |
| UsbRequests.LawCompletes | scratch_sw/bare_metal/common/usbdev-utils.hh:386-404 | Collecting the awaited reply completes its request: only now do the address and the device state change |
| UsbRequests.LawSkips | scratch_sw/bare_metal/common/usbdev-utils.hh:369-380 | A packet that is no request changes nothing |
| UsbProperties.RepliesAreFaithful | scratch_sw/bare_metal/common/usbdev-utils.hh:299-404 | Over any orderly run the replies the host has collected are those its requests call for, in order, all but perhaps the last; address and device state are determined by requests whose replies it has collected, the address being zero instead if the link was reset since it was last written |
| UsbProperties.StatusWhileOutstanding | scratch_sw/bare_metal/common/usbdev-utils.hh:299-404 | In a prompt run the control state is a status state if and only if a reply is outstanding |
| UsbProperties.AddressIsLast | scratch_sw/bare_metal/common/usbdev-utils.hh:341-349 | The address is that of the last completed SET_ADDRESS (section 9.4.6 of USB 2.0) |
| UsbProperties.NoAddressYet | scratch_sw/bare_metal/common/usbdev-utils.hh:130-145 | Before the first SET_ADDRESS is complete the address is zero |
| UsbProperties.ConfiguredExactly | scratch_sw/bare_metal/common/usbdev-utils.hh:395-398 | The device is configured if and only if a SET_CONFIGURATION is complete and no SET_ADDRESS after it (section 9.4.7 of USB 2.0) |
| UsbProperties.OnePlaceOnly | scratch_sw/bare_metal/common/usbdev-utils.hh:195-200 | Each of the 32 buffers is, counted over bitmap, FIFOs and endpoints, in exactly one place |
| UsbProperties.EntryPoint | scratch_sw/bare_metal/checks/usbdev_check.cc:71-139 | Every run from reset, against any host and for any number of rounds, keeps the invariant until an assertion fails; an assumption fails only if the host sent a packet of endpoint zero that was taken while a reply was outstanding; while orderly the only assertion that can fail is that of an address beyond seven bits; user code is handed exactly what the host sent to its endpoints, as far as it has been taken, once and in order; a round that ends with the device configured has disconnected, or else the sign-on message has been presented once, alone and on endpoint one, or no buffer is available |
| UsbScenarios.Init | scratch_sw/bare_metal/common/usbdev-utils.hh:130-161 | Out of reset with a host that does nothing, `init` leaves buffers 0 to 3 waiting for SETUP packets, 4 to 11 for OUT packets and 12 to 31 in the bitmap |
| UsbScenarios.QuietRounds | scratch_sw/bare_metal/common/usbdev-utils.hh:251-285 | From reset, with a host that does nothing, any number of rounds keeps every assumption and every buffer |
| UsbScenarios.StatusThenRequest | scratch_sw/bare_metal/common/usbdev-utils.hh:253-285 | From reset, for every pair of requests to address zero: if the host collects the first reply, acknowledges it and sends the second request between the two loops of service, the second request is answered while the first packet has not been retrieved, and a buffer is in no place any more |
| UsbScenarios.BufferTwice | scratch_sw/bare_metal/common/platform-usbdev.hh:461-471 | The next retrieval after that hands software the buffer of a packet that is still presented: it is in two places |
| UsbScenarios.CompletedTooSoon | scratch_sw/bare_metal/common/usbdev-utils.hh:385-404 | It completes the second request although the host has collected only the first reply, and the first request never takes effect |
| UsbScenarios.RequestOvertakes | scratch_sw/bare_metal/common/usbdev-utils.hh:374-379 | From reset, for every pair of requests to address zero: if the host collects the first reply and sends the second request between the two loops, the second is taken for a status packet and gets no reply, and no buffer is lost |
| UsbScenarios.ConfigurationForgotten | scratch_sw/bare_metal/common/usbdev-utils.hh:385-404 | If the first of these is a SET_CONFIGURATION, its completion is then not acted on: the device does not become configured |
| UsbScenarios.NewAddressUnheard | hw/vendor/lowrisc_ip/ip/usbdev/rtl/usb_fs_nb_out_pe.sv:134-138 | A token for another address changes nothing |
| UsbScenarios.AddressTooLarge | scratch_sw/bare_metal/common/usbdev-utils.hh:386-390 | From reset: the assertion about the address fails if and only if the address sent is beyond seven bits |
| UsbScenarios.NoBufferLeft | scratch_sw/bare_metal/common/usbdev-utils.hh:303-307 | A run from reset in which no buffer can be allocated for the reply to a packet of endpoint zero, with a packet outstanding on all twelve endpoints and no buffer lost |
| Crc32.FoldIsRemainder | sw/device/lib/base/crc32.c:54-64 | After every bit the reflected register is the remainder of init(x) x^n + M(x) x^32 divided by G over GF(2) |
| Crc32.CrcIsRemainder | sw/device/lib/base/crc32.c:66-103 | The same for every byte stream |
| Crc32.ChunksCompose | sw/device/lib/base/crc32.c:86-103 | Feeding a message in two chunks is feeding it at once, wherever it is split |
| Crc32.InternalAdd8 | sw/device/lib/base/crc32.c:54-64 | The bit loop is eight steps of the register, least significant bit first |
| Crc32.InternalAdd32 | sw/device/lib/base/crc32.c:67-73 | A word is its four bytes in memory order |
| Crc32.Context.Add | sw/device/lib/base/crc32.c:86-103 | Head, aligned body and tail give the byte-wise fold for a buffer at any address and of any length |
| Crc32.Crc32 | sw/device/lib/base/crc32.c:105-112 | The result is the complement of the remainder for the all-ones initial register |
| Crc32.IeeeDividend | sw/device/lib/base/crc32.c:76-76 | That dividend is the message with its first 32 bits complemented, times x^32, as in section 3.2.9 of IEEE 802.3-2018 |
| Crc32.GeneratorPowers | sw/device/lib/base/crc32.c:38-43 | G is the generator polynomial of that section |
| Crc32.PolyIsReflectedGenerator | sw/device/lib/base/crc32.c:38-43 | The constant in the code is G reflected, without its leading coefficient |
| Crc32.CrcIsUnique | sw/device/lib/base/crc32.c:107-112 | The check value is determined by the message |
| Polynomials.RemainderIsUnique | sw/device/lib/base/crc32.c:54-64 | Division by a monic polynomial of degree 32 has one remainder |
| SpiQueue.Queue.EnqueueWord | sw/device/lib/dif/dif_spi_host.c:206-216 | Appends the four bytes of the word whether or not the queue ends on a word boundary |
| SpiQueue.Queue.DequeueByte | sw/device/lib/dif/dif_spi_host.c:218-224 | Takes the first byte and keeps the rest in order |
| SpiQueue.Queue.DequeueWord | sw/device/lib/dif/dif_spi_host.c:226-231 | Takes the first four bytes and keeps the rest in order |
| SpiDriver.FifoWrite | sw/device/lib/dif/dif_spi_host.c:166-195 | Exactly the first len bytes of the source are pushed, for any alignment, never into a full FIFO, with the number of entries that whole words between the word boundaries make |
| SpiDriver.FifoRead | sw/device/lib/dif/dif_spi_host.c:233-284 | Exactly the first len bytes of the words due are stored, for any alignment; ceil(len / 4) words are popped, none from an empty FIFO; the queue never exceeds eight bytes |
| SpiHostHardware.CommandRoundTrip | sw/device/lib/dif/dif_spi_host.c:286-297 | The command register decodes to the length, width and direction given, with CSAAT set unless the segment is the last; the value of each field is given by number |
| SpiTransaction.WriteCommandReg | sw/device/lib/dif/dif_spi_host.c:286-297 | Issues that command; a receiving one makes exactly its own words due |
| SpiTransaction.IssueOpcode | sw/device/lib/dif/dif_spi_host.c:299-306 | Pushes the opcode and issues one command |
| SpiTransaction.IssueAddress | sw/device/lib/dif/dif_spi_host.c:308-326 | Pushes the three or four address bytes in one entry, most significant first, and issues one command of that length |
| SpiTransaction.IssueDummy | sw/device/lib/dif/dif_spi_host.c:328-338 | Issues one dummy command, or none for zero cycles |
| SpiTransaction.IssueDataPhase | sw/device/lib/dif/dif_spi_host.c:340-370 | Pushes what the cast leaves of the transmit buffer and makes the segment's answer due |
| SpiTransaction.CommandMeant | sw/device/lib/dif/dif_spi_host.c:286-370 | Each segment but an empty dummy asks for its own width, direction and length, a multiple of 65536 being counted as 2^20 |
| SpiTransaction.AddressOnWire | sw/device/lib/dif/dif_spi_host.c:308-326 | The bytes on the wire, read most significant first, denote the address; in three-byte mode the address modulo 2^24 |
| SpiTransaction.FeedsAppend | sw/device/lib/dif/dif_spi_host.c:372-407 | Commands and FIFO entries of consecutive segments compose: what follows a segment that is fed exactly is fed if and only if it is by itself, and the wire carries one after the other |
| SpiTransaction.Starves | sw/device/lib/dif/dif_spi_host.c:372-407 | Once an earlier command has taken any of the entries pushed for the segments from i on, some command among theirs does not get its bytes |
| SpiTransaction.FedExactly | sw/device/lib/dif/dif_spi_host.c:340-407 | Every command gets the bytes it asks for if and only if no segment transmits a multiple of 65536 bytes (zero after the cast, 2^20 for the hardware), and then the wire carries the segments' bytes in order |
| SpiTransaction.EmptyTransmit | sw/device/lib/dif/dif_spi_host.c:340-352 | An input on which it fails: a transmit segment of no bytes takes the opcode behind it |
| SpiTransaction.ReadPosition | sw/device/lib/dif/dif_spi_host.c:408-426 | A segment is read back from where its answer begins if and only if no word was unread at the call and no earlier segment receives a multiple of 65536 bytes |
| SpiTransaction.AnswerIsNext | sw/device/lib/dif/dif_spi_host.c:408-426 | Then what is read back is its own answer, whatever padding ended the segments before |
| SpiTransaction.EmptyReceive | sw/device/lib/dif/dif_spi_host.c:357-361 | An input on which it fails: after a receive segment of no bytes the next one gets the answer to the first |
| SpiTransaction.Transaction | sw/device/lib/dif/dif_spi_host.c:372-426 | For all lengths and whatever was unread: each segment's command and bytes are issued in order, the wire carries them in order if and only if no length transmitted is a multiple of 65536, every receiving segment's buffer gets exactly the next words of those unread and due and nothing else changes; an unknown segment type is reported exactly when there is one, after issuing only the segments before it and reading nothing |
| SpiTransaction.DistinctBuffers | sw/device/lib/dif/dif_spi_host.c:408-426 | With distinct buffers each holds precisely what was read back for its own segment |
| SpiTransaction.ChipSelectReleased | sw/device/lib/dif/dif_spi_host.c:328-338 | Chip select is released if and only if the last segment is not a dummy of zero cycles |
| TickParams.EuclideanGcd | sw/device/lib/dif/dif_rv_timer.c:44-52 | Terminates with the greatest common divisor |
| TickParams.ApproximateTickParams | sw/device/lib/dif/dif_rv_timer.c:54-80 | For a running clock succeeds if and only if some exact pair with a prescale below 4096 and a step below 256 exists, and returns the least one |
| TickParams.LowestTerms | sw/device/lib/dif/dif_rv_timer.c:54-80 | The quotients by the gcd are exact and no exact pair is smaller |
| Gcd.Bezout | sw/device/lib/dif/dif_rv_timer.c:44-52 | The gcd is an integer combination of its arguments |
| LiveCounters.RvTimerCounterRead | sw/device/lib/dif/dif_rv_timer.c:124-151 | The result is the value held at the last lower-half read; one retry suffices unless 2^32 counts pass |
| RvTimer.Timer.CounterWrite | sw/device/lib/dif/dif_rv_timer.c:153-180 | Leaves exactly the value given, with the control bit restored |
| RvTimer.Timer.Arm | sw/device/lib/dif/dif_rv_timer.c:182-210 | Every alarm raised while the comparator is rewritten is due by the old compare value or by the new threshold; one raised before the last write is due by the old compare value or within 2^32 of the maximum; the first write never sets off the alarm, and the second if and only if the counter is between the two compare values whose upper half is the maximum |
| RvTimer.SecondWriteSetsOff | sw/device/lib/dif/dif_rv_timer.c:200-206 | A still counter for which the second write sets off the alarm |
| LiveCounters.AonWakeupGetCount | sw/device/lib/dif/dif_aon_timer.c:148-177 | The result always lies between the first and the last value read, and is the value held at one of the lower-half reads if fewer than 2^32 counts elapse |
| LiveCounters.AonCountBetweenReads | sw/device/lib/dif/dif_aon_timer.c:159-170 | Without that bound the result may be the value at none of the reads |
| Division.Udiv64Slow | sw/device/lib/base/math.c:14-44 | quot * b + rem = a with rem below b for every b above zero, no bit lost to wrap-around; b = 0 gives 2^64 - 1 and a |
| Division.DivisionIsExact | sw/device/lib/base/math.c:14-44 | Such a quotient and remainder are the mathematical ones |
| MemoryFunctions.ComputeAlignment | sw/device/lib/base/memory.c:46-54 | The body is made of whole words that are aligned in both buffers |
| MemoryFunctions.Memcpy | sw/device/lib/base/memory.c:61-82 | Replaces exactly the first len bytes of the destination by the source's |
| MemoryFunctions.Memset | sw/device/lib/base/memory.c:84-102 | Replaces exactly the first len bytes by the value's low byte |
| MemoryFunctions.Memcmp | sw/device/lib/base/memory.c:110-147 | Negative, zero or positive exactly as the first byte string is lexicographically less than, equal to or greater than the second |
| MemoryFunctions.Memrcmp | sw/device/lib/base/memory.c:149-188 | Negative, zero or positive exactly as the first little-endian number, of any length, is less than, equal to or greater than the second |
| MemoryFunctions.SwappedWords | sw/device/lib/base/memory.c:110-147 | Comparing byte-swapped words is comparing their bytes in memory order |
| MemoryFunctions.HighBytesDecide | sw/device/lib/base/memory.c:149-188 | More significant bytes decide the numeric order |
| MemoryFunctions.LittleEndianInjective | sw/device/lib/base/memory.c:149-188 | Numbers are equal if and only if the byte strings are |
| MemoryFunctions.MatchingWord | sw/device/lib/base/memory.c:190-278 | The byte-match word marks precisely the bytes equal to the value |
| MemoryFunctions.Memchr | sw/device/lib/base/memory.c:190-235 | The first matching index, or none, and how many bytes are read; none past the match is read if and only if len is at least PTRDIFF_MAX, the match is outside the aligned body, or it is the last byte of its word |
| MemoryFunctions.MemchrReadsOn | sw/device/lib/base/memory.c:208-216 | An instance in which three bytes past the match are read |
| MemoryFunctions.Memrchr | sw/device/lib/base/memory.c:237-278 | The last matching index, or none |
| Mmio.Memcpy32 | sw/device/lib/base/mmio.c:43-117 | Exactly the bytes [offset, offset + len) are copied, by aligned word accesses only; copying out reads each word touched once, copying in reads exactly those overwritten in part |
| Mmio.MemcpyFromMmio32 | sw/device/lib/base/mmio.c:119-122 | Copies out and leaves the region unchanged |
| Mmio.MemcpyToMmio32 | sw/device/lib/base/mmio.c:124-130 | Copies in and changes no other byte |
| Mmio.RoundTrip | sw/device/lib/base/mmio.c:119-130 | Copying in and back out returns the same bytes |
| I2cTiming.RoundUpDivideExact | sw/device/lib/dif/dif_i2c.c:20-23 | For a positive time the count is long enough if and only if it fits 16 bits, and is then the least such count |
| I2cTiming.RoundUpDivideZero | sw/device/lib/dif/dif_i2c.c:20-23 | A zero time wraps and is rounded as if it were 2^32 nanoseconds |
| I2cTiming.ComputeTiming | sw/device/lib/dif/dif_i2c.c:186-249 | Never out of range; bad argument exactly for an unknown speed; for all inputs every count is its own time rounded up to whole periods and cut to 16 bits, the low time at least four, and the high time the least that is at least four, no shorter than its minimum and fills the SCL period aimed at; with no count cut off, zero rise and fall times included, every minimum of Table 10 and the SCL period are met |
| I2cTiming.PeriodExact | sw/device/lib/dif/dif_i2c.c:222-248 | An SCL cycle then lasts exactly the period aimed at, rounded up, unless four cycles or the minimum of the high time are longer |
| Napot.FromNapot | sw/device/lib/dif/dif_rv_core_ibex.c:101-110 | The search finds the size of every word with a clear bit among its low 31, and leaves the size alone otherwise |
| Napot.DecodeEncode | sw/device/lib/dif/dif_rv_core_ibex.c:90-110 | Decoding undoes encoding for every aligned region of 2^1 to 2^31 bytes |
| Napot.EncodeDecode | sw/device/lib/dif/dif_rv_core_ibex.c:90-110 | Encoding undoes decoding for every word with a clear bit among its low 31 |
| Napot.RoundTripExactly | sw/device/lib/dif/dif_rv_core_ibex.c:90-110 | An aligned region of 2^0 to 2^31 bytes decodes to what was encoded if and only if it has at least two bytes, or its address has the low 31 bits all set and the caller's size variable held one |

## Left out

- UsbUtils.UsbdevUtils.Service: says nothing about buffers once a packet has been presented on an endpoint that was not idle (`clean` is false), since by `PresentExactly` the partition is broken then, nor about replies once things are no longer orderly, for which `Ep0Recv` and `Ep0Sent` say what each packet does; nor that the Available FIFOs are full when it returns, which the host may already have drained
- UsbDevice.OpenTitanUsbdev.PacketSend: a transfer to packet memory is one step of the model; the host may act before and after it but not between its words, which lie in a buffer that only software uses
- I2cTiming.ComputeTiming: promises the minimum times only when no count is cut off at 16 bits, as the source's cast to `uint16_t` requires; `RoundUpDivideExact` says for each time alone exactly when that is enough
- The buffer bitmap is a set of buffer numbers and a register a record of its fields: the shifts and masks that pack them, except for the SPI command register, are not modelled
- Descriptors longer than one 64-byte packet: the source would write past the packet buffer, so the model asks that they fit
- Endpoint configuration, connecting and disconnecting, stalling, data toggles, isochronous endpoints, suspend and resume, and the electrical side of USB: none of them moves a buffer
- Whether loops that wait for hardware ever end: the host's script is finite, and SPI waits return once the hardware makes progress; that a transaction whose receive words fill the receive FIFO ahead of its further commands would wait for ever is not captured
- A `service` call made from inside a callback; every other endpoint is taken to have its two callbacks, which are modelled as arbitrary calls of `send_data`
- Null-pointer checks of the drivers, except where a null argument has a meaning of its own (`memcpy`)
- Transmit buffers of a transaction that are changed while it runs: they are read as they are when the segments are issued
- `usbdev_transfer` is two methods, one for each direction; packet memory is a sequence of words and main memory an array of bytes
- The compile-time variants of the CRC for the Zbr instructions, CSR access, CHERI capabilities and boot relocation
- Register get and set wrappers of the I2C, PLIC, GPIO, PWM, pattern generator, watchdog and core DIFs: one branch settles each
- The pin multiplexer, the status type, the random-number stand-in, the bring-up programs other than the USB one, the host-side simulator and the Python utilities
