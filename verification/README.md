# Verified models of the function generator's drivers

This Dafny project models the stateful code of the 20 MHz DDS function generator: the device drivers and
the hardware abstraction layer under `fpga/software/DDS_FunctionGen_20Mhz_bsp`, and three parts of the
application under `fpga/software/DDS_FunctionGen_20Mhz/src`. Each module stands for one component; the
modules are independent of each other but for `Errno` (the error numbers), `Arithmetic` (words, optional
values, products, quotients) and `Ring` (the index arithmetic of the UART's buffers).

| module | component | main results |
|---|---|---|
| `JtagUart`, `Ring` | the interrupt-driven JTAG UART | both byte streams are conserved and neither stalls, with interrupts, host activity and timeouts between any two steps of a reader or writer |
| `OnchipFlash` | the flash writer over NOR flash | a write erases exactly the pages that must change, touches nothing outside, and leaves the data in the flash exactly when no gap in the region table matters |
| `AvalonDma` | the DMA driver, memory to memory | the i-th send is paired with the i-th prepare, each callback is made once and in order, and a transfer is under way exactly when a pair waits, with completions between any two steps and callbacks that call back in |
| `Alarms` | the system tick, its alarms and their linked list | the 32-bit timer and its flag refine an unbounded deadline; every alarm runs on exactly its ticks |
| `Crc7` | the CRC of SD commands | the table-driven CRC is the unique remainder of polynomial division, for messages of any length, and it detects every burst of up to seven bits |
| `FdPool` | file descriptors and exclusive locks | over every run at most one descriptor per device holds a lock and a locked device cannot be opened, though the lock scan is one entry short |
| `Spi` | the full-duplex SPI transaction | exactly the right bytes are sent and stored, one at a time, in exactly two turns a byte |
| `TimeOfDay` | setting and reading the time | exactly when a reading is the time set plus the ticks since |
| `Printing` | integers in the logging printf and in `alt_printf` | what is printed reads back as the number |
| `WavPlayer` | the WAV parser and the refills of the wave RAM | exactly when the header's data offset is right; where every refill starts, whatever was selected and stopped before; exactly when a stop and a selection take effect |
| `LookupRam` | the six lookup tables and their interrupt | tables keep the waveform their tag names, exactly when the main loop can rewrite them with the interrupts that its mask lets through |

How the concurrent components are modelled: a thread routine is a method that calls an interference method
between any two of its steps. Interference lets the interrupt routine, the device and, for the UART, the
host act any number of times. The invariant of the class, together with a two-state predicate for what the
thread relies on, is proved to survive. For the waiting loops of the UART a call is followed for any number of
steps (`patience`), so that every statement also covers calls that have not come back.

Ghost fields record the history of a device: bytes accepted and delivered, requests, launches, callbacks,
runs of an alarm. The main statements are about these histories.

## Where the code does less than its documentation

- A lock is granted although the device is open elsewhere if and only if the only other descriptor on it is
  the one at the high-water mark (`GrantedThoughShared`, with an example in `SharedLockExample`).
- Closing a standard stream does not give up its lock (`CloseReleasesLock`, `StreamLockExample`).
- An alarm started for 2^32 - 1 ticks runs at the next tick unless the counter is about to wrap (`FirstRun`);
  a callback that stops the alarm after its own keeps the tick from ending (`TurnOnStopped`).
- A time that is set and read back at once is off if the 32-bit product at the set loses a part that 5^6 does
  not divide (`ReadBack`, `ReadLater`, with an example in `ReadBackExample`).
- A flash write succeeds over a gap in the region table without writing behind it (`SuccessfulWrite`, `GapExample`).
- A DMA send that is interrupted by callbacks which post to its own channel loses their requests, all of them
  answered with 0 (`InterruptedSendKeepsAll`, `OvertakenSend`). Turning off the stream of one DMA channel while the other one
  streams leaves the wrong launch function (`LaunchAgrees`). An empty request is accepted and, if the
  device does not start on a length of 0, stalls both channels (`EmptyPairStalls`). The number of requests that can
  be posted can be overstated when a callback posts to the channel while it is computed (`ReadSpace`, `StaleSpaceExample`).
- An SPI transaction with nothing to transfer never ends (`Command`).
- The offset that the WAV parser computes is wrong for the other combinations of format size and extension
  (`ReadHeader`, `LongFormatExample`). Of a file whose header gives its length as unknown, 2^32 - 1, only the first block
  is played, again and again (`OnlyFirstBlock`).
- A stop of the player silences only the half of the wave RAM that is refilled next, and not even that one if a
  refill comes between its two assignments: then the file stays open and the RAM keeps its samples (`Stop`,
  `MissedStop`). A file that is selected while another one is open is not played (`Select`).
- A playing table that is rewritten while another table is to play the file can keep wrong samples (`TornUpdate`). The
  interrupt for a modulation of the second channel goes by the frequency of the first one's (`MaskAsDocumented`,
  `MaskExample`).

## Model

| member | source | states |
|---|---|---|
| `Ring.RoomRunIsMaximal` | fpga/software/DDS_FunctionGen_20Mhz_bsp/drivers/src/altera_avalon_jtag_uart_write.c:109-114 | the writer's three-way case split is the largest contiguous run of free cells that keeps one cell unused, and it is 0 exactly for a full buffer |
| `Ring.DataRunIsMaximal` | fpga/software/DDS_FunctionGen_20Mhz_bsp/drivers/src/altera_avalon_jtag_uart_read.c:125-128 | the reader's case split is the largest contiguous run of queued bytes, and it is 0 exactly for an empty buffer |
| `Ring.MovedReaderMakesRoom` | fpga/software/DDS_FunctionGen_20Mhz_bsp/drivers/src/altera_avalon_jtag_uart_write.c:183-184 | a writer that found the buffer full finds room as soon as the read index has moved |
| `Ring.FullTest` | fpga/software/DDS_FunctionGen_20Mhz_bsp/drivers/src/altera_avalon_jtag_uart_init.c:137-139 | the interrupt routine's test finds the buffer full exactly when 2047 bytes are queued |
| `JtagUart.Uart.constructor` | fpga/software/DDS_FunctionGen_20Mhz_bsp/drivers/src/altera_avalon_jtag_uart_init.c:66-100 | both streams start empty apart from what the device holds, with receive interrupts on; without an alarm the timeout is INT_MAX |
| `JtagUart.Uart.HostSends` | fpga/software/DDS_FunctionGen_20Mhz_bsp/drivers/src/altera_avalon_jtag_uart_init.c:144-147 | a byte from the host enters the stream, last, if the device's FIFO has room and is lost if it has none |
| `JtagUart.Uart.HostTakes` | fpga/software/DDS_FunctionGen_20Mhz_bsp/drivers/src/altera_avalon_jtag_uart_init.c:176-176 | the host takes the oldest byte in the device, if there is one; the rest of the stream keeps its order |
| `JtagUart.Uart.ReceiveByte` | fpga/software/DDS_FunctionGen_20Mhz_bsp/drivers/src/altera_avalon_jtag_uart_init.c:137-150 | one read of the data register moves exactly the oldest byte of the FIFO to the end of the queue, and nothing when the FIFO is empty |
| `JtagUart.Uart.ReceiveLoop` | fpga/software/DDS_FunctionGen_20Mhz_bsp/drivers/src/altera_avalon_jtag_uart_init.c:132-154 | the receive loop ends, pops no byte it cannot store, takes all that there is or that there is room for, and reports data left over only when the buffer is full |
| `JtagUart.Uart.ReceiveInterrupt` | fpga/software/DDS_FunctionGen_20Mhz_bsp/drivers/src/altera_avalon_jtag_uart_init.c:125-167 | the receive half takes everything there is room for, and turns its interrupt off only when the buffer holds 2047 bytes, whatever the host does meanwhile |
| `JtagUart.Uart.SendByte` | fpga/software/DDS_FunctionGen_20Mhz_bsp/drivers/src/altera_avalon_jtag_uart_init.c:176-178 | the oldest queued byte moves to the device, which has room for it |
| `JtagUart.Uart.TransmitInterrupt` | fpga/software/DDS_FunctionGen_20Mhz_bsp/drivers/src/altera_avalon_jtag_uart_init.c:169-195 | the transmit half sends as many of the oldest queued bytes as there are and the device has room for, never overruns it, and turns its interrupt off exactly when room is left |
| `JtagUart.Uart.IsrPass` | fpga/software/DDS_FunctionGen_20Mhz_bsp/drivers/src/altera_avalon_jtag_uart_init.c:119-195 | a pass that found an interrupt has reduced the work left and moved bytes; one that found none proves that none is pending; the thread's indices and everything it owns are untouched |
| `JtagUart.Uart.Isr` | fpga/software/DDS_FunctionGen_20Mhz_bsp/drivers/src/altera_avalon_jtag_uart_init.c:117-197 | with finitely many host events to come the routine ends, and only when no interrupt is pending; one that was pending is served: bytes go out, or come in, if there are any and there is room; in both directions the bytes accepted are those delivered, then those queued, then those in the device, and all histories only grow |
| `JtagUart.Uart.Timeout` | fpga/software/DDS_FunctionGen_20Mhz_bsp/drivers/src/altera_avalon_jtag_uart_init.c:204-225 | host activity resets the count and writes back the enable bits; otherwise the count grows and stops short of INT_MAX |
| `JtagUart.Uart.Interfere` | fpga/software/DDS_FunctionGen_20Mhz_bsp/drivers/src/altera_avalon_jtag_uart_init.c:105-225 | any number of host events, interrupts and timeouts between two steps of the thread keep both streams, both no-stall properties and what the thread relies on; all histories only grow |
| `JtagUart.Uart.RoomSeen` | fpga/software/DDS_FunctionGen_20Mhz_bsp/drivers/src/altera_avalon_jtag_uart_write.c:106-114 | with interrupts between the two index reads, the room computed is never more than there is; it is 0 only if the buffer was seen full, and not if there was room before |
| `JtagUart.Uart.CopyIn` | fpga/software/DDS_FunctionGen_20Mhz_bsp/drivers/src/altera_avalon_jtag_uart_write.c:122-122 | a copy into the ring, with interrupts between its bytes, overwrites no unsent byte and is intact when it is published |
| `JtagUart.Uart.PublishSent` | fpga/software/DDS_FunctionGen_20Mhz_bsp/drivers/src/altera_avalon_jtag_uart_write.c:126-126 | moving the write index appends exactly the copied bytes to the accepted stream |
| `JtagUart.Uart.Fill` | fpga/software/DDS_FunctionGen_20Mhz_bsp/drivers/src/altera_avalon_jtag_uart_write.c:103-127 | the inner loop accepts exactly a prefix of the data, at least as much as there was room for; it stops short only when the ring was seen full |
| `JtagUart.Uart.EnableTransmit` | fpga/software/DDS_FunctionGen_20Mhz_bsp/drivers/src/altera_avalon_jtag_uart_write.c:136-139 | after the critical section transmit interrupts are on and nothing is owed |
| `JtagUart.Uart.AwaitRoom` | fpga/software/DDS_FunctionGen_20Mhz_bsp/drivers/src/altera_avalon_jtag_uart_write.c:183-188 | the wait ends with a retry, which finds the host active and room in the buffer, unless the host was counted as inactive for the whole timeout and has then shown itself before the check; or gives up, only if the host is counted as inactive; or is not over within the followed run |
| `JtagUart.Uart.WriteTurn` | fpga/software/DDS_FunctionGen_20Mhz_bsp/drivers/src/altera_avalon_jtag_uart_write.c:100-191 | a turn of the outer loop accepts a prefix, a non-empty one if there was room, as there is after a retry but for the case that AwaitRoom names; it leaves transmit interrupts on, and finishes exactly if all was accepted or the call must not block |
| `JtagUart.Uart.Write` | fpga/software/DDS_FunctionGen_20Mhz_bsp/drivers/src/altera_avalon_jtag_uart_write.c:84-215 | under every interleaving exactly a prefix of the caller's data enters the stream, at least as much as there was room for; a call that must not block, or whose data fits, returns; the return value is the prefix's length or the reason why it is empty; a blocking call comes back short only if the host is counted as inactive when it does; queued data is left with transmit interrupts on |
| `JtagUart.Uart.CopyOut` | fpga/software/DDS_FunctionGen_20Mhz_bsp/drivers/src/altera_avalon_jtag_uart_read.c:136-136 | a copy out of the ring, with interrupts between its bytes, yields the oldest queued bytes: the interrupt routine never writes the segment being copied |
| `JtagUart.Uart.PublishTaken` | fpga/software/DDS_FunctionGen_20Mhz_bsp/drivers/src/altera_avalon_jtag_uart_read.c:140-140 | moving the read index hands exactly the oldest bytes over |
| `JtagUart.Uart.Take` | fpga/software/DDS_FunctionGen_20Mhz_bsp/drivers/src/altera_avalon_jtag_uart_read.c:120-142 | the inner loop hands over the next bytes of the stream, at least as many as were queued and there is space for |
| `JtagUart.Uart.EnableReceive` | fpga/software/DDS_FunctionGen_20Mhz_bsp/drivers/src/altera_avalon_jtag_uart_read.c:191-194 | after the critical section receive interrupts are on and nothing is owed |
| `JtagUart.Uart.AwaitData` | fpga/software/DDS_FunctionGen_20Mhz_bsp/drivers/src/altera_avalon_jtag_uart_read.c:173-178 | the wait ends with data queued, or gives up, which it does only if the host was found inactive for the whole timeout meanwhile, or is not over within the followed run |
| `JtagUart.Uart.TakeOrWait` | fpga/software/DDS_FunctionGen_20Mhz_bsp/drivers/src/altera_avalon_jtag_uart_read.c:115-179 | the outer loop hands over the next bytes of the stream, at once if any are queued; blocking, it ends with none only after a timeout |
| `JtagUart.Uart.Read` | fpga/software/DDS_FunctionGen_20Mhz_bsp/drivers/src/altera_avalon_jtag_uart_read.c:100-203 | under every interleaving the caller gets the next bytes of the stream, at least those queued as far as there is space; a call that must not block, or that finds bytes, returns; the return value is their number or the reason why there are none; a blocking call comes back empty only if the host was found inactive for the whole timeout during the call; receive interrupts are back on if room was made |
| `JtagUart.Uart.Close` | fpga/software/DDS_FunctionGen_20Mhz_bsp/drivers/src/altera_avalon_jtag_uart_init.c:241-254 | close succeeds only once the device has everything or the host is gone; it is refused only while bytes are queued and the host is active, and returns at once if neither or if it must not block |
| `OnchipFlash.PaddingIsNeutral` | fpga/software/DDS_FunctionGen_20Mhz_bsp/drivers/src/altera_onchip_flash.c:243-267 | programming a word padded with 0xFF is programming the unpadded bytes |
| `OnchipFlash.ProgrammedInTwo` | fpga/software/DDS_FunctionGen_20Mhz_bsp/drivers/src/altera_onchip_flash.c:240-288 | programming two adjacent pieces is programming their concatenation |
| `OnchipFlash.ProgrammedOverErased` | fpga/software/DDS_FunctionGen_20Mhz_bsp/drivers/src/altera_onchip_flash.c:350-363 | programming an erased range yields the data and nothing else changes |
| `OnchipFlash.AlignedModulo` | fpga/software/DDS_FunctionGen_20Mhz_bsp/drivers/src/altera_onchip_flash.c:152-156 | the driver's mask test for a page boundary holds exactly at the start of a page |
| `OnchipFlash.OnePageMore` | fpga/software/DDS_FunctionGen_20Mhz_bsp/drivers/src/altera_onchip_flash.c:340-374 | rewriting one more block, or skipping it because it matches, extends the written range by that block |
| `OnchipFlash.CoverEndIsFirstGap` | fpga/software/DDS_FunctionGen_20Mhz_bsp/drivers/src/altera_onchip_flash.c:329-378 | the walk over an ascending table stops at the first address that no region covers |
| `OnchipFlash.SuccessfulWrite` | fpga/software/DDS_FunctionGen_20Mhz_bsp/drivers/src/altera_onchip_flash.c:305-383 | after success the data is in the flash if every address of the range is covered, and in general if and only if the bytes from the first gap on were there before |
| `OnchipFlash.GapExample` | fpga/software/DDS_FunctionGen_20Mhz_bsp/drivers/src/altera_onchip_flash.c:329-378 | it happens: with the middle of three sectors unavailable a write over all three succeeds with the data in the first page only |
| `OnchipFlash.RegionIsSector` | fpga/software/DDS_FunctionGen_20Mhz_bsp/drivers/src/altera_onchip_flash.c:419-422 | the region made of a sector holds exactly its addresses |
| `OnchipFlash.TableCovers` | fpga/software/DDS_FunctionGen_20Mhz_bsp/drivers/src/altera_onchip_flash.c:405-468 | the table covers exactly the addresses of the sectors that are enabled and, where that can be asked for, available |
| `OnchipFlash.TableIsGood` | fpga/software/DDS_FunctionGen_20Mhz_bsp/drivers/src/altera_onchip_flash.c:417-468 | sectors that are page-aligned, disjoint and in order give an ascending table of page-aligned regions |
| `OnchipFlash.Flash.constructor` | fpga/software/DDS_FunctionGen_20Mhz_bsp/drivers/src/altera_onchip_flash.c:391-407 | a device holds its contents and has no region yet |
| `OnchipFlash.Flash.DeviceErase` | fpga/software/DDS_FunctionGen_20Mhz_bsp/drivers/src/altera_onchip_flash.c:165-178 | an erase affects one page; when it passes the page reads 0xFF |
| `OnchipFlash.Flash.DeviceProgram` | fpga/software/DDS_FunctionGen_20Mhz_bsp/drivers/src/altera_onchip_flash.c:270-280 | programming affects one word; when it passes every byte is the AND of old and new |
| `OnchipFlash.Flash.EraseBlock` | fpga/software/DDS_FunctionGen_20Mhz_bsp/drivers/src/altera_onchip_flash.c:131-184 | success erases exactly the page of an aligned offset; a bad offset, a missing controller and a read-only device are refused without a change; -ETIMEDOUT comes only of a poll that timed out |
| `OnchipFlash.Flash.WriteWord` | fpga/software/DDS_FunctionGen_20Mhz_bsp/drivers/src/altera_onchip_flash.c:243-284 | each turn writes an aligned word, consumes at least one byte, and leaves the padding bytes as they are |
| `OnchipFlash.Flash.WriteWords` | fpga/software/DDS_FunctionGen_20Mhz_bsp/drivers/src/altera_onchip_flash.c:240-288 | the loop programs exactly the given bytes; it fails only when a poll timed out, and then nothing outside them is touched |
| `OnchipFlash.Flash.WriteBlock` | fpga/software/DDS_FunctionGen_20Mhz_bsp/drivers/src/altera_onchip_flash.c:198-294 | success changes exactly the range given, for any start alignment and length, to old AND data; each refusal has its own condition |
| `OnchipFlash.Flash.Init` | fpga/software/DDS_FunctionGen_20Mhz_bsp/drivers/src/altera_onchip_flash.c:391-474 | the table holds, in order, the enabled sectors that are available or whose availability cannot be asked for |
| `OnchipFlash.Flash.WriteOneBlock` | fpga/software/DDS_FunctionGen_20Mhz_bsp/drivers/src/altera_onchip_flash.c:348-363 | a block that already matches succeeds and is not erased; otherwise its part of the range has the data and the rest of it reads 0xFF, or the device cannot write or a poll timed out |
| `OnchipFlash.Flash.BlockStep` | fpga/software/DDS_FunctionGen_20Mhz_bsp/drivers/src/altera_onchip_flash.c:340-374 | the body of the inner loop extends the written prefix to the end of its block, or ends with all of the data written or an error |
| `OnchipFlash.Flash.WriteRegion` | fpga/software/DDS_FunctionGen_20Mhz_bsp/drivers/src/altera_onchip_flash.c:336-376 | the inner loop takes the write to the end of its region or to the end of the data |
| `OnchipFlash.Flash.WriteRange` | fpga/software/DDS_FunctionGen_20Mhz_bsp/drivers/src/altera_onchip_flash.c:329-383 | the outer loop writes up to the first gap in the table and erases exactly the pages that had to change |
| `OnchipFlash.Flash.Write` | fpga/software/DDS_FunctionGen_20Mhz_bsp/drivers/src/altera_onchip_flash.c:305-383 | success writes the data up to the first gap, erases exactly the pages that had to change, and leaves other bytes of those pages at 0xFF; pages outside the range never change; a bad range, and no other, is answered with -EFAULT; any other refusal means that a covered byte had to change, and that the device cannot write or a poll timed out |
| `AvalonDma.FullTest` | fpga/software/DDS_FunctionGen_20Mhz_bsp/drivers/src/altera_avalon_dma.c:414-422 | a queue refuses exactly when three requests wait, and its indices meet exactly when none does |
| `AvalonDma.Fill` | fpga/software/DDS_FunctionGen_20Mhz_bsp/drivers/src/altera_avalon_dma.c:416-429 | filling the free slot changes neither the queue nor the slot that was popped last |
| `AvalonDma.CallbacksAreTheRequests` | fpga/software/DDS_FunctionGen_20Mhz_bsp/drivers/src/altera_avalon_dma.c:500-512 | for any number of completed pairs: exactly the requests that asked for it are called back, each once, in the order in which its channel accepted them, with their handles and, for a prepare, its data |
| `AvalonDma.SendFirst` | fpga/software/DDS_FunctionGen_20Mhz_bsp/drivers/src/altera_avalon_dma.c:500-512 | of a pair the send is called back first, and the next pair after both |
| `AvalonDma.PostAllHolds` | fpga/software/DDS_FunctionGen_20Mhz_bsp/drivers/src/altera_avalon_dma.c:414-431 | requests that callbacks post one after the other are queued behind the others in order |
| `AvalonDma.InterruptedSendKeepsAll` | fpga/software/DDS_FunctionGen_20Mhz_bsp/drivers/src/altera_avalon_dma.c:414-431 | if callbacks post to the channel whose send they interrupted, after it has read the end and whatever room there is, the queue holds every accepted request if and only if they posted none |
| `AvalonDma.StaleStart` | fpga/software/DDS_FunctionGen_20Mhz_bsp/drivers/src/altera_avalon_dma.c:414-422 | a start that was read before some pairs were completed makes the test find the queue full exactly if the completed and the waiting requests are three modulo four; it never misses a full queue while they are at most three, as they are unless a callback posts to the channel in between |
| `AvalonDma.StaleSpace` | fpga/software/DDS_FunctionGen_20Mhz_bsp/drivers/src/altera_avalon_dma.c:364-368 | what space computes from a start read before some completions is right exactly if they are a multiple of four, and not too much exactly if they, modulo four, and the waiting requests are at most three |
| `AvalonDma.StaleSpaceExample` | fpga/software/DDS_FunctionGen_20Mhz_bsp/drivers/src/altera_avalon_dma.c:364-368 | it can be too much: 3 for a full queue, when one request is completed in between and its callback posts three |
| `AvalonDma.Dma.OvertakenSend` | fpga/software/DDS_FunctionGen_20Mhz_bsp/drivers/src/altera_avalon_dma.c:414-431 | the driver reaches that state through a completion: requests that one of its callbacks posts are all accepted, and after the send has gone on with the end it read the queue holds them all only if there were none |
| `AvalonDma.StreamsExclude` | fpga/software/DDS_FunctionGen_20Mhz_bsp/drivers/src/altera_avalon_dma.c:151-190 | over any run of ioctls the two streaming modes are never both on |
| `AvalonDma.ControlMatches` | fpga/software/DDS_FunctionGen_20Mhz_bsp/drivers/src/altera_avalon_dma.c:202-262 | the control word keeps an address fixed exactly if its channel streams, and accesses are as wide as requests must be aligned |
| `AvalonDma.LaunchAgrees` | fpga/software/DDS_FunctionGen_20Mhz_bsp/drivers/src/altera_avalon_dma.c:149-190 | an ioctl keeps the launch function in agreement with the streams if and only if it does not turn off the stream of a channel while the other one streams |
| `AvalonDma.LaunchAgreesInRun` | fpga/software/DDS_FunctionGen_20Mhz_bsp/drivers/src/altera_avalon_dma.c:149-190 | the launch function agrees throughout a run without such a request |
| `AvalonDma.Control.Request` | fpga/software/DDS_FunctionGen_20Mhz_bsp/drivers/src/altera_avalon_dma.c:124-262 | the ioctl is refused with -EIO exactly while anything is queued or moving or the other channel streams, with -ENOTTY exactly if unknown, and otherwise turns on or off exactly the stream asked for or sets the width, with launch function and control register to match and the fixed address of a channel that begins to stream |
| `AvalonDma.Dma.constructor` | fpga/software/DDS_FunctionGen_20Mhz_bsp/drivers/src/altera_avalon_dma.c:520-556 | a new driver has nothing queued, launched or called back, and is in the state its calls need |
| `AvalonDma.Dma.Space` | fpga/software/DDS_FunctionGen_20Mhz_bsp/drivers/src/altera_avalon_dma.c:355-369 | space is three minus the number of requests queued, if no completion comes between its reads |
| `AvalonDma.Dma.AcceptableIs` | fpga/software/DDS_FunctionGen_20Mhz_bsp/drivers/src/altera_avalon_dma.c:407-412 | what is not refused with -EINVAL: address and length are multiples of the access width, and the length is within the device's limit |
| `AvalonDma.Dma.ReadSpace` | fpga/software/DDS_FunctionGen_20Mhz_bsp/drivers/src/altera_avalon_dma.c:364-368 | with completions between its reads, space is the room at the first read unless a callback posted to the channel; it is never more than the room there is if and only if the completed requests, modulo four, and the waiting ones are at most three |
| `AvalonDma.Dma.Launch` | fpga/software/DDS_FunctionGen_20Mhz_bsp/drivers/src/altera_avalon_dma.c:44-66 | a transfer is started if and only if both queues have a request; the device reads from the oldest send's address and writes to the oldest prepare's, at the shorter of the two lengths; `active` says whether |
| `AvalonDma.Dma.Paired` | fpga/software/DDS_FunctionGen_20Mhz_bsp/drivers/src/altera_avalon_dma.c:44-66 | every transfer so far has read from the i-th send's address and written to the i-th prepare's, as many bytes as both have |
| `AvalonDma.Dma.EmptyPairStalls` | fpga/software/DDS_FunctionGen_20Mhz_bsp/drivers/src/altera_avalon_dma.c:51-65 | if the device does not start on a length of 0, the driver waits for a completion that does not come if and only if a request of the oldest pair is empty; `Send`, `Prepare` and `Interfere` promise that a stalled pair then stays where it is |
| `AvalonDma.Dma.CallBack` | fpga/software/DDS_FunctionGen_20Mhz_bsp/drivers/src/altera_avalon_dma.c:500-512 | a callback may post to either channel, any number of times, except to one where it interrupted the thread between the first read of an index and the move of the end; the slots just popped stay as they were |
| `AvalonDma.Dma.PopAndLaunch` | fpga/software/DDS_FunctionGen_20Mhz_bsp/drivers/src/altera_avalon_dma.c:464-490 | the interrupt retires exactly the oldest pair and starts the next; the slots it remembers still hold that pair |
| `AvalonDma.Dma.MakeCallbacks` | fpga/software/DDS_FunctionGen_20Mhz_bsp/drivers/src/altera_avalon_dma.c:500-512 | the callbacks are made with the handle and data of the completed requests even if they refill both queues |
| `AvalonDma.Dma.Isr` | fpga/software/DDS_FunctionGen_20Mhz_bsp/drivers/src/altera_avalon_dma.c:448-513 | each completion retires one pair, calls back exactly its requests, and leaves a transfer under way if and only if a pair waits |
| `AvalonDma.Dma.Interfere` | fpga/software/DDS_FunctionGen_20Mhz_bsp/drivers/src/altera_avalon_dma.c:448-513 | any number of completions between two steps of a thread keep pairing, callbacks and the channel the thread is in |
| `AvalonDma.Dma.FindTxFull` | fpga/software/DDS_FunctionGen_20Mhz_bsp/drivers/src/altera_avalon_dma.c:414-422 | with completions between the two index reads, a queue found full had three requests when the first was read, and one not found full has room |
| `AvalonDma.Dma.FillTx` | fpga/software/DDS_FunctionGen_20Mhz_bsp/drivers/src/altera_avalon_dma.c:426-429 | the descriptor is complete when it is published, though completions run between the writes of its fields |
| `AvalonDma.Dma.PublishSend` | fpga/software/DDS_FunctionGen_20Mhz_bsp/drivers/src/altera_avalon_dma.c:431-431 | moving the end index adds exactly the filled descriptor to the queue |
| `AvalonDma.Dma.StartIfIdle` | fpga/software/DDS_FunctionGen_20Mhz_bsp/drivers/src/altera_avalon_dma.c:433-436 | after the last step of a send or prepare a pair is with the device if and only if one waits: no launch is lost or doubled |
| `AvalonDma.Dma.Send` | fpga/software/DDS_FunctionGen_20Mhz_bsp/drivers/src/altera_avalon_dma.c:385-439 | with completions between any two steps, a thread's request is entered exactly once, behind all that were there when it was made; it is refused with -EINVAL exactly if misaligned or too long, and with -ENOSPC only if three were waiting at some time during the call; with interrupts off it is entered last, and succeeds exactly if valid and space is positive |
| `AvalonDma.Dma.FindRxFull` | fpga/software/DDS_FunctionGen_20Mhz_bsp/drivers/src/altera_avalon_dma.c:322-331 | the receive queue's test is right in the same way |
| `AvalonDma.Dma.FillRx` | fpga/software/DDS_FunctionGen_20Mhz_bsp/drivers/src/altera_avalon_dma.c:333-336 | the receive descriptor is complete when it is published |
| `AvalonDma.Dma.PublishPrepare` | fpga/software/DDS_FunctionGen_20Mhz_bsp/drivers/src/altera_avalon_dma.c:338-338 | moving the end index adds exactly the filled descriptor to the receive queue |
| `AvalonDma.Dma.Prepare` | fpga/software/DDS_FunctionGen_20Mhz_bsp/drivers/src/altera_avalon_dma.c:294-346 | with completions between any two steps, a prepare enters its request exactly once, or is refused, as a send does |
| `Alarms.StartedTracks` | fpga/software/DDS_FunctionGen_20Mhz_bsp/HAL/src/alt_alarm_start.c:80-96 | time and roll-over flag as set stand for the unbounded deadline T + k + 1 if and only if k is not 2^32 - 1 or the counter is about to wrap |
| `Alarms.TickTracks` | fpga/software/DDS_FunctionGen_20Mhz_bsp/HAL/src/alt_tick.c:109-115 | a tick finds the timer expired if and only if it is the deadline, and until then the timer goes on standing for it, across every wrap |
| `Alarms.RearmedTracks` | fpga/software/DDS_FunctionGen_20Mhz_bsp/HAL/src/alt_tick.c:127-137 | a callback made on time re-arms the timer for exactly p ticks later, for every non-zero 32-bit p |
| `Alarms.TrackedExpires` | fpga/software/DDS_FunctionGen_20Mhz_bsp/HAL/src/alt_tick.c:96-115 | the first tick that finds a standing timer expired is its deadline |
| `Alarms.LargestIntervalExpires` | fpga/software/DDS_FunctionGen_20Mhz_bsp/HAL/src/alt_alarm_start.c:82-96 | with k = 2^32 - 1 the alarm is already expired at the next tick, unless the counter wraps there |
| `Alarms.FirstRun` | fpga/software/DDS_FunctionGen_20Mhz_bsp/HAL/src/alt_alarm_start.c:64-112 | an alarm started at tick T for k ticks first runs at T + k + 1 if and only if k is not 2^32 - 1 or the counter is about to wrap |
| `Alarms.Insert` | fpga/software/DDS_FunctionGen_20Mhz_bsp/HAL/inc/sys/alt_llist.h:90-98 | insertion makes the entry the first element of the list, linked both ways |
| `Alarms.Remove` | fpga/software/DDS_FunctionGen_20Mhz_bsp/HAL/inc/sys/alt_llist.h:105-117 | removal takes exactly the entry out and links it to itself; removing it again changes nothing |
| `Alarms.Clock.constructor` | fpga/software/DDS_FunctionGen_20Mhz_bsp/HAL/src/alt_tick.c:44-57 | the list is empty and the count is 0 |
| `Alarms.Clock.Start` | fpga/software/DDS_FunctionGen_20Mhz_bsp/HAL/src/alt_alarm_start.c:64-112 | an alarm that is given, with a running clock, becomes first on the list and is to run at T + k + 1; otherwise -EINVAL or -ENOTSUP and no change |
| `Alarms.Clock.Stop` | fpga/software/DDS_FunctionGen_20Mhz_bsp/HAL/src/alt_tick.c:66-73 | the alarm is off the list, the others keep their order |
| `Alarms.Clock.StartInside` | fpga/software/DDS_FunctionGen_20Mhz_bsp/HAL/src/alt_tick.c:117-117 | an alarm started by a callback, a new one or one off the list, is not looked at by the same tick |
| `Alarms.Clock.StopInside` | fpga/software/DDS_FunctionGen_20Mhz_bsp/HAL/src/alt_tick.c:117-117 | an alarm other than the next one can be stopped by a callback without disturbing the walk |
| `Alarms.Clock.CallbackStep` | fpga/software/DDS_FunctionGen_20Mhz_bsp/HAL/src/alt_tick.c:117-117 | a callback may start any alarm that is off the list and stop any that is on it but the next, found by following the links |
| `Alarms.Clock.Callback` | fpga/software/DDS_FunctionGen_20Mhz_bsp/HAL/src/alt_tick.c:117-117 | a callback is recorded as having run now, with its answer; any number of starts and stops in it leave the walk where it was and never lengthen it |
| `Alarms.Clock.Look` | fpga/software/DDS_FunctionGen_20Mhz_bsp/HAL/src/alt_tick.c:109-115 | the flag is cleared when the counter wraps and then decides; an alarm on time that the tick finds expired is due at this very tick |
| `Alarms.Clock.Rearm` | fpga/software/DDS_FunctionGen_20Mhz_bsp/HAL/src/alt_tick.c:125-138 | the alarm stands for the deadline that its callback asked for |
| `Alarms.Clock.Visit` | fpga/software/DDS_FunctionGen_20Mhz_bsp/HAL/src/alt_tick.c:100-140 | one turn of the loop gives one alarm its tick, reaches the alarm that was next, drops only alarms that have ended, and leaves every alarm's start and recorded past as they were |
| `Alarms.Clock.TurnOnStopped` | fpga/software/DDS_FunctionGen_20Mhz_bsp/HAL/src/alt_tick.c:100-140 | if a callback stopped the next alarm the loop comes back to that alarm after every turn, whatever its callback answers: the tick does not end |
| `Alarms.Clock.Tick` | fpga/software/DDS_FunctionGen_20Mhz_bsp/HAL/src/alt_tick.c:87-148 | after every tick each alarm it found has run on exactly the ticks it was to run on, which are the partial sums of its answers from its start; its start is as it was and its past has only grown; the tick ends, and of the alarms it found exactly those that were not ended are still listed |
| `Crc7.ReduceIsRemainder` | fpga/software/DDS_FunctionGen_20Mhz/src/sd_card/SD.c:435-435 | an entry starts as its byte less a multiple of G(x), below 128 |
| `Crc7.StepIsRemainder` | fpga/software/DDS_FunctionGen_20Mhz/src/sd_card/SD.c:436-440 | one turn of the inner loop multiplies by x modulo G(x) and stays below 128 |
| `Crc7.StepsIsRemainder` | fpga/software/DDS_FunctionGen_20Mhz/src/sd_card/SD.c:434-441 | a table entry is its byte times x^7 modulo G(x), below 128 |
| `Crc7.IndexInTable` | fpga/software/DDS_FunctionGen_20Mhz/src/sd_card/SD.c:445-447 | the index computed from a CRC and a byte is below 256 |
| `Crc7.CrcIsRemainder` | fpga/software/DDS_FunctionGen_20Mhz/src/sd_card/SD.c:445-460 | for a message of any length every intermediate CRC is below 128 and the CRC is a remainder of M(x) x^7 by G(x) |
| `Crc7.RemainderUnique` | fpga/software/DDS_FunctionGen_20Mhz/src/sd_card/SD.c:431-431 | a polynomial has one remainder |
| `Crc7.CrcIsTheRemainder` | fpga/software/DDS_FunctionGen_20Mhz/src/sd_card/SD.c:445-460 | a polynomial is the remainder of M(x) x^7 by G(x) if and only if it is the CRC |
| `Crc7.MessageIsBits` | fpga/software/DDS_FunctionGen_20Mhz/src/sd_card/SD.c:264-267 | the polynomial of a message has exactly the exponents of its set bits, counted from its last |
| `Crc7.BurstIsNoMultiple` | fpga/software/DDS_FunctionGen_20Mhz/src/sd_card/SD.c:431-431 | G(x) divides no non-zero polynomial whose exponents lie within seven of each other |
| `Crc7.CrcDetects` | fpga/software/DDS_FunctionGen_20Mhz/src/sd_card/SD.c:445-460 | two messages of one length, of any length, that differ only within a window of seven bits have different CRCs |
| `Crc7.FrameIsMultiple` | fpga/software/DDS_FunctionGen_20Mhz/src/sd_card/SD.c:258-274 | the 47 bits of a frame before the stop bit are a multiple of G(x) |
| `Crc7.DamageIsNoticed` | fpga/software/DDS_FunctionGen_20Mhz/src/sd_card/SD.c:258-274 | damage to those bits within a window of seven never leaves a multiple |
| `Crc7.FrameCarries` | fpga/software/DDS_FunctionGen_20Mhz/src/sd_card/SD.c:258-274 | a frame is seven bytes: the start bits with the command, the data most significant byte first, the CRC of these five with the stop bit, and ones |
| `Crc7.CommandIsOnly` | fpga/software/DDS_FunctionGen_20Mhz/src/sd_card/SD.c:450-458 | a command and its data make up one five-byte message only |
| `Crc7.SdCard.GenerateTable` | fpga/software/DDS_FunctionGen_20Mhz/src/sd_card/SD.c:429-442 | the loops fill the table with exactly those remainders |
| `Crc7.SdCard.CrcAdd` | fpga/software/DDS_FunctionGen_20Mhz/src/sd_card/SD.c:445-447 | one look-up is one step of the division |
| `Crc7.SdCard.CommandCrc` | fpga/software/DDS_FunctionGen_20Mhz/src/sd_card/SD.c:450-460 | the CRC is that of the five bytes that begin with the start bits and the command and carry the data, most significant byte first |
| `Crc7.SdCard.SendCommand` | fpga/software/DDS_FunctionGen_20Mhz/src/sd_card/SD.c:258-274 | what the bus carries is exactly one frame with the command, the data, their CRC with the stop bit, and the filler byte |
| `FdPool.InitialHolds` | fpga/software/DDS_FunctionGen_20Mhz_bsp/HAL/src/alt_dev.c:118-149 | the pool at start-up satisfies the invariant |
| `FdPool.LockSeenIsHeld` | fpga/software/DDS_FunctionGen_20Mhz_bsp/HAL/src/alt_open.c:79-87 | a scan up to the high-water mark finds a lock if and only if one is held anywhere in the pool |
| `FdPool.OpenRefusal` | fpga/software/DDS_FunctionGen_20Mhz_bsp/HAL/src/alt_open.c:130-150 | open answers EACCES if and only if a lock is held on the device or its own open says so |
| `FdPool.LockedOpenFails` | fpga/software/DDS_FunctionGen_20Mhz_bsp/HAL/src/alt_open.c:105-171 | while a lock is held every open of the device fails and no descriptor changes |
| `FdPool.OpenSucceeds` | fpga/software/DDS_FunctionGen_20Mhz_bsp/HAL/src/alt_open.c:130-168 | a successful open takes the first free descriptor, of a device without a lock, and unlocks nothing |
| `FdPool.OpenFails` | fpga/software/DDS_FunctionGen_20Mhz_bsp/HAL/src/alt_open.c:160-165 | a failed open leaves every descriptor as it was and at most moves the high-water mark |
| `FdPool.OpenErrors` | fpga/software/DDS_FunctionGen_20Mhz_bsp/HAL/src/alt_open.c:105-168 | a failed open reports ENODEV for a name that is not found, EMFILE exactly without a free descriptor, EACCES for a locked device, and otherwise what the device's open says; it fails in no other case |
| `FdPool.LockKeeps` | fpga/software/DDS_FunctionGen_20Mhz_bsp/HAL/src/alt_fd_lock.c:54-75 | a granted lock is the only one on its device although the scan stops before the high-water mark |
| `FdPool.LockIsHeld` | fpga/software/DDS_FunctionGen_20Mhz_bsp/HAL/src/alt_fd_lock.c:54-75 | a lock is granted exactly if no other descriptor below the mark is on the device, and is then held through this one; a refusal changes nothing |
| `FdPool.UnlockReleases` | fpga/software/DDS_FunctionGen_20Mhz_bsp/HAL/src/alt_fd_unlock.c:52-56 | after an unlock through the holder no descriptor holds a lock on the device; other locks stay |
| `FdPool.CloseKeeps` | fpga/software/DDS_FunctionGen_20Mhz_bsp/HAL/src/alt_release_fd.c:44-51 | releasing a descriptor keeps the invariant |
| `FdPool.CloseFrees` | fpga/software/DDS_FunctionGen_20Mhz_bsp/HAL/src/alt_release_fd.c:44-51 | a closed descriptor above 2 is free again, a standard stream is as it was, and no other descriptor changes |
| `FdPool.RedirectKeeps` | fpga/software/DDS_FunctionGen_20Mhz_bsp/HAL/src/alt_io_redirect.c:58-72 | redirecting a standard stream keeps the invariant |
| `FdPool.RedirectRefers` | fpga/software/DDS_FunctionGen_20Mhz_bsp/HAL/src/alt_io_redirect.c:58-72 | a redirected stream refers to what was opened, the temporary descriptor is free again; if the open fails no open descriptor changes |
| `FdPool.AfterKeeps` | fpga/software/DDS_FunctionGen_20Mhz_bsp/HAL/src/alt_ioctl.c:106-168 | every legal call keeps the invariant |
| `FdPool.Run` | fpga/software/DDS_FunctionGen_20Mhz_bsp/HAL/src/alt_ioctl.c:106-168 | the invariant holds after any run of legal calls |
| `FdPool.LocksExclude` | fpga/software/DDS_FunctionGen_20Mhz_bsp/HAL/src/alt_fd_lock.c:54-75 | over every run from start-up no device has two locks, and every open of a locked device fails |
| `FdPool.GrantedThoughShared` | fpga/software/DDS_FunctionGen_20Mhz_bsp/HAL/src/alt_fd_lock.c:61-69 | a lock is granted although its device is open elsewhere if and only if the only other descriptor on it is the one at the high-water mark |
| `FdPool.SharedLockExample` | fpga/software/DDS_FunctionGen_20Mhz_bsp/HAL/src/alt_fd_lock.c:61-69 | that happens: two opens of one device and a lock through the first |
| `FdPool.CloseReleasesLock` | fpga/software/DDS_FunctionGen_20Mhz_bsp/HAL/src/alt_release_fd.c:44-51 | close gives a lock up if and only if the descriptor is not a standard stream, though the documentation promises it for all |
| `FdPool.StreamLockExample` | fpga/software/DDS_FunctionGen_20Mhz_bsp/HAL/src/alt_release_fd.c:44-51 | that happens: a lock taken through a redirected standard input is still held after the close |
| `FdPool.Files.constructor` | fpga/software/DDS_FunctionGen_20Mhz_bsp/HAL/src/alt_dev.c:118-149 | three standard streams on the null device and no high-water mark |
| `FdPool.Files.GetFd` | fpga/software/DDS_FunctionGen_20Mhz_bsp/HAL/src/alt_get_fd.c:54-101 | the first free descriptor is taken and the mark raised to it, or -EMFILE and no change |
| `FdPool.Files.ReleaseFd` | fpga/software/DDS_FunctionGen_20Mhz_bsp/HAL/src/alt_release_fd.c:44-51 | a descriptor above 2 becomes free, any other keeps everything |
| `FdPool.Files.FileLocked` | fpga/software/DDS_FunctionGen_20Mhz_bsp/HAL/src/alt_open.c:64-92 | the loop answers -EACCES if and only if another descriptor up to the mark holds a lock on the device |
| `FdPool.Files.Open` | fpga/software/DDS_FunctionGen_20Mhz_bsp/HAL/src/alt_open.c:105-171 | the loops and the roll-back do what the specification of open says, with errno set on failure only |
| `FdPool.Files.FdLock` | fpga/software/DDS_FunctionGen_20Mhz_bsp/HAL/src/alt_fd_lock.c:54-75 | the loop grants the lock if and only if no other descriptor below the mark is on the device |
| `FdPool.Files.Ioctl` | fpga/software/DDS_FunctionGen_20Mhz_bsp/HAL/src/alt_ioctl.c:106-168 | lock and unlock reach the pool for devices only, everything else the driver; errno follows the answer |
| `FdPool.Files.Close` | fpga/software/DDS_FunctionGen_20Mhz_bsp/HAL/src/alt_close.c:64-101 | the descriptor is released whatever the driver answers; errno and the result report the driver or the bad descriptor |
| `FdPool.Files.OpenFd` | fpga/software/DDS_FunctionGen_20Mhz_bsp/HAL/src/alt_io_redirect.c:58-72 | the stream refers to what was opened and the temporary descriptor is free again; if the open fails the stream is unchanged |
| `Spi.Master.constructor` | fpga/software/DDS_FunctionGen_20Mhz_bsp/drivers/src/altera_avalon_spi.c:41-76 | nothing is with the device |
| `Spi.WireIs` | fpga/software/DDS_FunctionGen_20Mhz_bsp/drivers/src/altera_avalon_spi.c:89-102 | the wire carries the write data first and zeros behind it |
| `Spi.Master.AwaitStatus` | fpga/software/DDS_FunctionGen_20Mhz_bsp/drivers/src/altera_avalon_spi.c:82-87 | the wait ends with a status the loop can act on |
| `Spi.Master.SendNext` | fpga/software/DDS_FunctionGen_20Mhz_bsp/drivers/src/altera_avalon_spi.c:89-102 | a credit is spent on the next byte of the write data and then on zeros; only when none is left are the credits taken away |
| `Spi.Master.TakeReply` | fpga/software/DDS_FunctionGen_20Mhz_bsp/drivers/src/altera_avalon_spi.c:104-112 | a reply is ignored or stored at the next place |
| `Spi.Master.Turn` | fpga/software/DDS_FunctionGen_20Mhz_bsp/drivers/src/altera_avalon_spi.c:79-118 | each turn does exactly one of a send and a receive, at most one byte is with the device, and credits are 0 or 1 |
| `Spi.Master.Command` | fpga/software/DDS_FunctionGen_20Mhz_bsp/drivers/src/altera_avalon_spi.c:41-134 | the command is done after exactly two turns a byte if there is anything to transfer and never otherwise; it sends the write data and then the zeros, stores the replies to the zeros in order, touches nothing behind them and returns their number |
| `TimeOfDay.CutProduct` | fpga/software/DDS_FunctionGen_20Mhz_bsp/HAL/src/alt_settod.c:83-84 | cutting a product to 32 bits leaves its value modulo a million if and only if 5^6 divides what is cut off |
| `TimeOfDay.ReadBack` | fpga/software/DDS_FunctionGen_20Mhz_bsp/HAL/src/alt_gettod.c:71-124 | a time read back at once is the one set if and only if 5^6 divides the cut-off part, or it is 0 and the reading falls short |
| `TimeOfDay.ReadBackExample` | fpga/software/DDS_FunctionGen_20Mhz_bsp/HAL/src/alt_settod.c:83-84 | that happens: at 1000 ticks a second, a time set at tick 4294968 is read back off |
| `TimeOfDay.SumLater` | fpga/software/DDS_FunctionGen_20Mhz_bsp/HAL/src/alt_gettod.c:91-93 | for a rate that divides a million the sum is the time set plus the ticks since, but for the disagreement on the fraction at the set |
| `TimeOfDay.ReadLater` | fpga/software/DDS_FunctionGen_20Mhz_bsp/HAL/src/alt_gettod.c:71-124 | so every later reading is exact if and only if the two agree at the set, but for a reading of 0 on the tick of the set |
| `TimeOfDay.NeverClamped` | fpga/software/DDS_FunctionGen_20Mhz_bsp/HAL/src/alt_gettod.c:95-101 | the branch that gives up on a negative time is not taken for readings of an agreed time |
| `TimeOfDay.Clock.Set` | fpga/software/DDS_FunctionGen_20Mhz_bsp/HAL/src/alt_settod.c:72-96 | the time of tick 0 is stored, or -1 and ENOSYS without a clock |
| `TimeOfDay.Clock.Get` | fpga/software/DDS_FunctionGen_20Mhz_bsp/HAL/src/alt_gettod.c:71-124 | the reading is the normal form of the sum; without a clock -ENOTSUP and nothing is written |
| `TimeOfDay.Clock.Normalise` | fpga/software/DDS_FunctionGen_20Mhz_bsp/HAL/src/alt_gettod.c:95-112 | the loops reach the normal form of any time, with microseconds in [0, 10^6), or 0 |
| `Printing.RepresentationIsUnique` | fpga/software/DDS_FunctionGen_20Mhz_bsp/HAL/src/alt_log_printf.c:282-296 | a number has one representation without a leading zero in a base and case |
| `Printing.ReadField` | fpga/software/DDS_FunctionGen_20Mhz_bsp/HAL/src/alt_log_printf.c:258-280 | a field of any width, padded with zeros or blanks, reads back as the signed number |
| `Printing.FieldShape` | fpga/software/DDS_FunctionGen_20Mhz_bsp/HAL/src/alt_log_printf.c:258-296 | a field is as wide as asked for, or as its number needs, ends with the digits, has the sign next to them behind blanks or in front of zeros, and is padding otherwise |
| `Printing.DigitsCount` | fpga/software/DDS_FunctionGen_20Mhz_bsp/HAL/src/alt_log_printf.c:284-291 | the digits 0-9, a-f and A-F are worth 0 to 15 |
| `Printing.SignedIs` | fpga/software/DDS_FunctionGen_20Mhz_bsp/HAL/src/alt_log_printf.c:238-245 | a signed word is read as two's complement, an unsigned one as it is |
| `Printing.Printer.Repchar` | fpga/software/DDS_FunctionGen_20Mhz_bsp/HAL/src/alt_log_printf.c:106-110 | a character is repeated, not at all for a negative count |
| `Printing.Printer.CountDigits` | fpga/software/DDS_FunctionGen_20Mhz_bsp/HAL/src/alt_log_printf.c:247-255 | the loop ends with the number of digits and p = base^(digits - 1), which fits in 32 bits |
| `Printing.Printer.PrintDigits` | fpga/software/DDS_FunctionGen_20Mhz_bsp/HAL/src/alt_log_printf.c:282-296 | the loop ends and prints the representation of the number |
| `Printing.Printer.PrintLead` | fpga/software/DDS_FunctionGen_20Mhz_bsp/HAL/src/alt_log_printf.c:258-279 | the sign comes before zeros and after blanks, and counts towards the width |
| `Printing.Printer.PrintInteger` | fpga/software/DDS_FunctionGen_20Mhz_bsp/HAL/src/alt_log_printf.c:204-301 | for every 32-bit value, width and padding, in bases 8, 10 and 16, signed or not: what is printed is a field around the number's representation, in the case asked for, and reads back as the number |
| `Printing.Printer.FirstNibble` | fpga/software/DDS_FunctionGen_20Mhz_bsp/HAL/src/alt_printf.c:98-101 | the search for the first nibble ends at the leading one |
| `Printing.Printer.PrintHex` | fpga/software/DDS_FunctionGen_20Mhz_bsp/HAL/src/alt_printf.c:84-113 | alt_printf prints the same representation: no leading zero, and it decodes to the value |
| `WavPlayer.ReadTags` | fpga/software/DDS_FunctionGen_20Mhz/src/sd_card/wavPlayer.c:64-76 | the three tags are checked, also at the end of a short file |
| `WavPlayer.ReadFormat` | fpga/software/DDS_FunctionGen_20Mhz/src/sd_card/wavPlayer.c:78-110 | the parser stops where the layout says the next tag is |
| `WavPlayer.ReadDataTag` | fpga/software/DDS_FunctionGen_20Mhz/src/sd_card/wavPlayer.c:114-129 | the data tag is found directly or behind a fact chunk; a file that ends early is refused |
| `WavPlayer.ReadHeader` | fpga/software/DDS_FunctionGen_20Mhz/src/sd_card/wavPlayer.c:50-153 | a header is accepted exactly if its tags, format and sizes are; what is read is what the file says; the offset of the data is what was consumed if and only if the format size is 16, or 18 without, or 40 with, the 22-byte extension |
| `WavPlayer.LongFormatExample` | fpga/software/DDS_FunctionGen_20Mhz/src/sd_card/wavPlayer.c:78-132 | a file with format size 18 and a 22-byte extension is accepted with the offset 46 for data that begin at 68 |
| `WavPlayer.TagsSpell` | fpga/software/DDS_FunctionGen_20Mhz/src/sd_card/wavPlayer.c:65-75 | the tags are the bytes of RIFF, WAVE, fmt, fact and data |
| `WavPlayer.RecordingReadsBack` | fpga/software/DDS_FunctionGen_20Mhz/src/sd_card/wavPlayer.c:50-153 | for every recording written as a WAV file, with or without an extension and a fact chunk: it is accepted, channels, bits and length are those recorded, and the offset is where the recorded data begin |
| `WavPlayer.OneRefill` | fpga/software/DDS_FunctionGen_20Mhz/src/sd_card/wavPlayer.c:172-240 | a refill takes the file to the next block, or back to the first after the last |
| `WavPlayer.RefillsRepeat` | fpga/software/DDS_FunctionGen_20Mhz/src/sd_card/wavPlayer.c:172-297 | in a complete file refill k starts at the data's offset plus (k mod the blocks of a pass) blocks |
| `WavPlayer.CompleteRefills` | fpga/software/DDS_FunctionGen_20Mhz/src/sd_card/wavPlayer.c:172-297 | for the header that the parser reads of a complete file, refill k starts behind the header at k mod the blocks of a pass |
| `WavPlayer.RefillsStop` | fpga/software/DDS_FunctionGen_20Mhz/src/sd_card/wavPlayer.c:235-239 | in a cut-off file the refills come to its end and stay there |
| `WavPlayer.OnlyFirstBlock` | fpga/software/DDS_FunctionGen_20Mhz/src/sd_card/wavPlayer.c:234-239 | for a file that is said to reach to 2^32 or beyond every refill starts with the first block, because the end is computed in 32 bits |
| `WavPlayer.BlockDecodes` | fpga/software/DDS_FunctionGen_20Mhz/src/sd_card/wavPlayer.c:177-226 | what a refill writes is what the bytes say: 8 bits around 128 in steps of 256, 16 bits in two's complement, of two channels the first to the left RAM and the second to the right, moved 1200 away from 0 |
| `WavPlayer.Player.constructor` | fpga/software/DDS_FunctionGen_20Mhz/src/sd_card/wavPlayer.c:41-47 | at start-up no file is selected and none is open |
| `WavPlayer.Player.AtBlock` | fpga/software/DDS_FunctionGen_20Mhz/src/sd_card/wavPlayer.c:172-297 | whatever calls, selections and stops came before, an open complete file stands at one of the blocks of its data and is read by its own header |
| `WavPlayer.Player.Fill` | fpga/software/DDS_FunctionGen_20Mhz/src/sd_card/wavPlayer.c:180-190 | the loop writes all 512 samples, which `BlockDecodes` says are those of the bytes |
| `WavPlayer.Player.RamUpdate` | fpga/software/DDS_FunctionGen_20Mhz/src/sd_card/wavPlayer.c:172-240 | the RAMs decode the bytes just read, if the file has all of them; a format that is not played leaves RAMs and file alone; the answer says whether data is left |
| `WavPlayer.Player.OpenFile` | fpga/software/DDS_FunctionGen_20Mhz/src/sd_card/wavPlayer.c:247-266 | with no file open the selected one is opened, if it is accepted, at the offset of its header, which is what the file says; an open one stays |
| `WavPlayer.Player.Update` | fpga/software/DDS_FunctionGen_20Mhz/src/sd_card/wavPlayer.c:243-298 | a call refills from the open file, or opens the selected one, at the next block; at the end of the data, or if that was signalled, the next one is the first block again; a stop that was asked for silences exactly the RAMs of the call and closes the file; a rejected file, or none to play, changes no RAM |
| `WavPlayer.Player.PlayOn` | fpga/software/DDS_FunctionGen_20Mhz/src/sd_card/wavPlayer.c:243-298 | over any number of calls for any RAMs, each has the samples of the block that the number of the call says, and the file stands at the next |
| `WavPlayer.Player.RestOn` | fpga/software/DDS_FunctionGen_20Mhz/src/sd_card/wavPlayer.c:243-298 | calls with no file to play leave the RAMs and the file as they are |
| `WavPlayer.Player.StopNow` | fpga/software/DDS_FunctionGen_20Mhz/src/sd_card/wavPlayer.c:280-292 | the first call after a stop silences its RAMs and closes the file; no later call and no other RAM is touched |
| `WavPlayer.Player.Calls` | fpga/software/DDS_FunctionGen_20Mhz/src/sd_card/wavPlayer.c:243-298 | what any calls do from any state of the player: stop, rest or play |
| `WavPlayer.Player.Stop` | fpga/software/DDS_FunctionGen_20Mhz/src/menu/menu_pages/menu_sd.c:167-173 | with calls between the two assignments, a stop closes the file, and silences exactly the RAMs of the next call, if and only if no call comes between them or those calls have nothing to play; otherwise the file stays open and the RAMs keep its samples |
| `WavPlayer.Player.Select` | fpga/software/DDS_FunctionGen_20Mhz/src/menu/menu_pages/menu_sd.c:218-222 | with calls between the three assignments, the selected file is played, if it is accepted, if and only if none is open or the open one is closed by a stop before the second assignment; otherwise the open one plays on with its own header |
| `WavPlayer.Player.PlayComplete` | fpga/software/DDS_FunctionGen_20Mhz/src/sd_card/wavPlayer.c:243-298 | a complete file that is selected while none is open: call i fills its RAMs with what the bytes of the block at i mod the blocks of a pass behind the header decode to, by the header that the file has |
| `WavPlayer.MissedStop` | fpga/software/DDS_FunctionGen_20Mhz/src/menu/menu_pages/menu_sd.c:167-173 | that happens: with one call between the assignments of a stop the RAM keeps block 1 of the file, which stays open |
| `LookupRam.Clamp` | fpga/software/DDS_FunctionGen_20Mhz/src/hardware/ramLookupTables.c:135-147 | a sample keeps its sign and stays below the fixed-point constant |
| `LookupRam.ClampIs` | fpga/software/DDS_FunctionGen_20Mhz/src/hardware/ramLookupTables.c:135-147 | clamping keeps the order, is odd but at 0, and moves a sample by 1280 unless it clips it |
| `LookupRam.SamplesFit` | fpga/software/DDS_FunctionGen_20Mhz/src/hardware/ramLookupTables.c:96-133 | every sample fits in 16 bits |
| `LookupRam.SquareShape` | fpga/software/DDS_FunctionGen_20Mhz/src/hardware/ramLookupTables.c:96-98 | the square wave is high over the first half of the table and low over the second |
| `LookupRam.TriangleShape` | fpga/software/DDS_FunctionGen_20Mhz/src/hardware/ramLookupTables.c:100-115 | the triangle rises, falls over the middle half and rises again, through its two peaks |
| `LookupRam.SawtoothShape` | fpga/software/DDS_FunctionGen_20Mhz/src/hardware/ramLookupTables.c:117-123 | the sawtooth rises over the whole table by 63 a sample and changes its sign once |
| `LookupRam.TableShapes` | fpga/software/DDS_FunctionGen_20Mhz/src/hardware/ramLookupTables.c:63-82 | a sine and an unknown waveform are the precomputed table, and a table for the file begins silent |
| `LookupRam.RefilledOnlyPlaying` | fpga/software/DDS_FunctionGen_20Mhz/src/hardware/hardware.c:233-275 | an interrupt refills a table if and only if it is tagged ARB, its modulation is on and its bit has changed; the first half if the bit is set and the second if it is not; two playing channels go by the first one's bit |
| `LookupRam.HalvesAlternate` | fpga/software/DDS_FunctionGen_20Mhz/src/hardware/hardware.c:230-277 | over any run of interrupts the halves of a playing table are refilled in turns |
| `LookupRam.MaskAsDocumented` | fpga/software/DDS_FunctionGen_20Mhz/src/hardware/hardware.c:88-104 | the mask has a table's bit for a waveform from the file below 500 Hz, as its comment says, if and only if it is not a modulation of the second channel whose frequency and the first one's lie on different sides of 500 Hz |
| `LookupRam.MaskExample` | fpga/software/DDS_FunctionGen_20Mhz/src/hardware/hardware.c:99-100 | it is not for a slow modulation of the second channel beside a fast one of the first |
| `LookupRam.NoneToPlay` | fpga/software/DDS_FunctionGen_20Mhz/src/hardware/hardware.c:88-104 | if no table is to play the file, every table can be rewritten |
| `LookupRam.Lookup.constructor` | fpga/software/DDS_FunctionGen_20Mhz/src/hardware/ramLookupTables.c:37-39 | untagged tables are coherent |
| `LookupRam.Lookup.OwnTables` | fpga/software/DDS_FunctionGen_20Mhz/src/hardware/hardware.c:233-250 | the three branches for the channels' own tables refill exactly those halves |
| `LookupRam.Lookup.Modulation` | fpga/software/DDS_FunctionGen_20Mhz/src/hardware/hardware.c:252-275 | a modulation's table is refilled under exactly that condition |
| `LookupRam.Lookup.Isr` | fpga/software/DDS_FunctionGen_20Mhz/src/hardware/hardware.c:230-279 | an interrupt writes only tables tagged ARB, at most one 512-sample half of each, and keeps every table coherent |
| `LookupRam.Lookup.UpdateRam` | fpga/software/DDS_FunctionGen_20Mhz/src/hardware/ramLookupTables.c:60-89 | the loop writes all 1024 samples of the waveform, whose shape the lemmas above say, and they survive if no interrupt is enabled, the table is not tagged ARB or it is a modulation that is off |
| `LookupRam.Lookup.UpdateRamLookups` | fpga/software/DDS_FunctionGen_20Mhz/src/hardware/ramLookupTables.c:42-57 | every table gets the tag wanted and the waveform of that shape; a coherent table stays coherent if no interrupt is enabled, or with interrupts anywhere if it was not playing |
| `LookupRam.Lookup.SetMask` | fpga/software/DDS_FunctionGen_20Mhz/src/hardware/hardware.c:88-104 | the six tests set exactly the bits of the mask |
| `LookupRam.Lookup.Turn` | fpga/software/DDS_FunctionGen_20Mhz/src/main.c:54-67 | a turn of the main loop, with interrupts anywhere by the masks of this turn and the one before, gives every table the tag wanted and keeps a coherent table coherent unless it was playing, is to get a waveform of its own, and another table is to play the file with its interrupt on |
| `LookupRam.Lookup.TornUpdate` | fpga/software/DDS_FunctionGen_20Mhz/src/main.c:54-67 | in exactly that case the turn can leave the table wrong: an interrupt for the other table comes before the tag changes, and refills a half of this one |

## Left out

- Write: the UART's write and read do not model the variants for uC/OS-II, for the small driver and for ignoring a full FIFO; the build has one thread, so the semaphores are empty.
- Interfere: a read or write of one driver field or device register is one step; interference between the bytes of a register access does not exist on this processor.
- PollIdle, PollErasePassed, PollWritePassed: the flash's polling loops with their timeouts are a success or a timeout, chosen arbitrarily; how long a poll takes is not modelled.
- EraseBlock: the page size is a power of two in the device, so that the mask test is a remainder, and an aligned offset inside the device has a whole page behind it; a block offset below 0 is not modelled. Cache flushes, reads and the query for the region table of the flash are left out.
- Send, Prepare, CallBack: that a length of 0 does not start the device is an assumption about the device. The two streaming modes are modelled only in the ioctl (`Control`), not in the queues, whose alignment and size limit are fixed while they run. A callback does not post to a channel where it interrupted the thread between the first read of an index and the move of the end; what happens then is said by `StaleStart`, `InterruptedSendKeepsAll` and `OvertakenSend`.
- Launch: a cast of an address to 32 bits is not modelled.
- Callback, CallbackStep: a callback does not stop the alarm that follows its own, which is the condition of `TurnOnStopped`, and an alarm that the tick found on its list and that was stopped during the tick is not started again before the tick ends. `spares` are the alarms off the list that callbacks may start besides new ones.
- Start: an alarm that is on the list is not started again, which would break the list's links. The callback and its context are not stored; what callbacks do and return is arbitrary in `Callback`.
- SendCommand: the SPI transfer of each byte, the card's handshake and responses and the block transfers are left out. The command number and data are any 8 and 32 bits.
- Open: the device and file-system lists are parameters (`Found`), and so are the answers of a device's own open, close and ioctl. The two lock bits of a descriptor's flags are fields, the other flags one number.
- Ioctl: the drivers' own requests are left out, their answer is a parameter; a descriptor passed in is open and below 32, as the code requires.
- Command: the read of stale data at the start of an SPI transaction finds none, because every transaction that was modelled takes all its replies. That the slave answers every byte in the end is assumed; the last wait then ends at once, because a byte has been sent when its reply is there.
- Set, Get: concurrent calls, which the documentation excludes, are not modelled. The seconds that the reading's loops count up are not cut to 32 bits.
- PrintInteger: the state machine over the format string, which finds the width, the base and the flags, is left out; they are parameters. So are the conversions for characters and strings.
- ReadHeader: the parser's unused fields (chunk size, rates, block alignment) are read but not kept, and errors of the file system are left out, as the code ignores them.
- RamUpdate: what the code leaves uninitialised after a short read is arbitrary here. The RAM halves are arrays of 512.
- Refill: which samples the player has for a half, and whether it has any, is arbitrary in `LookupRam`; `WavPlayer` says which. That the device holds an interrupt back whose mask bit is off is what `Enabled` stands for; an edge of a bit is not modelled.
- Select, Stop: the assignments of the menu are single steps in the order of the program text, also the copy of a file's directory entry. A file is its bytes, which do not change. The buttons are handled by the main loop alone.
- Sample: the sine table is a parameter, because it is computed in floating point. The strings with the waveforms' names are left out.
- HAL stubs, the LCD and the menus, the DDS registers, amplitude and phase computations in floating point, and the FAT file system are not part of this model; they would add only easy members or need the arithmetic of floats.
