# Verified model of the Kepler-X firmware and the GreenPAK writer's board support package

This project models, in Dafny, the stateful parts of two embedded programs and proves what they promise.

- **JTAG UART fast driver** (`Rings`, `JtagMachine`, `JtagProperties`, `JtagDevice`, `JtagUart`). Two rings of N >= 2 bytes are
  shared between a writer, a reader, the interrupt handler and a one-second timer. `JtagMachine` interleaves them:
  a foreground step is one shared load or store, each byte of a copy included; an interrupt, with any number of
  turns and any hardware FIFO behind it, may strike between any two of them. `JtagUart` is the driver in its own form, on
  arrays and fields, and every method follows the machine step by step.
- **mSGDMA prefetcher lists** (`DescriptorRings`, `PrefetcherDevice`, `StdPrefetcher`, `ExtPrefetcher`). Circular
  descriptor lists in memory, in both pointer encodings, from construction to a running prefetcher.
- **Alarms** (`AlarmTimes`, `AlarmList`). The circular doubly linked list that each clock tick walks while it unlinks
  the alarms whose callbacks return zero, and the exact ticks at which an alarm is called, over runs in which other
  alarms come and go.
- **Text console** (`WrappedLog`, `Console`). A 64-row text RAM and a scroll register, against a plain wrapped log.
- **Card and buzzer machines** (`ChimeMachine`, `ChimeProgress`, `ChimeLaws`, `KeplerX`). Two polled machines with a four-phase
  handshake, arbitrary card inputs and a wrapping 32-bit tick.
- **I2C master** (`I2cReceive`, `I2cSpeed`). The polled receive against a core that may discard bytes, and the speed
  arithmetic.
- **Integer printers** (`Numerals`, `BitWords`, `Printers`), **time of day** (`TimeOfDay`), **file descriptors** (`FdTable`).

`Basics` and `Arithmetic` hold what several parts share. Methods carry the state changes and the loops of the code; functions and lemmas say what they amount to. Hardware
appears as nondeterministic input: DATA reads, pin levels, ticks, bytes from the I2C bus, drivers' own results. Ghost
fields record histories. In the JTAG driver the device is assumed to report nothing available with an invalid DATA
read, and `JtagProperties.InvalidReadMustSayEmpty` shows what happens otherwise.

Where the code departs from what its comments say or a caller would expect, the code is modelled, and the exact
condition is proved:

- `alt_fd_lock` promises exclusive access, but its scan stops one below `alt_max_fd`: a lock is granted over the top
  descriptor (`FdTable.Table.Lock`, `FdTable.LockOverlooksTopDescriptor`).
- A blocking write waits as long as the host has been seen within the timeout, but after any wait gives up as soon as
  one second has passed without the host (`JtagProperties.BlockingWriteIsComplete`, with the run of
  `JtagProperties.WriteGivesUpBeforeTimeout`). A read does wait for the timeout.
- A text of exactly 128 characters makes `kxlog` store its terminator behind its buffer (`Console.Console.KxLog`).
- Starting an alarm that is registered already destroys the list, and unlinking the entry that a tick has saved as its
  next leaves the tick in a loop (`AlarmList.Scheduler.Start`, `AlarmList.Remove`).
- The speed read back from the I2C configuration may be above 400 kHz, and is then refused (`I2cSpeed.SetGetSet`);
  above half the clock, reading back divides by zero (`I2cSpeed.ReadBackDivides`).
- The clock advances evenly only if the tick rate divides 1000000 (`TimeOfDay.ElapsedIsLinearOnlyIfRateDivides`), and
  goes back at some ticks unless the rate divides or exceeds it (`TimeOfDay.ReadingNeverGoesBack`).
- The scroll register goes wrong for 29 lines each time the 32-bit line count wraps
  (`Console.ScrollIsRightUnlessWrapped`).

## Model

| member | source | states |
|---|---|---|
| `Rings.FreeRun` | GreenPAK/fpga-writer/Eclipse/GreenPAKWriter_BSP/drivers/src/altera_avalon_jtag_uart_write.c:101-113 | the writer's three-case chunk size never runs past the buffer end and is zero exactly when the ring, as seen, is full |
| `Rings.FilledRun` | GreenPAK/fpga-writer/Eclipse/GreenPAKWriter_BSP/drivers/src/altera_avalon_jtag_uart_read.c:118-127 | the reader's chunk size never runs past the buffer end and is zero exactly when the ring, as seen, is empty |
| `Rings.RunsAreLongest` | GreenPAK/fpga-writer/Eclipse/GreenPAKWriter_BSP/drivers/src/altera_avalon_jtag_uart_write.c:105-110 | the writer's chunk is all the free slots up to the buffer end, the reader's all the filled ones |
| `Rings.StoreFree` | GreenPAK/fpga-writer/Eclipse/GreenPAKWriter_BSP/drivers/src/altera_avalon_jtag_uart_write.c:118 | a byte copied into the free run disturbs no unread byte, and extends the copied chunk |
| `Rings.PublishRun` | GreenPAK/fpga-writer/Eclipse/GreenPAKWriter_BSP/drivers/src/altera_avalon_jtag_uart_write.c:122 | publishing `tx_in` appends exactly the copied bytes to the ring, also when the index wraps |
| `Rings.ReleaseRun` | GreenPAK/fpga-writer/Eclipse/GreenPAKWriter_BSP/drivers/src/altera_avalon_jtag_uart_read.c:132-136 | publishing `rx_out` removes exactly the copied bytes, the oldest ones, from the ring |
| `Rings.PushIsStable` | GreenPAK/fpga-writer/Eclipse/GreenPAKWriter_BSP/drivers/src/altera_avalon_jtag_uart_init.c:138-151 | a byte stored by the handler leaves every byte a reader with an older snapshot may copy, and its snapshot stays a lower bound |
| `Rings.PopIsStable` | GreenPAK/fpga-writer/Eclipse/GreenPAKWriter_BSP/drivers/src/altera_avalon_jtag_uart_init.c:175-179 | a byte sent by the handler only widens the run a writer with an older snapshot may fill |
| `JtagMachine.RxDrainMeaning` | GreenPAK/fpga-writer/Eclipse/GreenPAKWriter_BSP/drivers/src/altera_avalon_jtag_uart_init.c:131-155 | the receive loop moves the same bytes, in order, from the hardware FIFO to the ring, and ends with data available only when the ring is full |
| `JtagMachine.TxDrainMeaning` | GreenPAK/fpga-writer/Eclipse/GreenPAKWriter_BSP/drivers/src/altera_avalon_jtag_uart_init.c:173-185 | the transmit loop sends the oldest bytes of the ring, one per unit of WSPACE, and has space left only when the ring is empty |
| `JtagMachine.WriterKeepsInv` | GreenPAK/fpga-writer/Eclipse/GreenPAKWriter_BSP/drivers/src/altera_avalon_jtag_uart_write.c:96-187 | each load or store of a write keeps the invariant of the whole driver: conservation on both rings, place of both threads, no lost wake-up, CONTROL equal to its shadow |
| `JtagMachine.ReaderKeepsInv` | GreenPAK/fpga-writer/Eclipse/GreenPAKWriter_BSP/drivers/src/altera_avalon_jtag_uart_read.c:111-191 | each load or store of a read keeps the same invariant |
| `JtagMachine.IsrPassKeepsInv` | GreenPAK/fpga-writer/Eclipse/GreenPAKWriter_BSP/drivers/src/altera_avalon_jtag_uart_init.c:118-203 | each turn of the interrupt handler keeps the same invariant, wherever the two threads are |
| `JtagMachine.IsrPassKeepsCalls` | GreenPAK/fpga-writer/Eclipse/GreenPAKWriter_BSP/drivers/src/altera_avalon_jtag_uart_init.c:118-203 | the handler touches no local of a thread and neither published byte sequence |
| `JtagMachine.Isr` | GreenPAK/fpga-writer/Eclipse/GreenPAKWriter_BSP/drivers/src/altera_avalon_jtag_uart_init.c:118-203 | a whole interrupt, of any number of turns, keeps the invariant and the threads |
| `JtagMachine.Run` | GreenPAK/fpga-writer/Eclipse/GreenPAKWriter_BSP/drivers/src/altera_avalon_jtag_uart_write.c:79-211 | the invariant holds after every schedule of calls, thread steps, interrupts and timer ticks |
| `JtagProperties.EveryScheduleIsSafe` | GreenPAK/fpga-writer/Eclipse/GreenPAKWriter_BSP/drivers/src/altera_avalon_jtag_uart_init.c:66-204 | after every schedule from initialisation: accepted bytes = bytes put in DATA ++ transmit ring; bytes popped from the hardware = bytes delivered ++ receive ring; occupancy below N; a non-empty transmit ring has WE set unless the writer is about to set it; RE is set over an empty receive ring unless a read that took bytes is about to set it |
| `JtagProperties.CallsAreFixed` | GreenPAK/fpga-writer/Eclipse/GreenPAKWriter_BSP/drivers/src/altera_avalon_jtag_uart_write.c:79-94 | no schedule changes what a call in progress was asked to do |
| `JtagProperties.WriteAppendsPrefix` | GreenPAK/fpga-writer/Eclipse/GreenPAKWriter_BSP/drivers/src/altera_avalon_jtag_uart_write.c:96-123 | under every interleaving a write appends a prefix of its data to the accepted bytes and returns that prefix's length, or the error when it is empty |
| `JtagProperties.ReadTakesNextBytes` | GreenPAK/fpga-writer/Eclipse/GreenPAKWriter_BSP/drivers/src/altera_avalon_jtag_uart_read.c:111-138 | under every interleaving a read delivers the next bytes popped from the hardware, at most as many as asked for, and returns their number, or the error when there are none; if they are fewer, its last look found the ring empty |
| `JtagProperties.BlockingWriteIsComplete` | GreenPAK/fpga-writer/Eclipse/GreenPAKWriter_BSP/drivers/src/altera_avalon_jtag_uart_write.c:142-187 | under every interleaving, a blocking write that is back has had all its data accepted if and only if no step was taken at the check of `host_inactive` after a wait with `host_inactive` above zero |
| `JtagProperties.WriteGivesUpBeforeTimeout` | GreenPAK/fpga-writer/Eclipse/GreenPAKWriter_BSP/drivers/src/altera_avalon_jtag_uart_write.c:179-184 | a run from initialisation in which a blocking write of two bytes comes back with one, one second without the host and long before the timeout |
| `JtagProperties.BlockingReadBringsBytes` | GreenPAK/fpga-writer/Eclipse/GreenPAKWriter_BSP/drivers/src/altera_avalon_jtag_uart_read.c:140-174 | under every interleaving, a blocking read of at least one byte that is back has brought some if and only if no step was taken at the recheck with `rx_in` unchanged |
| `JtagProperties.ReadGivesUpOnlyAfterTimeout` | GreenPAK/fpga-writer/Eclipse/GreenPAKWriter_BSP/drivers/src/altera_avalon_jtag_uart_read.c:169-174 | such a step is never taken while the host is seen within the timeout |
| `JtagProperties.PassSendsAtMostSpace` | GreenPAK/fpga-writer/Eclipse/GreenPAKWriter_BSP/drivers/src/altera_avalon_jtag_uart_init.c:170-185 | one handler turn sends exactly min(WSPACE, occupancy) bytes, the oldest unsent ones |
| `JtagProperties.BlockedWriterIsWoken` | GreenPAK/fpga-writer/Eclipse/GreenPAKWriter_BSP/drivers/src/altera_avalon_jtag_uart_write.c:179-184 | a writer that keeps spinning sees a full ring with WE set, and the next turn with space ends its spin |
| `JtagProperties.BlockedReaderIsWoken` | GreenPAK/fpga-writer/Eclipse/GreenPAKWriter_BSP/drivers/src/altera_avalon_jtag_uart_read.c:169-174 | a reader that keeps spinning sees an empty ring with RE set, and the next turn with a byte ends its spin |
| `JtagProperties.InvalidReadMustSayEmpty` | GreenPAK/fpga-writer/Eclipse/GreenPAKWriter_BSP/drivers/src/altera_avalon_jtag_uart_init.c:145-163 | the device assumption is needed: an invalid DATA read that still reported data available would turn RE off over an empty ring |
| `JtagDevice.RxDrainReads` | GreenPAK/fpga-writer/Eclipse/GreenPAKWriter_BSP/drivers/src/altera_avalon_jtag_uart_init.c:131-163 | the receive loop takes answers while they are valid and the ring has room, puts exactly their bytes in the ring, and ends with the RAVAIL of the last answer it asked for |
| `JtagDevice.PassReads` | GreenPAK/fpga-writer/Eclipse/GreenPAKWriter_BSP/drivers/src/altera_avalon_jtag_uart_init.c:118-203 | one turn takes exactly those answers, byte for byte, and none without RI; RE goes off if and only if data is known or assumed to wait behind a full ring, WE if and only if the hardware has space to spare |
| `JtagDevice.IsrTakesLeadingTurns` | GreenPAK/fpga-writer/Eclipse/GreenPAKWriter_BSP/drivers/src/altera_avalon_jtag_uart_init.c:118-124 | an interrupt is the turns for its leading CONTROL reads with RI or WI, up to the first with neither |
| `JtagDevice.RunTakes` | GreenPAK/fpga-writer/Eclipse/GreenPAKWriter_BSP/drivers/src/altera_avalon_jtag_uart_init.c:145-151 | over every schedule, the bytes popped are those that the answers taken by its interrupts carried, in order |
| `JtagDevice.ReadGetsNextAnswers` | GreenPAK/fpga-writer/Eclipse/GreenPAKWriter_BSP/drivers/src/altera_avalon_jtag_uart_read.c:111-138 | whatever the schedule, a read gets in its buffer the bytes that the device answered with next after those that earlier reads got |
| `JtagDevice.WaitsEndForAReason` | GreenPAK/fpga-writer/Eclipse/GreenPAKWriter_BSP/drivers/src/altera_avalon_jtag_uart_write.c:179-180 | a wait ends in the step that sees the index moved or the host away for the whole timeout, and in no other |
| `JtagDevice.CounterIsSecondsSinceHost` | GreenPAK/fpga-writer/Eclipse/GreenPAKWriter_BSP/drivers/src/altera_avalon_jtag_uart_init.c:210-232 | `host_inactive` is the number of seconds since the host was last seen, up to its largest value |
| `JtagUart.JtagUart.constructor` | GreenPAK/fpga-writer/Eclipse/GreenPAKWriter_BSP/drivers/src/altera_avalon_jtag_uart_init.c:66-99 | initialisation leaves empty rings, RE set and the machine in its initial state |
| `JtagUart.JtagUart.ReceivePart` | GreenPAK/fpga-writer/Eclipse/GreenPAKWriter_BSP/drivers/src/altera_avalon_jtag_uart_init.c:126-168 | the in-place receive loop does what the machine's receive part does |
| `JtagUart.JtagUart.TransmitPart` | GreenPAK/fpga-writer/Eclipse/GreenPAKWriter_BSP/drivers/src/altera_avalon_jtag_uart_init.c:170-202 | the in-place transmit loop does what the machine's transmit part does |
| `JtagUart.JtagUart.Irq` | GreenPAK/fpga-writer/Eclipse/GreenPAKWriter_BSP/drivers/src/altera_avalon_jtag_uart_init.c:106-204 | the in-place handler is one interrupt step of the machine |
| `JtagUart.JtagUart.Timeout` | GreenPAK/fpga-writer/Eclipse/GreenPAKWriter_BSP/drivers/src/altera_avalon_jtag_uart_init.c:210-232 | the one-second alarm is one timer step of the machine |
| `JtagUart.JtagUart.Fill` | GreenPAK/fpga-writer/Eclipse/GreenPAKWriter_BSP/drivers/src/altera_avalon_jtag_uart_write.c:99-123 | the inner loop stops with its data used up or at a full snapshot, on a schedule that interrupts may enter before any access |
| `JtagUart.JtagUart.Write` | GreenPAK/fpga-writer/Eclipse/GreenPAKWriter_BSP/drivers/src/altera_avalon_jtag_uart_write.c:79-211 | the in-place write follows the machine, accepts a prefix of its data after everything accepted before, and returns its length or the error |
| `JtagUart.JtagUart.Drain` | GreenPAK/fpga-writer/Eclipse/GreenPAKWriter_BSP/drivers/src/altera_avalon_jtag_uart_read.c:116-138 | the inner loop fills the caller's buffer with exactly the bytes it released and touches nothing behind them |
| `JtagUart.JtagUart.Read` | GreenPAK/fpga-writer/Eclipse/GreenPAKWriter_BSP/drivers/src/altera_avalon_jtag_uart_read.c:96-199 | the in-place read follows the machine, puts the next undelivered bytes in the buffer, leaves the rest of the buffer alone, and returns their number or the error |
| `DescriptorRings.AppendGivesRing` | GreenPAK/fpga-writer/Eclipse/GreenPAKWriter_BSP/drivers/src/altera_msgdma.c:1095-1098 | appending d to a ring that represents s gives the ring s ++ [d] |
| `DescriptorRings.SelfLinkedIsOutside` | GreenPAK/fpga-writer/Eclipse/GreenPAKWriter_BSP/drivers/src/altera_msgdma.c:1069-1092 | a descriptor that points to itself and is not the root is in no ring, so the duplicate test inside the walk never fires |
| `DescriptorRings.AppendKeepsSelfLinks` | GreenPAK/fpga-writer/Eclipse/GreenPAKWriter_BSP/drivers/src/altera_msgdma.c:1059-1100 | descriptors not yet appended still point to themselves |
| `DescriptorRings.FollowVisitsRing` | GreenPAK/fpga-writer/Eclipse/GreenPAKWriter_BSP/drivers/src/altera_msgdma.c:1084-1094 | following next pointers from the root visits the ring in order and returns to the root |
| `DescriptorRings.RingIsUnique` | GreenPAK/fpga-writer/Eclipse/GreenPAKWriter_BSP/drivers/src/altera_msgdma.c:1084-1094 | a root denotes at most one list |
| `DescriptorRings.OwnershipKeepsReady` | GreenPAK/fpga-writer/Eclipse/GreenPAKWriter_BSP/drivers/src/altera_msgdma.c:1192-1214 | the ownership pass leaves GO and every other requested control bit alone |
| `DescriptorRings.OwnershipStep` | GreenPAK/fpga-writer/Eclipse/GreenPAKWriter_BSP/drivers/src/altera_msgdma.c:1190-1214 | one step of the pass gives one more descriptor its owner and changes no other bit of any descriptor |
| `DescriptorRings.PassInBits` | GreenPAK/fpga-writer/Eclipse/GreenPAKWriter_BSP/drivers/src/altera_msgdma.c:1190-1214 | bit by bit: bit 30 of every descriptor but the last is set, that of the last unless software keeps it, and no other bit and no other word changes |
| `DescriptorRings.CarriesInBits` | GreenPAK/fpga-writer/Eclipse/GreenPAKWriter_BSP/drivers/src/altera_msgdma.c:871-874 | bit by bit: a started descriptor carries its transfer and its control word with bit 31 set and bit 30 saying who owns it |
| `DescriptorRings.PassStartsAll` | GreenPAK/fpga-writer/Eclipse/GreenPAKWriter_BSP/drivers/src/altera_msgdma.c:1173-1224 | requests carried by constructed descriptors are still carried after the pass, with the owner changed, and no other control word changes |
| `DescriptorRings.AppendKeepsOutside` | GreenPAK/fpga-writer/Eclipse/GreenPAKWriter_BSP/drivers/src/altera_msgdma.c:1095-1098 | an append changes no link outside the descriptors being listed |
| `PrefetcherDevice.SplitJoin` | GreenPAK/fpga-writer/Eclipse/GreenPAKWriter_BSP/drivers/inc/altera_msgdma.h:55-58 | the first word is the low half: low + 2^32 * high is the address; two words match an address exactly when they join to it |
| `PrefetcherDevice.StartWordRuns` | GreenPAK/fpga-writer/Eclipse/GreenPAKWriter_BSP/drivers/src/altera_msgdma.c:1382-1442 | the control word ends with RUN set, the options as asked and all other bits as they were |
| `PrefetcherDevice.RunningInBits` | GreenPAK/fpga-writer/Eclipse/GreenPAKWriter_BSP/drivers/src/altera_msgdma.c:1382-1442 | bit by bit: RUN is bit 0, polling bit 1, interrupts bit 3, park mode bit 4, and all other bits are as they were |
| `PrefetcherDevice.DispatchingInBits` | GreenPAK/fpga-writer/Eclipse/GreenPAKWriter_BSP/drivers/src/altera_msgdma.c:1364-1395 | bit by bit, the same of the dispatcher word |
| `PrefetcherDevice.DispatcherWordDispatches` | GreenPAK/fpga-writer/Eclipse/GreenPAKWriter_BSP/drivers/src/altera_msgdma.c:1364-1395 | the dispatcher word ends with stop-descriptors clear, stop-on-error set, interrupts only for a callback, and the configured bits as they were |
| `PrefetcherDevice.StartRunsLast` | GreenPAK/fpga-writer/Eclipse/GreenPAKWriter_BSP/drivers/src/altera_msgdma.c:1369-1444 | in the order of writes RUN is set by the last one only, after both halves of the root address |
| `PrefetcherDevice.RunsLastInNumbers` | GreenPAK/fpga-writer/Eclipse/GreenPAKWriter_BSP/drivers/src/altera_msgdma.c:1411-1444 | in numbers: only the last write sets bit 0, and the words written to the LOW and HIGH registers before it make low + 2^32 * high the root address |
| `PrefetcherDevice.Device.Start` | GreenPAK/fpga-writer/Eclipse/GreenPAKWriter_BSP/drivers/src/altera_msgdma.c:1333-1456 | a running prefetcher is refused and untouched; otherwise its LOW and HIGH registers make low + 2^32 * high the root address, it runs with the options asked for, and RUN was written last, the dispatcher having been stopped and its status cleared first |
| `StdPrefetcher.Construct` | GreenPAK/fpga-writer/Eclipse/GreenPAKWriter_BSP/drivers/src/altera_msgdma.c:851-877 | a refused descriptor is untouched; an accepted one points to itself, carries the transfer, has GO set, is owned by software, and keeps every other control bit |
| `StdPrefetcher.AddToList` | GreenPAK/fpga-writer/Eclipse/GreenPAKWriter_BSP/drivers/src/altera_msgdma.c:1059-1100 | the result code exactly; a refused append changes nothing; an accepted one gives the ring s ++ [d]; a descriptor in the list is always refused; the walk terminates |
| `StdPrefetcher.SetOwnByHw` | GreenPAK/fpga-writer/Eclipse/GreenPAKWriter_BSP/drivers/src/altera_msgdma.c:1173-1224 | every descriptor of the list becomes hardware-owned, except the last as asked; links, transfers, other bits and other descriptors stay |
| `StdPrefetcher.StartWithList` | GreenPAK/fpga-writer/Eclipse/GreenPAKWriter_BSP/drivers/src/altera_msgdma.c:1476-1491 | the ownership pass, then the start on that root; the result code exactly |
| `StdPrefetcher.ConstructAll` | GreenPAK/fpga-writer/Eclipse/GreenPAKWriter_BSP/drivers/src/altera_msgdma.c:851-877 | all requests are constructed and carried, each descriptor linked to itself, exactly if the device can take every one; otherwise those before the first it cannot take; nothing else is touched |
| `StdPrefetcher.AddAll` | GreenPAK/fpga-writer/Eclipse/GreenPAKWriter_BSP/drivers/src/altera_msgdma.c:1059-1100 | appending distinct constructed descriptors in turn gives the ring of all of them in order, and changes no other link, no control word and no transfer |
| `StdPrefetcher.BuildAndStart` | GreenPAK/fpga-writer/Eclipse/GreenPAKWriter_BSP/drivers/src/altera_msgdma.c:1333-1491 | end to end: the LOW register holds the address of the first descriptor and HIGH zero; following links from there visits exactly the k descriptors in order and returns; each carries its request with GO set; ownership is as asked; RUN was written after the root address; no other descriptor is touched, whatever the result |
| `ExtPrefetcher.PointsTo` | GreenPAK/fpga-writer/Eclipse/GreenPAKWriter_BSP/drivers/src/altera_msgdma.c:1114-1119 | comparing both words compares the 64-bit addresses |
| `ExtPrefetcher.Construct` | GreenPAK/fpga-writer/Eclipse/GreenPAKWriter_BSP/drivers/src/altera_msgdma.c:891-938 | as for standard descriptors, with the stride limits, and a split self pointer |
| `ExtPrefetcher.AddToList` | GreenPAK/fpga-writer/Eclipse/GreenPAKWriter_BSP/drivers/src/altera_msgdma.c:1102-1161 | on the joined addresses, exactly the append of the standard encoding |
| `ExtPrefetcher.SetOwnByHw` | GreenPAK/fpga-writer/Eclipse/GreenPAKWriter_BSP/drivers/src/altera_msgdma.c:1236-1293 | on the joined addresses, exactly the ownership pass of the standard encoding |
| `ExtPrefetcher.StartWithList` | GreenPAK/fpga-writer/Eclipse/GreenPAKWriter_BSP/drivers/src/altera_msgdma.c:1493-1509 | the ownership pass, then the start on that root; the result code exactly |
| `ExtPrefetcher.ConstructAll` | GreenPAK/fpga-writer/Eclipse/GreenPAKWriter_BSP/drivers/src/altera_msgdma.c:891-938 | all requests are constructed and carried exactly if the device can take every one; nothing else is touched |
| `ExtPrefetcher.AddAll` | GreenPAK/fpga-writer/Eclipse/GreenPAKWriter_BSP/drivers/src/altera_msgdma.c:1102-1161 | appending distinct constructed descriptors in turn gives the ring of all of them in order |
| `ExtPrefetcher.BuildAndStart` | GreenPAK/fpga-writer/Eclipse/GreenPAKWriter_BSP/drivers/src/altera_msgdma.c:1333-1509 | end to end, as for standard descriptors: following the joined addresses from the root given to the device visits exactly the k descriptors in order and returns; no other descriptor is touched |
| `AlarmTimes.FireTimeIsSum` | GreenPAK/fpga-writer/Eclipse/GreenPAKWriter_BSP/HAL/src/alt_tick.c:107-118 | call k is due after the sum of the first k periods, and there is one exactly if none of them was zero |
| `AlarmTimes.FireTimesGrow` | GreenPAK/fpga-writer/Eclipse/GreenPAKWriter_BSP/HAL/src/alt_tick.c:105-118 | the due ticks of an alarm strictly increase while its callback returns non-zero |
| `AlarmTimes.FiredExactlyOnSchedule` | GreenPAK/fpga-writer/Eclipse/GreenPAKWriter_BSP/HAL/src/alt_tick.c:105-118 | an alarm that waits or has finished was called at precisely the due ticks up to now, once each, and never after returning zero |
| `AlarmList.Insert` | GreenPAK/fpga-writer/Eclipse/GreenPAKWriter_BSP/HAL/inc/sys/alt_llist.h:90-98 | inserting puts the entry right behind the head of the circular list; walks from the head come back to it if and only if the entry was not in the list already |
| `AlarmList.Remove` | GreenPAK/fpga-writer/Eclipse/GreenPAKWriter_BSP/HAL/inc/sys/alt_llist.h:105-117 | removing bridges the entry and links it to itself; a walk that was going on to some entry still comes to the head if and only if it is not the entry removed |
| `AlarmList.MidwayStep` | GreenPAK/fpga-writer/Eclipse/GreenPAKWriter_BSP/HAL/src/alt_tick.c:100-121 | while the list shrinks under the walk, the saved next pointer is the next entry of the list with which the tick began |
| `AlarmList.Scheduler.Start` | GreenPAK/fpga-writer/Eclipse/GreenPAKWriter_BSP/HAL/src/alt_alarm_start.c:64-98 | the result code exactly; a refused start changes nothing; an accepted alarm is put first in the list and first due at now + delay + 1; the list stays well formed if and only if the alarm was not registered already, and otherwise no walk from the head comes back |
| `AlarmList.Scheduler.Stop` | GreenPAK/fpga-writer/Eclipse/GreenPAKWriter_BSP/HAL/src/alt_tick.c:66-73 | exactly that alarm leaves the list, and stopping one that is out changes nothing |
| `AlarmList.Scheduler.Visit` | GreenPAK/fpga-writer/Eclipse/GreenPAKWriter_BSP/HAL/src/alt_tick.c:102-120 | a due alarm is called once and moved by what it returns, or unlinked for zero; one not due is unchanged |
| `AlarmList.Scheduler.Tick` | GreenPAK/fpga-writer/Eclipse/GreenPAKWriter_BSP/HAL/src/alt_tick.c:87-121 | each alarm registered at the start of a tick is visited exactly once, whatever earlier visits unlinked; after it every registered alarm is due later than now |
| `AlarmList.Scheduler.Run` | GreenPAK/fpga-writer/Eclipse/GreenPAKWriter_BSP/HAL/src/alt_tick.c:66-121 | over every run of ticks and of starts and stops of other alarms, every registered alarm is called at precisely the ticks of its schedule, and one that is not registered is untouched |
| `AlarmList.Scheduler.StartThenRun` | GreenPAK/fpga-writer/Eclipse/GreenPAKWriter_BSP/HAL/src/alt_alarm_start.c:71-87 | an alarm started at tick n with delay d whose callback returns p1, p2, ... is called at n+d+1, n+d+1+p1, ..., until a zero, and at no other tick, whatever is started and stopped beside it |
| `AlarmList.Scheduler.StopThenRun` | GreenPAK/fpga-writer/Eclipse/GreenPAKWriter_BSP/HAL/src/alt_tick.c:66-73 | an alarm that is stopped is not called again, whatever happens to the others |
| `WrappedLog.LinesFit` | GreenPAK/fpga-writer/Eclipse/GreenPAKWriter/main.c:104-119 | every line has at most 96 characters and the one being written fewer |
| `WrappedLog.LinesLoseNothing` | GreenPAK/fpga-writer/Eclipse/GreenPAKWriter/main.c:104-119 | wrapping only breaks the log: its lines joined are its characters without the newlines |
| `WrappedLog.LinesWrap` | GreenPAK/fpga-writer/Eclipse/GreenPAKWriter/main.c:104-119 | the lines, put together with their breaks, are the log: no line contains a line feed or carriage return, and each but the last ends at 96 characters with no break, or earlier at one of those two |
| `WrappedLog.WrappingIsUnique` | GreenPAK/fpga-writer/Eclipse/GreenPAKWriter/main.c:104-119 | and no other lines do that |
| `WrappedLog.DisplayLonger` | GreenPAK/fpga-writer/Eclipse/GreenPAKWriter/main.c:111-114 | a stored character shows at the end of the last line and nowhere else |
| `WrappedLog.DisplayNewLine` | GreenPAK/fpga-writer/Eclipse/GreenPAKWriter/main.c:128-134 | blanking the next row shows a new empty line and drops only the one 64 lines back |
| `WrappedLog.ScreenShowsLastLines` | GreenPAK/fpga-writer/Eclipse/GreenPAKWriter/main.c:120-127 | 30 rows from the right scroll value show the last 30 lines, or all lines and then blanks |
| `Console.Console.constructor` | GreenPAK/fpga-writer/Eclipse/GreenPAKWriter/main.c:206-215 | `init` leaves a text RAM of 64 blank rows |
| `Console.Console.Put` | GreenPAK/fpga-writer/Eclipse/GreenPAKWriter/main.c:104-135 | after every character, text-RAM row L mod 64 holds line L of the wrapped log, padded to 128 columns, for each of the last 64 lines |
| `Console.Console.KxLog` | GreenPAK/fpga-writer/Eclipse/GreenPAKWriter/main.c:87-136 | a text shorter than 128 is logged character by character; an error or a longer text changes nothing; the terminator is stored behind the buffer if and only if the length is 128 |
| `Console.TerminatorFits` | GreenPAK/fpga-writer/Eclipse/GreenPAKWriter/main.c:94-98 | for every formatted length the store is in bounds or not reached, if and only if the length is not 128 |
| `Console.Console.CellsHoldLog` | GreenPAK/fpga-writer/Eclipse/GreenPAKWriter/main.c:104-135 | cell by cell: text-RAM row L mod 64 holds line L and then blanks, for each of the last 64 lines |
| `Console.Console.CellsShowLog` | GreenPAK/fpga-writer/Eclipse/GreenPAKWriter/main.c:120-127 | cell by cell: the 30 rows from the scroll register on hold the last 30 lines, or all of them and then blanks |
| `Console.Console.ScreenShowsLog` | GreenPAK/fpga-writer/Eclipse/GreenPAKWriter/main.c:120-127 | once something is logged, and before 2^32 lines, the screen shows the last 30 lines of the wrapped log |
| `Console.RowOfCount` | GreenPAK/fpga-writer/Eclipse/GreenPAKWriter/main.c:113 | the 32-bit line count names the right row even after wrapping |
| `Console.ScrollIsRightUnlessWrapped` | GreenPAK/fpga-writer/Eclipse/GreenPAKWriter/main.c:120-127 | the scroll register is right exactly if the line count has not wrapped, or is 29 or more since |
| `ChimeMachine.BuzzerKeepsInv` | CH32v003/ch32v003-keplerx/src/kx_buzzer.h:33-91 | every buzzer poll keeps the handshake and request invariant, and the note it divides by has a frequency |
| `ChimeMachine.MmcKeepsInv` | CH32v003/ch32v003-keplerx/src/kx_mmc.h:36-176 | every card poll keeps it, and reads the chime table within its bounds |
| `ChimeMachine.EveryRunChimes` | CH32v003/ch32v003-keplerx/src/kx_mmc.h:62-175 | over every run: the notes requested are a prefix of whole chimes of alternating kind; each request gives one PLAYING episode; while playing, the request stands unacknowledged and the note is 8, 10 or 12; MMC_n is high throughout ATTACHING |
| `ChimeMachine.HandshakeMovesForward` | CH32v003/ch32v003-keplerx/src/kx_buzzer.h:43-90 | (req, ack) moves only 00, 10, 11, 01, 00 |
| `ChimeMachine.NoteIsConstantWhilePlaying` | CH32v003/ch32v003-keplerx/src/kx_buzzer.h:54-81 | request, note and length stand still while the buzzer plays |
| `ChimeMachine.HistoryOnlyGrows` | CH32v003/ch32v003-keplerx/src/kx_mmc.h:64-75 | the first look at the slot fixes which chime comes first, for good; notes are only added |
| `ChimeMachine.MmcGoesLowOnlyAfterAttachChime` | CH32v003/ch32v003-keplerx/src/kx_mmc.h:96-118 | MMC_n goes low again only with no chime under way and a whole attach chime behind it, or with the card there from the start |
| `ChimeLaws.NotesSpelled` | CH32v003/ch32v003-keplerx/src/kx_mmc.h:28-29 | over every run the notes are 8, 10, 12 for a card put in and 12, 10, 8 for one taken out, in turn |
| `ChimeLaws.StatusShowsPins` | CH32v003/ch32v003-keplerx/src/kx_mmc.h:45-60 | the card bits of the status register are the pins at the last card poll |
| `ChimeLaws.CardPollFollows` | CH32v003/ch32v003-keplerx/src/kx_mmc.h:96-174 | outside a chime, a card that has come or gone starts its chime from the first note at that poll, and otherwise state and MMC_n are those the pins call for: Detached and high without a card, Ready or Attached and low with one, as it is selected or not |
| `ChimeLaws.EveryRunFollowsPins` | CH32v003/ch32v003-keplerx/src/kx_mmc.h:62-175 | over every run, if no chime was under way when the last card poll began, and none is now, state and MMC_n are those its pins call for |
| `ChimeLaws.SteadyPinsAreFollowed` | CH32v003/ch32v003-keplerx/src/main_keplerx.c:137-168 | pins that stay are followed after finitely many turns of the main loop, for good |
| `ChimeLaws.NoteSounds` | CH32v003/ch32v003-keplerx/src/kx_buzzer.h:54-81 | a note ends with the first poll more than 80 ms after its start; until then each poll more than 1915, 1519 or 1278 microseconds after the last edge drives the pin |
| `ChimeLaws.NoteStarts` | CH32v003/ch32v003-keplerx/src/kx_buzzer.h:45-53 | a note starts at the poll that finds its request |
| `ChimeLaws.PinAlternates` | CH32v003/ch32v003-keplerx/src/kx_buzzer.h:67-80 | over every run the pin alternates while a note plays, low first |
| `ChimeProgress.ElapsedAdds` | CH32v003/ch32v003-keplerx/src/kx_buzzer.h:60 | elapsed ticks add up across the wrap of the 32-bit counter |
| `ChimeProgress.TurnComesNearer` | CH32v003/ch32v003-keplerx/src/main_keplerx.c:160-163 | each turn of the main loop lowers (notes left, handshake phase, ticks left), given that the tick advances by at least 1 and less than 2^32 minus the note |
| `ChimeProgress.EveryChimeEnds` | CH32v003/ch32v003-keplerx/src/main_keplerx.c:137-168 | whatever the pins do, a chime under way is over after finitely many turns |
| `KeplerX.KeplerX.PollBuzzerMachine` | CH32v003/ch32v003-keplerx/src/kx_buzzer.h:33-91 | the in-place buzzer poll is the machine's |
| `KeplerX.KeplerX.Chime` | CH32v003/ch32v003-keplerx/src/kx_mmc.h:76-95 | the in-place chime states are the machine's |
| `KeplerX.KeplerX.PollMmcMachine` | CH32v003/ch32v003-keplerx/src/kx_mmc.h:36-176 | the in-place card poll is the machine's |
| `KeplerX.KeplerX.constructor` | CH32v003/ch32v003-keplerx/src/main_keplerx.c:121-134 | the initial context and machines start the runs |
| `KeplerX.KeplerX.MainLoop` | CH32v003/ch32v003-keplerx/src/main_keplerx.c:137-168 | n turns of the main loop are n turns of the machines, with alternating buzzer and card polls |
| `KeplerX.KeplerX.LoopThroughChime` | CH32v003/ch32v003-keplerx/src/main_keplerx.c:137-168 | the main loop comes out of every chime after finitely many turns, whatever the pins do, and stays in its state until then |
| `I2cReceive.FullCountMeansNoDiscard` | GreenPAK/fpga-writer/Eclipse/GreenPAKWriter_BSP/drivers/src/altera_avalon_i2c.c:842-847 | as many bytes kept as produced means none was discarded and they are the bytes produced, in order |
| `I2cReceive.AddressByte` | GreenPAK/fpga-writer/Eclipse/GreenPAKWriter_BSP/drivers/src/altera_avalon_i2c.c:418 | the address byte has the 7-bit address above the read bit, as in section 3.1.10 of NXP UM10204 |
| `I2cReceive.I2cCore.CmdWrite` | GreenPAK/fpga-writer/Eclipse/GreenPAKWriter_BSP/drivers/src/altera_avalon_i2c.c:372-402 | a command is written exactly once, also if a NACK or a lost arbitration is then reported, unless 10000 looks found no room |
| `I2cReceive.I2cCore.Enable` | GreenPAK/fpga-writer/Eclipse/GreenPAKWriter_BSP/drivers/src/altera_avalon_i2c.c:210-232 | an enabled core is refused and untouched |
| `I2cReceive.I2cCore.RxReadAvailable` | GreenPAK/fpga-writer/Eclipse/GreenPAKWriter_BSP/drivers/src/altera_avalon_i2c.c:337-347 | what it puts in the buffer is what it took from the FIFO, within the buffer |
| `I2cReceive.I2cCore.RxRead` | GreenPAK/fpga-writer/Eclipse/GreenPAKWriter_BSP/drivers/src/altera_avalon_i2c.c:350-369 | success means one byte of the FIFO in order; a timeout that 100000 looks found it empty |
| `I2cReceive.I2cCore.SendCommands` | GreenPAK/fpga-writer/Eclipse/GreenPAKWriter_BSP/drivers/src/altera_avalon_i2c.c:819-840 | one read command for each byte, the last with the stop flag; bytes that come meanwhile are stored in order |
| `I2cReceive.I2cCore.ReadRest` | GreenPAK/fpga-writer/Eclipse/GreenPAKWriter_BSP/drivers/src/altera_avalon_i2c.c:842-847 | success means that the buffer is exactly what came out of the FIFO |
| `I2cReceive.ReceiveCommandsAre` | GreenPAK/fpga-writer/Eclipse/GreenPAKWriter_BSP/drivers/src/altera_avalon_i2c.c:819-839 | the address byte with the start flag for a restart, then one read command for each byte, of which only the last has the stop flag, if asked for |
| `I2cReceive.I2cCore.MasterReceive` | GreenPAK/fpga-writer/Eclipse/GreenPAKWriter_BSP/drivers/src/altera_avalon_i2c.c:787-871 | never writes behind buffer[size); success means the buffer is exactly the bytes produced for `size` read commands, in order, with none discarded, and that exactly size + 1 commands were written, the address byte first and the stop flag on the last one only, if asked for; every exit with stop or an error, except BUSY, leaves the core disabled |
| `I2cSpeed.Config.SpeedSet` | GreenPAK/fpga-writer/Eclipse/GreenPAKWriter_BSP/drivers/src/altera_avalon_i2c.c:287-321 | a speed above 400 kHz or of 0 changes nothing; another gives l - 60 and l + 60 for the l whole clock ticks of half a period, a hold time of half the low count rounded up, and fast mode above 100 kHz |
| `I2cSpeed.HoldIsHalf` | GreenPAK/fpga-writer/Eclipse/GreenPAKWriter_BSP/drivers/src/altera_avalon_i2c.c:303-317 | the hold count is half the low count, rounded up |
| `I2cSpeed.Config.SpeedGet` | GreenPAK/fpga-writer/Eclipse/GreenPAKWriter_BSP/drivers/src/altera_avalon_i2c.c:270-283 | zero counts are refused; others give the quotient by their sum |
| `I2cSpeed.ReadBackDivides` | GreenPAK/fpga-writer/Eclipse/GreenPAKWriter_BSP/drivers/src/altera_avalon_i2c.c:280 | after a speed was set, that sum is not zero if and only if the speed is at most half the clock |
| `I2cSpeed.CountsAddUp` | GreenPAK/fpga-writer/Eclipse/GreenPAKWriter_BSP/drivers/src/altera_avalon_i2c.c:300-304 | the two adjustments cancel, even when they wrap: the counts add up to the whole period |
| `I2cSpeed.Adjoint` | GreenPAK/fpga-writer/Eclipse/GreenPAKWriter_BSP/drivers/src/altera_avalon_i2c.c:270-304 | setting and reading back are a Galois connection |
| `I2cSpeed.ReadBackIsGreatest` | GreenPAK/fpga-writer/Eclipse/GreenPAKWriter_BSP/drivers/src/altera_avalon_i2c.c:270-304 | the speed read back is at least the one set, is the greatest with the same counts, and gives the same counts when set again |
| `I2cSpeed.CountsDetermineHalfPeriod` | GreenPAK/fpga-writer/Eclipse/GreenPAKWriter_BSP/drivers/src/altera_avalon_i2c.c:300-317 | different half periods give different counts |
| `I2cSpeed.SetGetSet` | GreenPAK/fpga-writer/Eclipse/GreenPAKWriter_BSP/drivers/src/altera_avalon_i2c.c:270-321 | setting what was read back is accepted exactly if it is at most 400 kHz, and leaves the same counts either way |
| `I2cSpeed.ReadBackMayBeOutOfRange` | GreenPAK/fpga-writer/Eclipse/GreenPAKWriter_BSP/drivers/src/altera_avalon_i2c.c:293-297 | it can be refused: the read-back of 400 kHz from a 50.3 MHz clock |
| `I2cSpeed.RegistersKeepCounts` | GreenPAK/fpga-writer/Eclipse/GreenPAKWriter_BSP/drivers/src/altera_avalon_i2c.c:250-264 | the 16-bit registers keep the counts exactly if the half period is from 60 to 65475 |
| `Numerals.ValueOfDigits` | GreenPAK/fpga-writer/Eclipse/GreenPAKWriter_BSP/HAL/src/alt_log_printf.c:247-296 | the digits printed evaluate back to the value |
| `Numerals.DigitsAreCanonical` | GreenPAK/fpga-writer/Eclipse/GreenPAKWriter_BSP/HAL/src/alt_log_printf.c:247-296 | they have no superfluous leading zero |
| `Numerals.DigitsOfValue` | GreenPAK/fpga-writer/Eclipse/GreenPAKWriter_BSP/HAL/src/alt_log_printf.c:247-296 | they are the only such digits |
| `Numerals.PlaceAbove` | GreenPAK/fpga-writer/Eclipse/GreenPAKWriter_BSP/HAL/src/alt_log_printf.c:248-255 | dividing once more takes off one digit and moves the place value up one place |
| `Numerals.PrintAtPlace` | GreenPAK/fpga-writer/Eclipse/GreenPAKWriter_BSP/HAL/src/alt_log_printf.c:282-296 | dividing by a place value gives the next digit after those already printed |
| `Printers.FieldWidth` | GreenPAK/fpga-writer/Eclipse/GreenPAKWriter_BSP/HAL/src/alt_log_printf.c:257-279 | the field is as long as the larger of the width and digits plus sign |
| `Printers.PrintedNumberReadsBack` | GreenPAK/fpga-writer/Eclipse/GreenPAKWriter_BSP/HAL/src/alt_log_printf.c:282-296 | the characters printed read back as the number |
| `Printers.RenderedSpelled` | GreenPAK/fpga-writer/Eclipse/GreenPAKWriter_BSP/HAL/src/alt_log_printf.c:286-292 | digits are 0-9 and a-f, or A-F for `%X` |
| `Printers.FieldSpelled` | GreenPAK/fpga-writer/Eclipse/GreenPAKWriter_BSP/HAL/src/alt_log_printf.c:257-297 | the field is zeros between sign and digits, or blanks before the sign, up to the width |
| `Printers.FieldReadsBack` | GreenPAK/fpga-writer/Eclipse/GreenPAKWriter_BSP/HAL/src/alt_log_printf.c:238-297 | every field, its blanks stripped, reads back as the signed number |
| `Printers.Uart.RepChar` | GreenPAK/fpga-writer/Eclipse/GreenPAKWriter_BSP/HAL/src/alt_log_printf.c:106-110 | a character is repeated r times, not at all for a negative r |
| `Printers.LargestPlace` | GreenPAK/fpga-writer/Eclipse/GreenPAKWriter_BSP/HAL/src/alt_log_printf.c:247-255 | the digit count is right, and the place value is the base to its power less one, computed without 32-bit overflow |
| `Printers.PrintPlaces` | GreenPAK/fpga-writer/Eclipse/GreenPAKWriter_BSP/HAL/src/alt_log_printf.c:281-296 | the digit loop prints exactly the digits and reaches place value 0 after them |
| `Printers.PrintLead` | GreenPAK/fpga-writer/Eclipse/GreenPAKWriter_BSP/HAL/src/alt_log_printf.c:257-279 | the sign goes before padding zeros and after padding blanks |
| `Printers.PrintInteger` | GreenPAK/fpga-writer/Eclipse/GreenPAKWriter_BSP/HAL/src/alt_log_printf.c:206-297 | for every 32-bit argument, INT_MIN included, the output is the field of its sign and magnitude, and reads back as the argument |
| `BitWords.MaskedNibbleIsDigit` | GreenPAK/fpga-writer/Eclipse/GreenPAKWriter_BSP/HAL/src/alt_printf.c:106 | masking four bits of a 32-bit word and shifting them down gives that hexadecimal digit of its number |
| `Printers.NibbleIsDigit` | GreenPAK/fpga-writer/Eclipse/GreenPAKWriter_BSP/HAL/src/alt_printf.c:98-106 | the nibble cut out at a shift of 4i is the next hexadecimal digit after those above it |
| `Printers.FirstDigit` | GreenPAK/fpga-writer/Eclipse/GreenPAKWriter_BSP/HAL/src/alt_printf.c:98-101 | the search stops at the first non-zero digit, and never runs past the last |
| `Printers.PrintHex` | GreenPAK/fpga-writer/Eclipse/GreenPAKWriter_BSP/HAL/src/alt_printf.c:84-113 | `%x` prints exactly the hexadecimal digits, without leading zeros |
| `Printers.PrintersAgree` | GreenPAK/fpga-writer/Eclipse/GreenPAKWriter_BSP/HAL/src/alt_printf.c:84-113 | both printers emit the same characters for `%x` without a width |
| `TimeOfDay.Clock.Set` | GreenPAK/fpga-writer/Eclipse/GreenPAKWriter_BSP/HAL/src/alt_settod.c:72-96 | the reset time is the time set less what the ticks so far count for; without a clock nothing changes |
| `TimeOfDay.Clock.Get` | GreenPAK/fpga-writer/Eclipse/GreenPAKWriter_BSP/HAL/src/alt_gettod.c:71-124 | the reading is reset time plus ticks, normalised, unless it is negative and cut off at zero; at most one normalisation turn within one second of range |
| `TimeOfDay.ElapsedSpelled` | GreenPAK/fpga-writer/Eclipse/GreenPAKWriter_BSP/HAL/src/alt_gettod.c:91-93 | in plain arithmetic, n ticks count for n/rate seconds and n*(1000000/rate) mod 1000000 microseconds |
| `TimeOfDay.ElapsedIsLinear` | GreenPAK/fpga-writer/Eclipse/GreenPAKWriter_BSP/HAL/src/alt_gettod.c:91-93 | when the rate divides a million, n ticks count for n times 1000000/rate |
| `TimeOfDay.ElapsedIsLinearOnlyIfRateDivides` | GreenPAK/fpga-writer/Eclipse/GreenPAKWriter_BSP/HAL/src/alt_gettod.c:91-93 | and only then |
| `TimeOfDay.ReadingNeverGoesBack` | GreenPAK/fpga-writer/Eclipse/GreenPAKWriter_BSP/HAL/src/alt_gettod.c:91-93 | no tick reads earlier than the one before if and only if the rate divides a million or exceeds it |
| `TimeOfDay.SomeReadingDrops` | GreenPAK/fpga-writer/Eclipse/GreenPAKWriter_BSP/HAL/src/alt_gettod.c:91-93 | for every other rate, a tick that reads earlier than the one before |
| `TimeOfDay.ReadingMayGoBack` | GreenPAK/fpga-writer/Eclipse/GreenPAKWriter_BSP/HAL/src/alt_gettod.c:71-124 | a clock of 3 ticks a second, set to 0, reads 1.999999 s and one tick later 1.333332 s |
| `TimeOfDay.ElapsedSince` | GreenPAK/fpga-writer/Eclipse/GreenPAKWriter_BSP/HAL/src/alt_settod.c:82-84 | what was subtracted when setting is what has to be added when reading |
| `TimeOfDay.SetThenGet` | GreenPAK/fpga-writer/Eclipse/GreenPAKWriter_BSP/HAL/src/alt_gettod.c:89-112 | set, k ticks, read, at any rate: t plus what those ticks count for, or zero if and only if that is negative; t itself for k = 0; for a rate that divides a million, t + k*(1000000/rate), with no clamp and at most one normalisation turn |
| `FdTable.Table.constructor` | GreenPAK/fpga-writer/Eclipse/GreenPAKWriter_BSP/HAL/src/alt_dev.c:118-149 | the pool starts with three standard descriptors, nothing else open and a high-water mark of -1 |
| `FdTable.Table.GetFd` | GreenPAK/fpga-writer/Eclipse/GreenPAKWriter_BSP/HAL/src/alt_get_fd.c:54-101 | the first free descriptor is claimed and the high-water mark kept; failure means that none is free |
| `FdTable.Table.ReleaseFd` | GreenPAK/fpga-writer/Eclipse/GreenPAKWriter_BSP/HAL/src/alt_release_fd.c:44-51 | the descriptor becomes blank, unless it is a standard one |
| `FdTable.Table.FileLocked` | GreenPAK/fpga-writer/Eclipse/GreenPAKWriter_BSP/HAL/src/alt_open.c:64-92 | the scan up to the high-water mark finds a lock exactly if the whole table holds one |
| `FdTable.Table.Claim` | GreenPAK/fpga-writer/Eclipse/GreenPAKWriter_BSP/HAL/src/alt_open.c:130-143 | a claimed descriptor has its flags cleared and the DEV flag set for a device; a lock on that device anywhere is found |
| `FdTable.Table.Open` | GreenPAK/fpga-writer/Eclipse/GreenPAKWriter_BSP/HAL/src/alt_open.c:105-171 | it fails exactly for no device, a full table, a locked device or a failing callback; a failed open leaves every entry as before; exclusiveness is kept |
| `FdTable.Table.Close` | GreenPAK/fpga-writer/Eclipse/GreenPAKWriter_BSP/HAL/src/alt_close.c:64-101 | the descriptor is freed and exclusiveness kept, whatever the callback answers |
| `FdTable.Table.Lock` | GreenPAK/fpga-writer/Eclipse/GreenPAKWriter_BSP/HAL/src/alt_fd_lock.c:54-75 | refused exactly if a descriptor below the high-water mark shares the device; when granted, exclusiveness is kept exactly if no other descriptor shares it |
| `FdTable.Table.Unlock` | GreenPAK/fpga-writer/Eclipse/GreenPAKWriter_BSP/HAL/src/alt_fd_unlock.c:52-56 | only that lock is dropped |
| `FdTable.Table.Ioctl` | GreenPAK/fpga-writer/Eclipse/GreenPAKWriter_BSP/HAL/src/alt_ioctl.c:106-139 | lock requests reach only descriptors of devices |
| `FdTable.LockKeepsAlone` | GreenPAK/fpga-writer/Eclipse/GreenPAKWriter_BSP/HAL/src/alt_fd_lock.c:54-75 | a lock is exclusive exactly if no other descriptor shares its device |
| `FdTable.Run` | GreenPAK/fpga-writer/Eclipse/GreenPAKWriter_BSP/HAL/src/alt_open.c:105-171 | over every run locks stay exclusive up to the first request whose scan overlooks a descriptor, and that request breaks them |
| `FdTable.LockOverlooksTopDescriptor` | GreenPAK/fpga-writer/Eclipse/GreenPAKWriter_BSP/HAL/src/alt_fd_lock.c:61-68 | such a run: two opens of one device, then the lower descriptor is granted the lock |

## Left out

- `JtagUart.JtagUart.Write`: a spin need not end, since the hardware may never drain; `done` is false for a call that is still spinning, and nothing is said about when it ends. The other thread's calls are interleaved in `JtagMachine`, not in this method.
- `JtagUart.JtagUart.Read`: as for `Write`.
- JTAG UART: the small driver, pending on flags under an operating system, the variant that ignores a full FIFO, `close` and `ioctl`.
- `StdPrefetcher.StartWithList`: the optional data-cache flush has no effect in this memory model.
- mSGDMA: synchronous and asynchronous transfers, the interrupt handler and callback registration.
- `ExtPrefetcher.Construct`: the ten transfer fields are one value, so that no order of writing them is modelled.
- `AlarmList.Scheduler.Tick`: ticks are unbounded, so the wrap of the 64-bit counter is not modelled; a callback is a function of how often it was called and starts and stops no alarm itself. Which such unlinking would be harmless is stated by `AlarmList.Remove`.
- `AlarmList.Scheduler.Run`: a caller starts an alarm only if it is out of the list, and stops it only if it has been started; calls for the watched alarm are not part of the run.
- `Console.Console.KxLog`: what happens after the store behind the buffer is not modelled. Formatting itself is the C library's.
- `KeplerX.KeplerX.PollMmcMachine`: the colour LED writes are left out; they feed nothing back.
- `ChimeProgress.TurnComesNearer`: the ticks per millisecond and microsecond come from a header that is not part of this model, and are parameters.
- Kepler-X: the status LED and the WM8804 poll, and the debug dump.
- `I2cReceive.I2cCore.MasterReceive`: the receive FIFO is empty at the start; 10-bit addresses, the interrupt-driven variants and the transmit side are left out, and time spent sleeping is not modelled.
- `I2cSpeed.Config.SpeedGet`: counts that add up to 0 modulo 2^32 are excluded, because the code would divide by zero.
- `Printers.PrintInteger`: the parsing of the format string and of its arguments, `%s` and `%c`, are left out.
- `TimeOfDay.Clock.Get`: `time_t` and the 64-bit product of ticks and microseconds do not wrap here.
- `FdTable.Table.Close`: closing a descriptor that is not open follows a null pointer in the code and is excluded; driver callbacks do not touch the table, nor is the redirection of the standard streams modelled.
- GreenPAK memory programming, linker scripts, stub system calls, and the read, write and seek dispatch: device input and output, or thin wrappers.
