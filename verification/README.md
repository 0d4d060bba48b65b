# Monitor board firmware: verified models

Dafny models of the algorithms of an STM32F407 monitor board: the firmware
download over CAN into NOR flash, the plate-contact judgement, the thermistor
lookup, and the driver algorithms below them. Each module follows one source
file. Code that updates state is a class or an array method that is proved
against a specification function; the properties of that function are lemmas
over every input, every run, or every interleaving.

| module | source | what is proved |
|---|---|---|
| Ota | applications/ota_handle.c | the download session over a lossy channel and failing flash |
| CanRx | applications/can.c | the receive loop: which frames lead to which session |
| NorFlash | drivers/drv_flash_f4.c, FAL partitions | the mixed-width write loop, sector erase, partition layer |
| Crc16, CrcPeriod | applications/normal_calc.c | the two-table CRC against the bit-serial one, its period, and what it detects |
| MedianFilter, PlateJudge | applications/median_filter.c, applications/lcr_task.c | median of the last window; hysteresis, hold-off, reports |
| NtcTemperature | applications/normal_calc.c | binary search refines the sequential scan; shape of the curve |
| UartDmaRx | drivers/drv_usart_v2.c | every received byte is reported once, in order |
| EthCopy | drivers/drv_eth.c | gather and scatter between pbuf chains and descriptor rings |
| Pwm, SysTickDelay, GpioIrq | drivers/drv_pwm.c, drv_common.c, drv_gpio.c | register arithmetic, busy delay, interrupt line sharing |

Chains holds what Ota and EthCopy share. `dafny verify dfyconfig.toml` checks
everything.

## What the environment may do

- **Channel.** A run of the download is any sequence of start requests, data
  frames and timeouts: frames may be lost, repeated, reordered or made up.
  Replies are recorded when they are handed to the transmit queue, which may
  still drop them.
- **Flash.** Programming clears bits and never sets them. A program may clear
  only some of the bits it should and may report success or failure either way;
  only the driver's read-back decides. An erase may fail and leave anything in
  its sector. `healthy` says of one call that the hardware worked throughout.
- **FAL.** A partition access is a range check, then the driver at base plus
  offset. The lookups of the download partition and of its device may fail.
  Writing through a missing partition runs into an assert that does not return,
  so the session ends there; a CPU reset and a timeout end it as well.
- **Numbers.** Floats are reals. The conversion of the filtered value to 32 bits
  truncates and saturates. Where the source wraps at 8, 16 or 32 bits, so does
  the model.
- **UART.** IDLE does not run before a pending TC, which has the higher priority;
  the unreported backlog stays within the ring, and handlers are atomic: no byte
  arrives between the masking of interrupts and the reading of the DMA counter. A
  byte that wraps the ring in that gap of the IDLE handler would lead to the
  double report below.
- **SysTick.** The polls of the delay loop happen at arbitrary, ever later moments.

## Where the code does less than it seems to promise

Each has a lemma that says exactly when the promise holds, most with a concrete
failing case beside it.

- A start request is accepted below 512 KiB but the download partition has
  384 KiB; a session can reach a verdict iff its size fits the partition
  (`CompletableIffFits`, `AcceptedButTooLarge`).
- Data frames are looked at after any start request, accepted or not. After a
  refused one there is a partition to write to iff one was found before (size
  refused) or is found now (erase failed); block 0 is then taken iff the bytes
  left there can be programmed to it, and without a partition it takes the board
  down (`RefusedStart`, `BlockZeroAfterRefusal`, `OversizedStartThenBlockZero`).
- After a failed verdict the board stays up, takes further frames as before, and
  gives a new verdict with each (`VerdictStep`, `FirstVerdict`,
  `ExpectedBlockTakenIff`).
- Every odd filter window is accepted, but the filter answers as a median filter
  for every history iff its size is at most 255 (`AnswersFilteredIff`). Above
  that it returns its input, and on every 256th call the median of the last 256
  inputs together with cells that were never written (`LargeWindowAnswers`,
  `LargeWindowFails`).
- Five outliers in eleven never raise ERROR once the window is full, but before
  that a single one does (`ErrorEntryIff`, `EarlyCap`, `OneOutlierFails`).
- There is no dead band between HALF and OK (`HalfOkBoundary`,
  `HalfOkDeadBandFails`), and a filtered value of exactly 5000000, alone among
  all values, moves no state (`HoldsEveryStateIff`).
- The re-arm test compares the unscaled measurement with a limit meant for the
  scaled one (applications/lcr_task.c:56 and :61): while the filtered value is
  not above the limit, ERROR is re-armed iff the scaled measurement is above
  5000 million (`RearmIff`, `RareShortsDoNotRearm`, `ScaledShortsDoNotRearm`).
- A voltage above the reference reads as the hot end (`VoltageAntitoneIff`,
  `VoltageAntitoneFails`).
- A full PWM duty cycle gives equal registers iff the period has at least three
  counts (`FullDutyIff`, `FullDutyFails`), and the period read back wraps at
  32 bits (`ReadBackExactIff`, `ReadBackFails`).
- The tick count of a long delay wraps at 32 bits (`TicksExactIff`, `TicksFail`).
- IDLE before a pending TC makes the two report a ring too much unless a full
  ring is outstanding (`IdleBeforeTcDoubleReports`, `IdleBeforeTcCanHappen`).
- A chain longer than a free transmit ring is not noticed: it is handed to the
  DMA, and uses a descriptor twice iff it does not fit (`EthTx.Transmit`,
  `DistinctIffFits`, `OverlongTakesAll`).
- The CRC finds two flipped bits iff they are not a multiple of 32767 apart, and
  an image is longer than that (`TwoBitErrors`, `TwoBitErrorsFail`).
- The flash range check looks at the end of the range only (`RangeCheckExactIff`,
  `RangeCheckFails`); partitions lie where that is enough (`RangeCheckExactOnPartitions`).
- Detaching a pin leaves its interrupt enabled. Enabled implies attached at every
  moment of a run iff no call detaches a pin that is enabled at the time
  (`AlwaysAttachedIff`, `OrphanIff`, `EnabledWithoutHandler`). It also frees the
  slot of a pin of the same number on another port (`DetachTakesOtherIff`).

## Model

| member | source | states |
|---|---|---|
| Ota.PrefixInvariant | applications/ota_handle.c:120-204 | In every run since boot the flash prefix is the in-order concatenation of the blocks acknowledged with 1 since the last start, file_write_size is 8 times their number, and file_crc_cur is the CRC of exactly those bytes. |
| Ota.DataStep | applications/ota_handle.c:161-204 | A frame answered 1 was the next expected one and extends the acknowledged blocks by itself; any other frame keeps counter, CRC and flash prefix. |
| Ota.StartStep | applications/ota_handle.c:120-159 | A start request, accepted or refused, begins an empty session. |
| Ota.StaleFramesChangeNothing | applications/ota_handle.c:164-203 | Taking every duplicate and out-of-order frame out of any run leaves the same final state and acknowledged blocks; while the board is up each of them is answered 0. |
| Ota.AcceptedIffAnsweredOne | applications/ota_handle.c:131-157 | A start is answered 1 exactly when the size is below the limit, the partition is found and the erase succeeds, and then the flash is blank and the session empty. |
| Ota.ReadyRun | applications/ota_handle.c:161-204 | Through any failed partial writes the flash holds a prefix of the image and every later cell keeps all the 1-bits of its image byte. |
| Ota.RetrySucceeds | applications/ota_handle.c:164-203 | After any such run the expected frame on working hardware is acknowledged iff its block still fits the partition. |
| Ota.SessionInvariant | applications/ota_handle.c:161-204 | Within one session the announced size and CRC never change and the counters match the acknowledged blocks. |
| Ota.VerdictStep | applications/ota_handle.c:172-193 | A frame's replies in full: acknowledgement with its index, and an end reply exactly when enough bytes are in, saying whether the CRC of all acknowledged bytes is the announced one; the board stays up unless it says yes. |
| Ota.FrameAnswered | applications/ota_handle.c:161-204 | With the board up, a start served and a partition found, a data frame gets exactly one block reply, with its own id: 1 iff it was the expected one and was written, else 0 and nothing more. |
| Ota.EveryFrameAnswered | applications/ota_handle.c:161-204 | In every run each such frame has that answer in its place among the replies. |
| Ota.OtaOnStep | applications/ota_handle.c:151-182 | ota_on is set by an accepted start, cleared by the success reply, and by nothing else. |
| Ota.FirstVerdict | applications/ota_handle.c:126-193 | The first end reply of an accepted session comes exactly with block max(1, ceil(total/8)), and no 16-bit frame id repeats before it; it and every later acknowledgement say whether the CRC of everything acknowledged is the announced one. |
| Ota.CorruptImageRejected | applications/ota_handle.c:176-193 | An image altered in a burst of at most 16 bits, in an odd number of bits, or in two bits not a multiple of 32767 apart is not declared good by the first verdict of its session. |
| Ota.HonestSession | applications/ota_handle.c:161-204 | When frame k always carries block k of the announced image, then in every run of lost, repeated, reordered and half-written frames the only verdict ever sent is success, it is sent iff every block is acknowledged, and then the board is down with the image in its flash. |
| Ota.ResumeRun | applications/ota_handle.c:161-204 | After any such run that is not yet judged, the remaining blocks in order on working hardware are all acknowledged, whatever else the flash driver may do. |
| Ota.ResumeSucceeds | applications/ota_handle.c:161-204 | If the image fits, they end in the success reply with the image in the flash. |
| Ota.ResumePossible | applications/ota_handle.c:161-204 | And such a continuation always exists. |
| Ota.RefusedStart | applications/ota_handle.c:131-157 | A start answered 0 still opens an empty session; there is a partition iff one was found before and the size was refused, or one is found now; only a failed erase changed the flash. |
| Ota.ExpectedBlockTakenIff | applications/ota_handle.c:164-171 | In any session the expected block, on working hardware, is acknowledged iff there is a partition, it fits and its place can still be programmed to it; without a partition the board goes down and sends nothing. |
| Ota.BlockZeroAfterRefusal | applications/ota_handle.c:131-171 | The same for block 0 right after a start answered 0. |
| Ota.OversizedStartThenBlockZero | rt-thread/components/fal/src/fal_partition.c:447-453 | From boot, a start of 512 KiB and block 0 end in a board that is down, with the one reply 0. |
| Ota.InOrderRun | applications/ota_handle.c:161-204 | Sending the first k blocks in order over working hardware is a possible run, and it acknowledges and stores exactly them. |
| Ota.CompletableIffFits | applications/ota_handle.c:131-135 | An accepted session can reach an end reply iff the announced size fits the partition. |
| Ota.AcceptedButTooLarge | applications/ota_handle.h:27 | 400000 bytes are accepted and never finish. |
| Ota.IntactImageInstalled | applications/ota_handle.c:161-204 | An image that fits, sent in order with its CRC announced, ends with the success reply and stands in the flash. |
| Ota.AnnouncementStored | applications/ota_handle.c:126-128 | Version, CRC and size survive the big-endian trip through the start frame. |
| Ota.StartFrameLayout | applications/ota_handle.c:126-128 | Bytes 0-1 are the version, 2-3 the CRC and 4-7 the size, high byte first. |
| Ota.UpdateSucceeds | applications/ota_handle.c:120-204 | From the start frame to the last block: a good image is accepted, installed and reported good. |
| Ota.OtaManager.constructor | applications/ota_handle.c:41-52 | The manager starts zeroed, with no start request served. |
| Ota.OtaManager.ErasePart | applications/ota_handle.c:144-149 | Success leaves the partition blank; nothing outside it changes. |
| Ota.OtaManager.WritePart | applications/ota_handle.c:166-171 | A block beyond the partition is refused untouched; inside, only its range changes, success means it is stored, and working hardware succeeds if no bit must be set. |
| Ota.OtaManager.PreparePartition | applications/ota_handle.c:136-156 | Without the partition it fails untouched; success means the partition is blank and always comes on working hardware; ota_on is set exactly on success. |
| Ota.OtaManager.StartRequest | applications/ota_handle.c:120-159 | The code takes exactly the specified start step, sends exactly its replies, and alters no byte outside the download partition. |
| Ota.OtaManager.DataRequest | applications/ota_handle.c:161-204 | The code takes exactly the specified data step, sends exactly its replies, and alters no byte outside the download partition. |
| Ota.OtaManager.AcknowledgeBlock | applications/ota_handle.c:171-198 | Count, fold, reply and verdict as specified. |
| CanRx.DispatchIff | applications/can.c:57-138 | A frame is a start iff its source is 4, its kind 0 and its register 0x5010; a data frame iff its source is 4, its kind 1 and a start has been served, with the low 16 bits as index; else it is ignored. |
| CanRx.OthersIgnored | applications/can.c:57-138 | Heartbeat, switch and every other register of the main board, and every other source, are ignored. |
| CanRx.ServeFrame | applications/can.c:57-138 | One frame: a start or data frame, by the masks of its identifier, is served as such with its own bytes; any other changes nothing and sends nothing. |
| CanRx.ReceiveAll | applications/can.c:36-154 | From boot, the run of the session consists of the services of the frames received, in order, none invented and none dropped but those not looked at, until the board is down or the supervision timer fires; replies in order; the app and appdata partitions are never altered; without a start frame nothing at all changes. |
| CanRx.IgnoredMakeNoDifference | applications/can.c:57-138 | Ignored frames, wherever they come, lead to the very same events as if they had not been sent. |
| CanRx.HonestFrames | applications/can.c:36-154 | When one frame announces an image and all data frames, in whatever number and order, carry it, an accepted session never reports failure, and reports success only with the image in the flash. |
| CanRx.CleanUpdate | applications/can.c:36-154 | Frames before the start are ignored; the start and every block in order on working hardware end in a reported success and the image in the flash. |
| CanRx.InstallImage | applications/can.c:36-154 | The receive loop on the frames of a whole update leaves the image in the download partition and the other partitions as they were. |
| CanRx.BlockIdRoundTrip | applications/can.c:134-137 | Every 16-bit block index survives the CAN identifier; before a start request no such frame is looked at. |
| NorFlash.GetSectorIff | drivers/drv_flash_f4.c:58-169 | GetSector inverts the map of 16, 64 and 128 KiB sectors. |
| NorFlash.SectorMap | drivers/drv_flash_f4.c:58-169 | The sector starts, in plain numbers. |
| NorFlash.ErasedSectorsMeetRange | drivers/drv_flash_f4.c:334-342 | The sectors selected for erase are exactly those that meet the range. |
| NorFlash.EraseExactIffAligned | drivers/drv_flash_f4.c:309-360 | An erase clears exactly the range iff both ends are sector boundaries. |
| NorFlash.Flash.ProgramAndCompare | drivers/drv_flash_f4.c:234-284 | One unit programmed and read back: success extends the written part; failure on working hardware means some bit had to be set. |
| NorFlash.Flash.WriteUnits | drivers/drv_flash_f4.c:232-287 | The loop writes the whole range or stops at the first mismatch, and its programs tile what was attempted. |
| NorFlash.Flash.Write | drivers/drv_flash_f4.c:210-297 | Out of range or empty is refused untouched; otherwise only the range changes, and success means exactly that the HAL reported every program done and the range equals buf; on working hardware it holds iff no bit must be set; aligned, contiguous programs, each the widest possible, at most size/4 + 4. |
| NorFlash.TilesDisjointAligned | drivers/drv_flash_f4.c:232-287 | Attempted programs of one write are naturally aligned and never overlap. |
| NorFlash.BoundStep | drivers/drv_flash_f4.c:234-286 | Each unit keeps the bound from which size/4 + 4 follows. |
| NorFlash.UnitWidest | drivers/drv_flash_f4.c:234-284 | No wider program than the one chosen would be aligned and fit. |
| NorFlash.Flash.EraseSector | drivers/drv_flash_f4.c:344-348 | A sector erase touches that sector only. |
| NorFlash.Flash.HalFlashErase | drivers/drv_flash_f4.c:339-348 | Consecutive sectors, stopping at the first failure, and nothing outside them. |
| NorFlash.Flash.Erase | drivers/drv_flash_f4.c:309-360 | Sets exactly the bytes of the sectors that meet the range; refuses out-of-range and empty. |
| NorFlash.RangeCheckExactIff | drivers/drv_flash_f4.c:213-226 | The check tells ranges inside the flash from others iff the range neither starts before the flash with an end not beyond it nor wraps round to such an end. |
| NorFlash.RangeCheckFails | drivers/drv_flash_f4.c:213-226 | Address 0 with size 1, and a range that wraps, pass and are not in the flash. |
| NorFlash.RangeCheckExactOnPartitions | applications/fal_cfg.h:33-38 | Every range inside a partition is inside the flash and passes the check. |
| NorFlash.PartitionTable | applications/fal_cfg.h:33-38 | app, appdata and download, at their addresses and sizes in plain numbers, tile the device and consist of whole sectors. |
| NorFlash.PartitionWrite | rt-thread/components/fal/src/fal_partition.c:447-475 | Range check and device lookup, each refused untouched, then the driver write at base plus offset. |
| NorFlash.PartitionEraseAll | rt-thread/components/fal/src/fal_partition.c:487-527 | Erases exactly the partition, or fails untouched without its device. |
| Crc16.TableEntry | applications/normal_calc.c:39-96 | Each of the 256 entries of both tables is eight bit-serial steps of the reflected polynomial 0xA001. |
| Crc16.TableStepIsByteStep | applications/normal_calc.c:135-137 | One table step is one byte of the bit-serial CRC, byte-swapped. |
| Crc16.ModbusRtuCrc16Frame | applications/normal_calc.c:127-141 | For every byte sequence and initial value the result is the byte-swapped bit-serial CRC-16 of MODBUS over Serial Line V1.02, section 6.2.2. |
| Crc16.ModbusRtuCrc16 | applications/normal_calc.c:111-125 | The same from 0xFFFF. |
| Crc16.CheckValue | applications/normal_calc.c:111-125 | The digits 1 to 9 give 0x4B37 low byte first, the check value of CRC-16/MODBUS. |
| Crc16.CrcConcat | applications/normal_calc.c:127-141 | Feeding in chunks equals feeding whole. |
| Crc16.CrcResidue | applications/normal_calc.c:127-141 | Appending the high then the low result byte gives 0. |
| Crc16.BitSerialInjective | applications/normal_calc.c:127-141 | For a fixed message different states stay different. |
| Crc16.FeedBits | applications/normal_calc.c:134-138 | The byte-wise CRC is the CRC of the message's bits, lowest bit first. |
| Crc16.WindowInjective | applications/normal_calc.c:127-141 | From one state, different strings of up to 16 bits lead to different states. |
| Crc16.BurstDetected | applications/normal_calc.c:127-141 | Different messages that agree outside some 16-bit window never share a CRC, at any length, position and start value. |
| Crc16.AdjacentBytesDetected | applications/normal_calc.c:127-141 | Nor do messages that differ in one byte or two adjacent bytes. |
| Crc16.OddErrorsDetected | applications/normal_calc.c:127-141 | Nor messages that differ in an odd number of bits. |
| CrcPeriod.MulSteps | applications/normal_calc.c:134-138 | Register values multiply as their numbers of shifts add. |
| CrcPeriod.ReturnsIff | applications/normal_calc.c:134-138 | The register's shift has period 32767: so many shifts, or a multiple, and no other number, lead back. |
| CrcPeriod.TwoFlips | applications/normal_calc.c:134-138 | Bit strings that differ in two places lead to the same register iff the places are a multiple of 32767 apart. |
| CrcPeriod.TwoBitErrors | applications/normal_calc.c:127-141 | Two messages that differ in exactly two bits share a CRC iff the bits are a multiple of 32767 apart. |
| CrcPeriod.TwoBitErrorsFail | applications/normal_calc.c:127-141 | 4096 zero bytes and the same with the first and last bit set share every CRC. |
| MedianFilter.InitFilter | applications/median_filter.c:36-59 | Even and zero sizes and failed allocations are refused with their own code; any odd size is accepted. |
| MedianFilter.Filter.Store | applications/median_filter.c:83-90 | For every odd window the cells, index and flag are those of the specified ring after one more input. |
| MedianFilter.Filter.Handle | applications/median_filter.c:81-106 | For every odd window the answer is the specified one; up to 255 it is the median of the last window of inputs, or the raw input until that many have come. |
| MedianFilter.RingStep | applications/median_filter.c:83-90 | Storing at the index and advancing keeps the ring equal to the last inputs. |
| MedianFilter.MedianOfRing | applications/median_filter.c:99-105 | The median of a full ring is that of the last inputs, whatever the rotation. |
| MedianFilter.SmallRing | applications/median_filter.c:83-90 | Up to 255 the cells are the last inputs in rotated order and the flag says whether they are all there. |
| MedianFilter.LargeRing | applications/median_filter.c:83-90 | Above 255 the first 256 cells are a ring of the last inputs and the others are never written. |
| MedianFilter.AnswersRawIff | applications/median_filter.c:85-95 | The raw input is returned iff the flag is clear and the number of calls is no multiple of 256; the flag is set iff the window is at most 255 and full. |
| MedianFilter.SmallWindowAnswers | applications/median_filter.c:81-106 | Up to 255 every answer is the median of the last window, or the raw input before it is full. |
| MedianFilter.LargeWindowAnswers | applications/median_filter.c:81-106 | Above 255 the answer is the input, but on every 256th call the median of the last 256 inputs and the unwritten cells. |
| MedianFilter.LargeWindowFails | applications/median_filter.c:94-105 | 255 zeros and a one make the 256th answer of any such window, 257 among them, less than the input it should return. |
| MedianFilter.AnswersFilteredIff | applications/median_filter.c:36-106 | An accepted window answers as a median filter for every history and every initial memory iff its size is at most 255. |
| MedianFilter.SortedRankAtLeast | applications/median_filter.c:102-105 | Position m of a sorted sequence is at least x iff at least size - m elements are. |
| MedianFilter.SortedRankAtMost | applications/median_filter.c:102-105 | Position m is at most x iff at least m + 1 elements are. |
| MedianFilter.MedianIsMedian | applications/median_filter.c:102-105 | The value returned is at least x iff more than half of the window is, for every x. |
| MedianFilter.MedianUnique | applications/median_filter.c:102-105 | That property determines the median. |
| MedianFilter.MajorityBoundsMedian | applications/median_filter.c:102-105 | A minority of outliers cannot move the median out of a range that holds the majority. |
| MedianFilter.SortInPlace | applications/median_filter.c:102 | Sorted and a permutation. |
| PlateJudge.StepSettled | applications/lcr_task.c:150-156 | neg_state, pre_neg_state and the reported state agree after each call, the hold-off is at most 10 and 0 outside ERROR, and a report is sent iff the state changed. |
| PlateJudge.NextState | applications/lcr_task.c:62-130 | The next state outside ERROR, band by band in plain numbers: below 15000 DISCONNECT, 20000 to 49999 HALF, 70000 to 4999999 OK, above 5000000 ERROR, and what OK and the others do in the dead bands. |
| PlateJudge.NextFromError | applications/lcr_task.c:56-130 | In ERROR: what re-arms the hold-off, what holds it, what uses it up, and into which state ERROR is then left. |
| PlateJudge.NextReport | applications/lcr_task.c:125-156 | A report exactly on a change, and ten samples of hold-off on entering ERROR. |
| PlateJudge.DisconnectReported | applications/lcr_task.c:61-156 | Outside ERROR, six of the last eleven scaled measurements below 15000 mean that DISCONNECT is the last report. |
| PlateJudge.HalfReported | applications/lcr_task.c:61-156 | Six from 20000 and six below 50000 mean HALF. |
| PlateJudge.ConnectReported | applications/lcr_task.c:61-156 | Six from 70000 and six below 5000000 mean OK. |
| PlateJudge.RunSettled | applications/lcr_task.c:51-158 | The same after every run; the last report is the present state and consecutive reports differ. |
| PlateJudge.HoldOff | applications/lcr_task.c:56-130 | From an arming sample to the next, ERROR is left exactly with the eleventh filtered value below 100000. |
| PlateJudge.CalmRun | applications/lcr_task.c:62-130 | How the counter runs down: only values below 100000 count, the rest hold. |
| PlateJudge.RearmIff | applications/lcr_task.c:56-61 | In ERROR, while the filtered value is not above 5000000, a measurement re-arms the hold-off iff it is above 5000 million when scaled. |
| PlateJudge.RareShortsDoNotRearm | applications/lcr_task.c:51-130 | From ERROR, measurements of at most 5000 million scaled, six of every last eleven below 100000 scaled, use up the hold-off one by one. |
| PlateJudge.ScaledShortsDoNotRearm | applications/lcr_task.c:56-61 | A run of 27 measurements leaves ERROR with the eleventh sample after the last filtered short, though five of those eleven measurements are above 5000000 when scaled. |
| PlateJudge.DeadBand | applications/lcr_task.c:62-103 | A direct step from DISCONNECT to HALF needs a value in [20000, 50000), one back needs a value below 15000. |
| PlateJudge.NoiseImmunity | applications/lcr_task.c:62-156 | Filtered values within any span of 5000 below 70000 cause at most one report, however many. |
| PlateJudge.SpanIsTight | applications/lcr_task.c:62-103 | A span of 5001 is too wide. |
| PlateJudge.RepeatIsIdempotent | applications/lcr_task.c:62-156 | Outside ERROR a repeated filtered value has its whole effect at once. |
| PlateJudge.RepeatRun | applications/lcr_task.c:62-156 | Any number of repetitions outside ERROR causes at most one report. |
| PlateJudge.HalfOkBoundary | applications/lcr_task.c:93-124 | Exactly which value pairs move HALF to OK and OK to HALF: they meet at 70000. |
| PlateJudge.HalfOkDeadBandFails | applications/lcr_task.c:93-110 | 70000 and 69999 move the state each way. |
| PlateJudge.HoldsEveryStateIff | applications/lcr_task.c:62-130 | A filtered value leaves every state as it is iff it is exactly 5000000. |
| PlateJudge.ShortNeedsSix | applications/lcr_task.c:61-125 | The filtered value is above the limit iff six of the last eleven scaled measurements are 5000001 or more. |
| PlateJudge.CapNeedsSix | applications/lcr_task.c:61 | With a full window the filtered value reaches any whole-number limit iff at least six of the last eleven scaled measurements do. |
| PlateJudge.ErrorEntryIff | applications/lcr_task.c:56-130 | After every history, ERROR is newly entered iff at least six of the last eleven scaled measurements are 5000001 or more, or fewer than eleven have come and the last one is. |
| PlateJudge.EarlyCap | applications/lcr_task.c:61 | Before the window is full the filtered value is the last measurement. |
| PlateJudge.EarlyCapReaches | applications/lcr_task.c:61 | It then reaches a limit iff the last scaled measurement does. |
| PlateJudge.OneOutlierFails | applications/lcr_task.c:61-130 | A single first measurement of 6000 raises ERROR. |
| PlateJudge.MajorityBoundsCap | applications/lcr_task.c:61 | Six of eleven measurements within whole-number bounds keep the filtered value within them. |
| PlateJudge.OutliersCauseOneReport | applications/lcr_task.c:51-158 | Between DISCONNECT and HALF, while six of every eleven measurements stay within a span of 4999 below 70000, at most one report is made whatever the other five are. |
| PlateJudge.PlateMonitor.MoveState | applications/lcr_task.c:56-130 | The chain of band tests moves state and counter as specified. |
| PlateJudge.PlateMonitor.JudgeCap | applications/lcr_task.c:62-156 | State, counter, stored capacity and reports after one filtered value. |
| PlateJudge.PlateMonitor.JudgeSample | applications/lcr_task.c:51-158 | After any number of measurements the code's state and reports are those of the specified run over all of them, filter included. |
| NtcTemperature.LookupIsTable | applications/normal_calc.c:265-281 | The table falls strictly in resistance and rises strictly in temperature. |
| NtcTemperature.BinarySearch | applications/normal_calc.c:328-364 | Terminates with a valid segment that brackets every resistance in the table. |
| NtcTemperature.EstimateTemperature | applications/normal_calc.c:367-395 | Returns what the disabled sequential scan returns, for every table and resistance. |
| NtcTemperature.AnyBracketServes | applications/normal_calc.c:369-381 | Where two segments bracket, at a knot, they agree. |
| NtcTemperature.ExactAtKnots | applications/normal_calc.c:367-395 | Each knot is reproduced exactly. |
| NtcTemperature.Readings | applications/normal_calc.c:265-281 | The reading at each of the fifteen resistances in plain numbers; 1.65 V is 25 degrees. |
| NtcTemperature.Bounded | applications/normal_calc.c:367-395 | The estimate stays between the end temperatures. |
| NtcTemperature.SegmentStrict | applications/normal_calc.c:321-325 | Interpolation is strictly falling within a segment. |
| NtcTemperature.SegmentIsLine | applications/normal_calc.c:321-325 | Within a segment temperature differences are in proportion to resistance differences. |
| NtcTemperature.StrictInside | applications/normal_calc.c:367-395 | Inside the table a higher resistance means a strictly lower temperature, across segment boundaries. |
| NtcTemperature.Antitone | applications/normal_calc.c:367-395 | For all resistances a higher one never means a higher temperature. |
| NtcTemperature.HotEndIff | applications/normal_calc.c:388-390 | The hottest reading is given exactly at and below the last resistance. |
| NtcTemperature.ColdEndIff | applications/normal_calc.c:385-387 | The coldest reading is given exactly at and above the first resistance. |
| NtcTemperature.DividerLaw | applications/normal_calc.c:402 | The computed resistance R satisfies vol * (R + 10000) = 3.3 * R. |
| NtcTemperature.DividerUnique | applications/normal_calc.c:402 | It is the only positive one that does. |
| NtcTemperature.KnotReading | applications/normal_calc.c:398-405 | A knot's resistance under 10 kOhm at 3.3 V reads that knot's temperature. |
| NtcTemperature.VoltageAntitoneIff | applications/normal_calc.c:398-405 | Two voltages read in order iff the higher is not above the reference, or both are, or the lower already reads the hot end. |
| NtcTemperature.VoltageAntitoneFails | applications/normal_calc.c:398-405 | 3.0 V reads colder than 4.0 V. |
| UartDmaRx.EveryByteOnce | drivers/drv_usart_v2.c:383-425 | In every interleaving of arrivals and handlers the sum of all recv_len counts each byte once, in order; remaining_cnt is rx_bufsz less that sum modulo rx_bufsz; IDLE and TC leave nothing outstanding. |
| UartDmaRx.StepAccounted | drivers/drv_usart_v2.c:383-425 | Each arrival and each handler in priority order keeps the books. |
| UartDmaRx.RecvLenIs | drivers/drv_usart_v2.c:396-416 | recv_len of every handler in terms of the bytes really outstanding: the backlog, except that HT leaves it to a pending TC, IDLE before TC misses a full ring, and TC without cause reports one. |
| UartDmaRx.IdleBeforeTcDoubleReports | drivers/drv_usart_v2.c:398-412 | IDLE before a pending TC: the two report the true number iff a full ring is outstanding, and otherwise a whole ring more. |
| UartDmaRx.IdleBeforeTcCanHappen | drivers/drv_usart_v2.c:1065-1069 | Three bytes, HT and a fourth byte lead to such a moment: the interrupt priorities are needed. |
| UartDmaRx.OverrunNeverReported | drivers/drv_usart_v2.c:383-425 | One byte more than the ring overwrites an unreported one, and a handler then reports at most one of the outstanding bytes: a whole ring is lost. |
| UartDmaRx.UartRx.constructor | drivers/drv_usart_v2.c:172 | remaining_cnt starts at rx_bufsz. |
| UartDmaRx.UartRx.ByteArrives | drivers/drv_usart_v2.c:1055 | The circular DMA stores the byte, moves on and raises HT or TC. |
| UartDmaRx.UartRx.NewBytes | drivers/drv_usart_v2.c:393-416 | From the DMA counter alone the code finds the number of received bytes not yet handed on, and when it does not. |
| UartDmaRx.UartRx.Update | drivers/drv_usart_v2.c:418-422 | remaining_cnt follows the counter only when something is reported. |
| UartDmaRx.UartRx.DmaRecvIsr | drivers/drv_usart_v2.c:383-425 | Reports the specified bytes; after IDLE and TC everything received is delivered. |
| EthCopy.EthTx.CopyIn | drivers/drv_eth.c:226 | A piece copied to the current buffer extends the gathered bytes by it. |
| EthCopy.EthTx.CopyPbuf | drivers/drv_eth.c:210-250 | One pbuf is appended, or the copy stops at a needed descriptor that the DMA owns. |
| EthCopy.EthTx.Gather | drivers/drv_eth.c:207-251 | A chain that fits is refused iff a needed buffer is not free, and is otherwise gathered in order; DMA-owned buffers are never written. |
| EthCopy.EthTx.HalTransmitFrame | libraries/STM32F4xx_HAL_Driver/Src/stm32f4xx_hal_eth.c:892-985 | Gives exactly the needed descriptors to the DMA, all but the last full, and advances past them, round the ring again if the frame is longer. |
| EthCopy.EthTx.Transmit | drivers/drv_eth.c:192-285 | A chain that fits and succeeds stands in the buffers from the old descriptor on; any chain that succeeds is handed to the DMA whole; a refused one leaves the ring as it was. |
| EthCopy.DistinctIffFits | drivers/drv_eth.c:207-264 | No descriptor is used twice for a frame iff the frame fits the ring. |
| EthCopy.OverlongTakesAll | libraries/STM32F4xx_HAL_Driver/Src/stm32f4xx_hal_eth.c:923-975 | A frame too long for the ring gives every descriptor to the DMA. |
| EthCopy.BufferSizesCover | libraries/STM32F4xx_HAL_Driver/Src/stm32f4xx_hal_eth.c:923-975 | The sizes add up to the frame and all but the last are full. |
| EthCopy.EthRx.FillPbuf | drivers/drv_eth.c:332-351 | One pbuf receives the next bytes of the frame. |
| EthCopy.EthRx.Scatter | drivers/drv_eth.c:328-353 | Any chain of the frame's length gets exactly its bytes, each pbuf its own length. |
| EthCopy.EthRx.Receive | drivers/drv_eth.c:316-363 | The frame is copied if a chain was allocated and dropped if not; exactly its descriptors are released in both cases. |
| EthCopy.EthRx.Release | drivers/drv_eth.c:355-363 | Sets the OWN bit of the frame's descriptors and no other. |
| EthCopy.SendAndReceive | drivers/drv_eth.c:192-378 | Sending a chain and receiving it into any chain of the same total length gives the bytes back, for rings of any sizes that hold it. |
| Pwm.Timer.Set | drivers/drv_pwm.c:310-333 | Registers as in unbounded arithmetic; ARR, PSC and CCR fit 16 bits and CCR is at most ARR for clocks up to 168 MHz. |
| Pwm.RegistersFit | drivers/drv_pwm.c:312-332 | No 32-bit truncation happens on the way. |
| Pwm.DivisionsCommute | drivers/drv_pwm.c:312-323 | Dividing by 1000 and by the prescaler in either order truncates alike. |
| Pwm.PrescalerLeast | drivers/drv_pwm.c:312-315 | The prescaler is the smallest that brings the period below 65535 counts. |
| Pwm.UnclampedRegisters | drivers/drv_pwm.c:312-332 | ARR and CCR are the whole prescaled counts of period and pulse less one, from at least three and two counts and with the pulse at most the period. |
| Pwm.PulseMonotone | drivers/drv_pwm.c:323-332 | A longer pulse never gets a smaller CCR. |
| Pwm.ServoPulse | drivers/drv_pwm.c:312-332 | 1.5 ms in 20 ms at 84 MHz. |
| Pwm.FullDutyIff | drivers/drv_pwm.c:317-332 | Equal period and pulse give equal registers iff there are at least three counts. |
| Pwm.FullDutyFails | drivers/drv_pwm.c:317-332 | With 0 ns they differ. |
| Pwm.PeriodReadBack | drivers/drv_pwm.c:273-276 | An unclamped period reads back no longer than requested and short by less than one prescaled count plus 1 ns. |
| Pwm.PulseReadBack | drivers/drv_pwm.c:276-323 | A pulse of at least two prescaled counts, not above the period, reads back no longer than requested and short by less than one prescaled count plus 1 ns. |
| Pwm.ReadBackExactIff | drivers/drv_pwm.c:275-276 | The value read back is the true one iff the product fits 32 bits. |
| Pwm.ReadBackFails | drivers/drv_pwm.c:275 | 51.5 ms at 84 MHz reads back as 0.37 ms. |
| SysTickDelay.Delay | drivers/drv_common.c:134-162 | Returns at the first poll that sees the counter moved and `ticks` counts gained, and only there: never before `ticks` counts have elapsed, however irregular the polling, and late by less than the last gap; with gaps of at most LOAD the count is the elapsed one less one per wrap. |
| SysTickDelay.GainAtMostElapsed | drivers/drv_common.c:145-154 | One poll never counts more than really passed. |
| SysTickDelay.GainExact | drivers/drv_common.c:145-154 | A gap of at most LOAD loses one count per wrap and nothing else. |
| SysTickDelay.TicksExactIff | drivers/drv_common.c:140 | The tick count is the intended one iff the product fits 32 bits. |
| SysTickDelay.TicksFail | drivers/drv_common.c:140 | 25566 microseconds at 168 MHz wait 95 counts. |
| GpioIrq.Exti.constructor | drivers/drv_gpio.c:146-165 | All slots free, nothing enabled. |
| GpioIrq.Exti.Attach | drivers/drv_gpio.c:308-346 | Succeeds iff the slot is free or holds the same registration; otherwise nothing changes. |
| GpioIrq.Exti.Detach | drivers/drv_gpio.c:348-377 | Frees the slot of the pin number, whichever port had attached it, and leaves the enables alone; enabled implies attached survives iff the pin was not enabled or the port does not exist. |
| GpioIrq.PinEncoding | drivers/drv_gpio.c:20-44 | Sixteen pins to a port, and ports A to I. |
| GpioIrq.Exti.Lines | drivers/drv_gpio.c:127-143 | Lines 0 to 4 are on iff their own pin is enabled, line 5 iff one of 5 to 9 is, line 6 iff one of 10 to 15 is. |
| GpioIrq.Exti.Enable | drivers/drv_gpio.c:392-435 | Only an attached slot is enabled, and each line stays on exactly when one of its pins is enabled. |
| GpioIrq.Exti.Disable | drivers/drv_gpio.c:436-497 | A shared line goes off only with its last enabled pin. |
| GpioIrq.EnabledAttachedStep | drivers/drv_gpio.c:308-497 | When every enabled pin has a handler, a call ends that iff it detaches an enabled pin. |
| GpioIrq.OrphanIff | drivers/drv_gpio.c:308-497 | After any calls, a slot is enabled without a handler iff it was detached while enabled and neither attached nor disabled since. |
| GpioIrq.AlwaysAttachedIff | drivers/drv_gpio.c:308-497 | Enabled implies attached at every moment of a run iff no call of the run detaches a pin enabled at the time. |
| GpioIrq.DetachTakesOtherIff | drivers/drv_gpio.c:358-373 | A detach takes another pin's handler away iff a pin of the same number on another port holds the slot. |
| GpioIrq.EnabledWithoutHandler | drivers/drv_gpio.c:370-374 | Attach, enable, detach leaves a line on with no handler. |

## Left out

- NorFlash.Flash.Write: requires an address in or above the flash and no 32-bit wrap of addr + size, as every partition access gives it; what the hardware does with the other ranges that pass the check (RangeCheckExactIff) is not modelled.
- NorFlash.Flash.Erase: the same precondition as Write.
- NorFlash.PartitionWrite: requires that addr + size does not wrap in 32 bits, which the FAL range check lets through; the session writes 8 bytes at an offset inside the partition.
- NorFlash.Flash.HalFlashProgram: states the NOR fault model and is not derived from the HAL's register sequence.
- MedianFilter.SortInPlace: an insertion sort stands for the C library's qsort; the source relies only on sorted order and the same elements.
- NtcTemperature.EstimateTemperature: is over reals, so the rounding of single-precision interpolation is not modelled.
- PlateJudge.PlateMonitor.JudgeSample: is over reals; NaN and infinite measurements are not modelled.
- MedianFilter.LargeWindowAnswers: takes unwritten memory as arbitrary reals, not as arbitrary bit patterns.
- EthCopy.EthRx.FillPbuf: builds the payload as a sequence in place of writing through the pbuf's payload pointer.
- EthCopy.EthTx.Gather: does not say what the buffers hold after a chain too long for the ring.
- EthCopy.EthTx.HalTransmitFrame: leaves out the first- and last-segment flags of the descriptors.
- Pwm.Timer.Get: takes the timer clock as whole megahertz, so the clock-division setting that only the read-back consults is not modelled.
- UartDmaRx.UartRx.DmaRecvIsr: is one atomic step, an assumption; bytes that arrive between the masking of interrupts and the reading of the counter are not modelled.
- SysTickDelay.Delay: models a finite number of polls, since the loop may poll for ever.
- The CAN identifiers and payload bytes of the replies (applications/ota_handle.c:74-118): a reply is its kind, its flag and its frame id.
- Ota: the timing of the supervision timer, the delivery of queued replies, and any use of the stored version number.
- Flash read, HAL and RT-Thread internals, clocks, DMA setup and pin muxing: register plumbing.
- lcr_calc.c and math_calc.c: floating-point trigonometry and roots, where rounding is the point.
- UID_Encryption.c, my_encry.c: fixed bytewise formulas.
- WS2812B.c, board_switch.c, the bubble sensor, DAC tables, shell commands: input and output.
- The heartbeat, RGB and RF branches of the CAN thread, and the transmit thread.
- GPIO mode setup and handler dispatch; SDIO, USB, LCD, QSPI, SPI, RTC, PM and watchdog drivers.
