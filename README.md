# Memory and bus emulation of the VexRiscv SMP regression harness

The harness `src/test/cpp/regression/main_smp.cpp` runs a Verilated
VexRiscv SMP core and plays the world around it. This model covers that
harness's own logic:

- **Image loader.** It reads an Intel HEX image into a sparse, lazily
  paged 4 GiB byte memory. Untouched bytes read 0xFF.
- **DRAM model.** It serves two LiteDRAM-native style ports: the
  instruction bridge and the data bridge.
  - A command is accepted at once.
  - A read fetches the 16-byte block at `0x80000000 + idx*16` into the
    read-response FIFO.
  - A write queues its address until a write-data beat commits the
    byte-enabled lanes there.
  - Every committed write is reported on the memory trace, as one record
    per maximal run of enabled lanes.
- **Peripheral slave.** A Wishbone-style slave acknowledges each request
  one cycle later.
  - A write to the tohost address `0xF00FFF20` merges the selected bytes
    into the tohost register and ends the run: exit 0 when the register
    is zero, 1 otherwise.
  - A run that never writes tohost ends with exit 2.

The core itself is opaque. Each cycle, the model takes the signal values
the core presents as a parameter.

Modules:

- `Words`: 32-bit wrap-around, bit lanes of a mask, and `|`.
- `Hex`: `ends_with`, `hti`, `hToI`.
- `SparseMemory`: class `Memory`.
- `Packing`: 16 bytes to and from four little-endian words.
- `WriteTrace`: `log_mem_write_groups`.
- `HexLoader`: `loadHexImpl`.
- `Dram`: `DramState` and the per-channel command, write-data and read-data handling.
- `Peripheral`: the peripheral slave, the tohost merge and the exit codes.
- `Harness`: one iteration of the main loop.

Each stateful part of the source is a class whose methods are proved
against value-level functions:

| class | abstract view | specified by |
|---|---|---|
| `Memory` | ghost `Contents` map | — |
| `DramChannel` | `State()` | `Apply` / `Replay` of FIFO events |
| `Simulation` | its own state, and each channel's cycles since reset | `ChannelCycle`, `RunQueues` and `Respond` |

The properties of the source are then proved about those functions.

## Model

All source paths are relative to the repository root.

| member | source | states |
|---|---|---|
| Hex.EndsWith | src/test/cpp/regression/main_smp.cpp:29-32 | The result is true exactly when `s` is some string followed by `suffix`; a suffix longer than `s` gives false |
| Hex.Hti | src/test/cpp/regression/main_smp.cpp:34-38 | A hex digit (either case) decodes to its value below 16; the value is below 16 exactly for hex digits and the six characters `:`..`?` that `c - '0'` maps to 10..15 |
| Hex.HToI | src/test/cpp/regression/main_smp.cpp:40-46 | The shift-and-add loop returns the big-endian base-16 value of the characters modulo 2^32 |
| Hex.HexValueOfDigits | src/test/cpp/regression/main_smp.cpp:40-46 | On at most 8 genuine hex digits the value is exactly the big-endian number and below 16^n, so below 256 for a byte field and below 65536 for an address field |
| Hex.BigEndianBound | src/test/cpp/regression/main_smp.cpp:42-44 | Digits below 16 accumulate to a value below 16^n |
| SparseMemory.AddressSplit | src/test/cpp/regression/main_smp.cpp:59-65 | Every 32-bit address has page `a >> 20` below 4096 and offset `a & 0xFFFFF` inside the page, and page and offset determine the address |
| SparseMemory.LookupEmpty | src/test/cpp/regression/main_smp.cpp:60-63 | An address never written reads 0xFF |
| SparseMemory.LookupUpdate | src/test/cpp/regression/main_smp.cpp:65-67 | After writing v at a, a reads v and every other address reads as before |
| SparseMemory.Memory.constructor | src/test/cpp/regression/main_smp.cpp:51-53 | No page allocated and nothing written |
| SparseMemory.Memory.Touch | src/test/cpp/regression/main_smp.cpp:59-64 | `get` allocates the page of the address (filled with 0xFF) when absent, and no byte changes |
| SparseMemory.Memory.Read | src/test/cpp/regression/main_smp.cpp:59-67 | Reading allocates the page and returns the byte last written at the address, or 0xFF |
| SparseMemory.Memory.Write | src/test/cpp/regression/main_smp.cpp:59-67 | Writing changes exactly the byte at the address |
| Packing.WordLanes | src/test/cpp/regression/main_smp.cpp:118-137 | Byte j of the word built from four bytes is byte j |
| Packing.BytesWord | src/test/cpp/regression/main_smp.cpp:118-137 | A word is rebuilt from its four bytes |
| Packing.UnpackPack | src/test/cpp/regression/main_smp.cpp:118-137 | unpack(pack(b)) == b for every 16-byte block |
| Packing.Pack | src/test/cpp/regression/main_smp.cpp:118-127 | Four words from a 16-byte block: bits 8j..8j+7 of word k are byte 4k+j |
| Packing.Unpack | src/test/cpp/regression/main_smp.cpp:129-137 | Sixteen bytes from four words, which packing gives back: pack(unpack(w)) == w |
| Packing.Repack | src/test/cpp/regression/main_smp.cpp:118-137 | Bytes laid out as `unpack_bytes_from_u32_words` lays them out pack back to the words they came from |
| WriteTrace.RunEnd | src/test/cpp/regression/main_smp.cpp:145-150 | The inner scan stops at the first disabled lane or 16, and every lane it passes is enabled |
| WriteTrace.RunsShape | src/test/cpp/regression/main_smp.cpp:141-150 | The runs of a mask are non-empty, inside the 16 lanes, ascending, disjoint and never adjacent; a lane is enabled exactly when a run covers it; each run is maximal |
| WriteTrace.RunsFromCover | src/test/cpp/regression/main_smp.cpp:141-150 | From any lane on, the runs found cover exactly the enabled lanes |
| WriteTrace.RunsFromSeparated | src/test/cpp/regression/main_smp.cpp:141-150 | The runs found are ascending with a gap between neighbours |
| WriteTrace.OrderedRuns | src/test/cpp/regression/main_smp.cpp:141-150 | Any earlier run ends before any later run starts |
| WriteTrace.MaximalRuns | src/test/cpp/regression/main_smp.cpp:147-150 | The lanes just before and just after a run are disabled |
| WriteTrace.ZeroMaskNoRuns | src/test/cpp/regression/main_smp.cpp:142-144 | A zero mask emits nothing |
| WriteTrace.GapSplitsRuns | src/test/cpp/regression/main_smp.cpp:141-150 | Mask 0x27 gives the runs (0, 3) and (5, 1) |
| WriteTrace.LogMemWriteGroups | src/test/cpp/regression/main_smp.cpp:139-167 | The scan emits one record per run of the mask, in order, each at base+start (mod 2^32) with the run's length and bytes |
| WriteTrace.HighToLow | src/test/cpp/regression/main_smp.cpp:151-158 | The run's bytes are listed from lane start+len-1 down to lane start |
| WriteTrace.ScanRun | src/test/cpp/regression/main_smp.cpp:146-150 | The inner loop ends at the end of the run and counts its length |
| WriteTrace.SkipDisabled | src/test/cpp/regression/main_smp.cpp:143 | The skip loop stops at an enabled lane or 16 and skips no run |
| HexLoader.LoadHex | src/test/cpp/regression/main_smp.cpp:70-97 | The loop leaves memory as `LoadFrom` of the lines from `upper = 0`: data records deposit, 04 records set `upper`, 01 stops, everything else is skipped |
| HexLoader.StoreData | src/test/cpp/regression/main_smp.cpp:85-90 | Data byte i is stored at base + i (mod 2^32), in order |
| HexLoader.DepositEffect | src/test/cpp/regression/main_smp.cpp:87-90 | After a deposit, the byte at a is the data byte at distance a - base (mod 2^32) when that is inside the data, and unchanged otherwise |
| HexLoader.BaseOfSegment | src/test/cpp/regression/main_smp.cpp:86 | With a four-digit address, `(upper << 16) OR addr` is `(upper mod 2^16) * 2^16 + addr` |
| HexLoader.DataRecordEffect | src/test/cpp/regression/main_smp.cpp:85-90 | A data record deposits its bytes at `(upper << 16) OR addr` and keeps `upper` for the lines after it |
| HexLoader.DataRecordWrites | src/test/cpp/regression/main_smp.cpp:85-90 | A data record writes data byte i at `((upper << 16) OR addr) + i` and nothing else |
| HexLoader.ExtendedAddressEffect | src/test/cpp/regression/main_smp.cpp:91-92 | A type-04 record writes nothing and only replaces `upper` |
| HexLoader.SkippedLines | src/test/cpp/regression/main_smp.cpp:80 | Lines not starting with ':' and records of other types leave memory and `upper` alone |
| HexLoader.EofIgnoresRest | src/test/cpp/regression/main_smp.cpp:93-94 | Lines after the first End Of File record have no effect |
| Dram.BlockAligned | src/test/cpp/regression/main_smp.cpp:458 | A command's byte address `0x80000000 + idx*16` (mod 2^32) is 16-byte aligned and its block does not cross 2^32 |
| Dram.CommitEffect | src/test/cpp/regression/main_smp.cpp:498-503 | After a beat, the byte at addr+i is lane i of the payload when mask bit i is set; every other byte is unchanged |
| Dram.CommitLanesEffect | src/test/cpp/regression/main_smp.cpp:501-503 | After the first n lanes of the lane loop, exactly the enabled lanes below n are written |
| Dram.WriteThenRead | src/test/cpp/regression/main_smp.cpp:466-477 | A read after a full-mask write of a block returns the written words |
| Dram.ReadsInOrder | src/test/cpp/regression/main_smp.cpp:394-396 | Read responses leave `rdata_q` in the order they were issued: delivered followed by still queued equals initial followed by issued |
| Dram.WritesInOrder | src/test/cpp/regression/main_smp.cpp:489-491 | Write beats consume write addresses in command order |
| Dram.ReplayAppend | src/test/cpp/regression/main_smp.cpp:394-506 | Replaying one history after another is replaying their concatenation |
| Dram.DeliveredAppend | src/test/cpp/regression/main_smp.cpp:394-396 | The responses delivered over two histories are those of the first, then those of the second from the queues the first left |
| Dram.IssuedAppend | src/test/cpp/regression/main_smp.cpp:470-477 | The reads issued over two histories are those of the first, then those of the second |
| Dram.CommittedAppend | src/test/cpp/regression/main_smp.cpp:489-491 | The write addresses beats use over two histories are those of the first, then those of the second from the queues the first left |
| Dram.IssuedWritesAppend | src/test/cpp/regression/main_smp.cpp:468-469 | The write addresses issued over two histories are those of the first, then those of the second |
| Dram.FirstIssuedFirstDelivered | src/test/cpp/regression/main_smp.cpp:394-396 | From empty queues, the k-th response delivered is the k-th one issued |
| Dram.DramChannel.constructor | src/test/cpp/regression/main_smp.cpp:175-178 | Both queues start empty; the read pins start low with zero data |
| Dram.DramChannel.Drive | src/test/cpp/regression/main_smp.cpp:354-362 | `rdata_valid` is "queue non-empty" and the payload is the front response; the queues are unchanged |
| Dram.DramChannel.Consume | src/test/cpp/regression/main_smp.cpp:394-396 | The front response is popped exactly when valid and ready |
| Dram.DramChannel.Command | src/test/cpp/regression/main_smp.cpp:457-479 | A write appends its address to `write_addr_q`; a read appends the packed block at the address to `rdata_q`; memory is unchanged |
| Dram.DramChannel.WriteBeat | src/test/cpp/regression/main_smp.cpp:480-506 | A beat pops the oldest write address, commits the mask-enabled lanes of the unpacked payload there and emits the write records; with an empty queue, nothing changes |
| Dram.FetchBlock | src/test/cpp/regression/main_smp.cpp:472-473 | The 16-byte loop reads the block at the address without changing memory |
| Dram.StoreLanes | src/test/cpp/regression/main_smp.cpp:501-503 | The lane loop commits exactly the enabled lanes |
| Peripheral.MergeSel | src/test/cpp/regression/main_smp.cpp:429-437 | The clear-and-OR byte loop computes the merge of the selected bytes |
| Peripheral.MergeBytes | src/test/cpp/regression/main_smp.cpp:432-437 | Merged byte b is the wdata byte when SEL bit b is set and the old tohost byte otherwise |
| Peripheral.MergeStep | src/test/cpp/regression/main_smp.cpp:433-436 | One pass of the loop: clearing a selected byte and OR-ing in the new one advances the merge by one byte |
| Peripheral.Respond | src/test/cpp/regression/main_smp.cpp:411-454 | One cycle of the slave: ACK is latched as CYC && STB with ERR low, the run is done exactly when it was or this request writes tohost, and anything but a tohost write keeps tohost and the exit code |
| Peripheral.AckLatched | src/test/cpp/regression/main_smp.cpp:412-413 | `ack_next` is CYC && STB and `err_next` is 0 |
| Peripheral.TohostWriteEndsRun | src/test/cpp/regression/main_smp.cpp:438-446 | A write to 0xF00FFF20 stores the merge in tohost and ends the run: exit 0 when it is zero, 1 otherwise |
| Peripheral.OtherRequestsKeepOutcome | src/test/cpp/regression/main_smp.cpp:415-453 | A write elsewhere, a read, or no request leaves tohost, done and the exit code unchanged |
| Peripheral.ReadData | src/test/cpp/regression/main_smp.cpp:447-452 | A read returns tohost at 0xF00FFF20 and 0 elsewhere |
| Peripheral.RespondConsistent | src/test/cpp/regression/main_smp.cpp:438-446 | Each cycle keeps "not done: tohost 0 and exit 2; done: exit is 0 iff tohost is 0"; a finished run stays finished |
| Peripheral.ResetConsistent | src/test/cpp/regression/main_smp.cpp:280-282 | The initial registers satisfy that invariant |
| Peripheral.MergeIntoZero | src/test/cpp/regression/main_smp.cpp:431-437 | A merge into a zero register is zero exactly when every selected byte is zero |
| Peripheral.FirstWritePasses | src/test/cpp/regression/main_smp.cpp:438-446 | The first tohost write passes exactly when every byte it selects is zero |
| Peripheral.FinalExitCode | src/test/cpp/regression/main_smp.cpp:563-566 | The exit code is 0, 1 or 2: 2 exactly when tohost was never written, 0 exactly when it was written with zero |
| Harness.ChannelCycleReplay | src/test/cpp/regression/main_smp.cpp:394-506 | One channel's cycle changes its queues as the replay of that cycle's events: delivery, command, beat |
| Harness.RunExtends | src/test/cpp/regression/main_smp.cpp:394-506 | One more cycle extends a run: its queues are the last cycle's `ChannelCycle` of the queues before |
| Harness.RunReplay | src/test/cpp/regression/main_smp.cpp:347-560 | Over any number of cycles, a channel's queues are the replay of all the cycles' events |
| Harness.RunReadsInOrder | src/test/cpp/regression/main_smp.cpp:394-396 | Across cycles, however reads, deliveries and writes interleave, responses reach the core in the order the reads were accepted: delivered followed by still queued equals initial followed by issued |
| Harness.RunWritesInOrder | src/test/cpp/regression/main_smp.cpp:489-491 | Across cycles, beats use the write addresses in the order the write commands were accepted |
| Harness.RunDeliveredByCycle | src/test/cpp/regression/main_smp.cpp:394-396 | The responses delivered over a run are those of its earlier cycles followed by those of its last cycle |
| Harness.RunFirstIssuedFirstDelivered | src/test/cpp/regression/main_smp.cpp:394-396 | From empty queues, the k-th response the core receives over a run is the k-th read it issued |
| Harness.LoopStops | src/test/cpp/regression/main_smp.cpp:347 | A running loop stops after a cycle exactly when that cycle's request is a tohost write or the cycles run out |
| Harness.Simulation.Running | src/test/cpp/regression/main_smp.cpp:347 | The `while` condition without `gotFinish`; while it holds, tohost is still 0 and stopping would give exit 2 |
| Harness.DeliveryFirst | src/test/cpp/regression/main_smp.cpp:394-409 | Popping the delivered response first and then running the cycle with the pin low is the whole cycle |
| Harness.BeatTargetsOldest | src/test/cpp/regression/main_smp.cpp:469-503 | A beat writes at the address queued in an earlier cycle if there is one, else at a write command of the same cycle, else nowhere |
| Harness.ReadBeforeBeat | src/test/cpp/regression/main_smp.cpp:457-506 | A read command sees memory as it was before the same cycle's write beat |
| Harness.Simulation.constructor | src/test/cpp/regression/main_smp.cpp:207-208 | Memory holds the loaded image; queues are empty; the peripheral is at reset |
| Harness.Simulation.Drive | src/test/cpp/regression/main_smp.cpp:349-371 | The latched ACK, ERR and read data are driven, and each read-data valid shows whether its queue is non-empty, with the front response as payload; with an empty queue the payload pins keep what they last showed |
| Harness.Simulation.ServePeripheral | src/test/cpp/regression/main_smp.cpp:411-454 | The peripheral block moves the registers to `Respond` of the request |
| Harness.Simulation.Step | src/test/cpp/regression/main_smp.cpp:394-560 | After the clock edge, in the source's order: both channels deliver; the peripheral answers; the instruction channel and then the data channel take their command and beat (so a data read sees an instruction-side write of the same cycle); the cycle count advances; each channel's run of cycles since reset grows by this cycle, so the queues stay the replay of everything since reset; the read-data pins are not touched; a running loop stops exactly on a tohost write or the last cycle |
| Harness.ServeChannel | src/test/cpp/regression/main_smp.cpp:457-506 | A channel's command then beat, as `ChannelCycle` with delivery done; the read-data pins are not touched |
| Harness.Simulation.Finish | src/test/cpp/regression/main_smp.cpp:563-566 | The exit code after the loop is `FinalExitCode` of the registers |

## Left out

- The Verilated core is not modelled. Each cycle, its outputs come in as a `CoreOutputs` parameter and its inputs go out as `CoreInputs`. This leaves out `eval`, the clock toggling, the reset sequence and the static input tie-offs.
- The 20,000,000-cycle `while` loop is not unrolled, and `Verilated::gotFinish` is left out. The model gives one iteration (`Drive`, then `Step`), the loop condition `Running` and the result after the loop (`Finish`). Consecutive iterations are joined through the ghost record of each channel's cycles since reset: `Valid` keeps each channel's queues equal to `RunQueues` of that record, and the `Run…` lemmas state the FIFO order over it.
- The ready signals of the commands and write data are tied to 1, as in the source, so they are not parameters.
- File and process plumbing is left out:
  - opening the HEX file and its error exit;
  - `elf_to_hex`, `pick_objcopy`, `getenv` and `system`;
  - argv handling;
  - `fopen` and `fclose` of the trace files.
- `LoadHex` receives the image as a sequence of lines.
- `log_bus_phase`, the per-kind counters, their 50/200 print caps and the summary line are diagnostics only.
- The trace is modelled as `MemWriteLine` records. The `snprintf`/`fprintf` text is left out.
- HexLoader.LoadHex: requires `LinesReadable`, meaning each record up to the first End Of File record is long enough for the fields the parser reads. The source never checks this, and reading past the end of the line is undefined there.
- Hex.Hti: a character is taken as its code point. A C `char` above 0x7F is signed on common targets, and that case is not modelled.
- Hex.HToI: requires at most 8 characters. With more, the source shifts by 32 or more, which is undefined in C; the loader always passes 2 or 4.
- HexLoader.StoreData: computes the character position `9 + 2i` without 32-bit wrap-around. This differs from the source only for lines longer than 2^32 characters.
- SparseMemory.Memory: pages are values in a map, so aliasing between page buffers is not modelled. The destructor is left out.
- Dram.DramChannel.Consume: requires that a high `rdata_valid` goes with a non-empty queue. `pop_front` on an empty deque is undefined in C++, and the loop's `Drive` always establishes this.
- Peripheral: `peripheral_ADR`, `SEL` and `DAT_MOSI` are taken after their `uint32_t` casts. Wider signal widths are not modelled.
