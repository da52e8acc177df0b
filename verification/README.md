# umac hardware layer in Dafny

A model of the hardware layer of umac, a compact Macintosh 128K/512K
emulator: the parts that sit between the 68000 core and the host.

- **Bus decoder and overlay** (`MachHw`, `Bus`): the 24-bit address map of
  `include/machw.h` (RAM, ROM, VIA, IWM, SCC read and write, the dummy and
  test-switch spaces), chosen by the ROM overlay bit. Guest RAM may be split
  across two host buffers at `RAM_SIZE_LO`. The big-endian accessors sit on
  top of the host buffers. `src/main.c` adds the byte, word and long access
  routines, instruction fetch, the overlay switch driven by VIA port A, the
  IWM stub, the disc hook's magic address, and the reset.
- **VIA** (`Via`): the 6522 of `src/via.c`. It models:
  - the register file;
  - port reads through the data direction registers;
  - change callbacks that fire only when a port value changes;
  - the IER set/clear convention;
  - IFR acknowledgement;
  - the IRQ output, which is reported only on a change;
  - the two shift-register modes the keyboard uses, with the parked
    transmit byte delivered on acknowledgement;
  - the CA1/CA2 events.
- **SCC** (`Scc`): the Z85C30 of `src/scc.c` as far as the mouse needs it:
  - the DCD pins;
  - the change latches, promoted to pending external/status interrupts
    when enabled;
  - the register pointer protocol;
  - WR2, WR9 and WR15;
  - RR0, RR1, RR2 (with the status-modified vector and its acknowledge),
    RR3 and RR15.
- **Input pipeline** (`Input`): the mouse delta accumulator with its clamp,
  the quadrature/DCD tick with SCC back-pressure, and the keyboard's
  single-command, single-event protocol over the VIA shift register.
- **Disc driver bridge** (`Disc`, `Sony`, `DriverCalls`, `PvHook`): the
  replacement `.Sony` driver of `src/disc.c`:
  - drive lookup and drive-number allocation;
  - `set_dsk_err`;
  - Open, Prime (with the split transfer across `RAM_SIZE_LO`), Control
    and Status;
  - the hook that runs them from a byte write by the 68000.

The model is purely functional:
- Callbacks into the rest of the emulator are returned as events.
- `exit_error` is a `Fatal` outcome.
- A host memory access the C code makes without a defined result (a
  misaligned word, or a copy that runs past the end of a host buffer) is
  `None` or `Undefined` rather than a precondition.

The Mac OS ABI constants come from a header that is not part of this model
(parameter-block offsets, low-memory offsets, error codes). They are a
parameter record `Abi`, and its `Valid()` predicate states the only facts
used: noErr is 0, the error codes are distinct negative 16-bit values, and
the disk-in-place and write-protect bytes of the drive status record are
different fields. The values disc.c is built with satisfy it
(`Disc.MacOsAbiValid`).

Prime's transfer comes in two builds. `AsWritten` is `src/disc.c` as it
stands; `Corrected` repairs the two transfer faults listed under
"## Findings". The bus's byte write takes the build as a parameter, so every
bus and hook property holds for the source as written.

## Model

| member | source | states |
|---|---|---|
| MachHw.Adr24Below | include/machw.h:81 | ADR24 leaves an address that is already below 16 MB unchanged |
| MachHw.RamRomDisjoint | include/machw.h:96-98 | under either overlay setting no address is both RAM and ROM |
| MachHw.RegionsIgnoreTopByte | include/machw.h:81-112 | every region test sees only the low 24 address bits, so an address with its top byte set decodes like its 24-bit image |
| MachHw.OverlayOnLayout | include/machw.h:83-98 | with the overlay on, ROM is exactly the first 1 MB and the 1 MB at 0x400000, and RAM is exactly the 2 MB at 0x600000 |
| MachHw.OverlayOffLayout | include/machw.h:83-98 | with the overlay off, RAM is exactly the low 4 MB plus the 2 MB at 0x600000, and ROM is exactly the 1 MB at 0x400000 |
| MachHw.ClampRamAddr | include/machw.h:100-105 | the clamped address is below RAM_SIZE, is the address modulo RAM_SIZE, and is unchanged when already in range |
| MachHw.RamGetBase | include/machw.h:64-72 | a guest RAM address is in a host buffer exactly when it is below RAM_SIZE, and then names the same logical byte |
| MachHw.RamGetBaseSegments | include/machw.h:64-72 | addresses below RAM_SIZE_LO go to the low buffer at the same offset, the rest to the high buffer at the offset minus RAM_SIZE_LO |
| MachHw.RamGetBaseInjective | include/machw.h:64-72 | two guest addresses that map to the same host byte are equal |
| MachHw.HostReadIsLogical | include/machw.h:64-72 | a host read that stays in one buffer lies inside RAM and yields the guest bytes at the same address |
| MachHw.HostWriteIsLogical | include/machw.h:64-72 | a host write that stays in one buffer is the guest-level write of the same bytes at the same address |
| MachHw.Be16RoundTrip | include/machw.h:118-152 | big-endian encoding and decoding of a 16-bit value are inverse in both directions |
| MachHw.Be32RoundTrip | include/machw.h:129-165 | big-endian encoding and decoding of a 32-bit value are inverse in both directions |
| MachHw.Be32HighHalfFirst | include/machw.h:154-165 | the big-endian long is the high word's bytes followed by the low word's |
| MachHw.AccessorsAreBigEndian | include/machw.h:118-165 | on either host byte order, read16 and read32 decode the guest bytes big-endian, and write32 and the corrected write16 encode big-endian |
| MachHw.AccessorRoundTrip | include/machw.h:118-165 | on either host byte order, the corrected write16 and write32 read back through read16 and read32 as the value written |
| MachHw.Write16AsWrittenLittleEndian | include/machw.h:143-152 | on a little-endian host the 16-bit store as written round-trips |
| MachHw.Write16AsWrittenBigEndian | include/machw.h:143-152 | on a big-endian host the 16-bit store as written byte-swaps: 0x1234 reads back as 0x3412 |
| MachHw.RamRead8 | include/machw.h:169 | a byte read succeeds exactly when the address is in RAM, and returns that logical byte |
| MachHw.RamRead16 | include/machw.h:118-127 | a word read is defined exactly when it is aligned and both bytes are in one host buffer, and is then the big-endian value of the two guest bytes |
| MachHw.RamRead32 | include/machw.h:129-141 | a long read is defined exactly when it is aligned and all four bytes are in one host buffer, and is then the big-endian value of the four guest bytes |
| MachHw.RamWrite8 | include/machw.h:174 | a byte write is defined exactly when the address is in RAM, and is the guest-level write of that byte |
| MachHw.RamWrite16 | include/machw.h:143-152 | a word write is defined exactly when it is aligned and both bytes are in one host buffer, and is then the guest-level write of the value's two big-endian bytes |
| MachHw.RamWrite32 | include/machw.h:154-165 | a long write is defined exactly when it is aligned and all four bytes are in one host buffer, and is then the guest-level write of the value's four big-endian bytes |
| MachHw.RamWriteRead8 | include/machw.h:169-174 | a byte written to RAM reads back |
| MachHw.RamWriteRead16 | include/machw.h:170-175 | a word written to RAM reads back |
| MachHw.RamWriteRead32 | include/machw.h:172-176 | a long written to RAM reads back |
| MachHw.RamRead16Frame | include/machw.h:170-176 | a word read is unaffected by a guest write that does not overlap it |
| MachHw.LogicalWriteFrame | include/machw.h:64-72 | a guest write leaves every byte outside the written range unchanged |
| MachHw.RomRead16 | include/machw.h:178-181 | a ROM word read at the address wrapped into ROM is defined exactly when that offset is even and the word lies inside the image, and the two image bytes there are the word's big-endian encoding |
| MachHw.RomRead32 | include/machw.h:178-181 | a ROM long read at the address wrapped into ROM is defined exactly when that offset is even and the long lies inside the image, and the four image bytes there are the long's big-endian encoding |
| Via.PowerOnValid | src/via.c:81-85 | the static initial state satisfies the VIA invariant (masks in range, IRQ level consistent) |
| Via.Init | src/via.c:87-94 | via_init leaves port A selecting the overlay (0x10), every other register 0, and the interrupt state unchanged |
| Via.AssessIrq | src/via.c:166-181 | the IRQ level becomes "some enabled flag active", and the callback fires exactly when that level changes |
| Via.UpdateSr | src/via.c:110-141 | in external-clock shift-out mode the byte is parked and the SR flag raised; in shift-in mode SR reads 0; in any other mode nothing changes |
| Via.SrDone | src/via.c:148-156 | a parked transmit byte is delivered once and then forgotten; with none parked nothing is delivered |
| Via.IerUpdate | src/via.c:209-214 | with bit 7 set the written sources are enabled, otherwise they are disabled; other sources are kept and bit 7 is never stored |
| Via.IfrWrite | src/via.c:215-223 | exactly the written flag bits are cleared, and the parked byte is delivered exactly when the SR flag was active, is acknowledged, and a byte is parked |
| Via.Write | src/via.c:184-234 | every write keeps the invariant, ends with the IRQ level matching the flags, changes the enable mask only through IER, and delivers a parked byte only through IFR |
| Via.WritePort | src/via.c:96-106 | a port write stores the value (RA_ALT into RA) and calls the change callback exactly when the value differs from the stored one |
| Via.WriteIer | src/via.c:209-214 | an IER write updates the enable mask by the set/clear convention |
| Via.WriteIfr | src/via.c:215-223 | an IFR write clears exactly the written flags |
| Via.WriteSrNotStored | src/via.c:205-208 | a shift-register write is handled by the mode logic and the written byte is never stored directly |
| Via.WritePlain | src/via.c:224-232 | writes to the remaining registers store the byte and have no other effect on the register file |
| Via.ReadIfr | src/via.c:236-240 | IFR reads the flags, with bit 7 set exactly when some enabled flag is active |
| Via.PortValue | src/via.c:242-255 | a port reads the stored bits where DDR marks outputs and the input bits elsewhere |
| Via.Read | src/via.c:257-291 | a read changes no register; reading SR acknowledges only the SR flag, and the IRQ callback can fire only for that |
| Via.ReadValue | src/via.c:257-291 | the value of each register read: the ports through their DDR, IFR with its summary bit, IER with bit 7 set, and the stored byte otherwise |
| Via.CaFlag | src/via.c:302-310 | the flag a CA event raises is always one of the three modelled sources |
| Via.CaEvent | src/via.c:302-310 | CA1 raises the CA flag, CA2 the CB flag, and the IRQ is re-assessed; nothing else changes |
| Via.SrRx | src/via.c:312-326 | a keyboard byte is accepted only in shift-in mode, where it lands in SR and raises the SR flag |
| Via.IerWriteThenRead | src/via.c:209-214 | after an IER write an IER read reports the updated mask with bit 7 set |
| Via.WriteIrqEdges | src/via.c:166-181 | after any write, the IRQ callback fires exactly when the line changes, with the new level |
| Via.ParkedTransmitDeliveredOnAck | src/via.c:110-156 | a byte written in external-clock mode is not sent at once; acknowledging the SR flag through IFR sends it, once |
| Via.SrReadKeepsParkedByte | src/via.c:274-276 | reading SR acknowledges the flag but keeps the parked byte |
| Via.ReceiveThenRead | src/via.c:312-326 | a byte received in shift-in mode is what the next SR read returns |
| Scc.PowerOnSettled | src/scc.c:60-64 | the initial state has no stale latch and only the external/status bits pending |
| Scc.Promote | src/scc.c:226-236 | a change latch becomes a pending external/status interrupt exactly when its channel's DCD interrupt is enabled; otherwise it stays latched |
| Scc.AssessIrq | src/scc.c:226-251 | afterwards no enabled latch is left, and the IRQ callback fires exactly when the level changes |
| Scc.SetDcd | src/scc.c:76-86 | the pins take the new levels; a channel's change latch ends set exactly when it was set or its pin changed and its DCD interrupt is off; its pending bit ends set exactly when it was, or when such a change meets an enabled interrupt; nothing but the pins, latches, pending bits and IRQ level changes |
| Scc.Wr0 | src/scc.c:91-110 | the pointer takes the register bits, plus 8 exactly for the "point high" command; nothing else changes |
| Scc.Wr9 | src/scc.c:129-137 | master enable, status-high and read-acknowledge follow bits 3, 4 and 5; nothing else changes |
| Scc.ControlWrite | src/scc.c:253-294 | any write through a nonzero pointer resets the pointer, and no write touches the pins, latches or pending mask |
| Scc.Write | src/scc.c:253-294 | every write ends settled (IRQ re-assessed) and never changes the pins |
| Scc.Rr0 | src/scc.c:146-163 | RR0 is 0x50 with bit 3 set exactly when the addressed channel's DCD pin is high |
| Scc.Rr2Status | src/scc.c:177-206 | channel A's external/status interrupt is reported (code 5) and cleared before channel B's (code 1); with neither pending, code 0 and nothing cleared |
| Scc.ModifiedVector | src/scc.c:177-206 | the status code replaces vector bits 6..4 with status-high set, or bits 3..1 without; the other bits are kept |
| Scc.Rr2B | src/scc.c:177-206 | RR2 on channel B returns the modified vector and clears exactly the bit it reports |
| Scc.ControlRead | src/scc.c:296-335 | a control read changes nothing except possibly clearing pending bits |
| Scc.Read | src/scc.c:296-335 | every read resets the pointer and never raises a pending bit; data-port reads return 0 |
| Scc.SetDcdIdempotent | src/scc.c:76-86 | setting the same pin levels a second time changes nothing |
| Scc.LatchedChangeWaitsForEnable | src/scc.c:226-236 | a change while the DCD interrupt is disabled stays latched, and becomes pending when WR15 enables the interrupt |
| Scc.AcknowledgeChannelA | src/scc.c:177-206 | a DCD change on channel A raises the IRQ; the RR2 read on channel B reports code 5 and clears it, and the next write drops the IRQ |
| Scc.WritePointer | src/scc.c:253-294 | data-port writes only re-assess; a control write with pointer 0 selects a register, and any other control write returns the pointer to 0 |
| Scc.Rr2ChannelA | src/scc.c:177-180 | RR2 through channel A returns the raw vector and consumes nothing |
| Scc.FixedReadRegisters | src/scc.c:146-220 | RR1 reads 0x07, RR3 the pending mask on channel A and 0 on B, RR15 the channel's enable byte masked with 0xfa, and RR0 the pin status |
| Scc.WriteWr15 | src/scc.c:140-143 | WR15 sets the addressed channel's interrupt enables only |
| Scc.WriteWr2 | src/scc.c:113-116 | WR2 sets the shared vector |
| Scc.WriteWr9 | src/scc.c:129-137 | WR9 sets the shared master enable, status-high and read-acknowledge bits |
| Input.Clamp | src/main.c:612-635 | the pending delta is kept within ±30, saturating at the nearer bound |
| Input.MouseInput | src/main.c:621-642 | the deltas accumulate and are clamped, the button level is recorded, and the mouse invariant is kept |
| Input.RbIn | src/main.c:183-190 | port B shows the two quadrature bits, and bit 3 is set while the button is up |
| Input.QuadBit | src/main.c:681-693 | the axis' quadrature bit is set exactly when the direction matches the new phase, and the other bits are kept |
| Input.StepAxis | src/main.c:681-693 | a nonzero delta moves one unit toward zero, toggles the phase and sets the quadrature bit; a zero delta changes nothing |
| Input.MouseTick | src/main.c:644-700 | while the SCC interrupt is outstanding, or with nothing pending, nothing moves; otherwise the new DCD levels are sent to the SCC |
| Input.MouseTickX | src/main.c:675-686 | a moving tick steps the X delta toward zero and toggles DCD A exactly when X was nonzero |
| Input.MouseTickXBit | src/main.c:681-686 | after a moving tick the X quadrature bit reflects the X direction and the new DCD A level |
| Input.MouseTickY | src/main.c:688-699 | a moving tick steps the Y delta toward zero and toggles DCD B exactly when Y was nonzero |
| Input.TicksDrain | src/main.c:644-700 | with the SCC always serviced, n ticks move each delta n units toward zero (stopping at 0) and toggle its DCD line once per unit moved |
| Input.ZeroStaysPut | src/main.c:658-659 | with nothing pending, any number of ticks leaves the mouse unchanged |
| Input.TickHeldWhileIrq | src/main.c:661-662 | while the SCC interrupt is outstanding a tick changes nothing and sends nothing |
| Input.SrTx | src/main.c:220-228 | the command byte and its time are recorded and the pending key event is kept |
| Input.KbdEvent | src/main.c:270-278 | the event slot holds the key code with bit 7 set exactly for a key-up, replacing any earlier event |
| Input.KbdRx | src/main.c:212-253 | the model command answers 0x0b; the inquiry hands over the pending event and empties the slot, or answers 0x7b with none; other commands are not answered |
| Input.Elapsed | src/main.c:263 | the time since the command, with uint64 wrap-around |
| Input.CheckWork | src/main.c:255-268 | a recorded command is answered and cleared only once more than one quantum has passed |
| Input.CommandAnsweredOnSecondPoll | src/main.c:255-268 | a command is not answered at the poll of its own quantum, and is answered at the next one |
| Input.OneEventSlot | src/main.c:230-278 | of two key events not yet polled only the later is reported, and the slot is then empty |
| Disc.MacOsAbiValid | src/disc.c:243-254 | the Mac OS error codes and drive status record offsets disc.c is built with meet every assumption the model makes of the constants |
| Disc.SonyInit | src/disc.c:160-171 | drive slot 0 takes the first disc's contents and flags and waits to be mounted; slot 1 stays zeroed |
| Disc.GetDriveInfo | src/disc.c:147-154 | the first slot with the requested number, and None exactly when no slot has it |
| Disc.InitFindsDriveZero | src/disc.c:147-171 | right after initialisation, drive number 0 finds slot 0 |
| Disc.SetDskErr | src/disc.c:177-182 | the code is stored in the DskErr word and reads back, and nothing else changes |
| Disc.MaxNumber | src/disc.c:188-205 | the largest drive number in the queue, which is itself in the queue |
| Disc.FindFreeDriveNumber | src/disc.c:188-205 | the smallest number from the start value on that no queued drive uses |
| Disc.Fail | src/disc.c:177-182 | a transfer that stops with a code leaves the disc contents as they were and the code in DskErr |
| Disc.Fetch | src/disc.c:266-284 | a copying drive delivers the image bytes at the position; a failing callback gives paramErr; a missing one gives offLinErr |
| Disc.DoRead | src/disc.c:266-284 | do_read copies the disc bytes into host memory with code 0, or fails with paramErr or offLinErr recorded in DskErr; the disc is never changed |
| Disc.DoWrite | src/disc.c:286-304 | do_write overwrites the disc at the position with the source bytes and leaves RAM alone, or fails with paramErr or offLinErr recorded in DskErr |
| Disc.SplitPlan | src/disc.c:343-390 | the three cases of a split transfer are adjacent runs covering the whole request, with only the middle sector straddling RAM_SIZE_LO |
| Disc.SplitNoUnderflow | src/disc.c:343-349 | the unsigned count of sectors after the straddling one never underflows |
| Disc.ClearTagBuf | src/disc.c:400-403 | clearing TagBuf writes twelve zero bytes at 0x2fc |
| Disc.ReadStraddle | src/disc.c:362-382 | the straddling sector is read whole, or the read fails with its callback's code; the disc is unchanged |
| Disc.ReadPlan | src/disc.c:316-406 | a split read never changes the disc and fails only with the read callback's code, recorded in DskErr |
| Disc.WriteStraddle | src/disc.c:434-457 | the straddling sector is written from both host buffers without changing RAM, or fails with the callback's code |
| Disc.WritePlan | src/disc.c:408-475 | a split write never changes RAM when it copies, and fails only with the write callback's code |
| Disc.CopyInIsLogical | src/disc.c:266-284 | a host copy into guest RAM that stays on one side of the split is the guest-level write of the same bytes |
| Disc.CopyOutIsLogical | src/disc.c:286-304 | a host copy out of guest RAM that stays on one side of the split reads the guest bytes |
| Disc.SplitCopyInIsLogical | src/disc.c:362-382 | the two memcpys of the straddling sector together write the whole sector at its guest address |
| Disc.SplitCopyOutIsLogical | src/disc.c:434-457 | the two memcpys into the sector buffer together read the sector's guest bytes |
| Disc.ReadPlanIsContiguous | src/disc.c:316-406 | with a copying read callback, the three cases of a split read leave RAM as one contiguous read of the request would |
| Disc.ReadPlanCompletes | src/disc.c:316-406 | when all three cases succeed the read ends with TagBuf cleared |
| Disc.ContiguousReadSucceeds | src/disc.c:316-406 | a contiguous read from a copying drive completes when TagBuf lies in the low buffer |
| Disc.ReadPlanFails | src/disc.c:316-406 | without a copying read callback a split read fails at its first non-empty case with that callback's code |
| Disc.ReadSpecialIsContiguous | src/disc.c:316-406 | SonyPrime_read_special behaves exactly like one contiguous read of the request |
| Disc.WritePlanIsContiguous | src/disc.c:408-475 | with a copying write callback, the three cases of a split write store exactly what one contiguous write would |
| Disc.WritePlanCompletes | src/disc.c:408-475 | when all three cases succeed the write ends with the image the last case left |
| Disc.WritePlanFails | src/disc.c:408-475 | without a copying write callback a split write fails at its first non-empty case with that callback's code |
| Disc.WriteSpecialIsContiguous | src/disc.c:408-475 | SonyPrime_write_special behaves exactly like one contiguous write of the request |
| Sony.Finish | src/disc.c:177-182 | a routine's end leaves its code in DskErr and reports it unchanged |
| Sony.PrimeRead | src/disc.c:479-504 | a Prime read never changes the disc, and ends with code 0 or the read callback's code, recorded in DskErr |
| Sony.BufferRead | src/disc.c:479-504 | the same for a buffer whose guard address and copy address are given separately |
| Sony.PrimeWrite | src/disc.c:506-524 | a Prime write ends with code 0, the write callback's code or wPrErr; the corrected build refuses a read-only drive with wPrErr |
| Sony.BufferWrite | src/disc.c:506-524 | a non-straddling write to a read-only drive is refused with wPrErr |
| Sony.BufferReadIsContiguous | src/disc.c:479-504 | when the guard sees the copy address, a Prime read is one contiguous read on either side of RAM_SIZE_LO or across it |
| Sony.BufferWriteIsContiguous | src/disc.c:506-524 | when the guard sees the copy address, a Prime write from a writable drive is one contiguous write |
| Sony.PrimeReadIsContiguous | src/disc.c:479-504 | in the corrected build a Prime read into guest RAM is one contiguous read at the buffer's 24-bit address |
| Sony.PrimeWriteIsContiguous | src/disc.c:506-524 | in the corrected build a Prime write is refused with wPrErr on a read-only drive and is otherwise one contiguous write |
| Sony.BufferReadOverruns | src/disc.c:479-504 | a read whose guard address lies past RAM while its copy straddles the split runs past the low host buffer |
| Sony.UnmaskedGuardOverruns | src/disc.c:486-487 | as written, a buffer address with its top byte set whose 24-bit address straddles the split overruns the low buffer, while the corrected guard completes the read |
| Sony.BufferWriteStraddling | src/disc.c:408-475 | a straddling write from a copying drive overwrites the disc with the guest bytes, whatever the drive's read-only flag |
| Sony.StraddlingWriteIgnoresReadOnly | src/disc.c:506-524 | as written, a straddling write to a read-only drive overwrites the disc and reports success; the corrected build refuses it with wPrErr |
| Sony.SonyPrime | src/disc.c:530-571 | every Prime outcome has its code in DskErr, a code among noErr, nsDrvErr, offLinErr, paramErr and wPrErr, no eject, and only drive contents changed |
| Sony.PrimeDrive | src/disc.c:539-571 | once the drive is found the code is never nsDrvErr; a zero disk-in-place byte gives offLinErr with ioActCount untouched; otherwise the byte is set to 2 first, and a rejected request gives paramErr with the byte still reading 2 and ioActCount untouched (when none of them overlaps DskErr) |
| Sony.PrimeRequest | src/disc.c:543-571 | once the request is read every outcome keeps Prime's properties and the code is not nsDrvErr |
| Sony.PrimeChecked | src/disc.c:547-556 | a length or position that is not a whole number of sectors, or a transfer past the end of the disc, ends with paramErr and writes nothing but DskErr |
| Sony.PrimeTransfer | src/disc.c:558-571 | once the parameters are checked the code is noErr, offLinErr, paramErr or wPrErr, and the outcome keeps Prime's properties |
| Sony.MarkKeeps | src/disc.c:541 | the disk-in-place byte reads 2 after marking, and a long clear of it keeps its value |
| Sony.ExitKeeps | src/disc.c:538-556 | an early exit through set_dsk_err keeps every long and byte clear of DskErr |
| Sony.PrimeIo | src/disc.c:559-563 | the transfer ends with code 0, a callback's code or wPrErr, and a nonzero code is in DskErr |
| Sony.PrimeDone | src/disc.c:567-570 | a successful Prime reports noErr, mirrored in DskErr, with the drives unchanged; when the stores do not overlap, ioActCount reads 0 and dCtlPosition is where it was |
| Sony.StoreActualKeepsPosition | src/disc.c:567-569 | ioActCount is left at 0 and dCtlPosition where it was |
| PrimePaths.ActClearedReadBack | src/disc.c:532 | Prime's first store leaves ioActCount reading 0 |
| PrimePaths.SonyPrimeNoDriveStep | src/disc.c:532-538 | with ioActCount cleared and no drive for ioVRefNum, Prime ends at set_dsk_err(nsDrvErr) on the cleared RAM |
| PrimePaths.SonyPrimeDriveStep | src/disc.c:532-538 | with ioActCount cleared and drive `i` found for ioVRefNum, Prime goes on with that drive on the cleared RAM |
| PrimePaths.SonyPrimeNoDrive | src/disc.c:532-538 | no drive for ioVRefNum: nsDrvErr, mirrored in DskErr, with ioActCount reading 0 |
| PrimePaths.SonyPrimeNsDrvErr | src/disc.c:535-538 | Prime reports nsDrvErr exactly when no drive has the number in ioVRefNum |
| PrimePaths.SonyPrimeOffline | src/disc.c:532-540 | a zero disk-in-place byte: offLinErr, mirrored in DskErr, with ioActCount reading 0 |
| PrimePaths.SonyPrimeBadRequest | src/disc.c:532-556 | a rejected length or position: paramErr, mirrored in DskErr, with the disk-in-place byte reading 2 and ioActCount reading 0 |
| Sony.StoreBytes | src/disc.c:245-252 | byte stores at offsets from a base keep the RAM shape and leave everything below the base unchanged |
| Sony.StoreBytesReadBack | src/disc.c:245-252 | each stored field reads back when no later field overwrites it |
| Sony.WriteStatusRecord | src/disc.c:243-254 | filling in the status record changes nothing below it |
| Sony.StatusRecordReadBack | src/disc.c:243-254 | the status record reads disk-in-place 1, and write protection 0xff exactly for a read-only drive |
| Sony.DriverVersion | src/disc.c:218 | qFlags keeps its high byte and takes driver version 3 in its low byte |
| Sony.SetUpDceReadBack | src/disc.c:217-218 | after the DCE set-up, dCtlPosition reads 0 and qFlags reads its old high byte over version 3 |
| Sony.OpenedDrive | src/disc.c:231-238 | drive 0 gets the first free drive number from 1 on, the status record address, and is flagged for mounting |
| Sony.SonyOpen | src/disc.c:212-264 | Open reports noErr without an eject and changes only drive 0, as OpenedDrive describes |
| Sony.OpenGlobals | src/disc.c:217-224 | the writes before the status record leave DskErr at 0 |
| Sony.OpenMirrored | src/disc.c:224-254 | with the status record above DskErr, Open leaves noErr in DskErr |
| Sony.OpenStatusRecord | src/disc.c:243-254 | Open marks the disk in place and write-protects it exactly when the drive is read-only |
| Sony.Mask512 | src/disc.c:548 | a long that passes the 0x1ff mask test is a whole number of sectors |
| DriverCalls.SonyControl | src/disc.c:578-686 | every Control outcome has its code in DskErr, a code among -1, noErr, nsDrvErr, offLinErr, wPrErr and controlErr, the drives unchanged, and an eject only with noErr |
| DriverCalls.ControlCall | src/disc.c:578-686 | the same, with the parameter-block fields at given addresses |
| DriverCalls.ControlDrive | src/disc.c:608-685 | the same for the drive-specific codes |
| DriverCalls.VerifyDisk | src/disc.c:611-615 | Control 5 reports offLinErr exactly when the disk-in-place byte is 0, and noErr otherwise, without an eject |
| DriverCalls.EjectDisk | src/disc.c:628-636 | Control 7 always reports noErr and leaves the drives unchanged |
| DriverCalls.Eject | src/disc.c:628-636 | the disk-in-place byte is cleared, and an eject is reported exactly when it was nonzero |
| DriverCalls.DriveKind | src/disc.c:649-655 | the drive kind is the internal drive (0x0004) exactly for drive number 1, and the external drive (0x0104) otherwise |
| DriverCalls.GetDriveKind | src/disc.c:649-655 | Control 23 stores the drive kind and reports noErr |
| DriverCalls.EjectTwice | src/disc.c:628-636 | ejecting an ejected drive reports nothing and changes nothing |
| DriverCalls.GeneralControl | src/disc.c:584-601 | the general codes are answered before the drive lookup: code 9 gives noErr, the others -1 |
| DriverCalls.ControlNoDrive | src/disc.c:603-606 | nsDrvErr is reported exactly for a drive-specific code with no drive of the requested number |
| DriverCalls.ControlUnknownCode | src/disc.c:678-681 | controlErr is reported exactly for the drive-specific codes Control does not know |
| DriverCalls.EjectDiskClears | src/disc.c:628-636 | after Control 7 the disk-in-place byte reads 0, and an eject is reported exactly when it was nonzero |
| DriverCalls.DriveKindReadBack | src/disc.c:649-655 | after Control 23 csParam reads the drive kind |
| DriverCalls.SonyStatus | src/disc.c:693-756 | every Status outcome has its code in DskErr, a code among noErr, nsDrvErr, paramErr and statusErr, the drives unchanged and no eject |
| DriverCalls.StatusCall | src/disc.c:693-756 | the same, with the parameter-block fields at given addresses |
| DriverCalls.StatusDrive | src/disc.c:703-755 | once the drive is found, the code is noErr, paramErr or statusErr |
| DriverCalls.StatusNoDrive | src/disc.c:699-701 | nsDrvErr is reported exactly when no drive has the requested number, whatever the code |
| DriverCalls.StatusUnknownCode | src/disc.c:748-751 | statusErr is reported exactly for the codes Status does not know |
| DriverCalls.StatusConstantsReadBack | src/disc.c:727-746 | after Status 10 csParam reads the disk type, and after 'SC' it reads the header format byte |
| DriverCalls.GetFormats | src/disc.c:705-721 | Status 6 fails with paramErr exactly when the requested count is 0 |
| DriverCalls.FormatEntryReadBack | src/disc.c:716-717 | the format entry reads back its sector count and flags |
| DriverCalls.FormatListReadBack | src/disc.c:714-717 | after the format list is written the count reads 1 and the entry reads back |
| DriverCalls.GetFormatsReadBack | src/disc.c:705-721 | Status 6 with a nonzero count leaves count 1 and the format entry |
| DriverCalls.StatusCopy | src/disc.c:723-725 | the memcpy keeps the RAM shape |
| DriverCalls.StatusCopyCopies | src/disc.c:723-725 | the copy succeeds exactly when both records lie in one host buffer each, and is then the guest-level copy of the 22 status bytes |
| DriverCalls.StatusDriveStatus | src/disc.c:723-725 | after Status 8 csParam holds a copy of the drive's status record |
| PvHook.D0 | src/disc.c:52-78 | the int16_t code assigned to D0 has the code's word in the low half and the sign in the high half |
| PvHook.SignExtend | src/disc.c:78 | a word widened with ones above it exactly when negative |
| PvHook.PvHook | src/disc.c:47-80 | an unknown routine returns -1 and changes nothing; a known one returns 0; A0-A2 and the drive queue are kept |
| PvHook.Deliver | src/disc.c:74-79 | the routine's RAM, drives and eject are kept and its code goes to D0 exactly when it fits in 16 bits |
| PvHook.RoutineCodesFit | src/disc.c:47-80 | the hook fails only where its routine does |
| PvHook.RoutineCodes | src/disc.c:47-80 | every routine's code is one of the driver's error codes or -1 |
| PvHook.HookReportsCode | src/disc.c:47-80 | a handled call keeps the routine's RAM, drives and eject, and puts its code sign-extended in D0 |
| PvHook.HookMirrorsD0 | src/disc.c:47-80 | after a handled call DskErr equals the low word of D0 |
| Bus.RamAddr | src/main.c:367-368 | the bus address of a RAM access is inside RAM |
| Bus.RaChanged | src/main.c:145-161 | the overlay follows port A bit 4, the value is remembered, and the fetch routine switches only when bit 4 changed |
| Bus.ViaCallback | src/main.c:145-228 | a VIA callback changes only the overlay state and the keyboard, and keeps the overlay consistent |
| Bus.ViaCallbacks | src/main.c:145-228 | a sequence of VIA callbacks changes only the overlay state and the keyboard |
| Bus.SccCallbacks | src/main.c:294-304 | SCC callbacks change only the remembered SCC IRQ level, one CPU interrupt event each |
| Bus.IwmIndex | src/main.c:313-324 | the IWM register is one of 16 |
| Bus.ReadByte | src/main.c:364-384 | a byte read never ends the emulator, never changes RAM or ROM, and keeps the overlay consistent |
| Bus.WriteByte | src/main.c:439-468 | a byte write, with either build of Prime behind the hook, never changes ROM and keeps the overlay consistent |
| Bus.HookWrite | src/main.c:461-466 | a hook write, with either build of Prime, ends the emulator exactly when the hook rejects the routine number, and changes only the registers, RAM and drives |
| Bus.HookWriteOfHooked | src/main.c:461-466 | a handled hook write completes exactly when disc_pv_hook does, with its registers, RAM and drives, and an eject event exactly when it ejected |
| Bus.WriteWord | src/main.c:470-477 | a word write never ends the emulator and is dropped outside RAM |
| Bus.WriteLong | src/main.c:479-486 | a long write never ends the emulator and is dropped outside RAM |
| Bus.MouseStep | src/main.c:644-700 | a mouse tick changes neither memory nor the VIA |
| Bus.KeyboardStep | src/main.c:255-268 | a keyboard poll changes neither memory nor the SCC, and keeps the overlay consistent |
| Bus.ResetAsWritten | src/main.c:702-706 | the reset as written sets the overlay flag but neither the fetch routine nor the remembered port A value |
| Bus.Reset | src/main.c:702-706 | the corrected reset restores the overlay, its fetch routine, and port A bit 4, and changes nothing else |
| Bus.ResetAsWrittenSplitsFetch | src/main.c:702-706 | as written, resetting a machine with the overlay off fetches instructions from RAM at address 0 while data reads there see ROM |
| Bus.ResetKeepsFetchAgreement | src/main.c:702-706 | after the corrected reset, fetch and data reads agree at every RAM or ROM address |
| Bus.ReadByteDecode | src/main.c:364-384 | a byte read returns the RAM byte at the address wrapped into RAM, the ROM byte at the address wrapped into ROM, and 0 from unmapped space |
| Bus.WideReadFatal | src/main.c:386-412 | a word or long read ends the emulator exactly outside RAM, ROM and the test-switch space, which reads 0 |
| Bus.WideRamReadsBigEndian | src/main.c:386-412 | word and long RAM reads are big-endian reads at the address wrapped into RAM |
| Bus.WriteByteFatal | src/main.c:439-468 | a byte write ends the emulator exactly when it hits the hook address with an unknown routine number |
| Bus.HookNeedsExactAddress | src/main.c:461 | the hook compares the full 32-bit address, so an alias of the hook address with a different top byte does nothing |
| Bus.HookWriteRunsRoutine | src/main.c:461-466 | a handled routine number runs the routine of the chosen build: the write completes exactly when the routine does, with its RAM, drives and code, and an eject event exactly when it ejected |
| Bus.WideWritesOutsideRamDropped | src/main.c:470-486 | word and long writes outside RAM change nothing |
| Bus.ByteRoundTrip | src/main.c:439-468 | a byte written to RAM reads back through the bus |
| Bus.WordRoundTrip | src/main.c:470-477 | a word written to RAM reads back through the bus |
| Bus.LongRoundTrip | src/main.c:479-486 | a long written to RAM reads back through the bus |
| Bus.IwmWriteRead | src/main.c:311-338 | the IWM stub stores a written byte, except that registers 8 and 14 always read 0xff and 0x1f |
| Bus.PortAWriteSetsOverlay | src/main.c:439-450 | a port A write stores the byte; when it changes port A the overlay follows bit 4, and otherwise the overlay state is untouched |
| Bus.ViaCallbacksNoRa | src/main.c:145-161 | callbacks without a port A change leave the overlay state alone |
| Bus.FetchMatchesReadWord | src/main.c:342-361 | with the overlay consistent, instruction fetch and data word reads agree at every RAM or ROM address |
| Bus.FetchOutsideRamRom | src/main.c:342-349 | outside RAM and ROM, fetch reads RAM at the wrapped address |

## Left out

- Host integer width: `size_t` and pointer arithmetic are treated as
  unbounded, which matches a 64-bit host. 32-bit guest values are `bv32`,
  and the C code's 16- and 8-bit truncations are written out. The signed
  `int` sums `pending_mouse_deltax += deltax` and `pending_mouse_deltay +=
  deltay` in umac_mouse (src/main.c:623-624) are unbounded here; in C they
  can overflow, which is undefined behaviour, before the clamp to
  `MOUSE_MAX_PENDING_PIX` runs.
- PrimePaths.SonyPrimeNoDrive, PrimePaths.SonyPrimeOffline,
  PrimePaths.SonyPrimeBadRequest, Sony.PrimeDrive, Sony.PrimeDone: the
  read-backs of ioActCount, the disk-in-place byte and dCtlPosition are
  stated only when these fields do not overlap DskErr or each other; when
  they do, the later store wins and the model computes that, but no
  contract states the resulting bytes.
- The Mac OS ABI constants (parameter-block, DCE and low-memory offsets,
  error codes, trap numbers) come from a header that is not part of this
  model. They are the `Abi` parameter, and only `Abi.Valid()` is assumed of
  them; `Disc.MacOsAbiValid` shows that the Mac OS values satisfy it.
- `ROM_SIZE` comes from a header that is not part of this model. The ROM
  mask `addr & (ROM_SIZE-1)` is modelled as `addr % |rom|`, which is the
  same for the power-of-two sizes used.
- The drive queue is a linked list in guest memory. It is modelled as the
  sequence of drive numbers it holds; walking the list is not modelled.
- Callbacks are returned as events rather than called: `m68k_set_virq`,
  the VIA port-change and shift-register callbacks, the SCC IRQ and DCD
  calls, and `umac_disc_ejected`. The eject event stands for
  `umac_disc_ejected`, whose behaviour depends on the build: under `SIM`
  it exits, otherwise it resets.
- `exit_error` and its register dump are the `Fatal` outcome. `printf`
  diagnostics are left out.
- The Musashi 68000 core, `m68k_pulse_reset`, `cpu_pulse_reset`,
  `cpu_irq_ack`, `int_controller_set`/`_clear`, `cpu_instr_callback` and
  the disassembler entry points (`*_dasm`, `make_hex`) are left out. The
  CPU registers the hook touches are a parameter.
- `via_ra_in` always returns 0, and `via_rb_in` is `Input.RbIn`. Both are
  passed to `Via.Read` as parameters.
- `via_tick` and its one-second and vertical-blank timers are left out,
  because they depend on the host clock. The CA events they raise are
  modelled by `Via.CaEvent`.
- The disc callbacks `op_read` and `op_write` are abstracted to three
  behaviours: missing, failing, or copying against the drive's contents.
- `umac_init`, `umac_loop`'s call into the CPU, the ROM patcher,
  `unix_main.c`, the SDL keymap and the tools are outside this model.
- SCC `scc_wr3` only comments on hunt mode and has no effect, so it is
  modelled as a write with no effect.
- Sony.PrimeReadIsContiguous: stated only for a transfer of at least one
  sector, because an empty transfer has no split to compare.
- Sony.PrimeWriteIsContiguous: stated only for a transfer of at least one
  sector, for the same reason.
- Sony.Mask512: proves only that the mask test implies a whole number of
  sectors, not the converse, which the model does not use.
- DriverCalls.GetFormats: the list address read from csParam is used
  without the 24-bit mask, exactly as the source does. The second long at
  address + 4 is not wrapped.
- DriverCalls.FormatListReadBack: requires the entry not to overlap the
  count word, which the source does not check.
- PvHook.HookMirrorsD0: Open's DskErr is stated only when its status
  record lies above DskErr, because a record overlapping DskErr would
  overwrite it.
- Sony.OpenMirrored: needs the status record above DskErr, for the same
  reason.
- Sony.SonyOpen: the fake `SonyVars` long and the installed, sides and
  format bytes of the status record are written but not stated. Only the
  drives, the code, DskErr, the DCE fields, disk-in-place and write
  protection are stated. The 68000 stub inserts the drive into the drive
  queue after the call, so that insertion is outside the routine.
- Bus.WriteWord: the bus stores words with the corrected `write16`, which
  is what `include/machw.h` does on a little-endian host. On a big-endian
  host the header as written swaps the bytes (see "## Findings"), so
  `Bus.WordRoundTrip` describes the source only on a little-endian host.
- Prime's transfer count `actual` is always 0 in the source, so
  `dCtlPosition` never advances. The model follows the code rather than the
  documented behaviour, which says the position advances.

## Findings

| source | as written | input that shows it | evidently intended | confidence | as-written member | corrected member |
|---|---|---|---|---|---|---|
| include/machw.h:147 | the byte-order test is misspelt as `BYE_ORDER`, so a big-endian host takes the byte-swapping store in `write16` | on a big-endian host, storing 0x1234 and reading it back with `read16` gives 0x3412 | test `BYTE_ORDER`, so a word written with `write16` reads back unchanged on either host | high (not executed) | MachHw.Write16AsWrittenBigEndian | MachHw.AccessorRoundTrip |
| src/disc.c:486-487 | the straddle guard compares the full 32-bit `ioBuffer` with `RAM_SIZE_LO`, while the copy goes through `Mac2HostAddr`, which masks the address to 24 bits | an `ioBuffer` of 0x01000000 plus an address just below `RAM_SIZE_LO`, with a request reaching past it, skips the split path, and one memcpy runs past the end of the low host buffer | compare the 24-bit address, so the transfer is split and equals one contiguous copy | medium (not executed) | Sony.UnmaskedGuardOverruns | Sony.PrimeReadIsContiguous |
| src/disc.c:506-524 | `SonyPrime_write` checks the read-only flag only on the non-straddling path, so a write that straddles `RAM_SIZE_LO` goes to a read-only drive | a read-only drive and a write whose buffer starts below `RAM_SIZE_LO` and reaches it: the disc is overwritten and noErr is reported | refuse the write with wPrErr whatever the buffer address | high (not executed) | Sony.StraddlingWriteIgnoresReadOnly | Sony.PrimeWriteIsContiguous |
| src/main.c:702-706 | `umac_reset` sets `overlay = 1` but does not call `update_overlay_layout` or reset the remembered port A value | a machine running with the overlay off is reset: data reads at address 0 see ROM while instruction fetch there still reads RAM | restore the power-on memory map as a whole, so fetch and data reads agree | medium (not executed) | Bus.ResetAsWrittenSplitsFetch | Bus.ResetKeepsFetchAgreement |
