/** The memory bus of src/main.c: the CPU's byte, word and long accesses
    decoded through the region predicates of include/machw.h onto RAM, ROM,
    the VIA, the IWM stub, the SCC and the disc driver hook; the overlay bit
    the VIA's port A drives; instruction fetch; and the wiring of the VIA,
    SCC, mouse and keyboard callbacks.

    exit_error is the `Fatal` outcome.  A host access the C code makes
    without a defined result (a misaligned word, a word past the end of a
    host buffer) is `Undefined`.  m68k_set_virq and umac_disc_ejected are
    emitted events. */
module Bus {
  import opened Maybe
  import opened MachHw
  import V = Via
  import S = Scc
  import opened Input
  import opened Disc
  import opened Sony
  import opened PvHook

  /** The IWM stub's 16 register bytes. */
  type IwmRegs = s: seq<Byte> | |s| == 16 witness seq(16, _ => 0)

  /** The state main.c keeps.  `oldRa` is via_ra_changed's static `oldval`.
      `overlayFetch` says which routine cpu_read_instr points at: true for
      cpu_read_instr_overlay.  `sccIrq` is scc_irq_state.  `now` is
      global_time_us. */
  datatype Emulator = Emulator(
    overlay: bool, oldRa: Byte, overlayFetch: bool,
    ram: Ram, rom: seq<Byte>,
    via: V.Via, scc: S.Scc, iwm: IwmRegs,
    mouse: Mouse, kbd: Keyboard, sccIrq: bool,
    cpu: Cpu, drives: Drives, queue: seq<int>,
    now: Time)
  {
    /** RAM_SIZE and ROM_SIZE are nonzero build constants. */
    predicate Valid() {
      ram.Size() > 0 && |rom| > 0
    }
  }

  /** Calls out of the bus: m68k_set_virq(level, on), umac_disc_ejected. */
  datatype Event = Virq(level: nat, on: bool) | DiscEjected

  /** A bus access: the new state, the value read (0 for a write) and the
      events, or exit_error, or a host access with no defined result. */
  datatype Access = Done(e: Emulator, value: bv32, events: seq<Event>) | Fatal | Undefined

  /** The overlay flag is bit 4 of the last port A value, and the fetch
      routine matches it.  The power-on values (overlay 1, oldval 0x10,
      cpu_read_instr_overlay) satisfy it. */
  predicate OverlayConsistent(e: Emulator) {
    && e.overlay == ((e.oldRa & 0x10) != 0)
    && e.overlayFetch == e.overlay
  }

  /** The logical RAM address the bus uses: CLAMP_RAM_ADDR of the full
      32-bit address. */
  function RamAddr(e: Emulator, address: Addr): (r: nat)
    requires e.Valid()
    ensures r < e.ram.Size()
  {
    ClampRamAddr(address as nat, e.ram.Size())
  }

  // ---------------------------------------------------------------------------
  // Callbacks

  /** via_ra_changed: the overlay follows bit 4, and the fetch routine is
      re-chosen only when bit 4 differs from the previous value. */
  function RaChanged(e: Emulator, val: Byte): (r: Emulator)
    ensures r.overlay == ((val & 0x10) != 0) && r.oldRa == val
    ensures r.overlayFetch != e.overlayFetch ==> ((e.oldRa ^ val) & 0x10) != 0
    ensures OverlayConsistent(e) ==> OverlayConsistent(r)
    ensures r == e.(overlay := r.overlay, oldRa := val, overlayFetch := r.overlayFetch)
  {
    var overlay := (val & 0x10) != 0;
    var fetch := if ((e.oldRa ^ val) & 0x10) != 0 then overlay else e.overlayFetch;
    e.(overlay := overlay, oldRa := val, overlayFetch := fetch)
  }

  /** One VIA callback: port A drives the overlay, port B is ignored, a
      shifted-out byte goes to the keyboard, the IRQ line to level 1. */
  function ViaCallback(e: Emulator, ev: V.Event): (r: (Emulator, seq<Event>))
    ensures OverlayConsistent(e) ==> OverlayConsistent(r.0)
    ensures r.0 == e.(overlay := r.0.overlay, oldRa := r.0.oldRa, overlayFetch := r.0.overlayFetch, kbd := r.0.kbd)
  {
    match ev
    case RaChange(val) => (RaChanged(e, val), [])
    case RbChange(_) => (e, [])
    case SrTx(data) => (e.(kbd := SrTx(e.kbd, data, e.now)), [])
    case IrqSet(on) => (e, [Virq(1, on)])
  }

  /** The VIA's callbacks, in the order it made them. */
  function ViaCallbacks(e: Emulator, evs: seq<V.Event>): (r: (Emulator, seq<Event>))
    ensures OverlayConsistent(e) ==> OverlayConsistent(r.0)
    ensures r.0 == e.(overlay := r.0.overlay, oldRa := r.0.oldRa, overlayFetch := r.0.overlayFetch, kbd := r.0.kbd)
    decreases |evs|
  {
    if evs == [] then (e, [])
    else
      var first := ViaCallback(e, evs[0]);
      var rest := ViaCallbacks(first.0, evs[1..]);
      (rest.0, first.1 + rest.1)
  }

  /** The SCC's callbacks: scc_irq_set records the level and raises level 2. */
  function SccCallbacks(e: Emulator, evs: seq<S.Event>): (r: (Emulator, seq<Event>))
    ensures r.0 == e.(sccIrq := r.0.sccIrq)
    ensures |r.1| == |evs|
    decreases |evs|
  {
    if evs == [] then (e, [])
    else
      var rest := SccCallbacks(e.(sccIrq := evs[0].on), evs[1..]);
      (rest.0, [Virq(2, evs[0].on)] + rest.1)
  }

  /** The state after a VIA access: the new VIA, then its callbacks. */
  function AfterVia(e: Emulator, v: V.Via, evs: seq<V.Event>, value: bv32): (r: Access)
    ensures r.Done? && r.value == value
    ensures r.e == e.(via := v, overlay := r.e.overlay, oldRa := r.e.oldRa, overlayFetch := r.e.overlayFetch, kbd := r.e.kbd)
    ensures OverlayConsistent(e) ==> OverlayConsistent(r.e)
  {
    var c := ViaCallbacks(e.(via := v), evs);
    Done(c.0, value, c.1)
  }

  /** The state after an SCC access. */
  function AfterScc(e: Emulator, s: S.Scc, evs: seq<S.Event>, value: bv32): (r: Access)
    ensures r.Done? && r.e == e.(scc := s, sccIrq := r.e.sccIrq)
  {
    var c := SccCallbacks(e.(scc := s), evs);
    Done(c.0, value, c.1)
  }

  // ---------------------------------------------------------------------------
  // IWM stub

  /** The IWM register an address selects: bits 12..9. */
  function IwmIndex(address: Addr): (r: nat)
    ensures r < 16
  {
    ((address >> 9) & 0xf) as nat
  }

  /** iwm_read: the stored byte, except register 8 (0xff) and 14 (0x1f). */
  function IwmRead(iwm: IwmRegs, address: Addr): Byte {
    var r := IwmIndex(address);
    if r == 8 then 0xff else if r == 14 then 0x1f else iwm[r]
  }

  // ---------------------------------------------------------------------------
  // Reads

  /** A 16-bit RAM or ROM read as an access result; a host read with no
      defined result is Undefined. */
  function Word16Access(e: Emulator, v: Option<bv16>): (r: Access)
    ensures !r.Fatal? && (r.Done? <==> v.Some?)
    ensures r.Done? ==> r.e == e && r.events == []
    ensures r.Done? ==> r.value == Widen16(v.value)
  {
    match v
    case None => Undefined
    case Some(x) => Done(e, Widen16(x), [])
  }

  /** A word zero-extended to the 32-bit bus value. */
  function Widen16(x: bv16): bv32 {
    x as bv32
  }

  /** A 32-bit RAM or ROM read as an access result. */
  function Word32Access(e: Emulator, v: Option<bv32>): (r: Access)
    ensures !r.Fatal? && (r.Done? <==> v.Some?)
    ensures r.Done? ==> r.e == e && r.events == []
    ensures r.Done? ==> r.value == v.value
  {
    match v
    case None => Undefined
    case Some(x) => Done(e, x, [])
  }

  /** cpu_read_byte: RAM, ROM, VIA, IWM, SCC in that order; the dummy
      region and any other address read 0. */
  function ReadByte(e: Emulator, address: Addr): (r: Access)
    requires e.Valid()
    ensures r.Done?
    ensures r.e.ram == e.ram && r.e.rom == e.rom
    ensures OverlayConsistent(e) ==> OverlayConsistent(r.e)
  {
    if IsRam(address, e.overlay) then Done(e, RamRead8(e.ram, RamAddr(e, address)).value as bv32, [])
    else if IsRom(address, e.overlay) then Done(e, RomRead8(e.rom, address) as bv32, [])
    else if IsVia(address) then
      var s := V.Read(e.via, V.RegIndex(address), 0, RbIn(e.mouse));
      AfterVia(e, s.via, s.events, s.value as bv32)
    else if IsIwm(address) then Done(e, IwmRead(e.iwm, address) as bv32, [])
    else if IsSccRd(address) then
      var s := S.Read(e.scc, address);
      Done(e.(scc := s.scc), s.value as bv32, [])
    else Done(e, 0, [])
  }

  /** cpu_read_word: RAM, ROM, 0 from the test-switch region, otherwise
      exit_error. */
  function ReadWord(e: Emulator, address: Addr): (r: Access)
    requires e.Valid()
  {
    if IsRam(address, e.overlay) then Word16Access(e, RamRead16(e.ram, RamAddr(e, address)))
    else if IsRom(address, e.overlay) then Word16Access(e, RomRead16(e.rom, address))
    else if IsTestSw(address) then Done(e, 0, [])
    else Fatal
  }

  /** cpu_read_long, the same decode as cpu_read_word. */
  function ReadLong(e: Emulator, address: Addr): (r: Access)
    requires e.Valid()
  {
    if IsRam(address, e.overlay) then Word32Access(e, RamRead32(e.ram, RamAddr(e, address)))
    else if IsRom(address, e.overlay) then Word32Access(e, RomRead32(e.rom, address))
    else if IsTestSw(address) then Done(e, 0, [])
    else Fatal
  }

  /** cpu_read_instr: cpu_read_instr_overlay tries ROM first (IS_ROM under
      the current overlay flag), then RAM;
      cpu_read_instr_normal reads ROM exactly for the 0x4xxxxx addresses
      and RAM for everything else. */
  function Fetch(e: Emulator, address: Addr): (r: Option<bv16>)
    requires e.Valid()
  {
    if e.overlayFetch then
      if IsRom(address, e.overlay) then RomRead16(e.rom, address) else RamRead16(e.ram, RamAddr(e, address))
    else
      if (address & 0xf0_0000) != ROM_ADDR then RamRead16(e.ram, RamAddr(e, address))
      else RomRead16(e.rom, address)
  }

  // ---------------------------------------------------------------------------
  // Writes

  /** cpu_write_byte: RAM, VIA, IWM, SCC, the dummy region, then the disc
      hook at exactly 0xc00069 (a full 32-bit comparison); any other write is
      dropped.  `build` selects the Prime transfer the hook runs: `AsWritten`
      is disc.c as it stands, `Corrected` the repaired transfer. */
  function WriteByte(abi: Abi, build: Build, e: Emulator, address: Addr, value: bv32): (r: Access)
    requires e.Valid() && abi.Valid()
    ensures r.Done? ==> r.e.rom == e.rom && r.value == 0
    ensures r.Done? && OverlayConsistent(e) ==> OverlayConsistent(r.e)
  {
    var data := (value & 0xff) as Byte;
    if IsRam(address, e.overlay) then
      var w := RamWrite8(e.ram, RamAddr(e, address), data);
      Done(e.(ram := w.value), 0, [])
    else if IsVia(address) then
      var s := V.Write(e.via, V.RegIndex(address), data);
      AfterVia(e, s.via, s.events, 0)
    else if IsIwm(address) then Done(e.(iwm := e.iwm[IwmIndex(address) := data]), 0, [])
    else if IsSccWr(address) then
      var s := S.Write(e.scc, address, data);
      AfterScc(e, s.scc, s.events, 0)
    else if IsDummy(address) then Done(e, 0, [])
    else if address == PV_SONY_ADDR then HookWrite(abi, build, e, data)
    else Done(e, 0, [])
  }

  /** The byte write that calls disc_pv_hook: a nonzero hook result is
      exit_error. */
  function HookWrite(abi: Abi, build: Build, e: Emulator, opcode: Byte): (r: Access)
    requires abi.Valid()
    ensures r.Fatal? <==> PvHook.PvHook(abi, build, Machine(e.cpu, e.ram, e.drives, e.queue), opcode).Some?
                          && !Handled(opcode)
    ensures r.Done? ==> r.e.rom == e.rom && r.value == 0
                        && r.e == e.(cpu := r.e.cpu, ram := r.e.ram, drives := r.e.drives)
  {
    match PvHook.PvHook(abi, build, Machine(e.cpu, e.ram, e.drives, e.queue), opcode)
    case None => Undefined
    case Some(h) =>
      if h.ret != 0 then Fatal
      else Done(e.(cpu := h.m.cpu, ram := h.m.ram, drives := h.m.drives), 0,
                if h.ejected then [DiscEjected] else [])
  }

  /** cpu_write_word: RAM only; any other write is dropped. */
  function WriteWord(e: Emulator, address: Addr, value: bv32): (r: Access)
    requires e.Valid()
    ensures !r.Fatal?
    ensures r.Done? ==> r.e.rom == e.rom && r.value == 0 && r.events == []
    ensures !IsRam(address, e.overlay) ==> r == Done(e, 0, [])
  {
    if IsRam(address, e.overlay) then
      match RamWrite16(e.ram, RamAddr(e, address), (value & 0xffff) as bv16)
      case None => Undefined
      case Some(w) => Done(e.(ram := w), 0, [])
    else Done(e, 0, [])
  }

  /** cpu_write_long: RAM only; any other write is dropped. */
  function WriteLong(e: Emulator, address: Addr, value: bv32): (r: Access)
    requires e.Valid()
    ensures !r.Fatal?
    ensures r.Done? ==> r.e.rom == e.rom && r.value == 0 && r.events == []
    ensures !IsRam(address, e.overlay) ==> r == Done(e, 0, [])
  {
    if IsRam(address, e.overlay) then
      match RamWrite32(e.ram, RamAddr(e, address), value)
      case None => Undefined
      case Some(w) => Done(e.(ram := w), 0, [])
    else Done(e, 0, [])
  }

  // ---------------------------------------------------------------------------
  // Periodic work

  /** mouse_tick, with its scc_set_dcd call delivered to the SCC. */
  function MouseStep(e: Emulator): (r: Access)
    ensures r.Done? && r.e.ram == e.ram && r.e.rom == e.rom && r.e.via == e.via
  {
    var t := MouseTick(e.mouse, e.sccIrq);
    match t.setDcd
    case None => Done(e.(mouse := t.mouse), 0, [])
    case Some(d) =>
      var s := S.SetDcd(e.scc, d.a, d.b);
      AfterScc(e.(mouse := t.mouse), s.scc, s.events, 0)
  }

  /** kbd_check_work, with its via_sr_rx reply delivered to the VIA. */
  function KeyboardStep(e: Emulator): (r: Access)
    ensures r.Done? && r.e.ram == e.ram && r.e.rom == e.rom && r.e.scc == e.scc
    ensures OverlayConsistent(e) ==> OverlayConsistent(r.e)
  {
    var w := CheckWork(e.kbd, e.now);
    match w.reply
    case None => Done(e.(kbd := w.kbd), 0, [])
    case Some(b) =>
      var s := V.SrRx(e.via, b);
      AfterVia(e.(kbd := w.kbd), s.via, s.events, 0)
  }

  // ---------------------------------------------------------------------------
  // Reset

  /** umac_reset as written: the overlay flag is set again, but neither the
      fetch routine nor via_ra_changed's remembered port A value is touched. */
  function ResetAsWritten(e: Emulator): (r: Emulator)
    ensures r.overlay && r.overlayFetch == e.overlayFetch && r.oldRa == e.oldRa
  {
    e.(overlay := true)
  }

  /** umac_reset restoring the power-on memory map as a whole: the overlay
      flag, the overlay fetch routine, and bit 4 in the remembered port A
      value, so that the overlay state is consistent as at power-on.  The
      VIA is not reset, so a later port A write reaches via_ra_changed (and
      switches the overlay off) only when it differs from the VIA's stored
      port A value. */
  function Reset(e: Emulator): (r: Emulator)
    ensures r.overlay && OverlayConsistent(r)
    ensures r == e.(overlay := true, overlayFetch := true, oldRa := r.oldRa) && r.oldRa & 0xef == e.oldRa & 0xef
  {
    e.(overlay := true, overlayFetch := true, oldRa := e.oldRa | 0x10)
  }

  /** After the reset as written, a machine that was running with the overlay
      off reads ROM at address 0 as data but fetches instructions from RAM
      there: the two views of the same address disagree. */
  lemma ResetAsWrittenSplitsFetch(e: Emulator)
    requires e.Valid() && OverlayConsistent(e) && !e.overlay
    ensures var r := ResetAsWritten(e);
            && !OverlayConsistent(r)
            && Fetch(r, 0) == RamRead16(r.ram, 0)
            && ReadWord(r, 0) == Word16Access(r, RomRead16(r.rom, 0))
  {
    var r := ResetAsWritten(e);
    assert IsRom(0, true) && !IsRam(0, true);
    assert (0 as Addr & 0xf0_0000) != ROM_ADDR;
  }

  /** After the corrected reset, fetch and data reads agree at every RAM or
      ROM address, as they do at power-on. */
  lemma ResetKeepsFetchAgreement(e: Emulator, address: Addr)
    requires e.Valid()
    requires IsRam(address, true) || IsRom(address, true)
    ensures var r := Reset(e);
            && (Fetch(r, address).Some? <==> ReadWord(r, address).Done?)
            && (Fetch(r, address).Some? ==> ReadWord(r, address).value == Widen16(Fetch(r, address).value))
  {
    FetchMatchesReadWord(Reset(e), address);
  }

  // ---------------------------------------------------------------------------
  // Properties of the decode

  /** A data byte read: the RAM byte at the address wrapped into RAM
      (RamAddr), the ROM byte at the address wrapped into ROM (RomOffset), and
      0 from unmapped space. */
  lemma ReadByteDecode(e: Emulator, address: Addr)
    requires e.Valid()
    ensures IsRam(address, e.overlay) ==>
              ReadByte(e, address) == Done(e, e.ram.bytes[RamAddr(e, address)] as bv32, [])
    ensures IsRom(address, e.overlay) ==>
              ReadByte(e, address) == Done(e, e.rom[RomOffset(e.rom, address)] as bv32, [])
    ensures (!IsRam(address, e.overlay) && !IsRom(address, e.overlay) && !IsVia(address) && !IsIwm(address)
             && !IsSccRd(address)) ==> ReadByte(e, address) == Done(e, 0, [])
  {
    RamRomDisjoint(address, e.overlay);
  }

  /** A word or long read ends the emulator exactly when the address is
      neither RAM, ROM nor the test-switch space. */
  lemma WideReadFatal(e: Emulator, address: Addr)
    requires e.Valid()
    ensures ReadWord(e, address).Fatal? <==>
              !IsRam(address, e.overlay) && !IsRom(address, e.overlay) && !IsTestSw(address)
    ensures ReadLong(e, address).Fatal? <==>
              !IsRam(address, e.overlay) && !IsRom(address, e.overlay) && !IsTestSw(address)
    ensures IsTestSw(address) ==> ReadWord(e, address) == Done(e, 0, []) && ReadLong(e, address) == Done(e, 0, [])
  {
    assert IsTestSw(address) ==> !IsRam(address, e.overlay) && !IsRom(address, e.overlay);
  }

  /** Word and long RAM reads are big-endian reads at the address wrapped
      into RAM. */
  lemma WideRamReadsBigEndian(e: Emulator, address: Addr)
    requires e.Valid() && IsRam(address, e.overlay)
    ensures var c := RamAddr(e, address);
            && (ReadWord(e, address).Done? ==>
                  c + 2 <= e.ram.Size() && ReadWord(e, address).value == Widen16(FromBe16(e.ram.bytes[c..c + 2])))
            && (ReadLong(e, address).Done? ==>
                  c + 4 <= e.ram.Size() && ReadLong(e, address).value == FromBe32(e.ram.bytes[c..c + 4]))
  {
  }

  /** The magic address is not claimed by any region before it, so the hook
      routes there: a write of an unknown routine number ends the emulator,
      and a byte write anywhere else never does. */
  lemma WriteByteFatal(abi: Abi, build: Build, e: Emulator, address: Addr, value: bv32)
    requires e.Valid() && abi.Valid()
    ensures WriteByte(abi, build, e, address, value).Fatal? <==>
              address == PV_SONY_ADDR && !Handled((value & 0xff) as Byte)
  {
    if address == PV_SONY_ADDR {
      SonyAddrUnclaimed(e.overlay);
    }
  }

  lemma SonyAddrUnclaimed(overlay: bool)
    ensures !IsRam(PV_SONY_ADDR, overlay) && !IsVia(PV_SONY_ADDR) && !IsIwm(PV_SONY_ADDR)
            && !IsSccWr(PV_SONY_ADDR) && !IsDummy(PV_SONY_ADDR)
  {
    assert Adr24(PV_SONY_ADDR) == 0xc0_0069;
  }

  /** The hook compares all 32 address bits: the same byte address with a
      nonzero top byte, which every region test treats as 0xc00069, writes
      nothing and runs nothing. */
  lemma HookNeedsExactAddress(abi: Abi, build: Build, e: Emulator, value: bv32)
    requires e.Valid() && abi.Valid()
    ensures Adr24(0x01c0_0069) == Adr24(PV_SONY_ADDR)
    ensures WriteByte(abi, build, e, 0x01c0_0069, value) == Done(e, 0, [])
  {
    assert Adr24(0x01c0_0069) == 0xc0_0069;
  }

  /** A write of a handled routine number runs that routine on A0-A2: it
      completes exactly when the routine does, with the routine's RAM and
      drives and an eject event exactly when the routine ejected. */
  lemma HookWriteRunsRoutine(abi: Abi, build: Build, e: Emulator, opcode: Byte)
    requires abi.Valid() && Handled(opcode)
    ensures var m := Machine(e.cpu, e.ram, e.drives, e.queue);
            var o := Routine(abi, build, m, opcode);
            var r := HookWrite(abi, build, e, opcode);
            && !r.Fatal?
            && (r.Done? <==> o.Some?)
            && (r.Done? ==> && r.e.ram == o.value.ram && r.e.drives == o.value.drives
                            && r.e.cpu.d0 & 0xffff == Word16(o.value.code) as bv32
                            && (r.events == [DiscEjected] <==> o.value.ejected)
                            && (r.events == [] <==> !o.value.ejected))
  {
    var m := Machine(e.cpu, e.ram, e.drives, e.queue);
    RoutineCodesFit(abi, build, m, opcode);
    HookReportsCode(abi, build, m, opcode);
    HookWriteOfHooked(abi, build, e, opcode);
  }

  /** The bus side of the hook, given what disc_pv_hook returned. */
  lemma HookWriteOfHooked(abi: Abi, build: Build, e: Emulator, opcode: Byte)
    requires abi.Valid() && Handled(opcode)
    ensures var h := PvHook.PvHook(abi, build, Machine(e.cpu, e.ram, e.drives, e.queue), opcode);
            var r := HookWrite(abi, build, e, opcode);
            && (r.Done? <==> h.Some?) && !r.Fatal?
            && (h.Some? ==> && r.e.ram == h.value.m.ram && r.e.drives == h.value.m.drives
                            && r.e.cpu == h.value.m.cpu
                            && r.events == (if h.value.ejected then [DiscEjected] else []))
  {
  }

  /** Word and long writes touch RAM only, and never end the emulator. */
  lemma WideWritesOutsideRamDropped(e: Emulator, address: Addr, value: bv32)
    requires e.Valid() && !IsRam(address, e.overlay)
    ensures WriteWord(e, address, value) == Done(e, 0, [])
    ensures WriteLong(e, address, value) == Done(e, 0, [])
  {
  }

  /** A byte written to RAM reads back through the bus. */
  lemma ByteRoundTrip(abi: Abi, build: Build, e: Emulator, address: Addr, value: bv32)
    requires e.Valid() && abi.Valid() && IsRam(address, e.overlay)
    ensures var w := WriteByte(abi, build, e, address, value);
            && w.Done? && w.e.Valid()
            && ReadByte(w.e, address).value == value & 0xff
  {
    var a := RamAddr(e, address);
    RamWriteRead8(e.ram, a, (value & 0xff) as Byte);
  }

  /** A word written to RAM reads back through the bus. */
  lemma WordRoundTrip(e: Emulator, address: Addr, value: bv32)
    requires e.Valid() && IsRam(address, e.overlay) && WriteWord(e, address, value).Done?
    ensures var w := WriteWord(e, address, value);
            && w.e.Valid()
            && ReadWord(w.e, address).Done?
            && ReadWord(w.e, address).value == value & 0xffff
  {
    var a := RamAddr(e, address);
    var v := (value & 0xffff) as bv16;
    RamWriteRead16(e.ram, a, v);
    LowWordWidens(value);
  }

  lemma LowWordWidens(value: bv32)
    ensures Widen16((value & 0xffff) as bv16) == value & 0xffff
  {
  }

  /** A long written to RAM reads back through the bus. */
  lemma LongRoundTrip(e: Emulator, address: Addr, value: bv32)
    requires e.Valid() && IsRam(address, e.overlay) && WriteLong(e, address, value).Done?
    ensures var w := WriteLong(e, address, value);
            && w.e.Valid()
            && ReadLong(w.e, address) == Done(w.e, value, [])
  {
    RamWriteRead32(e.ram, RamAddr(e, address), value);
  }

  /** The IWM stub stores a written byte, except that registers 8 and 14
      always read 0xff and 0x1f. */
  lemma IwmWriteRead(abi: Abi, build: Build, e: Emulator, address: Addr, value: bv32)
    requires e.Valid() && abi.Valid() && IsIwm(address)
    ensures var w := WriteByte(abi, build, e, address, value);
            && w.Done? && w.e.Valid()
            && ReadByte(w.e, address).value == (if IwmIndex(address) == 8 then 0xff
                                               else if IwmIndex(address) == 14 then 0x1f
                                               else value & 0xff)
  {
    IwmRegionAlone(address, e.overlay);
  }

  lemma IwmRegionAlone(address: Addr, overlay: bool)
    requires IsIwm(address)
    ensures !IsRam(address, overlay) && !IsRom(address, overlay) && !IsVia(address)
  {
  }

  /** A port A write through the bus stores the byte in the VIA; when it
      changes port A, the overlay follows its bit 4 and the byte is
      remembered, and otherwise the overlay state is untouched. */
  lemma PortAWriteSetsOverlay(abi: Abi, build: Build, e: Emulator, address: Addr, value: bv32)
    requires e.Valid() && abi.Valid() && IsVia(address) && V.RegIndex(address) in {V.RA, V.RA_ALT}
    ensures var w := WriteByte(abi, build, e, address, value);
            var d := (value & 0xff) as Byte;
            && w.Done? && w.e.via.regs[V.RA] == d
            && (e.via.regs[V.RA] != d ==> w.e.overlay == ((d & 0x10) != 0) && w.e.oldRa == d)
            && (e.via.regs[V.RA] == d ==> w.e.overlay == e.overlay && w.e.oldRa == e.oldRa)
  {
    var d := (value & 0xff) as Byte;
    var reg := V.RegIndex(address);
    ViaWriteRouted(abi, build, e, address, value);
    PortAWriteCallbacks(e, reg, d);
  }

  /** A byte write to the VIA goes to via_write and its callbacks. */
  lemma ViaWriteRouted(abi: Abi, build: Build, e: Emulator, address: Addr, value: bv32)
    requires e.Valid() && abi.Valid() && IsVia(address)
    ensures var s := V.Write(e.via, V.RegIndex(address), (value & 0xff) as Byte);
            WriteByte(abi, build, e, address, value) == AfterVia(e, s.via, s.events, 0)
  {
    ViaRegionAlone(address, e.overlay);
  }

  lemma PortAWriteCallbacks(e: Emulator, reg: V.RegNum, d: Byte)
    requires reg in {V.RA, V.RA_ALT}
    ensures var s := V.Write(e.via, reg, d);
            var w := AfterVia(e, s.via, s.events, 0);
            && w.e.via.regs[V.RA] == d
            && (e.via.regs[V.RA] != d ==> w.e.overlay == ((d & 0x10) != 0) && w.e.oldRa == d)
            && (e.via.regs[V.RA] == d ==> w.e.overlay == e.overlay && w.e.oldRa == e.oldRa)
  {
    V.WritePort(e.via, reg, d);
    var eff := V.WriteEffect(e.via, reg, d);
    var a := V.AssessIrq(eff.via);
    var s := V.Write(e.via, reg, d);
    assert s.events == eff.events + a.events;
    if e.via.regs[V.RA] != d {
      assert s.events == [V.RaChange(d)] + a.events;
      ViaCallbacksNoRa(RaChanged(e.(via := s.via), d), a.events);
    } else {
      assert s.events == a.events;
      ViaCallbacksNoRa(e.(via := s.via), a.events);
    }
  }

  lemma ViaRegionAlone(address: Addr, overlay: bool)
    requires IsVia(address)
    ensures !IsRam(address, overlay) && !IsRom(address, overlay)
  {
  }

  /** Callbacks other than port A leave the overlay state alone. */
  lemma {:induction false} ViaCallbacksNoRa(e: Emulator, evs: seq<V.Event>)
    requires forall i :: 0 <= i < |evs| ==> !evs[i].RaChange?
    ensures var r := ViaCallbacks(e, evs).0;
            r.overlay == e.overlay && r.oldRa == e.oldRa && r.overlayFetch == e.overlayFetch
    decreases |evs|
  {
    if evs != [] {
      ViaCallbacksNoRa(ViaCallback(e, evs[0]).0, evs[1..]);
    }
  }

  /** With the overlay state consistent, instruction fetch and data word
      reads see the same memory at every RAM or ROM address. */
  lemma FetchMatchesReadWord(e: Emulator, address: Addr)
    requires e.Valid() && OverlayConsistent(e)
    requires IsRam(address, e.overlay) || IsRom(address, e.overlay)
    ensures Fetch(e, address).Some? <==> ReadWord(e, address).Done?
    ensures Fetch(e, address).Some? ==> ReadWord(e, address).value == Widen16(Fetch(e, address).value)
  {
    RamRomDisjoint(address, e.overlay);
    if !e.overlay {
      assert IsRom(address, false) <==> (address & 0xf0_0000) == ROM_ADDR;
    }
  }

  /** Instruction fetch outside RAM and ROM reads RAM at the wrapped address,
      where a data word read would end the emulator or read 0. */
  lemma FetchOutsideRamRom(e: Emulator, address: Addr)
    requires e.Valid() && OverlayConsistent(e)
    requires !IsRam(address, e.overlay) && !IsRom(address, e.overlay)
    ensures Fetch(e, address) == RamRead16(e.ram, RamAddr(e, address))
  {
    if !e.overlay {
      assert IsRom(address, false) <==> (address & 0xf0_0000) == ROM_ADDR;
    }
  }
}
