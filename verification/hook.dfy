/** disc_pv_hook (src/disc.c): the 68000 side of the replacement .Sony
    driver writes a routine number to the magic byte at 0xc00069; the hook
    runs that routine on the parameter block in A0, the DCE in A1 and (for
    Open) the drive status record in A2, all masked to 24 bits, and returns
    the routine's code in D0. */
module PvHook {
  import opened Maybe
  import opened MachHw
  import opened Disc
  import opened Sony
  import opened DriverCalls

  /** The 68000 registers the hook reads and writes. */
  datatype Cpu = Cpu(a0: bv32, a1: bv32, a2: bv32, d0: bv32)

  /** What the hook sees of the machine: the registers, guest RAM, the drive
      table, and the drive numbers already in the guest's drive queue. */
  datatype Machine = Machine(cpu: Cpu, ram: Ram, drives: Drives, queue: seq<int>)

  /** The hook's return value (0 handled, -1 unknown routine), the machine
      afterwards, and whether the routine reported an eject. */
  datatype Hooked = Hooked(ret: int, m: Machine, ejected: bool)

  /** The routine numbers the hook handles: Open, Prime, Control, Status. */
  predicate Handled(opcode: Byte) {
    opcode <= 3
  }

  /** The routines' arguments: A0, A1 and A2 masked to 24 bits. */
  function ParamBlock(cpu: Cpu): nat {
    Adr24(cpu.a0) as nat
  }

  function ControlEntry(cpu: Cpu): nat {
    Adr24(cpu.a1) as nat
  }

  function StatusRecord(cpu: Cpu): nat {
    Adr24(cpu.a2) as nat
  }

  /** The routine for `opcode`. */
  function Routine(abi: Abi, build: Build, m: Machine, opcode: Byte): (r: Option<Outcome>)
    requires Handled(opcode)
  {
    if opcode == 0 then SonyOpen(abi, m.drives, m.ram, ControlEntry(m.cpu), StatusRecord(m.cpu), m.queue)
    else if opcode == 1 then SonyPrime(abi, build, m.drives, m.ram, ParamBlock(m.cpu), ControlEntry(m.cpu))
    else if opcode == 2 then SonyControl(abi, m.drives, m.ram, ParamBlock(m.cpu))
    else SonyStatus(abi, m.drives, m.ram, ParamBlock(m.cpu))
  }

  /** The 16-bit code as the 32-bit D0: the int16_t result assigned to a
      uint32_t, which sign-extends the code's 16-bit word. */
  function D0(code: int): (r: bv32)
    requires -0x8000 <= code < 0x8000
    ensures r & 0xffff == Word16(code) as bv32
    ensures r >> 16 == if code < 0 then 0xffff else 0
  {
    SignExtend(Word16(code), code < 0)
  }

  /** A 16-bit word widened to 32 bits, with ones above it when `negative`. */
  function SignExtend(w: bv16, negative: bool): (r: bv32)
    ensures r & 0xffff == w as bv32
    ensures r >> 16 == if negative then 0xffff else 0
  {
    if negative then 0xffff_0000 | w as bv32 else w as bv32
  }

  /** disc_pv_hook.  An unknown routine number returns -1 and leaves D0 and
      everything else alone; a known one returns 0 with the routine's code
      in D0.  The routines' codes all fit in 16 bits. */
  function PvHook(abi: Abi, build: Build, m: Machine, opcode: Byte): (r: Option<Hooked>)
    requires abi.Valid()
    ensures r.Some? ==> r.value.ret == (if Handled(opcode) then 0 else -1)
    ensures r.Some? ==> r.value.m.queue == m.queue
    ensures r.Some? ==> && r.value.m.cpu.a0 == m.cpu.a0 && r.value.m.cpu.a1 == m.cpu.a1
                        && r.value.m.cpu.a2 == m.cpu.a2
    ensures !Handled(opcode) ==> r == Some(Hooked(-1, m, false))
  {
    if !Handled(opcode) then Some(Hooked(-1, m, false))
    else
      var o :- Routine(abi, build, m, opcode);
      Deliver(m, o)
  }

  /** The machine after a routine that ended with `o`: its RAM and drives,
      and its code in D0 (None for a code outside 16 bits, which no routine
      returns). */
  function Deliver(m: Machine, o: Outcome): (r: Option<Hooked>)
    ensures r.Some? <==> -0x8000 <= o.code < 0x8000
    ensures r.Some? ==> && r.value.ret == 0 && r.value.m.ram == o.ram && r.value.m.drives == o.drives
                        && r.value.m.cpu == m.cpu.(d0 := D0(o.code)) && r.value.m.queue == m.queue
                        && r.value.ejected == o.ejected
  {
    if -0x8000 <= o.code < 0x8000 then
      Some(Hooked(0, m.(cpu := m.cpu.(d0 := D0(o.code)), ram := o.ram, drives := o.drives), o.ejected))
    else None
  }

  /** Every routine's code is a 16-bit error code, so a handled call never
      takes the out-of-range branch: the hook fails only where its routine
      does. */
  lemma RoutineCodesFit(abi: Abi, build: Build, m: Machine, opcode: Byte)
    requires abi.Valid() && Handled(opcode)
    ensures Routine(abi, build, m, opcode).Some? <==> PvHook(abi, build, m, opcode).Some?
  {
    var o := Routine(abi, build, m, opcode);
    if o.Some? {
      assert -0x8000 <= o.value.code < 0x8000 by {
        RoutineCodes(abi, build, m, opcode);
      }
    }
  }

  /** The codes the four routines return are among the driver's error codes
      and -1. */
  lemma RoutineCodes(abi: Abi, build: Build, m: Machine, opcode: Byte)
    requires abi.Valid() && Handled(opcode)
    ensures var o := Routine(abi, build, m, opcode);
            o.Some? ==> o.value.code in {UNSUPPORTED, abi.noErr, abi.paramErr, abi.nsDrvErr, abi.offLinErr,
                                        abi.wPrErr, abi.controlErr, abi.statusErr}
  {
  }

  /** A handled call leaves the routine's RAM, drives and eject report, and
      its code in the low word of D0, sign-extended. */
  lemma HookReportsCode(abi: Abi, build: Build, m: Machine, opcode: Byte)
    requires abi.Valid() && Handled(opcode)
    ensures var o := Routine(abi, build, m, opcode);
            var r := PvHook(abi, build, m, opcode);
            r.Some? ==> && o.Some?
                        && r.value.m.ram == o.value.ram && r.value.m.drives == o.value.drives
                        && r.value.ejected == o.value.ejected
                        && r.value.m.cpu.d0 & 0xffff == Word16(o.value.code) as bv32
                        && r.value.m.cpu.d0 >> 16 == (if o.value.code < 0 then 0xffff else 0)
  {
  }

  /** After Prime, Control and Status, and after Open when the status record
      lies above DskErr, the DskErr word equals the low word of D0. */
  lemma HookMirrorsD0(abi: Abi, build: Build, m: Machine, opcode: Byte)
    requires abi.Valid() && Handled(opcode)
    requires opcode == 0 ==> DSK_ERR + 2 <= StatusRecord(m.cpu)
    ensures var r := PvHook(abi, build, m, opcode);
            r.Some? ==> && RamRead16(r.value.m.ram, DSK_ERR).Some?
                        && RamRead16(r.value.m.ram, DSK_ERR).value as bv32 == r.value.m.cpu.d0 & 0xffff
  {
    var r := PvHook(abi, build, m, opcode);
    var o := Routine(abi, build, m, opcode);
    HandledIsDeliver(abi, build, m, opcode);
    RoutineMirrored(abi, build, m, opcode);
    if o.Some? {
      DeliverMirrors(m, o.value);
    }
  }

  lemma HandledIsDeliver(abi: Abi, build: Build, m: Machine, opcode: Byte)
    requires abi.Valid() && Handled(opcode)
    ensures var o := Routine(abi, build, m, opcode);
            PvHook(abi, build, m, opcode) == if o.None? then None else Deliver(m, o.value)
  {
  }

  /** Each routine leaves its code in DskErr (Open given its status record
      above DskErr). */
  lemma RoutineMirrored(abi: Abi, build: Build, m: Machine, opcode: Byte)
    requires abi.Valid() && Handled(opcode)
    requires opcode == 0 ==> DSK_ERR + 2 <= StatusRecord(m.cpu)
    ensures var o := Routine(abi, build, m, opcode);
            o.Some? ==> Mirrored(o.value)
  {
    if opcode == 0 {
      OpenMirrored(abi, m.drives, m.ram, ControlEntry(m.cpu), StatusRecord(m.cpu), m.queue);
    }
  }

  lemma DeliverMirrors(m: Machine, o: Outcome)
    requires Mirrored(o)
    ensures var r := Deliver(m, o);
            r.Some? ==> && RamRead16(r.value.m.ram, DSK_ERR).Some?
                        && RamRead16(r.value.m.ram, DSK_ERR).value as bv32 == r.value.m.cpu.d0 & 0xffff
  {
  }
}
