/** The Z85C30 SCC of src/scc.c, modelled only as far as the emulator needs
    it: the DCD pins of both channels (used for the mouse quadrature inputs),
    the external/status interrupt they raise, and the indirect register
    pointer protocol the Mac uses to reach WR0-WR15 and RR0-RR15.

    The irq_set callback is an emitted event. Channel A is `AnB == 1` in the
    C code; ie[1] belongs to channel A and ie[0] to channel B. */
module Scc {
  import opened MachHw

  const IE_DCD: Byte := 0x08
  const IP_B_EXT: Byte := 0x01
  const IP_A_EXT: Byte := 0x08

  datatype Event = IrqSet(on: bool)

  /** The C file's static variables. `dcdA`/`dcdB` are bits 0 and 1 of
      scc_dcd_pins; `aChanged`/`bChanged` the per-channel change latches. */
  datatype Scc = Scc(
    ptr: Byte,
    mie: bool,
    readAcks: bool,
    statusHi: bool,
    ieA: Byte,
    ieB: Byte,
    pending: Byte,
    vec: Byte,
    irq: bool,
    dcdA: bool,
    dcdB: bool,
    aChanged: bool,
    bChanged: bool)

  datatype Step = Step(scc: Scc, events: seq<Event>)

  datatype ReadStep = ReadStep(scc: Scc, value: Byte)

  const PowerOn: Scc := Scc(0, false, false, false, 0, 0, 0, 0, false, false, false, false, false)

  /** Which port an access hits: address bit 1 selects channel A, bit 2 the
      data (rather than control) port. */
  datatype Port = Port(channelA: bool, data: bool)

  function Decode(address: Addr): Port {
    var r := (address >> 1) & 3;
    Port((r & 1) != 0, (r & 2) != 0)
  }

  /** The IRQ output: something pending and the master enable on. */
  predicate IrqLine(s: Scc) {
    s.pending != 0 && s.mie
  }

  /** After scc_assess_irq no change latch is left whose channel has DCD
      interrupts enabled, and the reported IRQ level matches the line. */
  predicate Settled(s: Scc) {
    && !(s.aChanged && (s.ieA & IE_DCD) != 0)
    && !(s.bChanged && (s.ieB & IE_DCD) != 0)
    && s.irq == IrqLine(s)
  }

  /** Only the two external/status bits are ever pending. */
  predicate PendingMask(s: Scc) {
    (s.pending & !(IP_A_EXT | IP_B_EXT)) == 0
  }

  lemma PowerOnSettled()
    ensures Settled(PowerOn) && PendingMask(PowerOn)
  {
  }

  /** The latch-promotion half of scc_assess_irq: a channel's change latch
      becomes its sticky pending bit once its DCD enable is set. */
  function Promote(s: Scc): (r: Scc)
    ensures PendingMask(s) ==> PendingMask(r)
    ensures r.aChanged == (s.aChanged && (s.ieA & IE_DCD) == 0)
    ensures r.bChanged == (s.bChanged && (s.ieB & IE_DCD) == 0)
    ensures (r.pending & IP_A_EXT) != 0 <==> (s.pending & IP_A_EXT) != 0 || (s.aChanged && (s.ieA & IE_DCD) != 0)
    ensures (r.pending & IP_B_EXT) != 0 <==> (s.pending & IP_B_EXT) != 0 || (s.bChanged && (s.ieB & IE_DCD) != 0)
    ensures (r.pending & 0xf6) == (s.pending & 0xf6)
    ensures r.(pending := s.pending, aChanged := s.aChanged, bChanged := s.bChanged) == s
  {
    var s1 := if s.aChanged && (s.ieA & IE_DCD) != 0 then s.(pending := s.pending | IP_A_EXT, aChanged := false) else s;
    if s1.bChanged && (s1.ieB & IE_DCD) != 0 then s1.(pending := s1.pending | IP_B_EXT, bChanged := false) else s1
  }

  /** scc_assess_irq: promotes latches, then drives the IRQ output, calling
      back only on an edge. */
  function AssessIrq(s: Scc): (r: Step)
    ensures Settled(r.scc)
    ensures PendingMask(s) ==> PendingMask(r.scc)
    ensures r.scc.(irq := s.irq) == Promote(s)
    ensures r.events == [] || r.events == [IrqSet(r.scc.irq)]
    ensures r.events != [] <==> r.scc.irq != s.irq
  {
    var p := Promote(s);
    var line := IrqLine(p);
    Step(p.(irq := line), if line != s.irq then [IrqSet(line)] else [])
  }

  /** scc_set_dcd: records the pins, latching a change per channel whose level
      differs, then re-assesses. */
  function SetDcd(s: Scc, a: bool, b: bool): (r: Step)
    ensures Settled(r.scc)
    ensures PendingMask(s) ==> PendingMask(r.scc)
    ensures r.scc.dcdA == a && r.scc.dcdB == b
    ensures a != s.dcdA && (s.ieA & IE_DCD) == 0 ==> r.scc.aChanged
    ensures a != s.dcdA && (s.ieA & IE_DCD) != 0 ==> (r.scc.pending & IP_A_EXT) != 0
    ensures b != s.dcdB && (s.ieB & IE_DCD) == 0 ==> r.scc.bChanged
    ensures b != s.dcdB && (s.ieB & IE_DCD) != 0 ==> (r.scc.pending & IP_B_EXT) != 0
    // a channel's change stays latched only while its DCD interrupt is off,
    // and is otherwise pending; an unchanged pin keeps what was there
    ensures r.scc.aChanged == ((s.aChanged || a != s.dcdA) && (s.ieA & IE_DCD) == 0)
    ensures r.scc.bChanged == ((s.bChanged || b != s.dcdB) && (s.ieB & IE_DCD) == 0)
    ensures (r.scc.pending & IP_A_EXT) != 0 <==>
              (s.pending & IP_A_EXT) != 0 || ((s.aChanged || a != s.dcdA) && (s.ieA & IE_DCD) != 0)
    ensures (r.scc.pending & IP_B_EXT) != 0 <==>
              (s.pending & IP_B_EXT) != 0 || ((s.bChanged || b != s.dcdB) && (s.ieB & IE_DCD) != 0)
    ensures r.scc.(dcdA := s.dcdA, dcdB := s.dcdB, aChanged := s.aChanged, bChanged := s.bChanged,
                   pending := s.pending, irq := s.irq) == s
  {
    var latched := s.(aChanged := s.aChanged || a != s.dcdA, bChanged := s.bChanged || b != s.dcdB, dcdA := a, dcdB := b);
    var r := AssessIrq(latched);
    var promoted := Promote(latched);
    assert r.scc.(irq := latched.irq) == promoted;
    assert r.scc.aChanged == promoted.aChanged && r.scc.bChanged == promoted.bChanged;
    assert r.scc.pending == promoted.pending;
    r
  }

  /** scc_wr0: selects the register for the next access; command 1 ("point
      high") adds 8. */
  function Wr0(s: Scc, data: Byte): (r: Scc)
    ensures r.ptr < 16
    ensures (r.ptr & 7) == (data & 7)
    ensures (r.ptr & 8) != 0 <==> ((data & 0x38) >> 3) == 1
    ensures r.(ptr := s.ptr) == s
  {
    var p := data & 7;
    s.(ptr := if ((data & 0x38) >> 3) == 1 then p | 8 else p)
  }

  /** scc_wr9: master interrupt enable, status-high and read-ack bits. */
  function Wr9(s: Scc, data: Byte): (r: Scc)
    ensures r.mie <==> (data & 0x08) != 0
    ensures r.statusHi <==> (data & 0x10) != 0
    ensures r.readAcks <==> (data & 0x20) != 0
    ensures r.(mie := s.mie, statusHi := s.statusHi, readAcks := s.readAcks) == s
  {
    s.(mie := (data & 0x08) != 0, readAcks := (data & 0x20) != 0, statusHi := (data & 0x10) != 0)
  }

  /** A control-port write through the pointer, before re-assessment: WR0
      keeps the new pointer, every other register resets it. WR3 has no
      modelled effect. */
  function ControlWrite(s: Scc, channelA: bool, data: Byte): (r: Scc)
    ensures s.ptr != 0 ==> r.ptr == 0
    ensures r.pending == s.pending && r.aChanged == s.aChanged && r.bChanged == s.bChanged
    ensures r.dcdA == s.dcdA && r.dcdB == s.dcdB && r.irq == s.irq
  {
    if s.ptr == 0 then Wr0(s, data)
    else if s.ptr == 2 then s.(vec := data, ptr := 0)
    else if s.ptr == 9 then Wr9(s, data).(ptr := 0)
    else if s.ptr == 15 then (if channelA then s.(ieA := data, ptr := 0) else s.(ieB := data, ptr := 0))
    else s.(ptr := 0)
  }

  /** scc_write. Data-port writes are ignored, but the IRQ is re-assessed
      after every write. */
  function Write(s: Scc, address: Addr, data: Byte): (r: Step)
    ensures Settled(r.scc)
    ensures PendingMask(s) ==> PendingMask(r.scc)
    ensures r.scc.dcdA == s.dcdA && r.scc.dcdB == s.dcdB
  {
    var port := Decode(address);
    var w := if port.data then s else ControlWrite(s, port.channelA, data);
    AssessIrq(w)
  }

  /** scc_rr0: the addressed channel's DCD pin in bit 3, with sync/hunt and
      Tx-underrun always reported. */
  function Rr0(s: Scc, channelA: bool): (r: Byte)
    ensures (r & !IE_DCD) == 0x50
    ensures (r & IE_DCD) != 0 <==> (if channelA then s.dcdA else s.dcdB)
  {
    (if (if channelA then s.dcdA else s.dcdB) then 0x08 else 0) | 0x10 | 0x40
  }

  /** The status code RR2 on channel B reports, and the pending mask after
      consuming it: channel A's bit first, then channel B's. */
  function Rr2Status(pending: Byte): (r: (Byte, Byte))
    ensures r.0 <= 5
    ensures (pending & IP_A_EXT) != 0 ==> r == (5, pending & !IP_A_EXT)
    ensures (pending & IP_A_EXT) == 0 && (pending & IP_B_EXT) != 0 ==> r == (1, pending & !IP_B_EXT)
    ensures (pending & (IP_A_EXT | IP_B_EXT)) == 0 ==> r == (0, pending)
  {
    if (pending & IP_A_EXT) != 0 then (5, pending & !IP_A_EXT)
    else if (pending & IP_B_EXT) != 0 then (1, pending & !IP_B_EXT)
    else (0, pending)
  }

  /** The modified vector: the status code in bits 6..4 (status high) or
      bits 3..1 (status low), the other vector bits unchanged. */
  function ModifiedVector(vec: Byte, statusHi: bool, code: Byte): (r: Byte)
    requires code < 8
    ensures statusHi ==> (r & 0x8f) == (vec & 0x8f) && ((r >> 4) & 7) == code
    ensures !statusHi ==> (r & 0xf1) == (vec & 0xf1) && ((r >> 1) & 7) == code
  {
    if statusHi then (vec & 0x8f) | (code << 4) else (vec & 0xf1) | (code << 1)
  }

  /** scc_rr2 on channel B: the modified vector, consuming one pending bit. */
  function Rr2B(s: Scc): (r: ReadStep)
    ensures r.scc == s.(pending := Rr2Status(s.pending).1)
    ensures r.value == ModifiedVector(s.vec, s.statusHi, Rr2Status(s.pending).0)
    ensures (r.scc.pending & !s.pending) == 0
    ensures PendingMask(s) ==> PendingMask(r.scc)
  {
    var st := Rr2Status(s.pending);
    ReadStep(s.(pending := st.1), ModifiedVector(s.vec, s.statusHi, st.0))
  }

  /** A control-port read through the pointer. */
  function ControlRead(s: Scc, channelA: bool): (r: ReadStep)
    ensures r.scc.(pending := s.pending) == s
    ensures (r.scc.pending & !s.pending) == 0
    ensures PendingMask(s) ==> PendingMask(r.scc)
  {
    if s.ptr == 2 && !channelA then Rr2B(s)
    else ReadStep(s, RegisterValue(s, channelA))
  }

  /** The value of a read register that reading does not change (all but
      RR2 on channel B): RR0, RR1 (all sent, residue code 3), RR2 on channel
      A (the unmodified vector), RR3 (channel A only), RR15 (the enables with
      bits 0 and 2 clear), and 0 for the rest. */
  function RegisterValue(s: Scc, channelA: bool): Byte {
    if s.ptr == 0 then Rr0(s, channelA)
    else if s.ptr == 1 then 0x07
    else if s.ptr == 2 then s.vec
    else if s.ptr == 3 then (if channelA then s.pending else 0)
    else if s.ptr == 15 then (if channelA then s.ieA else s.ieB) & 0xfa
    else 0
  }

  /** scc_read: data-port reads return 0; every read resets the pointer. The
      IRQ is not re-assessed. */
  function Read(s: Scc, address: Addr): (r: ReadStep)
    ensures r.scc.ptr == 0
    ensures r.scc.irq == s.irq
    ensures PendingMask(s) ==> PendingMask(r.scc)
    ensures (r.scc.pending & !s.pending) == 0
    ensures Decode(address).data ==> r == ReadStep(s.(ptr := 0), 0)
    ensures r.scc.(pending := s.pending, ptr := s.ptr) == s
  {
    var port := Decode(address);
    var c := if port.data then ReadStep(s, 0) else ControlRead(s, port.channelA);
    ReadStep(c.scc.(ptr := 0), c.value)
  }

  // ---------------------------------------------------------------------------
  // Properties across calls

  /** Setting the same pin levels twice changes nothing the second time. */
  lemma SetDcdIdempotent(s: Scc, a: bool, b: bool)
    ensures var r1 := SetDcd(s, a, b);
      SetDcd(r1.scc, a, b) == Step(r1.scc, [])
  {
  }

  /** A pin change on a channel whose DCD interrupt is disabled stays latched
      (no pending bit, no IRQ from it); enabling the interrupt through WR15
      later promotes it. */
  lemma LatchedChangeWaitsForEnable(s: Scc, a: bool, address: Addr, ie: Byte)
    requires Settled(s) && s.pending == 0 && s.ptr == 0
    requires a != s.dcdA && (s.ieA & IE_DCD) == 0
    requires Decode(address) == Port(true, false) && (ie & IE_DCD) != 0
    ensures var r1 := SetDcd(s, a, s.dcdB).scc;
      && r1.aChanged && (r1.pending & IP_A_EXT) == 0
      && var w1 := Write(r1, address, 0x0f).scc;
      && w1.ptr == 15
      && var w2 := Write(w1, address, ie).scc;
      && w2.ieA == ie && (w2.pending & IP_A_EXT) != 0 && !w2.aChanged
  {
    var r1 := SetDcd(s, a, s.dcdB).scc;
    assert ((0x0f as Byte & 0x38) >> 3) == 1;
    var w1 := Write(r1, address, 0x0f).scc;
    assert w1.ieA == r1.ieA && w1.aChanged == r1.aChanged && w1.pending == r1.pending;
  }

  /** The interrupt acknowledge cycle: a DCD change on channel A with its
      interrupt enabled and MIE set raises the IRQ; reading RR2 through
      channel B then reports status 5 in the vector and consumes the pending
      bit, without lowering the line; the next write lowers it. */
  lemma AcknowledgeChannelA(s: Scc, a: bool, bAddr: Addr)
    requires Settled(s) && s.pending == 0 && s.mie && s.ptr == 0
    requires a != s.dcdA && (s.ieA & IE_DCD) != 0
    requires Decode(bAddr) == Port(false, false)
    ensures var r1 := SetDcd(s, a, s.dcdB);
      && r1.events == [IrqSet(true)]
      && var w := Write(r1.scc, bAddr, 2).scc;
      && var rd := Read(w, bAddr);
      && rd.value == ModifiedVector(s.vec, s.statusHi, 5)
      && rd.scc.pending == 0
      && rd.scc.irq
      && Write(rd.scc, bAddr, 0).events == [IrqSet(false)]
  {
    var r1 := SetDcd(s, a, s.dcdB);
    assert r1.scc.pending == IP_A_EXT;
    var w := Write(r1.scc, bAddr, 2).scc;
    assert w.ptr == 2 && w.pending == IP_A_EXT && w.vec == s.vec && w.statusHi == s.statusHi;
    var rd := Read(w, bAddr);
    assert Rr2Status(w.pending) == (5, 0);
  }

  /** The pointer protocol for writes: a data-port write re-assesses without
      touching any register, a control write through a nonzero pointer
      resets it, and one through pointer 0 is a WR0 write. */
  lemma WritePointer(s: Scc, address: Addr, data: Byte)
    ensures Decode(address).data ==> Write(s, address, data) == AssessIrq(s)
    ensures !Decode(address).data && s.ptr != 0 ==> Write(s, address, data).scc.ptr == 0
    ensures !Decode(address).data && s.ptr == 0 ==> Write(s, address, data).scc.ptr == Wr0(s, data).ptr
  {
  }

  /** RR2 through channel A returns the raw vector and consumes nothing. */
  lemma Rr2ChannelA(s: Scc, address: Addr)
    requires s.ptr == 2 && Decode(address) == Port(true, false)
    ensures Read(s, address) == ReadStep(s.(ptr := 0), s.vec)
  {
  }

  /** RR3 reports the pending mask on channel A and 0 on channel B; RR15
      reflects the addressed channel's WR15 with bits 0 and 2 masked. */
  lemma FixedReadRegisters(s: Scc, address: Addr)
    requires !Decode(address).data
    ensures s.ptr == 1 ==> Read(s, address).value == 0x07
    ensures s.ptr == 3 ==> Read(s, address).value == (if Decode(address).channelA then s.pending else 0)
    ensures s.ptr == 15 ==> Read(s, address).value == (if Decode(address).channelA then s.ieA else s.ieB) & 0xfa
    ensures s.ptr == 0 ==> Read(s, address).value == Rr0(s, Decode(address).channelA)
  {
  }

  /** WR15 is per channel. */
  lemma WriteWr15(s: Scc, address: Addr, data: Byte)
    requires !Decode(address).data && s.ptr == 15
    ensures var w := Write(s, address, data).scc;
      if Decode(address).channelA then w.ieA == data && w.ieB == s.ieB
      else w.ieB == data && w.ieA == s.ieA
  {
  }

  /** WR2 sets the vector shared by both channels. */
  lemma WriteWr2(s: Scc, address: Addr, data: Byte)
    requires !Decode(address).data && s.ptr == 2
    ensures Write(s, address, data).scc.vec == data
  {
  }

  /** WR9 sets the shared master-enable, status-high and read-ack bits. */
  lemma WriteWr9(s: Scc, address: Addr, data: Byte)
    requires !Decode(address).data && s.ptr == 9
    ensures var w := Write(s, address, data).scc;
      w.mie == ((data & 0x08) != 0) && w.statusHi == ((data & 0x10) != 0) && w.readAcks == ((data & 0x20) != 0)
  {
  }
}
