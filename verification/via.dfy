/** Register-level model of the 6522 VIA of src/via.c: ports A and B behind
    their data-direction registers, the shift register used for the keyboard,
    and the interrupt flag (IFR) and enable (IER) logic.

    The callbacks the C code invokes (port change, shift-register transmit,
    IRQ line) are returned as a list of events in call order; the port input
    samples are parameters. Register accesses take the register number that
    `RegIndex` decodes from the bus address. */
module Via {
  import opened Maybe
  import opened MachHw

  const RB: nat := 0
  const RA: nat := 1
  const DDRB: nat := 2
  const DDRA: nat := 3
  const SR: nat := 10
  const ACR: nat := 11
  const IFR: nat := 13
  const IER: nat := 14
  const RA_ALT: nat := 15

  const IRQ_CA: Byte := 0x01
  const IRQ_CB: Byte := 0x02
  const IRQ_SR: Byte := 0x04

  /** The 16 register bytes. */
  type Regs = s: seq<Byte> | |s| == 16 witness seq(16, _ => 0)

  /** A register number. */
  type RegNum = r: nat | r < 16

  datatype Event =
    | RaChange(value: Byte)   // ra_change callback
    | RbChange(value: Byte)   // rb_change callback
    | SrTx(value: Byte)       // sr_tx callback: a byte shifted out to the keyboard
    | IrqSet(on: bool)        // irq_set callback

  /** `flags` is irq_active (IFR), `enable` is irq_enable (IER), `irq` the last
      level reported through irq_set, `srTxPending` a parked transmit. */
  datatype Via = Via(regs: Regs, enable: Byte, flags: Byte, irq: bool, srTxPending: Option<Byte>)

  datatype Step = Step(via: Via, events: seq<Event>)

  datatype ReadStep = ReadStep(via: Via, value: Byte, events: seq<Event>)

  /** The C file's static initial state. */
  const PowerOn: Via := Via(seq(16, _ => 0), 0, 0, false, None)

  /** Register select: address bits 12..9 (via_write and via_read both decode
      the address this way before anything else). */
  function RegIndex(address: Addr): RegNum {
    ((address >> 9) & 0xf) as int
  }

  /** The IRQ output: some enabled flag is active. */
  predicate IrqLine(v: Via) {
    (v.enable & v.flags & 0x7f) != 0
  }

  /** The enable mask never holds bit 7 and only the three modelled sources
      (CA1, CA2, SR) ever raise a flag. */
  predicate Masks(v: Via) {
    (v.enable & 0x80) == 0 && (v.flags & 0xf8) == 0
  }

  /** What every operation keeps: the masks, and a reported IRQ level that
      matches the flags. */
  predicate Valid(v: Via) {
    Masks(v) && v.irq == IrqLine(v)
  }

  lemma PowerOnValid()
    ensures Valid(PowerOn)
  {
  }

  lemma RaiseKeepsFlagMask(f: Byte, b: Byte)
    requires (b & 0xf8) == 0
    ensures (f & 0xf8) == 0 ==> ((f | b) & 0xf8) == 0
  {
  }

  lemma ClearKeepsFlagMask(f: Byte, b: Byte)
    requires (f & 0xf8) == 0
    ensures ((f & !b) & 0xf8) == 0
  {
  }

  /** The shift-register mode field of the ACR. */
  function SrMode(v: Via): Byte {
    v.regs[ACR] & 0x1c
  }

  /** via_init: clears the register file and selects the overlay in port A;
      the interrupt state is left as it was. */
  function Init(v: Via): (r: Via)
    ensures r.regs[RA] == 0x10
    ensures forall i :: 0 <= i < 16 && i != RA ==> r.regs[i] == 0
    ensures r.enable == v.enable && r.flags == v.flags && r.irq == v.irq
    ensures r.srTxPending == v.srTxPending
    ensures Valid(v) ==> Valid(r)
  {
    v.(regs := seq(16, i => if i == RA then 0x10 else 0))
  }

  /** via_assess_irq: recomputes the IRQ output and reports it only on a change. */
  function AssessIrq(v: Via): (r: Step)
    ensures r.via.irq == IrqLine(v)
    ensures r.via.(irq := v.irq) == v
    ensures Masks(v) ==> Valid(r.via)
    ensures r.events == [] || r.events == [IrqSet(IrqLine(v))]
    ensures r.events != [] <==> IrqLine(v) != v.irq
  {
    var line := IrqLine(v);
    Step(v.(irq := line), if line != v.irq then [IrqSet(line)] else [])
  }

  /** via_update_rega / via_update_regb: the change callback fires only when the
      written value differs from the stored one. */
  function PortChange(stored: Byte, data: Byte, ev: Event): seq<Event> {
    if stored != data then [ev] else []
  }

  /** via_update_sr: a shift-register write under the two modes the Mac uses.
      External-clock shift-out parks the byte and raises the SR flag; the
      handshake mode clears SR; any other mode does nothing. */
  function UpdateSr(v: Via, data: Byte): (r: Via)
    ensures Masks(v) ==> Masks(r)
    ensures r.irq == v.irq && r.enable == v.enable
    ensures SrMode(v) == 0x1c ==> r.srTxPending == Some(data) && r.flags == v.flags | IRQ_SR && r.regs == v.regs
    ensures SrMode(v) == 0x18 ==> r == v.(regs := v.regs[SR := 0])
    ensures SrMode(v) != 0x1c && SrMode(v) != 0x18 ==> r == v
  {
    if SrMode(v) == 0x1c then
      RaiseKeepsFlagMask(v.flags, IRQ_SR);
      v.(srTxPending := Some(data), flags := v.flags | IRQ_SR)
    else if SrMode(v) == 0x18 then v.(regs := v.regs[SR := 0])
    else v
  }

  /** via_sr_done: delivers a parked transmit, once. */
  function SrDone(v: Via): (r: Step)
    ensures r.via == v.(srTxPending := None)
    ensures v.srTxPending.Some? ==> r.events == [SrTx(v.srTxPending.value)]
    ensures v.srTxPending.None? ==> r.events == []
  {
    match v.srTxPending
    case Some(d) => Step(v.(srTxPending := None), [SrTx(d)])
    case None => Step(v, [])
  }

  /** The IER write convention: bit 7 set enables the written sources, bit 7
      clear disables them; bit 7 itself is never stored in the mask. */
  function IerUpdate(enable: Byte, data: Byte): (r: Byte)
    ensures (enable & 0x80) == 0 ==> (r & 0x80) == 0
    ensures (data & 0x80) != 0 ==> (r & data & 0x7f) == (data & 0x7f) && (r & !data & 0x7f) == (enable & !data & 0x7f)
    ensures (data & 0x80) == 0 ==> (r & data & 0x7f) == 0 && (r & !data & 0x7f) == (enable & !data & 0x7f)
  {
    if (data & 0x80) != 0 then enable | (data & 0x7f) else enable & !(data & 0x7f)
  }

  /** An IFR write: acknowledges (clears) the written flags, and delivers a
      parked transmit if the SR flag was among those acknowledged. */
  function IfrWrite(v: Via, data: Byte): (r: Step)
    ensures Masks(v) ==> Masks(r.via)
    ensures r.via.flags == v.flags & !data
    ensures r.via.irq == v.irq && r.via.enable == v.enable
    ensures r.via.regs == v.regs[IFR := data]
    ensures (v.flags & data & IRQ_SR) != 0 ==> r.via.srTxPending == None
    ensures (v.flags & data & IRQ_SR) != 0 && v.srTxPending.Some? ==> r.events == [SrTx(v.srTxPending.value)]
    ensures (v.flags & data & IRQ_SR) == 0 || v.srTxPending.None? ==> r.events == []
    ensures (v.flags & data & IRQ_SR) == 0 ==> r.via.srTxPending == v.srTxPending
  {
    var cleared := v.(flags := v.flags & !data);
    var done := if (v.flags & data & IRQ_SR) != 0 then SrDone(cleared) else Step(cleared, []);
    if (v.flags & 0xf8) == 0 then
      ClearKeepsFlagMask(v.flags, data);
      Step(done.via.(regs := done.via.regs[IFR := data]), done.events)
    else
      Step(done.via.(regs := done.via.regs[IFR := data]), done.events)
  }

  /** The register effect of a write, before the IRQ is re-assessed. */
  function WriteEffect(v: Via, reg: RegNum, data: Byte): (r: Step)
    ensures Masks(v) ==> Masks(r.via)
    ensures r.via.irq == v.irq
    ensures forall i :: 0 <= i < |r.events| ==> !r.events[i].IrqSet?
  {
    if reg == RA || reg == RA_ALT then
      Step(v.(regs := v.regs[RA := data]), PortChange(v.regs[RA], data, RaChange(data)))
    else if reg == RB then
      Step(v.(regs := v.regs[RB := data]), PortChange(v.regs[RB], data, RbChange(data)))
    else if reg == SR then
      Step(UpdateSr(v, data), [])
    else if reg == IER then
      Step(v.(enable := IerUpdate(v.enable, data), regs := v.regs[IER := data]), [])
    else if reg == IFR then
      IfrWrite(v, data)
    else
      Step(v.(regs := v.regs[reg := data]), [])
  }

  /** via_write. */
  function Write(v: Via, reg: RegNum, data: Byte): (r: Step)
    ensures Valid(v) ==> Valid(r.via)
    ensures r.via.irq == IrqLine(r.via)
    ensures reg != IER ==> r.via.enable == v.enable
    ensures reg != IFR ==> forall i :: 0 <= i < |r.events| ==> !r.events[i].SrTx?
  {
    var e := WriteEffect(v, reg, data);
    var a := AssessIrq(e.via);
    Step(a.via, e.events + a.events)
  }

  /** Port writes store the value and call back only on a change. */
  lemma WritePort(v: Via, reg: RegNum, data: Byte)
    requires reg in {RA, RA_ALT, RB}
    ensures var r := Write(v, reg, data);
      var stored := if reg == RB then RB else RA;
      && r.via.regs == v.regs[stored := data]
      && r.via.flags == v.flags
      && (r.events != [] && r.events[0] == (if reg == RB then RbChange(data) else RaChange(data))
          <==> v.regs[stored] != data)
  {
  }

  /** An IER write sets or clears the written sources according to bit 7. */
  lemma WriteIer(v: Via, data: Byte)
    ensures var r := Write(v, IER, data).via;
      r.enable == IerUpdate(v.enable, data) && r.flags == v.flags
  {
  }

  /** An IFR write clears exactly the written flag bits. */
  lemma WriteIfr(v: Via, data: Byte)
    ensures var r := Write(v, IFR, data).via;
      (r.flags & data) == 0 && (r.flags & !data) == (v.flags & !data)
  {
  }

  /** A shift-register write never stores the written byte in SR: SR keeps its
      value or is cleared. */
  lemma WriteSrNotStored(v: Via, data: Byte)
    ensures var r := Write(v, SR, data).via;
      r.regs[SR] == v.regs[SR] || r.regs[SR] == 0
  {
  }

  /** Any other register simply stores the written byte. */
  lemma WritePlain(v: Via, reg: RegNum, data: Byte)
    requires reg !in {RA, RA_ALT, RB, SR, IER, IFR}
    ensures var r := Write(v, reg, data);
      r.via.regs == v.regs[reg := data] && r.via.flags == v.flags && r.via.srTxPending == v.srTxPending
      && (r.events == [] || r.events == [IrqSet(r.via.irq)])
  {
  }

  /** via_read_ifr: the flags, with bit 7 set iff some enabled flag is active. */
  function ReadIfr(v: Via): (r: Byte)
    ensures (r & 0x7f) == (v.flags & 0x7f)
    ensures Masks(v) ==> ((r & 0x80) != 0 <==> IrqLine(v))
  {
    v.flags | (if IrqLine(v) then 0x80 else 0)
  }

  /** Port read: output bits come from the stored register, input bits from
      the sampled input. */
  function PortValue(ddr: Byte, stored: Byte, input: Byte): (r: Byte)
    ensures (r & ddr) == (stored & ddr)
    ensures (r & !ddr) == (input & !ddr)
  {
    (ddr & stored) | (!ddr & input)
  }

  /** via_read; `raIn` and `rbIn` are what the port-input callbacks return. */
  function Read(v: Via, reg: RegNum, raIn: Byte, rbIn: Byte): (r: ReadStep)
    ensures Valid(v) ==> Valid(r.via)
    ensures r.via.irq == IrqLine(r.via)
    ensures r.via.regs == v.regs && r.via.enable == v.enable && r.via.srTxPending == v.srTxPending
    ensures reg == SR ==> r.via.flags == v.flags & !IRQ_SR
    ensures reg != SR ==> r.via.flags == v.flags
    ensures r.events == [] || r.events == [IrqSet(r.via.irq)]
  {
    var s :=
      if reg == SR then
        if (v.flags & 0xf8) == 0 then ClearKeepsFlagMask(v.flags, IRQ_SR); v.(flags := v.flags & !IRQ_SR)
        else v.(flags := v.flags & !IRQ_SR)
      else v;
    var a := AssessIrq(s);
    ReadStep(a.via, RegisterValue(v, reg, raIn, rbIn), a.events)
  }

  /** The value a read returns, from the state before the read. */
  function RegisterValue(v: Via, reg: RegNum, raIn: Byte, rbIn: Byte): Byte {
    if reg == RA || reg == RA_ALT then PortValue(v.regs[DDRA], v.regs[RA], raIn)
    else if reg == RB then PortValue(v.regs[DDRB], v.regs[RB], rbIn)
    else if reg == IER then 0x80 | v.enable
    else if reg == IFR then ReadIfr(v)
    else v.regs[reg]
  }

  /** What each register reads as. */
  lemma ReadValue(v: Via, reg: RegNum, raIn: Byte, rbIn: Byte)
    ensures var x := Read(v, reg, raIn, rbIn).value;
      && (reg == RA || reg == RA_ALT ==> x == PortValue(v.regs[DDRA], v.regs[RA], raIn))
      && (reg == RB ==> x == PortValue(v.regs[DDRB], v.regs[RB], rbIn))
      && (reg == IER ==> x == 0x80 | v.enable)
      && (reg == IFR ==> x == ReadIfr(v))
      && (reg !in {RA, RA_ALT, RB, IER, IFR} ==> x == v.regs[reg])
  {
  }

  /** The flag a CA line event raises: CA1 for 1, CA2 for 2, none otherwise. */
  function CaFlag(ca: int): (r: Byte)
    ensures (r & 0xf8) == 0
  {
    if ca == 1 then IRQ_CA else if ca == 2 then IRQ_CB else 0
  }

  /** via_caX_event: CA1 (one-second tick) and CA2 (vertical blank) edges. */
  function CaEvent(v: Via, ca: int): (r: Step)
    ensures Valid(v) ==> Valid(r.via)
    ensures r.via.irq == IrqLine(r.via)
    ensures r.via.flags == v.flags | CaFlag(ca)
    ensures ca == 1 ==> (r.via.flags & IRQ_CA) != 0
    ensures ca == 2 ==> (r.via.flags & IRQ_CB) != 0
    ensures r.via.(irq := v.irq, flags := v.flags) == v
    ensures r.events == [] || r.events == [IrqSet(r.via.irq)]
  {
    var f := v.flags | CaFlag(ca);
    RaiseKeepsFlagMask(v.flags, CaFlag(ca));
    AssessIrq(v.(flags := f))
  }

  /** via_sr_rx: a byte from the keyboard, accepted only in shift-in mode. */
  function SrRx(v: Via, value: Byte): (r: Step)
    ensures Valid(v) ==> Valid(r.via)
    ensures SrMode(v) == 0x0c ==>
      r.via.regs[SR] == value && (r.via.flags & IRQ_SR) != 0 && r.via.irq == IrqLine(r.via)
    ensures SrMode(v) != 0x0c ==> r == Step(v, [])
  {
    if SrMode(v) == 0x0c then
      RaiseKeepsFlagMask(v.flags, IRQ_SR);
      AssessIrq(v.(regs := v.regs[SR := value], flags := v.flags | IRQ_SR))
    else Step(v, [])
  }

  // ---------------------------------------------------------------------------
  // Properties across calls

  /** After an IER write, an IER read reports the updated mask with bit 7 set. */
  lemma IerWriteThenRead(v: Via, data: Byte, raIn: Byte, rbIn: Byte)
    ensures var w := Write(v, IER, data).via;
      Read(w, IER, raIn, rbIn).value == 0x80 | IerUpdate(v.enable, data)
  {
  }

  /** The IRQ callback fires exactly when the line changes, after any write. */
  lemma WriteIrqEdges(v: Via, reg: RegNum, data: Byte)
    ensures var r := Write(v, reg, data);
      (exists i :: 0 <= i < |r.events| && r.events[i].IrqSet?) <==> r.via.irq != v.irq
  {
    var e := WriteEffect(v, reg, data);
    var a := AssessIrq(e.via);
    var evs := e.events + a.events;
    assert Write(v, reg, data) == Step(a.via, evs);
    if a.events != [] {
      assert evs[|e.events|].IrqSet?;
    }
    assert forall i :: 0 <= i < |evs| && evs[i].IrqSet? ==> i >= |e.events|;
  }

  /** In external-clock mode a shift-register write parks the byte and raises
      the SR flag without delivering it; acknowledging the flag through IFR
      then delivers it, exactly once, and nothing is left parked. */
  lemma ParkedTransmitDeliveredOnAck(v: Via, d: Byte, ack: Byte)
    requires SrMode(v) == 0x1c
    requires (ack & IRQ_SR) != 0
    ensures var w := Write(v, SR, d);
      && w.via.srTxPending == Some(d)
      && (w.via.flags & IRQ_SR) != 0
      && (forall i :: 0 <= i < |w.events| ==> !w.events[i].SrTx?)
      && var k := Write(w.via, IFR, ack);
      && |k.events| >= 1 && k.events[0] == SrTx(d)
      && (forall i :: 1 <= i < |k.events| ==> !k.events[i].SrTx?)
      && k.via.srTxPending == None
  {
    var w := Write(v, SR, d);
    assert (w.via.flags & ack & IRQ_SR) != 0 by {
      assert (w.via.flags & IRQ_SR) != 0;
    }
  }

  /** Reading SR acknowledges the SR flag but does not deliver a parked byte. */
  lemma SrReadKeepsParkedByte(v: Via, raIn: Byte, rbIn: Byte)
    ensures var r := Read(v, SR, raIn, rbIn);
      && (r.via.flags & IRQ_SR) == 0
      && r.via.srTxPending == v.srTxPending
      && forall i :: 0 <= i < |r.events| ==> !r.events[i].SrTx?
  {
  }

  /** A byte received in shift-in mode is what the next SR read returns, and
      that read acknowledges it. */
  lemma ReceiveThenRead(v: Via, value: Byte, raIn: Byte, rbIn: Byte)
    requires SrMode(v) == 0x0c
    ensures var r := Read(SrRx(v, value).via, SR, raIn, rbIn);
      r.value == value && (r.via.flags & IRQ_SR) == 0
  {
  }
}
