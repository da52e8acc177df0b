/** The input pipeline of src/main.c: the mouse delta accumulator and the
    quadrature stepper that turns it into SCC DCD edges and VIA port B bits,
    and the keyboard, which answers commands the Mac shifts out through the
    VIA shift register.

    The calls out of this code (scc_set_dcd, via_sr_rx) are returned as
    optional outputs; the state they act on belongs to the Scc and Via
    modules, and the Bus module wires them together. */
module Input {
  import opened Maybe
  import opened MachHw

  const MOUSE_MAX_PENDING_PIX: int := 30

  const KBD_CMD_GET_MODEL: Byte := 0x16
  const KBD_CMD_INQUIRY: Byte := 0x10
  const KBD_MODEL: Byte := 5
  const KBD_RSP_NULL: Byte := 0x7b

  /** The main loop's time step, in microseconds. */
  const QUANTUM: nat := 5000

  /** global_time_us is a uint64. */
  const TIME_MOD: nat := 0x1_0000_0000_0000_0000
  type Time = t: nat | t < TIME_MOD

  // ---------------------------------------------------------------------------
  // Mouse

  /** pending_mouse_deltax/y, via_mouse_pressed, via_quadbits and the static
      old_dcd_a/b of mouse_tick. */
  datatype Mouse = Mouse(dx: int, dy: int, pressed: Byte, quadbits: Byte, dcdA: bool, dcdB: bool)

  const MouseAtStart: Mouse := Mouse(0, 0, 0, 0, false, false)

  /** The pending deltas are within the clamp and only the two quadrature
      bits (port B bits 4 and 5) are ever set in `quadbits`. */
  predicate MouseValid(m: Mouse) {
    && -MOUSE_MAX_PENDING_PIX <= m.dx <= MOUSE_MAX_PENDING_PIX
    && -MOUSE_MAX_PENDING_PIX <= m.dy <= MOUSE_MAX_PENDING_PIX
    && (m.quadbits & !0x30) == 0
  }

  function Clamp(x: int): (r: int)
    ensures -MOUSE_MAX_PENDING_PIX <= r <= MOUSE_MAX_PENDING_PIX
    ensures -MOUSE_MAX_PENDING_PIX <= x <= MOUSE_MAX_PENDING_PIX ==> r == x
    ensures x > MOUSE_MAX_PENDING_PIX ==> r == MOUSE_MAX_PENDING_PIX
    ensures x < -MOUSE_MAX_PENDING_PIX ==> r == -MOUSE_MAX_PENDING_PIX
  {
    if x > MOUSE_MAX_PENDING_PIX then MOUSE_MAX_PENDING_PIX
    else if x < -MOUSE_MAX_PENDING_PIX then -MOUSE_MAX_PENDING_PIX
    else x
  }

  /** umac_mouse: accumulates and clamps the deltas; the button level is
      stored at once, truncated to a byte as the C assignment does. */
  function MouseInput(m: Mouse, deltax: int, deltay: int, button: int): (r: Mouse)
    ensures MouseValid(m) ==> MouseValid(r)
    ensures r.dx == Clamp(m.dx + deltax) && r.dy == Clamp(m.dy + deltay)
    ensures (r.pressed == 0) <==> button % 256 == 0
    ensures r.quadbits == m.quadbits && r.dcdA == m.dcdA && r.dcdB == m.dcdB
  {
    m.(dx := Clamp(m.dx + deltax), dy := Clamp(m.dy + deltay), pressed := (button % 256) as Byte)
  }

  /** via_rb_in: the quadrature bits, with bit 3 set while the button is up. */
  function RbIn(m: Mouse): (r: Byte)
    ensures (r & 0x08) != 0 <==> m.pressed == 0 || (m.quadbits & 0x08) != 0
    ensures (r & 0x30) == (m.quadbits & 0x30)
  {
    m.quadbits | (if m.pressed == 0 then 0x08 else 0)
  }

  /** One unit toward zero. */
  function StepToward0(d: int): (r: int)
    requires d != 0
    ensures if d > 0 then r == d - 1 else r == d + 1
  {
    d + (if d > 0 then -1 else 1)
  }

  /** The quadrature bit for one axis: set iff the movement direction
      (negative) equals the new DCD phase. */
  function QuadBit(qb: Byte, bit: Byte, negative: bool, phase: bool): (r: Byte)
    requires bit == 0x10 || bit == 0x20
    ensures (r & bit) != 0 <==> negative == phase
    ensures (r & !bit) == (qb & !bit)
  {
    (qb & !bit) | (if negative == phase then bit else 0)
  }

  datatype AxisStep = AxisStep(delta: int, phase: bool, quadbits: Byte)

  /** One axis of mouse_tick: a nonzero delta moves one unit toward zero and
      toggles the DCD phase, and the axis' port B bit is set iff the direction
      is negative exactly when the new phase is high. A zero delta keeps its
      delta, its phase and its port bit. */
  function StepAxis(d: int, phase: bool, qb: Byte, bit: Byte): (r: AxisStep)
    requires bit == 0x10 || bit == 0x20
    ensures d == 0 ==> r == AxisStep(0, phase, qb)
    ensures d > 0 ==> r.delta == d - 1
    ensures d < 0 ==> r.delta == d + 1
    ensures d != 0 ==> r.phase == !phase && ((r.quadbits & bit) != 0 <==> (d < 0) == r.phase)
    ensures (r.quadbits & !bit) == (qb & !bit)
  {
    if d == 0 then AxisStep(0, phase, qb)
    else AxisStep(StepToward0(d), !phase, QuadBit(qb, bit, d < 0, !phase))
  }

  lemma OtherBitsKeepMask(q0: Byte, q1: Byte, bit: Byte)
    requires bit == 0x10 || bit == 0x20
    requires (q1 & !bit) == (q0 & !bit)
    ensures (q0 & !0x30) == 0 ==> (q1 & !0x30) == 0
  {
  }

  lemma SameOutsideBit(x: Byte, y: Byte, bit: Byte, other: Byte)
    requires (bit == 0x10 && other == 0x20) || (bit == 0x20 && other == 0x10)
    requires (y & !bit) == (x & !bit)
    ensures (y & other) == (x & other)
  {
  }

  datatype Dcd = Dcd(a: bool, b: bool)

  datatype Tick = Tick(mouse: Mouse, setDcd: Option<Dcd>)

  /** mouse_tick; `sccIrq` is scc_irq_state, the last level the SCC reported.
      X drives DCD A and port B bit 4, Y drives DCD B and port B bit 5, and a
      moving tick calls scc_set_dcd exactly once with the new phases. */
  function MouseTick(m: Mouse, sccIrq: bool): (r: Tick)
    ensures (m.dx == 0 && m.dy == 0) || sccIrq ==> r == Tick(m, None)
    ensures !((m.dx == 0 && m.dy == 0) || sccIrq) ==> r.setDcd == Some(Dcd(r.mouse.dcdA, r.mouse.dcdB))
    ensures MouseValid(m) ==> MouseValid(r.mouse)
    ensures r.mouse.pressed == m.pressed
  {
    if (m.dx == 0 && m.dy == 0) || sccIrq then Tick(m, None)
    else
      var x := StepAxis(m.dx, m.dcdA, m.quadbits, 0x10);
      var y := StepAxis(m.dy, m.dcdB, x.quadbits, 0x20);
      OtherBitsKeepMask(m.quadbits, x.quadbits, 0x10);
      OtherBitsKeepMask(x.quadbits, y.quadbits, 0x20);
      Tick(Mouse(x.delta, y.delta, m.pressed, y.quadbits, x.phase, y.phase), Some(Dcd(x.phase, y.phase)))
  }

  /** A moving tick on the X axis, as seen in the new mouse state. */
  lemma MouseTickX(m: Mouse)
    requires m.dx != 0 || m.dy != 0
    ensures var r := MouseTick(m, false).mouse;
      && (m.dx > 0 ==> r.dx == m.dx - 1 && r.dcdA == !m.dcdA)
      && (m.dx < 0 ==> r.dx == m.dx + 1 && r.dcdA == !m.dcdA)
      && (m.dx == 0 ==> r.dx == 0 && r.dcdA == m.dcdA)
  {
  }

  /** The X axis' port B bit after a moving tick: set iff the X direction is
      negative exactly when the new DCD A phase is high; kept when X is still. */
  lemma MouseTickXBit(m: Mouse)
    requires m.dx != 0 || m.dy != 0
    ensures var r := MouseTick(m, false).mouse;
      && (m.dx != 0 ==> ((r.quadbits & 0x10) != 0 <==> (m.dx < 0) == r.dcdA))
      && (m.dx == 0 ==> (r.quadbits & 0x10) == (m.quadbits & 0x10))
  {
    YStepKeepsXBit(StepAxis(m.dx, m.dcdA, m.quadbits, 0x10), m.dy, m.dcdB);
  }

  /** The Y step of a tick leaves the X axis' port B bit alone. */
  lemma YStepKeepsXBit(x: AxisStep, dy: int, phase: bool)
    ensures (StepAxis(dy, phase, x.quadbits, 0x20).quadbits & 0x10) == (x.quadbits & 0x10)
  {
    SameOutsideBit(x.quadbits, StepAxis(dy, phase, x.quadbits, 0x20).quadbits, 0x20, 0x10);
  }

  /** A moving tick on the Y axis, as seen in the new mouse state. */
  lemma MouseTickY(m: Mouse)
    requires m.dx != 0 || m.dy != 0
    ensures var r := MouseTick(m, false).mouse;
      && (m.dy > 0 ==> r.dy == m.dy - 1)
      && (m.dy < 0 ==> r.dy == m.dy + 1)
      && (m.dy != 0 ==> r.dcdB == !m.dcdB && ((r.quadbits & 0x20) != 0 <==> (m.dy < 0) == r.dcdB))
      && (m.dy == 0 ==> r.dy == 0 && r.dcdB == m.dcdB && (r.quadbits & 0x20) == (m.quadbits & 0x20))
  {
    var x := StepAxis(m.dx, m.dcdA, m.quadbits, 0x10);
    SameOutsideBit(m.quadbits, x.quadbits, 0x10, 0x20);
  }

  /** `n` ticks with no SCC interrupt outstanding. */
  function Ticks(m: Mouse, n: nat): Mouse
    decreases n
  {
    if n == 0 then m else Ticks(MouseTick(m, false).mouse, n - 1)
  }

  /** Where a delta `d` stands after `n` unit steps toward zero. */
  function Drained(d: int, n: nat): (r: int)
    ensures d >= 0 ==> 0 <= r <= d
    ensures d <= 0 ==> d <= r <= 0
  {
    if d >= 0 then (if d > n then d - n else 0) else (if -d > n then d + n else 0)
  }

  function Abs(d: int): nat {
    if d < 0 then -d else d
  }

  function Min(a: nat, b: nat): nat {
    if a < b then a else b
  }

  /** Toggling `phase` `k` times. */
  function Toggled(phase: bool, k: nat): bool {
    if k % 2 == 0 then phase else !phase
  }

  /** With the SCC interrupt always serviced, `n` ticks drain each axis by
      `n` units (stopping at zero) and toggle its DCD phase once per unit
      moved: the pointer travels exactly the accumulated distance. */
  lemma {:induction false} TicksDrain(m: Mouse, n: nat)
    ensures Ticks(m, n).dx == Drained(m.dx, n)
    ensures Ticks(m, n).dy == Drained(m.dy, n)
    ensures Ticks(m, n).dcdA == Toggled(m.dcdA, Min(n, Abs(m.dx)))
    ensures Ticks(m, n).dcdB == Toggled(m.dcdB, Min(n, Abs(m.dy)))
    decreases n
  {
    if n == 0 {
    } else if m.dx == 0 && m.dy == 0 {
      ZeroStaysPut(m, n);
    } else {
      var m1 := MouseTick(m, false).mouse;
      MouseTickX(m);
      MouseTickY(m);
      AxisStepDrain(m.dx, m.dcdA, n, m1.dx, m1.dcdA);
      AxisStepDrain(m.dy, m.dcdB, n, m1.dy, m1.dcdB);
      TicksDrain(m1, n - 1);
      assert Ticks(m, n) == Ticks(m1, n - 1);
    }
  }

  /** One moving tick on one axis consumes one of the `n` steps. */
  lemma AxisStepDrain(d: int, p: bool, n: nat, d1: int, p1: bool)
    requires n > 0
    requires d == 0 ==> d1 == 0 && p1 == p
    requires d > 0 ==> d1 == d - 1 && p1 == !p
    requires d < 0 ==> d1 == d + 1 && p1 == !p
    ensures Drained(d1, n - 1) == Drained(d, n)
    ensures Toggled(p1, Min(n - 1, Abs(d1))) == Toggled(p, Min(n, Abs(d)))
  {
    if d != 0 {
      assert Min(n - 1, Abs(d1)) == Min(n, Abs(d)) - 1;
    }
  }

  /** With nothing pending, ticks change nothing. */
  lemma {:induction false} ZeroStaysPut(m: Mouse, n: nat)
    requires m.dx == 0 && m.dy == 0
    ensures Ticks(m, n) == m
    decreases n
  {
    if n > 0 {
      ZeroStaysPut(MouseTick(m, false).mouse, n - 1);
    }
  }

  /** Back-pressure: while the SCC interrupt is outstanding, no tick moves. */
  lemma TickHeldWhileIrq(m: Mouse)
    ensures MouseTick(m, true) == Tick(m, None)
  {
  }

  // ---------------------------------------------------------------------------
  // Keyboard

  /** kbd_last_cmd (0 = none), kbd_last_cmd_time, and the single event slot
      kbd_pending_evt (-1 = empty). */
  datatype Keyboard = Keyboard(lastCmd: Byte, lastCmdTime: Time, pendingEvt: Option<Byte>)

  const KeyboardAtStart: Keyboard := Keyboard(0, 0, None)

  /** via_sr_tx: records the command byte the Mac shifted out, and when. */
  function SrTx(k: Keyboard, data: Byte, now: Time): (r: Keyboard)
    ensures r.lastCmd == data && r.lastCmdTime == now && r.pendingEvt == k.pendingEvt
  {
    Keyboard(data, now, k.pendingEvt)
  }

  /** umac_kbd_event: the key code with bit 7 set for a key-up, overwriting
      any event not yet consumed. */
  function KbdEvent(k: Keyboard, scancode: Byte, down: bool): (r: Keyboard)
    ensures r.pendingEvt.Some?
    ensures (r.pendingEvt.value & 0x80) == 0 <==> down && (scancode & 0x80) == 0
    ensures (r.pendingEvt.value & 0x7f) == (scancode & 0x7f)
    ensures r.lastCmd == k.lastCmd && r.lastCmdTime == k.lastCmdTime
  {
    k.(pendingEvt := Some(scancode | (if down then 0 else 0x80)))
  }

  datatype Response = Response(kbd: Keyboard, reply: Option<Byte>)

  /** kbd_rx: the model-number and inquiry commands; the inquiry hands over
      the pending event (emptying the slot) or the null response. */
  function KbdRx(k: Keyboard, cmd: Byte): (r: Response)
    ensures cmd == KBD_CMD_GET_MODEL ==> r == Response(k, Some(0x0b))
    ensures cmd == KBD_CMD_INQUIRY && k.pendingEvt.None? ==> r == Response(k, Some(KBD_RSP_NULL))
    ensures cmd == KBD_CMD_INQUIRY && k.pendingEvt.Some? ==> r == Response(k.(pendingEvt := None), k.pendingEvt)
    ensures cmd != KBD_CMD_GET_MODEL && cmd != KBD_CMD_INQUIRY ==> r == Response(k, None)
  {
    if cmd == KBD_CMD_GET_MODEL then Response(k, Some(0x01 | (KBD_MODEL << 1)))
    else if cmd == KBD_CMD_INQUIRY then
      match k.pendingEvt
      case None => Response(k, Some(KBD_RSP_NULL))
      case Some(e) => Response(k.(pendingEvt := None), Some(e))
    else Response(k, None)
  }

  /** uint64 subtraction. */
  function Elapsed(now: Time, since: Time): (r: Time)
    ensures since <= now ==> r == now - since
    ensures now < since ==> r == now + TIME_MOD - since
  {
    (now - since) % TIME_MOD
  }

  /** kbd_check_work: a recorded command is answered, and cleared, only once
      strictly more than one quantum has passed since it was recorded. */
  function CheckWork(k: Keyboard, now: Time): (r: Response)
    ensures k.lastCmd == 0 || Elapsed(now, k.lastCmdTime) <= QUANTUM ==> r == Response(k, None)
    ensures k.lastCmd != 0 && Elapsed(now, k.lastCmdTime) > QUANTUM ==>
      r.kbd.lastCmd == 0 && r.reply == KbdRx(k, k.lastCmd).reply && r.kbd.pendingEvt == KbdRx(k, k.lastCmd).kbd.pendingEvt
  {
    if k.lastCmd != 0 && Elapsed(now, k.lastCmdTime) > QUANTUM then
      var rx := KbdRx(k, k.lastCmd);
      Response(rx.kbd.(lastCmd := 0), rx.reply)
    else Response(k, None)
  }

  /** The main loop advances time by one quantum before polling, so a command
      recorded during a run is not answered at the first poll (exactly one
      quantum later) but at the second, also across uint64 wrap-around. */
  lemma CommandAnsweredOnSecondPoll(k: Keyboard, cmd: Byte, t: Time)
    requires cmd != 0
    ensures var k1 := SrTx(k, cmd, t);
      && CheckWork(k1, (t + QUANTUM) % TIME_MOD) == Response(k1, None)
      && CheckWork(k1, (t + 2 * QUANTUM) % TIME_MOD).kbd.lastCmd == 0
      && CheckWork(k1, (t + 2 * QUANTUM) % TIME_MOD).reply == KbdRx(k1, cmd).reply
  {
  }

  /** One slot: of two key events not yet polled, only the later is reported,
      and the inquiry after it finds the slot empty. */
  lemma OneEventSlot(k: Keyboard, s1: Byte, d1: bool, s2: Byte, d2: bool)
    ensures var k2 := KbdEvent(KbdEvent(k, s1, d1), s2, d2);
      && KbdRx(k2, KBD_CMD_INQUIRY).reply == Some(s2 | (if d2 then 0 else 0x80))
      && KbdRx(KbdRx(k2, KBD_CMD_INQUIRY).kbd, KBD_CMD_INQUIRY).reply == Some(KBD_RSP_NULL)
  {
  }
}
