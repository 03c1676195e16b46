/**
 The end of exec_next on values: timers, interrupts, then the PPU. A halted CPU spends three
 cycles on each call, and is always woken by VBLANK if that interrupt is enabled.
 */
module Halt {
  import opened Bytes
  import Timers
  import LcdTiming
  import Interrupts

  /** The IF register is the one in `lcd`. */
  datatype State = State(timer: Timers.Timer, lcd: LcdTiming.Lcd, ieReg: byte, ime: bool, halted: bool)

  predicate WellFormed(h: State) { Timers.WellFormed(h.timer) }

  /** The timers of cpu_exec_next, which may request their interrupt. */
  function Ticked(h: State, cycles: byte): State
    requires WellFormed(h)
  {
    var timer := Timers.Tick(h.timer, cycles);
    var ifReg := if timer.requests > h.timer.requests then Byte(With(h.lcd.ifReg, 4)) else h.lcd.ifReg;
    h.(timer := timer, lcd := h.lcd.(ifReg := ifReg))
  }

  function Irq(h: State): Interrupts.Irq { Interrupts.Irq(h.lcd.ifReg, h.ieReg, h.ime, h.halted) }

  /** What handle_intrs decides after so many cycles. */
  function Outcome(h: State, cycles: byte): Interrupts.Outcome
    requires WellFormed(h)
  {
    Interrupts.Arbitrate(Irq(Ticked(h, cycles)))
  }

  function Arbitrated(h: State): State {
    var irq := Interrupts.Arbitrate(Irq(h)).irq;
    State(h.timer, h.lcd.(ifReg := irq.ifReg), h.ieReg, irq.ime, irq.halted)
  }

  /** cpu_exec_next after the instruction, and ppu_refresh. */
  function Tail(h: State, cycles: byte): State
    requires WellFormed(h)
  {
    var u := Arbitrated(Ticked(h, cycles));
    u.(lcd := LcdTiming.Refresh(u.lcd, cycles))
  }

  const HALT_CYCLES: byte := 3

  function Steps(h: State, n: nat): (u: State)
    requires WellFormed(h)
    ensures WellFormed(u)
    decreases n
  {
    if n == 0 then h else Steps(Tail(h, HALT_CYCLES), n - 1)
  }

  /** Something pending wakes the CPU, whatever the timers add. */
  lemma WakesIfPending(h: State)
    requires WellFormed(h) && h.halted
    requires Has(h.lcd.ifReg, 1) && Has(h.ieReg, 1)
    ensures !Tail(h, HALT_CYCLES).halted
  {
    var u := Ticked(h, HALT_CYCLES);
    assert With(h.lcd.ifReg, 4) < 0x100;
    assert Has(u.lcd.ifReg, 1);
    PendingWakes(u);
  }

  lemma PendingWakes(u: State)
    requires u.halted && Has(u.lcd.ifReg, 1) && Has(u.ieReg, 1)
    ensures !Arbitrated(u).halted
  {
    assert Interrupts.Pending(u.lcd.ifReg, u.ieReg, 0);
  }

  /** A PPU call after a halted step counts 12 dots down, and raises VBLANK when they run out. */
  lemma TwelveDots(lcd: LcdTiming.Lcd)
    requires LcdTiming.Timed(lcd)
    ensures var u := LcdTiming.Refresh(lcd, HALT_CYCLES);
            && LcdTiming.Timed(u)
            && (if LcdTiming.Measure(lcd) <= 12 then Has(u.ifReg, 1)
                else LcdTiming.Measure(u) == LcdTiming.Measure(lcd) - 12)
  {
    LcdTiming.RefreshTimed(lcd, HALT_CYCLES);
    if LcdTiming.Measure(lcd) <= 12 {
      LcdTiming.VblankSetsIf(lcd, HALT_CYCLES);
    }
  }

  /** A halted call that does not wake leaves IF to the timers and the PPU. */
  lemma StaysHalted(h: State)
    requires WellFormed(h) && h.halted && Tail(h, HALT_CYCLES).halted
    requires LcdTiming.Timed(h.lcd)
    ensures var u := Tail(h, HALT_CYCLES);
            && LcdTiming.Timed(u.lcd) && u.ieReg == h.ieReg
            && (if LcdTiming.Measure(h.lcd) <= 12 then Has(u.lcd.ifReg, 1)
                else LcdTiming.Measure(u.lcd) == LcdTiming.Measure(h.lcd) - 12)
  {
    var lcd := Arbitrated(Ticked(h, HALT_CYCLES)).lcd;
    assert LcdTiming.Timed(lcd) && LcdTiming.Measure(lcd) == LcdTiming.Measure(h.lcd);
    TwelveDots(lcd);
  }

  /** Halted, with the LCD on and the VBLANK interrupt enabled. */
  predicate Waiting(h: State) {
    WellFormed(h) && h.halted && LcdTiming.Timed(h.lcd) && Has(h.ieReg, 1)
  }

  /** Calls that may still be needed to wake: one if VBLANK is requested, else until it is. */
  function CallsLeft(h: State): int {
    if Has(h.lcd.ifReg, 1) then 1 else (LcdTiming.Measure(h.lcd) + 11) / 12 + 1
  }

  /** One call of a halted CPU wakes it or brings the end nearer. */
  lemma HaltedStep(h: State)
    requires Waiting(h)
    ensures 1 <= CallsLeft(h) <= 5841
    ensures var u := Tail(h, HALT_CYCLES);
            u.halted ==>
              Waiting(u) && u.ime == h.ime && CallsLeft(u) < CallsLeft(h)
  {
    LcdTiming.DotsStayInRange(h.lcd);
    if Tail(h, HALT_CYCLES).halted {
      StaysHalted(h);
      LcdTiming.DotsStayInRange(Tail(h, HALT_CYCLES).lcd);
      if Has(h.lcd.ifReg, 1) {
        WakesIfPending(h);
      }
    }
  }

  lemma {:induction false} StepsSnoc(h: State, n: nat)
    requires WellFormed(h)
    ensures Steps(h, n + 1) == Tail(Steps(h, n), HALT_CYCLES)
    decreases n
  {
    if n > 0 {
      StepsSnoc(Tail(h, HALT_CYCLES), n - 1);
    }
  }

  /** While it is still halted, every call so far has brought the end nearer by one at least. */
  lemma {:induction false} HaltedSoFar(h: State, n: nat)
    requires Waiting(h) && Steps(h, n).halted
    ensures Waiting(Steps(h, n)) && n + CallsLeft(Steps(h, n)) <= CallsLeft(h)
    ensures n < CallsLeft(h) <= 5841
    decreases n
  {
    HaltedStep(h);
    if n > 0 {
      var p := Steps(h, n - 1);
      StepsSnoc(h, n - 1);
      assert p.halted;
      HaltedSoFar(h, n - 1);
      HaltedStep(p);
      HaltedStep(Tail(p, HALT_CYCLES));
    }
  }

  /**
   HALT always wakes: with the LCD on and the VBLANK interrupt enabled, from every state the
   timing machine can be in, whatever the timers do, within 5841 calls.
   */
  lemma HaltWakes(h: State)
    requires Waiting(h)
    ensures 1 <= CallsLeft(h) <= 5841 && !Steps(h, CallsLeft(h)).halted
  {
    HaltedStep(h);
    if Steps(h, CallsLeft(h)).halted {
      HaltedSoFar(h, CallsLeft(h));
    }
  }
}
