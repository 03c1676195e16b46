/** DIV and TIMA on values, and closed forms for what they count over whole runs. */
module Timers {
  import opened Bytes

  /** `requests` is history: how often TIMA has overflowed and requested its interrupt. */
  datatype Timer = Timer(
    div: byte, divCounter: nat, enabled: bool, tima: byte, tma: byte, counter: byte, divider: nat, requests: nat
  )

  predicate WellFormed(t: Timer) {
    && t.divCounter < 64
    && t.divider in {0, 4, 16, 64, 256}
    && (t.enabled ==> t.divider != 0)
  }

  function Increment(t: Timer): Timer {
    if t.tima == 0xff then t.(tima := t.tma, requests := t.requests + 1) else t.(tima := t.tima + 1)
  }

  /** The timers after an instruction of so many cycles. */
  function Tick(t: Timer, cycles: nat): Timer
    requires WellFormed(t)
  {
    var total := 64 * t.div + t.divCounter + cycles;
    var u := t.(div := Byte(total / 64), divCounter := total % 64);
    if !t.enabled then u
    else
      var counter := (t.counter + cycles) % t.divider;
      if t.counter + cycles < t.divider then u.(counter := counter) else Increment(u).(counter := counter)
  }

  lemma Prescaled(div: nat, counter: nat)
    ensures (64 * div + counter) % 64 == counter % 64 && (64 * div + counter) / 64 == div + counter / 64
  {
  }

  /** The code's tests and updates by division, read as comparisons. */
  lemma Reached(t: Timer, cycles: nat)
    requires WellFormed(t)
    ensures t.divider > 0 ==>
              && ((t.counter + cycles) / t.divider != 0 <==> t.counter + cycles >= t.divider)
              && (t.counter + cycles < t.divider ==> Byte(t.counter + cycles) == (t.counter + cycles) % t.divider)
  {
    if t.divider > 0 {
      DivisionStep(0, t.counter + cycles, t.divider);
    }
  }

  /** A write to TAC. */
  function WriteTac(t: Timer, v: byte): (u: Timer)
    ensures u.divider > 0
  {
    t.(enabled := Has(v, 4),
       divider := if v % 4 == 0 then 256 else if v % 4 == 1 then 4 else if v % 4 == 2 then 16 else 64)
  }

  /** Power on. */
  function Initial(): Timer { Timer(0, 0, false, 0, 0, 0, 0, 0) }

  datatype Event = Cycles(n: nat) | Tac(v: byte) | Tma(v: byte) | Tima(v: byte) | Div

  function Apply(t: Timer, e: Event): Timer
    requires WellFormed(t)
  {
    match e
    case Cycles(n) => Tick(t, n)
    case Tac(v) => WriteTac(t, v)
    case Tma(v) => t.(tma := v)
    case Tima(v) => t.(tima := v)
    case Div => t.(div := 0)
  }

  /** No event takes the timers to a state that divides by zero or leaves the 6-bit counter. */
  function After(events: seq<Event>): (t: Timer)
    ensures WellFormed(t)
  {
    if events == [] then Initial() else Apply(After(events[..|events| - 1]), events[|events| - 1])
  }

  // ---------- runs without writes to the timer registers ----------

  function Run(t: Timer, run: seq<nat>): (u: Timer)
    requires WellFormed(t)
    ensures WellFormed(u) && u.enabled == t.enabled && u.divider == t.divider && u.tma == t.tma
  {
    if run == [] then t else Tick(Run(t, run[..|run| - 1]), run[|run| - 1])
  }

  function Sum(run: seq<nat>): nat {
    if run == [] then 0 else Sum(run[..|run| - 1]) + run[|run| - 1]
  }

  /** How often TIMA ticks in the run. */
  function Ticks(t: Timer, run: seq<nat>): nat
    requires WellFormed(t)
  {
    if run == [] then 0
    else
      var u, c := Run(t, run[..|run| - 1]), run[|run| - 1];
      Ticks(t, run[..|run| - 1]) + if u.enabled && u.counter + c >= u.divider then 1 else 0
  }

  /** DIV and its prescaler count every cycle, modulo 2^14. */
  lemma {:induction false} DivCountsCycles(t: Timer, run: seq<nat>)
    requires WellFormed(t)
    ensures var u := Run(t, run);
            64 * u.div + u.divCounter == (64 * t.div + t.divCounter + Sum(run)) % 0x4000
  {
    if run != [] {
      var u, c := Run(t, run[..|run| - 1]), run[|run| - 1];
      DivCountsCycles(t, run[..|run| - 1]);
      TickDiv(u, c);
      Carries(64 * t.div + t.divCounter + Sum(run[..|run| - 1]), c);
    }
  }

  lemma TickDiv(t: Timer, c: nat)
    requires WellFormed(t)
    ensures 64 * Tick(t, c).div + Tick(t, c).divCounter == (64 * t.div + t.divCounter + c) % 0x4000
  {
    Recombine(64 * t.div + t.divCounter + c);
  }

  lemma Recombine(total: nat)
    ensures 64 * Byte(total / 64) + total % 64 == total % 0x4000
  {
  }

  lemma Carries(s: nat, c: nat)
    ensures (s % 0x4000 + c) % 0x4000 == (s + c) % 0x4000
  {
  }

  /** Full periods of length d in n, and what is left over. */
  function Periods(n: nat, d: nat): nat
    requires d > 0
  {
    n / d
  }

  function Rest(n: nat, d: nat): (r: nat)
    requires d > 0
    ensures r < d
  {
    n % d
  }

  lemma DivisionStep(s: nat, c: nat, d: nat)
    requires d > 0
    ensures Rest(s + c, d) == Rest(Rest(s, d) + c, d)
    ensures Periods(s + c, d) == Periods(s, d) + Periods(Rest(s, d) + c, d)
  {
    var q, m := s / d, s % d + c;
    assert s == d * q + s % d && m == d * (m / d) + m % d;
    assert d * (q + m / d) == d * q + d * (m / d);
    DivUnique(s + c, d, q + m / d, m % d);
  }

  lemma FewPeriods(n: nat, d: nat)
    requires d > 0
    ensures Periods(n, d) >= 1 <==> n >= d
    ensures Periods(n, d) >= 2 <==> n >= 2 * d
    ensures n < d ==> Rest(n, d) == n
  {
    var q, r := n / d, n % d;
    assert n == d * q + r;
    if n < d {
      DivUnique(n, d, 0, n);
    } else if n < 2 * d {
      DivUnique(n, d, 1, n - d);
    } else if q < 2 {
      Scaled(d, q, 1);
    }
  }

  /**
   The prescaler after the run. A write to TAC can leave it at or above a smaller divider; it comes
   below it with the first instruction.
   */
  function Phase(t: Timer, run: seq<nat>): nat
    requires t.divider > 0
  {
    if run == [] then t.counter else Rest(t.counter + Sum(run), t.divider)
  }

  /** Step i of the run completes two divider periods at once. */
  predicate Skips(t: Timer, run: seq<nat>, i: nat)
    requires i < |run| && t.divider > 0
  {
    Phase(t, run[..i]) + run[i] >= 2 * t.divider
  }

  predicate NoSkips(t: Timer, run: seq<nat>)
    requires t.divider > 0
  {
    forall i | 0 <= i < |run| :: !Skips(t, run, i)
  }

  /** The prescaler keeps the phase of all cycles. */
  lemma {:induction false} PhaseKept(t: Timer, run: seq<nat>)
    requires WellFormed(t) && t.enabled
    ensures Run(t, run).counter == Phase(t, run)
  {
    if run != [] {
      var front, c := run[..|run| - 1], run[|run| - 1];
      PhaseKept(t, front);
      PhaseStep(t, front, Run(t, front), c);
    }
  }

  lemma PhaseStep(t: Timer, front: seq<nat>, u: Timer, c: nat)
    requires WellFormed(u) && u.enabled && u.divider == t.divider && u.counter == Phase(t, front)
    ensures Tick(u, c).counter == Rest(t.counter + Sum(front) + c, t.divider)
  {
    DivisionStep(t.counter + Sum(front), c, t.divider);
  }

  /**
   TIMA ticks once for each full divider period, exactly when no instruction completes two of
   them: the code adds one per instruction. This holds from every state of the prescaler, once an
   instruction has run.
   */
  lemma {:induction false} TicksExact(t: Timer, run: seq<nat>)
    requires WellFormed(t) && t.enabled && (run != [] || t.counter < t.divider)
    ensures Ticks(t, run) <= Periods(t.counter + Sum(run), t.divider)
    ensures Ticks(t, run) == Periods(t.counter + Sum(run), t.divider) <==> NoSkips(t, run)
  {
    hide Periods, Rest, NoSkips;
    if run == [] {
      FewPeriods(t.counter, t.divider);
      NoneSkipped(t);
    } else {
      var front, c := run[..|run| - 1], run[|run| - 1];
      PhaseKept(t, front);
      NoSkipsFront(t, run);
      FewPeriods(Phase(t, front) + c, t.divider);
      if front == [] {
        NoneSkipped(t);
      } else {
        TicksExact(t, front);
        DivisionStep(t.counter + Sum(front), c, t.divider);
      }
    }
  }

  lemma NoneSkipped(t: Timer)
    requires t.divider > 0
    ensures NoSkips(t, [])
  {
  }

  lemma NoSkipsFront(t: Timer, run: seq<nat>)
    requires run != [] && t.divider > 0
    ensures var front, c := run[..|run| - 1], run[|run| - 1];
            NoSkips(t, run) <==> NoSkips(t, front) && Phase(t, front) + c < 2 * t.divider
  {
    var front := run[..|run| - 1];
    forall i | 0 <= i < |front|
      ensures Skips(t, front, i) <==> Skips(t, run, i)
    {
      assert front[..i] == run[..i];
    }
    assert Skips(t, run, |run| - 1) <==> Phase(t, front) + run[|run| - 1] >= 2 * t.divider;
  }

  /** With a divider of 16, 64 or 256 no instruction of up to 6 cycles skips a tick. */
  lemma TicksClosedForm(t: Timer, run: seq<nat>)
    requires WellFormed(t) && t.enabled && t.counter < t.divider && t.divider != 4
    requires forall c | c in run :: 1 <= c <= 6
    ensures Ticks(t, run) == Periods(t.counter + Sum(run), t.divider)
  {
    forall i | 0 <= i < |run|
      ensures !Skips(t, run, i)
    {
      assert run[i] in run;
    }
    TicksExact(t, run);
  }

  lemma {:induction false} FromFirst(t: Timer, run: seq<nat>)
    requires WellFormed(t) && t.enabled && run != []
    ensures var u := Tick(t, run[0]);
            && WellFormed(u) && Run(t, run) == Run(u, run[1..])
            && Ticks(t, run) == (if t.counter + run[0] >= t.divider then 1 else 0) + Ticks(u, run[1..])
    decreases |run|
  {
    var front := run[..|run| - 1];
    if front != [] {
      FromFirst(t, front);
      assert front[1..] == run[1..][..|run| - 2];
    }
  }

  lemma FirstPhase(t: Timer, c: nat)
    requires WellFormed(t) && t.enabled
    ensures var u := Tick(t, c);
            && WellFormed(u) && u.enabled && u.divider == t.divider
            && u.counter == Rest(t.counter + c, t.divider) < t.divider
  {
  }

  /** From every state of the prescaler: one tick at most for the first instruction, then the closed form. */
  lemma TicksFromAnyPhase(t: Timer, run: seq<nat>)
    requires WellFormed(t) && t.enabled && t.divider != 4 && run != []
    requires forall c | c in run :: 1 <= c <= 6
    ensures Ticks(t, run) == (if t.counter + run[0] >= t.divider then 1 else 0)
                             + Periods(Rest(t.counter + run[0], t.divider) + Sum(run[1..]), t.divider)
  {
    hide Periods, Rest, Tick, Ticks;
    FromFirst(t, run);
    var u := Tick(t, run[0]);
    FirstPhase(t, run[0]);
    forall c | c in run[1..]
      ensures 1 <= c <= 6
    {
      assert c in run;
    }
    TicksClosedForm(u, run[1..]);
  }

  /** With a divider of 4 the closed form fails: one instruction of 5 cycles from prescaler 3 loses a tick. */
  lemma FastDividerLosesTicks(t: Timer)
    requires WellFormed(t) && t.enabled && t.divider == 4 && t.counter == 3
    ensures Ticks(t, [5]) == 1 && Periods(t.counter + Sum([5]), t.divider) == 2
  {
    assert [5][..0] == [];
  }

  /** A write to TAC that makes the divider smaller loses ticks once, with any divider. */
  lemma SmallerDividerLosesTicks(t: Timer)
    requires WellFormed(t) && t.counter == 200
    ensures var u := WriteTac(t, 6);
            && WellFormed(u) && u.enabled && u.divider == 16
            && Ticks(u, [1]) == 1 && Periods(u.counter + Sum([1]), u.divider) == 12
  {
    assert [1][..0] == [];
  }

  /** Both states that lose ticks, with their prescalers of 3 and 200, are reached from power-on. */
  lemma LossesReached()
    ensures var t := After([Tac(5), Cycles(3)]); t.enabled && t.divider == 4 && t.counter == 3
    ensures After([Tac(4), Cycles(200)]).counter == 200
  {
    AfterTacCycles(5, 3);
    AfterTacCycles(4, 200);
  }

  lemma AfterTacCycles(v: byte, n: nat)
    ensures After([Tac(v), Cycles(n)]) == Tick(WriteTac(Initial(), v), n)
  {
    var events := [Tac(v), Cycles(n)];
    assert events[..1] == [Tac(v)] && events[..1][..0] == [];
    assert After([Tac(v)]) == Apply(Initial(), Tac(v));
  }

  /** Interrupts and value of TIMA after so many ticks, with reload from TMA. */
  function RequestsAfter(tima: byte, tma: byte, ticks: nat): nat {
    if ticks < 0x100 - tima then 0 else 1 + (ticks - (0x100 - tima)) / (0x100 - tma)
  }

  function TimaAfter(tima: byte, tma: byte, ticks: nat): nat {
    if ticks < 0x100 - tima then tima + ticks else tma + (ticks - (0x100 - tima)) % (0x100 - tma)
  }

  lemma OneMore(n: nat, p: nat)
    requires p > 0
    ensures if n % p == p - 1 then (n + 1) % p == 0 && (n + 1) / p == n / p + 1
            else (n + 1) % p == n % p + 1 && (n + 1) / p == n / p
  {
    var q, r := n / p, n % p;
    assert n + 1 == p * q + (r + 1);
    if r == p - 1 {
      assert n + 1 == p * (q + 1);
      DivUnique(n + 1, p, q + 1, 0);
    } else {
      DivUnique(n + 1, p, q, r + 1);
    }
  }

  lemma DivUnique(n: nat, p: nat, q: nat, r: nat)
    requires 0 <= r < p && n == p * q + r
    ensures n / p == q && n % p == r
  {
    var q', r' := n / p, n % p;
    assert n == p * q' + r';
    if q' < q {
      Scaled(p, q' + 1, q);
    } else if q' > q {
      Scaled(p, q + 1, q');
    }
  }

  lemma Scaled(p: nat, a: nat, b: nat)
    requires a <= b
    ensures p * a <= p * b
  {
    assert p * b == p * a + p * (b - a);
  }

  lemma OneTick(tima: byte, tma: byte, n: nat)
    ensures TimaAfter(tima, tma, n) <= 0xff
    ensures if TimaAfter(tima, tma, n) == 0xff
            then TimaAfter(tima, tma, n + 1) == tma
                 && RequestsAfter(tima, tma, n + 1) == RequestsAfter(tima, tma, n) + 1
            else TimaAfter(tima, tma, n + 1) == TimaAfter(tima, tma, n) + 1
                 && RequestsAfter(tima, tma, n + 1) == RequestsAfter(tima, tma, n)
  {
    if n >= 0x100 - tima {
      OneMore(n - (0x100 - tima), 0x100 - tma);
    } else {
      DivUnique(0, 0x100 - tma, 0, 0);
    }
  }

  /** Interrupt requests and TIMA in closed form, for runs of any length. */
  lemma {:induction false} RequestsClosedForm(t: Timer, run: seq<nat>)
    requires WellFormed(t) && t.enabled
    ensures Run(t, run).requests == t.requests + RequestsAfter(t.tima, t.tma, Ticks(t, run))
    ensures Run(t, run).tima == TimaAfter(t.tima, t.tma, Ticks(t, run))
  {
    if run != [] {
      RequestsClosedForm(t, run[..|run| - 1]);
      OneTick(t.tima, t.tma, Ticks(t, run[..|run| - 1]));
    }
  }

  /** The timers after a run in closed form, with a divider of 16, 64 or 256. */
  lemma RunClosedForm(t: Timer, run: seq<nat>)
    requires WellFormed(t) && t.enabled && t.counter < t.divider && t.divider != 4
    requires forall c | c in run :: 1 <= c <= 6
    ensures var u, ticks := Run(t, run), Periods(t.counter + Sum(run), t.divider);
            && u.requests == t.requests + RequestsAfter(t.tima, t.tma, ticks)
            && u.tima == TimaAfter(t.tima, t.tma, ticks)
  {
    hide Run, Ticks, Sum, Periods, RequestsAfter, TimaAfter;
    TicksClosedForm(t, run);
    RequestsClosedForm(t, run);
  }

  // ---------- TAC ----------

  function Power4(n: nat): (p: nat)
    ensures p >= 1
  {
    if n == 0 then 1 else 4 * Power4(n - 1)
  }

  /** The cycles of a period: 4 to the power of the two clock bits of TAC, or to the fourth when they are 0. */
  function Period(tac: byte): (d: nat)
    ensures d > 0
  {
    Power4(if tac % 4 == 0 then 4 else tac % 4)
  }

  lemma PeriodOfSelect(tac: byte)
    ensures WriteTac(Initial(), tac).divider == Period(tac)
    ensures WriteTac(Initial(), tac).enabled <==> tac / 4 % 2 == 1
  {
    assert Power4(1) == 4 * Power4(0);
    assert Power4(2) == 4 * Power4(1);
    assert Power4(3) == 4 * Power4(2);
    assert Power4(4) == 4 * Power4(3);
  }

  /** The period depends on the clock bits alone, which TAC gives back. */
  lemma PeriodOfBits(tac: byte)
    ensures Period(tac % 8) == Period(tac)
  {
  }

  lemma {:induction false} StoppedTimer(t: Timer, run: seq<nat>)
    requires WellFormed(t) && !t.enabled
    ensures Run(t, run).tima == t.tima && Run(t, run).requests == t.requests && Run(t, run).counter == t.counter
  {
    if run != [] {
      StoppedTimer(t, run[..|run| - 1]);
    }
  }

  /**
   Any run after any write to TAC: with bit 2 clear TIMA stands still; with it set, TIMA counts the
   periods the clock bits name, unless an instruction completes two of them at once. That only
   happens with the shortest period or when the write leaves the prescaler above the new one.
   */
  lemma TacThenRun(t: Timer, tac: byte, run: seq<nat>)
    requires WellFormed(t) && forall c | c in run :: 1 <= c <= 6
    ensures var u, r := WriteTac(t, tac), Run(WriteTac(t, tac), run);
            && (tac / 4 % 2 == 0 ==> r.tima == t.tima && r.requests == t.requests)
            && (tac / 4 % 2 == 1 && t.counter < Period(tac) && (tac % 4 != 1 || NoSkips(u, run)) ==>
                  var ticks := Periods(t.counter + Sum(run), Period(tac));
                  && r.tima == TimaAfter(t.tima, t.tma, ticks)
                  && r.requests == t.requests + RequestsAfter(t.tima, t.tma, ticks))
  {
    hide Run, Sum, Ticks, Periods, RequestsAfter, TimaAfter, NoSkips, Power4;
    var u := WriteTac(t, tac);
    TacSelects(t, tac);
    if !u.enabled {
      StoppedTimer(u, run);
    } else if t.counter < Period(tac) && (tac % 4 != 1 || NoSkips(u, run)) {
      if tac % 4 != 1 {
        TicksClosedForm(u, run);
      } else {
        TicksExact(u, run);
      }
      RequestsClosedForm(u, run);
    }
  }

  /**
   The same wherever the write leaves the prescaler, for the longer periods: at most one tick for
   the first instruction, then the periods from the phase it leaves.
   */
  lemma TacFromAnyPhase(t: Timer, tac: byte, run: seq<nat>)
    requires WellFormed(t) && run != [] && forall c | c in run :: 1 <= c <= 6
    requires tac / 4 % 2 == 1 && tac % 4 != 1
    ensures var r, d := Run(WriteTac(t, tac), run), Period(tac);
            var ticks := (if t.counter + run[0] >= d then 1 else 0)
                         + Periods(Rest(t.counter + run[0], d) + Sum(run[1..]), d);
            && r.tima == TimaAfter(t.tima, t.tma, ticks)
            && r.requests == t.requests + RequestsAfter(t.tima, t.tma, ticks)
  {
    hide Run, Sum, Ticks, Periods, Rest, RequestsAfter, TimaAfter, Power4;
    var u := WriteTac(t, tac);
    TacSelects(t, tac);
    TicksFromAnyPhase(u, run);
    RequestsClosedForm(u, run);
  }

  lemma TacSelects(t: Timer, tac: byte)
    requires WellFormed(t)
    ensures var u := WriteTac(t, tac);
            && WellFormed(u) && u == t.(enabled := u.enabled, divider := u.divider)
            && (u.enabled <==> tac / 4 % 2 == 1) && u.divider == Period(tac)
            && (u.divider == 4 <==> tac % 4 == 1)
  {
    PeriodOfSelect(tac);
  }
}
