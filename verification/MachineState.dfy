/**
 The whole machine on values: what the program and the display can tell of a state, what a write,
 a push, an interrupt and the end of a step do to it, and what that means for the stack, for
 HALT and for the frame schedule. The machine in place is proved against these functions.
 */
module MachineState {
  import opened Bytes
  import CpuCore
  import Halt
  import Interrupts
  import LcdTiming
  import MemoryMap
  import PixelPlane
  import PpuCore
  import SpriteIndex
  import StackDiscipline
  import Timers

  datatype Snapshot = Snapshot(
    control: CpuCore.Control, mem: seq<byte>, timer: Timers.Timer, lcd: LcdTiming.Lcd, table: SpriteIndex.Table
  )

  /** What does not change while the machine runs: the keys and the ROM file. */
  datatype Board = Board(keys: MemoryMap.Keys, file: seq<byte>)

  /** The board at power-on: no key is pressed. */
  function InitialBoard(file: seq<byte>): Board { Board(MemoryMap.Keys(15, 15), file) }

  predicate Fitting(b: Board) { b.keys.buttons < 16 && b.keys.pad < 16 }

  ghost predicate Whole(s: Snapshot) {
    |s.mem| == MemoryMap.SIZE && SpriteIndex.Consistent(s.table) && Timers.WellFormed(s.timer)
  }

  /** Power on: all memory zero, no key pressed, the LCD off. */
  ghost function Initial(): (s: Snapshot)
    ensures Whole(s)
  {
    var mem: seq<byte> := seq(MemoryMap.SIZE, i => 0);
    assert SpriteIndex.Consistent(SpriteIndex.Run([]));
    Snapshot(CpuCore.Reset(), mem[0xff00 := 15], Timers.Initial(), LcdTiming.Initial(0), SpriteIndex.Initial())
  }

  // ---------- writes ----------

  /** The sprite table after a run of stores to OAM from its start. */
  ghost function BlockStored(t: SpriteIndex.Table, bytes: seq<byte>): (u: SpriteIndex.Table)
    requires SpriteIndex.Consistent(t) && |bytes| <= SpriteIndex.OAM_END
    ensures SpriteIndex.Consistent(u)
  {
    if bytes == [] then t
    else
      var off, v := |bytes| - 1, bytes[|bytes| - 1];
      var u := BlockStored(t, bytes[..off]);
      SpriteIndex.WriteKeepsConsistent(u, off, v);
      SpriteIndex.WriteOam(u, off, v)
  }

  lemma BlockNext(t: SpriteIndex.Table, mem: seq<byte>, from: nat, n: nat)
    requires SpriteIndex.Consistent(t) && n < SpriteIndex.OAM_END && from + n < |mem|
    ensures BlockStored(t, mem[from..from + (n + 1)]) ==
            SpriteIndex.WriteOam(BlockStored(t, mem[from..from + n]), n, mem[from + n])
  {
    var longer := mem[from..from + (n + 1)];
    assert |longer| == n + 1 && longer[n] == mem[from + n];
    assert longer[..|longer| - 1] == mem[from..from + n];
  }

  /** The sprite table after a write to memory. */
  ghost function TableAfter(t: SpriteIndex.Table, mem: seq<byte>, addr: word, value: byte): (u: SpriteIndex.Table)
    requires SpriteIndex.Consistent(t) && |mem| == MemoryMap.SIZE
    ensures SpriteIndex.Consistent(u)
  {
    if addr == 0xff46 then BlockStored(t, mem[value * 0x100..value * 0x100 + 0xa0])
    else if 0xfe00 <= addr <= 0xfe9f then
      SpriteIndex.WriteKeepsConsistent(t, addr - 0xfe00, value);
      SpriteIndex.WriteOam(t, addr - 0xfe00, value)
    else t
  }

  lemma TimerKept(t: Timers.Timer, addr: word, value: byte)
    requires Timers.WellFormed(t)
    ensures Timers.WellFormed(CpuCore.TimerAfterWrite(t, addr, value))
  {
  }

  /** monitor_wr_mem. */
  ghost function Store(s: Snapshot, addr: word, value: byte, b: Board): (u: Snapshot)
    requires Whole(s) && Fitting(b)
    ensures Whole(u) && u.control == s.control
  {
    TimerKept(s.timer, addr, value);
    Snapshot(
      s.control, MemoryMap.Written(s.mem, addr, value, b.keys, b.file), CpuCore.TimerAfterWrite(s.timer, addr, value),
      PpuCore.LcdAfterWrite(s.lcd, addr, value), TableAfter(s.table, s.mem, addr, value))
  }

  lemma OamStore(s: Snapshot, off: nat, value: byte, b: Board)
    requires Whole(s) && Fitting(b) && off < SpriteIndex.OAM_END
    ensures var u := Store(s, 0xfe00 + off, value, b);
            && u.mem == s.mem[0xfe00 + off := value] && u.timer == s.timer && u.lcd == s.lcd
            && u.table == SpriteIndex.WriteOam(s.table, off, value)
  {
  }

  /** u is s with n bytes from `from` copied to OAM. */
  ghost predicate HasCopied(s: Snapshot, u: Snapshot, from: nat, n: nat)
    requires Whole(s) && n <= SpriteIndex.OAM_END && from + n <= MemoryMap.SIZE
  {
    && u.control == s.control && u.timer == s.timer && u.lcd == s.lcd
    && u.mem == MemoryMap.Copied(s.mem, from, n) && u.table == BlockStored(s.table, s.mem[from..from + n])
  }

  lemma CopiesNone(s: Snapshot, from: nat)
    requires Whole(s) && from < MemoryMap.SIZE
    ensures HasCopied(s, s, from, 0)
  {
    assert s.mem[from..from] == [];
    assert MemoryMap.Copied(s.mem, from, 0) == s.mem;
  }

  /** The next store of a transfer, from a page that may be OAM's own. */
  lemma CopiesNext(s: Snapshot, u: Snapshot, from: nat, n: nat, b: Board)
    requires Whole(s) && Whole(u) && Fitting(b) && n < SpriteIndex.OAM_END && from % 0x100 == 0 && from < MemoryMap.SIZE
    requires HasCopied(s, u, from, n)
    ensures u.mem[from + n] == s.mem[from + n]
    ensures HasCopied(s, Store(u, 0xfe00 + n, u.mem[from + n], b), from, n + 1)
  {
    MemoryMap.CopiedNext(s.mem, from, n);
    OamStore(u, n, s.mem[from + n], b);
    BlockNext(s.table, s.mem, from, n);
  }

  /** All of them together are the write of the DMA register. */
  lemma CopiesAll(s: Snapshot, u: Snapshot, page: byte, b: Board)
    requires Whole(s) && Fitting(b) && HasCopied(s, u, page * 0x100, SpriteIndex.OAM_END)
    ensures u == Store(s, 0xff46, page, b)
  {
  }

  ghost function StoreAll(s: Snapshot, stores: seq<StackDiscipline.Store>, b: Board): (u: Snapshot)
    requires Whole(s) && Fitting(b)
    ensures Whole(u) && u.control == s.control
  {
    if stores == [] then s
    else
      var last := stores[|stores| - 1];
      Store(StoreAll(s, stores[..|stores| - 1], b), last.addr, last.value, b)
  }

  /** What stores in turn do to memory is what the flat memory says. */
  lemma {:induction false} StoreAllWrites(s: Snapshot, stores: seq<StackDiscipline.Store>, b: Board)
    requires Whole(s) && Fitting(b)
    ensures StoreAll(s, stores, b).mem == MemoryMap.WrittenAll(s.mem, stores, b.keys, b.file)
  {
    if stores != [] {
      StoreAllWrites(s, stores[..|stores| - 1], b);
    }
  }

  // ---------- the stack ----------

  /** WR_WORD: the low byte first. */
  ghost function StoreWord(s: Snapshot, addr: word, w: word, b: Board): (u: Snapshot)
    requires Whole(s) && Fitting(b)
    ensures Whole(u) && u.control == s.control
  {
    Store(Store(s, addr, w % 0x100, b), Up(addr, 1), w / 0x100, b)
  }

  ghost function Push(s: Snapshot, w: word, b: Board): (u: Snapshot)
    requires Whole(s) && Fitting(b)
    ensures Whole(u) && u.control == s.control.(sp := Down(s.control.sp, 2))
  {
    var sp := Down(s.control.sp, 2);
    StoreWord(s.(control := s.control.(sp := sp)), sp, w, b)
  }

  /** A push of `w` and a jump. */
  ghost function Enter(s: Snapshot, w: word, target: word, b: Board): (u: Snapshot)
    requires Whole(s) && Fitting(b)
    ensures Whole(u) && u.control == s.control.(sp := Down(s.control.sp, 2), pc := target)
  {
    var u := Push(s, w, b);
    u.(control := u.control.(pc := target))
  }

  /** CALL of an address already read. */
  ghost function Called(s: Snapshot, target: word, b: Board): (u: Snapshot)
    requires Whole(s) && Fitting(b)
    ensures Whole(u)
  {
    Enter(s, Up(s.control.pc, 2), target, b)
  }

  function CoreOf(s: Snapshot): StackDiscipline.Core {
    StackDiscipline.Core(s.control.regs, s.control.sp, s.control.pc, s.mem)
  }

  /** A store into plain memory is the flat store, and tells neither the timers nor the PPU anything. */
  lemma PlainStore(s: Snapshot, addr: word, value: byte, b: Board)
    requires Whole(s) && Fitting(b) && MemoryMap.IsRam(addr)
    ensures var u := Store(s, addr, value, b);
            u.mem == s.mem[addr := value] && u.timer == s.timer && u.lcd == s.lcd
  {
  }

  lemma PlainStores(s: Snapshot, low: word, high: word, l: byte, h: byte, b: Board)
    requires Whole(s) && Fitting(b) && MemoryMap.IsRam(low) && MemoryMap.IsRam(high)
    ensures var u := Store(Store(s, low, l, b), high, h, b);
            u.mem == s.mem[low := l][high := h] && u.timer == s.timer && u.lcd == s.lcd
  {
    PlainStore(s, low, l, b);
    PlainStore(Store(s, low, l, b), high, h, b);
  }

  /** A push into plain memory is the push of the stack model. */
  lemma PlainPush(s: Snapshot, w: word, b: Board)
    requires Whole(s) && Fitting(b) && MemoryMap.PushesToRam(s.control.sp)
    ensures var u := Push(s, w, b);
            CoreOf(u) == StackDiscipline.PushWord(CoreOf(s), w) && u.timer == s.timer && u.lcd == s.lcd
  {
    var low := Down(s.control.sp, 2);
    PlainStores(s.(control := s.control.(sp := low)), low, Up(low, 1), w % 0x100, w / 0x100, b);
  }

  /** CALL and RST in plain memory are those of the stack model. */
  lemma PlainCall(s: Snapshot, target: word, b: Board)
    requires Whole(s) && Fitting(b)
    ensures MemoryMap.PushesToRam(s.control.sp) ==>
              CoreOf(Called(s, target, b)) == StackDiscipline.Exec(CoreOf(s), StackDiscipline.Call(target))
  {
    if MemoryMap.PushesToRam(s.control.sp) {
      PlainPush(s, Up(s.control.pc, 2), b);
    }
  }

  lemma PlainRestart(s: Snapshot, target: word, b: Board)
    requires Whole(s) && Fitting(b)
    ensures MemoryMap.PushesToRam(s.control.sp) ==>
              CoreOf(Enter(s, s.control.pc, target, b)) ==
              StackDiscipline.Exec(CoreOf(s), StackDiscipline.Restart(target))
  {
    if MemoryMap.PushesToRam(s.control.sp) {
      PlainPush(s, s.control.pc, b);
    }
  }

  // ---------- interrupts ----------

  ghost function IrqOf(s: Snapshot): Interrupts.Irq
    requires Whole(s)
  {
    Interrupts.Irq(s.lcd.ifReg, s.mem[0xffff], s.control.ime, s.control.halted)
  }

  /** Taking request n: no further interrupts, the CPU awake, the request cleared. */
  ghost function Acknowledge(s: Snapshot, n: nat): (u: Snapshot)
    requires Whole(s) && n < 8
    ensures Whole(u)
  {
    var ifReg := Clear(s.lcd.ifReg, Power2(n));
    s.(control := s.control.(ime := false, halted := false), mem := s.mem[0xff0f := ifReg],
       lcd := s.lcd.(ifReg := ifReg))
  }

  /** The entry to interrupt n. */
  ghost function Interrupt(s: Snapshot, n: nat, b: Board): (u: Snapshot)
    requires Whole(s) && Fitting(b) && n < 8
    ensures Whole(u)
    ensures u.control ==
            s.control.(ime := false, halted := false, sp := Down(s.control.sp, 2), pc := Interrupts.Vector(n))
  {
    Enter(Acknowledge(s, n), s.control.pc, Interrupts.Vector(n), b)
  }

  /** What handle_intrs does about request n when that is the lowest one pending. */
  ghost function Serve(s: Snapshot, n: nat, b: Board): (u: Snapshot)
    requires Whole(s) && Fitting(b) && n < 8
    ensures Whole(u) && !u.control.ime && !u.control.halted
  {
    if s.control.ime then Interrupt(s, n, b) else s.(control := s.control.(halted := false))
  }

  /** handle_intrs. */
  ghost function HandleIntrs(s: Snapshot, b: Board): (u: Snapshot)
    requires Whole(s) && Fitting(b)
    ensures Whole(u)
  {
    var low := Interrupts.Lowest(IrqOf(s));
    if (s.control.ime || s.control.halted) && low < Interrupts.NONE then Serve(s, low, b) else s
  }

  /** The state when the loop of handle_intrs has looked at the n lowest requests. */
  ghost function Scanned(s: Snapshot, n: nat, b: Board): (u: Snapshot)
    requires Whole(s) && Fitting(b) && n <= 8
    ensures Whole(u)
  {
    var low := Interrupts.Lowest(IrqOf(s));
    if low < n then Serve(s, low, b) else s
  }

  /**
   At most one interrupt is entered, the one arbitration names, wherever the stack lies; and
   nothing else happens to a machine that enters none, but that it may wake.
   */
  lemma HandlingMeaning(s: Snapshot, b: Board)
    requires Whole(s) && Fitting(b)
    ensures var u, o := HandleIntrs(s, b), Interrupts.Arbitrate(IrqOf(s));
            if o.served < Interrupts.NONE then s.control.ime && u == Interrupt(s, o.served, b)
            else u == s.(control := s.control.(halted := o.irq.halted))
  {
    assert s.control.(halted := s.control.halted) == s.control;
  }

  /** With the stack in plain memory the entry to an interrupt is that of the stack model. */
  lemma PlainInterrupt(s: Snapshot, n: nat, b: Board)
    requires Whole(s) && Fitting(b) && n < 8 && MemoryMap.PushesToRam(s.control.sp)
    ensures var u, a := Interrupt(s, n, b), Acknowledge(s, n);
            && CoreOf(u) == StackDiscipline.Exec(CoreOf(a), StackDiscipline.Interrupt(Interrupts.Vector(n)))
            && u.timer == s.timer && u.lcd == a.lcd && u.mem[0xffff] == s.mem[0xffff]
    ensures var f := Interrupt(s, n, b).mem[0xff0f];
            forall k | 0 <= k < 8 :: Has(f, Power2(k)) <==> Has(s.lcd.ifReg, Power2(k)) && k != n
  {
    hide Clear, Has;
    PlainPush(Acknowledge(s, n), s.control.pc, b);
    ServedLeaves(s, n, b);
    forall k | 0 <= k < 8
      ensures Has(Clear(s.lcd.ifReg, Power2(n)), Power2(k)) <==> Has(s.lcd.ifReg, Power2(k)) && k != n
    {
      Interrupts.ClearedBit(s.lcd.ifReg, n, k);
    }
  }

  // ---------- the step ----------

  function TimersWritten(mem: seq<byte>, div: byte, tima: byte, ifReg: byte): (m: seq<byte>)
    requires |mem| == MemoryMap.SIZE
    ensures |m| == MemoryMap.SIZE
  {
    mem[0xff04 := div][0xff05 := tima][0xff0f := ifReg]
  }

  function DisplayWritten(mem: seq<byte>, lcd: LcdTiming.Lcd): (m: seq<byte>)
    requires |mem| == MemoryMap.SIZE
    ensures |m| == MemoryMap.SIZE
  {
    mem[0xff41 := lcd.stat][0xff44 := lcd.ly][0xff0f := lcd.ifReg]
  }

  /** The timers of cpu_exec_next: DIV, TIMA and IF are cells of memory too. */
  ghost function Tick(s: Snapshot, cycles: byte): (u: Snapshot)
    requires Whole(s)
    ensures Whole(u) && u.control == s.control
    ensures forall q: word | MemoryMap.IsSteady(q) :: u.mem[q] == s.mem[q]
  {
    var timer := Timers.Tick(s.timer, cycles);
    var ifReg := if timer.requests > s.timer.requests then Byte(With(s.lcd.ifReg, 4)) else s.lcd.ifReg;
    s.(timer := timer, lcd := s.lcd.(ifReg := ifReg),
       mem := TimersWritten(s.mem, timer.div, timer.tima, ifReg))
  }

  /** ppu_refresh: STAT, LY and IF are cells of memory too. */
  ghost function Refresh(s: Snapshot, cycles: byte): (u: Snapshot)
    requires Whole(s)
    ensures Whole(u) && u.control == s.control && u.lcd == LcdTiming.Refresh(s.lcd, cycles)
    ensures forall q: word | MemoryMap.IsSteady(q) :: u.mem[q] == s.mem[q]
  {
    var lcd := LcdTiming.Refresh(s.lcd, cycles);
    s.(lcd := lcd, mem := DisplayWritten(s.mem, lcd))
  }

  /** cpu_exec_next after the instruction. */
  ghost function FinishExec(s: Snapshot, cycles: byte, b: Board): (u: Snapshot)
    requires Whole(s) && Fitting(b)
    ensures Whole(u)
  {
    HandleIntrs(Tick(s, cycles), b)
  }

  /** exec_next after the instruction. */
  ghost function FinishStep(s: Snapshot, cycles: byte, b: Board): (u: Snapshot)
    requires Whole(s) && Fitting(b)
    ensures Whole(u)
  {
    Refresh(FinishExec(s, cycles, b), cycles)
  }

  /** A line is drawn only where the renderer's assertion lets it. */
  predicate LineFits(lcd: LcdTiming.Lcd) { lcd.mode == LcdTiming.Draw ==> lcd.ly <= 144 }

  /** What the renderer reads. */
  function VideoOf(mem: seq<byte>, ly: byte): (v: PixelPlane.Video)
    requires |mem| == MemoryMap.SIZE
    ensures PixelPlane.WellFormed(v)
  {
    PixelPlane.Video(mem[0xff40], ly, mem[0xff43], mem[0xff42], mem[0xff4b], mem[0xff4a], mem[0xff47],
                     mem[0xff48], mem[0xff49], mem[0x8000..0x9800], mem[0x9800..0x9c00], mem[0x9c00..0xa000])
  }

  /**
   The frame after a refresh: the line LY names is drawn when the drawing phase ends. Where the
   renderer's assertion fails nothing is drawn.
   */
  ghost function Drawn(screen: seq<PixelPlane.Pixel>, s: Snapshot, cycles: byte): (t: seq<PixelPlane.Pixel>)
    requires Whole(s) && |screen| == PpuCore.STORED_LINES * PpuCore.LINE
    ensures |t| == |screen|
  {
    if s.lcd.mode == LcdTiming.Draw && s.lcd.ly <= 144 && LcdTiming.Refresh(s.lcd, cycles).mode == LcdTiming.HBlank then
      PpuCore.WithLine(screen, VideoOf(s.mem, s.lcd.ly), s.table)
    else screen
  }

  // ---------- HALT ----------

  /** What waking from HALT depends on. */
  ghost function ClockOf(s: Snapshot): (h: Halt.State)
    requires Whole(s)
    ensures Halt.WellFormed(h)
  {
    Halt.State(s.timer, s.lcd, s.mem[0xffff], s.control.ime, s.control.halted)
  }

  /**
   One call for a halted CPU, wherever its stack lies: it wakes exactly when the clock does, and
   until then only the clock goes on.
   */
  lemma HaltedCall(s: Snapshot, cycles: byte, b: Board)
    requires Whole(s) && Fitting(b) && s.control.halted
    ensures var u, h := FinishExec(s, cycles, b), ClockOf(s);
            && (u.control.halted <==> Halt.Tail(h, cycles).halted)
            && (u.control.halted ==> u == Tick(s, cycles) && ClockOf(Refresh(u, cycles)) == Halt.Tail(h, cycles))
  {
    var t := Tick(s, cycles);
    assert ClockOf(t) == Halt.Ticked(ClockOf(s), cycles);
    assert IrqOf(t) == Halt.Irq(ClockOf(t));
    HandlingMeaning(t, b);
  }

  /** u is s after n calls of a CPU that has stayed halted: only the clock and its cells have gone on. */
  ghost predicate HaltedFor(s: Snapshot, u: Snapshot, n: nat): (b: bool)
    requires Whole(s)
    ensures b ==> Whole(u)
    ensures u == s && n == 0 ==> b
  {
    && Whole(u) && u.control == s.control && ClockOf(u) == Halt.Steps(ClockOf(s), n)
    && forall q: word | MemoryMap.IsSteady(q) :: u.mem[q] == s.mem[q]
  }

  lemma HaltGoesOn(s: Snapshot, u: Snapshot, n: nat, b: Board)
    requires Whole(s) && Fitting(b) && Halt.Waiting(ClockOf(s)) && HaltedFor(s, u, n)
    ensures n < Halt.CallsLeft(ClockOf(s)) <= 5841
    ensures var v := FinishExec(u, Halt.HALT_CYCLES, b);
            v.control.halted ==> LineFits(v.lcd) && HaltedFor(s, Refresh(v, Halt.HALT_CYCLES), n + 1)
  {
    Halt.HaltedSoFar(ClockOf(s), n);
    HaltedCall(u, Halt.HALT_CYCLES, b);
    Halt.StepsSnoc(ClockOf(s), n);
  }

  // ---------- whole runs ----------

  /** What an instruction does: any stores in turn, any new registers, so many cycles. */
  datatype Instruction = Instruction(control: CpuCore.Control, stores: seq<StackDiscipline.Store>, cycles: byte)

  /** The push of an interrupt with this SP stays off LCDC and LY. */
  predicate SparesDisplay(sp: word) {
    var low := Down(sp, 2);
    low != 0xff40 && low != 0xff44 && Up(low, 1) != 0xff40 && Up(low, 1) != 0xff44
  }

  predicate StackSafe(k: CpuCore.Control) { k.ime ==> SparesDisplay(k.sp) }

  /** The store leaves the LCD on and LY alone. */
  predicate KeepsDisplay(st: StackDiscipline.Store) {
    st.addr != 0xff44 && (st.addr == 0xff40 ==> Has(st.value, 0x80))
  }

  /** No instruction takes more than 6 cycles, and the low nibble of F is always clear. */
  predicate Legal(i: Instruction) { i.cycles <= 6 && i.control.regs.af % 16 == 0 }

  /** An instruction of a program that leaves the LCD on and does not write LY. */
  predicate Ordinary(i: Instruction) {
    && Legal(i) && i.cycles >= 1 && StackSafe(i.control)
    && forall n | 0 <= n < |i.stores| :: KeepsDisplay(i.stores[n])
  }

  function CyclesOf(s: Snapshot, i: Instruction): byte {
    if s.control.halted then Halt.HALT_CYCLES else i.cycles
  }

  /** The instruction itself, which a halted CPU does not execute. */
  ghost function Execute(s: Snapshot, i: Instruction, b: Board): (u: Snapshot)
    requires Whole(s) && Fitting(b)
    ensures Whole(u)
  {
    if s.control.halted then s else StoreAll(s, i.stores, b).(control := i.control)
  }

  /** The CPU's part of the turn. */
  ghost function Executed(s: Snapshot, i: Instruction, b: Board): (u: Snapshot)
    requires Whole(s) && Fitting(b)
    ensures Whole(u)
  {
    FinishExec(Execute(s, i, b), CyclesOf(s, i), b)
  }

  /** One turn of the emulation loop. */
  ghost function Step(s: Snapshot, i: Instruction, b: Board): (u: Snapshot)
    requires Whole(s) && Fitting(b)
    ensures Whole(u)
  {
    Refresh(Executed(s, i, b), CyclesOf(s, i))
  }

  ghost function Steps(s: Snapshot, program: seq<Instruction>, b: Board): (u: Snapshot)
    requires Whole(s) && Fitting(b)
    ensures Whole(u)
  {
    if program == [] then s else Step(Steps(s, program[..|program| - 1], b), program[|program| - 1], b)
  }

  ghost function Cycles(s: Snapshot, program: seq<Instruction>, b: Board): nat
    requires Whole(s) && Fitting(b)
  {
    if program == [] then 0
    else
      var front := program[..|program| - 1];
      Cycles(s, front, b) + CyclesOf(Steps(s, front, b), program[|program| - 1])
  }

  /** The frame after the program: the lines drawn at the end of each turn, over those drawn before. */
  ghost function FrameAfter(screen: seq<PixelPlane.Pixel>, s: Snapshot, program: seq<Instruction>, b: Board):
    (t: seq<PixelPlane.Pixel>)
    requires Whole(s) && Fitting(b) && |screen| == PpuCore.STORED_LINES * PpuCore.LINE
    ensures |t| == |screen|
  {
    if program == [] then screen
    else
      var front, i := program[..|program| - 1], program[|program| - 1];
      var u := Steps(s, front, b);
      Drawn(FrameAfter(screen, s, front, b), Executed(u, i, b), CyclesOf(u, i))
  }

  /** A turn of a halted CPU takes three cycles and executes nothing; the clock goes on by one call. */
  lemma HaltedTurn(s: Snapshot, i: Instruction, b: Board)
    requires Whole(s) && Fitting(b) && s.control.halted
    ensures CyclesOf(s, i) == 3
    ensures var u := Step(s, i, b);
            && (u.control.halted <==> Halt.Tail(ClockOf(s), 3).halted)
            && (u.control.halted ==> u.control == s.control && ClockOf(u) == Halt.Tail(ClockOf(s), 3))
  {
    HaltedCall(s, 3, b);
  }

  lemma StoreRun(s: Snapshot, st: StackDiscipline.Store, b: Board) returns (inputs: seq<LcdTiming.Input>)
    requires Whole(s) && Fitting(b) && LcdTiming.Timed(s.lcd) && KeepsDisplay(st)
    ensures LcdTiming.AllAllowed(inputs) && LcdTiming.Dots(inputs) == 0
    ensures LcdTiming.Run(s.lcd, inputs) == Store(s, st.addr, st.value, b).lcd
    ensures LcdTiming.Timed(Store(s, st.addr, st.value, b).lcd)
  {
    inputs := PpuCore.InputOf(st.addr, st.value);
    PpuCore.StoreIsInput(s.lcd, st.addr, st.value);
    LcdTiming.RunConserves(s.lcd, inputs);
    assert inputs == [] || inputs[..0] == [];
  }

  lemma {:induction false} StoresRun(s: Snapshot, stores: seq<StackDiscipline.Store>, b: Board)
    returns (inputs: seq<LcdTiming.Input>)
    requires Whole(s) && Fitting(b) && LcdTiming.Timed(s.lcd)
    requires forall n | 0 <= n < |stores| :: KeepsDisplay(stores[n])
    ensures LcdTiming.AllAllowed(inputs) && LcdTiming.Dots(inputs) == 0
    ensures LcdTiming.Run(s.lcd, inputs) == StoreAll(s, stores, b).lcd
    ensures LcdTiming.Timed(StoreAll(s, stores, b).lcd)
  {
    if stores == [] {
      inputs := [];
    } else {
      var front, last := stores[..|stores| - 1], stores[|stores| - 1];
      var before := StoresRun(s, front, b);
      var now := StoreRun(StoreAll(s, front, b), last, b);
      LcdTiming.RunConcat(s.lcd, before, now);
      inputs := before + now;
    }
  }

  lemma PushRun(s: Snapshot, w: word, b: Board) returns (inputs: seq<LcdTiming.Input>)
    requires Whole(s) && Fitting(b) && LcdTiming.Timed(s.lcd) && SparesDisplay(s.control.sp)
    ensures LcdTiming.AllAllowed(inputs) && LcdTiming.Dots(inputs) == 0
    ensures LcdTiming.Run(s.lcd, inputs) == Push(s, w, b).lcd
    ensures LcdTiming.Timed(Push(s, w, b).lcd)
  {
    var low := Down(s.control.sp, 2);
    var s0 := s.(control := s.control.(sp := low));
    inputs := StoreWordRun(s0, low, w, b);
  }

  lemma StoreWordRun(s: Snapshot, addr: word, w: word, b: Board) returns (inputs: seq<LcdTiming.Input>)
    requires Whole(s) && Fitting(b) && LcdTiming.Timed(s.lcd) && addr != 0xff40 && addr != 0xff44
    requires Up(addr, 1) != 0xff40 && Up(addr, 1) != 0xff44
    ensures LcdTiming.AllAllowed(inputs) && LcdTiming.Dots(inputs) == 0
    ensures LcdTiming.Run(s.lcd, inputs) == StoreWord(s, addr, w, b).lcd
    ensures LcdTiming.Timed(StoreWord(s, addr, w, b).lcd)
  {
    inputs := TwoStoresRun(s, addr, Up(addr, 1), w % 0x100, w / 0x100, b);
  }

  lemma TwoStoresRun(s: Snapshot, low: word, high: word, l: byte, h: byte, b: Board)
    returns (inputs: seq<LcdTiming.Input>)
    requires Whole(s) && Fitting(b) && LcdTiming.Timed(s.lcd)
    requires low != 0xff40 && low != 0xff44 && high != 0xff40 && high != 0xff44
    ensures LcdTiming.AllAllowed(inputs) && LcdTiming.Dots(inputs) == 0
    ensures LcdTiming.Run(s.lcd, inputs) == Store(Store(s, low, l, b), high, h, b).lcd
    ensures LcdTiming.Timed(Store(Store(s, low, l, b), high, h, b).lcd)
  {
    var first := StoreRun(s, StackDiscipline.Store(low, l), b);
    var second := StoreRun(Store(s, low, l, b), StackDiscipline.Store(high, h), b);
    LcdTiming.RunConcat(s.lcd, first, second);
    inputs := first + second;
  }

  /** An interrupt is a clearing of IF and the two stores of its push. */
  lemma InterruptRun(s: Snapshot, n: nat, b: Board) returns (inputs: seq<LcdTiming.Input>)
    requires Whole(s) && Fitting(b) && n < 8 && LcdTiming.Timed(s.lcd) && SparesDisplay(s.control.sp)
    ensures LcdTiming.AllAllowed(inputs) && LcdTiming.Dots(inputs) == 0
    ensures LcdTiming.Run(s.lcd, inputs) == Interrupt(s, n, b).lcd
    ensures LcdTiming.Timed(Interrupt(s, n, b).lcd)
  {
    var a := Acknowledge(s, n);
    var cleared := IfRun(s.lcd, a.lcd.ifReg);
    var pushed := PushRun(a, s.control.pc, b);
    LcdTiming.RunConcat(s.lcd, cleared, pushed);
    inputs := cleared + pushed;
  }

  lemma IfRun(t: LcdTiming.Lcd, v: byte) returns (inputs: seq<LcdTiming.Input>)
    ensures LcdTiming.AllAllowed(inputs) && LcdTiming.Dots(inputs) == 0
    ensures LcdTiming.Run(t, inputs) == t.(ifReg := v)
  {
    inputs := [LcdTiming.WriteIf(v)];
    assert inputs[..0] == [];
  }

  lemma FinishExecRun(s: Snapshot, cycles: byte, b: Board) returns (inputs: seq<LcdTiming.Input>)
    requires Whole(s) && Fitting(b) && LcdTiming.Timed(s.lcd) && StackSafe(s.control)
    ensures LcdTiming.AllAllowed(inputs) && LcdTiming.Dots(inputs) == 0
    ensures LcdTiming.Run(s.lcd, inputs) == FinishExec(s, cycles, b).lcd
    ensures LcdTiming.Timed(FinishExec(s, cycles, b).lcd) && StackSafe(FinishExec(s, cycles, b).control)
  {
    var t := Tick(s, cycles);
    var ticked := IfRun(s.lcd, t.lcd.ifReg);
    var o := Interrupts.Arbitrate(IrqOf(t));
    HandlingMeaning(t, b);
    if o.served < Interrupts.NONE {
      var served := InterruptRun(t, o.served, b);
      LcdTiming.RunConcat(s.lcd, ticked, served);
      inputs := ticked + served;
    } else {
      inputs := ticked;
    }
  }

  /** A turn of the emulation loop is a run of the timing machine over its cycles, and draws inside the frame. */
  lemma StepRun(s: Snapshot, i: Instruction, b: Board) returns (inputs: seq<LcdTiming.Input>)
    requires Whole(s) && Fitting(b) && LcdTiming.Timed(s.lcd) && StackSafe(s.control) && Ordinary(i)
    ensures LcdTiming.AllAllowed(inputs) && LcdTiming.Dots(inputs) == 4 * CyclesOf(s, i)
    ensures LcdTiming.Run(s.lcd, inputs) == Step(s, i, b).lcd
    ensures LcdTiming.Timed(Step(s, i, b).lcd) && StackSafe(Step(s, i, b).control)
    ensures LineFits(Executed(s, i, b).lcd)
  {
    var c := CyclesOf(s, i);
    var stored: seq<LcdTiming.Input> := [];
    if !s.control.halted {
      stored := StoresRun(s, i.stores, b);
    }
    var e := Execute(s, i, b);
    var executed := FinishExecRun(e, c, b);
    var u := FinishExec(e, c, b);
    var refreshed := [LcdTiming.Ticks(c)];
    assert refreshed[..0] == [];
    LcdTiming.RefreshTimed(u.lcd, c);
    LcdTiming.RunConcat(s.lcd, stored, executed);
    LcdTiming.RunConcat(s.lcd, stored + executed, refreshed);
    inputs := stored + executed + refreshed;
  }

  /**
   Whatever program runs, as long as it leaves the LCD on and LY alone, the machine's display is a
   run of the timing machine over the cycles the program takes.
   */
  lemma {:induction false} ProgramRun(s: Snapshot, program: seq<Instruction>, b: Board)
    returns (inputs: seq<LcdTiming.Input>)
    requires Whole(s) && Fitting(b) && LcdTiming.Timed(s.lcd) && StackSafe(s.control)
    requires forall n | 0 <= n < |program| :: Ordinary(program[n])
    ensures LcdTiming.AllAllowed(inputs) && LcdTiming.Dots(inputs) == 4 * Cycles(s, program, b)
    ensures LcdTiming.Run(s.lcd, inputs) == Steps(s, program, b).lcd
    ensures LcdTiming.Timed(Steps(s, program, b).lcd) && StackSafe(Steps(s, program, b).control)
  {
    if program == [] {
      inputs := [];
    } else {
      var front, i := program[..|program| - 1], program[|program| - 1];
      var before := ProgramRun(s, front, b);
      var now := StepRun(Steps(s, front, b), i, b);
      LcdTiming.RunConcat(s.lcd, before, now);
      inputs := before + now;
    }
  }

  lemma OrdinaryDrawsInside(s: Snapshot, program: seq<Instruction>, b: Board)
    requires Whole(s) && Fitting(b) && LcdTiming.Timed(s.lcd) && StackSafe(s.control)
    requires forall n | 0 <= n < |program| :: Ordinary(program[n])
    ensures DrawsInside(s, program, b)
  {
    forall n | 0 <= n < |program|
      ensures DrawsAt(s, program, n, b)
    {
      var before := ProgramRun(s, program[..n], b);
      var now := StepRun(Steps(s, program[..n], b), program[n], b);
    }
  }

  /**
   The frame schedule of the whole machine: from any state on the schedule, under any program that
   leaves the LCD on and LY alone, with whatever interrupts and halts, everything the display does
   is the schedule in its order, frame_count counts its whole frames, and the dots to the next
   VBLANK have fallen by four for each cycle and risen by 70080 for each VBLANK requested.
   */
  lemma ProgramFollowsSchedule(s: Snapshot, from: nat, program: seq<Instruction>, b: Board)
    requires Whole(s) && Fitting(b) && LcdTiming.Timed(s.lcd) && StackSafe(s.control)
    requires forall n | 0 <= n < |program| :: Ordinary(program[n])
    requires LcdTiming.OnSchedule(s.lcd, from)
    ensures var t, u := s.lcd, Steps(s, program, b).lcd;
            && LcdTiming.Timed(u) && LcdTiming.OnSchedule(u, from) && t.log <= u.log
            && u.frames - LcdTiming.FramesSince(u, from) == t.frames - LcdTiming.FramesSince(t, from)
            && LcdTiming.Measure(u) == LcdTiming.Measure(t) - 4 * Cycles(s, program, b)
                 + LcdTiming.FRAME_DOTS * (LcdTiming.Vblanks(u.log) - LcdTiming.Vblanks(t.log))
  {
    var inputs := ProgramRun(s, program, b);
    LcdTiming.RunConserves(s.lcd, inputs);
    LcdTiming.RunOnSchedule(s.lcd, from, inputs);
    LcdTiming.RunLogs(s.lcd, inputs);
  }

  /** Every write of LCDC that turns the LCD on starts the schedule anew. */
  lemma SwitchedOn(s: Snapshot, value: byte, b: Board)
    requires Whole(s) && Fitting(b) && !LcdTiming.IsOn(s.lcd) && Has(value, 0x80)
    ensures var t := Store(s, 0xff40, value, b).lcd;
            LcdTiming.Timed(t) && t.log == s.lcd.log && LcdTiming.OnSchedule(t, |t.log|)
  {
  }

  /** From power-on the schedule begins with the log, and the first VBLANK is 144 lines away. */
  lemma PoweredOn(lcdc: byte, b: Board)
    requires Fitting(b) && Has(lcdc, 0x80)
    ensures var s := Store(Initial(), 0xff40, lcdc, b);
            && StackSafe(s.control) && LcdTiming.Timed(s.lcd) && LcdTiming.OnSchedule(s.lcd, 0)
            && s.lcd.frames == LcdTiming.FramesSince(s.lcd, 0) && LcdTiming.Vblanks(s.lcd.log) == 0
            && LcdTiming.Measure(s.lcd) == 65520
  {
    SwitchedOn(Initial(), lcdc, b);
  }

  // ---------- programs that turn the LCD on and off ----------

  /** An interrupt taken now would not push onto LY. */
  predicate LySafe(k: CpuCore.Control) {
    var low := Down(k.sp, 2);
    k.ime ==> low != 0xff44 && Up(low, 1) != 0xff44
  }

  /** An instruction of a program that does not write LY; it may turn the LCD on and off. */
  predicate LeavesLy(i: Instruction) {
    && Legal(i) && i.cycles >= 1 && LySafe(i.control)
    && forall n | 0 <= n < |i.stores| :: i.stores[n].addr != 0xff44
  }

  /** Every line the program draws passes the renderer's assertion. */
  ghost predicate DrawsInside(s: Snapshot, program: seq<Instruction>, b: Board)
    requires Whole(s) && Fitting(b)
  {
    forall n | 0 <= n < |program| :: DrawsAt(s, program, n, b)
  }

  ghost predicate DrawsAt(s: Snapshot, program: seq<Instruction>, n: nat, b: Board)
    requires Whole(s) && Fitting(b) && n < |program|
  {
    LineFits(Executed(Steps(s, program[..n], b), program[n], b).lcd)
  }

  lemma {:induction false} StoresScheduled(s: Snapshot, stores: seq<StackDiscipline.Store>, b: Board)
    requires Whole(s) && Fitting(b) && LcdTiming.Scheduled(s.lcd)
    requires forall n | 0 <= n < |stores| :: stores[n].addr != 0xff44
    ensures LcdTiming.Scheduled(StoreAll(s, stores, b).lcd)
  {
    hide LcdTiming.Scheduled;
    if stores != [] {
      var front, last := stores[..|stores| - 1], stores[|stores| - 1];
      StoresScheduled(s, front, b);
      PpuCore.StoreScheduled(StoreAll(s, front, b).lcd, last.addr, last.value);
    }
  }

  lemma InterruptScheduled(s: Snapshot, n: nat, b: Board)
    requires Whole(s) && Fitting(b) && n < 8 && LcdTiming.Scheduled(s.lcd) && s.control.ime && LySafe(s.control)
    ensures LcdTiming.Scheduled(Interrupt(s, n, b).lcd)
  {
    hide LcdTiming.Scheduled;
    var a, low, pc := Acknowledge(s, n), Down(s.control.sp, 2), s.control.pc;
    LcdTiming.RegisterScheduled(s.lcd, s.lcd.stat, s.lcd.lyc, a.lcd.ifReg);
    TwoStoresScheduled(a.(control := a.control.(sp := low)), low, Up(low, 1), pc % 0x100, pc / 0x100, b);
  }

  lemma TwoStoresScheduled(s: Snapshot, low: word, high: word, l: byte, h: byte, b: Board)
    requires Whole(s) && Fitting(b) && LcdTiming.Scheduled(s.lcd) && low != 0xff44 && high != 0xff44
    ensures LcdTiming.Scheduled(Store(Store(s, low, l, b), high, h, b).lcd)
  {
    hide LcdTiming.Scheduled;
    PpuCore.StoreScheduled(s.lcd, low, l);
    PpuCore.StoreScheduled(Store(s, low, l, b).lcd, high, h);
  }

  lemma FinishExecScheduled(s: Snapshot, cycles: byte, b: Board)
    requires Whole(s) && Fitting(b) && LcdTiming.Scheduled(s.lcd) && LySafe(s.control)
    ensures LcdTiming.Scheduled(FinishExec(s, cycles, b).lcd) && LySafe(FinishExec(s, cycles, b).control)
  {
    hide LcdTiming.Scheduled;
    var t := Tick(s, cycles);
    LcdTiming.RegisterScheduled(s.lcd, s.lcd.stat, s.lcd.lyc, t.lcd.ifReg);
    HandlingMeaning(t, b);
    var o := Interrupts.Arbitrate(IrqOf(t));
    if o.served < Interrupts.NONE {
      InterruptScheduled(t, o.served, b);
    }
  }

  lemma StepScheduled(s: Snapshot, i: Instruction, b: Board)
    requires Whole(s) && Fitting(b) && LcdTiming.Scheduled(s.lcd) && LySafe(s.control) && LeavesLy(i)
    ensures LcdTiming.Scheduled(Step(s, i, b).lcd) && LySafe(Step(s, i, b).control)
    ensures LineFits(Executed(s, i, b).lcd)
  {
    hide LcdTiming.Scheduled;
    if !s.control.halted {
      StoresScheduled(s, i.stores, b);
    }
    FinishExecScheduled(Execute(s, i, b), CyclesOf(s, i), b);
    LcdTiming.ScheduledLog(Executed(s, i, b).lcd);
    LcdTiming.RefreshScheduled(Executed(s, i, b).lcd, CyclesOf(s, i));
  }

  lemma {:induction false} StepsScheduled(s: Snapshot, program: seq<Instruction>, b: Board)
    requires Whole(s) && Fitting(b) && LcdTiming.Scheduled(s.lcd) && LySafe(s.control)
    requires forall n | 0 <= n < |program| :: LeavesLy(program[n])
    ensures LcdTiming.Scheduled(Steps(s, program, b).lcd) && LySafe(Steps(s, program, b).control)
    ensures DrawsInside(s, program, b)
  {
    hide LcdTiming.Scheduled, LeavesLy, LySafe, DrawsAt;
    if program != [] {
      var front, i := program[..|program| - 1], program[|program| - 1];
      StepsScheduled(s, front, b);
      StepScheduled(Steps(s, front, b), i, b);
      DrawsOnceMore(s, program, b);
    }
  }

  lemma DrawsOnceMore(s: Snapshot, program: seq<Instruction>, b: Board)
    requires Whole(s) && Fitting(b) && program != [] && DrawsInside(s, program[..|program| - 1], b)
    requires LineFits(Executed(Steps(s, program[..|program| - 1], b), program[|program| - 1], b).lcd)
    ensures DrawsInside(s, program, b)
  {
    hide LineFits, Executed, Steps;
    var front := program[..|program| - 1];
    forall n | 0 <= n < |program|
      ensures DrawsAt(s, program, n, b)
    {
      if n < |front| {
        assert front[..n] == program[..n];
        assert DrawsAt(s, front, n, b);
      }
    }
  }

  /**
   Whatever program runs from power-on, turning the LCD on and off as it likes but not writing LY,
   with whatever interrupts and halts: everything the display has ever done is made of stretches of
   the frame schedule, each from its beginning, and frame_count counts the frames that ended.
   */
  lemma EverySession(program: seq<Instruction>, b: Board)
    requires Fitting(b) && forall n | 0 <= n < |program| :: LeavesLy(program[n])
    ensures var u := Steps(Initial(), program, b).lcd;
            && LcdTiming.Sessions(u.log) && u.frames == LcdTiming.Count(u.log, LcdTiming.FrameDone)
            && LcdTiming.Scheduled(u)
    ensures DrawsInside(Initial(), program, b)
  {
    var lcd := Initial().lcd;
    assert LcdTiming.InSession(lcd, 0);
    StepsScheduled(Initial(), program, b);
    LcdTiming.ScheduledLog(Steps(Initial(), program, b).lcd);
  }

  // ---------- the timers of whole runs ----------

  predicate IsTimerRegister(addr: word) { 0xff04 <= addr <= 0xff07 }

  /** An interrupt taken now would not push onto the timer registers. */
  predicate TimerSafe(k: CpuCore.Control) {
    var low := Down(k.sp, 2);
    k.ime ==> !IsTimerRegister(low) && !IsTimerRegister(Up(low, 1))
  }

  predicate LeavesTimers(i: Instruction) {
    TimerSafe(i.control) && forall n | 0 <= n < |i.stores| :: !IsTimerRegister(i.stores[n].addr)
  }

  /** The cycles of each turn. */
  ghost function CycleList(s: Snapshot, program: seq<Instruction>, b: Board): seq<nat>
    requires Whole(s) && Fitting(b)
  {
    if program == [] then []
    else
      var front := program[..|program| - 1];
      CycleList(s, front, b) + [CyclesOf(Steps(s, front, b), program[|program| - 1])]
  }

  lemma {:induction false} StoresKeepTimer(s: Snapshot, stores: seq<StackDiscipline.Store>, b: Board)
    requires Whole(s) && Fitting(b) && forall n | 0 <= n < |stores| :: !IsTimerRegister(stores[n].addr)
    ensures StoreAll(s, stores, b).timer == s.timer
  {
    if stores != [] {
      StoresKeepTimer(s, stores[..|stores| - 1], b);
    }
  }

  lemma InterruptKeepsTimer(s: Snapshot, n: nat, b: Board)
    requires Whole(s) && Fitting(b) && n < 8 && s.control.ime && TimerSafe(s.control)
    ensures Interrupt(s, n, b).timer == s.timer
  {
    var low := Down(s.control.sp, 2);
    TwoStoresKeepTimer(Acknowledge(s, n).(control := Acknowledge(s, n).control.(sp := low)), low, Up(low, 1),
                       s.control.pc % 0x100, s.control.pc / 0x100, b);
  }

  lemma TwoStoresKeepTimer(s: Snapshot, low: word, high: word, l: byte, h: byte, b: Board)
    requires Whole(s) && Fitting(b) && !IsTimerRegister(low) && !IsTimerRegister(high)
    ensures Store(Store(s, low, l, b), high, h, b).timer == s.timer
  {
  }

  lemma StepTicks(s: Snapshot, i: Instruction, b: Board)
    requires Whole(s) && Fitting(b) && TimerSafe(s.control) && LeavesTimers(i)
    ensures Step(s, i, b).timer == Timers.Tick(s.timer, CyclesOf(s, i)) && TimerSafe(Step(s, i, b).control)
  {
    if !s.control.halted {
      StoresKeepTimer(s, i.stores, b);
    }
    var t := Tick(Execute(s, i, b), CyclesOf(s, i));
    var o := Interrupts.Arbitrate(IrqOf(t));
    HandlingMeaning(t, b);
    if o.served < Interrupts.NONE {
      InterruptKeepsTimer(t, o.served, b);
    }
  }

  /** A program that leaves the timer registers alone runs the timers over its cycles. */
  lemma {:induction false} ProgramTicks(s: Snapshot, program: seq<Instruction>, b: Board)
    requires Whole(s) && Fitting(b) && TimerSafe(s.control)
    requires forall n | 0 <= n < |program| :: LeavesTimers(program[n])
    ensures Steps(s, program, b).timer == Timers.Run(s.timer, CycleList(s, program, b))
    ensures Timers.Sum(CycleList(s, program, b)) == Cycles(s, program, b)
    ensures TimerSafe(Steps(s, program, b).control)
  {
    if program != [] {
      var front, i := program[..|program| - 1], program[|program| - 1];
      ProgramTicks(s, front, b);
      StepTicks(Steps(s, front, b), i, b);
      var run := CycleList(s, program, b);
      assert run[..|run| - 1] == CycleList(s, front, b);
    }
  }

  lemma {:induction false} CyclesInRange(s: Snapshot, program: seq<Instruction>, b: Board)
    requires Whole(s) && Fitting(b) && forall n | 0 <= n < |program| :: 1 <= program[n].cycles <= 6
    ensures forall c | c in CycleList(s, program, b) :: 1 <= c <= 6
  {
    if program != [] {
      CyclesInRange(s, program[..|program| - 1], b);
    }
  }

  /** Under any such program, with its interrupts and halts, DIV counts the cycles. */
  lemma ProgramDiv(s: Snapshot, program: seq<Instruction>, b: Board)
    requires Whole(s) && Fitting(b) && TimerSafe(s.control)
    requires forall n | 0 <= n < |program| :: LeavesTimers(program[n])
    ensures var t, u := s.timer, Steps(s, program, b).timer;
            64 * u.div + u.divCounter == (64 * t.div + t.divCounter + Cycles(s, program, b)) % 0x4000
  {
    hide SpriteIndex.Consistent, Timers.Run, Timers.Sum, TimerSafe, LeavesTimers, Steps, Cycles, CycleList;
    ProgramTicks(s, program, b);
    Timers.DivCountsCycles(s.timer, CycleList(s, program, b));
  }

  /** With a divider of 16, 64 or 256 TIMA and its interrupt requests follow from the cycles alone. */
  lemma ProgramTima(s: Snapshot, program: seq<Instruction>, b: Board)
    requires Whole(s) && Fitting(b) && TimerSafe(s.control)
    requires forall n | 0 <= n < |program| :: LeavesTimers(program[n]) && 1 <= program[n].cycles <= 6
    requires s.timer.enabled && s.timer.counter < s.timer.divider && s.timer.divider != 4
    ensures var t, u, ticks := s.timer, Steps(s, program, b).timer,
                    Timers.Periods(s.timer.counter + Cycles(s, program, b), s.timer.divider);
            && u.requests == t.requests + Timers.RequestsAfter(t.tima, t.tma, ticks)
            && u.tima == Timers.TimaAfter(t.tima, t.tma, ticks)
  {
    hide SpriteIndex.Consistent, Timers.Run, Timers.Sum, Timers.Periods, Timers.RequestsAfter, Timers.TimaAfter,
      TimerSafe, LeavesTimers, Steps, Cycles, CycleList;
    ProgramTicks(s, program, b);
    CyclesInRange(s, program, b);
    Timers.RunClosedForm(s.timer, CycleList(s, program, b));
  }

  /**
   A store to 0xff07, then any such program: with bit 2 clear TIMA stands still; with it set, TIMA
   counts periods of 4 cycles to the power of the clock bits, the fourth power when they are 0.
   The shortest period needs that no instruction completes two of them.
   */
  lemma TacProgram(s: Snapshot, tac: byte, program: seq<Instruction>, b: Board)
    requires Whole(s) && Fitting(b) && TimerSafe(s.control)
    requires forall n | 0 <= n < |program| :: LeavesTimers(program[n]) && 1 <= program[n].cycles <= 6
    ensures var w := Store(s, 0xff07, tac, b);
            var t, u := s.timer, Steps(w, program, b).timer;
            && w.mem[0xff07] == tac % 8
            && (tac / 4 % 2 == 0 ==> u.tima == t.tima && u.requests == t.requests)
            && (tac / 4 % 2 == 1 && t.counter < Timers.Period(tac) ==>
                  w.timer.divider > 0 &&
                  (tac % 4 != 1 || Timers.NoSkips(w.timer, CycleList(w, program, b)) ==>
                     var ticks := Timers.Periods(t.counter + Cycles(w, program, b), Timers.Period(tac));
                     && u.tima == Timers.TimaAfter(t.tima, t.tma, ticks)
                     && u.requests == t.requests + Timers.RequestsAfter(t.tima, t.tma, ticks)))
  {
    hide SpriteIndex.Consistent, Timers.Run, Timers.Sum, Timers.Periods, Timers.RequestsAfter, Timers.TimaAfter,
      Timers.NoSkips, Timers.Period, Timers.WriteTac, TimerSafe, LeavesTimers, Steps, Cycles, CycleList;
    var w := Store(s, 0xff07, tac, b);
    assert w.timer == Timers.WriteTac(s.timer, tac);
    ProgramTicks(w, program, b);
    CyclesInRange(w, program, b);
    Timers.TacThenRun(s.timer, tac, CycleList(w, program, b));
  }

  // ---------- memory and the devices ----------

  /** The device registers in memory are those of the timers and the PPU. */
  ghost predicate RegistersAgree(s: Snapshot)
    requires |s.mem| == MemoryMap.SIZE
  {
    TimerAgrees(s) && LcdAgrees(s)
  }

  ghost predicate TimerAgrees(s: Snapshot)
    requires |s.mem| == MemoryMap.SIZE
  {
    && s.mem[0xff04] == s.timer.div && s.mem[0xff05] == s.timer.tima && s.mem[0xff06] == s.timer.tma
    && (s.mem[0xff07] / 4 % 2 == 1 <==> s.timer.enabled)
    && (s.timer.enabled ==> s.timer.divider == Timers.Period(s.mem[0xff07]))
  }

  ghost predicate LcdAgrees(s: Snapshot)
    requires |s.mem| == MemoryMap.SIZE
  {
    && s.mem[0xff0f] == s.lcd.ifReg && s.mem[0xff40] == s.lcd.lcdc && s.mem[0xff41] == s.lcd.stat
    && s.mem[0xff44] == s.lcd.ly && s.mem[0xff45] == s.lcd.lyc
  }

  /** OAM in memory is what the sprite index was built from. */
  ghost predicate OamAgrees(s: Snapshot)
    requires |s.mem| == MemoryMap.SIZE
  {
    && |s.table.oam| == SpriteIndex.OAM_BYTES
    && forall i | 0 <= i < SpriteIndex.OAM_END :: s.mem[0xfe00 + i] == s.table.oam[i]
  }

  lemma StoreTimer(s: Snapshot, addr: word, value: byte, b: Board)
    requires Whole(s) && Fitting(b) && TimerAgrees(s)
    ensures TimerAgrees(Store(s, addr, value, b))
  {
    hide Timers.Period, Timers.WriteTac, SpriteIndex.Consistent, PpuCore.LcdAfterWrite;
    Timers.TacSelects(s.timer, value);
    assert value % 8 / 4 % 2 == value / 4 % 2;
    Timers.PeriodOfBits(value);
  }

  lemma StoreLcd(s: Snapshot, addr: word, value: byte, b: Board)
    requires Whole(s) && Fitting(b) && LcdAgrees(s)
    ensures LcdAgrees(Store(s, addr, value, b))
  {
    hide CpuCore.TimerAfterWrite, SpriteIndex.Consistent;
  }

  lemma StoreRegisters(s: Snapshot, addr: word, value: byte, b: Board)
    requires Whole(s) && Fitting(b) && RegistersAgree(s)
    ensures RegistersAgree(Store(s, addr, value, b))
  {
    hide TimerAgrees, LcdAgrees, Store;
    StoreTimer(s, addr, value, b);
    StoreLcd(s, addr, value, b);
  }

  lemma {:induction false} BlockOam(t: SpriteIndex.Table, bytes: seq<byte>)
    requires SpriteIndex.Consistent(t) && |bytes| <= SpriteIndex.OAM_END
    ensures var u := BlockStored(t, bytes);
            && |u.oam| == |t.oam|
            && forall i | 0 <= i < |t.oam| :: u.oam[i] == if i < |bytes| then bytes[i] else t.oam[i]
  {
    if bytes != [] {
      BlockOam(t, bytes[..|bytes| - 1]);
    }
  }

  lemma StoreOam(s: Snapshot, addr: word, value: byte, b: Board)
    requires Whole(s) && Fitting(b) && OamAgrees(s)
    ensures OamAgrees(Store(s, addr, value, b))
  {
    if addr == 0xff46 {
      BlockOam(s.table, s.mem[value * 0x100..value * 0x100 + 0xa0]);
    }
  }

  ghost predicate Agree(s: Snapshot)
    requires |s.mem| == MemoryMap.SIZE
  {
    RegistersAgree(s) && OamAgrees(s)
  }

  lemma StoreAgrees(s: Snapshot, addr: word, value: byte, b: Board)
    requires Whole(s) && Fitting(b) && Agree(s)
    ensures Agree(Store(s, addr, value, b))
  {
    hide RegistersAgree, OamAgrees, Store;
    StoreRegisters(s, addr, value, b);
    StoreOam(s, addr, value, b);
  }

  lemma {:induction false} StoresAgree(s: Snapshot, stores: seq<StackDiscipline.Store>, b: Board)
    requires Whole(s) && Fitting(b) && Agree(s)
    ensures Agree(StoreAll(s, stores, b))
  {
    hide Agree;
    if stores != [] {
      var front, last := stores[..|stores| - 1], stores[|stores| - 1];
      StoresAgree(s, front, b);
      StoreAgrees(StoreAll(s, front, b), last.addr, last.value, b);
    }
  }

  lemma TickAgrees(s: Snapshot, cycles: byte)
    requires Whole(s) && Agree(s)
    ensures Agree(Tick(s, cycles))
  {
  }

  lemma LcdKeeps(t: LcdTiming.Lcd, cycles: byte)
    ensures LcdTiming.Refresh(t, cycles).lcdc == t.lcdc && LcdTiming.Refresh(t, cycles).lyc == t.lyc
  {
  }

  lemma RefreshAgrees(s: Snapshot, cycles: byte)
    requires Whole(s) && Agree(s)
    ensures Agree(Refresh(s, cycles))
  {
    hide LcdTiming.Refresh;
    LcdKeeps(s.lcd, cycles);
  }

  lemma InterruptAgrees(s: Snapshot, n: nat, b: Board)
    requires Whole(s) && Fitting(b) && n < 8 && Agree(s)
    ensures Agree(Interrupt(s, n, b))
  {
    var a, low, pc := Acknowledge(s, n), Down(s.control.sp, 2), s.control.pc;
    var s0 := a.(control := a.control.(sp := low));
    assert Agree(s0);
    StoreAgrees(s0, low, pc % 0x100, b);
    StoreAgrees(Store(s0, low, pc % 0x100, b), Up(low, 1), pc / 0x100, b);
    PushedAgrees(s0, low, pc, Interrupts.Vector(n), b);
  }

  lemma PushedAgrees(s: Snapshot, addr: word, w: word, target: word, b: Board)
    requires Whole(s) && Fitting(b) && Agree(StoreWord(s, addr, w, b))
    ensures var u := StoreWord(s, addr, w, b); Agree(u.(control := u.control.(pc := target)))
  {
  }

  lemma StepAgrees(s: Snapshot, i: Instruction, b: Board)
    requires Whole(s) && Fitting(b) && Agree(s)
    ensures Agree(Step(s, i, b))
  {
    var e, c := Execute(s, i, b), CyclesOf(s, i);
    if !s.control.halted {
      StoresAgree(s, i.stores, b);
    }
    assert Agree(e);
    var t := Tick(e, c);
    TickAgrees(e, c);
    HandlingMeaning(t, b);
    var o := Interrupts.Arbitrate(IrqOf(t));
    if o.served < Interrupts.NONE {
      InterruptAgrees(t, o.served, b);
    }
    RefreshAgrees(FinishExec(e, c, b), c);
  }

  /**
   Whatever program runs from power-on, without any condition on what it stores or where its stack
   lies: the device registers and OAM in memory are those the timers, the PPU and the sprite index work with.
   */
  lemma {:induction false} AlwaysAgree(program: seq<Instruction>, b: Board)
    requires Fitting(b)
    ensures Agree(Steps(Initial(), program, b))
  {
    if program != [] {
      var front := program[..|program| - 1];
      AlwaysAgree(front, b);
      StepAgrees(Steps(Initial(), front, b), program[|program| - 1], b);
    }
  }

  // ---------- IF ----------

  /** IF & IE is 0 in memory. */
  ghost predicate NothingPending(s: Snapshot)
    requires Whole(s)
  {
    forall k | 0 <= k < 8 :: !(Has(s.mem[0xff0f], Power2(k)) && Has(s.mem[0xffff], Power2(k)))
  }

  /**
   What handling interrupts leaves behind: of IF in memory the request served and no other is cleared, and
   a CPU halted or interruptible afterwards has nothing pending; an interrupt that is served finds IME set,
   clears it, and continues at its vector with the old PC on the stack.
   */
  ghost predicate Handled(s: Snapshot, u: Snapshot)
    requires Whole(s) && Whole(u)
  {
    var n := Interrupts.Arbitrate(IrqOf(s)).served;
    && u.lcd.ifReg == u.mem[0xff0f] && u.mem[0xffff] == s.mem[0xffff]
    && (forall k | 0 <= k < 8 :: Has(u.mem[0xff0f], Power2(k)) <==> Has(s.mem[0xff0f], Power2(k)) && k != n)
    && (u.control.halted || u.control.ime ==> NothingPending(u))
    && (u.control.halted <==> s.control.halted && NothingPending(s))
    && (u.control.ime <==> s.control.ime && NothingPending(s))
    && (n < 8 ==>
          && s.control.ime && !u.control.ime && !u.control.halted
          && Has(s.mem[0xff0f], Power2(n)) && Has(s.mem[0xffff], Power2(n))
          && u.control.pc == [0x40, 0x48, 0x50, 0x58, 0x60, 0x68, 0x70, 0x78][n]
          && u.control.sp == Down(s.control.sp, 2)
          && u.mem[u.control.sp] == s.control.pc % 0x100 && u.mem[Up(u.control.sp, 1)] == s.control.pc / 0x100)
  }

  lemma ServedLeaves(s: Snapshot, n: nat, b: Board)
    requires Whole(s) && Fitting(b) && n < 8 && MemoryMap.PushesToRam(s.control.sp)
    ensures var u := Interrupt(s, n, b);
            && u.lcd.ifReg == u.mem[0xff0f] == Clear(s.lcd.ifReg, Power2(n)) && u.mem[0xffff] == s.mem[0xffff]
            && u.control.pc == [0x40, 0x48, 0x50, 0x58, 0x60, 0x68, 0x70, 0x78][n]
            && u.mem[u.control.sp] == s.control.pc % 0x100 && u.mem[Up(u.control.sp, 1)] == s.control.pc / 0x100
  {
    var a, low, pc := Acknowledge(s, n), Down(s.control.sp, 2), s.control.pc;
    PlainStores(a.(control := a.control.(sp := low)), low, Up(low, 1), pc % 0x100, pc / 0x100, b);
  }

  lemma PendingInMemory(s: Snapshot)
    requires Whole(s) && s.lcd.ifReg == s.mem[0xff0f]
    ensures NothingPending(s) <==> Interrupts.Lowest(IrqOf(s)) == Interrupts.NONE
  {
    var i := IrqOf(s);
    forall k | 0 <= k < 8
      ensures Interrupts.Pending(i.ifReg, i.ieReg, k) <==>
              Has(s.mem[0xff0f], Power2(k)) && Has(s.mem[0xffff], Power2(k))
    {
    }
  }

  lemma HandlingLeaves(s: Snapshot, b: Board)
    requires Whole(s) && Fitting(b) && s.lcd.ifReg == s.mem[0xff0f] && MemoryMap.PushesToRam(s.control.sp)
    ensures Handled(s, HandleIntrs(s, b))
  {
    hide Interrupts.Arbitrate, Interrupt, HandleIntrs, Clear, Has, MemoryMap.PushesToRam, SpriteIndex.Consistent;
    var i := IrqOf(s);
    var n := Interrupts.Arbitrate(i).served;
    HandlingMeaning(s, b);
    Interrupts.ArbitrationMeaning(i);
    Interrupts.OutcomeClears(i);
    var irq, u := Interrupts.Arbitrate(i).irq, HandleIntrs(s, b);
    if n < 8 {
      ServedLeaves(s, n, b);
    }
    assert u.mem[0xff0f] == irq.ifReg && u.mem[0xffff] == irq.ieReg;
    PendingInMemory(s);
    Interrupts.WakesExactly(i);
    if u.control.halted || u.control.ime {
      assert NothingPending(u) by {
        assert forall k | 0 <= k < 8 :: !Interrupts.Pending(irq.ifReg, irq.ieReg, k);
        assert forall k | 0 <= k < 8 && Has(irq.ifReg, Power2(k)) && Has(irq.ieReg, Power2(k)) ::
            Interrupts.Pending(irq.ifReg, irq.ieReg, k);
      }
    }
  }

  /**
   The timer interrupt: bit 2 of IF in memory is set exactly when TIMA, counting, goes past 0xff, and no
   other bit changes.
   */
  lemma TimerRequests(s: Snapshot, cycles: byte)
    requires Whole(s)
    ensures var f, g := s.lcd.ifReg, Tick(s, cycles).mem[0xff0f];
            && (g / 4 % 2 == 1 <==>
                  || f / 4 % 2 == 1
                  || (s.timer.enabled && s.timer.tima == 0xff && s.timer.counter + cycles >= s.timer.divider))
            && g % 4 == f % 4 && g / 8 == f / 8
  {
    hide With, SpriteIndex.Consistent;
    SetTimerBit(s.lcd.ifReg);
  }

  lemma SetTimerBit(f: byte)
    ensures var g := With(f, 4); 0 <= g < 0x100 && g / 4 % 2 == 1 && g % 4 == f % 4 && g / 8 == f / 8
  {
  }

  /** The frame after a refresh, pixel by pixel: the line that is logged is drawn, and no other changes. */
  lemma DrawnLine(screen: seq<PixelPlane.Pixel>, s: Snapshot, cycles: byte, x: nat, y: nat)
    requires Whole(s) && |screen| == PpuCore.STORED_LINES * PpuCore.LINE && x < 160 && y <= 144
    requires LcdTiming.Timed(s.lcd) && 1 <= cycles <= 6
    ensures var before, after := s.lcd.log, Refresh(s, cycles).lcd.log;
            Drawn(screen, s, cycles)[160 * y + x] ==
            if |after| > |before| && after[|before|] == LcdTiming.Line(y)
            then PixelPlane.PixelAt(VideoOf(s.mem, y), s.table, x)
            else screen[160 * y + x]
  {
    hide PixelPlane.PixelAt, LcdTiming.Refresh, SpriteIndex.Consistent, PpuCore.WithLine;
    match s.lcd.mode
    case Oam => LcdTiming.RefreshOam(s.lcd, cycles);
    case HBlank => LcdTiming.RefreshHBlank(s.lcd, cycles);
    case VBlank => LcdTiming.RefreshVBlank(s.lcd, cycles);
    case Draw =>
      LcdTiming.RefreshDraw(s.lcd, cycles);
      PpuCore.PixelInFrame(screen, VideoOf(s.mem, s.lcd.ly), s.table, x, y);
  }

  /** Turning the LCD off: memory shows mode 0 and line 0, the rest of STAT as it was. */
  lemma TurnedOff(s: Snapshot, value: byte, b: Board)
    requires Whole(s) && Fitting(b) && Agree(s) && Has(s.mem[0xff40], 0x80) && !Has(value, 0x80)
    ensures var u := Store(s, 0xff40, value, b);
            && u.mem[0xff40] == value && u.mem[0xff44] == 0
            && u.mem[0xff41] % 4 == 0 && u.mem[0xff41] / 4 == s.mem[0xff41] / 4
            && (forall cycles: byte :: LcdTiming.Refresh(u.lcd, cycles) == u.lcd)
  {
  }

  /** Turning it on: line 0 in mode 2 from the next refresh on, STAT as it was. */
  lemma TurnedOn(s: Snapshot, value: byte, b: Board)
    requires Whole(s) && Fitting(b) && Agree(s) && !Has(s.mem[0xff40], 0x80) && Has(value, 0x80)
    ensures var u := Store(s, 0xff40, value, b);
            && u.mem[0xff40] == value && u.mem[0xff44] == 0 && u.mem[0xff41] == s.mem[0xff41]
            && u.lcd.mode == LcdTiming.Oam && u.lcd.dots == 80
  {
  }

  /** A store to DIV, then any such program: DIV counts from 0, the prescaler from where it was. */
  lemma DivProgram(s: Snapshot, value: byte, program: seq<Instruction>, b: Board)
    requires Whole(s) && Fitting(b) && TimerSafe(s.control)
    requires forall n | 0 <= n < |program| :: LeavesTimers(program[n])
    ensures var w := Store(s, 0xff04, value, b);
            var u := Steps(w, program, b).timer;
            64 * u.div + u.divCounter == (s.timer.divCounter + Cycles(w, program, b)) % 0x4000
  {
    hide SpriteIndex.Consistent, TimerSafe, LeavesTimers, Steps, Cycles;
    ProgramDiv(Store(s, 0xff04, value, b), program, b);
  }

  /** TIMA's overflow is served in the call in which it happens, when nothing of higher rank is pending. */
  lemma TimerServedAtOnce(s: Snapshot, cycles: byte, b: Board)
    requires Whole(s) && Fitting(b) && s.control.ime && s.mem[0xffff] / 4 % 2 == 1
    requires s.timer.enabled && s.timer.tima == 0xff && s.timer.counter + cycles >= s.timer.divider
    requires !Interrupts.Pending(s.lcd.ifReg, s.mem[0xffff], 0) && !Interrupts.Pending(s.lcd.ifReg, s.mem[0xffff], 1)
    ensures FinishExec(s, cycles, b).control.pc == 0x50
  {
    hide SpriteIndex.Consistent;
    var t := Tick(s, cycles);
    TimerRequests(s, cycles);
    TickedBits(s.lcd.ifReg, t.lcd.ifReg);
    assert !Interrupts.Pending(t.lcd.ifReg, t.mem[0xffff], 0) && !Interrupts.Pending(t.lcd.ifReg, t.mem[0xffff], 1);
    assert Interrupts.Pending(t.lcd.ifReg, t.mem[0xffff], 2);
    assert Interrupts.Lowest(IrqOf(t)) == 2;
  }

  lemma TickedBits(f: byte, g: byte)
    requires g % 4 == f % 4
    ensures Has(g, 1) == Has(f, 1) && Has(g, 2) == Has(f, 2)
  {
  }
}
