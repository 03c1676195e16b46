/**
 The stack instructions on values: the CPU's registers with a flat memory, against an abstract
 machine that keeps its stack as a list of words. The memory stack refines the list for any
 sequence of pushes, calls, restarts, interrupts, pops, returns and other instructions.
 */
module StackDiscipline {
  import opened Bytes

  datatype Reg = AF | BC | DE | HL
  datatype Regs = Regs(af: word, bc: word, de: word, hl: word)

  function Get(r: Regs, reg: Reg): word {
    match reg case AF => r.af case BC => r.bc case DE => r.de case HL => r.hl
  }

  /** Loading a pair; F keeps only its high nibble. */
  function Set(r: Regs, reg: Reg, w: word): Regs {
    match reg
    case AF => r.(af := w / 16 * 16)
    case BC => r.(bc := w)
    case DE => r.(de := w)
    case HL => r.(hl := w)
  }

  datatype Core = Core(regs: Regs, sp: word, pc: word, mem: seq<byte>)

  predicate WellFormed(c: Core) { |c.mem| == 0x1_0000 }

  function WordAt(mem: seq<byte>, addr: word): word
    requires |mem| == 0x1_0000
  {
    MakeWord(mem[Up(addr, 1)], mem[addr])
  }

  function StoreWord(mem: seq<byte>, addr: word, w: word): (m: seq<byte>)
    requires |mem| == 0x1_0000
    ensures |m| == 0x1_0000
  {
    mem[addr := w % 0x100][Up(addr, 1) := w / 0x100]
  }

  /** SP moves down two bytes, wrapping, and the word is stored there, low byte first. */
  function PushWord(c: Core, w: word): (d: Core)
    requires WellFormed(c)
    ensures WellFormed(d)
  {
    var sp := Down(c.sp, 2);
    c.(sp := sp, mem := StoreWord(c.mem, sp, w))
  }

  function Dropped(c: Core): Core { c.(sp := Up(c.sp, 2)) }

  datatype Store = Store(addr: word, value: byte)

  datatype Op =
    | Push(reg: Reg)
    | Pop(reg: Reg)
    | Call(target: word)        // the operand already read, PC still before it
    | Restart(target: word)
    | Interrupt(vector: word)
    | Return                    // RET and RETI
    | Work(regs: Regs, pc: word, stores: seq<Store>)  // any instruction that leaves SP alone

  function Stored(mem: seq<byte>, stores: seq<Store>): (m: seq<byte>)
    requires |mem| == 0x1_0000
    ensures |m| == 0x1_0000
  {
    if stores == [] then mem
    else Stored(mem, stores[..|stores| - 1])[stores[|stores| - 1].addr := stores[|stores| - 1].value]
  }

  function Exec(c: Core, op: Op): (d: Core)
    requires WellFormed(c)
    ensures WellFormed(d)
  {
    match op
    case Push(reg) => PushWord(c, Get(c.regs, reg))
    case Pop(reg) => Dropped(c.(regs := Set(c.regs, reg, WordAt(c.mem, c.sp))))
    case Call(target) => PushWord(c, Up(c.pc, 2)).(pc := target)
    case Restart(target) => PushWord(c, c.pc).(pc := target)
    case Interrupt(vector) => PushWord(c, c.pc).(pc := vector)
    case Return => Dropped(c.(pc := WordAt(c.mem, c.sp)))
    case Work(regs, pc, stores) => c.(regs := regs, pc := pc, mem := Stored(c.mem, stores))
  }

  function ExecAll(c: Core, ops: seq<Op>): (d: Core)
    requires WellFormed(c)
    ensures WellFormed(d)
  {
    if ops == [] then c else Exec(ExecAll(c, ops[..|ops| - 1]), ops[|ops| - 1])
  }

  /** A push in bytes: SP two lower modulo 0x10000, the low byte there, the high byte above it, nothing else. */
  lemma PushBytes(c: Core, w: word, q: word)
    requires WellFormed(c)
    ensures var d := PushWord(c, w);
            && d.sp == (c.sp - 2) % 0x1_0000 && d.regs == c.regs && d.pc == c.pc
            && d.mem[q] == (if q == d.sp then w % 0x100 else if q == (d.sp + 1) % 0x1_0000 then w / 0x100 else c.mem[q])
  {
  }

  /** A pop in bytes: the word is read low byte first, SP is two higher, and F loses its low nibble. */
  lemma PopBytes(c: Core, reg: Reg)
    requires WellFormed(c)
    ensures var d, w: int := Exec(c, Pop(reg)), c.mem[c.sp] + 0x100 * (c.mem[(c.sp + 1) % 0x1_0000] as int);
            && d.sp == (c.sp + 2) % 0x1_0000 && d.pc == c.pc && d.mem == c.mem
            && d.regs.af == (if reg.AF? then w - w % 16 else c.regs.af)
            && d.regs.bc == (if reg.BC? then w else c.regs.bc)
            && d.regs.de == (if reg.DE? then w else c.regs.de) && d.regs.hl == (if reg.HL? then w else c.regs.hl)
    ensures Exec(c, Return).pc == c.mem[c.sp] + 0x100 * (c.mem[(c.sp + 1) % 0x1_0000] as int)
    ensures Exec(c, Return).sp == (c.sp + 2) % 0x1_0000
  {
  }

  /** What is pushed: the pair; by CALL the address after its two operand bytes; by RST and interrupts PC. */
  lemma PushedWord(c: Core, op: Op)
    requires WellFormed(c) && (op.Push? || op.Call? || op.Restart? || op.Interrupt?)
    ensures var w: word := match op
                           case Push(AF) => c.regs.af
                           case Push(BC) => c.regs.bc
                           case Push(DE) => c.regs.de
                           case Push(HL) => c.regs.hl
                           case Call(_) => (c.pc + 2) % 0x1_0000
                           case _ => c.pc;
            && Exec(c, op).mem == PushWord(c, w).mem && Exec(c, op).sp == PushWord(c, w).sp
            && (op.Call? ==> Exec(c, op).pc == op.target) && (op.Restart? ==> Exec(c, op).pc == op.target)
            && (op.Interrupt? ==> Exec(c, op).pc == op.vector) && (op.Push? ==> Exec(c, op).pc == c.pc)
  {
  }

  // ---------- the abstract machine ----------

  datatype Abs = Abs(regs: Regs, pc: word, stack: seq<word>)

  function Top(a: Abs): word { if a.stack == [] then 0 else a.stack[|a.stack| - 1] }

  function Popped(a: Abs): Abs { if a.stack == [] then a else a.(stack := a.stack[..|a.stack| - 1]) }

  function AbsExec(a: Abs, op: Op): Abs {
    match op
    case Push(reg) => a.(stack := a.stack + [Get(a.regs, reg)])
    case Pop(reg) => Popped(a.(regs := Set(a.regs, reg, Top(a))))
    case Call(target) => a.(stack := a.stack + [Up(a.pc, 2)], pc := target)
    case Restart(target) => a.(stack := a.stack + [a.pc], pc := target)
    case Interrupt(vector) => a.(stack := a.stack + [a.pc], pc := vector)
    case Return => Popped(a.(pc := Top(a)))
    case Work(regs, pc, stores) => a.(regs := regs, pc := pc)
  }

  function AbsAll(a: Abs, ops: seq<Op>): Abs {
    if ops == [] then a else AbsExec(AbsAll(a, ops[..|ops| - 1]), ops[|ops| - 1])
  }

  predicate Pushes(op: Op) { op.Push? || op.Call? || op.Restart? || op.Interrupt? }
  predicate Pops(op: Op) { op.Pop? || op.Return? }

  const WRAM_START := 0xc000
  const WRAM_END := 0xe000

  /**
   The next instruction may run with `depth` words on a stack that grows down from `base`: no
   pop from an empty stack, room in work RAM for a push, and other instructions store nothing
   into the live stack and leave the low nibble of F clear.
   */
  predicate Allowed(op: Op, depth: nat, base: int) {
    && (Pops(op) ==> depth > 0)
    && (Pushes(op) ==> base - 2 * (depth + 1) >= WRAM_START)
    && (op.Work? ==>
          && op.regs.af % 16 == 0
          && forall i | 0 <= i < |op.stores| :: !(base - 2 * depth <= op.stores[i].addr < base))
  }

  predicate AllAllowed(a: Abs, ops: seq<Op>, base: int) {
    forall n | 0 <= n < |ops| :: Allowed(ops[n], |AbsAll(a, ops[..n]).stack|, base)
  }

  /** The memory below `base` down to SP holds the abstract stack. */
  ghost predicate Linked(c: Core, a: Abs, base: int) {
    && WellFormed(c)
    && WRAM_START <= base <= WRAM_END
    && c.regs == a.regs && c.pc == a.pc && c.regs.af % 16 == 0
    && c.sp == base - 2 * |a.stack| && c.sp >= WRAM_START
    && forall i | 0 <= i < |a.stack| :: WordAt(c.mem, base - 2 * (i + 1)) == a.stack[i]
  }

  lemma {:induction false} StoredElsewhere(mem: seq<byte>, stores: seq<Store>, addr: word)
    requires |mem| == 0x1_0000 && forall i | 0 <= i < |stores| :: stores[i].addr != addr
    ensures Stored(mem, stores)[addr] == mem[addr]
  {
    if stores != [] {
      StoredElsewhere(mem, stores[..|stores| - 1], addr);
    }
  }

  lemma PushLinked(c: Core, a: Abs, base: int, w: word)
    requires Linked(c, a, base) && base - 2 * (|a.stack| + 1) >= WRAM_START
    ensures Linked(PushWord(c, w), a.(stack := a.stack + [w]), base)
  {
    var d, b := PushWord(c, w), a.(stack := a.stack + [w]);
    forall i | 0 <= i < |b.stack|
      ensures WordAt(d.mem, base - 2 * (i + 1)) == b.stack[i]
    {
      if i < |a.stack| {
        assert WordAt(c.mem, base - 2 * (i + 1)) == a.stack[i];
      }
    }
  }

  lemma TopLinked(c: Core, a: Abs, base: int)
    requires Linked(c, a, base) && a.stack != []
    ensures WordAt(c.mem, c.sp) == Top(a)
    ensures Linked(Dropped(c), Popped(a), base)
  {
    var k := |a.stack| - 1;
    assert WordAt(c.mem, base - 2 * (k + 1)) == a.stack[k];
  }

  lemma WorkLinked(c: Core, a: Abs, base: int, op: Op)
    requires Linked(c, a, base) && op.Work? && Allowed(op, |a.stack|, base)
    ensures Linked(Exec(c, op), AbsExec(a, op), base)
  {
    var d := Exec(c, op);
    forall i | 0 <= i < |a.stack|
      ensures WordAt(d.mem, base - 2 * (i + 1)) == a.stack[i]
    {
      var addr := base - 2 * (i + 1);
      StoredElsewhere(c.mem, op.stores, addr);
      StoredElsewhere(c.mem, op.stores, addr + 1);
      assert WordAt(c.mem, addr) == a.stack[i];
    }
  }

  lemma EnterLinked(c: Core, a: Abs, base: int, w: word, target: word)
    requires Linked(c, a, base) && base - 2 * (|a.stack| + 1) >= WRAM_START
    ensures Linked(PushWord(c, w).(pc := target), a.(stack := a.stack + [w], pc := target), base)
  {
    PushLinked(c, a, base, w);
    var d, b := PushWord(c, w), a.(stack := a.stack + [w]);
    assert d.(pc := target).mem == d.mem && b.(pc := target).stack == b.stack;
  }

  lemma PopLinked(c: Core, a: Abs, base: int, op: Op)
    requires Linked(c, a, base) && Pops(op) && a.stack != []
    ensures Linked(Exec(c, op), AbsExec(a, op), base)
  {
    TopLinked(c, a, base);
    match op
    case Pop(reg) =>
      var regs := Set(c.regs, reg, Top(a));
      assert regs.af % 16 == 0;
      RegistersLinked(c, a, base, regs, c.pc);
      TopLinked(c.(regs := regs), a.(regs := regs), base);
    case Return =>
      RegistersLinked(c, a, base, c.regs, Top(a));
      TopLinked(c.(pc := Top(a)), a.(pc := Top(a)), base);
  }

  lemma RegistersLinked(c: Core, a: Abs, base: int, regs: Regs, pc: word)
    requires Linked(c, a, base) && regs.af % 16 == 0
    ensures Linked(c.(regs := regs, pc := pc), a.(regs := regs, pc := pc), base)
  {
    assert c.(regs := regs, pc := pc).mem == c.mem && a.(regs := regs, pc := pc).stack == a.stack;
  }

  lemma ExecLinked(c: Core, a: Abs, base: int, op: Op)
    requires Linked(c, a, base) && Allowed(op, |a.stack|, base)
    ensures Linked(Exec(c, op), AbsExec(a, op), base)
  {
    match op
    case Push(reg) => PushLinked(c, a, base, Get(c.regs, reg));
    case Pop(reg) => PopLinked(c, a, base, op);
    case Call(target) => EnterLinked(c, a, base, Up(c.pc, 2), target);
    case Restart(target) => EnterLinked(c, a, base, c.pc, target);
    case Interrupt(vector) => EnterLinked(c, a, base, c.pc, vector);
    case Return => PopLinked(c, a, base, op);
    case Work(regs, pc, stores) => WorkLinked(c, a, base, op);
  }

  /** Every run of the CPU's stack in work RAM is a run of the abstract stack. */
  lemma {:induction false} RunRefines(c: Core, a: Abs, base: int, ops: seq<Op>)
    requires Linked(c, a, base) && AllAllowed(a, ops, base)
    ensures Linked(ExecAll(c, ops), AbsAll(a, ops), base)
  {
    if ops != [] {
      var front := ops[..|ops| - 1];
      AllowedFront(a, ops, base);
      RunRefines(c, a, base, front);
      ExecLinked(ExecAll(c, front), AbsAll(a, front), base, ops[|ops| - 1]);
    }
  }

  lemma AllowedFront(a: Abs, ops: seq<Op>, base: int)
    requires ops != [] && AllAllowed(a, ops, base)
    ensures var front := ops[..|ops| - 1];
            AllAllowed(a, front, base) && Allowed(ops[|ops| - 1], |AbsAll(a, front).stack|, base)
  {
    var front := ops[..|ops| - 1];
    forall n | 0 <= n < |front|
      ensures Allowed(front[n], |AbsAll(a, front[..n]).stack|, base)
    {
      assert front[..n] == ops[..n];
    }
  }

  // ---------- balanced nests ----------

  /** A run that never goes below the stack it started from. */
  predicate StaysAbove(a: Abs, ops: seq<Op>) {
    forall n | 0 <= n <= |ops| :: |AbsAll(a, ops[..n]).stack| >= |a.stack|
  }

  lemma {:induction false} PrefixKept(a: Abs, ops: seq<Op>)
    requires StaysAbove(a, ops)
    ensures a.stack <= AbsAll(a, ops).stack
  {
    if ops != [] {
      var front := ops[..|ops| - 1];
      forall n | 0 <= n <= |front|
        ensures |AbsAll(a, front[..n]).stack| >= |a.stack|
      {
        assert front[..n] == ops[..n];
      }
      PrefixKept(a, front);
      assert ops[..|ops|] == ops;
    }
  }

  /** A nest of any depth that is allowed to run, pops only what it pushed, and pops all of it. */
  predicate Balanced(a: Abs, ops: seq<Op>, base: int) {
    AllAllowed(a, ops, base) && StaysAbove(a, ops) && |AbsAll(a, ops).stack| == |a.stack|
  }

  lemma BalancedStack(c: Core, a: Abs, base: int, ops: seq<Op>)
    requires Linked(c, a, base) && Balanced(a, ops, base)
    ensures Linked(ExecAll(c, ops), AbsAll(a, ops), base) && AbsAll(a, ops).stack == a.stack
  {
    RunRefines(c, a, base, ops);
    PrefixKept(a, ops);
  }

  /** After a balanced nest, SP and every byte of the live stack are as before. */
  lemma BalancedRestores(c: Core, a: Abs, base: int, ops: seq<Op>)
    requires Linked(c, a, base) && Balanced(a, ops, base)
    ensures ExecAll(c, ops).sp == c.sp
    ensures forall addr | c.sp as int <= addr < base :: ExecAll(c, ops).mem[addr] == c.mem[addr]
  {
    BalancedStack(c, a, base, ops);
    SameStack(c, a, ExecAll(c, ops), AbsAll(a, ops), base);
  }

  /** Two memories that hold the same stack agree on its bytes. */
  lemma SameStack(c: Core, a: Abs, d: Core, e: Abs, base: int)
    requires Linked(c, a, base) && Linked(d, e, base) && a.stack == e.stack
    ensures d.sp == c.sp && forall addr | c.sp as int <= addr < base :: d.mem[addr] == c.mem[addr]
  {
    forall addr | c.sp as int <= addr < base
      ensures d.mem[addr] == c.mem[addr]
    {
      var i := (base - addr - 1) / 2;
      var low := base - 2 * (i + 1);
      assert addr == low || addr == low + 1;
      assert WordAt(c.mem, low) == a.stack[i] == WordAt(d.mem, low);
    }
  }

  /** The word an instruction pushes. */
  function Saved(a: Abs, op: Op): word
    requires Pushes(op)
  {
    match op
    case Push(reg) => Get(a.regs, reg)
    case Call(_) => Up(a.pc, 2)
    case _ => a.pc
  }

  lemma SavedIsTop(a: Abs, op: Op)
    requires Pushes(op)
    ensures AbsExec(a, op).stack == a.stack + [Saved(a, op)]
  {
  }

  lemma BracketEnds(c: Core, a: Abs, base: int, enter: Op, body: seq<Op>)
    requires Linked(c, a, base) && Pushes(enter) && Allowed(enter, |a.stack|, base)
    requires Balanced(AbsExec(a, enter), body, base)
    ensures var d := ExecAll(Exec(c, enter), body);
            WordAt(d.mem, d.sp) == Saved(a, enter) && Dropped(d).sp == c.sp
  {
    var inside := AbsExec(a, enter);
    ExecLinked(c, a, base, enter);
    BalancedStack(Exec(c, enter), inside, base, body);
    SavedIsTop(a, enter);
    TopLinked(ExecAll(Exec(c, enter), body), AbsAll(inside, body), base);
  }

  /** A call, restart or interrupt around a balanced nest comes back to the address it saved. */
  lemma ReturnsToCaller(c: Core, a: Abs, base: int, enter: Op, body: seq<Op>)
    requires Linked(c, a, base) && !enter.Push? && Pushes(enter) && Allowed(enter, |a.stack|, base)
    requires Balanced(AbsExec(a, enter), body, base)
    ensures var after := Exec(ExecAll(Exec(c, enter), body), Return);
            after.sp == c.sp && after.pc == if enter.Call? then Up(c.pc, 2) else c.pc
  {
    BracketEnds(c, a, base, enter, body);
    ReturnEffect(ExecAll(Exec(c, enter), body));
    assert Saved(a, enter) == if enter.Call? then Up(a.pc, 2) else a.pc;
  }

  lemma ReturnEffect(d: Core)
    requires WellFormed(d)
    ensures Exec(d, Return).sp == Dropped(d).sp && Exec(d, Return).pc == WordAt(d.mem, d.sp)
  {
  }

  /** PUSH around a balanced nest: POP brings the very value back, in the case of AF too. */
  lemma PopRestoresRegister(c: Core, a: Abs, base: int, reg: Reg, body: seq<Op>)
    requires Linked(c, a, base) && Allowed(Push(reg), |a.stack|, base)
    requires Balanced(AbsExec(a, Push(reg)), body, base)
    ensures var after := Exec(ExecAll(Exec(c, Push(reg)), body), Pop(reg));
            after.sp == c.sp && Get(after.regs, reg) == Get(c.regs, reg)
  {
    BracketEnds(c, a, base, Push(reg), body);
    var d := ExecAll(Exec(c, Push(reg)), body);
    PopEffect(d, reg);
    GetSet(d.regs, reg, Get(c.regs, reg));
  }

  lemma PopEffect(d: Core, reg: Reg)
    requires WellFormed(d)
    ensures Exec(d, Pop(reg)).sp == Dropped(d).sp && Exec(d, Pop(reg)).regs == Set(d.regs, reg, WordAt(d.mem, d.sp))
  {
  }

  lemma GetSet(r: Regs, reg: Reg, w: word)
    requires reg == AF ==> w % 16 == 0
    ensures Get(Set(r, reg, w), reg) == w
  {
  }
}
