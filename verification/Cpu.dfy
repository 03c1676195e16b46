/** The CPU's registers, its arithmetic on A and F, its timers and the memory it owns. */
module CpuCore {
  import opened Bytes
  import Alu
  import StackDiscipline
  import Timers

  datatype Control = Untouched(regs: StackDiscipline.Regs, sp: word, pc: word, ime: bool, halted: bool)

  /** Power on. */
  function Reset(): Control { Untouched(StackDiscipline.Regs(0, 0, 0, 0), 0, 0, false, false) }

  /** The bytes of a pair; as F, the low byte loses its low nibble. */
  lemma PairBytes(w: word)
    ensures w == MakeWord(w / 0x100, w % 0x100)
  {
  }

  lemma MaskedPair(hi: byte, lo: byte)
    ensures MakeWord(hi, lo) / 16 * 16 == MakeWord(hi, lo / 16 * 16)
  {
  }

  class Cpu {
    var a: byte
    var f: byte
    var b: byte
    var c: byte
    var d: byte
    var e: byte
    var h: byte
    var l: byte
    var sp: word
    var pc: word

    var divReg: byte
    var ifReg: byte
    var ieReg: byte
    var divCounter: nat
    var timaEnabled: bool
    var timaReg: byte
    var tmaReg: byte
    var tacReg: byte
    var tacCounter: byte
    var tacDivider: nat
    var isHalted: bool
    var imeEnabled: bool
    var disableBootrom: bool
    ghost var timerRequests: nat

    const wram: array<byte>  // 0xc000-0xdfff
    const hram: array<byte>  // 0xff80-0xfffe

    ghost predicate Valid()
      reads this
    {
      && wram.Length == 0x2000 && hram.Length == 0x7f && wram != hram
      && f % 16 == 0
      && ifReg <= 0x1f
      && Timers.WellFormed(Timer())
    }

    ghost function Timer(): Timers.Timer
      reads this
    {
      Timers.Timer(divReg, divCounter, timaEnabled, timaReg, tmaReg, tacCounter, tacDivider, timerRequests)
    }

    ghost function Regs(): StackDiscipline.Regs
      reads this`a, this`f, this`b, this`c, this`d, this`e, this`h, this`l
    {
      StackDiscipline.Regs(MakeWord(a, f), MakeWord(b, c), MakeWord(d, e), MakeWord(h, l))
    }

    /** Everything in the CPU that no write to memory touches. */
    ghost function Control(): Control
      reads this`a, this`f, this`b, this`c, this`d, this`e, this`h, this`l, this`sp, this`pc,
            this`imeEnabled, this`isHalted
    {
      Untouched(Regs(), sp, pc, imeEnabled, isHalted)
    }

    constructor ()
      ensures Valid() && fresh(wram) && fresh(hram)
      ensures Timer() == Timers.Initial() && Control() == Reset()
      ensures ifReg == ieReg == tacReg == 0 && !disableBootrom
      ensures (forall i | 0 <= i < wram.Length :: wram[i] == 0) && forall i | 0 <= i < hram.Length :: hram[i] == 0
    {
      a, f, b, c, d, e, h, l := 0, 0, 0, 0, 0, 0, 0, 0;
      sp, pc := 0, 0;
      divReg, ifReg, ieReg, divCounter := 0, 0, 0, 0;
      timaEnabled, timaReg, tmaReg, tacReg, tacCounter, tacDivider := false, 0, 0, 0, 0, 0;
      isHalted, imeEnabled, disableBootrom := false, false, false;
      timerRequests := 0;
      wram := new byte[0x2000](_ => 0);
      hram := new byte[0x7f](_ => 0);
    }

    // ---------- pairs ----------

    /** A pair of registers. */
    function Pair(reg: StackDiscipline.Reg): (w: word)
      reads this`a, this`f, this`b, this`c, this`d, this`e, this`h, this`l
      ensures w == StackDiscipline.Get(Regs(), reg)
      ensures reg.AF? ==> w == 0x100 * a + f
      ensures reg.BC? ==> w == 0x100 * b + c
      ensures reg.DE? ==> w == 0x100 * d + e
      ensures reg.HL? ==> w == 0x100 * h + l
    {
      match reg
      case AF => MakeWord(a, f)
      case BC => MakeWord(b, c)
      case DE => MakeWord(d, e)
      case HL => MakeWord(h, l)
    }

    /** Loading a pair; F loses its low nibble. */
    method SetPair(reg: StackDiscipline.Reg, w: word)
      modifies this`a, this`f, this`b, this`c, this`d, this`e, this`h, this`l
      ensures Regs() == StackDiscipline.Set(old(Regs()), reg, w)
      ensures reg.AF? ==> a == w / 0x100 && f == w % 0x100 / 16 * 16
      ensures reg.BC? ==> b == w / 0x100 && c == w % 0x100
      ensures reg.DE? ==> d == w / 0x100 && e == w % 0x100
      ensures reg.HL? ==> h == w / 0x100 && l == w % 0x100
      ensures old(f) % 16 == 0 || reg.AF? ==> f % 16 == 0
    {
      PairBytes(w);
      SetBytes(reg, w / 0x100, w % 0x100);
    }

    method SetBytes(reg: StackDiscipline.Reg, hi: byte, lo: byte)
      modifies this`a, this`f, this`b, this`c, this`d, this`e, this`h, this`l
      ensures Regs() == StackDiscipline.Set(old(Regs()), reg, MakeWord(hi, lo))
      ensures reg.AF? ==> a == hi && f == lo / 16 * 16
      ensures reg.BC? ==> b == hi && c == lo
      ensures reg.DE? ==> d == hi && e == lo
      ensures reg.HL? ==> h == hi && l == lo
      ensures old(f) % 16 == 0 || reg.AF? ==> f % 16 == 0
    {
      match reg
      case AF =>
        MaskedPair(hi, lo);
        a, f := hi, lo / 16 * 16;
      case BC => b, c := hi, lo;
      case DE => d, e := hi, lo;
      case HL => h, l := hi, lo;
    }

    method SetControl(k: Control)
      requires k.regs.af % 16 == 0
      modifies this`a, this`f, this`b, this`c, this`d, this`e, this`h, this`l, this`sp, this`pc,
               this`imeEnabled, this`isHalted
      ensures Control() == k && f % 16 == 0
    {
      SetPair(StackDiscipline.BC, k.regs.bc);
      SetPair(StackDiscipline.DE, k.regs.de);
      SetPair(StackDiscipline.HL, k.regs.hl);
      SetPair(StackDiscipline.AF, k.regs.af);
      sp, pc, imeEnabled, isHalted := k.sp, k.pc, k.ime, k.halted;
    }

    // ---------- arithmetic ----------

    /** UNSET_FLAGS_ALL. */
    method UnsetFlags()
      modifies this`f
      ensures f == old(f) % 16
    {
      f := f - f / 16 * 16;
    }

    /** SET_FLAG, when the condition holds. */
    method SetFlag(mask: nat, on: bool)
      requires mask in {0x10, 0x20, 0x40, 0x80} && !Has(f, mask)
      modifies this`f
      ensures f == old(f) + if on then mask else 0
    {
      if on { f := With(f, mask); }
    }

    method Adc(v: byte)
      requires Valid()
      modifies this`a, this`f
      ensures Valid()
      ensures Alu.AF(a, f) == Alu.Adc(old(a), old(f), v)
    {
      hide Alu.XorHas;
      var carry := if Has(f, Alu.FLAG_CARRY) then 1 else 0;
      UnsetFlags();
      Alu.HalfCarryOfSum(a, v, carry);
      SetFlag(Alu.FLAG_HCARRY, Alu.XorHas(v, a, a + v + carry, 0x10));
      SetFlag(Alu.FLAG_ZERO, Byte(a + (v + carry)) == 0);
      SetFlag(Alu.FLAG_CARRY, (a + v + carry) / 0x100 % 0x100 != 0);
      a := Byte(a + (v + carry));
    }

    method Sbc(v: byte)
      requires Valid()
      modifies this`a, this`f
      ensures Valid()
      ensures Alu.AF(a, f) == Alu.Sbc(old(a), old(f), v)
    {
      hide Alu.XorHas;
      var carry := if Has(f, Alu.FLAG_CARRY) then 1 else 0;
      UnsetFlags();
      var sum := Word(a - (v + carry));
      Alu.HalfCarryOfDifference(a, v, carry);
      SetFlag(Alu.FLAG_HCARRY, Alu.XorHas(v, a, sum, 0x10));
      SetFlag(Alu.FLAG_CARRY, sum / 0x100 != 0);
      a := Byte(a - (v + carry));
      SetFlag(Alu.FLAG_SUB, true);
      SetFlag(Alu.FLAG_ZERO, a == 0);
    }

    /** ADD: the carry is read off the wrapped sum. */
    method Add(v: byte)
      requires Valid()
      modifies this`a, this`f
      ensures Valid()
      ensures Alu.AF(a, f) == Alu.Adc(old(a), old(f) % 16, v)
    {
      hide Alu.XorHas;
      UnsetFlags();
      SetFlag(Alu.FLAG_CARRY, Byte(a + v) < a);
      Alu.HalfCarryOfSum(a, v, 0);
      Alu.XorSwaps(a, v, a + v, 0x10);
      SetFlag(Alu.FLAG_HCARRY, Alu.XorHas(a, v, a + v, 0x10));
      SetFlag(Alu.FLAG_ZERO, Byte(a + v) == 0);
      a := Byte(a + v);
    }

    /** SUB: the borrow is read off the wrapped difference. */
    method Sub(v: byte)
      requires Valid()
      modifies this`a, this`f
      ensures Valid()
      ensures Alu.AF(a, f) == Alu.Sbc(old(a), old(f) % 16, v)
    {
      hide Alu.XorHas;
      UnsetFlags();
      SetFlag(Alu.FLAG_CARRY, a < Byte(a - v));
      Alu.HalfCarryOfDifference(a, v, 0);
      Alu.XorSwaps(a, v, Word(a - v), 0x10);
      SetFlag(Alu.FLAG_HCARRY, Alu.XorHas(a, v, Word(a - v), 0x10));
      SetFlag(Alu.FLAG_ZERO, Byte(a - v) == 0);
      SetFlag(Alu.FLAG_SUB, true);
      a := Byte(a - v);
    }

    /** DAA's accumulator after a subtraction, before it is cut to a byte. */
    method CorrectedDown() returns (acc: nat)
      requires Alu.Subtract(f)
      ensures acc % 0x100 == Alu.Daa(a, f).a
      ensures Has(acc, 0x100) ==> Alu.CarrySet(f)
    {
      acc := a;
      Alu.LowerBytes(a);
      if Has(f, Alu.FLAG_HCARRY) {
        acc := Word(acc - 6);
        acc := acc % 0x100;
        Alu.LowerBytes(acc);
      }
      if Has(f, Alu.FLAG_CARRY) {
        acc := Word(acc - 60);
      }
    }

    /** DAA's accumulator after an addition, before it is cut to a byte. */
    method CorrectedUp() returns (acc: nat)
      ensures acc == a + Alu.LowCorrection(a, Alu.Half(f)) + if Alu.CarrySet(f) || a > 0x99 then 0x60 else 0
    {
      var tmp: nat := a;
      acc := a;
      Alu.UpperTest(a, Alu.Half(f));
      if !Has(f, Alu.FLAG_HCARRY) {
        tmp := tmp % 16;
        if tmp > 9 {
          acc := acc + 6;
        }
      } else {
        acc := acc + 6;
      }
      if !Has(f, Alu.FLAG_CARRY) {
        if acc > 0x9f {
          acc := acc + 0x60;
        }
      } else {
        acc := acc + 0x60;
      }
    }

    method Daa()
      requires Valid()
      modifies this`a, this`f
      ensures Valid()
      ensures Alu.AF(a, f) == Alu.Daa(old(a), old(f))
    {
      var acc;
      if Has(f, Alu.FLAG_SUB) {
        acc := CorrectedDown();
      } else {
        acc := CorrectedUp();
        Alu.UpperCarry(a, Alu.Half(f), Alu.CarrySet(f));
      }
      Alu.DaaFlagUpdates(f, Has(acc, 0x100), acc % 0x100 == 0);
      f := Clear(f, Alu.FLAG_HCARRY);
      a := acc % 0x100;
      if Has(acc, 0x100) {
        f := With(f, Alu.FLAG_CARRY);
      }
      if a == 0 {
        f := With(f, Alu.FLAG_ZERO);
      } else {
        f := Clear(f, Alu.FLAG_ZERO);
      }
    }

    // ---------- interrupts and timers ----------

    method RequestIntr(mask: nat)
      requires mask in {1, 2, 4, 8}
      modifies this`ifReg
      ensures ifReg == With(old(ifReg), mask)
      ensures old(ifReg) <= 0x1f ==> ifReg <= 0x1f
      ensures Control() == old(Control()) && Timer() == old(Timer())
    {
      ifReg := With(ifReg, mask);
    }

    /** DIV, counted by a 6-bit prescaler that wraps. */
    method TickDiv(cycles: nat)
      requires divCounter < 64 && cycles <= 6
      modifies this`divReg, this`divCounter
      ensures divCounter == (64 * old(divReg) + old(divCounter) + cycles) % 64
      ensures divReg == Byte((64 * old(divReg) + old(divCounter) + cycles) / 64)
    {
      Timers.Prescaled(divReg, divCounter + cycles);
      if (divCounter + cycles) % 64 < divCounter {
        divReg := Byte(divReg + 1);
      }
      divCounter := (divCounter + cycles) % 64;
    }

    /** TIMA, at most one tick for each instruction. */
    method TickTima(cycles: nat)
      requires Timers.WellFormed(Timer()) && cycles <= 6 && ifReg <= 0x1f
      modifies this`timaReg, this`tacCounter, this`ifReg, this`timerRequests
      ensures timaReg == Timers.Tick(old(Timer()), cycles).tima
      ensures tacCounter == Timers.Tick(old(Timer()), cycles).counter
      ensures timerRequests == Timers.Tick(old(Timer()), cycles).requests
      ensures ifReg == if timerRequests > old(timerRequests) then With(old(ifReg), 4) else old(ifReg)
      ensures ifReg <= 0x1f
    {
      Timers.Reached(Timer(), cycles);
      if timaEnabled {
        if (tacCounter + cycles) / tacDivider != 0 {
          timaReg := Byte(timaReg + 1);
          if timaReg == 0 {
            timaReg := tmaReg;
            RequestIntr(4);
            timerRequests := timerRequests + 1;
          }
          tacCounter := (tacCounter + cycles) % tacDivider;
        } else {
          tacCounter := Byte(tacCounter + cycles);
        }
      }
    }

    /** The timer part of cpu_exec_next, after an instruction of `cycles` cycles. */
    method TickTimers(cycles: nat)
      requires Valid() && cycles <= 6
      modifies this`divReg, this`divCounter, this`timaReg, this`tacCounter, this`ifReg, this`timerRequests
      ensures Valid()
      ensures Timer() == Timers.Tick(old(Timer()), cycles)
      ensures ifReg == if timerRequests > old(timerRequests) then With(old(ifReg), 4) else old(ifReg)
    {
      TickDiv(cycles);
      TickTima(cycles);
    }

    /** cpu_halt. */
    method Halt()
      modifies this`isHalted
      ensures isHalted
    {
      isHalted := true;
    }

    // ---------- memory ----------

    predicate OwnsAddr(addr: word) {
      0xc000 <= addr <= 0xdfff || 0xff80 <= addr || addr == 0xff0f || 0xff04 <= addr <= 0xff07 || addr == 0xff50
    }

    function Read(addr: word): byte
      requires wram.Length == 0x2000 && hram.Length == 0x7f
      reads this`ieReg, this`ifReg, this`divReg, this`timaReg, this`tmaReg, this`tacReg, this`disableBootrom, wram, hram
    {
      if 0xc000 <= addr <= 0xdfff then wram[addr - 0xc000]
      else if 0xff80 <= addr <= 0xfffe then hram[addr - 0xff80]
      else if addr == 0xffff then ieReg
      else if addr == 0xff0f then ifReg
      else if addr == 0xff04 then divReg
      else if addr == 0xff05 then timaReg
      else if addr == 0xff06 then tmaReg
      else if addr == 0xff07 then tacReg
      else if addr == 0xff50 then if disableBootrom then 1 else 0
      else 0
    }

    method Write(addr: word, value: byte)
      requires Valid() && OwnsAddr(addr)
      modifies this`ieReg, this`ifReg, this`divReg, this`timaReg, this`tmaReg, this`tacReg, this`timaEnabled,
               this`tacDivider, this`disableBootrom, wram, hram
      ensures Valid() && Control() == old(Control())
      ensures forall q: word :: Read(q) == if q == addr then Stored(addr, value) else old(Read(q))
      ensures Timer() == TimerAfterWrite(old(Timer()), addr, value)
    {
      if 0xc000 <= addr <= 0xdfff {
        wram[addr - 0xc000] := value;
        return;
      }
      if 0xff80 <= addr <= 0xfffe {
        hram[addr - 0xff80] := value;
        return;
      }
      WriteReg(addr, value);
    }

    /** The registers of the write. */
    method WriteReg(addr: word, value: byte)
      requires Valid() && OwnsAddr(addr) && addr > 0xdfff && !(0xff80 <= addr <= 0xfffe)
      modifies this`ieReg, this`ifReg, this`divReg, this`timaReg, this`tmaReg, this`tacReg, this`timaEnabled,
               this`tacDivider, this`disableBootrom
      ensures Valid() && Control() == old(Control())
      ensures forall q: word :: Read(q) == if q == addr then Stored(addr, value) else old(Read(q))
      ensures Timer() == TimerAfterWrite(old(Timer()), addr, value)
    {
      if addr == 0xffff {
        ieReg := value;
      } else if addr == 0xff0f {
        ifReg := value % 0x20;
      } else if addr == 0xff50 {
        disableBootrom := value != 0;
      } else {
        WriteTimerReg(addr, value);
      }
    }

    method WriteTimerReg(addr: word, value: byte)
      requires Valid() && 0xff04 <= addr <= 0xff07
      modifies this`divReg, this`timaReg, this`tmaReg, this`tacReg, this`timaEnabled, this`tacDivider
      ensures Valid() && Control() == old(Control())
      ensures forall q: word :: Read(q) == if q == addr then Stored(addr, value) else old(Read(q))
      ensures Timer() == TimerAfterWrite(old(Timer()), addr, value)
    {
      if addr == 0xff04 {
        divReg := 0;
      } else if addr == 0xff05 {
        timaReg := value;
      } else if addr == 0xff06 {
        tmaReg := value;
      } else {
        tacReg := value % 8;
        timaEnabled := Has(value, 4);
        tacDivider := if value % 4 == 0 then 256 else if value % 4 == 1 then 4 else if value % 4 == 2 then 16 else 64;
      }
    }
  }

  /** What a read of the CPU's address space gives after `value` was written there. */
  function Stored(addr: word, value: byte): byte {
    if addr == 0xff0f then value % 0x20
    else if addr == 0xff04 then 0
    else if addr == 0xff07 then value % 8
    else if addr == 0xff50 then if value != 0 then 1 else 0
    else value
  }

  function TimerAfterWrite(t: Timers.Timer, addr: word, value: byte): Timers.Timer {
    if addr == 0xff04 then t.(div := 0)
    else if addr == 0xff05 then t.(tima := value)
    else if addr == 0xff06 then t.(tma := value)
    else if addr == 0xff07 then Timers.WriteTac(t, value)
    else t
  }
}
