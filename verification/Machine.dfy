/** The whole machine: the address map over the parts, the stack instructions, interrupts. */
module MachineCore {
  import opened Bytes
  import Cartridge
  import CpuCore
  import Halt
  import Interrupts
  import LcdTiming
  import MachineState
  import MemoryMap
  import PpuCore
  import SpriteIndex
  import StackDiscipline
  import Timers

  const OPCODE_PREFIX: byte := 0xcb

  /** Where a read or a write of an address goes. */
  datatype Part = ToPpu | ToCpu | ToCart | ToIo

  function PartOf(addr: word): Part {
    if 0x8000 <= addr <= 0x9fff || 0xfe00 <= addr <= 0xfe9f || 0xff40 <= addr <= 0xff4b then ToPpu
    else if 0xc000 <= addr <= 0xdfff || 0xff80 <= addr then ToCpu
    else if addr == 0xff0f || 0xff04 <= addr <= 0xff07 || addr == 0xff50 then ToCpu
    else if addr <= 0xbfff then ToCart
    else ToIo
  }

  lemma SelectBits(value: byte)
    ensures value / 16 % 4 * 16 in {0, 0x10, 0x20, 0x30} && value / 16 % 4 * 16 / 16 % 4 == value / 16 % 4
  {
  }

  class Machine {
    const cpu: CpuCore.Cpu
    const ppu: PpuCore.Ppu
    const cart: Cartridge.Mbc1
    const ioregs: array<byte>  // tmp_ioregs
    var keys: MemoryMap.Keys

    ghost predicate Shaped() {
      && cpu.wram.Length == 0x2000 && cpu.hram.Length == 0x7f
      && ppu.cpu == cpu && ppu.Shaped() && ppu.sprites.oam.Length == SpriteIndex.OAM_BYTES
      && ppu.tileMap1 != ppu.tileMap2
      && cart.Valid()
      && ioregs.Length == 0xffff
    }

    /** What reading needs. */
    ghost predicate Mapped()
      reads this`keys
    {
      Shaped() && keys.buttons < 16 && keys.pad < 16
    }

    ghost predicate Valid()
      reads this`keys, cpu, ppu.sprites, ppu.sprites.oam, ppu.sprites.hash, ioregs
    {
      && Mapped() && cpu.Valid() && ppu.sprites.Valid()
      && ioregs[0xff00] in {0, 0x10, 0x20, 0x30}
    }

    constructor (file: seq<byte>)
      ensures Valid() && Now() == MachineState.Initial() && Board() == MachineState.InitialBoard(file)
      ensures fresh(cpu) && fresh(cpu.wram) && fresh(cpu.hram) && fresh(ppu) && fresh(ppu.tileData)
      ensures fresh(ppu.tileMap1) && fresh(ppu.tileMap2) && fresh(ppu.screen) && fresh(ppu.sprites)
      ensures fresh(ppu.sprites.oam) && fresh(ppu.sprites.hash) && fresh(cart.rom) && fresh(cart.ram) && fresh(ioregs)
      ensures ppu.screen[..] == PpuCore.Blank()
    {
      var c := new CpuCore.Cpu();
      cpu := c;
      ppu := new PpuCore.Ppu(c);
      cart := new Cartridge.Mbc1(file);
      ioregs := new byte[0xffff](_ => 0);
      keys := MemoryMap.Keys(15, 15);
      new;
      ZeroedView();
    }

    lemma ZeroedView()
      requires Mapped() && keys.pad == 15 && !cpu.disableBootrom && ppu.Lcd() == LcdTiming.Initial(0)
      requires cpu.ieReg == cpu.divReg == cpu.timaReg == cpu.tmaReg == cpu.tacReg == 0
      requires ppu.scy == ppu.scx == ppu.dma == ppu.bgp == ppu.obp0 == ppu.obp1 == ppu.wx == ppu.wy == 0
      requires ppu.sprites.oam[..] == SpriteIndex.Initial().oam
      requires forall i | 0 <= i < cpu.wram.Length :: cpu.wram[i] == 0
      requires forall i | 0 <= i < cpu.hram.Length :: cpu.hram[i] == 0
      requires forall i | 0 <= i < ppu.tileData.Length :: ppu.tileData[i] == 0
      requires forall i | 0 <= i < ppu.tileMap1.Length :: ppu.tileMap1[i] == 0
      requires forall i | 0 <= i < ppu.tileMap2.Length :: ppu.tileMap2[i] == 0
      requires forall i | 0 <= i < cart.rom.Length :: cart.rom[i] == 0
      requires forall i | 0 <= i < cart.ram.Length :: cart.ram[i] == 0
      requires forall i | 0 <= i < ioregs.Length :: ioregs[i] == 0
      ensures View() == MachineState.Initial().mem
    {
      ViewReads();
      forall q: word
        ensures Read(q) == MachineState.Initial().mem[q]
      {
        assert 0xfe00 <= q <= 0xfe9f ==> ppu.sprites.oam[..][q - 0xfe00] == 0;
      }
    }

    // ---------- memory ----------

    /** monitor_rd_mem. */
    function Read(addr: word): byte
      requires Mapped()
      reads this`keys, cpu`ieReg, cpu`ifReg, cpu`divReg, cpu`timaReg, cpu`tmaReg, cpu`tacReg, cpu`disableBootrom,
            ppu, cpu.wram, cpu.hram, ppu.tileData, ppu.tileMap1, ppu.tileMap2, ppu.sprites.oam,
            cart.rom, cart.ram, ioregs
    {
      match PartOf(addr)
      case ToPpu => ppu.Read(addr)
      case ToCpu => cpu.Read(addr)
      case ToCart => cart.Read(addr)
      case ToIo => if addr == 0xff00 then MemoryMap.Joypad(ioregs[addr] / 16 % 4, keys) else ioregs[addr]
    }

    /** The first n bytes of memory as the program sees them. */
    ghost function Bytes(n: nat): (v: seq<byte>)
      requires n <= MemoryMap.SIZE && Mapped()
      reads this`keys, cpu`ieReg, cpu`ifReg, cpu`divReg, cpu`timaReg, cpu`tmaReg, cpu`tacReg, cpu`disableBootrom,
            ppu, cpu.wram, cpu.hram, ppu.tileData, ppu.tileMap1, ppu.tileMap2, ppu.sprites.oam,
            cart.rom, cart.ram, ioregs
      ensures |v| == n
    {
      if n == 0 then [] else Bytes(n - 1) + [Read(n - 1)]
    }

    ghost function View(): (v: seq<byte>)
      requires Mapped()
      reads this`keys, cpu`ieReg, cpu`ifReg, cpu`divReg, cpu`timaReg, cpu`tmaReg, cpu`tacReg, cpu`disableBootrom,
            ppu, cpu.wram, cpu.hram, ppu.tileData, ppu.tileMap1, ppu.tileMap2, ppu.sprites.oam,
            cart.rom, cart.ram, ioregs
      ensures |v| == MemoryMap.SIZE
    {
      Bytes(ioregs.Length + 1)
    }

    lemma {:induction false} BytesRead(n: nat, q: nat)
      requires q < n <= MemoryMap.SIZE && Mapped()
      ensures Bytes(n)[q] == Read(q)
    {
      if q < n - 1 {
        BytesRead(n - 1, q);
      }
    }

    lemma ViewReads()
      requires Mapped()
      ensures forall q: word :: View()[q] == Read(q)
    {
      forall q: word
        ensures View()[q] == Read(q)
      {
        BytesRead(ioregs.Length + 1, q);
      }
    }

    /** The cells that time does not change, read without those that it does. */
    function ReadSteady(addr: word): byte
      requires Mapped() && MemoryMap.IsSteady(addr)
      reads this`keys, cpu`ieReg, cpu`tmaReg, cpu`tacReg, cpu`disableBootrom, cpu.wram, cpu.hram,
            ppu`lcdc, ppu`scy, ppu`scx, ppu`lyc, ppu`dma, ppu`bgp, ppu`obp0, ppu`obp1, ppu`wy, ppu`wx,
            ppu.tileData, ppu.tileMap1, ppu.tileMap2, ppu.sprites.oam, cart.rom, cart.ram, ioregs
    {
      match PartOf(addr)
      case ToCart => cart.Read(addr)
      case ToIo => if addr == 0xff00 then MemoryMap.Joypad(ioregs[addr] / 16 % 4, keys) else ioregs[addr]
      case ToCpu =>
        if addr <= 0xdfff then cpu.wram[addr - 0xc000]
        else if addr == 0xff06 then cpu.tmaReg
        else if addr == 0xff07 then cpu.tacReg
        else if addr == 0xff50 then if cpu.disableBootrom then 1 else 0
        else if addr == 0xffff then cpu.ieReg
        else cpu.hram[addr - 0xff80]
      case ToPpu =>
        if addr <= 0x97ff then ppu.tileData[addr - 0x8000]
        else if addr <= 0x9bff then ppu.tileMap1[addr - 0x9800]
        else if addr <= 0x9fff then ppu.tileMap2[addr - 0x9c00]
        else if addr <= 0xfe9f then ppu.sprites.oam[addr - 0xfe00]
        else if addr == 0xff40 then ppu.lcdc
        else if addr == 0xff42 then ppu.scy
        else if addr == 0xff43 then ppu.scx
        else if addr == 0xff45 then ppu.lyc
        else if addr == 0xff46 then ppu.dma
        else if addr == 0xff47 then ppu.bgp
        else if addr == 0xff48 then ppu.obp0
        else if addr == 0xff49 then ppu.obp1
        else if addr == 0xff4a then ppu.wy
        else ppu.wx
    }

    lemma ViewReadsSteady()
      requires Mapped()
      ensures forall q: word | MemoryMap.IsSteady(q) :: View()[q] == ReadSteady(q)
    {
      ViewReads();
    }

    function Board(): MachineState.Board
      reads this`keys
    {
      MachineState.Board(keys, cart.file)
    }

    /** The machine on values. */
    ghost function Now(): (s: MachineState.Snapshot)
      requires Valid()
      reads this`keys, cpu, ppu, cpu.wram, cpu.hram, ppu.tileData, ppu.tileMap1, ppu.tileMap2,
            ppu.sprites, ppu.sprites.oam, ppu.sprites.hash, cart.rom, cart.ram, ioregs
      ensures MachineState.Whole(s)
    {
      MachineState.Snapshot(cpu.Control(), View(), cpu.Timer(), ppu.Lcd(), ppu.sprites.Table())
    }

    method WriteCpu(addr: word, value: byte)
      requires Valid() && PartOf(addr) == ToCpu && addr != 0xff50
      modifies cpu`ieReg, cpu`ifReg, cpu`divReg, cpu`timaReg, cpu`tmaReg, cpu`tacReg, cpu`timaEnabled,
               cpu`tacDivider, cpu`disableBootrom, cpu.wram, cpu.hram
      ensures Valid() && Now() == MachineState.Store(old(Now()), addr, value, Board())
    {
      ViewReads();
      cpu.Write(addr, value);
      ViewReads();
      assert cpu.ifReg == cpu.Read(0xff0f);
      assert View() == old(View())[addr := CpuCore.Stored(addr, value)];
    }

    method WriteCart(addr: word, value: byte)
      requires Valid() && PartOf(addr) == ToCart
      modifies cart.rom, cart.ram
      ensures Valid() && Now() == MachineState.Store(old(Now()), addr, value, Board())
    {
      ghost var mem := View();
      ViewReads();
      cart.Write(addr, value);
      ViewReads();
      forall q: word
        ensures Read(q) == MemoryMap.Written(mem, addr, value, keys, cart.file)[q]
      {
        assert mem[q] == old(Read(q));
      }
    }

    /** The register that hides the boot ROM, kept by the CPU, also reloads the start of the ROM. */
    method HideBootrom(value: byte)
      requires Valid()
      modifies cart.rom, cart.ram, cpu`disableBootrom
      ensures Valid() && Now() == MachineState.Store(old(Now()), 0xff50, value, Board())
    {
      ghost var mem := View();
      ViewReads();
      cpu.disableBootrom := value != 0;
      cart.Write(0xff50, value);
      ViewReads();
      forall q: word
        ensures Read(q) == MemoryMap.Written(mem, 0xff50, value, keys, cart.file)[q]
      {
        assert mem[q] == old(Read(q));
      }
    }

    method WriteIo(addr: word, value: byte)
      requires Valid() && PartOf(addr) == ToIo
      modifies ioregs
      ensures Valid() && Now() == MachineState.Store(old(Now()), addr, value, Board())
    {
      SelectBits(value);
      ViewReads();
      ioregs[addr] := if addr == 0xff00 then value / 16 % 4 * 16 else value;
      ViewReads();
      assert View() == MemoryMap.Written(old(View()), addr, value, keys, cart.file);
    }

    /** monitor_wr_mem. It is entered again only from a DMA transfer, whose writes start none. */
    method Write(addr: word, value: byte)
      requires Valid()
      modifies cpu, cpu.wram, cpu.hram, ppu, ppu.tileData, ppu.tileMap1, ppu.tileMap2, ppu.sprites, ppu.sprites.oam,
               ppu.sprites.hash, cart.rom, cart.ram, ioregs
      ensures Valid() && Now() == MachineState.Store(old(Now()), addr, value, Board())
      decreases if addr == 0xff46 then 1 else 0, 5
    {
      if addr == 0xff50 {
        HideBootrom(value);
      } else if PartOf(addr) == ToCpu {
        WriteCpu(addr, value);
      } else if PartOf(addr) == ToPpu {
        PpuWrite(addr, value);
      } else if PartOf(addr) == ToCart {
        WriteCart(addr, value);
      } else {
        WriteIo(addr, value);
      }
    }

    /** ppu_wr. */
    method PpuWrite(addr: word, value: byte)
      requires Valid() && PartOf(addr) == ToPpu
      modifies cpu, cpu.wram, cpu.hram, ppu, ppu.tileData, ppu.tileMap1, ppu.tileMap2, ppu.sprites, ppu.sprites.oam,
               ppu.sprites.hash, cart.rom, cart.ram, ioregs
      ensures Valid() && Now() == MachineState.Store(old(Now()), addr, value, Board())
      decreases if addr == 0xff46 then 1 else 0, 4
    {
      if addr == 0xff46 {
        Dma(value);
      } else if addr >= 0xff40 {
        WritePpuReg(addr, value);
      } else {
        WriteVideo(addr, value);
      }
    }

    method WritePpuReg(addr: word, value: byte)
      requires Valid() && 0xff40 <= addr <= 0xff4b && addr != 0xff46
      modifies ppu
      ensures Valid() && Now() == MachineState.Store(old(Now()), addr, value, Board())
    {
      ghost var mem := View();
      ViewReads();
      ppu.WriteReg(addr, value);
      ViewReads();
      forall q: word
        ensures Read(q) == MemoryMap.Written(mem, addr, value, keys, cart.file)[q]
      {
        assert mem[q] == old(Read(q));
        assert mem[0xff40] == old(Read(0xff40)) && mem[0xff41] == old(Read(0xff41)) && mem[0xff44] == old(Read(0xff44));
      }
    }

    method WriteVideo(addr: word, value: byte)
      requires Valid() && PartOf(addr) == ToPpu && addr < 0xff40
      modifies ppu.tileData, ppu.tileMap1, ppu.tileMap2, ppu.sprites, ppu.sprites.oam, ppu.sprites.hash
      ensures Valid() && Now() == MachineState.Store(old(Now()), addr, value, Board())
    {
      ViewReads();
      ppu.WriteMemory(addr, value);
      ViewReads();
      assert View() == old(View())[addr := value];
    }

    /** The DMA branch of wr_reg. */
    method Dma(page: byte)
      requires Valid()
      modifies cpu, cpu.wram, cpu.hram, ppu, ppu.tileData, ppu.tileMap1, ppu.tileMap2, ppu.sprites, ppu.sprites.oam,
               ppu.sprites.hash, cart.rom, cart.ram, ioregs
      ensures Valid() && Now() == MachineState.Store(old(Now()), 0xff46, page, Board())
      decreases 1, 3
    {
      ghost var s := Now();
      CopyPage(page * 0x100);
      MachineState.CopiesAll(s, Now(), page, Board());
    }

    method CopyPage(from: nat)
      requires Valid() && from % 0x100 == 0 && from < MemoryMap.SIZE
      modifies cpu, cpu.wram, cpu.hram, ppu, ppu.tileData, ppu.tileMap1, ppu.tileMap2, ppu.sprites, ppu.sprites.oam,
               ppu.sprites.hash, cart.rom, cart.ram, ioregs
      ensures Valid() && MachineState.HasCopied(old(Now()), Now(), from, 0xa0)
      decreases 1, 2
    {
      ghost var s := Now();
      MachineState.CopiesNone(s, from);
      for i := 0 to 0xa0
        invariant Valid() && MachineState.HasCopied(s, Now(), from, i)
      {
        CopyByte(from, i, s);
      }
    }

    /** One turn of the transfer's loop: its store starts no other transfer. */
    method CopyByte(from: nat, i: nat, ghost s: MachineState.Snapshot)
      requires Valid() && i < 0xa0 && from % 0x100 == 0 && from < MemoryMap.SIZE && MachineState.Whole(s)
      requires MachineState.HasCopied(s, Now(), from, i)
      modifies cpu, cpu.wram, cpu.hram, ppu, ppu.tileData, ppu.tileMap1, ppu.tileMap2, ppu.sprites, ppu.sprites.oam,
               ppu.sprites.hash, cart.rom, cart.ram, ioregs
      ensures Valid() && MachineState.HasCopied(s, Now(), from, i + 1)
      decreases 1, 1
    {
      BytesRead(ioregs.Length + 1, from + i);
      MachineState.CopiesNext(s, Now(), from, i, Board());
      Write(0xfe00 + i, Read(from + i));
    }

    ghost function Core(): StackDiscipline.Core
      requires Mapped()
      reads this`keys, cpu`a, cpu`f, cpu`b, cpu`c, cpu`d, cpu`e, cpu`h, cpu`l, cpu`sp, cpu`pc,
            cpu`imeEnabled, cpu`isHalted, cpu`ieReg, cpu`ifReg, cpu`divReg, cpu`timaReg, cpu`tmaReg, cpu`tacReg,
            cpu`disableBootrom, ppu, cpu.wram, cpu.hram, ppu.tileData, ppu.tileMap1, ppu.tileMap2, ppu.sprites.oam,
            cart.rom, cart.ram, ioregs
    {
      var k := cpu.Control();
      StackDiscipline.Core(k.regs, k.sp, k.pc, View())
    }

    lemma IrqInView()
      requires Mapped()
      ensures View()[0xff0f] == cpu.ifReg && View()[0xffff] == cpu.ieReg
    {
      ViewReads();
      assert Read(0xff0f) == cpu.ifReg && Read(0xffff) == cpu.ieReg;
    }

    // ---------- the stack ----------

    /** RD_WORD. */
    method ReadWord(addr: word) returns (w: word)
      requires Mapped()
      ensures w == StackDiscipline.WordAt(View(), addr)
    {
      ViewReads();
      w := MakeWord(Read(Up(addr, 1)), Read(addr));
    }

    /** WR_WORD: the low byte first. */
    method WriteWord(addr: word, w: word)
      requires Valid()
      modifies cpu, cpu.wram, cpu.hram, ppu, ppu.tileData, ppu.tileMap1, ppu.tileMap2, ppu.sprites, ppu.sprites.oam,
               ppu.sprites.hash, cart.rom, cart.ram, ioregs
      ensures Valid() && Now() == MachineState.StoreWord(old(Now()), addr, w, Board())
    {
      Write(addr, w % 0x100);
      Write(Up(addr, 1), w / 0x100);
    }

    method PushWord(w: word)
      requires Valid()
      modifies cpu, cpu.wram, cpu.hram, ppu, ppu.tileData, ppu.tileMap1, ppu.tileMap2, ppu.sprites, ppu.sprites.oam,
               ppu.sprites.hash, cart.rom, cart.ram, ioregs
      ensures Valid() && Now() == MachineState.Push(old(Now()), w, Board())
    {
      var low := Down(cpu.sp, 2);
      SetSp(low);
      WriteWord(low, w);
    }

    method SetSp(sp: word)
      requires Valid()
      modifies cpu`sp
      ensures Valid() && Now() == old(Now()).(control := old(cpu.Control()).(sp := sp))
    {
      cpu.sp := sp;
    }

    /** A push of `w` and a jump, as in CALL, RST and the entry to an interrupt. */
    method Enter(w: word, target: word)
      requires Valid()
      modifies cpu, cpu.wram, cpu.hram, ppu, ppu.tileData, ppu.tileMap1, ppu.tileMap2, ppu.sprites, ppu.sprites.oam,
               ppu.sprites.hash, cart.rom, cart.ram, ioregs
      ensures Valid() && Now() == MachineState.Enter(old(Now()), w, target, Board())
    {
      PushWord(w);
      SetPc(target);
    }

    method SetPc(pc: word)
      requires Valid()
      modifies cpu`pc
      ensures Valid() && Now() == old(Now()).(control := old(cpu.Control()).(pc := pc))
    {
      cpu.pc := pc;
    }

    /** PUSH of a pair, from anywhere in memory; in plain memory it is that of the stack model. */
    method Push(reg: StackDiscipline.Reg)
      requires Valid()
      modifies cpu, cpu.wram, cpu.hram, ppu, ppu.tileData, ppu.tileMap1, ppu.tileMap2, ppu.sprites, ppu.sprites.oam,
               ppu.sprites.hash, cart.rom, cart.ram, ioregs
      ensures Valid() && Now() == MachineState.Push(old(Now()), StackDiscipline.Get(old(cpu.Regs()), reg), Board())
      ensures MemoryMap.PushesToRam(old(cpu.sp)) ==>
                MachineState.CoreOf(Now()) ==
                StackDiscipline.Exec(MachineState.CoreOf(old(Now())), StackDiscipline.Push(reg))
    {
      ghost var s := Now();
      if MemoryMap.PushesToRam(cpu.sp) {
        MachineState.PlainPush(s, cpu.Pair(reg), Board());
      }
      PushWord(cpu.Pair(reg));
    }

    /** POP of a pair. */
    method Pop(reg: StackDiscipline.Reg)
      requires Mapped()
      modifies cpu`sp, cpu`a, cpu`f, cpu`b, cpu`c, cpu`d, cpu`e, cpu`h, cpu`l
      ensures Core() == StackDiscipline.Exec(old(Core()), StackDiscipline.Pop(reg))
      ensures old(cpu.f) % 16 == 0 ==> cpu.f % 16 == 0
    {
      ghost var mem := View();
      var w := ReadWord(cpu.sp);
      cpu.SetPair(reg, w);
      assert View() == mem;
      cpu.sp := Up(cpu.sp, 2);
    }

    /** CALL of the address that follows the opcode. */
    method Call() returns (target: word)
      requires Valid()
      modifies cpu, cpu.wram, cpu.hram, ppu, ppu.tileData, ppu.tileMap1, ppu.tileMap2, ppu.sprites, ppu.sprites.oam,
               ppu.sprites.hash, cart.rom, cart.ram, ioregs
      ensures Valid() && target == StackDiscipline.WordAt(old(View()), old(cpu.pc))
      ensures Now() == MachineState.Called(old(Now()), target, Board())
      ensures MemoryMap.PushesToRam(old(cpu.sp)) ==>
                MachineState.CoreOf(Now()) ==
                StackDiscipline.Exec(MachineState.CoreOf(old(Now())), StackDiscipline.Call(target))
    {
      ghost var s := Now();
      target := ReadWord(cpu.pc);
      assert Now() == s;
      MachineState.PlainCall(s, target, Board());
      CallTo(target);
    }

    method CallTo(target: word)
      requires Valid()
      modifies cpu, cpu.wram, cpu.hram, ppu, ppu.tileData, ppu.tileMap1, ppu.tileMap2, ppu.sprites, ppu.sprites.oam,
               ppu.sprites.hash, cart.rom, cart.ram, ioregs
      ensures Valid() && Now() == MachineState.Called(old(Now()), target, Board())
    {
      Enter(Up(cpu.pc, 2), target);
    }

    /** RET. */
    method Ret()
      requires Mapped()
      modifies cpu`sp, cpu`pc
      ensures Core() == StackDiscipline.Exec(old(Core()), StackDiscipline.Return)
    {
      var addr := ReadWord(cpu.sp);
      cpu.pc := addr;
      cpu.sp := Up(cpu.sp, 2);
    }

    /** RETI: a return that enables the interrupts. */
    method Reti()
      requires Mapped()
      modifies cpu`sp, cpu`pc, cpu`imeEnabled
      ensures Core() == StackDiscipline.Exec(old(Core()), StackDiscipline.Return)
      ensures cpu.imeEnabled
    {
      Ret();
      cpu.imeEnabled := true;
    }

    /** RST. */
    method Restart(target: word)
      requires Valid()
      modifies cpu, cpu.wram, cpu.hram, ppu, ppu.tileData, ppu.tileMap1, ppu.tileMap2, ppu.sprites, ppu.sprites.oam,
               ppu.sprites.hash, cart.rom, cart.ram, ioregs
      ensures Valid() && Now() == MachineState.Enter(old(Now()), old(cpu.pc), target, Board())
      ensures MemoryMap.PushesToRam(old(cpu.sp)) ==>
                MachineState.CoreOf(Now()) ==
                StackDiscipline.Exec(MachineState.CoreOf(old(Now())), StackDiscipline.Restart(target))
    {
      MachineState.PlainRestart(Now(), target, Board());
      Enter(cpu.pc, target);
    }

    // ---------- interrupts ----------

    /** Taking a request: no further interrupts, the CPU awake, the request cleared. */
    method Acknowledge(mask: nat, ghost n: nat)
      requires Valid() && n < 8 && mask == Power2(n)
      modifies cpu`ifReg, cpu`imeEnabled, cpu`isHalted
      ensures Valid() && Now() == MachineState.Acknowledge(old(Now()), n)
    {
      ViewReads();
      cpu.imeEnabled := false;
      cpu.ifReg := Clear(cpu.ifReg, mask);
      cpu.isHalted := false;
      ViewReads();
      assert View() == old(View())[0xff0f := Clear(old(cpu.ifReg), mask)];
    }

    /** process_intr. */
    method ProcessIntr(mask: nat, ghost n: nat)
      requires Valid() && n < 5 && mask == Power2(n)
      modifies cpu, cpu.wram, cpu.hram, ppu, ppu.tileData, ppu.tileMap1, ppu.tileMap2, ppu.sprites, ppu.sprites.oam,
               ppu.sprites.hash, cart.rom, cart.ram, ioregs
      ensures Valid() && Now() == MachineState.Enter(old(Now()), old(cpu.pc), Interrupts.Vector(n), Board())
    {
      var vector: word := match mask
        case 1 => 0x40
        case 2 => 0x48
        case 4 => 0x50
        case 8 => 0x58
        case _ => 0x60;
      Enter(cpu.pc, vector);
    }

    /** What handle_intrs does about one pending request. */
    method ServeBit(mask: nat, ghost n: nat)
      requires Valid() && n < 8 && mask == Power2(n) && Interrupts.Pending(cpu.ifReg, cpu.ieReg, n)
      modifies cpu, cpu.wram, cpu.hram, ppu, ppu.tileData, ppu.tileMap1, ppu.tileMap2, ppu.sprites, ppu.sprites.oam,
               ppu.sprites.hash, cart.rom, cart.ram, ioregs
      ensures Valid() && Now() == MachineState.Serve(old(Now()), n, Board())
    {
      BelowFive(cpu.ifReg, n);
      if cpu.imeEnabled {
        Acknowledge(mask, n);
        ProcessIntr(mask, n);
      } else {
        cpu.isHalted := false;
      }
    }

    /** One turn of the loop over the requests. */
    method TryBit(mask: nat, ghost n: nat, ghost was: MachineState.Snapshot)
      requires Valid() && n < 8 && mask == Power2(n) && MachineState.Whole(was)
      requires Now() == MachineState.Scanned(was, n, Board())
      modifies cpu, cpu.wram, cpu.hram, ppu, ppu.tileData, ppu.tileMap1, ppu.tileMap2, ppu.sprites, ppu.sprites.oam,
               ppu.sprites.hash, cart.rom, cart.ram, ioregs
      ensures Valid() && Now() == MachineState.Scanned(was, n + 1, Board())
    {
      IrqInView();
      if Has(cpu.ifReg, mask) && Has(cpu.ieReg, mask) {
        ServeBit(mask, n);
      }
    }

    /** The loop over the eight requests. */
    method ScanRequests()
      requires Valid()
      modifies cpu, cpu.wram, cpu.hram, ppu, ppu.tileData, ppu.tileMap1, ppu.tileMap2, ppu.sprites, ppu.sprites.oam,
               ppu.sprites.hash, cart.rom, cart.ram, ioregs
      ensures Valid() && Now() == MachineState.Scanned(old(Now()), 8, Board())
    {
      ghost var was := Now();
      ghost var n := 0;
      var mask: nat := 1;
      while mask != 0
        invariant n <= 8 && mask == Interrupts.MaskFrom(n)
        invariant Valid() && Now() == MachineState.Scanned(was, n, Board())
        decreases 8 - n
      {
        Interrupts.NextMask(n);
        TryBit(mask, n, was);
        mask := Byte(2 * mask);
        n := n + 1;
      }
    }

    /** handle_intrs, wherever the stack lies. */
    method HandleIntrs()
      requires Valid()
      modifies cpu, cpu.wram, cpu.hram, ppu, ppu.tileData, ppu.tileMap1, ppu.tileMap2, ppu.sprites, ppu.sprites.oam,
               ppu.sprites.hash, cart.rom, cart.ram, ioregs
      ensures Valid() && Now() == MachineState.HandleIntrs(old(Now()), Board())
      ensures MemoryMap.PushesToRam(old(cpu.sp)) ==> MachineState.Handled(old(Now()), Now())
    {
      IrqInView();
      ghost var s := Now();
      if MemoryMap.PushesToRam(cpu.sp) {
        MachineState.HandlingLeaves(s, Board());
      }
      HandleRequests();
    }

    method HandleRequests()
      requires Valid()
      modifies cpu, cpu.wram, cpu.hram, ppu, ppu.tileData, ppu.tileMap1, ppu.tileMap2, ppu.sprites, ppu.sprites.oam,
               ppu.sprites.hash, cart.rom, cart.ram, ioregs
      ensures Valid() && Now() == MachineState.HandleIntrs(old(Now()), Board())
    {
      if cpu.imeEnabled || cpu.isHalted {
        ScanRequests();
      }
    }

    // ---------- the step ----------

    method NextByte() returns (v: byte)
      requires Mapped()
      modifies cpu`pc
      ensures v == View()[old(cpu.pc)]
      ensures Core() == old(Core()).(pc := Up(old(cpu.pc), 1))
    {
      ViewReads();
      v := Read(cpu.pc);
      cpu.pc := Up(cpu.pc, 1);
    }

    /** The fetch of cpu_exec_next: an opcode, or the one after a prefix. */
    method Fetch() returns (op: byte, prefixed: bool)
      requires Mapped()
      modifies cpu`pc
      ensures prefixed <==> View()[old(cpu.pc)] == 0xcb
      ensures op == View()[if prefixed then Up(old(cpu.pc), 1) else old(cpu.pc)]
      ensures Core() == old(Core()).(pc := Up(old(cpu.pc), if prefixed then 2 else 1))
    {
      op := NextByte();
      prefixed := false;
      if op == OPCODE_PREFIX {
        op := NextByte();
        prefixed := true;
      }
    }

    method TickCpu(cycles: byte)
      requires Valid() && cycles <= 6
      modifies cpu`divReg, cpu`divCounter, cpu`timaReg, cpu`tacCounter, cpu`ifReg, cpu`timerRequests
      ensures Valid() && cpu.Control() == old(cpu.Control())
      ensures cpu.Timer() == Timers.Tick(old(cpu.Timer()), cycles)
      ensures cpu.ifReg ==
              if cpu.timerRequests > old(cpu.timerRequests) then With(old(cpu.ifReg), 4) else old(cpu.ifReg)
    {
      cpu.TickTimers(cycles);
    }

    /** The timer part of cpu_exec_next. */
    method Tick(cycles: byte)
      requires Valid() && cycles <= 6
      modifies cpu`divReg, cpu`divCounter, cpu`timaReg, cpu`tacCounter, cpu`ifReg, cpu`timerRequests
      ensures Valid() && Now() == MachineState.Tick(old(Now()), cycles)
    {
      hide ReadSteady;
      ghost var mem: seq<byte> := View();
      ViewReadsSteady();
      ClockCells();
      TickCpu(cycles);
      ViewReadsSteady();
      ClockCells();
      assert forall q: word | MemoryMap.IsSteady(q) :: View()[q] == mem[q];
      assert View() == MachineState.TimersWritten(mem, cpu.divReg, cpu.timaReg, cpu.ifReg);
    }

    /** The cells that time changes. */
    lemma ClockCells()
      requires Mapped()
      ensures View()[0xff04] == cpu.divReg && View()[0xff05] == cpu.timaReg && View()[0xff0f] == cpu.ifReg
      ensures View()[0xff41] == ppu.stat && View()[0xff44] == ppu.ly
    {
      ViewReads();
      assert Read(0xff04) == cpu.divReg && Read(0xff05) == cpu.timaReg && Read(0xff0f) == cpu.ifReg;
      assert Read(0xff41) == ppu.stat && Read(0xff44) == ppu.ly;
    }

    /** cpu_exec_next after the instruction: timers, then interrupts. */
    method FinishExec(cycles: byte)
      requires Valid() && cycles <= 6
      modifies cpu, cpu.wram, cpu.hram, ppu, ppu.tileData, ppu.tileMap1, ppu.tileMap2, ppu.sprites, ppu.sprites.oam,
               ppu.sprites.hash, cart.rom, cart.ram, ioregs
      ensures Valid() && Now() == MachineState.FinishExec(old(Now()), cycles, Board())
    {
      Tick(cycles);
      HandleIntrs();
    }

    lemma VideoInView()
      requires Mapped()
      ensures ppu.Video() == MachineState.VideoOf(View(), ppu.ly)
    {
      ViewReads();
      assert Read(0xff40) == ppu.lcdc && Read(0xff42) == ppu.scy && Read(0xff43) == ppu.scx;
      assert Read(0xff47) == ppu.bgp && Read(0xff48) == ppu.obp0 && Read(0xff49) == ppu.obp1;
      assert Read(0xff4a) == ppu.wy && Read(0xff4b) == ppu.wx;
      assert forall i | 0 <= i < 0x1800 :: ppu.tileData[i] == Read(0x8000 + i);
      assert forall i | 0 <= i < 0x400 :: ppu.tileMap1[i] == Read(0x9800 + i);
      assert forall i | 0 <= i < 0x400 :: ppu.tileMap2[i] == Read(0x9c00 + i);
      assert ppu.tileData[..] == View()[0x8000..0x9800];
      assert ppu.tileMap1[..] == View()[0x9800..0x9c00];
      assert ppu.tileMap2[..] == View()[0x9c00..0xa000];
    }

    method RunPpu(cycles: byte)
      requires Valid() && MachineState.LineFits(ppu.Lcd())
      modifies ppu`ly, ppu`stat, ppu`log, ppu`vblankDots, ppu`dotsRemaining, ppu`mode, ppu`frameCount, cpu`ifReg,
               ppu.screen
      ensures Valid() && cpu.Control() == old(cpu.Control()) && cpu.Timer() == old(cpu.Timer())
      ensures ppu.Lcd() == LcdTiming.Refresh(old(ppu.Lcd()), cycles)
      ensures ppu.sprites.Table() == old(ppu.sprites.Table())
      ensures ppu.screen[..] == if old(ppu.mode) == LcdTiming.Draw && ppu.mode == LcdTiming.HBlank
                                then PpuCore.WithLine(old(ppu.screen[..]), old(ppu.Video()), old(ppu.sprites.Table()))
                                else old(ppu.screen[..])
    {
      ppu.Refresh(cycles);
    }

    /** ppu_refresh. */
    method RefreshPpu(cycles: byte)
      requires Valid() && MachineState.LineFits(ppu.Lcd())
      modifies ppu`ly, ppu`stat, ppu`log, ppu`vblankDots, ppu`dotsRemaining, ppu`mode, ppu`frameCount, cpu`ifReg,
               ppu.screen
      ensures Valid() && Now() == MachineState.Refresh(old(Now()), cycles)
      ensures ppu.screen[..] == MachineState.Drawn(old(ppu.screen[..]), old(Now()), cycles)
    {
      VideoInView();
      RefreshMemory(cycles);
    }

    method RefreshMemory(cycles: byte)
      requires Valid() && MachineState.LineFits(ppu.Lcd())
      modifies ppu`ly, ppu`stat, ppu`log, ppu`vblankDots, ppu`dotsRemaining, ppu`mode, ppu`frameCount, cpu`ifReg,
               ppu.screen
      ensures Valid() && Now() == MachineState.Refresh(old(Now()), cycles)
      ensures ppu.screen[..] == if old(ppu.mode) == LcdTiming.Draw && ppu.mode == LcdTiming.HBlank
                                then PpuCore.WithLine(old(ppu.screen[..]), old(ppu.Video()), old(ppu.sprites.Table()))
                                else old(ppu.screen[..])
    {
      hide ReadSteady;
      ghost var mem: seq<byte> := View();
      ViewReadsSteady();
      ClockCells();
      RunPpu(cycles);
      ViewReadsSteady();
      ClockCells();
      assert forall q: word | MemoryMap.IsSteady(q) :: View()[q] == mem[q];
      assert View() == MachineState.DisplayWritten(mem, ppu.Lcd());
    }

    /** exec_next after the instruction. */
    method FinishStep(cycles: byte)
      requires Valid() && cycles <= 6
      requires MachineState.LineFits(MachineState.FinishExec(Now(), cycles, Board()).lcd)
      modifies cpu, cpu.wram, cpu.hram, ppu, ppu.tileData, ppu.tileMap1, ppu.tileMap2, ppu.sprites, ppu.sprites.oam,
               ppu.sprites.hash, cart.rom, cart.ram, ioregs, ppu.screen
      ensures Valid() && Now() == MachineState.FinishStep(old(Now()), cycles, Board())
      ensures ppu.screen[..] ==
              MachineState.Drawn(old(ppu.screen[..]), MachineState.FinishExec(old(Now()), cycles, Board()), cycles)
    {
      FinishExec(cycles);
      RefreshPpu(cycles);
    }

    // ---------- runs ----------

    /** HALT. */
    method ExecHalt() returns (cycles: byte)
      requires Valid()
      modifies cpu`isHalted
      ensures Valid() && Now() == old(Now()).(control := old(cpu.Control()).(halted := true)) && cycles == 1
    {
      cpu.Halt();
      cycles := 1;
    }

    /**
     The emulation loop while the CPU is halted, up to the call that wakes it. It ends within 5841
     calls, wherever the stack lies; `last` is the state before the last of them.
     */
    method RunWhileHalted() returns (calls: nat, ghost last: MachineState.Snapshot)
      requires Valid() && Halt.Waiting(MachineState.ClockOf(Now()))
      modifies cpu, cpu.wram, cpu.hram, ppu, ppu.tileData, ppu.tileMap1, ppu.tileMap2, ppu.sprites, ppu.sprites.oam,
               ppu.sprites.hash, cart.rom, cart.ram, ioregs, ppu.screen
      ensures Valid() && !cpu.isHalted && 1 <= calls <= 5841
      ensures MachineState.HaltedFor(old(Now()), last, calls - 1)
      ensures Now() == MachineState.FinishExec(last, Halt.HALT_CYCLES, Board())
    {
      hide MachineState.FinishExec, MachineState.HaltedFor, MachineState.ClockOf, MachineState.LineFits,
        MachineState.Refresh, Halt.Waiting, Halt.CallsLeft;
      ghost var s := Now();
      last, calls := s, 1;
      FirstHalted();
      while cpu.isHalted
        invariant Valid() && 1 <= calls <= Halt.CallsLeft(MachineState.ClockOf(s)) <= 5841
        invariant MachineState.HaltedFor(s, last, calls - 1)
        invariant Now() == MachineState.FinishExec(last, Halt.HALT_CYCLES, Board())
        decreases Halt.CallsLeft(MachineState.ClockOf(s)) - calls
      {
        last := HaltedTurn(s, last, calls);
        calls := calls + 1;
      }
    }

    /** The CPU's part of the first call. */
    method FirstHalted()
      requires Valid() && Halt.Waiting(MachineState.ClockOf(Now()))
      modifies cpu, cpu.wram, cpu.hram, ppu, ppu.tileData, ppu.tileMap1, ppu.tileMap2, ppu.sprites, ppu.sprites.oam,
               ppu.sprites.hash, cart.rom, cart.ram, ioregs
      ensures Valid() && MachineState.HaltedFor(old(Now()), old(Now()), 0)
      ensures 1 <= Halt.CallsLeft(MachineState.ClockOf(old(Now()))) <= 5841
      ensures Now() == MachineState.FinishExec(old(Now()), Halt.HALT_CYCLES, Board())
    {
      hide MachineState.FinishExec, MachineState.HaltedFor, MachineState.ClockOf, Halt.Waiting, Halt.CallsLeft;
      MachineState.HaltGoesOn(Now(), Now(), 0, Board());
      FinishExec(Halt.HALT_CYCLES);
    }

    /** The PPU's part of a call that has not woken the CPU, and the CPU's part of the next. */
    method HaltedTurn(ghost s: MachineState.Snapshot, ghost last: MachineState.Snapshot, calls: nat)
      returns (ghost next: MachineState.Snapshot)
      requires Valid() && cpu.isHalted && calls > 0 && MachineState.Whole(s) && Halt.Waiting(MachineState.ClockOf(s))
      requires MachineState.HaltedFor(s, last, calls - 1)
      requires Now() == MachineState.FinishExec(last, Halt.HALT_CYCLES, Board())
      modifies cpu, cpu.wram, cpu.hram, ppu, ppu.tileData, ppu.tileMap1, ppu.tileMap2, ppu.sprites, ppu.sprites.oam,
               ppu.sprites.hash, cart.rom, cart.ram, ioregs, ppu.screen
      ensures Valid() && calls + 1 <= Halt.CallsLeft(MachineState.ClockOf(s)) <= 5841
      ensures MachineState.HaltedFor(s, next, calls)
      ensures Now() == MachineState.FinishExec(next, Halt.HALT_CYCLES, Board())
    {
      hide MachineState.FinishExec, MachineState.HaltedFor, MachineState.Refresh, MachineState.ClockOf,
        Halt.Waiting, Halt.CallsLeft, MachineState.Whole, MachineState.Drawn;
      MachineState.HaltGoesOn(s, last, calls - 1, Board());
      RefreshPpu(Halt.HALT_CYCLES);
      next := Now();
      MachineState.HaltGoesOn(s, next, calls, Board());
      FinishExec(Halt.HALT_CYCLES);
    }

    method SetControl(k: CpuCore.Control)
      requires Valid() && k.regs.af % 16 == 0
      modifies cpu`a, cpu`f, cpu`b, cpu`c, cpu`d, cpu`e, cpu`h, cpu`l, cpu`sp, cpu`pc, cpu`imeEnabled, cpu`isHalted
      ensures Valid() && Now() == old(Now()).(control := k)
    {
      ghost var mem := View();
      cpu.SetControl(k);
      assert View() == mem;
    }

    method StoreAll(stores: seq<StackDiscipline.Store>)
      requires Valid()
      modifies cpu, cpu.wram, cpu.hram, ppu, ppu.tileData, ppu.tileMap1, ppu.tileMap2, ppu.sprites, ppu.sprites.oam,
               ppu.sprites.hash, cart.rom, cart.ram, ioregs
      ensures Valid() && Now() == MachineState.StoreAll(old(Now()), stores, Board())
    {
      ghost var s := Now();
      for n := 0 to |stores|
        invariant Valid() && Now() == MachineState.StoreAll(s, stores[..n], Board())
      {
        assert stores[..n + 1][..n] == stores[..n];
        Write(stores[n].addr, stores[n].value);
      }
      assert stores[..|stores|] == stores;
    }

    /** The instruction itself, which a halted CPU does not execute, and its cycles. */
    method Execute(i: MachineState.Instruction) returns (cycles: byte)
      requires Valid() && i.control.regs.af % 16 == 0
      modifies cpu, cpu.wram, cpu.hram, ppu, ppu.tileData, ppu.tileMap1, ppu.tileMap2, ppu.sprites, ppu.sprites.oam,
               ppu.sprites.hash, cart.rom, cart.ram, ioregs
      ensures Valid() && Now() == MachineState.Execute(old(Now()), i, Board())
      ensures cycles == MachineState.CyclesOf(old(Now()), i)
    {
      cycles := Halt.HALT_CYCLES;
      if !cpu.isHalted {
        StoreAll(i.stores);
        SetControl(i.control);
        cycles := i.cycles;
      }
    }

    /** One turn of the emulation loop. */
    method Step(i: MachineState.Instruction)
      requires Valid() && MachineState.Legal(i)
      requires MachineState.LineFits(MachineState.Executed(Now(), i, Board()).lcd)
      modifies cpu, cpu.wram, cpu.hram, ppu, ppu.tileData, ppu.tileMap1, ppu.tileMap2, ppu.sprites, ppu.sprites.oam,
               ppu.sprites.hash, cart.rom, cart.ram, ioregs, ppu.screen
      ensures Valid() && Now() == MachineState.Step(old(Now()), i, Board())
      ensures ppu.screen[..] ==
              MachineState.Drawn(old(ppu.screen[..]), MachineState.Executed(old(Now()), i, Board()),
                                 MachineState.CyclesOf(old(Now()), i))
    {
      var cycles := Execute(i);
      FinishStep(cycles);
    }

    method RunSteps(program: seq<MachineState.Instruction>)
      requires Valid() && forall n | 0 <= n < |program| :: MachineState.Legal(program[n])
      requires MachineState.DrawsInside(Now(), program, Board())
      modifies cpu, cpu.wram, cpu.hram, ppu, ppu.tileData, ppu.tileMap1, ppu.tileMap2, ppu.sprites, ppu.sprites.oam,
               ppu.sprites.hash, cart.rom, cart.ram, ioregs, ppu.screen
      ensures Valid() && Now() == MachineState.Steps(old(Now()), program, Board())
      ensures ppu.screen[..] == MachineState.FrameAfter(old(ppu.screen[..]), old(Now()), program, Board())
    {
      hide MachineState.Step, MachineState.Drawn, MachineState.Legal, MachineState.LineFits, MachineState.Executed;
      ghost var s, frame := Now(), ppu.screen[..];
      for n := 0 to |program|
        invariant Valid() && Now() == MachineState.Steps(s, program[..n], Board())
        invariant ppu.screen[..] == MachineState.FrameAfter(frame, s, program[..n], Board())
      {
        assert program[..n + 1][..n] == program[..n];
        assert MachineState.DrawsAt(s, program, n, Board());
        Step(program[n]);
      }
      assert program[..|program|] == program;
    }

    /**
     The emulation loop over any program that leaves the LCD on and does not write LY: the frame is
     that of the lines drawn, the machine stays on the frame schedule that began at position `from`
     of the log, frame_count counts its whole frames, and the dots to the next VBLANK tell the
     cycles that have passed and the VBLANKs requested.
     */
    method Run(program: seq<MachineState.Instruction>, ghost from: nat)
      requires Valid() && forall n | 0 <= n < |program| :: MachineState.Ordinary(program[n])
      requires LcdTiming.Timed(ppu.Lcd()) && MachineState.StackSafe(cpu.Control())
      requires LcdTiming.OnSchedule(ppu.Lcd(), from)
      modifies cpu, cpu.wram, cpu.hram, ppu, ppu.tileData, ppu.tileMap1, ppu.tileMap2, ppu.sprites, ppu.sprites.oam,
               ppu.sprites.hash, cart.rom, cart.ram, ioregs, ppu.screen
      ensures Valid() && Now() == MachineState.Steps(old(Now()), program, Board())
      ensures ppu.screen[..] == MachineState.FrameAfter(old(ppu.screen[..]), old(Now()), program, Board())
      ensures LcdTiming.Timed(ppu.Lcd()) && LcdTiming.OnSchedule(ppu.Lcd(), from) && old(ppu.log) <= ppu.log
      ensures ppu.frameCount - LcdTiming.FramesSince(ppu.Lcd(), from) ==
              old(ppu.frameCount) - LcdTiming.FramesSince(old(ppu.Lcd()), from)
      ensures LcdTiming.Measure(ppu.Lcd()) ==
              LcdTiming.Measure(old(ppu.Lcd())) - 4 * MachineState.Cycles(old(Now()), program, Board())
              + LcdTiming.FRAME_DOTS * (LcdTiming.Vblanks(ppu.log) - LcdTiming.Vblanks(old(ppu.log)))
    {
      MachineState.ProgramFollowsSchedule(Now(), from, program, Board());
      MachineState.OrdinaryDrawsInside(Now(), program, Board());
      RunSteps(program);
    }
  }

  /** A new machine whose LCD has been turned on, which is where its schedule begins. */
  method SwitchOn(file: seq<byte>, lcdc: byte) returns (m: Machine)
    requires Has(lcdc, 0x80)
    ensures fresh(m) && m.Valid() && m.Board() == MachineState.InitialBoard(file)
    ensures m.Now() == MachineState.Store(MachineState.Initial(), 0xff40, lcdc, m.Board())
    ensures m.ppu.screen[..] == PpuCore.Blank()
    ensures fresh(m.cpu) && fresh(m.cpu.wram) && fresh(m.cpu.hram) && fresh(m.ppu) && fresh(m.ppu.tileData)
    ensures fresh(m.ppu.tileMap1) && fresh(m.ppu.tileMap2) && fresh(m.ppu.screen) && fresh(m.ppu.sprites)
    ensures fresh(m.ppu.sprites.oam) && fresh(m.ppu.sprites.hash) && fresh(m.cart.rom) && fresh(m.cart.ram)
    ensures fresh(m.ioregs)
  {
    m := new Machine(file);
    m.Write(0xff40, lcdc);
  }

  /**
   From power-on: a new machine, the write of LCDC that turns the LCD on, and a program. The whole
   log is the schedule, frame_count the number of its whole frames, and the first VBLANK comes
   after 65520 dots.
   */
  method PowerOn(file: seq<byte>, lcdc: byte, program: seq<MachineState.Instruction>) returns (m: Machine)
    requires Has(lcdc, 0x80) && forall n | 0 <= n < |program| :: MachineState.Ordinary(program[n])
    ensures fresh(m) && m.Valid() && m.Board() == MachineState.InitialBoard(file)
    ensures LcdTiming.Timed(m.ppu.Lcd()) && LcdTiming.FollowsSchedule(m.ppu.log)
    ensures m.ppu.frameCount == |m.ppu.log| / LcdTiming.FRAME_EVENTS
    ensures var start := MachineState.Store(MachineState.Initial(), 0xff40, lcdc, m.Board());
            && m.Now() == MachineState.Steps(start, program, m.Board())
            && m.ppu.screen[..] == MachineState.FrameAfter(PpuCore.Blank(), start, program, m.Board())
            && LcdTiming.Measure(m.ppu.Lcd()) ==
                 65520 - 4 * MachineState.Cycles(start, program, m.Board())
                 + LcdTiming.FRAME_DOTS * LcdTiming.Vblanks(m.ppu.log)
  {
    hide LcdTiming.Timed, LcdTiming.Measure, LcdTiming.OnSchedule, LcdTiming.FramesSince, LcdTiming.Vblanks,
      MachineState.StackSafe, MachineState.Ordinary, MachineState.FrameAfter, MachineState.Steps, MachineState.Store;
    m := SwitchOn(file, lcdc);
    MachineState.PoweredOn(lcdc, m.Board());
    m.Run(program, 0);
    LcdTiming.WholeLog(m.ppu.Lcd());
  }

  /**
   From power-on, any program that does not write LY, however often it turns the LCD on and off:
   the log is made of stretches of the schedule, and frame_count counts the frames that ended.
   */
  method Play(file: seq<byte>, program: seq<MachineState.Instruction>) returns (m: Machine)
    requires forall n | 0 <= n < |program| :: MachineState.LeavesLy(program[n])
    ensures fresh(m) && m.Valid() && m.Board() == MachineState.InitialBoard(file)
    ensures m.Now() == MachineState.Steps(MachineState.Initial(), program, m.Board())
    ensures m.ppu.screen[..] ==
            MachineState.FrameAfter(PpuCore.Blank(), MachineState.Initial(), program, m.Board())
    ensures LcdTiming.Scheduled(m.ppu.Lcd()) && LcdTiming.Sessions(m.ppu.log)
    ensures m.ppu.frameCount == LcdTiming.Count(m.ppu.log, LcdTiming.FrameDone)
  {
    hide LcdTiming.Sessions, LcdTiming.Scheduled, LcdTiming.Count, MachineState.FrameAfter, MachineState.Steps,
      MachineState.DrawsInside;
    m := new Machine(file);
    MachineState.EverySession(program, m.Board());
    m.RunSteps(program);
  }

  lemma BelowFive(ifReg: byte, n: nat)
    requires ifReg <= 0x1f && n < 8 && Has(ifReg, Power2(n))
    ensures n < 5
  {
    assert Has(ifReg, 32) == Has(ifReg, 64) == Has(ifReg, 128) == false;
  }
}
