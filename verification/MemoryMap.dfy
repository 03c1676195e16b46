/** The address space as one flat memory of 64 KiB, and what a write does to it. */
module MemoryMap {
  import opened Bytes
  import Cartridge
  import CpuCore
  import LcdTiming
  import StackDiscipline

  const SIZE: nat := 0x1_0000

  /** Cells with a meaning of their own; every other cell from 0x8000 up is plain memory. */
  predicate IsRegister(addr: word) {
    || addr == 0xff00 || addr == 0xff0f || addr == 0xff50 || addr == 0xffff
    || 0xff04 <= addr <= 0xff07
    || 0xff40 <= addr <= 0xff4b
  }

  /** Video memory, OAM, external, work and high RAM, and the unassigned cells. */
  predicate IsRam(addr: word) { addr >= 0x8000 && !IsRegister(addr) }

  /** Every cell but DIV, TIMA, IF, STAT and LY, which change as time passes. */
  predicate IsSteady(addr: word) {
    addr != 0xff04 && addr != 0xff05 && addr != 0xff0f && addr != 0xff41 && addr != 0xff44
  }

  /** The released keys, as nibbles: start, select, B, A and down, up, left, right. */
  datatype Keys = Keys(buttons: nat, pad: nat)

  /** What a read of 0xff00 gives when the two select bits there are `select`. */
  function Joypad(select: nat, keys: Keys): (r: nat)
    requires select < 4 && keys.buttons < 16 && keys.pad < 16
    ensures r < 0x40
  {
    if select == 3 then 0x3f else 16 * select + if select % 2 == 1 then keys.buttons else keys.pad
  }

  /** n bytes copied from `from` to the start of OAM. */
  function Copied(mem: seq<byte>, from: nat, n: nat): (m: seq<byte>)
    requires |mem| == SIZE && n <= 0xa0 && from + n <= SIZE
    ensures |m| == SIZE
  {
    mem[..0xfe00] + mem[from..from + n] + mem[0xfe00 + n..]
  }

  /** Copying one byte more, from a page that may be OAM's own. */
  lemma CopiedNext(mem: seq<byte>, from: nat, n: nat)
    requires |mem| == SIZE && n < 0xa0 && from % 0x100 == 0 && from < SIZE
    ensures var m := Copied(mem, from, n);
            m[from + n] == mem[from + n] && m[0xfe00 + n := mem[from + n]] == Copied(mem, from, n + 1)
  {
    assert from == 0xfe00 || from + n < 0xfe00 || from >= 0xff00;
  }

  /** A write of LCDC: switching the LCD clears LY, and switching it off the mode bits of STAT. */
  function LcdcWritten(mem: seq<byte>, value: byte): (m: seq<byte>)
    requires |mem| == SIZE
    ensures |m| == SIZE
  {
    var switched := mem[0xff40 := value][0xff44 := 0];
    if Has(mem[0xff40], 0x80) == Has(value, 0x80) then mem[0xff40 := value]
    else if Has(value, 0x80) then switched
    else switched[0xff41 := LcdTiming.SetMode(mem[0xff41], 0)]
  }

  /** The memory after monitor_wr_mem. */
  function Written(mem: seq<byte>, addr: word, value: byte, keys: Keys, file: seq<byte>): (m: seq<byte>)
    requires |mem| == SIZE && keys.buttons < 16 && keys.pad < 16
    ensures |m| == SIZE
  {
    if addr < 0x8000 then
      if 0x2000 <= addr <= 0x3fff then
        Cartridge.Loaded(mem, Cartridge.BANK, Cartridge.BANK, file, Cartridge.BANK * Cartridge.BankOf(value))
      else mem
    else if addr == 0xff46 then Copied(mem, value * 0x100, 0xa0)
    else if addr == 0xff40 then LcdcWritten(mem, value)
    else if addr == 0xff00 then mem[addr := Joypad(value / 16 % 4, keys)]
    else if addr == 0xff50 then
      Cartridge.Loaded(mem, 0, Cartridge.BOOT_BYTES, file, 0)[addr := CpuCore.Stored(addr, value)]
    else mem[addr := CpuCore.Stored(addr, value)]
  }

  /** A push with this SP goes to plain memory. */
  predicate PushesToRam(sp: word) {
    var low := Down(sp, 2);
    IsRam(low) && IsRam(Up(low, 1))
  }

  /** Writes in turn, with nothing else between them. */
  function WrittenAll(mem: seq<byte>, stores: seq<StackDiscipline.Store>, keys: Keys, file: seq<byte>): (m: seq<byte>)
    requires |mem| == SIZE && keys.buttons < 16 && keys.pad < 16
    ensures |m| == SIZE
  {
    if stores == [] then mem
    else
      var last := stores[|stores| - 1];
      Written(WrittenAll(mem, stores[..|stores| - 1], keys, file), last.addr, last.value, keys, file)
  }

  /**
   After any sequence of writes to plain memory a cell holds the last value written to it, and
   what it held before if there was none.
   */
  lemma {:induction false} LastWriteWins(
      mem: seq<byte>, stores: seq<StackDiscipline.Store>, keys: Keys, file: seq<byte>, q: word)
    requires |mem| == SIZE && keys.buttons < 16 && keys.pad < 16
    requires forall i | 0 <= i < |stores| :: IsRam(stores[i].addr)
    ensures forall k | 0 <= k < |stores| && stores[k].addr == q
                       && (forall i | k < i < |stores| :: stores[i].addr != q) ::
              WrittenAll(mem, stores, keys, file)[q] == stores[k].value
    ensures (forall i | 0 <= i < |stores| :: stores[i].addr != q) ==> WrittenAll(mem, stores, keys, file)[q] == mem[q]
    ensures WrittenAll(mem, stores, keys, file) == StackDiscipline.Stored(mem, stores)
  {
    if stores != [] {
      LastWriteWins(mem, stores[..|stores| - 1], keys, file, q);
    }
  }

  /** DMA from any page, OAM's own included, makes OAM a copy of it and leaves the rest alone. */
  lemma DmaCopies(mem: seq<byte>, page: byte, keys: Keys, file: seq<byte>, q: word)
    requires |mem| == SIZE && keys.buttons < 16 && keys.pad < 16
    ensures Written(mem, 0xff46, page, keys, file)[q] ==
            if 0xfe00 <= q < 0xfea0 then mem[page * 0x100 + (q - 0xfe00)] else mem[q]
    ensures page == 0xfe ==> Written(mem, 0xff46, page, keys, file) == mem
  {
    if page == 0xfe {
      assert mem == mem[..0xfe00] + mem[0xfe00..0xfea0] + mem[0xfea0..];
    }
  }

  /**
   The joypad register after a write: the two select bits as written; 0x3f when both are set, else the
   nibble of the buttons if bit 4 is set and of the directions if not.
   */
  lemma JoypadRow(mem: seq<byte>, value: byte, keys: Keys, file: seq<byte>)
    requires |mem| == SIZE && keys.buttons < 16 && keys.pad < 16
    ensures var r := Written(mem, 0xff00, value, keys, file)[0xff00];
            if value / 16 % 4 == 3 then r == 0x3f
            else
              && r / 16 == value / 16 % 4
              && r % 16 == if value / 16 % 2 == 1 then keys.buttons else keys.pad
  {
    assert value / 16 % 4 % 2 == value / 16 % 2;
  }

  /** A write to 0x2000-0x3fff shows 16 KiB of the file at 0x4000: bank 1 for 0, else the low five bits. */
  lemma BankShown(mem: seq<byte>, addr: word, value: byte, keys: Keys, file: seq<byte>, q: word)
    requires |mem| == SIZE && keys.buttons < 16 && keys.pad < 16 && 0x2000 <= addr <= 0x3fff
    ensures var offset := 0x4000 * (if value == 0 then 1 else value % 32) + (q - 0x4000);
            Written(mem, addr, value, keys, file)[q] ==
            if 0x4000 <= q <= 0x7fff && offset < |file| then file[offset] else mem[q]
  {
  }

  /** A write to 0xff50 shows the first 0x256 bytes of the file, and reads back as a truth value. */
  lemma BootHidden(mem: seq<byte>, value: byte, keys: Keys, file: seq<byte>, q: word)
    requires |mem| == SIZE && keys.buttons < 16 && keys.pad < 16
    ensures Written(mem, 0xff50, value, keys, file)[q] ==
            if q == 0xff50 then (if value == 0 then 0 else 1)
            else if q < 0x256 && q < |file| then file[q]
            else mem[q]
  {
  }

  /**
   Every other write changes its own cell at most: DIV becomes 0, TAC keeps three bits and IF five, ROM
   keeps what it had, and any other cell holds the value. A write of LCDC may change LY and STAT too.
   */
  lemma OneCellWritten(mem: seq<byte>, addr: word, value: byte, keys: Keys, file: seq<byte>, q: word)
    requires |mem| == SIZE && keys.buttons < 16 && keys.pad < 16
    requires !(0x2000 <= addr <= 0x3fff) && addr != 0xff00 && addr != 0xff46 && addr != 0xff50
    requires addr == 0xff40 ==> q != 0xff41 && q != 0xff44
    ensures Written(mem, addr, value, keys, file)[q] ==
            if q != addr || addr < 0x8000 then mem[q]
            else if addr == 0xff04 then 0
            else if addr == 0xff07 then value % 8
            else if addr == 0xff0f then value % 32
            else value
  {
  }
}
