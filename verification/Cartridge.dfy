/** The MBC1 cartridge: its ROM buffer, filled from the ROM file, and its RAM. */
module Cartridge {
  import opened Bytes

  const ROM_BYTES: nat := 0x84000
  const RAM_BYTES: nat := 0x8000
  const BANK: nat := 0x4000
  const BOOT_BYTES: nat := 0x256

  /** The bank a write of `value` to 0x2000-0x3fff selects. */
  function BankOf(value: byte): nat { if value == 0 then 1 else value % 0x20 }

  /** `mem` after up to n bytes of the file, from offset `from`, have been read to offset `at`. */
  function Loaded(mem: seq<byte>, at: nat, n: nat, file: seq<byte>, from: nat): (m: seq<byte>)
    ensures |m| == |mem|
  {
    seq(|mem|, i requires 0 <= i < |mem| =>
      if at <= i < at + n && from + (i - at) < |file| then file[from + (i - at)] else mem[i])
  }

  class Mbc1 {
    const rom: array<byte>
    const ram: array<byte>
    const file: seq<byte>

    ghost predicate Valid() { rom.Length == ROM_BYTES && ram.Length == RAM_BYTES }

    constructor (file: seq<byte>)
      ensures Valid() && fresh(rom) && fresh(ram) && this.file == file
      ensures (forall i | 0 <= i < rom.Length :: rom[i] == 0) && forall i | 0 <= i < ram.Length :: ram[i] == 0
    {
      this.file := file;
      rom := new byte[ROM_BYTES](_ => 0);
      ram := new byte[RAM_BYTES](_ => 0);
    }

    /** fread into the ROM buffer: a short file leaves the rest of the buffer as it was. */
    method Load(at: nat, n: nat, from: nat)
      requires at + n <= rom.Length
      modifies rom
      ensures rom[..] == Loaded(old(rom[..]), at, n, file, from)
    {
      forall i | 0 <= i < n && from + i < |file| {
        rom[at + i] := file[from + i];
      }
      forall k | 0 <= k < rom.Length
        ensures rom[k] == Loaded(old(rom[..]), at, n, file, from)[k]
      {
        if at <= k < at + n && from + (k - at) < |file| {
          assert rom[at + (k - at)] == file[from + (k - at)];
        }
      }
    }

    function Read(addr: word): byte
      requires Valid()
      reads rom, ram
    {
      if 0xa000 <= addr <= 0xbfff then ram[addr - 0xa000] else rom[addr]
    }

    /** A write to RAM, to the bank register, or to the register that hides the boot ROM. */
    method Write(addr: word, value: byte)
      requires Valid() && (addr == 0xff50 || addr < 0x8000 || 0xa000 <= addr <= 0xbfff)
      modifies rom, ram
      ensures if addr == 0xff50 then rom[..] == Loaded(old(rom[..]), 0, BOOT_BYTES, file, 0)
              else if 0x2000 <= addr <= 0x3fff then
                rom[..] == Loaded(old(rom[..]), BANK, BANK, file, BANK * BankOf(value))
              else rom[..] == old(rom[..])
      ensures ram[..] == if 0xa000 <= addr <= 0xbfff then old(ram[..])[addr - 0xa000 := value] else old(ram[..])
    {
      if addr == 0xff50 {
        Load(0, BOOT_BYTES, 0);
        return;
      }
      if addr >= 0x8000 {
        ram[addr - 0xa000] := value;
      }
      if 0x2000 <= addr <= 0x3fff {
        var bank: nat := value;
        if bank == 0 {
          bank := bank + 1;
        }
        bank := bank % 0x20;
        Load(BANK, BANK, 0x4000 * bank);
      }
    }
  }
}
