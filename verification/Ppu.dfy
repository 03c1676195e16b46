/** The PPU: its registers and memory, the scanline renderer, and the timing machine. */
module PpuCore {
  import opened Bytes
  import opened SpriteIndex
  import opened SpriteLookup
  import opened SpritePriority
  import opened PixelPlane
  import LcdTiming
  import CpuCore
  import SpriteTable

  const LINE: nat := 160

  /** The 144 lines of the frame, and the one below them that the renderer's assertion lets through. */
  const STORED_LINES: nat := 145

  lemma HighPlane(lo: byte, hi: byte, p: nat)
    requires p in {1, 2, 4, 8, 16, 32, 64, 128}
    ensures (lo + 0x100 * hi) / (0x100 * p) == hi / p
  {
    if p <= 8 {
      if p == 1 {
      } else if p == 2 {
      } else if p == 4 {
      } else {
      }
    } else if p == 16 {
    } else if p == 32 {
    } else if p == 64 {
    } else {
    }
  }

  lemma LowPlane(lo: byte, hi: byte, p: nat)
    requires p in {1, 2, 4, 8, 16, 32, 64, 128}
    ensures (lo + 0x100 * hi) / p % 2 == lo / p % 2
  {
    if p == 1 {
    } else if p <= 4 {
      LowPlane2And4(lo, hi);
    } else if p <= 16 {
      LowPlane8And16(lo, hi);
    } else if p <= 64 {
      LowPlane32And64(lo, hi);
    } else {
      LowPlane128(lo, hi);
    }
  }

  lemma LowPlane2And4(lo: byte, hi: byte)
    ensures (lo + 0x100 * hi) / 2 % 2 == lo / 2 % 2
    ensures (lo + 0x100 * hi) / 4 % 2 == lo / 4 % 2
  {
    assert (lo + 0x100 * hi) / 2 == lo / 2 + 0x80 * hi;
    assert (lo + 0x100 * hi) / 4 == lo / 4 + 0x40 * hi;
  }

  lemma LowPlane8And16(lo: byte, hi: byte)
    ensures (lo + 0x100 * hi) / 8 % 2 == lo / 8 % 2
    ensures (lo + 0x100 * hi) / 16 % 2 == lo / 16 % 2
  {
    assert (lo + 0x100 * hi) / 8 == lo / 8 + 0x20 * hi;
    assert (lo + 0x100 * hi) / 16 == lo / 16 + 0x10 * hi;
  }

  lemma LowPlane32And64(lo: byte, hi: byte)
    ensures (lo + 0x100 * hi) / 32 % 2 == lo / 32 % 2
    ensures (lo + 0x100 * hi) / 64 % 2 == lo / 64 % 2
  {
    assert (lo + 0x100 * hi) / 32 == lo / 32 + 8 * hi;
    assert (lo + 0x100 * hi) / 64 == lo / 64 + 4 * hi;
  }

  lemma LowPlane128(lo: byte, hi: byte)
    ensures (lo + 0x100 * hi) / 128 % 2 == lo / 128 % 2
  {
    assert (lo + 0x100 * hi) / 128 == lo / 128 + 2 * hi;
  }

  lemma ShiftedMask(col: nat)
    requires col < 8
    ensures 0x8000 / Power2(col) == 0x100 * Power2(7 - col) && 0x80 / Power2(col) == Power2(7 - col)
    ensures Power2(7 - col) in {1, 2, 4, 8, 16, 32, 64, 128}
  {
  }

  lemma HalveFirst(b: byte, n: nat)
    requires 0 < n < 8
    ensures b / Power2(n) == b / 2 / Power2(n - 1)
  {
    if n <= 4 { HalveFirstLow(b, n); } else { HalveFirstHigh(b, n); }
  }

  lemma HalveFirstLow(b: byte, n: nat)
    requires 0 < n <= 4
    ensures b / Power2(n) == b / 2 / Power2(n - 1)
  {
    assert b / 4 == b / 2 / 2 && b / 8 == b / 2 / 4 && b / 16 == b / 2 / 8;
  }

  lemma HalveFirstHigh(b: byte, n: nat)
    requires 4 < n < 8
    ensures b / Power2(n) == b / 2 / Power2(n - 1)
  {
    assert b / 32 == b / 2 / 16 && b / 64 == b / 2 / 32 && b / 128 == b / 2 / 64;
  }

  lemma {:induction false} BitShifted(b: byte, n: nat)
    requires n < 8
    ensures b / Power2(n) % 2 == Bit(b, n)
  {
    if n > 0 {
      HalveFirst(b, n);
      BitShifted(b / 2, n - 1);
    }
  }

  /** Column col of the bit planes lo and hi, tested with a mask shifted right col times. */
  lemma MaskedBits(lo: byte, hi: byte, col: nat)
    requires col < 8
    ensures Has(lo + 0x100 * hi, 0x8000 / Power2(col)) <==> Bit(hi, 7 - col) == 1
    ensures Has(lo + 0x100 * hi, 0x80 / Power2(col)) <==> Bit(lo, 7 - col) == 1
  {
    ShiftedMask(col);
    HighPlane(lo, hi, Power2(7 - col));
    LowPlane(lo, hi, Power2(7 - col));
    BitShifted(lo, 7 - col);
    BitShifted(hi, 7 - col);
  }

  /** A colour index from a 16-bit tile line, as the renderer tests it. */
  function LineColor(line: nat, k: nat): (c: nat)
    ensures c < 4
  {
    (if Has(line, 0x8000 / Power2(k % 8)) then 2 else 0) + if Has(line, 0x80 / Power2(k % 8)) then 1 else 0
  }

  lemma LineColorIsPlanes(lo: byte, hi: byte, k: nat)
    ensures LineColor(lo + 0x100 * hi, k) == PlanesColor(lo, hi, k % 8)
  {
    MaskedBits(lo, hi, k % 8);
  }

  /** The 16-bit tile line at an address of the tile data. */
  function LineAt(tiles: seq<byte>, at: nat): (w: nat)
    requires at + 1 < |tiles|
  {
    var lo: int, hi: int := tiles[at], tiles[at + 1];
    lo + 0x100 * hi
  }

  lemma LineIsTile(tiles: seq<byte>, start: nat, row: nat, k: nat)
    requires start + 2 * row + 1 < |tiles|
    ensures LineColor(LineAt(tiles, start + 2 * row), k) == TileColor(tiles, start, row, k % 8)
  {
    LineColorIsPlanes(tiles[start + 2 * row], tiles[start + 2 * row + 1], k);
  }

  /** The renderer's byte arithmetic on a covering sprite gives its row and column. */
  lemma ObjectOffsets(ly: byte, objY: byte, x: nat, objX: byte, size: nat)
    requires ly <= 144 && x < LINE && size <= 16
    requires objY - 16 <= ly < objY - 16 + size && objX - 8 <= x < objX
    ensures Byte(ly + 16 - objY) == ly + 16 - objY
    ensures Byte(x - objX) % 8 == x + 8 - objX && Byte(7 - (x - objX)) % 8 == 7 - (x + 8 - objX)
  {
  }

  /** The renderer's map and tile offsets are those of the wrapped plane. */
  lemma WrappedRow(py: nat)
    requires py < 0x200
    ensures py / 8 * 32 % 0x400 == py % 256 / 8 * 32 && py % 256 % 8 == py % 8
  {
    assert py % 256 == if py < 256 then py else py - 256;
  }

  lemma WrappedColumn(i: nat, j: nat, scx: byte)
    requires i % 8 == 0 && j < 8
    ensures (j + scx % 8) % 8 == (i + j + scx) % 256 % 8
  {
    var k, m := i / 8, (i + j + scx) / 256;
    assert i + j + scx == 256 * m + (i + j + scx) % 256;
    assert j + scx % 8 == (i + j + scx) % 256 + 8 * (32 * m - k - scx / 8);
  }

  class Ppu {
    const cpu: CpuCore.Cpu
    const sprites: SpriteTable.Sprites

    var lcdc: byte
    var ly: byte
    var lyc: byte
    var stat: byte
    var scx: byte
    var scy: byte
    var dma: byte
    var bgp: byte
    var obp0: byte
    var obp1: byte
    var wx: byte
    var wy: byte

    const tileData: array<byte>  // 0x8000-0x97ff
    const tileMap1: array<byte>  // 0x9800-0x9bff
    const tileMap2: array<byte>  // 0x9c00-0x9fff
    const screen: array<Pixel>

    var mode: LcdTiming.Mode
    var dotsRemaining: int
    var vblankDots: nat
    var frameCount: nat
    ghost var log: seq<LcdTiming.Event>

    /** All memory zeroed, the LCD off. */
    constructor (cpu: CpuCore.Cpu)
      ensures this.cpu == cpu && Shaped()
      ensures fresh(sprites) && sprites.Valid() && fresh(sprites.oam) && fresh(sprites.hash)
      ensures sprites.Table() == Initial()
      ensures fresh(tileData) && fresh(tileMap1) && fresh(tileMap2) && fresh(screen) && tileMap1 != tileMap2
      ensures Lcd() == LcdTiming.Initial(cpu.ifReg) && screen[..] == Blank()
      ensures scy == scx == dma == bgp == obp0 == obp1 == wx == wy == 0
      ensures forall i | 0 <= i < tileData.Length :: tileData[i] == 0
      ensures forall i | 0 <= i < tileMap1.Length :: tileMap1[i] == 0
      ensures forall i | 0 <= i < tileMap2.Length :: tileMap2[i] == 0
    {
      this.cpu := cpu;
      sprites := new SpriteTable.Sprites();
      lcdc, ly, lyc, stat, scx, scy, dma, bgp, obp0, obp1, wx, wy := 0, 0, 0, 0, 0, 0, 0, 0, 0, 0, 0, 0;
      tileData := new byte[TILE_BYTES](_ => 0);
      tileMap1 := new byte[MAP_BYTES](_ => 0);
      tileMap2 := new byte[MAP_BYTES](_ => 0);
      screen := new Pixel[STORED_LINES * LINE](_ => Unset);
      mode, dotsRemaining, vblankDots, frameCount, log := LcdTiming.HBlank, 0, 0, 0, [];
      new;
      assert screen[..] == Blank();
    }

    ghost predicate Shaped() {
      && tileData.Length == TILE_BYTES && tileMap1.Length == MAP_BYTES && tileMap2.Length == MAP_BYTES
      && screen.Length == STORED_LINES * LINE
    }

    ghost function Lcd(): LcdTiming.Lcd
      reads this, cpu`ifReg
    {
      LcdTiming.Lcd(lcdc, mode, ly, lyc, stat, dotsRemaining, vblankDots, frameCount, cpu.ifReg, log)
    }

    ghost function Video(): (v: PixelPlane.Video)
      requires Shaped()
      reads this, tileData, tileMap1, tileMap2
      ensures WellFormed(v)
    {
      PixelPlane.Video(lcdc, ly, scx, scy, wx, wy, bgp, obp0, obp1, tileData[..], tileMap1[..], tileMap2[..])
    }

    // ---------- memory and registers ----------

    predicate OwnsAddr(addr: word) {
      0x8000 <= addr <= 0x9fff || 0xfe00 <= addr <= 0xfe9f || 0xff40 <= addr <= 0xff4b
    }

    function ReadReg(addr: word): byte
      reads this`lcdc, this`stat, this`scy, this`scx, this`ly, this`lyc, this`dma, this`bgp, this`obp0, this`obp1,
            this`wy, this`wx
    {
      if addr == 0xff40 then lcdc
      else if addr == 0xff41 then stat
      else if addr == 0xff42 then scy
      else if addr == 0xff43 then scx
      else if addr == 0xff44 then ly
      else if addr == 0xff45 then lyc
      else if addr == 0xff46 then dma
      else if addr == 0xff47 then bgp
      else if addr == 0xff48 then obp0
      else if addr == 0xff49 then obp1
      else if addr == 0xff4a then wy
      else if addr == 0xff4b then wx
      else 0
    }

    function Read(addr: word): byte
      requires Shaped() && sprites.oam.Length == OAM_BYTES
      reads this`lcdc, this`stat, this`scy, this`scx, this`ly, this`lyc, this`dma, this`bgp, this`obp0, this`obp1,
            this`wy, this`wx,
            tileData, tileMap1, tileMap2, sprites.oam
    {
      if addr >= 0xff40 then ReadReg(addr)
      else if 0x8000 <= addr <= 0x97ff then tileData[addr - 0x8000]
      else if 0x9800 <= addr <= 0x9bff then tileMap1[addr - 0x9800]
      else if 0x9c00 <= addr <= 0x9fff then tileMap2[addr - 0x9c00]
      else if 0xfe00 <= addr <= 0xfe9f then sprites.oam[addr - 0xfe00]
      else 0
    }

    /** wr_reg, for every register but DMA. Turning the LCD on or off resets the timing machine. */
    method WriteReg(addr: word, value: byte)
      requires 0xff40 <= addr <= 0xff4b && addr != 0xff46
      modifies this
      ensures Lcd() == LcdAfterWrite(old(Lcd()), addr, value)
      ensures forall q: word ::
                ReadReg(q) == if q == addr then value
                              else if q == 0xff44 then LcdAfterWrite(old(Lcd()), addr, value).ly
                              else if q == 0xff41 then LcdAfterWrite(old(Lcd()), addr, value).stat
                              else old(ReadReg(q))
    {
      if addr == 0xff40 {
        if Has(lcdc, 0x80) != Has(value, 0x80) {
          dotsRemaining := LcdTiming.DOTS_OAM;
          mode := LcdTiming.Oam;
          ly := 0;
          if !Has(value, 0x80) {
            stat := LcdTiming.SetMode(stat, 0);
          }
        }
        lcdc := value;
      } else if addr == 0xff41 {
        stat := value;
      } else if addr == 0xff42 {
        scy := value;
      } else if addr == 0xff43 {
        scx := value;
      } else if addr == 0xff44 {
        ly := value;
      } else if addr == 0xff45 {
        lyc := value;
      } else if addr == 0xff47 {
        bgp := value;
      } else if addr == 0xff48 {
        obp0 := value;
      } else if addr == 0xff49 {
        obp1 := value;
      } else if addr == 0xff4a {
        wy := value;
      } else {
        wx := value;
      }
    }

    /** The part of ppu_wr that stores into video memory and OAM. */
    method WriteMemory(addr: word, value: byte)
      requires Shaped() && sprites.Valid() && tileMap1 != tileMap2
      requires OwnsAddr(addr) && addr < 0xff40
      modifies tileData, tileMap1, tileMap2, sprites, sprites.oam, sprites.hash
      ensures sprites.Valid()
      ensures sprites.Table() == if addr >= 0xfe00 then SpriteIndex.WriteOam(old(sprites.Table()), addr - 0xfe00, value)
                                 else old(sprites.Table())
      ensures forall q: word :: Read(q) == if q == addr then value else old(Read(q))
    {
      if addr <= 0x97ff {
        tileData[addr - 0x8000] := value;
      } else if addr <= 0x9bff {
        tileMap1[addr - 0x9800] := value;
      } else if addr <= 0x9fff {
        tileMap2[addr - 0x9c00] := value;
      } else {
        sprites.WriteOam(addr - 0xfe00, value);
        assert sprites.oam[..] == old(sprites.oam[..])[addr - 0xfe00 := value];
      }
    }

    // ---------- the renderer ----------

    /** get_tile_line: the 16-bit row of a background or window tile. */
    method TileLine(tile: byte, line: nat) returns (w: nat)
      requires Shaped() && line < 8
      ensures w == LineAt(tileData[..], TileStart(lcdc, tile) + 2 * line)
    {
      var at := TileStart(lcdc, tile) + line * 2;
      var lo: int, hi: int := tileData[at], tileData[at + 1];
      w := lo + 0x100 * hi;
    }

    /** The colour index of a background or window tile at row `row` and column k % 8. */
    method TileIndex(tile: byte, row: nat, k: nat) returns (index: nat)
      requires Shaped() && row < 8
      ensures index == TileColor(tileData[..], TileStart(lcdc, tile), row, k % 8)
    {
      var line := TileLine(tile, row);
      index := LineColor(line, k);
      LineIsTile(tileData[..], TileStart(lcdc, tile), row, k);
    }

    /** The colour index the background contributes at column i + j. */
    method BgIndex(i: nat, j: nat) returns (index: nat)
      requires Shaped() && i % 8 == 0 && j < 8 && i + j < LINE && ly <= 144
      ensures index == BgColor(Video(), i + j)
    {
      var useMap2 := Has(lcdc, LCDC_BG_MAP);
      var at := (ly + scy) / 8 * 32 % 0x400 + (i + j + scx) % 0x100 / 8;
      WrappedRow(ly + scy);
      WrappedColumn(i, j, scx);
      var tile := if useMap2 then tileMap2[at] else tileMap1[at];
      index := TileIndex(tile, (ly + scy) % 8, j + scx % 8);
    }

    /** The colour index the window contributes at column x. */
    method WindowIndex(x: nat) returns (index: nat)
      requires Shaped() && x < LINE && ly <= 144 && WindowCovers(Video(), x)
      ensures index == WindowColor(Video(), x)
    {
      var useMap2 := Has(lcdc, LCDC_WIN_MAP);
      var px: nat, py: nat := x + 7 - wx, ly - wy;
      assert py / 8 * 32 % 0x400 == py / 8 * 32;
      var at := py / 8 * 32 % 0x400 + px / 8;
      var tile := if useMap2 then tileMap2[at] else tileMap1[at];
      index := TileIndex(tile, py % 8, px);
    }

    /** get_tile_line_from_object: the 16-bit row of a sprite's tile on this line. */
    method ObjectLine(obj: int, ghost x: nat) returns (w: nat)
      requires Shaped() && sprites.oam.Length == OAM_BYTES && IsSprite(obj) && x < LINE && ly <= 144
      requires Covers(sprites.oam[..], obj, x, ly, SpriteSize(lcdc))
      ensures w == LineAt(tileData[..],
                          16 * (sprites.oam[obj + 2] as int) + 2 * SpriteRow(Video(), sprites.oam[..], obj, x))
    {
      var oam := sprites.oam;
      var size := if Has(lcdc, LCDC_OBJ_TALL) then 16 else 8;
      ObjectOffsets(ly, oam[obj], x, oam[obj + 1], size);
      var line := Byte(ly + 16 - oam[obj]);
      var tile: int := oam[obj + 2];
      var at := tile * 16 + if Has(oam[obj + 3], ATTR_FLIP_Y) then (size - 1 - line) * 2 else line * 2;
      var lo: int, hi: int := tileData[at], tileData[at + 1];
      w := lo + 0x100 * hi;
    }

    /** The colour index of one sprite at column x. */
    method ObjectIndex(obj: int, x: nat) returns (index: nat)
      requires Shaped() && sprites.oam.Length == OAM_BYTES && IsSprite(obj) && x < LINE && ly <= 144
      requires Covers(sprites.oam[..], obj, x, ly, SpriteSize(lcdc))
      ensures index == SpriteColor(Video(), sprites.oam[..], obj, x)
    {
      var oam := sprites.oam;
      var line := ObjectLine(obj, x);
      ObjectOffsets(ly, oam[obj], x, oam[obj + 1], SpriteSize(lcdc));
      var begin := Byte(if Has(oam[obj + 3], ATTR_FLIP_X) then 7 - (x - oam[obj + 1]) else x - oam[obj + 1]);
      index := LineColor(line, begin);
      LineIsTile(tileData[..], 16 * (oam[obj + 2] as int), SpriteRow(Video(), oam[..], obj, x), begin);
    }

    /** The earlier of two sprites in OAM, found by walking OAM, is `obj`. */
    method ComesFirst(obj: int, current: int) returns (first: bool)
      requires IsSprite(obj) && IsSprite(current)
      ensures first <==> obj <= current
    {
      var oam := 0;
      for j := 0 to 40
        invariant oam == 4 * j && oam <= obj && oam <= current
      {
        if oam == obj || oam == current {
          break;
        }
        oam := oam + 4;
      }
      first := oam == obj;
    }

    /** One turn of the priority loop: sprite `obj` against the current best and its colour index. */
    method Compete(obj: int, current: int, color: nat, x: nat) returns (winner: int, pixel: nat)
      requires Shaped() && sprites.oam.Length == OAM_BYTES && IsSprite(obj)
      requires IsSprite(current) && x < LINE && ly <= 144
      requires Covers(sprites.oam[..], obj, x, ly, SpriteSize(lcdc))
      ensures IsSprite(winner)
      ensures Candidate(winner, sprites.oam[winner + 1], pixel) ==
              Turn(Candidate(current, sprites.oam[current + 1], color), AsCandidate(Video(), sprites.oam[..], obj, x))
    {
      winner, pixel := current, color;
      var index := ObjectIndex(obj, x);
      if color == 0 || sprites.oam[obj + 1] <= sprites.oam[current + 1] {
        if color != 0 && sprites.oam[obj + 1] == sprites.oam[current + 1] {
          var first := ComesFirst(obj, current);
          if first {
            winner, pixel := obj, index;
          }
        } else if index != 0 {
          winner, pixel := obj, index;
        }
      }
    }

    /** get_pixel_priority_from_objs: the winner among the sprites at x, and its colour index. */
    method PixelPriority(objs: array<int>, num: nat, x: nat) returns (pixel: nat, out: int)
      requires Shaped() && sprites.oam.Length == OAM_BYTES && x < LINE && ly <= 144
      requires 1 <= num <= objs.Length && AllCover(Video(), sprites.oam[..], objs[..num], x)
      ensures var best := Fold(Candidates(Video(), sprites.oam[..], objs[..num], x));
              pixel == best.color && out == best.a
    {
      ghost var cs := Candidates(Video(), sprites.oam[..], objs[..num], x);
      out := objs[0];
      pixel := ObjectIndex(objs[0], x);
      assert cs[..1] == [cs[0]];
      for i := 1 to num
        invariant IsSprite(out)
        invariant Fold(cs[..i]) == Candidate(out, sprites.oam[out + 1], pixel)
      {
        FoldSnoc(cs, i);
        out, pixel := Compete(objs[i], out, pixel, x);
      }
      assert cs[..num] == cs;
    }

    /** The sprite part of one pixel; `obj` is meaningful when `index` is not 0. */
    method SpriteIndexAt(x: nat) returns (index: nat, obj: int)
      requires Shaped() && sprites.Valid() && x < LINE && ly <= 144
      ensures var s := SpriteAt(Video(), sprites.Table(), x);
              if s.NoSprite? then index == 0 else index == s.color && obj == s.a
    {
      index, obj := 0, 0;
      if Has(lcdc, LCDC_OBJ) {
        var objs := new int[10](_ => 0);
        ghost var v, t := Video(), sprites.Table();
        var num := sprites.GetObjsAtXy(x, ly, Has(lcdc, LCDC_OBJ_TALL), objs);
        LookupCovers(v, t, x);
        if num != 0 {
          index, obj := PixelPriority(objs, num, x);
        }
      }
    }

    /** The sprite's part of a pixel, and whether it is behind the other layers. */
    method SpritePart(x: nat) returns (sprite: Pixel, behind: bool)
      requires Shaped() && sprites.Valid() && x < LINE && ly <= 144
      ensures sprite == SpriteShown(Video(), sprites.Table(), x)
      ensures behind == SpriteBehind(Video(), sprites.Table(), x)
    {
      sprite, behind := Unset, false;
      var index, obj := SpriteIndexAt(x);
      if index != 0 {
        var palette := if Has(sprites.oam[obj + 3], ATTR_PALETTE) then obp1 else obp0;
        sprite := Rgb(Rgba(Shade(palette, index)));
        behind := Has(sprites.oam[obj + 3], ATTR_BEHIND);
      }
    }

    /** One turn of the inner loop of ppu_render_line: the value of `final_pixel`. */
    method FinalPixel(i: nat, j: nat) returns (pixel: Pixel)
      requires Shaped() && sprites.Valid() && i % 8 == 0 && j < 8 && i + j < LINE && ly <= 144
      ensures pixel == PixelAt(Video(), sprites.Table(), i + j)
    {
      ghost var v, t := Video(), sprites.Table();
      var sprite, behind := SpritePart(i + j);
      assert Video() == v && sprites.Table() == t;
      pixel := MixLayers(i, j, sprite, behind);
      assert Video() == v && sprites.Table() == t;
    }

    /** The rest of the turn, with an opaque sprite's pixel or Unset. */
    method MixLayers(i: nat, j: nat, sprite: Pixel, behind: bool) returns (pixel: Pixel)
      requires Shaped() && i % 8 == 0 && j < 8 && i + j < LINE && ly <= 144
      ensures pixel == Mix(sprite, behind, WindowLayer(Video(), i + j), BgLayer(Video(), i + j))
    {
      pixel := sprite;
      if sprite == Unset || behind {
        pixel := BgPart(i, j, sprite, pixel);
        pixel := WindowPart(i + j, sprite, pixel);
      }
    }

    method BgPart(i: nat, j: nat, sprite: Pixel, under: Pixel) returns (pixel: Pixel)
      requires Shaped() && i % 8 == 0 && j < 8 && i + j < LINE && ly <= 144
      ensures var layer := BgLayer(Video(), i + j);
              pixel == if Shows(layer, sprite) then layer.pixel else under
    {
      pixel := under;
      if Has(lcdc, LCDC_BG) {
        var index := BgIndex(i, j);
        if sprite == Unset || index != 0 {
          pixel := Rgb(Rgba(Shade(bgp, index)));
        }
      }
    }

    method WindowPart(x: nat, sprite: Pixel, under: Pixel) returns (pixel: Pixel)
      requires Shaped() && x < LINE && ly <= 144
      ensures var layer := WindowLayer(Video(), x);
              pixel == if Shows(layer, sprite) then layer.pixel else under
    {
      pixel := under;
      if Has(lcdc, LCDC_WIN) && wy <= ly && x + 7 >= wx && wx < 166 && wy < 143 {
        var index := WindowIndex(x);
        if sprite == Unset || index != 0 {
          pixel := Rgb(Rgba(Shade(bgp, index)));
        }
      }
    }

    /** One turn of the inner loop: one more pixel of the line. */
    method DrawPixel(i: nat, j: nat, ghost line: seq<Pixel>)
      requires Shaped() && sprites.Valid() && i % 8 == 0 && j < 8 && i + j < LINE && ly <= 144
      requires line == FullLine(Video(), sprites.Table()) && screen[LINE * ly..LINE * ly + (i + j)] == line[..i + j]
      modifies screen
      ensures screen[LINE * ly..LINE * ly + (i + j + 1)] == line[..i + j + 1]
      ensures forall k | 0 <= k < screen.Length && !(LINE * ly <= k < LINE * ly + LINE) :: screen[k] == old(screen[k])
    {
      var pixel := FinalPixel(i, j);
      LineExtends(screen[..], LINE * ly, line, i + j);
      screen[LINE * ly + (i + j)] := pixel;
      assert screen[..] == old(screen[..])[LINE * ly + (i + j) := line[i + j]];
    }

    /** The inner loop of ppu_render_line: eight pixels. */
    method DrawEight(i: nat, ghost line: seq<Pixel>)
      requires Shaped() && sprites.Valid() && i % 8 == 0 && i < LINE && ly <= 144
      requires line == FullLine(Video(), sprites.Table()) && screen[LINE * ly..LINE * ly + i] == line[..i]
      modifies screen
      ensures screen[LINE * ly..LINE * ly + (i + 8)] == line[..i + 8]
      ensures forall k | 0 <= k < screen.Length && !(LINE * ly <= k < LINE * ly + LINE) :: screen[k] == old(screen[k])
    {
      for j := 0 to 8
        invariant sprites.Valid() && line == FullLine(Video(), sprites.Table())
        invariant screen[LINE * ly..LINE * ly + (i + j)] == line[..i + j]
        invariant forall k | 0 <= k < screen.Length && !(LINE * ly <= k < LINE * ly + LINE) ::
                    screen[k] == old(screen[k])
      {
        DrawPixel(i, j, line);
      }
    }

    /** ppu_render_line: all 160 pixels of line LY, and no other pixel, are drawn. */
    method RenderLine()
      requires Shaped() && sprites.Valid() && ly <= 144
      modifies screen
      ensures screen[..] == WithLine(old(screen[..]), Video(), sprites.Table())
    {
      hide FullLine, WithLine;
      ghost var line := FullLine(Video(), sprites.Table());
      var i := 0;
      while i < LINE
        invariant i % 8 == 0 && i <= LINE
        invariant sprites.Valid() && line == FullLine(Video(), sprites.Table())
        invariant screen[LINE * ly..LINE * ly + i] == line[..i]
        invariant forall k | 0 <= k < screen.Length && !(LINE * ly <= k < LINE * ly + LINE) ::
                    screen[k] == old(screen[k])
      {
        DrawEight(i, line);
        i := i + 8;
      }
      assert line[..LINE] == line;
      assert screen[..LINE * ly] == old(screen[..LINE * ly]);
      assert screen[LINE * ly + LINE..] == old(screen[LINE * ly + LINE..]);
      LineStored(old(screen[..]), screen[..], Video(), sprites.Table());
    }

    // ---------- the timing machine ----------

    method CheckLyLyc()
      modifies this`stat, cpu`ifReg
      ensures Lcd() == LcdTiming.CheckLyLyc(old(Lcd()))
      ensures old(cpu.ifReg) <= 0x1f ==> cpu.ifReg <= 0x1f
      ensures cpu.Control() == old(cpu.Control()) && cpu.Timer() == old(cpu.Timer())
    {
      if ly == lyc {
        stat := With(stat, 4);
        if Has(stat, LcdTiming.STAT_LYC) {
          cpu.RequestIntr(LcdTiming.REQUEST_LCD);
        }
      } else {
        stat := Clear(stat, 4);
      }
    }

    method SetLy(value: byte)
      modifies this`ly, this`stat, this`log, cpu`ifReg
      ensures Lcd() == LcdTiming.SetLy(old(Lcd()), value)
      ensures old(cpu.ifReg) <= 0x1f ==> cpu.ifReg <= 0x1f
      ensures cpu.Control() == old(cpu.Control()) && cpu.Timer() == old(cpu.Timer())
    {
      ly := value;
      log := log + [LcdTiming.LyIs(value)];
      CheckLyLyc();
    }

    method EnterVblank()
      modifies this`stat, this`log, this`vblankDots, this`dotsRemaining, this`mode, cpu`ifReg
      ensures Lcd() == LcdTiming.EnterVblank(old(Lcd()))
      ensures old(cpu.ifReg) <= 0x1f ==> cpu.ifReg <= 0x1f
      ensures cpu.Control() == old(cpu.Control()) && cpu.Timer() == old(cpu.Timer())
    {
      vblankDots := 0;
      dotsRemaining := Int16(dotsRemaining + LcdTiming.DOTS_VBLANK);
      mode := LcdTiming.VBlank;
      stat := With(stat, 1);
      if Has(stat, LcdTiming.STAT_VBLANK) {
        cpu.RequestIntr(LcdTiming.REQUEST_LCD);
      }
      cpu.RequestIntr(LcdTiming.REQUEST_VBLANK);
      log := log + [LcdTiming.VblankRequest];
    }

    method HblankEndCycle()
      modifies this`ly, this`stat, this`log, this`vblankDots, this`dotsRemaining, this`mode, cpu`ifReg
      ensures Lcd() == LcdTiming.HblankEnd(old(Lcd()))
      ensures old(cpu.ifReg) <= 0x1f ==> cpu.ifReg <= 0x1f
      ensures cpu.Control() == old(cpu.Control()) && cpu.Timer() == old(cpu.Timer())
    {
      SetLy(Byte(ly + 1));
      if ly >= 144 {
        EnterVblank();
      } else {
        dotsRemaining := Int16(dotsRemaining + LcdTiming.DOTS_OAM);
        mode := LcdTiming.Oam;
        stat := With(stat, 2);
        if Has(stat, LcdTiming.STAT_OAM) {
          cpu.RequestIntr(LcdTiming.REQUEST_LCD);
        }
      }
    }

    method VblankEndCycle()
      modifies this`ly, this`stat, this`log, this`dotsRemaining, this`mode, this`frameCount, cpu`ifReg
      ensures Lcd() == LcdTiming.VblankEnd(old(Lcd()))
      ensures old(cpu.ifReg) <= 0x1f ==> cpu.ifReg <= 0x1f
      ensures cpu.Control() == old(cpu.Control()) && cpu.Timer() == old(cpu.Timer())
    {
      log := log + [LcdTiming.DrawFrame];
      dotsRemaining := Int16(dotsRemaining + LcdTiming.DOTS_OAM);
      SetLy(0);
      mode := LcdTiming.Oam;
      stat := LcdTiming.SetMode(stat, 0);
      stat := With(stat, 2);
      frameCount := frameCount + 1;
      log := log + [LcdTiming.FrameDone];
    }

    method EnterHblank()
      requires Shaped() && mode == LcdTiming.Draw
      modifies this`stat, this`log, this`dotsRemaining, this`mode
      ensures Lcd() == LcdTiming.ChangePhase(old(Lcd()))
      ensures Video() == old(Video())
    {
      dotsRemaining := Int16(dotsRemaining + LcdTiming.DOTS_HBLANK);
      stat := LcdTiming.SetMode(stat, 0);
      mode := LcdTiming.HBlank;
      log := log + [LcdTiming.Line(ly)];
    }

    /** The end of the drawing phase in change_phase. */
    method DrawEnd()
      requires Shaped() && sprites.Valid() && mode == LcdTiming.Draw && ly <= 144
      modifies this`stat, this`log, this`dotsRemaining, this`mode, screen
      ensures Lcd() == LcdTiming.ChangePhase(old(Lcd()))
      ensures screen[..] == WithLine(old(screen[..]), old(Video()), sprites.Table())
    {
      EnterHblank();
      RenderLine();
    }

    /** The line the PPU draws when it leaves the drawing phase is the one LY names. */
    method ChangePhase()
      requires Shaped() && sprites.Valid() && (mode == LcdTiming.Draw ==> ly <= 144)
      modifies this`ly, this`stat, this`log, this`vblankDots, this`dotsRemaining, this`mode, this`frameCount,
               cpu`ifReg, screen
      ensures Lcd() == LcdTiming.ChangePhase(old(Lcd()))
      ensures old(cpu.ifReg) <= 0x1f ==> cpu.ifReg <= 0x1f
      ensures cpu.Control() == old(cpu.Control()) && cpu.Timer() == old(cpu.Timer())
      ensures if old(mode) == LcdTiming.Draw then screen[..] == WithLine(old(screen[..]), old(Video()), sprites.Table())
              else screen[..] == old(screen[..])
    {
      match mode
      case HBlank => HblankEndCycle();
      case VBlank => VblankEndCycle();
      case Oam =>
        dotsRemaining := Int16(dotsRemaining + LcdTiming.DOTS_DRAW);
        stat := LcdTiming.SetMode(stat, 3);
        mode := LcdTiming.Draw;
      case Draw => DrawEnd();
    }

    /** The part of ppu_refresh that counts the lines of VBLANK. */
    method CountVblank(dots: nat)
      modifies this`ly, this`stat, this`log, this`vblankDots, cpu`ifReg
      ensures Lcd() == LcdTiming.CountVblank(old(Lcd()), dots)
      ensures old(cpu.ifReg) <= 0x1f ==> cpu.ifReg <= 0x1f
      ensures cpu.Control() == old(cpu.Control()) && cpu.Timer() == old(cpu.Timer())
    {
      vblankDots := vblankDots + dots;
      if vblankDots / LcdTiming.DOTS_VBLANK_LINE != 0 {
        SetLy(Byte(ly + 1));
        vblankDots := vblankDots % LcdTiming.DOTS_VBLANK_LINE;
      }
    }

    /** The part of ppu_refresh that lets the dots of an instruction pass. */
    method Advance(dots: nat)
      requires Shaped() && sprites.Valid() && (mode == LcdTiming.Draw ==> ly <= 144)
      modifies this`ly, this`stat, this`log, this`vblankDots, this`dotsRemaining, this`mode, this`frameCount,
               cpu`ifReg, screen
      ensures Lcd() == LcdTiming.Advance(old(Lcd()), dots)
      ensures old(cpu.ifReg) <= 0x1f ==> cpu.ifReg <= 0x1f
      ensures cpu.Control() == old(cpu.Control()) && cpu.Timer() == old(cpu.Timer())
      ensures if old(mode) == LcdTiming.Draw && mode == LcdTiming.HBlank
              then screen[..] == WithLine(old(screen[..]), old(Video()), sprites.Table())
              else screen[..] == old(screen[..])
    {
      dotsRemaining := Int16(dotsRemaining - dots);
      ghost var u := old(Lcd()).(dots := Int16(old(dotsRemaining) - dots));
      assert Lcd() == u;
      if dotsRemaining <= 0 || ly == 0x99 {
        ChangePhase();
      } else if mode == LcdTiming.VBlank {
        CountVblank(dots);
      }
    }

    /** ppu_refresh. */
    method Refresh(cycles: byte)
      requires Shaped() && sprites.Valid() && (mode == LcdTiming.Draw ==> ly <= 144)
      modifies this`ly, this`stat, this`log, this`vblankDots, this`dotsRemaining, this`mode, this`frameCount,
               cpu`ifReg, screen
      ensures Lcd() == LcdTiming.Refresh(old(Lcd()), cycles)
      ensures old(cpu.ifReg) <= 0x1f ==> cpu.ifReg <= 0x1f
      ensures cpu.Control() == old(cpu.Control()) && cpu.Timer() == old(cpu.Timer())
      ensures if old(mode) == LcdTiming.Draw && mode == LcdTiming.HBlank
              then screen[..] == WithLine(old(screen[..]), old(Video()), sprites.Table())
              else screen[..] == old(screen[..])
    {
      if !Has(lcdc, 0x80) {
        return;
      }
      var ticks: nat := cycles;
      if ticks == 0 {
        if mode != LcdTiming.VBlank {
          dotsRemaining := 12;
        }
        ticks := 3;
      }
      Advance(4 * ticks);
    }
  }

  /** The input of the timing machine that a store is, if it is one. */
  function InputOf(addr: word, value: byte): seq<LcdTiming.Input> {
    if addr == 0xff40 then [LcdTiming.WriteLcdc(value)]
    else if addr == 0xff41 then [LcdTiming.WriteStat(value)]
    else if addr == 0xff45 then [LcdTiming.WriteLyc(value)]
    else if addr == 0xff0f then [LcdTiming.WriteIf(value % 0x20)]
    else []
  }

  /**
   While the LCD is on and stays on, every store except one to LY is an input of the timing
   machine that its runs allow for, or none of its business.
   */
  lemma StoreIsInput(t: LcdTiming.Lcd, addr: word, value: byte)
    requires LcdTiming.IsOn(t) && addr != 0xff44 && (addr == 0xff40 ==> Has(value, 0x80))
    ensures LcdTiming.AllAllowed(InputOf(addr, value))
    ensures LcdTiming.Run(t, InputOf(addr, value)) == LcdAfterWrite(t, addr, value)
  {
    var inputs := InputOf(addr, value);
    if inputs != [] {
      assert inputs[..0] == [];
      assert LcdTiming.Run(t, inputs) == LcdTiming.Apply(t, inputs[0]);
    }
  }

  /** Every store except one to LY leaves the log made of stretches of the schedule. */
  lemma StoreScheduled(t: LcdTiming.Lcd, addr: word, value: byte)
    requires LcdTiming.Scheduled(t) && addr != 0xff44
    ensures LcdTiming.Scheduled(LcdAfterWrite(t, addr, value))
  {
    hide LcdTiming.Scheduled;
    var u := LcdAfterWrite(t, addr, value);
    if addr == 0xff40 {
      LcdTiming.LcdcScheduled(t, value);
    } else {
      LcdTiming.RegisterScheduled(t, u.stat, u.lyc, u.ifReg);
    }
  }

  lemma LineExtends(screen: seq<Pixel>, base: nat, line: seq<Pixel>, x: nat)
    requires x < |line| && base + x < |screen| && screen[base..base + x] == line[..x]
    ensures screen[base + x := line[x]][base..base + x + 1] == line[..x + 1]
  {
    var s := screen[base + x := line[x]];
    assert s[base..base + x + 1] == s[base..base + x] + [line[x]];
    assert s[base..base + x] == screen[base..base + x];
  }

  /** The timing machine after a store into the PPU's registers or IF. */
  function LcdAfterWrite(t: LcdTiming.Lcd, addr: word, value: byte): LcdTiming.Lcd {
    if addr == 0xff40 then
      if LcdTiming.IsOn(t) != Has(value, 0x80) then LcdTiming.Reset(t, value) else t.(lcdc := value)
    else if addr == 0xff41 then t.(stat := value)
    else if addr == 0xff44 then t.(ly := value)
    else if addr == 0xff45 then t.(lyc := value)
    else if addr == 0xff0f then t.(ifReg := value % 0x20)
    else t
  }

  /** The line the video state and the sprites call for. */
  ghost function FullLine(v: PixelPlane.Video, t: Table): (line: seq<Pixel>)
    requires WellFormed(v) && Consistent(t) && v.ly <= 144
    ensures |line| == LINE
  {
    seq(LINE, x requires 0 <= x < LINE => PixelAt(v, t, x))
  }

  /** The frame before any line is drawn. */
  ghost function Blank(): (s: seq<Pixel>)
    ensures |s| == STORED_LINES * LINE
  {
    seq(STORED_LINES * LINE, _ => Unset)
  }

  /** The frame with line LY drawn. */
  ghost function WithLine(screen: seq<Pixel>, v: PixelPlane.Video, t: Table): (s: seq<Pixel>)
    requires |screen| == STORED_LINES * LINE && WellFormed(v) && Consistent(t) && v.ly <= 144
    ensures |s| == |screen|
  {
    screen[..LINE * v.ly] + FullLine(v, t) + screen[LINE * v.ly + LINE..]
  }

  /** Pixel by pixel: the frame at (x, y) afterwards. */
  lemma PixelInFrame(screen: seq<Pixel>, v: PixelPlane.Video, t: Table, x: nat, y: nat)
    requires |screen| == STORED_LINES * LINE && WellFormed(v) && Consistent(t) && v.ly <= 144 && x < 160 && y <= 144
    ensures WithLine(screen, v, t)[160 * y + x] == if y == v.ly then PixelAt(v, t, x) else screen[160 * y + x]
  {
    var at := LINE * v.ly;
    if y < v.ly {
      assert 160 * y + x < at;
    } else if y > v.ly {
      assert 160 * y + x >= at + LINE;
    } else {
      assert WithLine(screen, v, t)[160 * y + x] == FullLine(v, t)[x];
    }
  }

  lemma LineStored(before: seq<Pixel>, after: seq<Pixel>, v: PixelPlane.Video, t: Table)
    requires |before| == |after| == STORED_LINES * LINE && WellFormed(v) && Consistent(t) && v.ly <= 144
    requires after[..LINE * v.ly] == before[..LINE * v.ly]
    requires after[LINE * v.ly..LINE * v.ly + LINE] == FullLine(v, t)
    requires after[LINE * v.ly + LINE..] == before[LINE * v.ly + LINE..]
    ensures after == WithLine(before, v, t)
  {
    hide FullLine;
    var at := LINE * v.ly;
    assert after == after[..at] + after[at..at + LINE] + after[at + LINE..];
  }
}
