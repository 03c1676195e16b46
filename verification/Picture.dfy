/**
 The picture from memory: what each layer of a line shows, read off the cells of the address space alone.
 */
module Picture {
  import opened Bytes
  import MachineState
  import MemoryMap
  import PixelPlane
  import SpriteIndex
  import SpriteLookup

  /** The row of tile n at line py, in either addressing mode. */
  function TileRow(lcdc: byte, n: byte, py: nat): (at: word)
    requires py < 256
    ensures 0x8000 <= at < 0x97ff
  {
    0x8000 + (if lcdc / 16 % 2 == 1 || n >= 0x80 then 16 * n else 0x1000 + 16 * n) + 2 * (py % 8)
  }

  lemma VideoBytes(mem: seq<byte>, ly: byte)
    requires |mem| == MemoryMap.SIZE
    ensures var v := MachineState.VideoOf(mem, ly);
            && (forall i: nat | i < 0x1800 :: v.tiles[i] == mem[0x8000 + i])
            && (forall i: nat | i < 0x400 :: v.map1[i] == mem[0x9800 + i] && v.map2[i] == mem[0x9c00 + i])
  {
  }

  /**
   The background of column x of the line, from memory: SCX at 0xff43, SCY at 0xff42, the maps at 0x9800 and
   0x9c00, the tiles from 0x8000 on, and the palette at 0xff47.
   */
  lemma BgFromMemory(mem: seq<byte>, ly: byte, x: nat)
    requires |mem| == MemoryMap.SIZE && x < 160
    ensures var lcdc, px, py := mem[0xff40], (x + mem[0xff43]) % 256, (ly + mem[0xff42]) % 256;
            var at := TileRow(lcdc, mem[(if lcdc / 8 % 2 == 1 then 0x9c00 else 0x9800) + 32 * (py / 8) + px / 8], py);
            var c := PixelPlane.PlanesColor(mem[at], mem[at + 1], px % 8);
            PixelPlane.BgLayer(MachineState.VideoOf(mem, ly), x) ==
            if lcdc % 2 == 1 then PixelPlane.Layer(c, PixelPlane.Rgb(PixelPlane.Rgba(PixelPlane.Shade(mem[0xff47], c))))
            else PixelPlane.Absent
  {
    hide PixelPlane.PlanesColor, PixelPlane.Shade, PixelPlane.BgColor;
    VideoBytes(mem, ly);
    PixelPlane.BgFromBytes(MachineState.VideoOf(mem, ly), x);
  }

  /** The window likewise, its corner from WY at 0xff4a and WX at 0xff4b. */
  lemma WindowFromMemory(mem: seq<byte>, ly: byte, x: nat)
    requires |mem| == MemoryMap.SIZE && x < 160 && ly <= 144
    ensures var lcdc, wy, wx := mem[0xff40], mem[0xff4a], mem[0xff4b];
            var layer := PixelPlane.WindowLayer(MachineState.VideoOf(mem, ly), x);
            if lcdc / 32 % 2 == 1 && x + 7 >= wx && ly >= wy && wx <= 165 && wy <= 142 then
              var px, py := x + 7 - wx, ly - wy;
              var n := mem[(if lcdc / 64 % 2 == 1 then 0x9c00 else 0x9800) + 32 * (py / 8) + px / 8];
              var at := TileRow(lcdc, n, py);
              var c := PixelPlane.PlanesColor(mem[at], mem[at + 1], px % 8);
              layer == PixelPlane.Layer(c, PixelPlane.Rgb(PixelPlane.Rgba(PixelPlane.Shade(mem[0xff47], c))))
            else layer == PixelPlane.Absent
  {
    hide PixelPlane.PlanesColor, PixelPlane.Shade, PixelPlane.WindowColor, PixelPlane.WindowCovers;
    VideoBytes(mem, ly);
    PixelPlane.WindowFromBytes(MachineState.VideoOf(mem, ly), x);
  }

  /** A sprite: its four bytes in OAM from 0xfe00 on, its tile from 0x8000 on, its palette at 0xff48 or 0xff49. */
  lemma SpriteFromMemory(s: MachineState.Snapshot, a: int, x: nat, ly: byte)
    requires MachineState.Whole(s) && MachineState.OamAgrees(s) && SpriteIndex.IsSprite(a) && x < 160 && ly <= 144
    requires 0 <= ly + 16 - s.mem[0xfe00 + a] < (if s.mem[0xff40] / 4 % 2 == 1 then 16 else 8)
    requires 0 <= x + 8 - s.mem[0xfe01 + a] < 8
    ensures var mem, v, attr := s.mem, MachineState.VideoOf(s.mem, ly), s.mem[0xfe03 + a];
            var height: int := if mem[0xff40] / 4 % 2 == 1 then 16 else 8;
            var dy: int, dx: int := ly + 16 - mem[0xfe00 + a], x + 8 - mem[0xfe01 + a];
            var row := if attr / 64 % 2 == 1 then height - 1 - dy else dy;
            var col := if attr / 32 % 2 == 1 then 7 - dx else dx;
            var at := 0x8000 + 16 * (mem[0xfe02 + a] as int) + 2 * row;
            && SpriteLookup.Covers(s.table.oam, a, x, ly, PixelPlane.SpriteSize(v.lcdc))
            && PixelPlane.SpriteColor(v, s.table.oam, a, x) == PixelPlane.PlanesColor(mem[at], mem[at + 1], col)
            && forall c: nat | c < 4 ::
                 PixelPlane.SpritePixel(v, s.table.oam, PixelPlane.Opaque(a, c)) ==
                 PixelPlane.Rgb(PixelPlane.Rgba(
                   PixelPlane.Shade(if attr / 16 % 2 == 1 then mem[0xff49] else mem[0xff48], c)))
  {
    hide PixelPlane.PlanesColor, PixelPlane.Shade, PixelPlane.SpriteColor;
    VideoBytes(s.mem, ly);
    var oam := s.table.oam;
    assert oam[a] == s.mem[0xfe00 + a] && oam[a + 1] == s.mem[0xfe00 + (a + 1)];
    assert oam[a + 2] == s.mem[0xfe00 + (a + 2)] && oam[a + 3] == s.mem[0xfe00 + (a + 3)];
    PixelPlane.SpriteFromBytes(MachineState.VideoOf(s.mem, ly), oam, a, x);
  }
}
