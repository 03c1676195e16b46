/**
 What a scanline shows, stated without the renderer's pointer arithmetic: background and window
 sample a 256 x 256 plane of 8 x 8 tiles, sprites sample their own tile, and a priority rule
 picks the pixel.
 */
module PixelPlane {
  import opened Bytes
  import opened SpriteIndex
  import opened SpriteLookup
  import opened SpritePriority

  datatype Video = Video(
    lcdc: byte, ly: byte, scx: byte, scy: byte, wx: byte, wy: byte, bgp: byte, obp0: byte, obp1: byte,
    tiles: seq<byte>, map1: seq<byte>, map2: seq<byte>
  )

  /** A pixel of the frame; `Unset` stands for an indeterminate value. */
  datatype Pixel = Unset | Rgb(color: int)

  const TILE_BYTES := 0x1800
  const MAP_BYTES := 0x400
  const LCDC_BG := 1
  const LCDC_OBJ := 2
  const LCDC_OBJ_TALL := 4
  const LCDC_BG_MAP := 8
  const LCDC_TILE_DATA := 16
  const LCDC_WIN := 32
  const LCDC_WIN_MAP := 64
  const ATTR_BEHIND := 0x80
  const ATTR_FLIP_Y := 0x40
  const ATTR_FLIP_X := 0x20
  const ATTR_PALETTE := 0x10

  predicate WellFormed(v: Video) {
    |v.tiles| == TILE_BYTES && |v.map1| == MAP_BYTES && |v.map2| == MAP_BYTES
  }

  /** Bit n, counted from the lowest. */
  function Bit(b: byte, n: nat): (d: nat)
    ensures d < 2
    decreases n
  {
    if n == 0 then b % 2 else Bit(b / 2, n - 1)
  }

  /** The colour index at column `col` of a tile row stored in two bit planes. */
  function PlanesColor(lo: byte, hi: byte, col: nat): (c: nat)
    requires col < 8
    ensures c < 4
  {
    2 * Bit(hi, 7 - col) + Bit(lo, 7 - col)
  }

  /** The colour index at (col, row) of the tile stored at `addr`. */
  function TileColor(tiles: seq<byte>, addr: nat, row: nat, col: nat): (c: nat)
    requires col < 8 && addr + 2 * row + 1 < |tiles|
    ensures c < 4
  {
    PlanesColor(tiles[addr + 2 * row], tiles[addr + 2 * row + 1], col)
  }

  /** The shade of colour c: two bits of the palette for each colour. */
  function Shade(palette: byte, c: nat): (s: nat)
    ensures s < 4
    decreases c
  {
    if c == 0 then palette % 4 else Shade(palette / 4, c - 1)
  }

  function Rgba(shade: nat): int
    requires shade < 4
  {
    if shade == 0 then 0xe8fccc else if shade == 1 then 0xacd490 else if shade == 2 then 0x548c70 else 0x142c38
  }

  function Signed(b: byte): int { if b < 0x80 then b else b - 0x100 }

  /** Where a background or window tile starts, in both addressing modes. */
  function TileStart(lcdc: byte, tile: byte): (addr: nat)
    ensures addr + 15 < TILE_BYTES
  {
    if Has(lcdc, LCDC_TILE_DATA) then 16 * tile else 0x1000 + 16 * Signed(tile)
  }

  /** The plane sampled at (px, py). */
  function PlaneColor(v: Video, tileMap: seq<byte>, px: nat, py: nat): (c: nat)
    requires WellFormed(v) && |tileMap| == MAP_BYTES && px < 256 && py < 256
    ensures c < 4
  {
    TileColor(v.tiles, TileStart(v.lcdc, tileMap[py / 8 * 32 + px / 8]), py % 8, px % 8)
  }

  function BgColor(v: Video, x: nat): (c: nat)
    requires WellFormed(v) && x < 160
    ensures c < 4
  {
    var tileMap := if Has(v.lcdc, LCDC_BG_MAP) then v.map2 else v.map1;
    PlaneColor(v, tileMap, (x + v.scx) % 256, (v.ly + v.scy) % 256)
  }

  predicate WindowCovers(v: Video, x: nat) {
    Has(v.lcdc, LCDC_WIN) && v.wy <= v.ly && v.wx <= x + 7 && v.wx < 166 && v.wy < 143
  }

  function WindowColor(v: Video, x: nat): (c: nat)
    requires WellFormed(v) && x < 160 && v.ly <= 144 && WindowCovers(v, x)
    ensures c < 4
  {
    var tileMap := if Has(v.lcdc, LCDC_WIN_MAP) then v.map2 else v.map1;
    PlaneColor(v, tileMap, x + 7 - v.wx, v.ly - v.wy)
  }

  // ---------- sprites ----------

  function SpriteSize(lcdc: byte): nat { if Has(lcdc, LCDC_OBJ_TALL) then 16 else 8 }

  /** The row and the column of sprite `a` that fall on the pixel. */
  function SpriteRow(v: Video, oam: seq<byte>, a: int, x: nat): (row: nat)
    requires |oam| == OAM_BYTES && IsSprite(a) && Covers(oam, a, x, v.ly, SpriteSize(v.lcdc))
    ensures row < SpriteSize(v.lcdc)
  {
    var row := v.ly + 16 - oam[a];
    if Has(oam[a + 3], ATTR_FLIP_Y) then SpriteSize(v.lcdc) - 1 - row else row
  }

  function SpriteCol(v: Video, oam: seq<byte>, a: int, x: nat): (col: nat)
    requires |oam| == OAM_BYTES && IsSprite(a) && Covers(oam, a, x, v.ly, SpriteSize(v.lcdc))
    ensures col < 8
  {
    var col := x + 8 - oam[a + 1];
    if Has(oam[a + 3], ATTR_FLIP_X) then 7 - col else col
  }

  /** The colour index sprite `a` has at column x of the line. */
  function SpriteColor(v: Video, oam: seq<byte>, a: int, x: nat): (c: nat)
    requires WellFormed(v) && |oam| == OAM_BYTES && IsSprite(a) && Covers(oam, a, x, v.ly, SpriteSize(v.lcdc))
    ensures c < 4
  {
    TileColor(v.tiles, 16 * (oam[a + 2] as int), SpriteRow(v, oam, a, x), SpriteCol(v, oam, a, x))
  }

  function AsCandidate(v: Video, oam: seq<byte>, a: int, x: nat): Candidate
    requires WellFormed(v) && |oam| == OAM_BYTES && IsSprite(a) && Covers(oam, a, x, v.ly, SpriteSize(v.lcdc))
  {
    Candidate(a, oam[a + 1], SpriteColor(v, oam, a, x))
  }

  ghost predicate AllCover(v: Video, oam: seq<byte>, objs: seq<int>, x: nat)
    requires |oam| == OAM_BYTES
  {
    forall i | 0 <= i < |objs| :: IsSprite(objs[i]) && Covers(oam, objs[i], x, v.ly, SpriteSize(v.lcdc))
  }

  ghost function Candidates(v: Video, oam: seq<byte>, objs: seq<int>, x: nat): (cs: seq<Candidate>)
    requires WellFormed(v) && |oam| == OAM_BYTES && AllCover(v, oam, objs, x)
    ensures |cs| == |objs|
  {
    seq(|objs|, i requires 0 <= i < |objs| => AsCandidate(v, oam, objs[i], x))
  }

  lemma LookupCovers(v: Video, t: Table, x: nat)
    requires WellFormed(v) && Consistent(t) && x < 160 && v.ly <= 144
    ensures AllCover(v, t.oam, Lookup(t, x, v.ly, SpriteSize(v.lcdc)), x)
  {
    var r := Lookup(t, x, v.ly, SpriteSize(v.lcdc));
    LookupMeaning(t, x, v.ly, SpriteSize(v.lcdc));
    forall i | 0 <= i < |r|
      ensures IsSprite(r[i]) && Covers(t.oam, r[i], x, v.ly, SpriteSize(v.lcdc))
    {
      assert r[i] in Elements(r);
      assert r[i] in Naive(t.oam, x, v.ly, SpriteSize(v.lcdc));
    }
  }

  lemma BestIsListed(v: Video, oam: seq<byte>, objs: seq<int>, x: nat)
    requires WellFormed(v) && |oam| == OAM_BYTES && AllCover(v, oam, objs, x) && objs != []
    ensures var best := Fold(Candidates(v, oam, objs, x));
            best.a in objs && IsSprite(best.a) && 0 <= best.color < 4
  {
    var i := FoldIsListed(Candidates(v, oam, objs, x));
    assert objs[i] in objs;
  }

  /** The sprite of the line at x, if one is opaque there. */
  datatype Sprite = NoSprite | Opaque(a: int, color: nat)

  /** What the fold over a list of sprites shows. */
  ghost function Shown(v: Video, oam: seq<byte>, objs: seq<int>, x: nat): (s: Sprite)
    requires WellFormed(v) && |oam| == OAM_BYTES && AllCover(v, oam, objs, x)
    ensures s.Opaque? ==> 0 < s.color < 4 && IsSprite(s.a)
  {
    if objs == [] then NoSprite
    else
      BestIsListed(v, oam, objs, x);
      var best := Fold(Candidates(v, oam, objs, x));
      if best.color == 0 then NoSprite else Opaque(best.a, best.color)
  }

  ghost function SpriteAt(v: Video, t: Table, x: nat): (s: Sprite)
    requires WellFormed(v) && Consistent(t) && x < 160 && v.ly <= 144
    ensures s.Opaque? ==> 0 < s.color < 4 && IsSprite(s.a)
  {
    LookupCovers(v, t, x);
    if !Has(v.lcdc, LCDC_OBJ) then NoSprite else Shown(v, t.oam, Lookup(t, x, v.ly, SpriteSize(v.lcdc)), x)
  }

  // ---------- the pixel ----------

  function SpritePixel(v: Video, oam: seq<byte>, s: Sprite): Pixel
    requires |oam| == OAM_BYTES && s.Opaque? && IsSprite(s.a) && s.color < 4
  {
    Rgb(Rgba(Shade(if Has(oam[s.a + 3], ATTR_PALETTE) then v.obp1 else v.obp0, s.color)))
  }

  /** What the background or the window offers at a pixel. */
  datatype Layer = Absent | Layer(index: nat, pixel: Pixel)

  function BgLayer(v: Video, x: nat): Layer
    requires WellFormed(v) && x < 160
  {
    if Has(v.lcdc, LCDC_BG) then Layer(BgColor(v, x), Rgb(Rgba(Shade(v.bgp, BgColor(v, x))))) else Absent
  }

  function WindowLayer(v: Video, x: nat): Layer
    requires WellFormed(v) && x < 160 && v.ly <= 144
  {
    if WindowCovers(v, x) then Layer(WindowColor(v, x), Rgb(Rgba(Shade(v.bgp, WindowColor(v, x))))) else Absent
  }

  /** The layer covers: everything where there is no sprite, with an index other than 0 where there is. */
  predicate Shows(layer: Layer, sprite: Pixel) { layer.Layer? && (sprite == Unset || layer.index != 0) }

  /** A sprite in front; otherwise the window, then the background, then the sprite behind them. */
  function Mix(sprite: Pixel, behind: bool, window: Layer, bg: Layer): Pixel {
    if sprite != Unset && !behind then sprite
    else if Shows(window, sprite) then window.pixel
    else if Shows(bg, sprite) then bg.pixel
    else sprite
  }

  /** The sprite's part of the pixel, and whether it lies behind the other layers. */
  ghost function SpriteShown(v: Video, t: Table, x: nat): Pixel
    requires WellFormed(v) && Consistent(t) && x < 160 && v.ly <= 144
  {
    var s := SpriteAt(v, t, x);
    if s.Opaque? then SpritePixel(v, t.oam, s) else Unset
  }

  ghost predicate SpriteBehind(v: Video, t: Table, x: nat)
    requires WellFormed(v) && Consistent(t) && x < 160 && v.ly <= 144
  {
    var s := SpriteAt(v, t, x);
    s.Opaque? && Has(t.oam[s.a + 3], ATTR_BEHIND)
  }

  /** The pixel the line shows at x. */
  ghost function PixelAt(v: Video, t: Table, x: nat): Pixel
    requires WellFormed(v) && Consistent(t) && x < 160 && v.ly <= 144
  {
    Mix(SpriteShown(v, t, x), SpriteBehind(v, t, x), WindowLayer(v, x), BgLayer(v, x))
  }

  /** A pixel is indeterminate exactly when the background is off and nothing else draws there. */
  lemma UnsetExactly(v: Video, t: Table, x: nat)
    requires WellFormed(v) && Consistent(t) && x < 160 && v.ly <= 144
    ensures PixelAt(v, t, x) == Unset <==>
            !Has(v.lcdc, LCDC_BG) && !WindowCovers(v, x) && SpriteAt(v, t, x).NoSprite?
  {
  }

  /** The LCD on with everything else off: no pixel of the line is determined. */
  lemma UnsetReached(v: Video, x: nat)
    requires WellFormed(v) && v.lcdc == 0x80 && x < 160 && v.ly <= 144
    ensures Consistent(Initial()) && PixelAt(v, Initial(), x) == Unset
  {
    RunIndex([]);
    UnsetExactly(v, Initial(), x);
  }

  lemma ShownIsSprite(v: Video, t: Table, x: nat)
    requires WellFormed(v) && Consistent(t) && x < 160 && v.ly <= 144 && Has(v.lcdc, LCDC_OBJ)
    ensures AllCover(v, t.oam, Lookup(t, x, v.ly, SpriteSize(v.lcdc)), x)
    ensures SpriteAt(v, t, x) == Shown(v, t.oam, Lookup(t, x, v.ly, SpriteSize(v.lcdc)), x)
  {
    LookupCovers(v, t, x);
  }

  // ---------- the pixel from the raw bytes ----------

  lemma HalfShift(b: byte, n: nat)
    requires 1 <= n < 8
    ensures b / 2 / Power2(n - 1) == b / Power2(n)
  {
    assert b / 2 / 1 == b / 2 && b / 2 / 2 == b / 4 && b / 2 / 4 == b / 8 && b / 2 / 8 == b / 16;
    assert b / 2 / 16 == b / 32 && b / 2 / 32 == b / 64 && b / 2 / 64 == b / 128;
  }

  lemma {:induction false} BitOfShift(b: byte, n: nat)
    requires n < 8
    ensures Bit(b, n) == b / Power2(n) % 2
    decreases n
  {
    if n > 0 {
      HalfShift(b, n);
      BitOfShift(b / 2, n - 1);
    }
  }

  /** Column `col` of a tile row: the high bit of the index is in the second byte, the leftmost column in bit 7. */
  lemma PlanesBits(lo: byte, hi: byte, col: nat)
    requires col < 8
    ensures PlanesColor(lo, hi, col) == 2 * (hi / Power2(7 - col) % 2) + lo / Power2(7 - col) % 2
  {
    BitOfShift(lo, 7 - col);
    BitOfShift(hi, 7 - col);
  }

  /**
   The background at column x: the map that bit 3 of LCDC selects, wrapped at 256, names tile n, whose
   rows start at 16 n if bit 4 is set or n is 0x80 or more, and at 0x1000 + 16 n otherwise. It shows
   when bit 0 is set, in the shade BGP has for the index.
   */
  lemma BgFromBytes(v: Video, x: nat)
    requires WellFormed(v) && x < 160
    ensures var px, py := (x + v.scx) % 256, (v.ly + v.scy) % 256;
            var n: int := (if v.lcdc / 8 % 2 == 1 then v.map2 else v.map1)[32 * (py / 8) + px / 8];
            var at := (if v.lcdc / 16 % 2 == 1 || n >= 0x80 then 16 * n else 0x1000 + 16 * n) + 2 * (py % 8);
            && BgColor(v, x) == PlanesColor(v.tiles[at], v.tiles[at + 1], px % 8)
            && BgLayer(v, x) == if v.lcdc % 2 == 1 then Layer(BgColor(v, x), Rgb(Rgba(Shade(v.bgp, BgColor(v, x)))))
                                else Absent
  {
  }

  /**
   The window at column x: from column WX - 7 and line WY on, unless WX or WY puts it off the screen, when bit
   5 of LCDC is set. The map is the one bit 6 selects, counted from the window's own corner.
   */
  lemma WindowFromBytes(v: Video, x: nat)
    requires WellFormed(v) && x < 160 && v.ly <= 144
    ensures WindowCovers(v, x) <==>
            v.lcdc / 32 % 2 == 1 && x >= v.wx - 7 && v.ly >= v.wy && v.wx <= 165 && v.wy <= 142
    ensures WindowCovers(v, x) ==>
              var px, py := x + 7 - v.wx, v.ly - v.wy;
              var n: int := (if v.lcdc / 64 % 2 == 1 then v.map2 else v.map1)[32 * (py / 8) + px / 8];
              var at := (if v.lcdc / 16 % 2 == 1 || n >= 0x80 then 16 * n else 0x1000 + 16 * n) + 2 * (py % 8);
              WindowColor(v, x) == PlanesColor(v.tiles[at], v.tiles[at + 1], px % 8)
    ensures WindowLayer(v, x) == if WindowCovers(v, x)
                                 then Layer(WindowColor(v, x), Rgb(Rgba(Shade(v.bgp, WindowColor(v, x)))))
                                 else Absent
  {
  }

  /**
   A sprite at a pixel: 8 or 16 lines as bit 2 of LCDC says, read upwards if bit 6 of its attributes
   is set and leftwards if bit 5 is, from tile data at 16 times its number.
   */
  lemma SpriteFromBytes(v: Video, oam: seq<byte>, a: int, x: nat)
    requires WellFormed(v) && |oam| == OAM_BYTES && IsSprite(a) && Covers(oam, a, x, v.ly, SpriteSize(v.lcdc))
    ensures var height: int := if v.lcdc / 4 % 2 == 1 then 16 else 8;
            var dy: int, dx: int := v.ly + 16 - oam[a], x + 8 - oam[a + 1];
            && SpriteSize(v.lcdc) == height && 0 <= dy < height && 0 <= dx < 8
            && var row := if oam[a + 3] / 64 % 2 == 1 then height - 1 - dy else dy;
               var col := if oam[a + 3] / 32 % 2 == 1 then 7 - dx else dx;
               var at := 16 * oam[a + 2] + 2 * row;
               SpriteColor(v, oam, a, x) == PlanesColor(v.tiles[at], v.tiles[at + 1], col)
  {
  }

  lemma {:induction false} ShadeOfShift(palette: byte, c: nat)
    requires c < 4
    ensures Shade(palette, c) == palette / Power2(2 * c) % 4
    decreases c
  {
    if c == 2 {
      ShadeOfShift(palette / 4, 1);
    } else if c == 3 {
      ShadeOfShift(palette / 16, 1);
      assert Shade(palette, 3) == Shade(palette / 4, 2) == Shade(palette / 4 / 4, 1);
    }
  }

  /** Two bits of the palette for each index, the lowest for index 0, and four shades from light to dark. */
  lemma ShadesFromBits(palette: byte, c: nat)
    requires c < 4
    ensures Rgba(Shade(palette, c)) == [0xe8fccc, 0xacd490, 0x548c70, 0x142c38][palette / Power2(2 * c) % 4]
  {
    ShadeOfShift(palette, c);
  }

  /**
   The layers of a pixel: a sprite whose attribute bit 7 is clear hides both others; behind them it shows
   only through index 0 of both; the window hides the background. OBP1 colours a sprite whose
   attribute bit 4 is set, OBP0 any other, and with bit 1 of LCDC clear there is none.
   */
  lemma PixelFromLayers(v: Video, t: Table, x: nat)
    requires WellFormed(v) && Consistent(t) && x < 160 && v.ly <= 144
    ensures var s, p, window, bg := SpriteAt(v, t, x), PixelAt(v, t, x), WindowLayer(v, x), BgLayer(v, x);
            && (v.lcdc / 2 % 2 == 0 ==> s.NoSprite?)
            && (s.NoSprite? ==> p == if window.Layer? then window.pixel else if bg.Layer? then bg.pixel else Unset)
            && (s.Opaque? ==>
                  var front := t.oam[s.a + 3] / 128 % 2 == 0;
                  var own := Rgb(Rgba(Shade(if t.oam[s.a + 3] / 16 % 2 == 1 then v.obp1 else v.obp0, s.color)));
                  var windowHides, bgHides := window.Layer? && window.index > 0, bg.Layer? && bg.index > 0;
                  && (p == own || (!front && (windowHides || bgHides)))
                  && (front || !(windowHides || bgHides) ==> p == own)
                  && (!front && windowHides ==> p == window.pixel)
                  && (!front && bgHides && !windowHides ==> p == bg.pixel))
  {
  }

  // ---------- the sprite the rule chooses ----------

  /**
   Which sprite the renderer shows, exactly: the opaque one of least (X, OAM place) in the list of
   the lookup, if and only if no transparent one of the same X and an earlier place is listed
   after it.
   */
  lemma WinnerShown(v: Video, t: Table, x: nat, k: nat)
    requires WellFormed(v) && Consistent(t) && x < 160 && v.ly <= 144 && Has(v.lcdc, LCDC_OBJ)
    requires var objs := Lookup(t, x, v.ly, SpriteSize(v.lcdc));
             AllCover(v, t.oam, objs, x) && Chosen(Candidates(v, t.oam, objs, x), k)
    ensures var objs := Lookup(t, x, v.ly, SpriteSize(v.lcdc));
            var cs := Candidates(v, t.oam, objs, x);
            SpriteAt(v, t, x) == Opaque(cs[k].a, cs[k].color) <==> forall j | k < j < |cs| :: !Displaces(cs, k, j)
  {
    var objs := Lookup(t, x, v.ly, SpriteSize(v.lcdc));
    LookupMeaning(t, x, v.ly, SpriteSize(v.lcdc));
    ShownIsSprite(v, t, x);
    ListWinner(v, t.oam, objs, x, k);
  }

  lemma ListWinner(v: Video, oam: seq<byte>, objs: seq<int>, x: nat, k: nat)
    requires WellFormed(v) && |oam| == OAM_BYTES && AllCover(v, oam, objs, x) && Distinct(objs)
    requires Chosen(Candidates(v, oam, objs, x), k)
    ensures var cs := Candidates(v, oam, objs, x);
            Shown(v, oam, objs, x) == Opaque(cs[k].a, cs[k].color) <==> forall j | k < j < |cs| :: !Displaces(cs, k, j)
  {
    var cs := Candidates(v, oam, objs, x);
    assert forall i | 0 <= i < |cs| :: cs[i].a == objs[i];
    assert DistinctSprites(cs);
    PriorityExact(cs, k);
    var i := FoldIsListed(cs);
    assert cs[i].a == cs[k].a ==> i == k;
  }

  /** Sprite `a` is the one the rule chooses among a set of covering sprites. */
  ghost predicate RuleChooses(v: Video, oam: seq<byte>, naive: set<int>, x: nat, a: int)
    requires WellFormed(v) && |oam| == OAM_BYTES
    requires forall b | b in naive :: IsSprite(b) && Covers(oam, b, x, v.ly, SpriteSize(v.lcdc))
  {
    && a in naive && SpriteColor(v, oam, a, x) != 0
    && forall b | b in naive && b != a && SpriteColor(v, oam, b, x) != 0 ::
         oam[a + 1] < oam[b + 1] || (oam[a + 1] == oam[b + 1] && a < b)
  }

  /** A transparent sprite of the same X and an earlier place in OAM is listed after `a`. */
  ghost predicate DisplacedInList(v: Video, oam: seq<byte>, objs: seq<int>, x: nat, a: int)
    requires WellFormed(v) && |oam| == OAM_BYTES && AllCover(v, oam, objs, x) && IsSprite(a)
  {
    exists j, k :: 0 <= k < j < |objs| && objs[k] == a && objs[j] < a
                   && oam[objs[j] + 1] == oam[a + 1] && SpriteColor(v, oam, objs[j], x) == 0
  }

  /** At most ten sprites cover the pixel, and those of Y below 16 are filed. */
  ghost predicate AllFound(t: Table, naive: set<int>)
    requires Shape(t)
  {
    |naive| <= 10 && forall a | a in naive && IsSprite(a) && 1 <= t.oam[a] <= 15 :: Indexed(t, a)
  }

  /**
   Index, lookup, fold and tile arithmetic together, against a plain scan of the 40 sprites: the
   sprite the priority rule chooses among all that cover the pixel is the one that is shown, if
   and only if no transparent sprite displaces it; and if none is opaque, none is shown.
   */
  lemma SpriteIsRule(v: Video, t: Table, x: nat, a: int)
    requires WellFormed(v) && Consistent(t) && x < 160 && v.ly <= 144 && Has(v.lcdc, LCDC_OBJ)
    requires AllFound(t, Naive(t.oam, x, v.ly, SpriteSize(v.lcdc)))
    requires RuleChooses(v, t.oam, Naive(t.oam, x, v.ly, SpriteSize(v.lcdc)), x, a)
    ensures AllCover(v, t.oam, Lookup(t, x, v.ly, SpriteSize(v.lcdc)), x)
    ensures SpriteAt(v, t, x) == Opaque(a, SpriteColor(v, t.oam, a, x)) <==>
            !DisplacedInList(v, t.oam, Lookup(t, x, v.ly, SpriteSize(v.lcdc)), x, a)
  {
    var naive := Naive(t.oam, x, v.ly, SpriteSize(v.lcdc));
    var objs := FoundSprites(v, t, x, naive);
    RuleInList(v, t.oam, naive, objs, x, a);
  }

  lemma RuleInList(v: Video, oam: seq<byte>, naive: set<int>, objs: seq<int>, x: nat, a: int)
    requires WellFormed(v) && |oam| == OAM_BYTES && AllCover(v, oam, objs, x) && Distinct(objs)
    requires forall b :: b in naive <==> b in objs
    requires forall b | b in naive :: IsSprite(b) && Covers(oam, b, x, v.ly, SpriteSize(v.lcdc))
    requires RuleChooses(v, oam, naive, x, a)
    ensures Shown(v, oam, objs, x) == Opaque(a, SpriteColor(v, oam, a, x)) <==> !DisplacedInList(v, oam, objs, x, a)
  {
    hide SpriteColor, Covers, Shown, Fold;
    var cs := Candidates(v, oam, objs, x);
    var k := RuleIsChosen(v, oam, naive, objs, x, a);
    ListWinner(v, oam, objs, x, k);
    DisplacedMeans(v, oam, objs, x, a, k);
  }

  lemma RuleIsChosen(v: Video, oam: seq<byte>, naive: set<int>, objs: seq<int>, x: nat, a: int) returns (k: nat)
    requires WellFormed(v) && |oam| == OAM_BYTES && AllCover(v, oam, objs, x) && Distinct(objs)
    requires forall b :: b in naive <==> b in objs
    requires forall b | b in naive :: IsSprite(b) && Covers(oam, b, x, v.ly, SpriteSize(v.lcdc))
    requires RuleChooses(v, oam, naive, x, a)
    ensures k < |objs| && objs[k] == a && Chosen(Candidates(v, oam, objs, x), k)
  {
    hide SpriteColor, Covers;
    var cs := Candidates(v, oam, objs, x);
    k :| 0 <= k < |objs| && objs[k] == a;
    forall i | 0 <= i < |cs|
      ensures cs[i] == AsCandidate(v, oam, objs[i], x) && objs[i] in naive
    {
      assert objs[i] in objs;
    }
  }

  lemma DisplacedMeans(v: Video, oam: seq<byte>, objs: seq<int>, x: nat, a: int, k: nat)
    requires WellFormed(v) && |oam| == OAM_BYTES && AllCover(v, oam, objs, x) && Distinct(objs)
    requires k < |objs| && objs[k] == a
    ensures var cs := Candidates(v, oam, objs, x);
            DisplacedInList(v, oam, objs, x, a) <==> exists j | k < j < |cs| :: Displaces(cs, k, j)
  {
    hide SpriteColor, Covers;
    var cs := Candidates(v, oam, objs, x);
    forall j | k < j < |cs|
      ensures Displaces(cs, k, j) <==>
              objs[j] < a && oam[objs[j] + 1] == oam[a + 1] && SpriteColor(v, oam, objs[j], x) == 0
    {
      assert cs[j] == AsCandidate(v, oam, objs[j], x) && cs[k] == AsCandidate(v, oam, a, x);
      assert objs[k] != objs[j];
    }
    if DisplacedInList(v, oam, objs, x, a) {
      var j, k' :| 0 <= k' < j < |objs| && objs[k'] == a && objs[j] < a
                   && oam[objs[j] + 1] == oam[a + 1] && SpriteColor(v, oam, objs[j], x) == 0;
      assert k' == k;
      assert Displaces(cs, k, j);
    }
  }

  /** The list the pixel's sprite is chosen from, when it holds exactly the covering sprites. */
  lemma FoundSprites(v: Video, t: Table, x: nat, naive: set<int>) returns (objs: seq<int>)
    requires WellFormed(v) && Consistent(t) && x < 160 && v.ly <= 144 && Has(v.lcdc, LCDC_OBJ)
    requires naive == Naive(t.oam, x, v.ly, SpriteSize(v.lcdc)) && AllFound(t, naive)
    ensures objs == Lookup(t, x, v.ly, SpriteSize(v.lcdc))
    ensures AllCover(v, t.oam, objs, x) && Distinct(objs)
    ensures SpriteAt(v, t, x) == Shown(v, t.oam, objs, x)
    ensures forall a :: a in naive <==> a in objs
  {
    var size := SpriteSize(v.lcdc);
    objs := Lookup(t, x, v.ly, size);
    LookupIsNaiveScan(t, x, v.ly, size);
    LookupMeaning(t, x, v.ly, size);
    ShownIsSprite(v, t, x);
    assert Elements(objs) == naive;
    forall a
      ensures a in naive <==> a in objs
    {
      assert a in Elements(objs) <==> a in naive;
    }
  }

  lemma NoneShown(v: Video, t: Table, x: nat)
    requires WellFormed(v) && Consistent(t) && x < 160 && v.ly <= 144 && Has(v.lcdc, LCDC_OBJ)
    requires AllFound(t, Naive(t.oam, x, v.ly, SpriteSize(v.lcdc)))
    requires forall a | a in Naive(t.oam, x, v.ly, SpriteSize(v.lcdc)) :: SpriteColor(v, t.oam, a, x) == 0
    ensures SpriteAt(v, t, x) == NoSprite
  {
    var objs := FoundSprites(v, t, x, Naive(t.oam, x, v.ly, SpriteSize(v.lcdc)));
    if objs != [] {
      var cs := Candidates(v, t.oam, objs, x);
      forall i | 0 <= i < |cs|
        ensures cs[i].color == 0
      {
        assert objs[i] in objs;
      }
      AllTransparent(cs);
    }
  }

  /** Stores that put sprites 4 and 0 at the same place, filed in that order, with tiles 1 and 0. */
  const TIE: seq<OamWrite> := [OamWrite(4, 20), OamWrite(5, 12), OamWrite(6, 1), OamWrite(0, 20), OamWrite(1, 12)]

  lemma TieTable() returns (t: Table)
    ensures Consistent(t) && t == Run(TIE)
    ensures t.oam == Initial().oam[4 := 20][5 := 12][6 := 1][0 := 20][1 := 12]
    ensures t.rows == Initial().rows[1 := [4, 0]]
  {
    RunIndex(TIE);
    var t0 := Initial();
    FiledFirst(t0, 4, 20);
    var t1 := WriteOam(t0, 4, 20);
    var t3 := WriteOam(WriteOam(t1, 5, 12), 6, 1);
    FiledFirst(t3, 0, 20);
    t := WriteOam(WriteOam(t3, 0, 20), 1, 12);
    assert [] + [4] == [4] && [4] + [0] == [4, 0];
    assert t1.rows == t0.rows[1 := [4]] && t3.rows == t1.rows;
    assert t.rows == t3.rows[1 := [4, 0]];
    TieRun();
  }

  lemma TieRun()
    ensures Run(TIE) == WriteOam(WriteOam(WriteOam(WriteOam(WriteOam(Initial(), 4, 20), 5, 12), 6, 1), 0, 20), 1, 12)
  {
    assert TIE[..4][..3] == TIE[..3] && TIE[..3][..2] == TIE[..2] && TIE[..2][..1] == TIE[..1] && TIE[..1][..0] == [];
    assert Run(TIE[..1]) == WriteOam(Initial(), 4, 20);
    assert Run(TIE[..2]) == WriteOam(Run(TIE[..1]), 5, 12);
    assert Run(TIE[..3]) == WriteOam(Run(TIE[..2]), 6, 1);
    assert Run(TIE[..4]) == WriteOam(Run(TIE[..3]), 0, 20);
  }

  /**
   The departure from the rule, at a state the program can bring about: the opaque sprite 4 is the
   one to show, but the transparent sprite 0 displaces it and nothing is shown.
   */
  lemma TieLost(v: Video)
    requires WellFormed(v) && v.lcdc == 0x82 && v.ly == 4
    requires v.tiles[0] == v.tiles[1] == 0 && v.tiles[16] == 1 && v.tiles[17] == 0
    ensures var t := Run(TIE);
            && Consistent(t) && SpriteAt(v, t, 11) == NoSprite
            && RuleChooses(v, t.oam, Naive(t.oam, 11, 4, 8), 11, 4)
  {
    var t := TieTable();
    TieColors(v, t.oam);
    TieListed(t);
    ShownIsSprite(v, t, 11);
    TieFold(v, t.oam);
  }

  lemma TieColors(v: Video, oam: seq<byte>)
    requires WellFormed(v) && v.lcdc == 0x82 && v.ly == 4
    requires v.tiles[0] == v.tiles[1] == 0 && v.tiles[16] == 1 && v.tiles[17] == 0
    requires oam == Initial().oam[4 := 20][5 := 12][6 := 1][0 := 20][1 := 12]
    ensures SpriteSize(v.lcdc) == 8 && Has(v.lcdc, LCDC_OBJ)
    ensures Covers(oam, 4, 11, 4, 8) && Covers(oam, 0, 11, 4, 8)
    ensures SpriteColor(v, oam, 4, 11) == 1 && SpriteColor(v, oam, 0, 11) == 0
    ensures forall a | IsSprite(a) && Covers(oam, a, 11, 4, 8) :: a == 0 || a == 4
  {
    hide TileColor;
    assert SpriteRow(v, oam, 4, 11) == 0 && SpriteCol(v, oam, 4, 11) == 7;
    assert SpriteRow(v, oam, 0, 11) == 0 && SpriteCol(v, oam, 0, 11) == 7;
    TieTiles(v);
  }

  lemma TieTiles(v: Video)
    requires WellFormed(v) && v.tiles[0] == v.tiles[1] == 0 && v.tiles[16] == 1 && v.tiles[17] == 0
    ensures TileColor(v.tiles, 16, 0, 7) == 1 && TileColor(v.tiles, 0, 0, 7) == 0
  {
  }

  lemma TieFold(v: Video, oam: seq<byte>)
    requires WellFormed(v) && |oam| == OAM_BYTES && oam[5] == oam[1] == 12 && AllCover(v, oam, [4, 0], 11)
    requires Covers(oam, 4, 11, v.ly, SpriteSize(v.lcdc)) && Covers(oam, 0, 11, v.ly, SpriteSize(v.lcdc))
    requires SpriteColor(v, oam, 4, 11) == 1 && SpriteColor(v, oam, 0, 11) == 0
    ensures Shown(v, oam, [4, 0], 11) == NoSprite
  {
    var cs := Candidates(v, oam, [4, 0], 11);
    assert cs[0] == Candidate(4, 12, 1) && cs[1] == Candidate(0, 12, 0);
    assert cs[..1] == [cs[0]] && |cs| == 2;
    assert Fold(cs) == Turn(Fold(cs[..1]), cs[1]) == cs[1];
  }

  lemma TieListed(t: Table)
    requires Consistent(t) && t.oam == Initial().oam[4 := 20][5 := 12][6 := 1][0 := 20][1 := 12]
    requires t.rows == Initial().rows[1 := [4, 0]]
    ensures Lookup(t, 11, 4, 8) == [4, 0]
  {
    assert t.rows[0] == [] && t.rows[1] == [4, 0];
    TieHits(t.oam, [4, 0]);
  }

  lemma TieHits(oam: seq<byte>, row: seq<int>)
    requires |oam| == OAM_BYTES && oam[4] == oam[0] == 20 && oam[5] == oam[1] == 12 && row == [4, 0]
    ensures AllSprites(row) && Hits(oam, row, 11, 4, 8) == row
  {
    assert Covers(oam, 4, 11, 4, 8) && Covers(oam, 0, 11, 4, 8);
    assert row[..1] == [4] && [4][..0] == [];
    assert Hits(oam, [4], 11, 4, 8) == [4];
  }

  /** At most ten sprites cover the pixel, all of them filed, and no two share their X. */
  ghost predicate Orderly(t: Table, naive: set<int>)
    requires Shape(t)
  {
    && AllFound(t, naive)
    && (forall a, b | a in naive && b in naive && IsSprite(a) && IsSprite(b) && a != b :: t.oam[a + 1] != t.oam[b + 1])
  }

  /** The opaque one of least X among a set of sprites that cover the pixel, as a plain scan finds it. */
  ghost predicate ScanChooses(v: Video, oam: seq<byte>, naive: set<int>, x: nat, s: Sprite)
    requires WellFormed(v) && |oam| == OAM_BYTES
    requires forall a | a in naive :: IsSprite(a) && Covers(oam, a, x, v.ly, SpriteSize(v.lcdc))
  {
    match s
    case NoSprite => forall a | a in naive :: SpriteColor(v, oam, a, x) == 0
    case Opaque(best, color) =>
      && best in naive && color == SpriteColor(v, oam, best, x) != 0
      && forall a | a in naive && a != best && SpriteColor(v, oam, a, x) != 0 :: oam[best + 1] < oam[a + 1]
  }

  /**
   When at most ten sprites cover the pixel, those of Y below 16 are filed and no two share
   their X, the index, the fold and the tile arithmetic together show exactly the sprite that a
   plain scan of the 40 sprites would choose.
   */
  lemma SpriteIsBest(v: Video, t: Table, x: nat)
    requires WellFormed(v) && Consistent(t) && x < 160 && v.ly <= 144 && Has(v.lcdc, LCDC_OBJ)
    requires Orderly(t, Naive(t.oam, x, v.ly, SpriteSize(v.lcdc)))
    ensures ScanChooses(v, t.oam, Naive(t.oam, x, v.ly, SpriteSize(v.lcdc)), x, SpriteAt(v, t, x))
  {
    var naive := Naive(t.oam, x, v.ly, SpriteSize(v.lcdc));
    var objs := FoundSprites(v, t, x, naive);
    forall i, j | 0 <= i < j < |objs|
      ensures t.oam[objs[i] + 1] != t.oam[objs[j] + 1]
    {
      assert objs[i] in naive && objs[j] in naive;
    }
    ListChoosesLikeScan(v, t.oam, naive, objs, x);
  }

  lemma ListChoosesLikeScan(v: Video, oam: seq<byte>, naive: set<int>, objs: seq<int>, x: nat)
    requires WellFormed(v) && |oam| == OAM_BYTES && AllCover(v, oam, objs, x) && Distinct(objs)
    requires forall i, j | 0 <= i < j < |objs| :: oam[objs[i] + 1] != oam[objs[j] + 1]
    requires forall a :: a in naive <==> a in objs
    ensures forall a | a in naive :: IsSprite(a) && Covers(oam, a, x, v.ly, SpriteSize(v.lcdc))
    ensures ScanChooses(v, oam, naive, x, Shown(v, oam, objs, x))
  {
    forall a | a in naive
      ensures IsSprite(a) && Covers(oam, a, x, v.ly, SpriteSize(v.lcdc))
    {
      var i :| 0 <= i < |objs| && objs[i] == a;
    }
    if objs != [] {
      BestOfList(v, oam, objs, x);
    }
  }

  lemma BestOfList(v: Video, oam: seq<byte>, objs: seq<int>, x: nat)
    requires WellFormed(v) && |oam| == OAM_BYTES && AllCover(v, oam, objs, x) && objs != [] && Distinct(objs)
    requires forall i, j | 0 <= i < j < |objs| :: oam[objs[i] + 1] != oam[objs[j] + 1]
    ensures var best := Fold(Candidates(v, oam, objs, x));
            && best.a in objs && IsSprite(best.a) && Covers(oam, best.a, x, v.ly, SpriteSize(v.lcdc))
            && best == AsCandidate(v, oam, best.a, x)
            && forall a | a in objs && IsSprite(a) && Covers(oam, a, x, v.ly, SpriteSize(v.lcdc)) ::
                 if best.color == 0 then SpriteColor(v, oam, a, x) == 0
                 else SpriteColor(v, oam, a, x) != 0 && a != best.a ==> best.x < oam[a + 1]
  {
    var cs := Candidates(v, oam, objs, x);
    FoldIsLeastX(cs);
    var k :| 0 <= k < |cs| && cs[k] == Fold(cs);
    assert objs[k] in objs;
    forall a | a in objs && IsSprite(a) && Covers(oam, a, x, v.ly, SpriteSize(v.lcdc))
      ensures AsCandidate(v, oam, a, x) in cs
    {
      var i :| 0 <= i < |objs| && objs[i] == a;
      assert cs[i] == AsCandidate(v, oam, a, x);
    }
  }
}
