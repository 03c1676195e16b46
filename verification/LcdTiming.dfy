/**
 The PPU's timing machine on values: the mode, the line counter and the signed dot counter that
 carries overshoot from one phase to the next. `log` records, in order, what the machine makes
 happen outside itself.
 */
module LcdTiming {
  import opened Bytes

  datatype Mode = HBlank | VBlank | Oam | Draw

  datatype Event =
    | Line(ly: int)      // ppu_render_line
    | LyIs(ly: int)      // set_ly, where LY is compared with LYC
    | VblankRequest      // cpu_request_intr(REQUEST_INTR_VBLANK)
    | DrawFrame          // render_draw_framebuffer
    | FrameDone          // frame_count has been incremented

  datatype Lcd = Lcd(
    lcdc: byte, mode: Mode, ly: byte, lyc: byte, stat: byte, dots: int, vblankDots: nat,
    frames: nat, ifReg: byte, log: seq<Event>
  )

  /** Power on: the LCD off, and nothing has happened yet. */
  function Initial(ifReg: byte): Lcd { Lcd(0, HBlank, 0, 0, 0, 0, 0, 0, ifReg, []) }

  const DOTS_DRAW := 230
  const DOTS_HBLANK := 145
  const DOTS_OAM := 80
  const DOTS_VBLANK := 4560
  const DOTS_VBLANK_LINE := 456

  const STAT_VBLANK := 0x10
  const STAT_OAM := 0x20
  const STAT_LYC := 0x40
  const REQUEST_VBLANK := 1
  const REQUEST_LCD := 2

  predicate IsOn(t: Lcd) { Has(t.lcdc, 0x80) }

  function SetMode(stat: byte, code: nat): byte
    requires code < 4
  {
    stat / 4 * 4 + code
  }

  function CheckLyLyc(t: Lcd): Lcd {
    if t.ly == t.lyc then
      var stat := With(t.stat, 4);
      t.(stat := stat, ifReg := if Has(stat, STAT_LYC) then With(t.ifReg, REQUEST_LCD) else t.ifReg)
    else t.(stat := Clear(t.stat, 4))
  }

  function SetLy(t: Lcd, v: byte): Lcd { CheckLyLyc(t.(ly := v, log := t.log + [LyIs(v)])) }

  /** Requests the LCD interrupt when STAT enables it for this phase. */
  function RequestLcd(t: Lcd, enable: nat): Lcd
    requires enable > 0
  {
    if Has(t.stat, enable) then t.(ifReg := With(t.ifReg, REQUEST_LCD)) else t
  }

  function EnterVblank(t: Lcd): Lcd {
    var u := RequestLcd(t.(vblankDots := 0, dots := Int16(t.dots + DOTS_VBLANK), mode := VBlank,
                           stat := With(t.stat, 1)), STAT_VBLANK);
    u.(ifReg := With(u.ifReg, REQUEST_VBLANK), log := u.log + [VblankRequest])
  }

  function HblankEnd(t: Lcd): Lcd {
    var u := SetLy(t, Byte(t.ly + 1));
    if u.ly >= 144 then EnterVblank(u)
    else
      RequestLcd(u.(dots := Int16(u.dots + DOTS_OAM), mode := Oam, stat := With(u.stat, 2)), STAT_OAM)
  }

  function VblankEnd(t: Lcd): Lcd {
    var u := SetLy(t.(dots := Int16(t.dots + DOTS_OAM), log := t.log + [DrawFrame]), 0);
    u.(mode := Oam, stat := SetMode(u.stat, 2), frames := u.frames + 1, log := u.log + [FrameDone])
  }

  function ChangePhase(t: Lcd): Lcd {
    match t.mode
    case HBlank => HblankEnd(t)
    case VBlank => VblankEnd(t)
    case Oam => t.(dots := Int16(t.dots + DOTS_DRAW), stat := SetMode(t.stat, 3), mode := Draw)
    case Draw =>
      t.(dots := Int16(t.dots + DOTS_HBLANK), stat := SetMode(t.stat, 0), mode := HBlank,
         log := t.log + [Line(t.ly)])
  }

  /** The lines that pass during VBLANK. */
  function CountVblank(t: Lcd, dots: nat): Lcd {
    var total := t.vblankDots + dots;
    if total / DOTS_VBLANK_LINE != 0 then SetLy(t, Byte(t.ly + 1)).(vblankDots := total % DOTS_VBLANK_LINE)
    else t.(vblankDots := total)
  }

  /** The dots of an instruction pass. */
  function Advance(t: Lcd, dots: nat): Lcd {
    var u := t.(dots := Int16(t.dots - dots));
    if u.dots <= 0 || u.ly == 0x99 then ChangePhase(u)
    else if u.mode == VBlank then CountVblank(u, dots)
    else u
  }

  /** One call of ppu_refresh with the cycles of an instruction. */
  function Refresh(t: Lcd, ticks: byte): Lcd {
    if !IsOn(t) then t
    else if ticks == 0 then Advance(if t.mode != VBlank then t.(dots := 12) else t, 12)
    else Advance(t, 4 * ticks)
  }

  /** Turning the LCD on or off. */
  function Reset(t: Lcd, lcdc: byte): Lcd {
    t.(dots := DOTS_OAM, mode := Oam, ly := 0, lcdc := lcdc,
       stat := if Has(lcdc, 0x80) then t.stat else SetMode(t.stat, 0))
  }

  // ---------- the invariant and the measure ----------

  /** What holds between refreshes of 1 to 6 cycles, from the moment the LCD is turned on. */
  predicate Timed(t: Lcd) {
    && IsOn(t)
    && match t.mode
       case Oam => t.ly <= 143 && 0 < t.dots <= 532
       case Draw => t.ly <= 143 && 0 < t.dots <= DOTS_DRAW
       case HBlank => t.ly <= 143 && 0 < t.dots <= DOTS_HBLANK
       case VBlank =>
         && 144 <= t.ly <= 153 && t.vblankDots < DOTS_VBLANK_LINE
         && 4537 <= t.dots + DOTS_VBLANK_LINE * (t.ly - 144) + t.vblankDots <= DOTS_VBLANK
         && (t.ly == 153 ==> t.vblankDots < 24)
  }

  /** Dots left until the next VBLANK entry. */
  function Measure(t: Lcd): int {
    match t.mode
    case Oam => t.dots + 375 + 455 * (143 - t.ly)
    case Draw => t.dots + 145 + 455 * (143 - t.ly)
    case HBlank => t.dots + 455 * (143 - t.ly)
    case VBlank => t.dots + 65520
  }

  const FRAME_DOTS := 70080

  predicate EntersVblank(t: Lcd, u: Lcd) { t.mode != VBlank && u.mode == VBlank }

  /** While timed, the dot counter is positive and far from the bounds of `int16_t`. */
  lemma DotsStayInRange(t: Lcd)
    requires Timed(t)
    ensures 0 < t.dots <= DOTS_VBLANK && 0 < Measure(t) <= FRAME_DOTS
  {
  }

  /** The effect of one refresh, in each mode, on what the schedule depends on. */
  lemma RefreshOam(t: Lcd, ticks: byte)
    requires Timed(t) && t.mode == Oam && 1 <= ticks <= 6
    ensures var u, r := Refresh(t, ticks), t.dots - 4 * ticks;
            && u.ly == t.ly && u.lcdc == t.lcdc && u.frames == t.frames && u.log == t.log
            && (if r <= 0 then u.mode == Draw && u.dots == r + DOTS_DRAW else u.mode == Oam && u.dots == r)
  {
  }

  lemma RefreshDraw(t: Lcd, ticks: byte)
    requires Timed(t) && t.mode == Draw && 1 <= ticks <= 6
    ensures var u, r := Refresh(t, ticks), t.dots - 4 * ticks;
            && u.ly == t.ly && u.lcdc == t.lcdc && u.frames == t.frames
            && (if r <= 0 then u.mode == HBlank && u.dots == r + DOTS_HBLANK && u.log == t.log + [Line(t.ly)]
                else u.mode == Draw && u.dots == r && u.log == t.log)
  {
  }

  lemma SetLyEffect(t: Lcd, v: byte)
    ensures var u := SetLy(t, v);
            && u.stat % 4 == t.stat % 4
            && (Has(u.stat, 4) <==> v == t.lyc)
            && u.lcdc == t.lcdc && u.ly == v && u.lyc == t.lyc && u.mode == t.mode && u.dots == t.dots
            && u.vblankDots == t.vblankDots && u.frames == t.frames && u.log == t.log + [LyIs(v)]
  {
  }

  lemma HblankEndEffect(t: Lcd)
    requires t.ly <= 143 && -24 < t.dots <= 0
    ensures var u := HblankEnd(t);
            && u.lcdc == t.lcdc && u.frames == t.frames
            && (if t.ly < 143 then
                  u.mode == Oam && u.ly == t.ly + 1 && u.dots == t.dots + DOTS_OAM && u.log == t.log + [LyIs(t.ly + 1)]
                else
                  && u.mode == VBlank && u.ly == 144 && u.dots == t.dots + DOTS_VBLANK && u.vblankDots == 0
                  && u.log == t.log + [LyIs(144)] + [VblankRequest])
  {
    SetLyEffect(t, Byte(t.ly + 1));
  }

  lemma RefreshHBlank(t: Lcd, ticks: byte)
    requires Timed(t) && t.mode == HBlank && 1 <= ticks <= 6
    ensures var u, r := Refresh(t, ticks), t.dots - 4 * ticks;
            && u.lcdc == t.lcdc && u.frames == t.frames
            && (if r > 0 then u.mode == HBlank && u.ly == t.ly && u.dots == r && u.log == t.log
                else if t.ly < 143 then
                  u.mode == Oam && u.ly == t.ly + 1 && u.dots == r + DOTS_OAM && u.log == t.log + [LyIs(t.ly + 1)]
                else
                  && u.mode == VBlank && u.ly == 144 && u.dots == r + DOTS_VBLANK && u.vblankDots == 0
                  && u.log == t.log + [LyIs(144)] + [VblankRequest])
  {
    var u := t.(dots := Int16(t.dots - 4 * ticks));
    assert u.dots == t.dots - 4 * ticks;
    if u.dots <= 0 {
      HblankEndEffect(u);
    }
  }

  lemma VblankEndEffect(t: Lcd)
    requires -24 < t.dots <= DOTS_VBLANK
    ensures var u := VblankEnd(t);
            && u.lcdc == t.lcdc && u.frames == t.frames + 1
            && u.mode == Oam && u.ly == 0 && u.dots == t.dots + DOTS_OAM
            && u.log == t.log + [DrawFrame] + [LyIs(0)] + [FrameDone]
  {
    SetLyEffect(t.(dots := Int16(t.dots + DOTS_OAM), log := t.log + [DrawFrame]), 0);
  }

  lemma CountVblankEffect(t: Lcd, dots: nat)
    requires t.ly < 153 && t.vblankDots < DOTS_VBLANK_LINE && dots <= 24
    ensures var u, passed := CountVblank(t, dots), t.vblankDots + dots;
            && u.lcdc == t.lcdc && u.frames == t.frames && u.mode == t.mode && u.dots == t.dots
            && (if passed >= DOTS_VBLANK_LINE then
                  u.ly == t.ly + 1 && u.vblankDots == passed - DOTS_VBLANK_LINE && u.log == t.log + [LyIs(t.ly + 1)]
                else u.ly == t.ly && u.vblankDots == passed && u.log == t.log)
  {
    SetLyEffect(t, Byte(t.ly + 1));
  }

  lemma RefreshVBlank(t: Lcd, ticks: byte)
    requires Timed(t) && t.mode == VBlank && 1 <= ticks <= 6
    ensures var u, r, passed := Refresh(t, ticks), t.dots - 4 * ticks, t.vblankDots + 4 * ticks;
            && u.lcdc == t.lcdc && r > 0
            && (if t.ly == 153 then
                  && u.mode == Oam && u.ly == 0 && u.dots == r + DOTS_OAM && u.frames == t.frames + 1
                  && u.log == t.log + [DrawFrame] + [LyIs(0)] + [FrameDone]
                else if passed >= DOTS_VBLANK_LINE then
                  && u.mode == VBlank && u.ly == t.ly + 1 && u.dots == r && u.frames == t.frames
                  && u.vblankDots == passed - DOTS_VBLANK_LINE && u.log == t.log + [LyIs(t.ly + 1)]
                else
                  && u.mode == VBlank && u.ly == t.ly && u.dots == r && u.frames == t.frames
                  && u.vblankDots == passed && u.log == t.log)
  {
    var u := t.(dots := Int16(t.dots - 4 * ticks));
    assert u.dots == t.dots - 4 * ticks > 0;
    if t.ly == 153 {
      VblankEndEffect(u);
    } else {
      CountVblankEffect(u, 4 * ticks);
    }
  }

  /**
   Dots are conserved: a refresh lowers the measure by exactly the dots that passed, and a VBLANK
   entry, which happens exactly when the measure runs out, adds one frame's worth.
   */
  lemma RefreshTimed(t: Lcd, ticks: byte)
    requires Timed(t) && 1 <= ticks <= 6
    ensures Timed(Refresh(t, ticks))
    ensures Measure(Refresh(t, ticks)) ==
            Measure(t) - 4 * ticks + if EntersVblank(t, Refresh(t, ticks)) then FRAME_DOTS else 0
    ensures EntersVblank(t, Refresh(t, ticks)) <==> Measure(t) - 4 * ticks <= 0
  {
    match t.mode
    case Oam => RefreshOam(t, ticks);
    case Draw => RefreshDraw(t, ticks);
    case HBlank => RefreshHBlank(t, ticks);
    case VBlank => RefreshVBlank(t, ticks);
  }

  /** A VBLANK entry requests the interrupt. */
  lemma VblankSetsIf(t: Lcd, ticks: byte)
    requires Timed(t) && 1 <= ticks <= 6 && EntersVblank(t, Refresh(t, ticks))
    ensures Has(Refresh(t, ticks).ifReg, REQUEST_VBLANK)
  {
    var u := t.(dots := Int16(t.dots - 4 * ticks));
    RefreshTimed(t, ticks);
    assert t.mode == HBlank;
    assert Refresh(t, ticks) == HblankEnd(u);
  }

  // ---------- interrupt requests ----------

  /** Of IF, bit 1 and bit 0 may have been set, and nothing else has changed. */
  predicate Requested(before: byte, after: byte, lcd: bool, vblank: bool) {
    && after / 4 == before / 4
    && (after / 2 % 2 == 1 <==> before / 2 % 2 == 1 || lcd)
    && (after % 2 == 1 <==> before % 2 == 1 || vblank)
  }

  lemma SetBits(f: byte)
    ensures 0 <= With(f, 2) < 0x100 && Requested(f, With(f, 2), true, false)
    ensures 0 <= With(f, 1) < 0x100 && Requested(f, With(f, 1), false, true)
  {
  }

  /** The mode and coincidence bits of STAT are below those that enable its requests. */
  lemma SetModeBits(stat: byte)
    ensures With(stat, 4) / 8 == Clear(stat, 4) / 8 == With(stat, 1) / 8 == With(stat, 2) / 8 == stat / 8
    ensures 0 <= With(stat, 1) < 0x100 && 0 <= With(stat, 2) < 0x100
  {
    ModeBit(stat, 1);
    ModeBit(stat, 2);
    CoincidenceBit(stat);
  }

  lemma ModeBit(stat: byte, mask: nat)
    requires mask == 1 || mask == 2
    ensures With(stat, mask) / 8 == stat / 8 && With(stat, mask) < 0x100
  {
  }

  lemma CoincidenceBit(stat: byte)
    ensures With(stat, 4) / 8 == Clear(stat, 4) / 8 == stat / 8
  {
  }

  lemma RequestedTwice(f: byte, g: byte, h: byte, lcd: bool, vblank: bool, lcd': bool, vblank': bool)
    requires Requested(f, g, lcd, vblank) && Requested(g, h, lcd', vblank')
    ensures Requested(f, h, lcd || lcd', vblank || vblank')
  {
  }

  lemma SetLyRequests(t: Lcd, v: byte)
    ensures var u := SetLy(t, v);
            && Requested(t.ifReg, u.ifReg, v == t.lyc && t.stat / 64 % 2 == 1, false)
            && u.stat / 8 == t.stat / 8
  {
    SetBits(t.ifReg);
    SetModeBits(t.stat);
    assert With(t.stat, 4) / 64 == t.stat / 64;
  }

  lemma EnableRequests(t: Lcd, enable: nat)
    requires enable > 0
    ensures Requested(t.ifReg, RequestLcd(t, enable).ifReg, Has(t.stat, enable), false)
  {
    SetBits(t.ifReg);
  }

  lemma EnterVblankRequests(t: Lcd)
    ensures Requested(t.ifReg, EnterVblank(t).ifReg, t.stat / 16 % 2 == 1, true)
  {
    var w := t.(vblankDots := 0, dots := Int16(t.dots + DOTS_VBLANK), mode := VBlank, stat := With(t.stat, 1));
    SetModeBits(t.stat);
    StatBits(t.stat, w.stat);
    EnableRequests(w, STAT_VBLANK);
    SetBits(RequestLcd(w, STAT_VBLANK).ifReg);
    assert EnterVblank(t).ifReg == With(RequestLcd(w, STAT_VBLANK).ifReg, 1);
  }

  lemma HblankEndRequests(t: Lcd)
    requires t.ly <= 143
    ensures var u := HblankEnd(t);
            Requested(t.ifReg, u.ifReg,
                      (t.ly + 1 == t.lyc && t.stat / 64 % 2 == 1) ||
                      (if t.ly == 143 then t.stat / 16 % 2 == 1 else t.stat / 32 % 2 == 1),
                      t.ly == 143)
  {
    hide SetLy, EnterVblank, RequestLcd, Requested, With;
    var u := SetLy(t, t.ly + 1);
    SetLyRequests(t, t.ly + 1);
    SetLyEffect(t, t.ly + 1);
    StatBits(t.stat, u.stat);
    var lyc := t.ly + 1 == t.lyc && t.stat / 64 % 2 == 1;
    if t.ly == 143 {
      EnterVblankRequests(u);
      RequestedTwice(t.ifReg, u.ifReg, EnterVblank(u).ifReg, lyc, false, u.stat / 16 % 2 == 1, true);
    } else {
      SetModeBits(u.stat);
      var w := u.(dots := Int16(u.dots + DOTS_OAM), mode := Oam, stat := With(u.stat, 2));
      StatBits(u.stat, w.stat);
      EnableRequests(w, STAT_OAM);
      RequestedTwice(t.ifReg, u.ifReg, HblankEnd(t).ifReg, lyc, false, w.stat / 32 % 2 == 1, false);
    }
  }

  lemma StatBits(stat: byte, other: byte)
    requires stat / 8 == other / 8
    ensures stat / 16 == other / 16 && stat / 32 == other / 32
  {
  }

  lemma VblankEndRequests(t: Lcd)
    ensures Requested(t.ifReg, VblankEnd(t).ifReg, 0 == t.lyc && t.stat / 64 % 2 == 1, false)
  {
    SetLyRequests(t.(dots := Int16(t.dots + DOTS_OAM), log := t.log + [DrawFrame]), 0);
  }

  /**
   When the PPU requests its interrupts, exactly: the LCD interrupt, bit 1 of IF, when LY comes to be LYC and
   bit 6 of STAT is set, at the entry of VBLANK with bit 4, and at the start of a line that follows another with
   bit 5; the VBLANK interrupt, bit 0, at the entry of VBLANK. No other bit changes.
   */
  lemma RequestsExactly(t: Lcd, ticks: byte)
    requires Timed(t) && 1 <= ticks <= 6
    ensures var u := Refresh(t, ticks);
            && (u.ifReg / 2 % 2 == 1 <==>
                  || t.ifReg / 2 % 2 == 1
                  || (u.ly != t.ly && u.ly == t.lyc && t.stat / 64 % 2 == 1)
                  || (t.mode != VBlank && u.mode == VBlank && t.stat / 16 % 2 == 1)
                  || (t.mode == HBlank && u.mode == Oam && t.stat / 32 % 2 == 1))
            && (u.ifReg % 2 == 1 <==> t.ifReg % 2 == 1 || (t.mode != VBlank && u.mode == VBlank))
            && u.ifReg / 4 == t.ifReg / 4
  {
    match t.mode
    case HBlank => HBlankRequests(t, ticks);
    case VBlank => VBlankRequests(t, ticks);
    case Oam =>
    case Draw =>
  }

  lemma HBlankRequests(t: Lcd, ticks: byte)
    requires Timed(t) && t.mode == HBlank && 1 <= ticks <= 6
    ensures var u := Refresh(t, ticks);
            Requested(t.ifReg, u.ifReg,
                      || (u.ly != t.ly && u.ly == t.lyc && t.stat / 64 % 2 == 1)
                      || (u.mode == VBlank && t.stat / 16 % 2 == 1)
                      || (u.mode == Oam && t.stat / 32 % 2 == 1),
                      u.mode == VBlank)
  {
    var u := t.(dots := Int16(t.dots - 4 * ticks));
    HblankEndRequests(u);
    RefreshHBlank(t, ticks);
    assert u.dots <= 0 ==> Refresh(t, ticks) == HblankEnd(u);
  }

  lemma VBlankRequests(t: Lcd, ticks: byte)
    requires Timed(t) && t.mode == VBlank && 1 <= ticks <= 6
    ensures var u := Refresh(t, ticks);
            Requested(t.ifReg, u.ifReg, u.ly != t.ly && u.ly == t.lyc && t.stat / 64 % 2 == 1, false)
  {
    var u := t.(dots := Int16(t.dots - 4 * ticks));
    RefreshVBlank(t, ticks);
    if t.ly == 153 {
      VblankEndRequests(u);
      assert Refresh(t, ticks) == VblankEnd(u);
    } else {
      SetLyRequests(u, t.ly + 1);
      assert Refresh(t, ticks) == CountVblank(u, 4 * ticks);
    }
  }

  /** The lines of VBLANK last 456 dots each, counted from its entry, give or take the overshoot of the entry. */
  lemma VblankLines(t: Lcd)
    requires Timed(t) && t.mode == VBlank
    ensures var passed := 4560 - t.dots;
            && 456 * (t.ly - 144) <= passed - t.vblankDots <= 456 * (t.ly - 144) + 23
            && 0 <= t.vblankDots < 456
  {
  }

  /** A refresh of no cycles ends the mode at once, or in VBLANK lets 12 dots pass. */
  lemma NoCycles(t: Lcd)
    requires Timed(t)
    ensures var u := Refresh(t, 0);
            && (t.mode == Oam ==> u.mode == Draw && u.dots == 230)
            && (t.mode == Draw ==> u.mode == HBlank && u.dots == 145)
            && (t.mode == HBlank ==> u.mode == (if t.ly == 143 then VBlank else Oam))
            && (t.mode == VBlank ==> u == Refresh(t, 3))
  {
    if t.mode == HBlank {
      NoCyclesInHblank(t);
    }
  }

  lemma NoCyclesInHblank(t: Lcd)
    requires Timed(t) && t.mode == HBlank
    ensures Refresh(t, 0).mode == if t.ly == 143 then VBlank else Oam
  {
    hide HblankEnd;
    HblankEndEffect(t.(dots := 0));
    assert Refresh(t, 0) == HblankEnd(t.(dots := 0));
  }

  // ---------- the frame schedule ----------

  const FRAME_EVENTS := 301

  /** Event number p of a frame. */
  function FrameEvent(p: nat): Event {
    if p < 288 then if p % 2 == 0 then Line(p / 2) else LyIs(p / 2 + 1)
    else if p == 288 then VblankRequest
    else if p < 298 then LyIs(p - 144)
    else if p == 298 then DrawFrame
    else if p == 299 then LyIs(0)
    else FrameDone
  }

  /** Event number k since the LCD was turned on. */
  function Schedule(k: nat): Event { FrameEvent(k % FRAME_EVENTS) }

  /** The position in the frame of the next event. */
  function Position(t: Lcd): int {
    match t.mode
    case Oam => 2 * t.ly
    case Draw => 2 * t.ly
    case HBlank => 2 * t.ly + 1
    case VBlank => t.ly + 145
  }

  ghost predicate FollowsSchedule(log: seq<Event>) { forall k | 0 <= k < |log| :: log[k] == Schedule(k) }

  /**
   From position `from`, where the LCD was last turned on, the log is the schedule so far, and the
   machine stands where the schedule says.
   */
  ghost predicate OnSchedule(t: Lcd, from: nat) {
    from <= |t.log| && (|t.log| - from) % FRAME_EVENTS == Position(t) && FollowsSchedule(t.log[from..])
  }

  /** Whole frames logged since position `from`. */
  function FramesSince(t: Lcd, from: nat): nat
    requires from <= |t.log|
  {
    (|t.log| - from) / FRAME_EVENTS
  }

  /** What can happen between two looks at the machine; writes to LCDC keep the LCD on. */
  datatype Input =
    | Ticks(cycles: byte)
    | WriteStat(v: byte)
    | WriteLyc(v: byte)
    | WriteLcdc(v: byte)
    | WriteIf(v: byte)

  predicate Allowed(i: Input) {
    (i.Ticks? ==> 1 <= i.cycles <= 6) && (i.WriteLcdc? ==> Has(i.v, 0x80))
  }

  function Apply(t: Lcd, i: Input): Lcd {
    match i
    case Ticks(cycles) => Refresh(t, cycles)
    case WriteStat(v) => t.(stat := v)
    case WriteLyc(v) => t.(lyc := v)
    case WriteLcdc(v) => t.(lcdc := v)
    case WriteIf(v) => t.(ifReg := v)
  }

  predicate AllAllowed(inputs: seq<Input>) { forall i | i in inputs :: Allowed(i) }

  function Run(t: Lcd, inputs: seq<Input>): Lcd {
    if inputs == [] then t else Apply(Run(t, inputs[..|inputs| - 1]), inputs[|inputs| - 1])
  }

  function Dots(inputs: seq<Input>): int {
    if inputs == [] then 0
    else
      var i := inputs[|inputs| - 1];
      Dots(inputs[..|inputs| - 1]) + if i.Ticks? then 4 * i.cycles else 0
  }

  /** VBLANK entries of a run. */
  function Entries(t: Lcd, inputs: seq<Input>): nat {
    if inputs == [] then 0
    else
      var front := inputs[..|inputs| - 1];
      Entries(t, front) + if EntersVblank(Run(t, front), Run(t, inputs)) then 1 else 0
  }

  lemma NextEvent(log: seq<Event>, from: nat, p: nat)
    requires from <= |log| && FollowsSchedule(log[from..]) && (|log| - from) % FRAME_EVENTS == p
    ensures var more := log + [FrameEvent(p)];
            && FollowsSchedule(more[from..])
            && (|more| - from) % FRAME_EVENTS == (if p == 300 then 0 else p + 1)
            && (|more| - from) / FRAME_EVENTS == (|log| - from) / FRAME_EVENTS + if p == 300 then 1 else 0
  {
    assert (log + [FrameEvent(p)])[from..] == log[from..] + [FrameEvent(p)];
    NextPosition(|log| - from);
  }

  lemma NextPosition(n: nat)
    ensures (n + 1) % FRAME_EVENTS == if n % FRAME_EVENTS == 300 then 0 else n % FRAME_EVENTS + 1
    ensures (n + 1) / FRAME_EVENTS == n / FRAME_EVENTS + if n % FRAME_EVENTS == 300 then 1 else 0
  {
    var q, r := n / FRAME_EVENTS, n % FRAME_EVENTS;
    assert n + 1 == FRAME_EVENTS * q + (r + 1);
  }

  lemma VBlankOnSchedule(t: Lcd, from: nat, ticks: byte)
    requires Timed(t) && t.mode == VBlank && OnSchedule(t, from) && 1 <= ticks <= 6
    ensures OnSchedule(Refresh(t, ticks), from)
    ensures Refresh(t, ticks).frames - FramesSince(Refresh(t, ticks), from) == t.frames - FramesSince(t, from)
  {
    RefreshVBlank(t, ticks);
    NextEvent(t.log, from, Position(t));
    if t.ly == 153 {
      NextEvent(t.log + [DrawFrame], from, 299);
      NextEvent(t.log + [DrawFrame] + [LyIs(0)], from, 300);
    }
  }

  lemma HBlankOnSchedule(t: Lcd, from: nat, ticks: byte)
    requires Timed(t) && t.mode == HBlank && OnSchedule(t, from) && 1 <= ticks <= 6
    ensures OnSchedule(Refresh(t, ticks), from)
    ensures Refresh(t, ticks).frames - FramesSince(Refresh(t, ticks), from) == t.frames - FramesSince(t, from)
  {
    RefreshHBlank(t, ticks);
    var p := 2 * t.ly + 1;
    assert FrameEvent(p) == LyIs(t.ly + 1);
    NextEvent(t.log, from, p);
    if t.ly == 143 {
      NextEvent(t.log + [LyIs(144)], from, 288);
    }
  }

  lemma DrawOnSchedule(t: Lcd, from: nat, ticks: byte)
    requires Timed(t) && t.mode == Draw && OnSchedule(t, from) && 1 <= ticks <= 6
    ensures OnSchedule(Refresh(t, ticks), from)
    ensures Refresh(t, ticks).frames - FramesSince(Refresh(t, ticks), from) == t.frames - FramesSince(t, from)
  {
    RefreshDraw(t, ticks);
    NextEvent(t.log, from, Position(t));
  }

  lemma RefreshOnSchedule(t: Lcd, from: nat, ticks: byte)
    requires Timed(t) && OnSchedule(t, from) && 1 <= ticks <= 6
    ensures OnSchedule(Refresh(t, ticks), from)
    ensures Refresh(t, ticks).frames - FramesSince(Refresh(t, ticks), from) == t.frames - FramesSince(t, from)
  {
    match t.mode
    case Oam => RefreshOam(t, ticks);
    case Draw => DrawOnSchedule(t, from, ticks);
    case HBlank => HBlankOnSchedule(t, from, ticks);
    case VBlank => VBlankOnSchedule(t, from, ticks);
  }

  /** Conservation over whole runs. */
  lemma {:induction false} RunConserves(t: Lcd, inputs: seq<Input>)
    requires Timed(t) && AllAllowed(inputs)
    ensures Timed(Run(t, inputs))
    ensures Measure(Run(t, inputs)) == Measure(t) - Dots(inputs) + FRAME_DOTS * Entries(t, inputs)
  {
    if inputs != [] {
      var front, i := inputs[..|inputs| - 1], inputs[|inputs| - 1];
      RunConserves(t, front);
      assert i in inputs;
      if i.Ticks? {
        RefreshTimed(Run(t, front), i.cycles);
      }
    }
  }

  /** How often e is in the log. */
  function Count(log: seq<Event>, e: Event): nat {
    if log == [] then 0 else Count(log[..|log| - 1], e) + if log[|log| - 1] == e then 1 else 0
  }

  function Vblanks(log: seq<Event>): nat { Count(log, VblankRequest) }

  lemma OneEvent(log: seq<Event>, next: Event)
    ensures forall e :: Count(log + [next], e) == Count(log, e) + if next == e then 1 else 0
  {
    assert (log + [next])[..|log|] == log;
  }

  lemma FrameEndEvents(log: seq<Event>)
    ensures var more := log + [DrawFrame] + [LyIs(0)] + [FrameDone];
            Vblanks(more) == Vblanks(log) && Count(more, FrameDone) == Count(log, FrameDone) + 1
  {
    OneEvent(log, DrawFrame);
    OneEvent(log + [DrawFrame], LyIs(0));
    OneEvent(log + [DrawFrame] + [LyIs(0)], FrameDone);
  }

  /**
   What is logged stays logged, VBLANK is requested exactly when it is entered, and frame_count
   goes up exactly at the end of a frame.
   */
  lemma RefreshLogs(t: Lcd, ticks: byte)
    requires Timed(t) && 1 <= ticks <= 6
    ensures var u := Refresh(t, ticks);
            && t.log <= u.log
            && Vblanks(u.log) == Vblanks(t.log) + (if EntersVblank(t, u) then 1 else 0)
            && u.frames - Count(u.log, FrameDone) == t.frames - Count(t.log, FrameDone)
  {
    hide Refresh, Count;
    match t.mode
    case Oam => RefreshOam(t, ticks);
    case Draw =>
      RefreshDraw(t, ticks);
      OneEvent(t.log, Line(t.ly));
    case HBlank =>
      RefreshHBlank(t, ticks);
      OneEvent(t.log, LyIs(t.ly + 1));
      OneEvent(t.log + [LyIs(144)], VblankRequest);
    case VBlank =>
      RefreshVBlank(t, ticks);
      OneEvent(t.log, LyIs(t.ly + 1));
      FrameEndEvents(t.log);
  }

  lemma {:induction false} RunLogs(t: Lcd, inputs: seq<Input>)
    requires Timed(t) && AllAllowed(inputs)
    ensures t.log <= Run(t, inputs).log
    ensures Vblanks(Run(t, inputs).log) == Vblanks(t.log) + Entries(t, inputs)
  {
    if inputs != [] {
      var front, i := inputs[..|inputs| - 1], inputs[|inputs| - 1];
      RunConserves(t, front);
      RunLogs(t, front);
      assert i in inputs;
      if i.Ticks? {
        RefreshLogs(Run(t, front), i.cycles);
      }
    }
  }

  /** Runs compose. */
  lemma {:induction false} RunConcat(t: Lcd, a: seq<Input>, b: seq<Input>)
    ensures Run(t, a + b) == Run(Run(t, a), b)
    ensures Dots(a + b) == Dots(a) + Dots(b)
    ensures AllAllowed(a) && AllAllowed(b) ==> AllAllowed(a + b)
    decreases |b|
  {
    if b == [] {
      assert a + b == a;
    } else {
      RunConcat(t, a, b[..|b| - 1]);
      assert (a + b)[..|a + b| - 1] == a + b[..|b| - 1];
    }
  }

  predicate AtVblankEntry(t: Lcd) { t.mode == VBlank && t.ly == 144 && t.vblankDots == 0 }

  /**
   No drift: from one VBLANK entry to the n-th after it the dots that pass are 70080 * n, give
   or take the overshoot of one instruction, however many frames lie between.
   */
  lemma NoDrift(t: Lcd, inputs: seq<Input>)
    requires Timed(t) && AllAllowed(inputs)
    requires AtVblankEntry(t) && AtVblankEntry(Run(t, inputs))
    ensures -23 <= Dots(inputs) - FRAME_DOTS * Entries(t, inputs) <= 23
  {
    RunConserves(t, inputs);
  }

  /** The frame counter counts the frames of the schedule. */
  lemma {:induction false} RunOnSchedule(t: Lcd, from: nat, inputs: seq<Input>)
    requires Timed(t) && OnSchedule(t, from) && AllAllowed(inputs)
    ensures OnSchedule(Run(t, inputs), from)
    ensures Run(t, inputs).frames - FramesSince(Run(t, inputs), from) == t.frames - FramesSince(t, from)
  {
    if inputs != [] {
      var front, i := inputs[..|inputs| - 1], inputs[|inputs| - 1];
      RunConserves(t, front);
      RunOnSchedule(t, from, front);
      assert i in inputs;
      if i.Ticks? {
        RefreshOnSchedule(Run(t, front), from, i.cycles);
      }
    }
  }

  /**
   From any moment the LCD is turned on, whatever has been logged before and whatever instructions
   run, the events are those of the schedule in its order, and frame_count has advanced by the
   number of whole frames among them.
   */
  lemma FramesFollowSchedule(t: Lcd, lcdc: byte, inputs: seq<Input>)
    requires Has(lcdc, 0x80) && AllAllowed(inputs)
    ensures var u := Run(Reset(t, lcdc), inputs);
            && t.log <= u.log
            && FollowsSchedule(u.log[|t.log|..])
            && u.frames == t.frames + FramesSince(u, |t.log|)
  {
    RunLogs(Reset(t, lcdc), inputs);
    RunOnSchedule(Reset(t, lcdc), |t.log|, inputs);
  }

  /** A schedule that began with the log is the whole of it. */
  lemma WholeLog(t: Lcd)
    requires OnSchedule(t, 0)
    ensures FollowsSchedule(t.log) && FramesSince(t, 0) == |t.log| / FRAME_EVENTS
  {
    assert t.log[0..] == t.log;
  }

  /**
   One frame of the schedule: the lines 0 to 143 in order, each value of LY from 0 to 153 set
   once, one VBLANK request, one frame drawn, one end of frame.
   */
  lemma OneFrame(f: nat, p: nat)
    requires p < FRAME_EVENTS
    ensures var e := Schedule(FRAME_EVENTS * f + p);
            && (forall l: nat :: e == Line(l) <==> l < 144 && p == 2 * l)
            && (e == VblankRequest <==> p == 288)
            && (e == DrawFrame <==> p == 298)
            && (e == FrameDone <==> p == 300)
            && (forall l: nat :: e == LyIs(l) <==>
                  if l == 0 then p == 299 else if l <= 144 then p == 2 * l - 1 else l <= 153 && p == l + 144)
  {
    FrameOffset(f, p);
    FrameParts(p);
  }

  lemma FrameParts(p: nat)
    requires p < FRAME_EVENTS
    ensures var e := FrameEvent(p);
            && (forall l: nat :: e == Line(l) <==> l < 144 && p == 2 * l)
            && (e == VblankRequest <==> p == 288)
            && (e == DrawFrame <==> p == 298)
            && (e == FrameDone <==> p == 300)
            && (forall l: nat :: e == LyIs(l) <==>
                  if l == 0 then p == 299 else if l <= 144 then p == 2 * l - 1 else l <= 153 && p == l + 144)
  {
    var q := p / 2;
    assert p == 2 * q || p == 2 * q + 1;
  }

  lemma FrameOffset(f: nat, p: nat)
    requires p < FRAME_EVENTS
    ensures (FRAME_EVENTS * f + p) % FRAME_EVENTS == p
  {
  }

  // ---------- turning the LCD on and off ----------

  /** The log is cut into stretches of the schedule, each from its beginning. */
  ghost predicate Sessions(log: seq<Event>)
    decreases |log|
  {
    log == [] || exists from | 0 <= from < |log| :: FollowsSchedule(log[from..]) && Sessions(log[..from])
  }

  /** The LCD was last turned on at position `from` of the log, and what it has done since is a stretch. */
  ghost predicate InSession(t: Lcd, from: nat) {
    && from <= |t.log| && Sessions(t.log[..from]) && t.frames == Count(t.log, FrameDone)
    && if IsOn(t) then Timed(t) && OnSchedule(t, from) else FollowsSchedule(t.log[from..]) && t.mode != Draw
  }

  ghost predicate Scheduled(t: Lcd) { exists from: nat :: InSession(t, from) }

  lemma LastSession(log: seq<Event>, from: nat)
    requires from <= |log| && Sessions(log[..from]) && FollowsSchedule(log[from..])
    ensures Sessions(log)
  {
    if from == |log| {
      assert log[..from] == log;
    }
  }

  /** In every such state the whole log is made of stretches, and frame_count counts the ends of frames. */
  lemma ScheduledLog(t: Lcd)
    requires Scheduled(t)
    ensures Sessions(t.log) && t.frames == Count(t.log, FrameDone)
    ensures (IsOn(t) ==> Timed(t)) && (t.mode == Draw ==> t.ly <= 143)
  {
    var from: nat :| InSession(t, from);
    LastSession(t.log, from);
  }

  lemma RefreshScheduled(t: Lcd, ticks: byte)
    requires Scheduled(t) && 1 <= ticks <= 6
    ensures Scheduled(Refresh(t, ticks))
  {
    var from: nat :| InSession(t, from);
    if IsOn(t) {
      RefreshInSession(t, from, ticks);
    }
  }

  lemma RefreshInSession(t: Lcd, from: nat, ticks: byte)
    requires InSession(t, from) && IsOn(t) && 1 <= ticks <= 6
    ensures InSession(Refresh(t, ticks), from)
  {
    hide Refresh, Sessions, FollowsSchedule, Count, Position, Measure;
    var u := Refresh(t, ticks);
    RefreshTimed(t, ticks);
    RefreshOnSchedule(t, from, ticks);
    RefreshLogs(t, ticks);
    assert u.log[..from] == t.log[..from];
  }

  /** A write of LCDC ends the stretch when it turns the LCD off, and begins one when it turns it on. */
  lemma LcdcScheduled(t: Lcd, lcdc: byte)
    requires Scheduled(t)
    ensures Scheduled(if IsOn(t) != Has(lcdc, 0x80) then Reset(t, lcdc) else t.(lcdc := lcdc))
  {
    var from: nat :| InSession(t, from);
    if IsOn(t) == Has(lcdc, 0x80) {
      LcdcKept(t, from, lcdc);
    } else if IsOn(t) {
      SessionEnds(t, from, lcdc);
    } else {
      SessionBegins(t, from, lcdc);
    }
  }

  lemma LcdcKept(t: Lcd, from: nat, lcdc: byte)
    requires InSession(t, from) && IsOn(t) == Has(lcdc, 0x80)
    ensures InSession(t.(lcdc := lcdc), from)
  {
    hide Sessions, FollowsSchedule, Count;
  }

  lemma SessionEnds(t: Lcd, from: nat, lcdc: byte)
    requires InSession(t, from) && IsOn(t) && !Has(lcdc, 0x80)
    ensures InSession(Reset(t, lcdc), from)
  {
    hide Sessions, FollowsSchedule, Count;
  }

  lemma SessionBegins(t: Lcd, from: nat, lcdc: byte)
    requires InSession(t, from) && !IsOn(t) && Has(lcdc, 0x80)
    ensures InSession(Reset(t, lcdc), |t.log|)
  {
    hide Count;
    LastSession(t.log, from);
    assert t.log[..|t.log|] == t.log;
  }

  lemma RegisterScheduled(t: Lcd, stat: byte, lyc: byte, ifReg: byte)
    requires Scheduled(t)
    ensures Scheduled(t.(stat := stat, lyc := lyc, ifReg := ifReg))
  {
    var from: nat :| InSession(t, from);
    assert InSession(t.(stat := stat, lyc := lyc, ifReg := ifReg), from);
  }

  // ---------- STAT ----------

  function ModeCode(m: Mode): nat {
    match m case HBlank => 0 case VBlank => 1 case Oam => 2 case Draw => 3
  }

  predicate StatMirrors(t: Lcd) { t.stat % 4 == ModeCode(t.mode) }

  lemma HblankEndStat(t: Lcd)
    requires t.ly <= 143
    ensures var u := HblankEnd(t);
            && (t.stat % 4 == 0 ==> StatMirrors(u))
            && (Has(u.stat, 4) <==> u.ly == t.lyc)
  {
    var u := SetLy(t, Byte(t.ly + 1));
    SetLyEffect(t, Byte(t.ly + 1));
    LowBits(u.stat);
    if u.ly >= 144 {
      assert HblankEnd(t).stat == With(u.stat, 1);
    } else {
      assert HblankEnd(t).stat == With(u.stat, 2);
    }
  }

  lemma LowBits(stat: byte)
    ensures stat % 4 == 0 ==> With(stat, 1) % 4 == 1 && With(stat, 2) % 4 == 2
    ensures Has(With(stat, 1), 4) == Has(stat, 4) == Has(With(stat, 2), 4)
  {
  }

  /**
   The mode bits of STAT follow the mode through every refresh, and are put right by every
   change of phase except the end of HBLANK, which relies on finding them clear. The
   coincidence bit says LY = LYC whenever LY has been set.
   */
  lemma StatFollowsMode(t: Lcd, ticks: byte)
    requires Timed(t) && 1 <= ticks <= 6
    ensures StatMirrors(t) ==> StatMirrors(Refresh(t, ticks))
    ensures t.mode != HBlank && Refresh(t, ticks).mode != t.mode ==> StatMirrors(Refresh(t, ticks))
    ensures Refresh(t, ticks).ly != t.ly ==>
              (Has(Refresh(t, ticks).stat, 4) <==> Refresh(t, ticks).ly == t.lyc)
  {
    hide Refresh, StatMirrors;
    if t.mode == HBlank {
      HblankStat(t, ticks);
    } else if t.mode == VBlank {
      VBlankStat(t, ticks);
    } else {
      LineStat(t, ticks);
    }
  }

  lemma HblankStat(t: Lcd, ticks: byte)
    requires Timed(t) && t.mode == HBlank && 1 <= ticks <= 6
    ensures StatMirrors(t) ==> StatMirrors(Refresh(t, ticks))
    ensures Refresh(t, ticks).ly != t.ly ==>
              (Has(Refresh(t, ticks).stat, 4) <==> Refresh(t, ticks).ly == t.lyc)
  {
    var u := t.(dots := Int16(t.dots - 4 * ticks));
    HblankEndStat(u);
    RefreshHBlank(t, ticks);
    assert u.dots <= 0 ==> Refresh(t, ticks) == HblankEnd(u);
  }

  lemma LineStat(t: Lcd, ticks: byte)
    requires Timed(t) && (t.mode == Oam || t.mode == Draw) && 1 <= ticks <= 6
    ensures StatMirrors(t) || Refresh(t, ticks).mode != t.mode ==> StatMirrors(Refresh(t, ticks))
    ensures Refresh(t, ticks).ly == t.ly
  {
  }

  lemma CountVblankStat(t: Lcd, dots: nat)
    ensures var u := CountVblank(t, dots);
            && u.stat % 4 == t.stat % 4 && u.mode == t.mode
            && (u.ly != t.ly ==> (Has(u.stat, 4) <==> u.ly == t.lyc))
  {
    SetLyEffect(t, Byte(t.ly + 1));
  }

  lemma VblankEndStat(t: Lcd)
    ensures StatMirrors(VblankEnd(t))
    ensures Has(VblankEnd(t).stat, 4) <==> VblankEnd(t).ly == t.lyc
  {
    var u := t.(dots := Int16(t.dots + DOTS_OAM), log := t.log + [DrawFrame]);
    SetLyEffect(u, 0);
    assert VblankEnd(t).stat == SetMode(SetLy(u, 0).stat, 2);
  }

  lemma VBlankStat(t: Lcd, ticks: byte)
    requires Timed(t) && t.mode == VBlank && 1 <= ticks <= 6
    ensures StatMirrors(t) || Refresh(t, ticks).mode != VBlank ==> StatMirrors(Refresh(t, ticks))
    ensures Refresh(t, ticks).ly != t.ly ==>
              (Has(Refresh(t, ticks).stat, 4) <==> Refresh(t, ticks).ly == t.lyc)
  {
    var u := t.(dots := Int16(t.dots - 4 * ticks));
    if u.dots <= 0 || u.ly == 0x99 {
      VblankEndStat(u);
    } else {
      CountVblankStat(u, 4 * ticks);
    }
  }
}
