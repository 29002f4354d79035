/**
 * `LedMatrix`: the frame buffer, the text rasteriser and the bit-banged
 * protocol. Every pin write is appended to `trace`; the methods are proved
 * to append exactly the event sequences that `Protocol` defines, and the
 * lemmas there state what the panel receives from them.
 */
module Matrix {
  import opened Bits
  import opened Seqs
  import opened Wrappers
  import opened Gpio
  import opened Panel
  import opened Protocol
  import opened Text

  class LedMatrix {
    /** `frame_buffer`, indexed `[row, column]`. */
    const frame: array2<Pixel>
    const font: Font
    /** Every pin write since power-up, oldest first. */
    var trace: seq<Event>
    var currentScanline: nat
    var initialized: bool

    ghost predicate Valid()
      reads this
    {
      frame.Length0 == Height && frame.Length1 == Width && Fits(font)
      && currentScanline < ScanLines
      && Quiet(After(trace, Start))
    }

    /** The frame buffer as a value. */
    function Snapshot(): (g: Grid)
      reads frame
      requires frame.Length0 == Height && frame.Length1 == Width
      ensures forall y, x :: 0 <= y < Height && 0 <= x < Width ==> g[y][x] == frame[y, x]
    {
      seq(Height, (y: int) requires 0 <= y < Height reads frame =>
        seq(Width, (x: int) requires 0 <= x < Width reads frame => frame[y, x]))
    }

    /** The state other than the trace is as before. */
    twostate predicate Kept()
      reads this
    {
      currentScanline == old(currentScanline) && initialized == old(initialized)
    }

    /** `LedMatrix::new`: a black frame buffer, then `init`. */
    constructor (f: Font)
      requires Fits(f)
      ensures Valid() && initialized && currentScanline == 0
      ensures font == f && fresh(frame)
      ensures trace == InitEvents
      ensures forall y, x :: 0 <= y < Height && 0 <= x < Width ==> frame[y, x] == Black
    {
      frame := new Pixel[Height, Width]((y, x) => Black);
      font := f;
      trace := [];
      currentScanline := 0;
      initialized := false;
      new;
      Init();
    }

    // ---------------------------------------------------------- pin writes

    /** `pin.set_high()` / `pin.set_low()`. */
    method Write(p: Pin, v: Level)
      modifies this
      ensures trace == old(trace) + [Set(p, v)] && Kept()
    {
      trace := trace + [Set(p, v)];
    }

    /** Drives `p` high when `b` holds and low otherwise. */
    method WriteBit(p: Pin, b: bool)
      modifies this
      ensures trace == old(trace) + [Set(p, LevelOf(b))] && Kept()
    {
      if b {
        Write(p, High);
      } else {
        Write(p, Low);
      }
    }

    method PulseDclk()
      modifies this
      ensures trace == old(trace) + DclkPulse && Kept()
    {
      Write(Dclk, High);
      Write(Dclk, Low);
      AppendAssoc(old(trace), [Set(Dclk, High)], [Set(Dclk, Low)]);
    }

    method PulseGclkN(count: nat)
      modifies this
      ensures trace == old(trace) + GclkPulses(count) && Kept()
    {
      JoinSnoc(GclkLoop, 0);
      for i := 0 to count
        invariant trace == old(trace) + Join(GclkLoop, i) && Kept()
      {
        ghost var t := trace;
        Write(Gclk, High);
        Write(Gclk, Low);
        AppendAssoc(t, [Set(Gclk, High)], [Set(Gclk, Low)]);
        LoopStep(old(trace), GclkLoop, i);
      }
    }

    method SetAllPinsLow()
      modifies this
      ensures trace == old(trace) + AllPinsLow && Kept()
    {
      ghost var t0 := trace;
      Write(Gclk, Low);
      Write(Dclk, Low);
      Write(Le, Low);
      assert trace == t0 + ControlLow;
      ghost var t1 := trace;
      Write(A0, Low);
      Write(A1, Low);
      Write(A2, Low);
      Write(A3, Low);
      assert trace == t1 + AddressLow;
      ghost var t2 := trace;
      WriteData(false, false, false, false, false, false);
      AppendAssoc(t0, ControlLow, AddressLow);
      AppendAssoc(t0, ControlLow + AddressLow, DataLow);
    }

    // ------------------------------------------------------------- protocol

    method SendCommand(cmd: Command)
      modifies this
      ensures trace == old(trace) + CommandEvents(cmd) && Kept()
    {
      Write(Le, High);
      ghost var t := trace;
      JoinSnoc(DclkLoop, 0);
      for i := 0 to Opcode(cmd)
        invariant trace == t + Join(DclkLoop, i) && Kept()
      {
        PulseDclk();
        LoopStep(t, DclkLoop, i);
      }
      Write(Le, Low);
      AppendAssoc(old(trace), [Set(Le, High)], DclkPulses(Opcode(cmd)));
      AppendAssoc(old(trace), [Set(Le, High)] + DclkPulses(Opcode(cmd)), [Set(Le, Low)]);
    }

    method SendConfig(v: u16)
      modifies this
      ensures trace == old(trace) + ConfigEvents(v) && Kept()
    {
      Write(Le, High);
      ghost var t := trace;
      JoinSnoc(DclkLoop, 0);
      PulseDclk();
      LoopStep(t, DclkLoop, 0);
      PulseDclk();
      LoopStep(t, DclkLoop, 1);
      PulseDclk();
      LoopStep(t, DclkLoop, 2);
      PulseDclk();
      LoopStep(t, DclkLoop, 3);
      Write(Le, Low);
      AppendAssoc(old(trace), [Set(Le, High)], DclkPulses(4));
      AppendAssoc(old(trace), [Set(Le, High)] + DclkPulses(4), [Set(Le, Low)]);
      ghost var command := CommandEvents(WriteConfig);
      assert trace == old(trace) + command;
      ShiftConfig(v);
      SendCommand(DataLatch);
      AppendAssoc(old(trace), command, ConfigBits(v as nat, 16));
      AppendAssoc(old(trace), command + ConfigBits(v as nat, 16), CommandEvents(DataLatch));
    }

    /** The shift loop of `send_config`: the 16 bits of `v` on DR1, most significant first. */
    method ShiftConfig(v: u16)
      modifies this
      ensures trace == old(trace) + ConfigBits(v as nat, 16) && Kept()
    {
      JoinSnoc(ConfigLoop(v as nat), 0);
      for i := 0 to PwmBits
        invariant trace == old(trace) + Join(ConfigLoop(v as nat), i) && Kept()
      {
        ghost var t1 := trace;
        WriteBit(Dr1, Bit(v as nat, 15 - i));
        PulseDclk();
        AppendAssoc(t1, [Set(Dr1, LevelOf(Bit(v as nat, 15 - i)))], DclkPulse);
        LoopStep(old(trace), ConfigLoop(v as nat), i);
      }
    }

    method SetScanline(s: nat)
      modifies this
      ensures trace == old(trace) + AddressEvents(s) && Kept()
    {
      var a := s % 256;
      WriteBit(A0, Bit(a, 0));
      WriteBit(A1, Bit(a, 1));
      WriteBit(A2, Bit(a, 2));
      WriteBit(A3, Bit(a, 3));
    }

    /** Drives the six colour data lines. */
    method WriteData(r1: bool, g1: bool, b1: bool, r2: bool, g2: bool, b2: bool)
      modifies this
      ensures trace == old(trace) + WordEvents(Word(LevelOf(r1), LevelOf(g1), LevelOf(b1), LevelOf(r2), LevelOf(g2), LevelOf(b2)))
      ensures Kept()
    {
      WriteBit(Dr1, r1);
      WriteBit(Dg1, g1);
      WriteBit(Db1, b1);
      WriteBit(Dr2, r2);
      WriteBit(Dg2, g2);
      WriteBit(Db2, b2);
    }

    /** The latch request on the very last bit of the very last chip. */
    method RaiseLeIf(last: bool)
      modifies this
      ensures trace == old(trace) + (if last then [Set(Le, High)] else []) && Kept()
    {
      if last {
        Write(Le, High);
      }
    }

    /**
     * The six data bits for column `col` and PWM bit `bit` of scanline `s`:
     * rows `8 s` and `8 s + 44`, zeros for a lower row past the bottom.
     */
    method ReadBits(s: nat, col: nat, bit: nat) returns (r1: bool, g1: bool, b1: bool, r2: bool, g2: bool, b2: bool)
      requires frame.Length0 == Height && frame.Length1 == Width
      requires s < ScanLines && col < Width
      ensures Word(LevelOf(r1), LevelOf(g1), LevelOf(b1), LevelOf(r2), LevelOf(g2), LevelOf(b2))
        == ExpectedWord(Snapshot(), s, col, bit)
    {
      var row1 := s * 8;
      var row2 := s * 8 + 44;
      var top := frame[row1, col];
      r1, g1, b1 := Bit(top.r as nat, bit), Bit(top.g as nat, bit), Bit(top.b as nat, bit);
      r2 := row2 < Height && Bit(frame[row2, col].r as nat, bit);
      g2 := row2 < Height && Bit(frame[row2, col].g as nat, bit);
      b2 := row2 < Height && Bit(frame[row2, col].b as nat, bit);
      ghost var g := Snapshot();
      assert g[row1][col] == top;
      assert row2 < Height ==> g[row2][col] == frame[row2, col];
    }

    /** The LED loop body of `send_scanline_data` for a column on the panel. */
    method SendLed(s: nat, ic: nat, bit: nat, led: nat)
      requires frame.Length0 == Height && frame.Length1 == Width
      requires s < ScanLines && led < LedsPerIc && 16 * ic + led < Width
      modifies this
      ensures trace == old(trace) + LedEvents(ScanWords(Snapshot(), s), ic, bit, led) && Kept()
    {
      var col := ic * LedsPerIc + led;
      var r1, g1, b1, r2, g2, b2 := ReadBits(s, col, bit);
      WriteData(r1, g1, b1, r2, g2, b2);
      ghost var word := WordEvents(ExpectedWord(Snapshot(), s, col, bit));
      var last := ic == IcsPerChain - 1 && led == LedsPerIc - 1 && bit == 0;
      RaiseLeIf(last);
      ghost var latch: seq<Event> := if last then [Set(Le, High)] else [];
      PulseDclk();
      Write(Le, Low);
      AppendAssoc(old(trace), word, latch);
      AppendAssoc(old(trace), word + latch, DclkPulse);
      AppendAssoc(old(trace), word + latch + DclkPulse, [Set(Le, Low)]);
    }

    /** The LED loop of `send_scanline_data` for chip `ic` and PWM bit `bit`. */
    method SendLeds(s: nat, ic: nat, bit: nat)
      requires frame.Length0 == Height && frame.Length1 == Width && s < ScanLines
      modifies this
      ensures trace == old(trace) + Join(LedStep(ScanWords(Snapshot(), s), ic, bit), LedsPerIc) && Kept()
    {
      ghost var w := ScanWords(Snapshot(), s);
      JoinSnoc(LedStep(w, ic, bit), 0);
      for led := 0 to LedsPerIc
        invariant trace == old(trace) + Join(LedStep(w, ic, bit), led) && Kept()
      {
        var col := ic * LedsPerIc + led;
        if col < Width {
          SendLed(s, ic, bit, led);
        }
        LoopStep(old(trace), LedStep(w, ic, bit), led);
      }
    }

    method SendScanlineData(s: nat)
      requires frame.Length0 == Height && frame.Length1 == Width && s < ScanLines
      modifies this
      ensures trace == old(trace) + ScanlineEvents(Snapshot(), s) && Kept()
    {
      ghost var w := ScanWords(Snapshot(), s);
      JoinSnoc(IcStep(w), 0);
      for ic := 0 to IcsPerChain
        invariant trace == old(trace) + Join(IcStep(w), ic) && Kept()
      {
        ghost var t0 := trace;
        JoinSnoc(PlaneStep(w, ic), 0);
        for p := 0 to PwmBits
          invariant trace == t0 + Join(PlaneStep(w, ic), p) && Kept()
        {
          var bit := 15 - p;
          SendLeds(s, ic, bit);
          assert RevBit(p) == bit;
          LoopStep(t0, PlaneStep(w, ic), p);
        }
        LoopStep(old(trace), IcStep(w), ic);
      }
    }

    method Init()
      requires frame.Length0 == Height && frame.Length1 == Width && Fits(font) && currentScanline < ScanLines
      modifies this
      ensures Valid() && initialized && currentScanline == old(currentScanline)
      ensures trace == old(trace) + InitEvents
    {
      SetAllPinsLow();
      SendCommand(Reset);
      SendCommand(PreActive);
      SendConfig(InitConfig);
      initialized := true;
      AppendAssoc(old(trace), AllPinsLow, CommandEvents(Reset));
      AppendAssoc(old(trace), AllPinsLow + CommandEvents(Reset), CommandEvents(PreActive));
      AppendAssoc(old(trace), AllPinsLow + CommandEvents(Reset) + CommandEvents(PreActive), ConfigEvents(InitConfig));
      InitOps(After(old(trace), Start));
      Concat(old(trace), InitEvents, Start);
    }

    /** One iteration of the multiplex loop of `refresh`. */
    method ScanCycle(s: nat)
      modifies this
      ensures trace == old(trace) + ScanStep(s) && Kept()
    {
      SetScanline(s);
      PulseGclkN(256);
      ghost var t1 := trace;
      ghost var vsync := if s == ScanLines - 1 then CommandEvents(Vsync) else [];
      if s == ScanLines - 1 {
        SendCommand(Vsync);
      }
      assert trace == t1 + vsync;
      Write(Gclk, High);
      Write(Gclk, Low);
      AppendAssoc(t1 + vsync, [Set(Gclk, High)], [Set(Gclk, Low)]);
      AppendAssoc(old(trace), AddressEvents(s), GclkPulses(256));
      AppendAssoc(old(trace), AddressEvents(s) + GclkPulses(256), vsync);
      AppendAssoc(old(trace), AddressEvents(s) + GclkPulses(256) + vsync, GclkPulse);
    }

    /** The data loop of `refresh`: the data of every scanline in turn. */
    method SendFrameData()
      requires frame.Length0 == Height && frame.Length1 == Width
      modifies this
      ensures trace == old(trace) + DataPhase(Snapshot()) && Kept()
    {
      ghost var g := Snapshot();
      JoinSnoc(DataLoop(g), 0);
      for s := 0 to ScanLines
        invariant trace == old(trace) + Join(DataLoop(g), s) && Kept()
      {
        SendScanlineData(s);
        LoopStep(old(trace), DataLoop(g), s);
      }
    }

    /** The multiplex loop of `refresh`. */
    method ScanAll()
      modifies this
      ensures trace == old(trace) + ScanPhase && Kept()
    {
      JoinSnoc(ScanLoop, 0);
      for s := 0 to ScanLines
        invariant trace == old(trace) + Join(ScanLoop, s) && Kept()
      {
        ScanCycle(s);
        LoopStep(old(trace), ScanLoop, s);
      }
    }

    /** One display refresh: all scanline data, then the multiplex cycle with Vsync. */
    method Refresh()
      requires Valid()
      modifies this
      ensures Valid() && initialized == old(initialized)
      ensures !old(initialized) ==> trace == old(trace) && currentScanline == old(currentScanline)
      ensures old(initialized) ==>
        trace == old(trace) + RefreshEvents(Snapshot())
        && currentScanline == (old(currentScanline) + 1) % ScanLines
    {
      if !initialized {
        return;
      }
      ghost var g := Snapshot();
      SendFrameData();
      ScanAll();
      currentScanline := (currentScanline + 1) % ScanLines;
      AppendAssoc(old(trace), DataPhase(g), ScanPhase);
      RefreshKeepsQuiet(old(trace), g);
    }

    // --------------------------------------------------------- frame buffer

    method Clear()
      requires frame.Length0 == Height && frame.Length1 == Width
      modifies frame
      ensures forall y, x :: 0 <= y < Height && 0 <= x < Width ==> frame[y, x] == Black
    {
      for row := 0 to Height
        invariant forall y, x :: 0 <= y < row && 0 <= x < Width ==> frame[y, x] == Black
      {
        for col := 0 to Width
          invariant forall y, x :: 0 <= y < row && 0 <= x < Width ==> frame[y, x] == Black
          invariant forall x :: 0 <= x < col ==> frame[row, x] == Black
        {
          frame[row, col] := Black;
        }
      }
    }

    /** Cell `[y, x]` takes the colour when it is on the panel; nothing else changes. */
    method SetPixel(x: nat, y: nat, r: u16, g: u16, b: u16)
      requires frame.Length0 == Height && frame.Length1 == Width
      modifies frame
      ensures forall py, px :: 0 <= py < Height && 0 <= px < Width ==>
        frame[py, px] == if px == x && py == y then Pixel(r, g, b) else old(frame[py, px])
    {
      if x < Width && y < Height {
        frame[y, x] := Pixel(r, g, b);
      }
    }

    method FillRect(x1: nat, y1: nat, x2: nat, y2: nat, r: u16, g: u16, b: u16)
      requires frame.Length0 == Height && frame.Length1 == Width
      modifies frame
      ensures forall py, px :: 0 <= py < Height && 0 <= px < Width ==>
        frame[py, px] == if InRect(x1, y1, x2, y2, px, py) then Pixel(r, g, b) else old(frame[py, px])
    {
      var yEnd := Min(y2, Height - 1);
      var xEnd := Min(x2, Width - 1);
      var y := y1;
      while y <= yEnd
        invariant y1 <= y && (y1 <= yEnd + 1 ==> y <= yEnd + 1)
        invariant forall py, px :: 0 <= py < Height && 0 <= px < Width ==>
          frame[py, px] == if InRect(x1, y1, x2, y2, px, py) && py < y then Pixel(r, g, b) else old(frame[py, px])
        decreases yEnd as int + 1 - y
      {
        var x := x1;
        while x <= xEnd
          invariant x1 <= x && (x1 <= xEnd + 1 ==> x <= xEnd + 1)
          invariant forall py, px :: 0 <= py < Height && 0 <= px < Width ==>
            frame[py, px] ==
              if InRect(x1, y1, x2, y2, px, py) && (py < y || (py == y && px < x)) then Pixel(r, g, b)
              else old(frame[py, px])
          decreases xEnd as int + 1 - x
        {
          SetPixel(x, y, r, g, b);
          x := x + 1;
        }
        y := y + 1;
      }
    }

    /** `draw_char`: the lit cells of the glyph of `ch`, top-left at `(x, y)`, take the colour. */
    method DrawChar(ch: char, x: nat, y: nat, r: u16, g: u16, b: u16)
      requires frame.Length0 == Height && frame.Length1 == Width
      modifies frame
      ensures forall py, px :: 0 <= py < Height && 0 <= px < Width ==>
        frame[py, px] == if GlyphCovers(font, ch, x, y, px, py) then Pixel(r, g, b) else old(frame[py, px])
    {
      var glyph := font.glyph(ch);
      if glyph.Some? {
        var rows := glyph.value;
        for gy := 0 to |rows|
          invariant forall py, px :: 0 <= py < Height && 0 <= px < Width ==>
            frame[py, px] == if Covers(rows, x, y, px, py) && py - y < gy then Pixel(r, g, b) else old(frame[py, px])
        {
          var row := rows[gy];
          for gx := 0 to |row|
            invariant forall py, px :: 0 <= py < Height && 0 <= px < Width ==>
              frame[py, px] ==
                if Covers(rows, x, y, px, py) && (py - y < gy || (py - y == gy && px - x < gx)) then Pixel(r, g, b)
                else old(frame[py, px])
          {
            if row[gx] != 0 {
              SetPixel(x + gx, y + gy, r, g, b);
            }
          }
        }
      }
    }

    /** `display_text`: a cleared buffer, then white glyphs until the text or the width runs out. */
    method DisplayText(text: seq<char>)
      requires frame.Length0 == Height && frame.Length1 == Width && Fits(font)
      modifies frame
      ensures forall py, px :: 0 <= py < Height && 0 <= px < Width ==> frame[py, px] == TextPixel(font, text, px, py)
    {
      Clear();
      if |text| == 0 {
        return;
      }
      var startY := StartY(font.height);
      var x := LeftMargin;
      var k := 0;
      ghost var shown := Shown(font.width, |text|);
      while k < |text|
        invariant k <= shown && x == CursorX(font.width, k)
        invariant forall py, px :: 0 <= py < Height && 0 <= px < Width ==>
          frame[py, px] == if LitBy(font, text, k, px, py) then White else Black
      {
        if x >= Width - font.width {
          break;
        }
        DrawChar(text[k], x, startY, 0xFFFF, 0xFFFF, 0xFFFF);
        x := x + font.width + 1;
        k := k + 1;
      }
      assert k == shown;
    }

    /** Dropping the driver: a black buffer and every line low. */
    method Teardown()
      requires Valid()
      modifies this, frame
      ensures Valid() && Kept()
      ensures trace == old(trace) + AllPinsLow
      ensures forall y, x :: 0 <= y < Height && 0 <= x < Width ==> frame[y, x] == Black
    {
      Clear();
      SetAllPinsLow();
      AllPinsLowOps(After(old(trace), Start));
      Concat(old(trace), AllPinsLow, Start);
    }
  }

  function Min(a: nat, b: nat): (m: nat)
    ensures m <= a && m <= b && (m == a || m == b)
  {
    if a <= b then a else b
  }

  /** The cells `fill_rect` paints: `x1..=min(x2, 87)` by `y1..=min(y2, 87)`. */
  predicate InRect(x1: nat, y1: nat, x2: nat, y2: nat, px: nat, py: nat)
  {
    x1 <= px <= Min(x2, Width - 1) && y1 <= py <= Min(y2, Height - 1)
  }
}
