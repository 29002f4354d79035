/**
 * The bit-banged protocol of the panel driver as traces of pin writes, and
 * what the panel's chips receive from each trace (see `Gpio.Ops`).
 *
 * Every trace builder here follows the loop of the driver that emits it, one
 * iteration appended at the end per step; the lemmas state what the chips
 * make of the trace.
 */
module Protocol {
  import opened Bits
  import opened Gpio
  import opened Panel
  import opened Seqs

  const ScanLines: nat := 11
  const IcsPerChain: nat := 22
  const LedsPerIc: nat := 16
  const PwmBits: nat := 16

  /** Commands are sent as a number of DCLK pulses while LE is high. */
  datatype Command = DataLatch | Vsync | WriteConfig | Reset | PreActive

  function Opcode(cmd: Command): nat
  {
    match cmd
    case DataLatch => 1
    case Vsync => 2
    case WriteConfig => 4
    case Reset => 10
    case PreActive => 14
  }

  // ---------------------------------------------------------------- pulses

  /** `pulse_dclk`: DCLK high, then low (the hold delays are not modelled). */
  const DclkPulse: seq<Event> := [Set(Dclk, High), Set(Dclk, Low)]

  /** One GCLK pulse: GCLK high, then low. */
  const GclkPulse: seq<Event> := [Set(Gclk, High), Set(Gclk, Low)]

  const DclkLoop: nat -> seq<Event> := (i: nat) => DclkPulse
  const GclkLoop: nat -> seq<Event> := (i: nat) => GclkPulse

  /** `for _ in 0..n { pulse_dclk() }`. */
  function DclkPulses(n: nat): seq<Event>
  {
    Join(DclkLoop, n)
  }

  /** `pulse_gclk_n(n)`. */
  function GclkPulses(n: nat): seq<Event>
  {
    Join(GclkLoop, n)
  }

  /** A loop over `(0..16).rev()` visits bit `15 - i` in its iteration `i`. */
  function RevBit(i: nat): (bit: nat)
    ensures i < 16 ==> bit == 15 - i
  {
    if i < 16 then 15 - i else 0
  }

  lemma DclkPulseOps(c: Chip)
    requires c.lines.dclk == Low
    ensures After(DclkPulse, c) == if c.lines.le == High then Chip(c.lines, c.pending + 1) else c
    ensures Ops(DclkPulse, c) == if c.lines.le == High then [] else [Shift(DataOf(c.lines))]
  {
    Single(Set(Dclk, High), c);
    Snoc([Set(Dclk, High)], Set(Dclk, Low), c);
    assert [Set(Dclk, High)] + [Set(Dclk, Low)] == DclkPulse;
  }

  lemma GclkPulseOps(c: Chip)
    requires c.lines.gclk == Low
    ensures After(GclkPulse, c) == c
    ensures Ops(GclkPulse, c) == [Scan(Address(c.lines))]
  {
    Single(Set(Gclk, High), c);
    Snoc([Set(Gclk, High)], Set(Gclk, Low), c);
    assert [Set(Gclk, High)] + [Set(Gclk, Low)] == GclkPulse;
  }

  /** While LE is high, DCLK pulses are only counted. */
  lemma {:induction false} LatchedPulsesOps(n: nat, c: Chip)
    requires c.lines.le == High && c.lines.dclk == Low
    ensures After(DclkPulses(n), c) == Chip(c.lines, c.pending + n)
    ensures Ops(DclkPulses(n), c) == []
  {
    JoinSnoc(DclkLoop, 0);
    if n > 0 {
      LatchedPulsesOps(n - 1, c);
      JoinSnoc(DclkLoop, n - 1);
      Concat(DclkPulses(n - 1), DclkPulse, c);
      DclkPulseOps(Chip(c.lines, c.pending + n - 1));
    }
  }

  /** Every GCLK pulse advances the multiplex clock of the addressed scanline. */
  lemma {:induction false} GclkPulsesOps(n: nat, c: Chip)
    requires c.lines.gclk == Low
    ensures After(GclkPulses(n), c) == c
    ensures |Ops(GclkPulses(n), c)| == n
    ensures forall j :: 0 <= j < n ==> Ops(GclkPulses(n), c)[j] == Scan(Address(c.lines))
  {
    JoinSnoc(GclkLoop, 0);
    if n > 0 {
      GclkPulsesOps(n - 1, c);
      JoinSnoc(GclkLoop, n - 1);
      Concat(GclkPulses(n - 1), GclkPulse, c);
      GclkPulseOps(c);
      ScansSnoc(Ops(GclkPulses(n - 1), c), Address(c.lines));
    }
  }

  /** A run of scans of one scanline, extended by one more. */
  lemma ScansSnoc(prev: seq<Op>, s: nat)
    requires forall j :: 0 <= j < |prev| ==> prev[j] == Scan(s)
    ensures forall j :: 0 <= j < |prev| + 1 ==> (prev + [Scan(s)])[j] == Scan(s)
  { }

  // -------------------------------------------------------------- commands

  /** `send_command(cmd)`: LE high, `cmd as u8` DCLK pulses, LE low. */
  function CommandEvents(cmd: Command): seq<Event>
  {
    [Set(Le, High)] + DclkPulses(Opcode(cmd)) + [Set(Le, Low)]
  }

  /** The chips receive exactly the command `cmd`, and the lines are as before. */
  lemma CommandOps(cmd: Command, c: Chip)
    requires Quiet(c)
    ensures After(CommandEvents(cmd), c) == Chip(c.lines, Opcode(cmd))
    ensures Ops(CommandEvents(cmd), c) == [Cmd(Opcode(cmd))]
  {
    var c1 := Next(c, Set(Le, High));
    Single(Set(Le, High), c);
    LatchedPulsesOps(Opcode(cmd), c1);
    Concat([Set(Le, High)], DclkPulses(Opcode(cmd)), c);
    Snoc([Set(Le, High)] + DclkPulses(Opcode(cmd)), Set(Le, Low), c);
  }

  // --------------------------------------------------------- configuration

  /** An iteration of the shift loop of `send_config`: bit `15 - i` of `v` on DR1, then a DCLK pulse. */
  function ConfigLoop(v: nat): nat -> seq<Event>
  {
    (i: nat) => [Set(Dr1, LevelOf(Bit(v, RevBit(i))))] + DclkPulse
  }

  /** The first `n` iterations of the shift loop of `send_config`. */
  function ConfigBits(v: nat, n: nat): seq<Event>
    requires n <= 16
  {
    Join(ConfigLoop(v), n)
  }

  /** `send_config(v)`: the WriteConfig command, 16 bits MSB-first on DR1, the DataLatch command. */
  function ConfigEvents(v: u16): seq<Event>
  {
    CommandEvents(WriteConfig) + ConfigBits(v as nat, 16) + CommandEvents(DataLatch)
  }

  /** One iteration of the shift loop sets DR1 and shifts the data lines in once. */
  lemma ConfigStepOps(v: nat, i: nat, d: Chip)
    requires Quiet(d)
    ensures After(ConfigLoop(v)(i), d) == Chip(d.lines.(dr1 := LevelOf(Bit(v, RevBit(i)))), d.pending)
    ensures Ops(ConfigLoop(v)(i), d) == [Shift(DataOf(d.lines).(r1 := LevelOf(Bit(v, RevBit(i)))))]
  {
    var e := Set(Dr1, LevelOf(Bit(v, RevBit(i))));
    var d1 := Next(d, e);
    assert d1 == Chip(d.lines.(dr1 := LevelOf(Bit(v, RevBit(i)))), d.pending);
    assert ConfigLoop(v)(i) == [e] + DclkPulse;
    Single(e, d);
    DclkPulseOps(d1);
    Concat([e], DclkPulse, d);
  }

  lemma {:induction false} ConfigBitsOps(v: nat, n: nat, c: Chip)
    requires n <= 16
    requires Quiet(c)
    ensures After(ConfigBits(v, n), c) ==
      if n == 0 then c else Chip(c.lines.(dr1 := LevelOf(Bit(v, 16 - n))), c.pending)
    ensures |Ops(ConfigBits(v, n), c)| == n
    ensures forall i :: 0 <= i < n ==>
      Ops(ConfigBits(v, n), c)[i] == Shift(DataOf(c.lines).(r1 := LevelOf(Bit(v, 15 - i))))
  {
    JoinSnoc(ConfigLoop(v), 0);
    if n > 0 {
      ConfigBitsOps(v, n - 1, c);
      JoinSnoc(ConfigLoop(v), n - 1);
      var pre := ConfigBits(v, n - 1);
      var step := ConfigLoop(v)(n - 1);
      assert ConfigBits(v, n) == pre + step;
      var c1 := After(pre, c);
      assert Quiet(c1);
      assert DataOf(c1.lines) == DataOf(c.lines).(r1 := DataOf(c1.lines).r1);
      ConfigStepOps(v, n - 1, c1);
      assert RevBit(n - 1) == 16 - n;
      Concat(pre, step, c);
      assert After(ConfigBits(v, n), c) == After(step, c1);
      assert DataOf(c1.lines).(r1 := LevelOf(Bit(v, 16 - n))) == DataOf(c.lines).(r1 := LevelOf(Bit(v, 16 - n)));
      ConfigShiftsSnoc(Ops(pre, c), Ops(step, c1), DataOf(c.lines), v, n);
    }
  }

  lemma ConfigShiftsSnoc(head: seq<Op>, last: seq<Op>, w: Word, v: nat, n: nat)
    requires 0 < n <= 16 && |head| == n - 1
    requires forall i :: 0 <= i < n - 1 ==> head[i] == Shift(w.(r1 := LevelOf(Bit(v, 15 - i))))
    requires last == [Shift(w.(r1 := LevelOf(Bit(v, 16 - n))))]
    ensures |head + last| == n
    ensures forall i :: 0 <= i < n ==> (head + last)[i] == Shift(w.(r1 := LevelOf(Bit(v, 15 - i))))
  {
  }

  /**
   * The chips receive WriteConfig, then the 16 bits of `v` on chain 1's red
   * line, most significant first, then DataLatch: 4 + 16 + 1 = 21 DCLK pulses.
   */
  lemma ConfigOps(v: u16, c: Chip)
    requires Quiet(c)
    ensures Quiet(After(ConfigEvents(v), c))
    ensures After(ConfigEvents(v), c).lines == c.lines.(dr1 := LevelOf(Bit(v as nat, 0)))
    ensures |Ops(ConfigEvents(v), c)| == 18
    ensures Ops(ConfigEvents(v), c)[0] == Cmd(4)
    ensures forall j :: 1 <= j <= 16 ==>
      Ops(ConfigEvents(v), c)[j] == Shift(DataOf(c.lines).(r1 := LevelOf(Bit(v as nat, 16 - j))))
    ensures Ops(ConfigEvents(v), c)[17] == Cmd(1)
  {
    var cmd1, bits, cmd2 := CommandEvents(WriteConfig), ConfigBits(v as nat, 16), CommandEvents(DataLatch);
    CommandOps(WriteConfig, c);
    var c1 := After(cmd1, c);
    ConfigBitsOps(v as nat, 16, c1);
    var c2 := After(bits, c1);
    CommandOps(DataLatch, c2);
    Concat3(cmd1, bits, cmd2, c);
    ConfigFrame(Ops(ConfigEvents(v), c), Ops(bits, c1), DataOf(c.lines), v as nat);
  }

  lemma ConfigFrame(ops: seq<Op>, shifts: seq<Op>, w: Word, v: nat)
    requires ops == [Cmd(4)] + shifts + [Cmd(1)]
    requires |shifts| == 16
    requires forall i :: 0 <= i < 16 ==> shifts[i] == Shift(w.(r1 := LevelOf(Bit(v, 15 - i))))
    ensures |ops| == 18 && ops[0] == Cmd(4) && ops[17] == Cmd(1)
    ensures forall j :: 1 <= j <= 16 ==> ops[j] == Shift(w.(r1 := LevelOf(Bit(v, 16 - j))))
  {
    forall j | 1 <= j <= 16
      ensures ops[j] == Shift(w.(r1 := LevelOf(Bit(v, 16 - j))))
    {
      assert ops[j] == shifts[j - 1];
    }
  }

  /** The red bits that chain 1 receives, in the order received. */
  function R1Bits(ops: seq<Op>): seq<bool>
  {
    if ops == [] then []
    else R1Bits(ops[..|ops| - 1]) + (if ops[|ops| - 1].Shift? then [ops[|ops| - 1].word.r1 == High] else [])
  }

  lemma {:induction false} R1BitsConcat(a: seq<Op>, b: seq<Op>)
    ensures R1Bits(a + b) == R1Bits(a) + R1Bits(b)
    decreases |b|
  {
    if b == [] {
      assert a + b == a;
    } else {
      assert (a + b)[..|a + b| - 1] == a + b[..|b| - 1];
      R1BitsConcat(a, b[..|b| - 1]);
    }
  }

  lemma {:induction false} R1BitsOfShifts(ops: seq<Op>)
    requires forall j :: 0 <= j < |ops| ==> ops[j].Shift?
    ensures |R1Bits(ops)| == |ops|
    ensures forall j :: 0 <= j < |ops| ==> R1Bits(ops)[j] == (ops[j].word.r1 == High)
  {
    if ops != [] {
      R1BitsOfShifts(ops[..|ops| - 1]);
    }
  }

  lemma Pow2Of16()
    ensures Pow2(16) == 0x1_0000
  {
    assert Pow2(4) == 16;
    assert Pow2(8) == 256;
    assert Pow2(12) == 4096;
  }

  /** Round trip: reading the red bits chain 1 receives from `send_config(v)` as a 16-bit number gives `v`. */
  lemma ConfigRoundTrip(v: u16, c: Chip)
    requires Quiet(c)
    ensures ValueMsb(R1Bits(Ops(ConfigEvents(v), c))) == v as nat
  {
    ConfigOps(v, c);
    FrameBits(Ops(ConfigEvents(v), c), DataOf(c.lines), v as nat);
    Pow2Of16();
    ValueOfMsbFirst(v as nat, 16);
  }

  /** The red bits of the frame `send_config` produces are the bits of `v`, most significant first. */
  lemma FrameBits(ops: seq<Op>, w: Word, v: nat)
    requires |ops| == 18 && ops[0] == Cmd(4) && ops[17] == Cmd(1)
    requires forall j :: 1 <= j <= 16 ==> ops[j] == Shift(w.(r1 := LevelOf(Bit(v, 16 - j))))
    ensures R1Bits(ops) == MsbFirst(v, 16)
  {
    var data := ops[1..17];
    assert ops == [ops[0]] + data + [ops[17]];
    R1BitsConcat([ops[0]] + data, [ops[17]]);
    R1BitsConcat([ops[0]], data);
    assert R1Bits([ops[0]]) == [] by { assert [ops[0]][..0] == []; }
    assert R1Bits([ops[17]]) == [] by { assert [ops[17]][..0] == []; }
    R1BitsOfShifts(data);
    assert R1Bits(data) == MsbFirst(v, 16);
    assert R1Bits(ops) == R1Bits(data);
  }

  // -------------------------------------------------------------- addressing

  /** `set_scanline(s)`: A0..A3 take bits 0..3 of `s as u8`. */
  function AddressEvents(s: nat): seq<Event>
  {
    var a := s % 256;
    [Set(A0, LevelOf(Bit(a, 0))), Set(A1, LevelOf(Bit(a, 1))), Set(A2, LevelOf(Bit(a, 2))), Set(A3, LevelOf(Bit(a, 3)))]
  }

  /** Bits 0..3 of `a`, read back with A0 least significant, are `a mod 16`. */
  lemma LowNibble(a: nat)
    ensures BitValue(LevelOf(Bit(a, 0))) + 2 * BitValue(LevelOf(Bit(a, 1)))
          + 4 * BitValue(LevelOf(Bit(a, 2))) + 8 * BitValue(LevelOf(Bit(a, 3))) == a % 16
  {
    var a1 := a / 2;
    var a2 := a1 / 2;
    var a3 := a2 / 2;
    var a4 := a3 / 2;
    assert Bit(a, 1) == Bit(a1, 0);
    assert Bit(a, 2) == Bit(a2, 0) by { assert Bit(a, 2) == Bit(a1, 1); }
    assert Bit(a, 3) == Bit(a3, 0) by { assert Bit(a, 3) == Bit(a1, 2) == Bit(a2, 1); }
    assert BitValue(LevelOf(Bit(a, 0))) == a % 2;
    assert BitValue(LevelOf(Bit(a1, 0))) == a1 % 2;
    assert BitValue(LevelOf(Bit(a2, 0))) == a2 % 2;
    assert BitValue(LevelOf(Bit(a3, 0))) == a3 % 2;
    var r := a % 2 + 2 * (a1 % 2) + 4 * (a2 % 2) + 8 * (a3 % 2);
    assert a == 16 * a4 + r;
    DivModOf(a, 16, a4, r);
  }

  /** After `set_scanline(s)` the address lines select scanline `s mod 16`; nothing is clocked. */
  lemma AddressOps(s: nat, c: Chip)
    requires Quiet(c)
    ensures Quiet(After(AddressEvents(s), c))
    ensures Address(After(AddressEvents(s), c).lines) == s % 16
    ensures DataOf(After(AddressEvents(s), c).lines) == DataOf(c.lines)
    ensures Ops(AddressEvents(s), c) == []
  {
    var es := AddressEvents(s);
    var c1 := Next(c, es[0]);
    var c2 := Next(c1, es[1]);
    var c3 := Next(c2, es[2]);
    var c4 := Next(c3, es[3]);
    assert AfterN(es, 1, c) == c1 && OpsN(es, 1, c) == [] by {
      assert AfterN(es, 0, c) == c;
    }
    assert AfterN(es, 2, c) == c2 && OpsN(es, 2, c) == [];
    assert AfterN(es, 3, c) == c3 && OpsN(es, 3, c) == [];
    assert AfterN(es, 4, c) == c4 && OpsN(es, 4, c) == [];
    var a := s % 256;
    assert c4.lines.a0 == LevelOf(Bit(a, 0)) && c4.lines.a1 == LevelOf(Bit(a, 1));
    assert c4.lines.a2 == LevelOf(Bit(a, 2)) && c4.lines.a3 == LevelOf(Bit(a, 3));
    LowNibble(a);
    ModOfMod(s);
  }

  /** Reducing modulo 256 keeps the low four bits. */
  lemma ModOfMod(s: nat)
    ensures (s % 256) % 16 == s % 16
  {
    var q, a := s / 256, s % 256;
    assert s == 16 * (16 * q + a / 16) + a % 16;
    DivModOf(s, 16, 16 * q + a / 16, a % 16);
  }

  // --------------------------------------------------------- scanline data

  /** Drives the six colour data lines to `w`, chain 1 first. */
  function WordEvents(w: Word): seq<Event>
  {
    [Set(Dr1, w.r1), Set(Dg1, w.g1), Set(Db1, w.b1), Set(Dr2, w.r2), Set(Dg2, w.g2), Set(Db2, w.b2)]
  }

  lemma WordEventsOps(w: Word, c: Chip)
    ensures After(WordEvents(w), c) ==
      Chip(c.lines.(dr1 := w.r1, dg1 := w.g1, db1 := w.b1, dr2 := w.r2, dg2 := w.g2, db2 := w.b2), c.pending)
    ensures Ops(WordEvents(w), c) == []
  {
    var es := WordEvents(w);
    var c1 := Next(c, es[0]);
    var c2 := Next(c1, es[1]);
    var c3 := Next(c2, es[2]);
    var c4 := Next(c3, es[3]);
    var c5 := Next(c4, es[4]);
    var c6 := Next(c5, es[5]);
    assert AfterN(es, 1, c) == c1 && OpsN(es, 1, c) == [] by {
      assert AfterN(es, 0, c) == c;
    }
    assert AfterN(es, 2, c) == c2 && OpsN(es, 2, c) == [];
    assert AfterN(es, 3, c) == c3 && OpsN(es, 3, c) == [];
    assert AfterN(es, 4, c) == c4 && OpsN(es, 4, c) == [];
    assert AfterN(es, 5, c) == c5 && OpsN(es, 5, c) == [];
    assert AfterN(es, 6, c) == c6 && OpsN(es, 6, c) == [];
  }

  /**
   * The word chip position `col` should receive for PWM bit `bit` of
   * scanline `s`: chain 1 carries row `8 s`, chain 2 row `8 s + 44` when that
   * row exists and all zeros otherwise.
   */
  function ExpectedWord(g: Grid, s: nat, col: nat, bit: nat): Word
    requires s < ScanLines && col < Width
  {
    var top := g[8 * s][col];
    var lower := 8 * s + 44 < Height;
    var bottom := if lower then g[8 * s + 44][col] else Black;
    Word(LevelOf(Bit(top.r as nat, bit)), LevelOf(Bit(top.g as nat, bit)), LevelOf(Bit(top.b as nat, bit)),
         LevelOf(lower && Bit(bottom.r as nat, bit)), LevelOf(lower && Bit(bottom.g as nat, bit)),
         LevelOf(lower && Bit(bottom.b as nat, bit)))
  }

  const NoWord := Word(Low, Low, Low, Low, Low, Low)

  /**
   * The data words of scanline `s`, by column and PWM bit. The shift
   * protocol below is stated for any such table `w`, so that its proofs do
   * not depend on how a word is computed from the framebuffer.
   */
  function ScanWords(g: Grid, s: nat): (nat, nat) -> Word
    requires s < ScanLines
  {
    (col: nat, bit: nat) => if col < Width then ExpectedWord(g, s, col, bit) else NoWord
  }

  /** One iteration of the LED loop of `send_scanline_data`; columns past the panel are skipped. */
  function LedEvents(w: (nat, nat) -> Word, ic: nat, bit: nat, led: nat): seq<Event>
  {
    var col := 16 * ic + led;
    if col >= 88 then []
    else
      WordEvents(w(col, bit))
      + (if ic == IcsPerChain - 1 && led == LedsPerIc - 1 && bit == 0 then [Set(Le, High)] else [])
      + DclkPulse
      + [Set(Le, Low)]
  }

  /** The LED loop for chip `ic` and PWM bit `bit`, by LED. */
  function LedStep(w: (nat, nat) -> Word, ic: nat, bit: nat): nat -> seq<Event>
  {
    (led: nat) => LedEvents(w, ic, bit, led)
  }

  /** The bit loop for chip `ic`, by iteration. */
  function PlaneStep(w: (nat, nat) -> Word, ic: nat): nat -> seq<Event>
  {
    (p: nat) => Join(LedStep(w, ic, RevBit(p)), LedsPerIc)
  }

  /** The chip loop, by chip. */
  function IcStep(w: (nat, nat) -> Word): nat -> seq<Event>
  {
    (ic: nat) => Join(PlaneStep(w, ic), PwmBits)
  }

  /** `send_scanline_data(s)`. */
  function ScanlineEvents(g: Grid, s: nat): seq<Event>
    requires s < ScanLines
  {
    Join(IcStep(ScanWords(g, s)), IcsPerChain)
  }

  // What the chips should receive from each of those loops.

  function LedShift(w: (nat, nat) -> Word, ic: nat, bit: nat): nat -> seq<Op>
  {
    (led: nat) => if 16 * ic + led < 88 then [Shift(w(16 * ic + led, bit))] else []
  }

  function PlaneShift(w: (nat, nat) -> Word, ic: nat): nat -> seq<Op>
  {
    (p: nat) => Join(LedShift(w, ic, RevBit(p)), LedsPerIc)
  }

  function IcShift(w: (nat, nat) -> Word): nat -> seq<Op>
  {
    (ic: nat) => Join(PlaneShift(w, ic), PwmBits)
  }

  /** One LED: a single data shift when its column exists, nothing otherwise; LE is never raised. */
  lemma LedEventsOps(w: (nat, nat) -> Word, ic: nat, bit: nat, led: nat, c: Chip)
    requires led < LedsPerIc
    requires Quiet(c)
    ensures Quiet(After(LedEvents(w, ic, bit, led), c))
    ensures Ops(LedEvents(w, ic, bit, led), c) == if 16 * ic + led < 88 then [Shift(w(16 * ic + led, bit))] else []
  {
    var col := 16 * ic + led;
    if col < 88 {
      var word := w(col, bit);
      var we := WordEvents(word);
      assert !(ic == IcsPerChain - 1);
      assert we + [] == we;
      assert LedEvents(w, ic, bit, led) == we + DclkPulse + [Set(Le, Low)];
      WordEventsOps(word, c);
      var c1 := After(we, c);
      assert Quiet(c1) && DataOf(c1.lines) == word;
      DclkPulseOps(c1);
      assert After(DclkPulse, c1) == c1;
      assert Ops(DclkPulse, c1) == [Shift(word)];
      Concat(we, DclkPulse, c);
      assert Ops(we + DclkPulse, c) == [Shift(word)];
      Snoc(we + DclkPulse, Set(Le, Low), c);
      assert Emit(c1, Set(Le, Low)) == [];
    }
  }

  lemma PlaneStepOps(w: (nat, nat) -> Word, ic: nat, p: nat, c: Chip)
    requires Quiet(c)
    ensures Quiet(After(PlaneStep(w, ic)(p), c))
    ensures Ops(PlaneStep(w, ic)(p), c) == PlaneShift(w, ic)(p)
  {
    var bit := RevBit(p);
    forall led, d | 0 <= led < LedsPerIc && Quiet(d)
      ensures Quiet(After(LedStep(w, ic, bit)(led), d))
      ensures Ops(LedStep(w, ic, bit)(led), d) == LedShift(w, ic, bit)(led)
    {
      LedEventsOps(w, ic, bit, led, d);
    }
    JoinOps(LedStep(w, ic, bit), LedShift(w, ic, bit), LedsPerIc, c);
  }

  lemma IcStepOps(w: (nat, nat) -> Word, ic: nat, c: Chip)
    requires Quiet(c)
    ensures Quiet(After(IcStep(w)(ic), c))
    ensures Ops(IcStep(w)(ic), c) == IcShift(w)(ic)
  {
    forall p, d | 0 <= p < PwmBits && Quiet(d)
      ensures Quiet(After(PlaneStep(w, ic)(p), d))
      ensures Ops(PlaneStep(w, ic)(p), d) == PlaneShift(w, ic)(p)
    {
      PlaneStepOps(w, ic, p, d);
    }
    JoinOps(PlaneStep(w, ic), PlaneShift(w, ic), PwmBits, c);
  }

  lemma ScanlineShifts(g: Grid, s: nat, c: Chip)
    requires s < ScanLines && Quiet(c)
    ensures Quiet(After(ScanlineEvents(g, s), c))
    ensures Ops(ScanlineEvents(g, s), c) == Join(IcShift(ScanWords(g, s)), IcsPerChain)
  {
    var w := ScanWords(g, s);
    forall ic, d | 0 <= ic < IcsPerChain && Quiet(d)
      ensures Quiet(After(IcStep(w)(ic), d))
      ensures Ops(IcStep(w)(ic), d) == IcShift(w)(ic)
    {
      IcStepOps(w, ic, d);
    }
    JoinOps(IcStep(w), IcShift(w), IcsPerChain, c);
  }

  // Where each shift lands. Chips 0 to 4 lie wholly on the panel, chip 5
  // holds columns 80 to 87 on its LEDs 0 to 7, and chips 6 to 21 hold none.

  lemma LedShiftAt(w: (nat, nat) -> Word, ic: nat, bit: nat, led: nat)
    requires ic < 5 && led < LedsPerIc
    ensures |Join(LedShift(w, ic, bit), LedsPerIc)| == 16
    ensures Join(LedShift(w, ic, bit), LedsPerIc)[led] == Shift(w(16 * ic + led, bit))
  {
    var f := LedShift(w, ic, bit);
    assert forall i :: 0 <= i < 16 ==> |f(i)| == 1;
    JoinLength(f, 16, 1);
    JoinIndex(f, 16, 1, led, 0);
  }

  lemma LedShiftEdgeAt(w: (nat, nat) -> Word, bit: nat, led: nat)
    requires led < 8
    ensures |Join(LedShift(w, 5, bit), LedsPerIc)| == 8
    ensures Join(LedShift(w, 5, bit), LedsPerIc)[led] == Shift(w(80 + led, bit))
  {
    var f := LedShift(w, 5, bit);
    assert forall i :: 8 <= i < 16 ==> f(i) == [];
    JoinEmptyTail(f, 8, 16);
    assert forall i :: 0 <= i < 8 ==> |f(i)| == 1;
    JoinLength(f, 8, 1);
    JoinIndex(f, 8, 1, led, 0);
  }

  lemma LedShiftOff(w: (nat, nat) -> Word, ic: nat, bit: nat)
    requires 6 <= ic
    ensures Join(LedShift(w, ic, bit), LedsPerIc) == []
  {
    var f := LedShift(w, ic, bit);
    assert forall i :: 0 <= i < 16 ==> f(i) == [];
    JoinEmptyTail(f, 0, 16);
  }

  /** Chips 0 to 4: all sixteen planes of sixteen shifts, bit 15 first. */
  lemma PlaneShiftAt(w: (nat, nat) -> Word, ic: nat, p: nat, led: nat)
    requires ic < 5 && p < PwmBits && led < LedsPerIc
    ensures |IcShift(w)(ic)| == 256
    ensures IcShift(w)(ic)[16 * p + led] == Shift(w(16 * ic + led, 15 - p))
  {
    var f := PlaneShift(w, ic);
    forall q | 0 <= q < 16
      ensures |f(q)| == 16
    {
      LedShiftAt(w, ic, RevBit(q), 0);
    }
    JoinLength(f, 16, 16);
    JoinIndex(f, 16, 16, p, led);
    LedShiftAt(w, ic, RevBit(p), led);
  }

  /** Chip 5: sixteen planes of eight shifts, bit 15 first. */
  lemma PlaneShiftEdgeAt(w: (nat, nat) -> Word, p: nat, led: nat)
    requires p < PwmBits && led < 8
    ensures |IcShift(w)(5)| == 128
    ensures IcShift(w)(5)[8 * p + led] == Shift(w(80 + led, 15 - p))
  {
    var f := PlaneShift(w, 5);
    forall q | 0 <= q < 16
      ensures |f(q)| == 8
    {
      LedShiftEdgeAt(w, RevBit(q), 0);
    }
    JoinLength(f, 16, 8);
    JoinIndex(f, 16, 8, p, led);
    LedShiftEdgeAt(w, RevBit(p), led);
  }

  lemma PlaneShiftOff(w: (nat, nat) -> Word, ic: nat)
    requires 6 <= ic
    ensures IcShift(w)(ic) == []
  {
    var f := PlaneShift(w, ic);
    forall q | 0 <= q < 16
      ensures f(q) == []
    {
      LedShiftOff(w, ic, RevBit(q));
    }
    JoinEmptyTail(f, 0, 16);
  }

  /**
   * The position of the shift carrying bit `bit` of column `col` among the
   * 1408 shifts of one scanline: chip by chip, within a chip bit 15 first,
   * within a bit plane LED by LED.
   */
  function DataSlot(col: nat, bit: nat): (j: nat)
    requires col < Width && bit < PwmBits
    ensures j < 1408
  {
    if col < 80 then 256 * (col / 16) + 16 * (15 - bit) + col % 16
    else 1280 + 8 * (15 - bit) + (col - 80)
  }

  /** The column whose shift sits at slot `j` of a scanline. */
  function SlotColumn(j: nat): nat
    requires j < 1408
  {
    if j < 1280 then 16 * (j / 256) + j % 16 else 80 + (j - 1280) % 8
  }

  /** The bit whose shift sits at slot `j` of a scanline. */
  function SlotBit(j: nat): nat
    requires j < 1408
  {
    if j < 1280 then 15 - (j % 256) / 16 else 15 - (j - 1280) / 8
  }

  lemma ChipSlotParts(col: nat, bit: nat)
    requires col < 80 && bit < PwmBits
    ensures DataSlot(col, bit) < 1280
    ensures DataSlot(col, bit) / 256 == col / 16
    ensures DataSlot(col, bit) % 16 == col % 16
    ensures (DataSlot(col, bit) % 256) / 16 == 15 - bit
  {
    var j := DataSlot(col, bit);
    var q, m := col / 16, col % 16;
    var r := 16 * (15 - bit) + m;
    DivModOf(j, 256, q, r);
    DivModOf(r, 16, 15 - bit, m);
    DivModOf(j, 16, 16 * q + 15 - bit, m);
  }

  lemma EdgeSlotParts(col: nat, bit: nat)
    requires 80 <= col < Width && bit < PwmBits
    ensures 1280 <= DataSlot(col, bit)
    ensures (DataSlot(col, bit) - 1280) / 8 == 15 - bit
    ensures (DataSlot(col, bit) - 1280) % 8 == col - 80
  {
    DivModOf(DataSlot(col, bit) - 1280, 8, 15 - bit, col - 80);
  }

  /** Round trip: the slot of a (column, bit) pair names that column and that bit. */
  lemma DataSlotRoundTrip(col: nat, bit: nat)
    requires col < Width && bit < PwmBits
    ensures SlotColumn(DataSlot(col, bit)) == col
    ensures SlotBit(DataSlot(col, bit)) == bit
  {
    if col < 80 {
      ChipSlotParts(col, bit);
    } else {
      EdgeSlotParts(col, bit);
    }
  }

  /** Round trip the other way: every slot below 1408 is the slot of the pair it names. */
  lemma SlotRoundTrip(j: nat)
    requires j < 1408
    ensures SlotColumn(j) < Width && SlotBit(j) < PwmBits
    ensures DataSlot(SlotColumn(j), SlotBit(j)) == j
  {
    if j < 1280 {
      var ic, r := j / 256, j % 256;
      DivModOf(j, 16, 16 * ic + r / 16, r % 16);
      DivModOf(SlotColumn(j), 16, ic, r % 16);
    }
  }

  /** No two (column, bit) pairs share a slot, so the 1408 slots are all the shifts of a scanline. */
  lemma DataSlotInjective(col1: nat, bit1: nat, col2: nat, bit2: nat)
    requires col1 < Width && bit1 < PwmBits && col2 < Width && bit2 < PwmBits
    requires DataSlot(col1, bit1) == DataSlot(col2, bit2)
    ensures col1 == col2 && bit1 == bit2
  {
    DataSlotRoundTrip(col1, bit1);
    DataSlotRoundTrip(col2, bit2);
  }

  /** The shifts of a scanline: five full chips of 256, chip 5 with 128, nothing from chips 6 to 21. */
  lemma ScanShiftLayout(w: (nat, nat) -> Word)
    ensures forall ic :: 0 <= ic < 5 ==> |IcShift(w)(ic)| == 256
    ensures |Join(IcShift(w), 5)| == 1280
    ensures Join(IcShift(w), IcsPerChain) == Join(IcShift(w), 5) + IcShift(w)(5)
    ensures |Join(IcShift(w), IcsPerChain)| == 1408
  {
    var f := IcShift(w);
    forall ic | 6 <= ic < 22
      ensures f(ic) == []
    {
      PlaneShiftOff(w, ic);
    }
    JoinEmptyTail(f, 6, 22);
    forall ic | 0 <= ic < 5
      ensures |f(ic)| == 256
    {
      PlaneShiftAt(w, ic, 0, 0);
    }
    JoinLength(f, 5, 256);
    PlaneShiftEdgeAt(w, 0, 0);
    JoinSnoc(f, 5);
  }

  lemma ChipShiftAt(w: (nat, nat) -> Word, col: nat, bit: nat)
    requires col < 80 && bit < PwmBits
    ensures |Join(IcShift(w), IcsPerChain)| == 1408
    ensures Join(IcShift(w), IcsPerChain)[DataSlot(col, bit)] == Shift(w(col, bit))
  {
    var f := IcShift(w);
    ScanShiftLayout(w);
    var p, j := 15 - bit, DataSlot(col, bit);
    var ic, led := col / 16, col % 16;
    assert col == 16 * ic + led;
    assert j == 256 * ic + (16 * p + led);
    JoinIndex(f, 5, 256, ic, 16 * p + led);
    PlaneShiftAt(w, ic, p, led);
    assert Join(f, IcsPerChain)[j] == Join(f, 5)[j] == f(ic)[16 * p + led];
  }

  lemma EdgeShiftAt(w: (nat, nat) -> Word, col: nat, bit: nat)
    requires 80 <= col < Width && bit < PwmBits
    ensures |Join(IcShift(w), IcsPerChain)| == 1408
    ensures Join(IcShift(w), IcsPerChain)[DataSlot(col, bit)] == Shift(w(col, bit))
  {
    var f := IcShift(w);
    ScanShiftLayout(w);
    var p, j := 15 - bit, DataSlot(col, bit);
    assert j == 1280 + (8 * p + (col - 80));
    PlaneShiftEdgeAt(w, p, col - 80);
    assert Join(f, IcsPerChain)[j] == f(5)[8 * p + (col - 80)];
  }

  /** The shift for column `col` and bit `bit` sits at `DataSlot(col, bit)`. */
  lemma ScanShiftAt(w: (nat, nat) -> Word, col: nat, bit: nat)
    requires col < Width && bit < PwmBits
    ensures |Join(IcShift(w), IcsPerChain)| == 1408
    ensures Join(IcShift(w), IcsPerChain)[DataSlot(col, bit)] == Shift(w(col, bit))
  {
    ScanShiftLayout(w);
    if col < 80 {
      ChipShiftAt(w, col, bit);
    } else {
      EdgeShiftAt(w, col, bit);
    }
  }

  /**
   * `send_scanline_data(s)`: starting quiet, the chips receive exactly 1408
   * data shifts and nothing else (in particular no DataLatch: LE is never
   * raised, because the latch branch needs column 351). The shift at
   * `DataSlot(col, bit)` carries bit `bit` of column `col` of rows `8 s`
   * (chain 1) and `8 s + 44` (chain 2, or zeros past the bottom row).
   */
  lemma ScanlineOps(g: Grid, s: nat, c: Chip)
    requires s < ScanLines && Quiet(c)
    ensures Quiet(After(ScanlineEvents(g, s), c))
    ensures |Ops(ScanlineEvents(g, s), c)| == 1408
    ensures forall col, bit :: 0 <= col < Width && 0 <= bit < PwmBits ==>
      Ops(ScanlineEvents(g, s), c)[DataSlot(col, bit)] == Shift(ExpectedWord(g, s, col, bit))
    ensures forall j :: 0 <= j < 1408 ==> Ops(ScanlineEvents(g, s), c)[j].Shift?
  {
    var w := ScanWords(g, s);
    var ops := Ops(ScanlineEvents(g, s), c);
    ScanlineShifts(g, s, c);
    ScanShiftAt(w, 0, 0);
    forall col, bit | 0 <= col < Width && 0 <= bit < PwmBits
      ensures ops[DataSlot(col, bit)] == Shift(ExpectedWord(g, s, col, bit))
    {
      ScanShiftAt(w, col, bit);
    }
    forall j | 0 <= j < 1408
      ensures ops[j].Shift?
    {
      SlotRoundTrip(j);
      var col, bit := SlotColumn(j), SlotBit(j);
      ScanShiftAt(w, col, bit);
    }
  }

  /** No LED iteration raises LE: the latch branch needs column 16 * 21 + 15, which is past the panel. */
  lemma LedEventsNoLatch(w: (nat, nat) -> Word, ic: nat, bit: nat, led: nat)
    requires led < LedsPerIc
    ensures Set(Le, High) !in LedEvents(w, ic, bit, led)
  {
  }

  /** `send_scanline_data` never drives LE high. */
  lemma ScanlineNeverRaisesLe(g: Grid, s: nat)
    requires s < ScanLines
    ensures Set(Le, High) !in ScanlineEvents(g, s)
  {
    var w := ScanWords(g, s);
    var x := Set(Le, High);
    forall ic | 0 <= ic < IcsPerChain
      ensures x !in IcStep(w)(ic)
    {
      forall p | 0 <= p < PwmBits
        ensures x !in PlaneStep(w, ic)(p)
      {
        forall led | 0 <= led < LedsPerIc
          ensures x !in LedStep(w, ic, RevBit(p))(led)
        {
          LedEventsNoLatch(w, ic, RevBit(p), led);
        }
        JoinAvoids(LedStep(w, ic, RevBit(p)), LedsPerIc, x);
      }
      JoinAvoids(PlaneStep(w, ic), PwmBits, x);
    }
    JoinAvoids(IcStep(w), IcsPerChain, x);
  }

  // --------------------------------------------------------------- refresh

  /** The first loop of `refresh`: `send_scanline_data(s)` for every scanline. */
  function DataLoop(g: Grid): nat -> seq<Event>
  {
    (s: nat) => if s < ScanLines then ScanlineEvents(g, s) else []
  }

  function DataPhase(g: Grid): seq<Event>
  {
    Join(DataLoop(g), ScanLines)
  }

  /** One iteration of the second loop of `refresh`. */
  function ScanStep(s: nat): seq<Event>
  {
    AddressEvents(s)
    + GclkPulses(256)
    + (if s == ScanLines - 1 then CommandEvents(Vsync) else [])
    + GclkPulse
  }

  const ScanLoop: nat -> seq<Event> := (s: nat) => ScanStep(s)

  /** The second loop of `refresh`: the multiplexed display cycle. */
  const ScanPhase: seq<Event> := Join(ScanLoop, ScanLines)

  /** `refresh` of an initialised driver: all data first, then the display cycle. */
  function RefreshEvents(g: Grid): seq<Event>
  {
    DataPhase(g) + ScanPhase
  }

  function DataShifts(g: Grid): nat -> seq<Op>
  {
    (s: nat) => if s < ScanLines then Join(IcShift(ScanWords(g, s)), IcsPerChain) else []
  }

  /** What one display-cycle iteration should deliver: 256 clocks of row `s`, Vsync after row 10's, one more clock. */
  function ScanRow(s: nat): seq<Op>
  {
    Clocks(s) + (if s == ScanLines - 1 then [Cmd(Opcode(Vsync))] else []) + [Scan(s)]
  }

  /** 256 GCLK edges on scanline `s`. */
  function Clocks(s: nat): seq<Op>
  {
    seq(256, k => Scan(s))
  }

  const ScanRows: nat -> seq<Op> := (s: nat) => if s < ScanLines then ScanRow(s) else []

  lemma ScanStepOps(s: nat, c: Chip)
    requires s < ScanLines && Quiet(c)
    ensures Quiet(After(ScanStep(s), c))
    ensures Ops(ScanStep(s), c) == ScanRow(s)
  {
    var addr := AddressEvents(s);
    var clocking := GclkPulses(256);
    var vsync := if s == ScanLines - 1 then CommandEvents(Vsync) else [];
    AddressOps(s, c);
    var c1 := After(addr, c);
    assert Address(c1.lines) == s by {
      DivModOf(s, 16, 0, s);
    }
    GclkPulsesOps(256, c1);
    var clocks := Ops(clocking, c1);
    assert clocks == Clocks(s) by {
      forall j | 0 <= j < 256
        ensures clocks[j] == Clocks(s)[j]
      {
      }
    }
    Concat(addr, clocking, c);
    assert After(addr + clocking, c) == c1;
    assert Ops(addr + clocking, c) == [] + Clocks(s) == Clocks(s);
    var c2 := After(vsync, c1);
    var opsV := if s == ScanLines - 1 then [Cmd(Opcode(Vsync))] else [];
    if s == ScanLines - 1 {
      CommandOps(Vsync, c1);
    }
    assert Ops(vsync, c1) == opsV;
    assert c2.lines == c1.lines;
    Concat(addr + clocking, vsync, c);
    assert Ops(addr + clocking + vsync, c) == Clocks(s) + opsV;
    GclkPulseOps(c2);
    assert Ops(GclkPulse, c2) == [Scan(s)];
    Concat(addr + clocking + vsync, GclkPulse, c);
    assert ScanStep(s) == addr + clocking + vsync + GclkPulse;
  }

  lemma DataPhaseShifts(g: Grid, c: Chip)
    requires Quiet(c)
    ensures Quiet(After(DataPhase(g), c))
    ensures Ops(DataPhase(g), c) == Join(DataShifts(g), ScanLines)
  {
    forall s, d | 0 <= s < ScanLines && Quiet(d)
      ensures Quiet(After(DataLoop(g)(s), d))
      ensures Ops(DataLoop(g)(s), d) == DataShifts(g)(s)
    {
      ScanlineShifts(g, s, d);
    }
    JoinOps(DataLoop(g), DataShifts(g), ScanLines, c);
  }

  lemma ScanPhaseRows(c: Chip)
    requires Quiet(c)
    ensures Quiet(After(ScanPhase, c))
    ensures Ops(ScanPhase, c) == Join(ScanRows, ScanLines)
  {
    forall s, d | 0 <= s < ScanLines && Quiet(d)
      ensures Quiet(After(ScanLoop(s), d))
      ensures Ops(ScanLoop(s), d) == ScanRows(s)
    {
      ScanStepOps(s, d);
    }
    JoinOps(ScanLoop, ScanRows, ScanLines, c);
  }

  /** Where bit `bit` of column `col` for scanline `s` lands among the 15488 shifts of the data phase. */
  function DataIndex(s: nat, col: nat, bit: nat): (j: nat)
    requires s < ScanLines && col < Width && bit < PwmBits
    ensures j < 15488
  {
    1408 * s + DataSlot(col, bit)
  }

  lemma DataShiftsLength(g: Grid)
    ensures forall s :: 0 <= s < ScanLines ==> |DataShifts(g)(s)| == 1408
  {
    forall s | 0 <= s < ScanLines
      ensures |DataShifts(g)(s)| == 1408
    {
      ScanShiftAt(ScanWords(g, s), 0, 0);
    }
  }

  lemma DataPhaseSlot(g: Grid, s: nat, col: nat, bit: nat)
    requires s < ScanLines && col < Width && bit < PwmBits
    ensures |Join(DataShifts(g), ScanLines)| == 15488
    ensures Join(DataShifts(g), ScanLines)[DataIndex(s, col, bit)] == Shift(ExpectedWord(g, s, col, bit))
  {
    var f := DataShifts(g);
    DataShiftsLength(g);
    JoinLength(f, ScanLines, 1408);
    JoinIndex(f, ScanLines, 1408, s, DataSlot(col, bit));
    ScanShiftAt(ScanWords(g, s), col, bit);
  }

  lemma DataPhaseShift(g: Grid, j: nat)
    requires j < 15488
    ensures |Join(DataShifts(g), ScanLines)| == 15488
    ensures Join(DataShifts(g), ScanLines)[j].Shift?
  {
    var s, r := j / 1408, j % 1408;
    assert s < ScanLines && j == 1408 * s + r;
    SlotRoundTrip(r);
    DataPhaseSlot(g, s, SlotColumn(r), SlotBit(r));
  }

  lemma DataPhaseAt(g: Grid)
    ensures |Join(DataShifts(g), ScanLines)| == 15488
    ensures forall s, col, bit :: 0 <= s < ScanLines && 0 <= col < Width && 0 <= bit < PwmBits ==>
      Join(DataShifts(g), ScanLines)[DataIndex(s, col, bit)] == Shift(ExpectedWord(g, s, col, bit))
    ensures forall j :: 0 <= j < 15488 ==> Join(DataShifts(g), ScanLines)[j].Shift?
  {
    DataPhaseSlot(g, 0, 0, 0);
    forall s, col, bit | 0 <= s < ScanLines && 0 <= col < Width && 0 <= bit < PwmBits
      ensures Join(DataShifts(g), ScanLines)[DataIndex(s, col, bit)] == Shift(ExpectedWord(g, s, col, bit))
    {
      DataPhaseSlot(g, s, col, bit);
    }
    forall j | 0 <= j < 15488
      ensures Join(DataShifts(g), ScanLines)[j].Shift?
    {
      DataPhaseShift(g, j);
    }
  }

  lemma ScanPhaseAt()
    ensures |Join(ScanRows, ScanLines)| == 2828
    ensures forall j :: 0 <= j < 2570 ==> Join(ScanRows, ScanLines)[j] == Scan(j / 257)
    ensures forall j :: 2570 <= j < 2826 ==> Join(ScanRows, ScanLines)[j] == Scan(10)
    ensures Join(ScanRows, ScanLines)[2826] == Cmd(2)
    ensures Join(ScanRows, ScanLines)[2827] == Scan(10)
  {
    var f := ScanRows;
    JoinSnoc(f, 10);
    assert forall s :: 0 <= s < 10 ==> |f(s)| == 257;
    JoinLength(f, 10, 257);
    forall j | 0 <= j < 2570
      ensures Join(f, ScanLines)[j] == Scan(j / 257)
    {
      JoinIndex(f, 10, 257, j / 257, j % 257);
    }
  }

  /**
   * One refresh of an initialised driver, as the chain sees it: 15488 shifts carrying every
   * scanline's pixels, then the display cycle with a single Vsync, and quiet control lines after.
   */
  lemma RefreshOps(g: Grid, c: Chip)
    requires Quiet(c)
    ensures Quiet(After(RefreshEvents(g), c))
    ensures |Ops(RefreshEvents(g), c)| == 18316
    ensures forall s, col, bit :: 0 <= s < ScanLines && 0 <= col < Width && 0 <= bit < PwmBits ==>
      Ops(RefreshEvents(g), c)[DataIndex(s, col, bit)] == Shift(ExpectedWord(g, s, col, bit))
    ensures forall j :: 0 <= j < 15488 ==> Ops(RefreshEvents(g), c)[j].Shift?
    ensures forall j :: 15488 <= j < 18058 ==> Ops(RefreshEvents(g), c)[j] == Scan((j - 15488) / 257)
    ensures forall j :: 18058 <= j < 18314 ==> Ops(RefreshEvents(g), c)[j] == Scan(10)
    ensures Ops(RefreshEvents(g), c)[18314] == Cmd(Opcode(Vsync))
    ensures Ops(RefreshEvents(g), c)[18315] == Scan(10)
  {
    DataPhaseShifts(g, c);
    var c1 := After(DataPhase(g), c);
    ScanPhaseRows(c1);
    Concat(DataPhase(g), ScanPhase, c);
    DataPhaseAt(g);
    ScanPhaseAt();
  }

  /** A refresh leaves the clocks and the latch low. */
  lemma RefreshQuiet(g: Grid, c: Chip)
    requires Quiet(c)
    ensures Quiet(After(RefreshEvents(g), c))
  {
    DataPhaseShifts(g, c);
    ScanPhaseRows(After(DataPhase(g), c));
    Concat(DataPhase(g), ScanPhase, c);
  }

  /** A trace that left the lines quiet still does after a refresh. */
  lemma RefreshKeepsQuiet(t: seq<Event>, g: Grid)
    requires Quiet(After(t, Start))
    ensures Quiet(After(t + RefreshEvents(g), Start))
  {
    RefreshQuiet(g, After(t, Start));
    Concat(t, RefreshEvents(g), Start);
  }

  /** A refresh sends exactly one command (Vsync, near the end) and a scan clock everywhere after the data. */
  lemma RefreshVsyncOnce(g: Grid, c: Chip)
    requires Quiet(c)
    ensures forall j :: 0 <= j < |Ops(RefreshEvents(g), c)| ==>
      (Ops(RefreshEvents(g), c)[j].Cmd? <==> j == 18314)
    ensures forall j :: 0 <= j < |Ops(RefreshEvents(g), c)| ==>
      (Ops(RefreshEvents(g), c)[j].Scan? <==> 15488 <= j && j != 18314)
  {
    RefreshOps(g, c);
    var ops := Ops(RefreshEvents(g), c);
    forall j | 0 <= j < |ops|
      ensures ops[j].Cmd? <==> j == 18314
      ensures ops[j].Scan? <==> 15488 <= j && j != 18314
    {
      if j < 15488 {
        assert ops[j].Shift?;
      } else if j < 18058 {
        assert ops[j] == Scan((j - 15488) / 257);
      } else if j < 18314 {
        assert ops[j] == Scan(10);
      }
    }
  }

  // ---------------------------------------------------------- initialisation

  /** `set_all_pins_low`: every line driven low, in declaration order: the three clocks/latch, the address, the data. */
  const ControlLow: seq<Event> := [Set(Gclk, Low), Set(Dclk, Low), Set(Le, Low)]
  const AddressLow: seq<Event> := [Set(A0, Low), Set(A1, Low), Set(A2, Low), Set(A3, Low)]
  const DataLow: seq<Event> := WordEvents(NoWord)
  const AllPinsLow: seq<Event> := ControlLow + AddressLow + DataLow

  lemma ControlLowOps(c: Chip)
    ensures After(ControlLow, c) == Chip(c.lines.(gclk := Low, dclk := Low, le := Low), c.pending)
    ensures Ops(ControlLow, c) == if c.lines.le == High then [Cmd(c.pending)] else []
  {
    var t := ControlLow;
    assert AfterN(t, 1, c) == Chip(c.lines.(gclk := Low), c.pending);
    assert OpsN(t, 1, c) == [];
    assert AfterN(t, 2, c) == Chip(c.lines.(gclk := Low, dclk := Low), c.pending);
    assert OpsN(t, 2, c) == [];
  }

  lemma AddressLowOps(c: Chip)
    ensures After(AddressLow, c) == Chip(c.lines.(a0 := Low, a1 := Low, a2 := Low, a3 := Low), c.pending)
    ensures Ops(AddressLow, c) == []
  {
    var t := AddressLow;
    assert AfterN(t, 1, c) == Chip(c.lines.(a0 := Low), c.pending);
    assert OpsN(t, 1, c) == [];
    assert AfterN(t, 2, c) == Chip(c.lines.(a0 := Low, a1 := Low), c.pending);
    assert OpsN(t, 2, c) == [];
    assert AfterN(t, 3, c) == Chip(c.lines.(a0 := Low, a1 := Low, a2 := Low), c.pending);
    assert OpsN(t, 3, c) == [];
  }

  lemma DataLowOps(c: Chip)
    ensures After(DataLow, c) == Chip(c.lines.(dr1 := Low, dg1 := Low, db1 := Low, dr2 := Low, dg2 := Low, db2 := Low), c.pending)
    ensures Ops(DataLow, c) == []
  {
    WordEventsOps(NoWord, c);
  }

  /** Whatever the lines were, afterwards all are low; a command in progress is ended by LE falling. */
  lemma AllPinsLowOps(c: Chip)
    ensures After(AllPinsLow, c) == Chip(AllLow, c.pending)
    ensures Ops(AllPinsLow, c) == if c.lines.le == High then [Cmd(c.pending)] else []
  {
    ControlLowOps(c);
    var c1 := After(ControlLow, c);
    AddressLowOps(c1);
    var c2 := After(AddressLow, c1);
    DataLowOps(c2);
    Concat(ControlLow, AddressLow, c);
    Concat(ControlLow + AddressLow, DataLow, c);
  }

  /** The configuration `init` writes: output enabled, 16-bit PWM, maximum current gain. */
  const InitConfig: u16 := 0x001F

  /** `init`: all pins low, Reset, PreActive, then the configuration. */
  const InitEvents: seq<Event> :=
    AllPinsLow + CommandEvents(Reset) + CommandEvents(PreActive) + ConfigEvents(InitConfig)

  /** What the configuration step of `init` should deliver: WriteConfig, 0x001F MSB-first on R1, DataLatch. */
  const InitConfigRef: seq<Op> := [Cmd(Opcode(WriteConfig))] + InitShifts + [Cmd(Opcode(DataLatch))]

  /** 0x001F shifted MSB-first into chain 1's red line: eleven zeros, then five ones. */
  const InitShifts: seq<Op> := seq(16, k => Shift(NoWord.(r1 := LevelOf(k >= 11))))

  lemma InitConfigBits(k: nat)
    requires k < 16
    ensures Bit(InitConfig as nat, k) == (k < 5)
  {
    if k < 5 {
      assert k == 0 || k == 1 || k == 2 || k == 3 || k == 4;
    } else {
      assert Bit(31, k) == Bit(15, k - 1) == Bit(7, k - 2) == Bit(3, k - 3);
      assert Bit(3, k - 3) == Bit(1, k - 4) == Bit(0, k - 5);
      ZeroBit(k - 5);
    }
  }

  lemma {:induction false} ZeroBit(k: nat)
    ensures !Bit(0, k)
  {
    if k > 0 {
      ZeroBit(k - 1);
    }
  }

  /** The configuration part of `init`: WriteConfig, 0x001F MSB-first (eleven zeros then five ones) on R1, DataLatch. */
  lemma InitConfigOps(n: nat)
    ensures After(ConfigEvents(InitConfig), Chip(AllLow, n)) == Chip(AllLow.(dr1 := High), Opcode(DataLatch))
    ensures Ops(ConfigEvents(InitConfig), Chip(AllLow, n)) == InitConfigRef
  {
    var c := Chip(AllLow, n);
    ConfigOps(InitConfig, c);
    var cfg := Ops(ConfigEvents(InitConfig), c);
    InitConfigBits(0);
    forall j | 1 <= j <= 16
      ensures cfg[j] == Shift(NoWord.(r1 := LevelOf(j - 1 >= 11)))
    {
      InitConfigBits(16 - j);
    }
    assert cfg == [Cmd(4)] + InitShifts + [Cmd(1)];
    CommandOps(WriteConfig, c);
    ConfigBitsOps(InitConfig as nat, 16, Chip(AllLow, 4));
    CommandOps(DataLatch, After(ConfigBits(InitConfig as nat, 16), Chip(AllLow, 4)));
    Concat(CommandEvents(WriteConfig), ConfigBits(InitConfig as nat, 16), c);
    Concat(CommandEvents(WriteConfig) + ConfigBits(InitConfig as nat, 16), CommandEvents(DataLatch), c);
  }

  /**
   * `init` from any state of the lines: whatever command was in progress is ended, then the
   * chips receive Reset, PreActive and the configuration 0x001F, and the lines end quiet.
   */
  lemma InitOps(c: Chip)
    ensures Quiet(After(InitEvents, c))
    ensures After(InitEvents, c).lines == AllLow.(dr1 := High)
    ensures Ops(InitEvents, c) ==
      (if c.lines.le == High then [Cmd(c.pending)] else []) + [Cmd(Opcode(Reset))] + [Cmd(Opcode(PreActive))] + InitConfigRef
  {
    AllPinsLowOps(c);
    var c1 := Chip(AllLow, c.pending);
    CommandOps(Reset, c1);
    CommandOps(PreActive, Chip(AllLow, Opcode(Reset)));
    InitConfigOps(Opcode(PreActive));
    var e1, e2, e3, e4 := AllPinsLow, CommandEvents(Reset), CommandEvents(PreActive), ConfigEvents(InitConfig);
    Concat(e1, e2, c);
    Concat(e1 + e2, e3, c);
    Concat(e1 + e2 + e3, e4, c);
  }

  // ----------------------------------------------------------- pulse counts

  /**
   * The DCLK rising edges behind the operations the chips received: `n` for a
   * command, one per shift. It counts over the `Op` sequence `Ops` decodes, not
   * over the rising edges of the raw pin trace.
   */
  function DclkEdges(ops: seq<Op>): nat
  {
    if ops == [] then 0
    else
      DclkEdges(ops[..|ops| - 1])
      + match ops[|ops| - 1]
        case Cmd(n) => n
        case Shift(_) => 1
        case Scan(_) => 0
  }

  lemma DclkEdgesSingle(x: Op)
    ensures DclkEdges([x]) == match x case Cmd(n) => n case Shift(_) => 1 case Scan(_) => 0
  {
    assert [x][..0] == [];
  }

  lemma {:induction false} DclkEdgesConcat(a: seq<Op>, b: seq<Op>)
    ensures DclkEdges(a + b) == DclkEdges(a) + DclkEdges(b)
    decreases |b|
  {
    if b == [] {
      assert a + b == a;
    } else {
      assert (a + b)[..|a + b| - 1] == a + b[..|b| - 1];
      DclkEdgesConcat(a, b[..|b| - 1]);
    }
  }

  lemma {:induction false} DclkEdgesOfShifts(ops: seq<Op>)
    requires forall j :: 0 <= j < |ops| ==> ops[j].Shift?
    ensures DclkEdges(ops) == |ops|
  {
    if ops != [] {
      DclkEdgesOfShifts(ops[..|ops| - 1]);
    }
  }

  /** `send_config` clocks DCLK 21 times: 4 edges for WriteConfig, the 16 data bits, 1 for DataLatch. */
  lemma ConfigPulses(v: u16, c: Chip)
    requires Quiet(c)
    ensures DclkEdges(Ops(ConfigEvents(v), c)) == 21
  {
    ConfigOps(v, c);
    var ops := Ops(ConfigEvents(v), c);
    var data := ops[1..17];
    assert ops == [ops[0]] + data + [ops[17]];
    DclkEdgesConcat([ops[0]] + data, [ops[17]]);
    DclkEdgesConcat([ops[0]], data);
    DclkEdgesSingle(ops[0]);
    DclkEdgesSingle(ops[17]);
    DclkEdgesOfShifts(data);
  }

  /** `init` with LE low clocks DCLK 45 times: Reset (10), PreActive (14), then the configuration (21). */
  lemma InitPulses(c: Chip)
    requires c.lines.le == Low
    ensures DclkEdges(Ops(InitEvents, c)) == 45
  {
    InitOps(c);
    var reset, pre: seq<Op> := [Cmd(Opcode(Reset))], [Cmd(Opcode(PreActive))];
    assert Ops(InitEvents, c) == reset + pre + InitConfigRef by {
      assert [] + reset == reset;
    }
    InitRefPulses(reset, pre);
  }

  lemma InitRefPulses(reset: seq<Op>, pre: seq<Op>)
    requires reset == [Cmd(Opcode(Reset))] && pre == [Cmd(Opcode(PreActive))]
    ensures DclkEdges(reset + pre + InitConfigRef) == 45
  {
    var a, b := [Cmd(Opcode(WriteConfig))], [Cmd(Opcode(DataLatch))];
    DclkEdgesConcat(reset + pre, InitConfigRef);
    DclkEdgesConcat(reset, pre);
    DclkEdgesConcat(a + InitShifts, b);
    DclkEdgesConcat(a, InitShifts);
    DclkEdgesSingle(a[0]);
    DclkEdgesSingle(b[0]);
    DclkEdgesSingle(reset[0]);
    DclkEdgesSingle(pre[0]);
    DclkEdgesOfShifts(InitShifts);
  }
}
