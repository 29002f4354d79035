/**
 * The thirteen output lines of the panel and a model of what the panel's
 * shift-register chips make of the levels written to them.
 *
 * The driver's every pin write is recorded as one `Event`. `Ops` replays a
 * trace of events against the chips and yields what they received:
 *  - a rising DCLK edge while LE is high is counted, and when LE falls the
 *    count is the opcode of a command (`Cmd`);
 *  - a rising DCLK edge while LE is low shifts the six data lines into the
 *    chains (`Shift`);
 *  - a rising GCLK edge advances the multiplex clock of the row addressed by
 *    A0..A3 (`Scan`).
 */
module Gpio {
  import opened Bits
  import opened Seqs

  datatype Pin = Gclk | Dclk | Le | A0 | A1 | A2 | A3 | Dr1 | Dg1 | Db1 | Dr2 | Dg2 | Db2

  datatype Level = Low | High

  function LevelOf(b: bool): (l: Level)
    ensures (l == High) == b
  {
    if b then High else Low
  }

  /** One pin write: `pin.set_high()` or `pin.set_low()`. */
  datatype Event = Set(pin: Pin, level: Level)

  /** The level currently driven on every line. */
  datatype Lines = Lines(
    gclk: Level, dclk: Level, le: Level,
    a0: Level, a1: Level, a2: Level, a3: Level,
    dr1: Level, dg1: Level, db1: Level,
    dr2: Level, dg2: Level, db2: Level)

  const AllLow := Lines(Low, Low, Low, Low, Low, Low, Low, Low, Low, Low, Low, Low, Low)

  /** Drives line `p` to `v`, leaving every other line as it was. */
  function Drive(l: Lines, p: Pin, v: Level): Lines
  {
    match p
    case Gclk => l.(gclk := v)
    case Dclk => l.(dclk := v)
    case Le => l.(le := v)
    case A0 => l.(a0 := v)
    case A1 => l.(a1 := v)
    case A2 => l.(a2 := v)
    case A3 => l.(a3 := v)
    case Dr1 => l.(dr1 := v)
    case Dg1 => l.(dg1 := v)
    case Db1 => l.(db1 := v)
    case Dr2 => l.(dr2 := v)
    case Dg2 => l.(dg2 := v)
    case Db2 => l.(db2 := v)
  }

  /** The six colour data lines at one DCLK edge: chain 1 (R1,G1,B1) and chain 2 (R2,G2,B2). */
  datatype Word = Word(r1: Level, g1: Level, b1: Level, r2: Level, g2: Level, b2: Level)

  function DataOf(l: Lines): Word
  {
    Word(l.dr1, l.dg1, l.db1, l.dr2, l.dg2, l.db2)
  }

  function BitValue(l: Level): nat
  {
    if l == High then 1 else 0
  }

  /** The scanline selected by the address lines, A0 being the least significant bit. */
  function Address(l: Lines): (a: nat)
    ensures a < 16
  {
    BitValue(l.a0) + 2 * BitValue(l.a1) + 4 * BitValue(l.a2) + 8 * BitValue(l.a3)
  }

  /** What the panel receives. */
  datatype Op =
    | Cmd(pulses: nat)   // LE held high over `pulses` DCLK edges
    | Shift(word: Word)  // one data bit into each of the six chains
    | Scan(row: nat)     // one GCLK edge on scanline `row`

  /** The lines as driven plus the DCLK edges counted since LE last rose. */
  datatype Chip = Chip(lines: Lines, pending: nat)

  const Start := Chip(AllLow, 0)

  /** No command is in progress and both clocks are low: a new pulse or command can start. */
  predicate Quiet(c: Chip)
  {
    c.lines.le == Low && c.lines.dclk == Low && c.lines.gclk == Low
  }

  function Emit(c: Chip, e: Event): seq<Op>
  {
    match e.pin
    case Le =>
      if e.level == Low && c.lines.le == High then [Cmd(c.pending)] else []
    case Dclk =>
      if e.level == High && c.lines.dclk == Low && c.lines.le == Low then [Shift(DataOf(c.lines))] else []
    case Gclk =>
      if e.level == High && c.lines.gclk == Low then [Scan(Address(c.lines))] else []
    case _ => []
  }

  function Next(c: Chip, e: Event): Chip
  {
    var pending :=
      if e.pin == Le && e.level == High && c.lines.le == Low then 0
      else if e.pin == Dclk && e.level == High && c.lines.dclk == Low && c.lines.le == High then c.pending + 1
      else c.pending;
    Chip(Drive(c.lines, e.pin, e.level), pending)
  }

  /** The chip state after the first `n` events of `tr`, starting from `c`. */
  function AfterN(tr: seq<Event>, n: nat, c: Chip): Chip
    requires n <= |tr|
  {
    if n == 0 then c else Next(AfterN(tr, n - 1, c), tr[n - 1])
  }

  /** What the panel receives from the first `n` events of `tr`, starting from `c`. */
  function OpsN(tr: seq<Event>, n: nat, c: Chip): seq<Op>
    requires n <= |tr|
  {
    if n == 0 then [] else OpsN(tr, n - 1, c) + Emit(AfterN(tr, n - 1, c), tr[n - 1])
  }

  /** The chip state after the events of `tr`, starting from `c`. */
  function After(tr: seq<Event>, c: Chip): Chip
  {
    AfterN(tr, |tr|, c)
  }

  /** What the panel receives from the events of `tr`, starting from `c`. */
  function Ops(tr: seq<Event>, c: Chip): seq<Op>
  {
    OpsN(tr, |tr|, c)
  }

  /** Extending a trace does not change what its first events did. */
  lemma {:induction false} PrefixStable(a: seq<Event>, b: seq<Event>, n: nat, c: Chip)
    requires n <= |a|
    ensures AfterN(a + b, n, c) == AfterN(a, n, c)
    ensures OpsN(a + b, n, c) == OpsN(a, n, c)
  {
    if n > 0 {
      PrefixStable(a, b, n - 1, c);
      assert (a + b)[n - 1] == a[n - 1];
    }
  }

  lemma {:induction false} SuffixRun(a: seq<Event>, b: seq<Event>, k: nat, c: Chip)
    requires k <= |b|
    ensures AfterN(a + b, |a| + k, c) == AfterN(b, k, After(a, c))
    ensures OpsN(a + b, |a| + k, c) == Ops(a, c) + OpsN(b, k, After(a, c))
  {
    if k == 0 {
      PrefixStable(a, b, |a|, c);
    } else {
      SuffixRun(a, b, k - 1, c);
      var e := b[k - 1];
      assert (a + b)[|a| + k - 1] == e;
      var before := AfterN(b, k - 1, After(a, c));
      assert AfterN(a + b, |a| + k, c) == Next(before, e);
      assert OpsN(a + b, |a| + k, c) == Ops(a, c) + OpsN(b, k - 1, After(a, c)) + Emit(before, e);
      AppendAssoc(Ops(a, c), OpsN(b, k - 1, After(a, c)), Emit(before, e));
    }
  }

  /** Replaying one trace after another is replaying their concatenation. */
  lemma Concat(a: seq<Event>, b: seq<Event>, c: Chip)
    ensures After(a + b, c) == After(b, After(a, c))
    ensures Ops(a + b, c) == Ops(a, c) + Ops(b, After(a, c))
  {
    SuffixRun(a, b, |b|, c);
  }

  /** Replaying three traces one after another. */
  lemma Concat3(a: seq<Event>, b: seq<Event>, d: seq<Event>, c: Chip)
    ensures After(a + b + d, c) == After(d, After(b, After(a, c)))
    ensures Ops(a + b + d, c) == Ops(a, c) + Ops(b, After(a, c)) + Ops(d, After(b, After(a, c)))
  {
    Concat(a, b, c);
    Concat(a + b, d, c);
  }

  lemma Single(e: Event, c: Chip)
    ensures After([e], c) == Next(c, e)
    ensures Ops([e], c) == Emit(c, e)
  {
    assert AfterN([e], 0, c) == c;
    assert OpsN([e], 0, c) == [];
  }

  /** Replaying a trace extended by one event. */
  lemma Snoc(tr: seq<Event>, e: Event, c: Chip)
    ensures After(tr + [e], c) == Next(After(tr, c), e)
    ensures Ops(tr + [e], c) == Ops(tr, c) + Emit(After(tr, c), e)
  {
    PrefixStable(tr, [e], |tr|, c);
  }

  /**
   * A loop whose every iteration takes the chips from a quiet state to a
   * quiet state, making them receive `ops(i)` whatever the state it starts
   * from, makes them receive the iterations' operations in order.
   */
  lemma {:induction false} JoinOps(body: nat -> seq<Event>, ops: nat -> seq<Op>, n: nat, c: Chip)
    requires Quiet(c)
    requires forall i, d :: 0 <= i < n && Quiet(d) ==> Quiet(After(body(i), d)) && Ops(body(i), d) == ops(i)
    ensures Quiet(After(Join(body, n), c))
    ensures Ops(Join(body, n), c) == Join(ops, n)
  {
    JoinSnoc(body, 0);
    JoinSnoc(ops, 0);
    if n > 0 {
      JoinOps(body, ops, n - 1, c);
      JoinSnoc(body, n - 1);
      JoinSnoc(ops, n - 1);
      Concat(Join(body, n - 1), body(n - 1), c);
    }
  }
}
