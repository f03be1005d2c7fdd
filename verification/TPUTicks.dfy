/** The timer unit as a tick-by-tick machine: every tick counts once and then looks for an overflow and for each
    compare match.  Nothing here skips ahead. */
module TPUTicks {

  /** An eight-bit register and what the channel does with one. */
  datatype Reg8 = Reg8(value: bv8) {
    predicate Any(mask: bv8) {
      value & mask != 0
    }

    /** The masked bits have this value. */
    predicate Is(mask: bv8, v: bv8) {
      value & mask == v
    }

    function With(mask: bv8): Reg8 {
      Reg8(value | mask)
    }

    function Without(mask: bv8): Reg8 {
      Reg8(value & !mask)
    }

    function Only(mask: Reg8): Reg8 {
      Reg8(value & mask.value)
    }
  }

  function Byte(val: nat): Reg8
    requires val < 256
  {
    Reg8(val as bv8)
  }

  datatype Reg16 = Reg16(value: bv16) {
    predicate Any(mask: bv16) {
      value & mask != 0
    }

    function WithHigh(v: Reg8): Reg16 {
      Reg16((value & 0xFF) | ((v.value as bv16) << 8))
    }

    function WithLow(v: Reg8): Reg16 {
      Reg16((value & 0xFF00) | (v.value as bv16))
    }

    /** A pin is an output when an output action is selected and it is not an input. */
    predicate Output(select: bv16, input: bv16) {
      Any(select) && !Any(input)
    }

    /** The pins this register turns into outputs, of the first two or of all four. */
    function Outputs(wide: bool): Reg8 {
      var a: bv8 := if Output(0x0003, 0x0008) then 1 else 0;
      var b: bv8 := if Output(0x0030, 0x0080) then 2 else 0;
      var c: bv8 := if wide && Output(0x0300, 0x0800) then 4 else 0;
      var d: bv8 := if wide && Output(0x3000, 0x8000) then 8 else 0;
      Reg8(a | b | c | d)
    }

    /** The output selection of pin A (0) or B (1). */
    function Select(pin: nat): nat {
      var f := (if pin == 0 then value else value >> 4) & 3;
      if f == 0 then 0 else if f == 1 then 1 else if f == 2 then 2 else 3
    }

    lemma SelectIsAny()
      ensures Select(0) == 0 <==> !Any(0x03)
      ensures Select(1) == 0 <==> !Any(0x30)
    {}
  }

  /** What the CPU sees of a channel: interrupt requests and port updates, the latter with their cycle. */
  datatype Event = Interrupt(source: nat) | Port(ioState: Reg8, cycle: nat)

  /** The registers that stay fixed while the channel counts; `div` cycles make a tick. */
  datatype Config = Config(
    index: nat, div: nat, clearOn: nat, mode: Reg8, ioControl: Reg16, interruptEnable: Reg8, general: seq<nat>)
  {
    predicate Valid() {
      index < 6 && div > 0 && |general| == 4 && forall i :: 0 <= i < 4 ==> general[i] < 0x10000
    }

    /** Channels 0 and 3 have four compare registers, the others two. */
    predicate Wide() {
      index == 0 || index == 3
    }

    function Compares(): nat {
      if Wide() then 4 else 2
    }
  }

  datatype State = State(counter: nat, status: Reg8, ioState: Reg8, last: nat, log: seq<Event>)

  // ---------- what a tick does ----------

  const OVERFLOW_SOURCES: seq<nat> := [36, 42, 46, 52, 58, 62]
  const COMPARE_A_SOURCES: seq<nat> := [32, 40, 44, 48, 56, 60]

  function Raise(c: Config, s: State, enable: bv8, source: nat): (r: State)
    ensures r.counter == s.counter && r.last == s.last
  {
    if c.interruptEnable.Any(enable) then s.(log := s.log + [Interrupt(source)]) else s
  }

  function SetIO(s: State, pin: bv8, value: bool): (r: State)
    ensures r.counter == s.counter && r.last == s.last
  {
    var io := if value then s.ioState.With(pin) else s.ioState.Without(pin);
    s.(ioState := io, log := s.log + [Port(io, s.last)])
  }

  /** Clearing restarts the count; in PWM mode 2 it also puts the outputs back to their initial values. */
  function Clear(c: Config, s: State): (r: State)
    ensures r.counter == 0 && r.last == s.last
  {
    var s0 := s.(counter := 0);
    if !c.mode.Is(0xF, 3) then s0 else
      var s1 := if c.ioControl.Any(0x03) then SetIO(s0, 1, c.ioControl.Any(0x04)) else s0;
      if c.ioControl.Any(0x30) then SetIO(s1, 2, c.ioControl.Any(0x40)) else s1
  }

  /** The output action of a compare match; `select` is the pin's output selection. */
  function Drive(s: State, select: nat, input: bool, pin: bv8): (r: State)
    ensures r.counter == s.counter && r.last == s.last
  {
    if select == 0 || input then s
    else SetIO(s, pin, if select == 1 then false else if select == 2 then true else !s.ioState.Any(pin))
  }

  function Overflow(c: Config, s: State): (r: State)
    requires c.Valid()
    ensures (r.counter == s.counter || r.counter == 0) && r.last == s.last
  {
    if s.counter == 0 then Raise(c, s.(status := s.status.With(0x10)), 0x10, OVERFLOW_SOURCES[c.index]) else s
  }

  function CompareA(c: Config, s: State): (r: State)
    requires c.Valid()
    ensures (r.counter == s.counter || r.counter == 0) && r.last == s.last
  {
    if s.counter != c.general[0] then s else
      var s1 := s.(status := s.status.With(1));
      var s2 := if c.clearOn == 1 then Clear(c, s1) else s1;
      var s3 := Raise(c, s2, 1, COMPARE_A_SOURCES[c.index]);
      Drive(s3, c.ioControl.Select(0), c.ioControl.Any(0x08), 1)
  }

  function CompareB(c: Config, s: State): (r: State)
    requires c.Valid()
    ensures (r.counter == s.counter || r.counter == 0) && r.last == s.last
  {
    if s.counter != c.general[1] then s else
      var s1 := s.(status := s.status.With(2));
      var s2 := if c.clearOn == 2 then Clear(c, s1) else s1;
      var s3 := Raise(c, s2, 2, COMPARE_A_SOURCES[c.index] + 1);
      Drive(s3, c.ioControl.Select(1), c.ioControl.Any(0x80), 2)
  }

  function CompareC(c: Config, s: State): (r: State)
    requires c.Valid()
    ensures (r.counter == s.counter || r.counter == 0) && r.last == s.last
  {
    if s.counter != c.general[2] then s else
      var s1 := s.(status := s.status.With(4));
      var s2 := if c.clearOn == 5 then Clear(c, s1) else s1;
      Raise(c, s2, 4, if c.index == 0 then 34 else 50)
  }

  function CompareD(c: Config, s: State): (r: State)
    requires c.Valid()
    ensures (r.counter == s.counter || r.counter == 0) && r.last == s.last
  {
    if s.counter != c.general[3] then s else
      var s1 := s.(status := s.status.With(8));
      var s2 := if c.clearOn == 6 then Clear(c, s1) else s1;
      Raise(c, s2, 8, if c.index == 0 then 35 else 51)
  }

  function Checks(c: Config, s: State): (r: State)
    requires c.Valid()
    ensures (r.counter == s.counter || r.counter == 0) && r.last == s.last
  {
    var s := CompareB(c, CompareA(c, Overflow(c, s)));
    if c.Wide() then CompareD(c, CompareC(c, s)) else s
  }

  /** The cycles in `n` ticks. */
  function Span(n: nat, div: nat): nat {
    n * div
  }

  lemma SpanAdd(m: nat, n: nat, div: nat)
    ensures Span(m + n, div) == Span(m, div) + Span(n, div)
    ensures Span(0, div) == 0 && Span(1, div) == div
  {}

  function Advance(c: Config, s: State, n: nat): State {
    s.(counter := (s.counter + n) % 0x10000, last := s.last + Span(n, c.div))
  }

  function Tick(c: Config, s: State): State
    requires c.Valid()
  {
    Checks(c, Advance(c, s, 1))
  }

  function Ticks(c: Config, s: State, n: nat): State
    requires c.Valid()
    decreases n
  {
    if n == 0 then s else Ticks(c, Tick(c, s), n - 1)
  }

  // ---------- skipping ----------

  /** The least relevant compare value above `counter`, or the overflow. */
  function Next(c: Config, counter: nat): (n: nat)
    requires c.Valid() && counter < 0x10000
    ensures counter < n <= 0x10000
    ensures n == 0x10000 || exists i :: 0 <= i < c.Compares() && c.general[i] == n
    ensures forall i :: 0 <= i < c.Compares() && c.general[i] > counter ==> n <= c.general[i]
  {
    NextAmong(c.general, counter, c.Compares())
  }

  function NextAmong(general: seq<nat>, counter: nat, k: nat): (n: nat)
    requires k <= |general| && counter < 0x10000
    ensures counter < n <= 0x10000
    ensures n == 0x10000 || exists i :: 0 <= i < k && general[i] == n
    ensures forall i :: 0 <= i < k && general[i] > counter ==> n <= general[i]
  {
    if k == 0 then 0x10000 else
      var n := NextAmong(general, counter, k - 1);
      if general[k - 1] > counter && general[k - 1] < n then general[k - 1] else n
  }

  /** A count that meets nothing changes nothing. */
  lemma QuietChecks(c: Config, s: State)
    requires c.Valid() && s.counter != 0
    requires forall i :: 0 <= i < c.Compares() ==> c.general[i] != s.counter
    ensures Checks(c, s) == s
  {
    hide Raise, Clear, Drive;
  }

  lemma AdvanceTwice(c: Config, s: State, m: nat, n: nat)
    ensures Advance(c, Advance(c, s, m), n) == Advance(c, s, m + n)
  {
    hide Span;
    SpanAdd(m, n, c.div);
  }

  lemma AdvanceNone(c: Config, s: State)
    requires s.counter < 0x10000
    ensures Advance(c, s, 0) == s
  {
    hide Span;
    SpanAdd(0, 0, c.div);
  }

  /** Up to the next event, ticking only counts. */
  lemma {:induction false} QuietTicks(c: Config, s: State, n: nat)
    requires c.Valid() && s.counter < 0x10000 && s.counter + n < Next(c, s.counter)
    ensures Ticks(c, s, n) == Advance(c, s, n)
    decreases n
  {
    hide Checks, Next, Span;
    if n == 0 {
      AdvanceNone(c, s);
    } else {
      var s1 := Advance(c, s, 1);
      AdvanceTwice(c, s, 1, n - 1);
      NextStays(c, s.counter, s.counter + 1);
      QuietChecks(c, s1);
      QuietTicks(c, s1, n - 1);
    }
  }

  /** The next event stays the next event until it is reached. */
  lemma NextStays(c: Config, counter: nat, later: nat)
    requires c.Valid() && counter < 0x10000 && counter <= later < Next(c, counter)
    ensures Next(c, later) == Next(c, counter)
  {
    NextAmongStays(c.general, counter, later, c.Compares());
  }

  lemma {:induction false} NextAmongStays(general: seq<nat>, counter: nat, later: nat, k: nat)
    requires k <= |general| && counter < 0x10000 && counter <= later < NextAmong(general, counter, k)
    ensures NextAmong(general, later, k) == NextAmong(general, counter, k)
  {
    if k > 0 { NextAmongStays(general, counter, later, k - 1); }
  }

  lemma {:induction false} TicksCompose(c: Config, s: State, m: nat, n: nat)
    requires c.Valid()
    ensures Ticks(c, Ticks(c, s, m), n) == Ticks(c, s, m + n)
    decreases m
  {
    hide Tick;
    if m > 0 { TicksCompose(c, Tick(c, s), m - 1, n); }
  }

  /** One jump of the event loop, checks included, is as many ticks. */
  lemma JumpTicks(c: Config, s: State, step: nat)
    requires c.Valid() && s.counter < 0x10000 && 1 <= step && s.counter + step <= Next(c, s.counter)
    ensures Checks(c, Advance(c, s, step)) == Ticks(c, s, step)
  {
    hide Checks, Advance, Next;
    QuietTicks(c, s, step - 1);
    AdvanceTwice(c, s, step - 1, 1);
    TicksCompose(c, s, step - 1, 1);
    OneTick(c, Advance(c, s, step - 1));
  }

  lemma OneTick(c: Config, s: State)
    requires c.Valid()
    ensures Ticks(c, s, 1) == Tick(c, s)
  {
    assert Ticks(c, Tick(c, s), 0) == Tick(c, s);
  }

  // ---------- sampling ----------

  /** The whole ticks in a stretch of cycles. */
  function Whole(v: nat, d: nat): nat
    requires d > 0
  {
    v / d
  }

  /** Bringing a running channel up to the clock: all whole ticks since `last`. */
  function Sample(c: Config, s: State, clock: nat): State
    requires c.Valid() && s.last <= clock
  {
    Ticks(c, s, Whole(clock - s.last, c.div))
  }

  lemma {:induction false} TicksRange(c: Config, s: State, n: nat)
    requires c.Valid() && s.counter < 0x10000
    ensures Ticks(c, s, n).last == s.last + Span(n, c.div)
    ensures Ticks(c, s, n).counter < 0x10000
    decreases n
  {
    hide Checks, Span;
    if n == 0 {
      SpanAdd(0, 0, c.div);
    } else {
      TicksRange(c, Tick(c, s), n - 1);
      SpanAdd(1, n - 1, c.div);
    }
  }

  /** The part of a tick already elapsed is never lost. */
  lemma SampleKeepsRemainder(c: Config, s: State, clock: nat)
    requires c.Valid() && s.counter < 0x10000 && s.last <= clock
    ensures var r := Sample(c, s, clock);
      r.counter < 0x10000 && r.last <= clock < r.last + c.div && clock - r.last == (clock - s.last) % c.div
  {
    hide Ticks, Span;
    TicksRange(c, s, Whole(clock - s.last, c.div));
    SpanDivMod(clock - s.last, c.div);
  }

  lemma MulStep(x: nat, y: nat, d: nat)
    requires x < y
    ensures Span(x, d) + d <= Span(y, d)
  {
    hide Span;
    SpanAdd(x, 1, d);
    SpanAdd(x + 1, y - x - 1, d);
  }

  lemma SpanDivMod(v: nat, d: nat)
    requires d > 0
    ensures v == Span(Whole(v, d), d) + v % d && v % d < d
  {}

  lemma QuotientUnique(v: nat, q: nat, r: nat, d: nat)
    requires v == Span(q, d) + r && r < d
    ensures Whole(v, d) == q
  {
    hide Span, Whole;
    SpanDivMod(v, d);
    if Whole(v, d) < q { MulStep(Whole(v, d), q, d); }
    if Whole(v, d) > q { MulStep(q, Whole(v, d), d); }
  }

  lemma QuotientOrder(q: nat, r: nat, p: nat, t: nat, d: nat)
    requires Span(q, d) + r <= Span(p, d) + t && t < d
    ensures q <= p
  {
    hide Span;
    if p < q { MulStep(p, q, d); }
  }

  /** Dividing in two steps, the first quotient's share removed in between. */
  lemma DivideTwice(a: nat, b: nat, d: nat)
    requires d > 0 && a <= b
    ensures Span(Whole(a, d), d) <= a
    ensures Whole(a, d) + Whole(b - Span(Whole(a, d), d), d) == Whole(b, d)
  {
    hide Span, Whole;
    var q, p := Whole(a, d), Whole(b, d);
    SpanDivMod(a, d);
    SpanDivMod(b, d);
    QuotientOrder(q, a % d, p, b % d, d);
    SpanAdd(q, p - q, d);
    QuotientUnique(b - Span(q, d), p - q, b % d, d);
  }

  /** Looking at a channel in between changes nothing of what is seen later. */
  lemma SamplingIndependence(c: Config, s: State, t1: nat, t2: nat)
    requires c.Valid() && s.counter < 0x10000 && s.last <= t1 <= t2
    ensures Sample(c, s, t1).last <= t2
    ensures Sample(c, Sample(c, s, t1), t2) == Sample(c, s, t2)
  {
    hide Ticks, Span, Whole;
    var a, b := t1 - s.last, t2 - s.last;
    var m := Whole(a, c.div);
    TicksRange(c, s, m);
    DivideTwice(a, b, c.div);
    TicksCompose(c, s, m, Whole(b - Span(m, c.div), c.div));
  }

  /** A whole run of samples, at any times, ends where a single sample at the last time ends. */
  function SampleAll(c: Config, s: State, times: seq<nat>): State
    requires c.Valid() && s.counter < 0x10000 && Increasing(s.last, times)
    decreases |times|
  {
    if times == [] then s else
      SampleKeepsRemainder(c, s, times[0]);
      IncreasingFrom(times, Sample(c, s, times[0]).last);
      SampleAll(c, Sample(c, s, times[0]), times[1..])
  }

  predicate Increasing(from: nat, times: seq<nat>) {
    (forall i :: 0 <= i < |times| ==> from <= times[i]) &&
    forall i, j :: 0 <= i < j < |times| ==> times[i] <= times[j]
  }

  lemma IncreasingFrom(times: seq<nat>, last: nat)
    requires times != [] && last <= times[0] && forall i, j :: 0 <= i < j < |times| ==> times[i] <= times[j]
    ensures Increasing(last, times[1..])
  {}

  lemma {:induction false} SamplingRuns(c: Config, s: State, times: seq<nat>)
    requires c.Valid() && s.counter < 0x10000 && Increasing(s.last, times) && times != []
    ensures SampleAll(c, s, times) == Sample(c, s, times[|times| - 1])
    decreases |times|
  {
    hide Sample;
    var s1 := Sample(c, s, times[0]);
    SampleKeepsRemainder(c, s, times[0]);
    IncreasingFrom(times, s1.last);
    if |times| > 1 {
      SamplingRuns(c, s1, times[1..]);
      SamplingIndependence(c, s, times[0], times[|times| - 1]);
    }
  }

  // ---------- when the next event is due ----------

  /** The cycle of the next event. */
  function EventCycle(c: Config, s: State): nat
    requires c.Valid() && s.counter < 0x10000
  {
    s.last + Span(Next(c, s.counter) - s.counter, c.div)
  }

  /** An update leaves the next event in the future. */
  lemma SampleCurrent(c: Config, s: State, clock: nat)
    requires c.Valid() && s.counter < 0x10000 && s.last <= clock
    ensures var r := Sample(c, s, clock); r.counter < 0x10000 && r.last <= clock < EventCycle(c, r)
  {
    hide Sample, Next;
    SampleKeepsRemainder(c, s, clock);
    var r := Sample(c, s, clock);
    SpanAdd(1, Next(c, r.counter) - r.counter - 1, c.div);
  }

  /** The test for it in whole ticks. */
  lemma ShortOfEvent(c: Config, s: State, clock: nat)
    requires c.Valid() && s.counter < 0x10000 && s.last <= clock
    ensures s.counter + Whole(clock - s.last, c.div) < Next(c, s.counter) <==> clock < EventCycle(c, s)
  {
    hide Next, Span, Whole;
    WholeBelow(clock - s.last, Next(c, s.counter) - s.counter, c.div);
  }

  /** Before that cycle an update would only count; in it, the checks find the event. */
  lemma DueThen(c: Config, s: State, clock: nat)
    requires c.Valid() && s.counter < 0x10000 && s.last <= clock
    ensures clock < EventCycle(c, s) ==> Sample(c, s, clock) == Advance(c, s, Whole(clock - s.last, c.div))
    ensures clock == EventCycle(c, s) ==>
      Sample(c, s, clock) == Checks(c, Advance(c, s, Next(c, s.counter) - s.counter))
  {
    hide Ticks, Next, Checks, Advance;
    var n := Next(c, s.counter) - s.counter;
    ShortOfEvent(c, s, clock);
    if clock < EventCycle(c, s) {
      QuietTicks(c, s, Whole(clock - s.last, c.div));
    } else if clock == EventCycle(c, s) {
      WholeSpan(n, c.div);
      JumpTicks(c, s, n);
    }
  }

  lemma WholeBelow(v: nat, n: nat, d: nat)
    requires d > 0
    ensures Whole(v, d) < n <==> v < Span(n, d)
  {
    hide Span, Whole;
    SpanDivMod(v, d);
    if v < Span(n, d) {
      QuotientOrder(Whole(v, d), v % d, n, 0, d);
    } else if Whole(v, d) < n {
      MulStep(Whole(v, d), n, d);
    }
  }

  lemma WholeSpan(n: nat, d: nat)
    requires d > 0
    ensures Whole(Span(n, d), d) == n
  {
    hide Span, Whole;
    QuotientUnique(Span(n, d), n, 0, d);
  }

  /** What a look leaves, at a channel that is only updated from the cycle `due` on. */
  function Look(c: Config, s: State, due: nat, clock: nat): State
    requires c.Valid() && s.last <= clock
  {
    if clock < due then s else Sample(c, s, clock)
  }

  /** A look leaves an event overdue exactly when it comes after the event and before that cycle. */
  lemma LookOverdue(c: Config, s: State, due: nat, clock: nat)
    requires c.Valid() && s.counter < 0x10000 && s.last <= clock
    ensures Look(c, s, due, clock).counter < 0x10000
    ensures EventCycle(c, Look(c, s, due, clock)) <= clock <==> EventCycle(c, s) <= clock < due
  {
    hide Sample, EventCycle;
    SampleCurrent(c, s, clock);
  }

  /** No look leaves one overdue: the cycle is no later than the event. */
  ghost predicate Punctual(c: Config, s: State, due: nat)
    requires c.Valid() && s.counter < 0x10000
  {
    forall clock: nat :: s.last <= clock && Look(c, s, due, clock).counter < 0x10000 ==>
      clock < EventCycle(c, Look(c, s, due, clock))
  }

  lemma PunctualExact(c: Config, s: State, due: nat)
    requires c.Valid() && s.counter < 0x10000
    ensures Punctual(c, s, due) <==> due <= EventCycle(c, s)
  {
    hide Look, Next, Span;
    forall clock: nat | s.last <= clock
      ensures Look(c, s, due, clock).counter < 0x10000
      ensures EventCycle(c, Look(c, s, due, clock)) <= clock <==> EventCycle(c, s) <= clock < due
    {
      LookOverdue(c, s, due, clock);
    }
    if due > EventCycle(c, s) {
      assert EventCycle(c, Look(c, s, due, EventCycle(c, s))) <= EventCycle(c, s);
    }
  }

  lemma SpanZero(n: nat, d: nat)
    requires d > 0
    ensures Span(n, d) == 0 <==> n == 0
  {
    hide Span;
    SpanAdd(0, 0, d);
    if n > 0 { MulStep(0, n, d); }
  }

  // ---------- plain matches ----------

  /** A match of compare register A that clears nothing, asks for nothing and drives no pin. */
  lemma SilentMatch(c: Config, s: State)
    requires c.Valid() && c.index == 1 && s.counter == c.general[0] != c.general[1] && s.counter > 0
    requires c.clearOn == 0 && c.ioControl.Select(0) == 0 && !c.interruptEnable.Any(1)
    ensures Checks(c, s) == s.(status := s.status.With(1))
  {
    hide Clear, SetIO, Reg8.Any, Reg8.With, Reg16.Select, Reg16.Any;
  }

  /** A match of compare register B that clears nothing and drives no pin, but asks for an interrupt. */
  lemma PlainMatch(c: Config, s: State)
    requires c.Valid() && c.index == 1 && s.counter == c.general[1] != c.general[0] && s.counter > 0
    requires c.clearOn == 0 && c.ioControl.Select(1) == 0 && c.interruptEnable.Any(2)
    ensures Checks(c, s).log == s.log + [Interrupt(41)]
  {
    hide Clear, SetIO, Reg8.Any, Reg8.With, Reg16.Select, Reg16.Any;
  }

  lemma SpanOne(n: nat)
    ensures Span(n, 1) == n
  {}

  lemma NoOutputs()
    ensures Reg16(0).Select(0) == 0 && Reg16(0).Select(1) == 0
  {}
}
