/** What the ticks of a timer channel do to its two pins, and what of it the port gets to see. */
module TPUPins {
  import opened TPUTicks
  import opened TPUPeriods

  // ---------- the pins in bits ----------

  /** Pin 0 goes with compare register A and pin 1 with B. */
  predicate Level(io: Reg8, pin: nat) {
    io.value & (if pin == 0 then 1 else 2) != 0
  }

  /** The output selection of a pin: 0 none, 1 low, 2 high, 3 toggle. */
  predicate Selected(c: Config, pin: nat, f: nat) {
    var low := c.ioControl.value & (if pin == 0 then 0x1 else 0x10) != 0;
    var high := c.ioControl.value & (if pin == 0 then 0x2 else 0x20) != 0;
    f == (if low then 1 else 0) + (if high then 2 else 0)
  }

  predicate Initial(c: Config, pin: nat) {
    c.ioControl.value & (if pin == 0 then 0x4 else 0x40) != 0
  }

  predicate Input(c: Config, pin: nat) {
    c.ioControl.value & (if pin == 0 then 0x8 else 0x80) != 0
  }

  predicate PWM2(c: Config) {
    c.mode.value & 0xF == 3
  }

  /** The level a match leaves. */
  predicate Driven(c: Config, pin: nat, level: bool) {
    if Input(c, pin) || Selected(c, pin, 0) then level
    else Selected(c, pin, 2) || (Selected(c, pin, 3) && !level)
  }

  /** The level a clear leaves. */
  predicate Restored(c: Config, pin: nat, level: bool) {
    if PWM2(c) && !Selected(c, pin, 0) then Initial(c, pin) else level
  }

  // ---------- the registers behind them ----------

  /** A pin of any channel is an output when its four control bits select an action and do not make it an input; the
      upper two pins only exist on a wide channel. */
  lemma OutputPins(r: Reg16, wide: bool)
    ensures var o := r.Outputs(wide).value;
      && (o & 1 != 0 <==> r.value & 0x0003 != 0 && r.value & 0x0008 == 0)
      && (o & 2 != 0 <==> r.value & 0x0030 != 0 && r.value & 0x0080 == 0)
      && (o & 4 != 0 <==> wide && r.value & 0x0300 != 0 && r.value & 0x0800 == 0)
      && (o & 8 != 0 <==> wide && r.value & 0x3000 != 0 && r.value & 0x8000 == 0)
      && o & 0xF0 == 0
  {}

  /** Writing one half of the control register leaves the other. */
  lemma ControlHalves(r: Reg16, v: Reg8)
    ensures (r.WithHigh(v).value >> 8) as bv8 == v.value && r.WithHigh(v).value & 0xFF == r.value & 0xFF
    ensures (r.WithLow(v).value & 0xFF) as bv8 == v.value && r.WithLow(v).value & 0xFF00 == r.value & 0xFF00
  {}

  /** A write to the status register only clears: a flag is left exactly when it was set and 1 is written. */
  lemma StatusKept(r: Reg8, v: Reg8, bit: bv8)
    requires bit in {1, 2, 4, 8, 0x10, 0x20, 0x40, 0x80}
    ensures Flag(r.Only(v), bit) <==> Flag(r, bit) && Flag(v, bit)
  {}

  // ---------- one check ----------

  function Mask(pin: nat): bv8 {
    if pin == 0 then 1 else 2
  }

  lemma LevelSet(io: Reg8, pin: nat, other: nat)
    requires pin < 2 && other < 2
    ensures Level(io.With(Mask(pin)), other) == (pin == other || Level(io, other))
    ensures Level(io.Without(Mask(pin)), other) == (pin != other && Level(io, other))
    ensures io.Any(Mask(pin)) == Level(io, pin)
  {}

  lemma SetIOLevel(s: State, pin: nat, value: bool, other: nat)
    requires pin < 2 && other < 2
    ensures Level(SetIO(s, Mask(pin), value).ioState, other) == if pin == other then value else Level(s.ioState, other)
  {
    hide Level, Reg8.With, Reg8.Without;
    LevelSet(s.ioState, pin, other);
  }

  lemma ControlBits(c: Config)
    ensures c.ioControl.Any(0x03) == !Selected(c, 0, 0) && c.ioControl.Any(0x30) == !Selected(c, 1, 0)
    ensures c.ioControl.Any(0x04) == Initial(c, 0) && c.ioControl.Any(0x40) == Initial(c, 1)
    ensures c.ioControl.Any(0x08) == Input(c, 0) && c.ioControl.Any(0x80) == Input(c, 1)
    ensures c.mode.Is(0xF, 3) == PWM2(c)
  {}

  lemma SelectBits(c: Config)
    ensures c.ioControl.Select(0) < 4 && Selected(c, 0, c.ioControl.Select(0))
    ensures c.ioControl.Select(1) < 4 && Selected(c, 1, c.ioControl.Select(1))
  {}

  lemma SelectedOne(c: Config, pin: nat, f: nat, g: nat)
    requires Selected(c, pin, f)
    ensures Selected(c, pin, g) <==> f == g
  {}

  lemma ClearLevel(c: Config, s: State, pin: nat)
    requires pin < 2
    ensures Level(Clear(c, s).ioState, pin) == Restored(c, pin, Level(s.ioState, pin))
  {
    hide Level, SetIO, Selected, Initial, Input, PWM2, Reg16.Any, Reg8.Is;
    ControlBits(c);
    var s0 := s.(counter := 0);
    SetIOLevel(s0, 0, Initial(c, 0), pin);
    SetIOLevel(s0, 1, Initial(c, 1), pin);
    SetIOLevel(SetIO(s0, 1, Initial(c, 0)), 1, Initial(c, 1), pin);
  }

  lemma DriveLevel(c: Config, s: State, pin: nat, other: nat)
    requires pin < 2 && other < 2
    ensures var r := Drive(s, c.ioControl.Select(pin), Input(c, pin), Mask(pin));
      Level(r.ioState, other) == if pin == other then Driven(c, pin, Level(s.ioState, pin)) else Level(s.ioState, other)
  {
    hide Level, SetIO, Selected, Initial, Input, PWM2, Reg16.Select, Reg8.Any;
    SelectBits(c);
    var f := c.ioControl.Select(pin);
    SelectedOne(c, pin, f, 0);
    SelectedOne(c, pin, f, 2);
    SelectedOne(c, pin, f, 3);
    LevelSet(s.ioState, pin, other);
    SetIOLevel(s, pin, if f == 1 then false else if f == 2 then true else !s.ioState.Any(Mask(pin)), other);
  }

  /** A match restores the pins if it clears, and drives its own. */
  lemma CheckLevel(c: Config, s: State, k: nat, pin: nat)
    requires c.Valid() && k < c.Compares() && pin < 2
    ensures var hit, was := s.counter == c.general[k], Level(s.ioState, pin);
      var base := if hit && Clears(c, k) then Restored(c, pin, was) else was;
      Level(Check(c, s, k).ioState, pin) == if hit && k == pin then Driven(c, pin, base) else base
  {
    hide Level, Clear, Raise, Drive, Restored, Driven, Reg8.With, Reg16.Select, Reg16.Any;
    hide Selected, Initial, Input, PWM2;
    ControlBits(c);
    if s.counter == c.general[k] {
      var s1 := s.(status := s.status.With(Bit(k)));
      ClearLevel(c, s1, pin);
      var s2 := if Clears(c, k) then Clear(c, s1) else s1;
      RaiseCounts(c, s2, Bit(k), MatchSource(c.index, k), 0);
      var s3 := Raise(c, s2, Bit(k), MatchSource(c.index, k));
      if k < 2 { DriveLevel(c, s3, k, pin); }
    }
  }

  // ---------- one tick ----------

  /** In a tick a pin is driven when its register matches, and restored when a register clears; a register that is
      checked before the one that clears drives first. */
  lemma TickLevel(c: Config, s: State, p: nat, k: nat, pin: nat)
    requires Period(c, p, k) && s.counter < p && pin < 2
    ensures c.Valid() && p > 0
    ensures var hit := Placed(c, p, k, pin) && (s.counter + 1) % p == Place(c, p, pin);
      var clear, was := k < 4 && s.counter + 1 == p, Level(s.ioState, pin);
      Level(Tick(c, s).ioState, pin) ==
        if clear && k <= pin then
          var base := Restored(c, pin, was);
          if hit then Driven(c, pin, base) else base
        else
          var driven := if hit then Driven(c, pin, was) else was;
          if clear then Restored(c, pin, driven) else driven
  {
    hide Level, Check, Overflow, Tick, Restored, Driven, Placed, Place;
    var x, o, a, b, d := TickChecks(c, s, p, k);
    PeriodValid(c, p, k);
    SeenPlace(c, p, k, pin, s.counter);
    OverflowKeeps(c, Advance(c, s, 1));
    CheckStep(c, o, p, k, 0, pin, s.counter);
    CheckStep(c, a, p, k, 1, pin, s.counter);
    if c.Wide() {
      CheckStep(c, b, p, k, 2, pin, s.counter);
      CheckStep(c, d, p, k, 3, pin, s.counter);
    }
  }

  lemma OverflowKeeps(c: Config, s: State)
    requires c.Valid()
    ensures Overflow(c, s).ioState == s.ioState
  {}

  /** The check of register `i` within a tick. */
  lemma CheckStep(c: Config, s: State, p: nat, k: nat, i: nat, pin: nat, a: nat)
    requires Period(c, p, k) && c.Valid() && i < c.Compares() && pin < 2 && a < p
    requires s.counter == Seen((a + 1) % 0x1_0000, p, k, i)
    ensures p > 0
    ensures var hit := Placed(c, p, k, i) && (a + 1) % p == Place(c, p, i);
      var base := if i == k && a + 1 == p then Restored(c, pin, Level(s.ioState, pin)) else Level(s.ioState, pin);
      Level(Check(c, s, i).ioState, pin) == if i == pin && hit then Driven(c, pin, base) else base
  {
    hide Level, Check, Restored, Driven, Placed, Place, Clears, NoneClears;
    PeriodValid(c, p, k);
    SeenPlace(c, p, k, i, a);
    OnlyOne(c, p, k, i);
    CheckLevel(c, s, i, pin);
  }

  // ---------- from event to event ----------

  /** Up to the next event the pins stay, and then they are as that tick leaves them: low, high or toggled for a match,
      and at their initial level for a clear in PWM mode 2. */
  lemma NextPins(c: Config, s: State, p: nat, k: nat, pin: nat, n: nat)
    requires Period(c, p, k) && s.counter < p && pin < 2 && c.Valid() && s.counter + n <= Next(c, s.counter)
    requires n > 0 && s.counter + n <= p
    ensures s.counter + n < Next(c, s.counter) ==> Ticks(c, s, n).ioState == s.ioState
    ensures Ticks(c, s, n) == Tick(c, Advance(c, s, n - 1)) && Advance(c, s, n - 1).ioState == s.ioState
    ensures Advance(c, s, n - 1).counter == s.counter + n - 1
  {
    hide Tick, Next, Ticks;
    QuietTicks(c, s, n - 1);
    TicksCompose(c, s, n - 1, 1);
    OneTick(c, Advance(c, s, n - 1));
    if s.counter + n < Next(c, s.counter) { QuietTicks(c, s, n); }
  }

  /** A match of register A or B, with no register clearing in that tick, leaves the pin low, high or toggled. */
  lemma MatchDrives(c: Config, s: State, p: nat, k: nat, pin: nat, n: nat)
    requires Period(c, p, k) && c.Valid() && pin < 2 && n > 0
    requires s.counter + n == c.general[pin] == Next(c, s.counter) && c.general[pin] < p && !Input(c, pin)
    ensures var io := Ticks(c, s, n).ioState;
      && (Selected(c, pin, 0) ==> Level(io, pin) == Level(s.ioState, pin))
      && (Selected(c, pin, 1) ==> !Level(io, pin))
      && (Selected(c, pin, 2) ==> Level(io, pin))
      && (Selected(c, pin, 3) ==> Level(io, pin) == !Level(s.ioState, pin))
  {
    hide Tick, Next, Ticks, Level, Selected, Input, Restored, Advance;
    NextPins(c, s, p, k, pin, n);
    TickLevel(c, Advance(c, s, n - 1), p, k, pin);
    DivideSmall(c.general[pin], p);
    OneSelection(c, pin);
  }

  lemma OneSelection(c: Config, pin: nat)
    ensures Selected(c, pin, 0) || Selected(c, pin, 1) || Selected(c, pin, 2) || Selected(c, pin, 3)
    ensures !(Selected(c, pin, 1) && (Selected(c, pin, 0) || Selected(c, pin, 2) || Selected(c, pin, 3)))
    ensures !(Selected(c, pin, 2) && (Selected(c, pin, 0) || Selected(c, pin, 3)))
    ensures !(Selected(c, pin, 3) && Selected(c, pin, 0))
  {}

  /** In PWM mode 2 a clear puts a pin with an output selection back to its initial level; the pin of the register that
      clears is driven from there. */
  lemma ClearRestores(c: Config, s: State, p: nat, k: nat, pin: nat, n: nat)
    requires Period(c, p, k) && c.Valid() && k < 4 && pin < 2 && n > 0 && PWM2(c) && !Selected(c, pin, 0)
    requires s.counter + n == p == Next(c, s.counter)
    ensures pin < k ==> Level(Ticks(c, s, n).ioState, pin) == Initial(c, pin)
    ensures pin > k && c.general[pin] > 0 ==> Level(Ticks(c, s, n).ioState, pin) == Initial(c, pin)
    ensures pin == k && !Input(c, pin) ==>
      (Level(Ticks(c, s, n).ioState, pin) <==> Selected(c, pin, 2) || (Selected(c, pin, 3) && !Initial(c, pin)))
  {
    hide Tick, Next, Ticks, Level, Selected, Input, Initial, PWM2, Advance;
    NextPins(c, s, p, k, pin, n);
    TickLevel(c, Advance(c, s, n - 1), p, k, pin);
    DividePlus(0, p);
    DivideSmall(0, p);
    if c.general[pin] < p { DivideSmall(c.general[pin], p); }
  }

  // ---------- what the port sees ----------

  /** The pins as the port last saw them. */
  function Shown(log: seq<Event>, start: Reg8): Reg8 {
    if log == [] then start
    else if log[|log| - 1].Port? then log[|log| - 1].ioState
    else Shown(log[..|log| - 1], start)
  }

  /** From `s` to `t` every change of the pins is reported, with the cycle it happens in. */
  predicate Reports(s: State, t: State, start: Reg8) {
    && s.log <= t.log && t.last == s.last
    && (forall j :: |s.log| <= j < |t.log| && t.log[j].Port? ==> t.log[j].cycle == s.last)
    && (Shown(s.log, start) == s.ioState ==> Shown(t.log, start) == t.ioState)
  }

  lemma ReportsThen(s: State, t: State, u: State, start: Reg8)
    requires Reports(s, t, start) && Reports(t, u, start)
    ensures Reports(s, u, start)
  {}

  lemma RaiseReports(c: Config, s: State, enable: bv8, source: nat, start: Reg8)
    ensures Reports(s, Raise(c, s, enable, source), start)
  {
    assert (s.log + [Interrupt(source)])[..|s.log|] == s.log;
  }

  lemma SetIOReports(s: State, pin: bv8, value: bool, start: Reg8)
    ensures Reports(s, SetIO(s, pin, value), start)
  {
    hide Reg8.With, Reg8.Without;
  }

  lemma ClearReports(c: Config, s: State, start: Reg8)
    ensures Reports(s, Clear(c, s), start)
  {
    hide SetIO, Reg8.Is, Reg16.Any;
    var s0 := s.(counter := 0);
    assert Reports(s, s0, start);
    SetIOReports(s0, 1, c.ioControl.Any(0x04), start);
    SetIOReports(s0, 2, c.ioControl.Any(0x40), start);
    SetIOReports(SetIO(s0, 1, c.ioControl.Any(0x04)), 2, c.ioControl.Any(0x40), start);
  }

  lemma CheckReports(c: Config, s: State, k: nat, start: Reg8)
    requires c.Valid() && k < c.Compares()
    ensures Reports(s, Check(c, s, k), start)
  {
    hide Shown, Clear, Raise, SetIO, Reg8.With, Reg8.Any, Reg16.Select, Reg16.Any, Reports;
    if s.counter == c.general[k] {
      var s1 := s.(status := s.status.With(Bit(k)));
      SameReports(s, s1, start);
      ClearReports(c, s1, start);
      var s2 := if Clears(c, k) then Clear(c, s1) else s1;
      SameReports(s1, s1, start);
      ReportsThen(s, s1, s2, start);
      RaiseReports(c, s2, Bit(k), MatchSource(c.index, k), start);
      var s3 := Raise(c, s2, Bit(k), MatchSource(c.index, k));
      ReportsThen(s, s2, s3, start);
      var f := c.ioControl.Select(if k == 0 then 0 else 1);
      var mask: bv8 := if k == 0 then 1 else 2;
      var value := if f == 1 then false else if f == 2 then true else !s3.ioState.Any(mask);
      SetIOReports(s3, mask, value, start);
      ReportsThen(s, s3, SetIO(s3, mask, value), start);
    } else {
      SameReports(s, s, start);
    }
  }

  lemma SameReports(s: State, t: State, start: Reg8)
    requires s.log == t.log && s.ioState == t.ioState && s.last == t.last
    ensures Reports(s, t, start)
  {}

  lemma TickReports(c: Config, s: State, start: Reg8)
    requires c.Valid()
    ensures Reports(s.(last := s.last + c.div), Tick(c, s), start)
  {
    hide Reports, Check, CompareA, CompareB, CompareC, CompareD, Raise;
    SpanOf(c);
    var t := Advance(c, s, 1);
    SameReports(s.(last := s.last + c.div), t, start);
    OverflowReports(c, t, start);
    var o := Overflow(c, t);
    CheckReports(c, o, 0, start);
    var a := Check(c, o, 0);
    CheckReports(c, a, 1, start);
    var b := Check(c, a, 1);
    ReportsThen(t, o, a, start);
    ReportsThen(t, a, b, start);
    ReportsThen(s.(last := s.last + c.div), t, b, start);
    CheckNames(c, o, a, b);
    if c.Wide() {
      CheckReports(c, b, 2, start);
      var d := Check(c, b, 2);
      CheckReports(c, d, 3, start);
      ReportsThen(s.(last := s.last + c.div), b, d, start);
      ReportsThen(s.(last := s.last + c.div), d, Check(c, d, 3), start);
    }
  }

  lemma CheckNames(c: Config, o: State, a: State, b: State)
    requires c.Valid()
    ensures Check(c, o, 0) == CompareA(c, o) && Check(c, a, 1) == CompareB(c, a)
    ensures Check(c, b, 2) == CompareC(c, b) && forall d :: Check(c, d, 3) == CompareD(c, d)
  {
    hide CompareA, CompareB, CompareC, CompareD;
  }

  lemma OverflowReports(c: Config, s: State, start: Reg8)
    requires c.Valid()
    ensures Reports(s, Overflow(c, s), start)
  {
    hide Shown, Raise;
    var s1 := s.(status := s.status.With(0x10));
    SameReports(s, s1, start);
    SameReports(s, s, start);
    RaiseReports(c, s1, 0x10, OVERFLOW_SOURCES[c.index], start);
    ReportsThen(s, s1, Raise(c, s1, 0x10, OVERFLOW_SOURCES[c.index]), start);
  }

  /** Over any number of ticks: the port is up to date afterwards if it was before, and every report since carries the
      cycle of a tick since. */
  lemma {:induction false} TicksReport(c: Config, s: State, n: nat, start: Reg8)
    requires c.Valid()
    ensures var t := Ticks(c, s, n);
      && s.log <= t.log
      && (Shown(s.log, start) == s.ioState ==> Shown(t.log, start) == t.ioState)
      && forall j :: |s.log| <= j < |t.log| && t.log[j].Port? ==>
           exists m: nat :: 1 <= m <= n && t.log[j].cycle == s.last + Span(m, c.div)
    decreases n
  {
    hide Tick, Shown, Span;
    if n > 0 {
      var t := Tick(c, s);
      TickReports(c, s, start);
      TicksReport(c, t, n - 1, start);
      var u := Ticks(c, t, n - 1);
      forall j | |s.log| <= j < |u.log| && u.log[j].Port?
        ensures exists m: nat :: 1 <= m <= n && u.log[j].cycle == s.last + Span(m, c.div)
      {
        SpanAdd(1, 0, c.div);
        if j < |t.log| {
          assert u.log[j] == t.log[j] && t.log[j].cycle == s.last + Span(1, c.div);
        } else {
          var m: nat :| 1 <= m <= n - 1 && u.log[j].cycle == t.last + Span(m, c.div);
          SpanAdd(1, m, c.div);
          assert u.log[j].cycle == s.last + Span(m + 1, c.div);
        }
      }
    }
  }
}
