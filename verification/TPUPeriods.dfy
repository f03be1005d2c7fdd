/** What the ticks of a timer channel come to over any number of them: the count, the flags, the interrupts and the
    pins, in numbers. */
module TPUPeriods {
  import opened TPUTicks

  // ---------- registers by number ----------

  /** Compare register `k` clears the counter. */
  predicate Clears(c: Config, k: nat) {
    k < c.Compares() && c.clearOn == (if k == 0 then 1 else if k == 1 then 2 else if k == 2 then 5 else 6)
  }

  predicate NoneClears(c: Config) {
    forall k :: 0 <= k < 4 ==> !Clears(c, k)
  }

  /** The flag of compare register `k`, which is its interrupt enable bit too. */
  function Bit(k: nat): bv8 {
    if k == 0 then 1 else if k == 1 then 2 else if k == 2 then 4 else 8
  }

  /** The interrupt of compare register `k`. */
  function MatchSource(index: nat, k: nat): nat {
    k + if index == 0 then 32 else if index == 1 then 40 else if index == 2 then 44
        else if index == 3 then 48 else if index == 4 then 56 else 60
  }

  function OverflowSource(index: nat): nat {
    if index == 0 then 36 else if index == 1 then 42 else if index == 2 then 46
    else if index == 3 then 52 else if index == 4 then 58 else 62
  }

  predicate Flag(r: Reg8, bit: bv8) {
    r.value & bit != 0
  }

  /** How often an interrupt was requested. */
  function Count(log: seq<Event>, source: nat): nat {
    if log == [] then 0 else Count(log[..|log| - 1], source) + (if log[|log| - 1] == Interrupt(source) then 1 else 0)
  }

  function Digit(b: bool): nat {
    if b then 1 else 0
  }

  // ---------- one check ----------

  lemma CountMore(log: seq<Event>, e: Event, source: nat)
    ensures Count(log + [e], source) == Count(log, source) + Digit(e == Interrupt(source))
  {
    assert (log + [e])[..|log|] == log;
  }

  lemma FlagWith(r: Reg8, mask: bv8, bit: bv8)
    ensures Flag(r.With(mask), bit) <==> Flag(r, bit) || mask & bit != 0
    ensures r.Any(mask) == Flag(r, mask)
  {}

  lemma RaiseCounts(c: Config, s: State, enable: bv8, source: nat, other: nat)
    ensures var r := Raise(c, s, enable, source);
      r == s.(log := r.log) &&
      Count(r.log, other) == Count(s.log, other) + Digit(Flag(c.interruptEnable, enable) && source == other)
  {
    hide Count, Flag, Reg8.Any;
    FlagWith(c.interruptEnable, enable, enable);
    CountMore(s.log, Interrupt(source), other);
  }

  lemma SetIOCounts(s: State, pin: bv8, value: bool, source: nat)
    ensures var r := SetIO(s, pin, value);
      r == s.(log := r.log, ioState := r.ioState) && Count(r.log, source) == Count(s.log, source)
  {
    hide Count, Reg8.With, Reg8.Without;
    CountMore(s.log, Port(SetIO(s, pin, value).ioState, s.last), source);
  }

  lemma ClearCounts(c: Config, s: State, source: nat)
    ensures var r := Clear(c, s);
      r == s.(counter := 0, log := r.log, ioState := r.ioState) && Count(r.log, source) == Count(s.log, source)
  {
    hide Count, SetIO, Reg8.Is, Reg16.Any;
    var s0 := s.(counter := 0);
    SetIOCounts(s0, 1, c.ioControl.Any(0x04), source);
    SetIOCounts(s0, 2, c.ioControl.Any(0x40), source);
    SetIOCounts(SetIO(s0, 1, c.ioControl.Any(0x04)), 2, c.ioControl.Any(0x40), source);
  }

  lemma DriveCounts(s: State, select: nat, input: bool, pin: bv8, source: nat)
    ensures var r := Drive(s, select, input, pin);
      r == s.(log := r.log, ioState := r.ioState) && Count(r.log, source) == Count(s.log, source)
  {
    hide Count, SetIO, Reg8.Any;
    SetIOCounts(s, pin, if select == 1 then false else if select == 2 then true else !s.ioState.Any(pin), source);
  }

  /** The check of register `k`. */
  function Check(c: Config, s: State, k: nat): State
    requires c.Valid() && k < 4
  {
    if k == 0 then CompareA(c, s) else if k == 1 then CompareB(c, s) else if k == 2 then CompareC(c, s)
    else CompareD(c, s)
  }

  /** A match clears the counter or does not, sets its flag and no other, and asks for its interrupt if enabled. */
  lemma CheckEffect(c: Config, s: State, k: nat, bit: bv8, source: nat)
    requires c.Valid() && k < c.Compares()
    ensures var r, hit := Check(c, s, k), s.counter == c.general[k];
      && r.last == s.last
      && r.counter == (if hit && Clears(c, k) then 0 else s.counter)
      && (Flag(r.status, bit) <==> Flag(s.status, bit) || (hit && Bit(k) & bit != 0))
      && Count(r.log, source) == Count(s.log, source) +
           Digit(hit && Flag(c.interruptEnable, Bit(k)) && source == MatchSource(c.index, k))
  {
    hide Count, Flag, Clear, Raise, Drive, Reg8.With, Reg16.Select, Reg16.Any;
    FlagWith(s.status, Bit(k), bit);
    if s.counter == c.general[k] {
      var s1 := s.(status := s.status.With(Bit(k)));
      ClearCounts(c, s1, source);
      var s2 := if Clears(c, k) then Clear(c, s1) else s1;
      RaiseCounts(c, s2, Bit(k), MatchSource(c.index, k), source);
      var s3 := Raise(c, s2, Bit(k), MatchSource(c.index, k));
      DriveCounts(s3, c.ioControl.Select(0), c.ioControl.Any(0x08), 1, source);
      DriveCounts(s3, c.ioControl.Select(1), c.ioControl.Any(0x80), 2, source);
    }
  }

  lemma OverflowEffect(c: Config, s: State, bit: bv8, source: nat)
    requires c.Valid()
    ensures var r := Overflow(c, s);
      && r.last == s.last && r.counter == s.counter
      && (Flag(r.status, bit) <==> Flag(s.status, bit) || (s.counter == 0 && 0x10 & bit != 0))
      && Count(r.log, source) == Count(s.log, source) +
           Digit(s.counter == 0 && Flag(c.interruptEnable, 0x10) && source == OverflowSource(c.index))
  {
    hide Count, Flag, Raise, Reg8.With;
    FlagWith(s.status, 0x10, bit);
    RaiseCounts(c, s.(status := s.status.With(0x10)), 0x10, OverflowSource(c.index), source);
  }

  // ---------- one tick ----------

  /** The channel counts modulo `p`: register `k` clears it at `p`, or none does, which `k == 4` stands for. */
  predicate Period(c: Config, p: nat, k: nat) {
    c.Valid() && if k < 4 then Clears(c, k) && p == c.general[k] > 0 else k == 4 && NoneClears(c) && p == 0x1_0000
  }

  /** Where in the period register `i` matches, when it does. */
  function Place(c: Config, p: nat, i: nat): (r: nat)
    requires c.Valid() && i < 4 && p > 0
    ensures r < p
  {
    c.general[i] % p
  }

  /** The counts that register `i` gets to see: up to `p` when it is checked before the counter is cleared, and from 0
      when it is checked after. */
  predicate Placed(c: Config, p: nat, k: nat, i: nat)
    requires c.Valid()
  {
    i < c.Compares() && (k == 4 || if i <= k then 0 < c.general[i] <= p else c.general[i] < p)
  }

  /** What the check of register `i` sees when the counter has come to `x`. */
  function Seen(x: nat, p: nat, k: nat, i: nat): nat {
    if i > k && x == p then 0 else x
  }

  lemma OnlyOne(c: Config, p: nat, k: nat, i: nat)
    requires Period(c, p, k) && i < c.Compares()
    ensures Clears(c, i) <==> i == k
    ensures i == k ==> p == c.general[i]
  {}

  lemma CheckSees(c: Config, s: State, p: nat, k: nat, i: nat, x: nat)
    requires Period(c, p, k) && i < c.Compares() && s.counter == Seen(x, p, k, i) && x <= p
    ensures Check(c, s, i).counter == Seen(x, p, k, i + 1) && Check(c, s, i).last == s.last
  {
    hide Flag, Count, Check, Clears, Period;
    OnlyOne(c, p, k, i);
    PeriodValid(c, p, k);
    CheckEffect(c, s, i, 0, 0);
  }

  lemma PeriodValid(c: Config, p: nat, k: nat)
    requires Period(c, p, k)
    ensures c.Valid() && 0 < p <= 0x1_0000 && (k < c.Compares() || (k == 4 && p == 0x1_0000))
  {}

  /** The checks of a tick one after another. */
  lemma TickChecks(c: Config, s: State, p: nat, k: nat) returns (x: nat, o: State, a: State, b: State, d: State)
    requires Period(c, p, k) && s.counter < p
    ensures x == (s.counter + 1) % 0x1_0000 && c.Valid()
    ensures o == Overflow(c, Advance(c, s, 1)) && a == Check(c, o, 0) && b == Check(c, a, 1)
    ensures Advance(c, s, 1) == s.(counter := x, last := s.last + c.div)
    ensures o.counter == Seen(x, p, k, 0) && a.counter == Seen(x, p, k, 1) && b.counter == Seen(x, p, k, 2)
    ensures if c.Wide() then d == Check(c, b, 2) && d.counter == Seen(x, p, k, 3) && Tick(c, s) == Check(c, d, 3)
      else d == b && Tick(c, s) == d
    ensures Tick(c, s).counter == Seen(x, p, k, 4) && Tick(c, s).last == s.last + c.div
  {
    hide Overflow, CompareA, CompareB, CompareC, CompareD, Flag, Count, Clears;
    x := (s.counter + 1) % 0x1_0000;
    SpanOf(c);
    PeriodValid(c, p, k);
    var t := Advance(c, s, 1);
    o := Overflow(c, t);
    OverflowEffect(c, t, 0, 0);
    CheckSees(c, o, p, k, 0, x);
    a := Check(c, o, 0);
    CheckSees(c, a, p, k, 1, x);
    b := Check(c, a, 1);
    d := b;
    if c.Wide() {
      CheckSees(c, b, p, k, 2, x);
      d := Check(c, b, 2);
      CheckSees(c, d, p, k, 3, x);
    }
  }

  lemma SpanOf(c: Config)
    ensures Span(1, c.div) == c.div
  {}

  lemma SeenPlace(c: Config, p: nat, k: nat, i: nat, a: nat)
    requires Period(c, p, k) && i < c.Compares() && a < p
    ensures var x := (a + 1) % 0x1_0000;
      Seen(x, p, k, i) == c.general[i] <==> Placed(c, p, k, i) && (a + 1) % p == Place(c, p, i)
  {
    hide Clears, NoneClears;
    OnlyOne(c, p, k, i);
    PeriodValid(c, p, k);
    var x := (a + 1) % 0x1_0000;
    Wraps(a, p);
    Wraps(a, 0x1_0000);
    if c.general[i] < p {
      DivideSmall(c.general[i], p);
    } else if c.general[i] == p {
      DividePlus(0, p);
      DivideSmall(0, p);
    }
  }

  lemma Wraps(a: nat, p: nat)
    requires a < p
    ensures (a + 1) % p == if a + 1 == p then 0 else a + 1
  {}

  lemma TickCounter(c: Config, s: State, p: nat, k: nat)
    requires Period(c, p, k) && s.counter < p
    ensures Tick(c, s).counter == (s.counter + 1) % p && Tick(c, s).last == s.last + c.div
  {
    hide Check, Overflow, Tick, Advance, Clears, NoneClears, Period;
    var x, o, a, b, d := TickChecks(c, s, p, k);
    PeriodValid(c, p, k);
    Wraps(s.counter, p);
    Wraps(s.counter, 0x1_0000);
  }

  /** What becomes of a flag and the number of its requests. */
  predicate Recorded(c: Config, s: State, t: State, bit: bv8, source: nat, hit: bool) {
    && (Flag(t.status, bit) <==> Flag(s.status, bit) || hit)
    && Count(t.log, source) == Count(s.log, source) + Digit(hit && Flag(c.interruptEnable, bit))
  }

  lemma CheckRecords(c: Config, s: State, j: nat, i: nat)
    requires c.Valid() && j < c.Compares() && i < c.Compares()
    ensures Recorded(c, s, Check(c, s, j), Bit(i), MatchSource(c.index, i), j == i && s.counter == c.general[i])
  {
    hide Flag, Count, Check, Bit, MatchSource, OverflowSource;
    CheckEffect(c, s, j, Bit(i), MatchSource(c.index, i));
    BitsApart(i);
    SourcesApart(c.index, i);
  }

  lemma OverflowRecords(c: Config, s: State, i: nat)
    requires c.Valid() && i < c.Compares()
    ensures Recorded(c, s, Overflow(c, s), Bit(i), MatchSource(c.index, i), false)
  {
    hide Flag, Count, Overflow, Bit, MatchSource, OverflowSource;
    OverflowEffect(c, s, Bit(i), MatchSource(c.index, i));
    BitsApart(i);
    SourcesApart(c.index, i);
  }

  lemma RecordedThen(c: Config, s: State, t: State, u: State, bit: bv8, source: nat, m: bool, n: bool)
    requires Recorded(c, s, t, bit, source, m) && Recorded(c, t, u, bit, source, n) && !(m && n)
    ensures Recorded(c, s, u, bit, source, m || n)
  {}

  /** In a tick a register matches exactly where it has its place. */
  lemma TickRegister(c: Config, s: State, p: nat, k: nat, i: nat)
    requires Period(c, p, k) && s.counter < p && i < c.Compares()
    ensures Recorded(c, s, Tick(c, s), Bit(i), MatchSource(c.index, i),
                     Placed(c, p, k, i) && (s.counter + 1) % p == Place(c, p, i))
  {
    hide Recorded, Check, Overflow, Tick, Bit, MatchSource, Place, Placed, Seen;
    var bit, source := Bit(i), MatchSource(c.index, i);
    var hit := Placed(c, p, k, i) && (s.counter + 1) % p == Place(c, p, i);
    var x, o, a, b, d := TickChecks(c, s, p, k);
    var t := Advance(c, s, 1);
    SeenPlace(c, p, k, i, s.counter);
    assert Recorded(c, s, t, bit, source, false) by { SameRecord(c, s, t, bit, source); }
    OverflowRecords(c, t, i);
    RecordedThen(c, s, t, o, bit, source, false, false);
    CheckRecords(c, o, 0, i);
    RecordedThen(c, s, o, a, bit, source, false, i == 0 && hit);
    CheckRecords(c, a, 1, i);
    RecordedThen(c, s, a, b, bit, source, i == 0 && hit, i == 1 && hit);
    if c.Wide() {
      CheckRecords(c, b, 2, i);
      RecordedThen(c, s, b, d, bit, source, i <= 1 && hit, i == 2 && hit);
      CheckRecords(c, d, 3, i);
      RecordedThen(c, s, d, Tick(c, s), bit, source, i <= 2 && hit, i == 3 && hit);
    }
  }

  lemma SameRecord(c: Config, s: State, t: State, bit: bv8, source: nat)
    requires s.status == t.status && s.log == t.log
    ensures Recorded(c, s, t, bit, source, false)
  {}

  lemma SourcesApart(index: nat, i: nat)
    requires index < 6 && i < (if index == 0 || index == 3 then 4 else 2)
    ensures forall j :: 0 <= j < 4 ==> (MatchSource(index, j) == MatchSource(index, i) <==> j == i)
    ensures MatchSource(index, i) != OverflowSource(index)
  {}

  lemma BitsApart(i: nat)
    requires i < 4
    ensures forall j :: 0 <= j < 4 ==> (Bit(j) & Bit(i) != 0 <==> j == i)
    ensures 0x10 & Bit(i) == 0
  {}

  lemma CheckNoOverflow(c: Config, s: State, j: nat)
    requires c.Valid() && j < c.Compares()
    ensures Recorded(c, s, Check(c, s, j), 0x10, OverflowSource(c.index), false)
  {
    hide Flag, Count, Check, MatchSource, OverflowSource;
    CheckEffect(c, s, j, 0x10, OverflowSource(c.index));
    BitsApart(j);
    SourcesApart(c.index, j);
    assert Bit(j) & 0x10 == 0x10 & Bit(j);
  }

  lemma OverflowOwn(c: Config, s: State)
    requires c.Valid()
    ensures Recorded(c, s, Overflow(c, s), 0x10, OverflowSource(c.index), s.counter == 0)
  {
    hide Flag, Count, Overflow, OverflowSource;
    OverflowEffect(c, s, 0x10, OverflowSource(c.index));
  }

  /** A tick overflows at the end of the period, when no register clears. */
  lemma TickOverflow(c: Config, s: State, p: nat, k: nat)
    requires Period(c, p, k) && s.counter < p
    ensures Recorded(c, s, Tick(c, s), 0x10, OverflowSource(c.index), k == 4 && (s.counter + 1) % p == 0)
  {
    hide Recorded, Check, Overflow, Tick, OverflowSource, Clears;
    var source, hit := OverflowSource(c.index), k == 4 && (s.counter + 1) % p == 0;
    var x, o, a, b, d := TickChecks(c, s, p, k);
    var t := Advance(c, s, 1);
    PeriodValid(c, p, k);
    assert x == 0 <==> hit;
    SameRecord(c, s, t, 0x10, source);
    OverflowOwn(c, t);
    RecordedThen(c, s, t, o, 0x10, source, false, hit);
    CheckNoOverflow(c, o, 0);
    RecordedThen(c, s, o, a, 0x10, source, hit, false);
    CheckNoOverflow(c, a, 1);
    RecordedThen(c, s, a, b, 0x10, source, hit, false);
    if c.Wide() {
      CheckNoOverflow(c, b, 2);
      RecordedThen(c, s, b, d, 0x10, source, hit, false);
      CheckNoOverflow(c, d, 3);
      RecordedThen(c, s, d, Tick(c, s), 0x10, source, hit, false);
    }
  }

  // ---------- any number of ticks ----------

  /** How often one of `n` counts modulo `p`, starting behind `a`, comes to `place`. */
  function Hits(a: nat, n: nat, p: nat, place: nat): int
    requires place < p
  {
    (a + n + p - place) / p - (a + p - place) / p
  }

  lemma DivideStep(v: nat, p: nat)
    requires p > 0
    ensures (v + 1) / p - v / p == Digit((v + 1) % p == 0)
  {
    hide Span, Whole;
    SpanDivMod(v, p);
    var q, r := Whole(v, p), v % p;
    WholeIs(v, p);
    WholeIs(v + 1, p);
    if r + 1 < p {
      QuotientUnique(v + 1, q, r + 1, p);
      SpanDivMod(v + 1, p);
    } else {
      SpanAdd(q, 1, p);
      QuotientUnique(v + 1, q + 1, 0, p);
      SpanDivMod(v + 1, p);
    }
  }

  lemma WholeIs(v: nat, p: nat)
    requires p > 0
    ensures Whole(v, p) == v / p
  {}

  lemma DividePlus(v: nat, p: nat)
    requires p > 0
    ensures (v + p) / p == v / p + 1 && (v + p) % p == v % p
  {
    hide Span, Whole;
    SpanDivMod(v, p);
    SpanAdd(Whole(v, p), 1, p);
    QuotientUnique(v + p, Whole(v, p) + 1, v % p, p);
    SpanDivMod(v + p, p);
    WholeIs(v, p);
    WholeIs(v + p, p);
  }

  lemma DivideSmall(v: nat, p: nat)
    requires v < p
    ensures v / p == 0 && v % p == v
  {}

  /** One count more. */
  lemma HitsFirst(a: nat, n: nat, p: nat, place: nat)
    requires place < p && a < p && n > 0
    ensures Hits(a, n, p, place) == Digit((a + 1) % p == place) + Hits((a + 1) % p, n - 1, p, place)
    ensures ((a + 1) % p + (n - 1)) % p == (a + n) % p
  {
    var q := p - place;
    DivideStep(a + q, p);
    PlaceTest(a, p, place);
    if a + 1 < p {
      DivideSmall(a + 1, p);
    } else {
      DividePlus(0, p);
      DivideSmall(0, p);
      DividePlus(n - 1 + q, p);
      DividePlus(n - 1, p);
      DividePlus(q, p);
    }
  }

  lemma PlaceTest(a: nat, p: nat, place: nat)
    requires place < p && a < p
    ensures (a + 1 + p - place) % p == 0 <==> (a + 1) % p == place
  {
    if a + 1 == p {
      DividePlus(0, p);
      DivideSmall(0, p);
      if place > 0 {
        DividePlus(p - place, p);
        DivideSmall(p - place, p);
      } else {
        DividePlus(p, p);
      }
    } else {
      DivideSmall(a + 1, p);
      if a + 1 >= place {
        DividePlus(a + 1 - place, p);
        DivideSmall(a + 1 - place, p);
      } else {
        DivideSmall(a + 1 + p - place, p);
      }
    }
  }

  /** The counter after any number of ticks. */
  lemma {:induction false} CounterRuns(c: Config, s: State, p: nat, k: nat, n: nat)
    requires Period(c, p, k) && s.counter < p
    ensures c.Valid() && Ticks(c, s, n).counter == (s.counter + n) % p
    decreases n
  {
    hide Tick, Period;
    PeriodValid(c, p, k);
    if n == 0 {
      DivideSmall(s.counter, p);
    } else {
      TickCounter(c, s, p, k);
      HitsFirst(s.counter, n, p, 0);
      CounterRuns(c, Tick(c, s), p, k, n - 1);
    }
  }

  /** What becomes of a flag and the number of its requests after `hits` hits. */
  predicate Counted(c: Config, s: State, t: State, bit: bv8, source: nat, hits: int) {
    && (Flag(t.status, bit) <==> Flag(s.status, bit) || hits > 0)
    && Count(t.log, source) == Count(s.log, source) + (if Flag(c.interruptEnable, bit) then hits else 0)
  }

  lemma CountedThen(c: Config, s: State, t: State, u: State, bit: bv8, source: nat, hit: bool, hits: int)
    requires Recorded(c, s, t, bit, source, hit) && Counted(c, t, u, bit, source, hits) && hits >= 0
    ensures Counted(c, s, u, bit, source, Digit(hit) + hits)
  {}

  lemma {:induction false} HitsCount(a: nat, n: nat, p: nat, place: nat)
    requires place < p && a < p
    ensures Hits(a, n, p, place) >= 0
    decreases n
  {
    if n > 0 {
      HitsFirst(a, n, p, place);
      DivideSmall((a + 1) % p, p);
      HitsCount((a + 1) % p, n - 1, p, place);
    }
  }

  /** Flag and requests of a register: it matches once in every period, or never. */
  lemma {:induction false} RegisterRuns(c: Config, s: State, p: nat, k: nat, i: nat, n: nat)
    requires Period(c, p, k) && s.counter < p && i < c.Compares()
    ensures Counted(c, s, Ticks(c, s, n), Bit(i), MatchSource(c.index, i),
                    if Placed(c, p, k, i) then Hits(s.counter, n, p, Place(c, p, i)) else 0)
    decreases n
  {
    hide Tick, Counted, Recorded, Hits, Bit, MatchSource, Placed;
    var place := Place(c, p, i);
    if n == 0 {
      NoHits(c, s, Bit(i), MatchSource(c.index, i), p, place);
    } else {
      var t := Tick(c, s);
      TickCounter(c, s, p, k);
      Wraps(s.counter, p);
      TickRegister(c, s, p, k, i);
      RegisterRuns(c, t, p, k, i, n - 1);
      HitsFirst(s.counter, n, p, place);
      HitsCount(t.counter, n - 1, p, place);
      CountedThen(c, s, t, Ticks(c, t, n - 1), Bit(i), MatchSource(c.index, i),
                  Placed(c, p, k, i) && t.counter == place,
                  if Placed(c, p, k, i) then Hits(t.counter, n - 1, p, place) else 0);
    }
  }

  lemma NoHits(c: Config, s: State, bit: bv8, source: nat, p: nat, place: nat)
    requires place < p
    ensures Counted(c, s, s, bit, source, Hits(s.counter, 0, p, place)) && Counted(c, s, s, bit, source, 0)
  {}

  /** Flag and requests of the overflow. */
  lemma {:induction false} OverflowRuns(c: Config, s: State, n: nat)
    requires Period(c, 0x1_0000, 4) && s.counter < 0x1_0000
    ensures c.Valid()
    ensures Counted(c, s, Ticks(c, s, n), 0x10, OverflowSource(c.index), Hits(s.counter, n, 0x1_0000, 0))
    decreases n
  {
    hide Tick, Counted, Recorded, Hits, OverflowSource;
    if n == 0 {
      NoHits(c, s, 0x10, OverflowSource(c.index), 0x1_0000, 0);
    } else {
      var t := Tick(c, s);
      TickCounter(c, s, 0x1_0000, 4);
      TickOverflow(c, s, 0x1_0000, 4);
      OverflowRuns(c, t, n - 1);
      HitsFirst(s.counter, n, 0x1_0000, 0);
      HitsCount(t.counter, n - 1, 0x1_0000, 0);
      CountedThen(c, s, t, Ticks(c, t, n - 1), 0x10, OverflowSource(c.index), t.counter == 0,
                  Hits(t.counter, n - 1, 0x1_0000, 0));
    }
  }

  // ---------- in numbers ----------

  lemma HitsAtEnd(a: nat, n: nat, p: nat)
    requires a < p
    ensures Hits(a, n, p, 0) == (a + n) / p && ((a + n) / p > 0 <==> a + n >= p)
  {
    DividePlus(a + n, p);
    DividePlus(a, p);
    DivideSmall(a, p);
    if a + n < p {
      DivideSmall(a + n, p);
    } else {
      DividePlus(a + n - p, p);
    }
  }

  /** A channel cleared by one of its compare registers counts modulo that register; the flag of the register shows from
      the first match on, and its interrupt is requested once in every period. */
  lemma ClearPeriod(c: Config, s: State, k: nat, n: nat)
    requires c.Valid() && Clears(c, k) && s.counter < c.general[k]
    ensures var g, t := c.general[k], Ticks(c, s, n);
      && t.counter == (s.counter + n) % g
      && (Flag(t.status, Bit(k)) <==> Flag(s.status, Bit(k)) || s.counter + n >= g)
      && Count(t.log, MatchSource(c.index, k)) == Count(s.log, MatchSource(c.index, k)) +
           (if Flag(c.interruptEnable, Bit(k)) then (s.counter + n) / g else 0)
  {
    hide Flag, Count, Bit, MatchSource, Hits;
    var g := c.general[k];
    CounterRuns(c, s, g, k, n);
    RegisterRuns(c, s, g, k, k, n);
    HitsAtEnd(s.counter, n, g);
    DividePlus(0, g);
    DivideSmall(0, g);
  }

  /** One that no register clears counts modulo 2^16, and overflows once in every period. */
  lemma FreePeriod(c: Config, s: State, n: nat)
    requires c.Valid() && NoneClears(c) && s.counter < 0x1_0000
    ensures var t := Ticks(c, s, n);
      && t.counter == (s.counter + n) % 0x1_0000
      && (Flag(t.status, 0x10) <==> Flag(s.status, 0x10) || s.counter + n >= 0x1_0000)
      && Count(t.log, OverflowSource(c.index)) == Count(s.log, OverflowSource(c.index)) +
           (if Flag(c.interruptEnable, 0x10) then (s.counter + n) / 0x1_0000 else 0)
  {
    hide Flag, Count, OverflowSource, Hits;
    CounterRuns(c, s, 0x1_0000, 4, n);
    OverflowRuns(c, s, n);
    HitsAtEnd(s.counter, n, 0x1_0000);
  }

  /** A cleared channel never overflows. */
  lemma {:induction false} NoOverflow(c: Config, s: State, k: nat, n: nat)
    requires c.Valid() && Clears(c, k) && s.counter < c.general[k]
    ensures Counted(c, s, Ticks(c, s, n), 0x10, OverflowSource(c.index), 0)
    decreases n
  {
    hide Tick, Counted, Recorded, OverflowSource, Hits;
    var g := c.general[k];
    if n == 0 {
      NoHits(c, s, 0x10, OverflowSource(c.index), g, 0);
    } else {
      var t := Tick(c, s);
      TickCounter(c, s, g, k);
      Wraps(s.counter, g);
      TickOverflow(c, s, g, k);
      NoOverflow(c, t, k, n - 1);
      CountedThen(c, s, t, Ticks(c, t, n - 1), 0x10, OverflowSource(c.index), false, 0);
    }
  }

  /** A register that holds the same value as the one that clears, but is checked after it, never matches. */
  lemma ShadowedMatch(c: Config, s: State, k: nat, i: nat, n: nat)
    requires c.Valid() && Clears(c, k) && k < i < c.Compares() && s.counter < c.general[k] == c.general[i]
    ensures var t := Ticks(c, s, n);
      && (Flag(t.status, Bit(i)) <==> Flag(s.status, Bit(i)))
      && Count(t.log, MatchSource(c.index, i)) == Count(s.log, MatchSource(c.index, i))
  {
    hide Flag, Count, Bit, MatchSource, Hits;
    RegisterRuns(c, s, c.general[k], k, i, n);
  }

  /** The same of an update: it counts the whole ticks since the last one. */
  lemma UpdatePeriod(c: Config, s: State, k: nat, clock: nat)
    requires c.Valid() && s.last <= clock && Clears(c, k) && s.counter < c.general[k]
    ensures var n := (clock - s.last) / c.div;
      Sample(c, s, clock) == Ticks(c, s, n) && Sample(c, s, clock).counter == (s.counter + n) % c.general[k]
  {
    hide Ticks;
    CounterRuns(c, s, c.general[k], k, (clock - s.last) / c.div);
  }
}
