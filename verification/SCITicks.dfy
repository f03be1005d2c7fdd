/** The transmit side of the serial port, one cycle at a time: what its event-driven update has to agree with. */
module SCITicks {

  /** A register of eight bits. */
  datatype Byte = Byte(b7: bool, b6: bool, b5: bool, b4: bool, b3: bool, b2: bool, b1: bool, b0: bool) {
    function Value(): nat {
      (if b7 then 128 else 0) + (if b6 then 64 else 0) + (if b5 then 32 else 0) + (if b4 then 16 else 0) +
      (if b3 then 8 else 0) + (if b2 then 4 else 0) + (if b1 then 2 else 0) + (if b0 then 1 else 0)
    }
  }

  /** A character put on the line, when, and how long it occupies it. */
  datatype Frame = Frame(data: Byte, time: nat, cycles: nat)

  datatype Source = TXI(index: nat) | RXI(index: nat) | TEI(index: nat)

  /** What stays fixed between register writes. */
  datatype Config = Config(index: nat, te: bool, re: bool, sync: bool, teie: bool, data: Byte, cycles: nat)

  /** The transmitter: `left` cycles of the current character, the frames sent and the interrupts requested so far. */
  datatype Line = Line(time: nat, tdre: bool, tend: bool, left: nat, sends: seq<Frame>, requests: seq<Source>)

  /** The end of a character: send the waiting one, or report the end; without a transmitter a synchronous receiver
      keeps the clock running. */
  function Finish(c: Config, s: Line): Line {
    var t :=
      if !c.te then s
      else if !s.tdre then s.(tdre := true, left := c.cycles, sends := s.sends + [Frame(c.data, s.time, c.cycles)])
      else s.(tend := true, requests := if c.teie then s.requests + [TEI(c.index)] else s.requests);
    if c.re && !c.te && c.sync then t.(left := c.cycles) else t
  }

  /** One cycle. */
  function Tick(c: Config, s: Line): Line {
    if s.left == 0 then s.(time := s.time + 1)
    else if s.left > 1 then s.(time := s.time + 1, left := s.left - 1)
    else Finish(c, s.(time := s.time + 1, left := 0))
  }

  function Ticks(c: Config, s: Line, n: nat): Line
    decreases n
  {
    if n == 0 then s else Ticks(c, Tick(c, s), n - 1)
  }

  lemma {:induction false} TicksCompose(c: Config, s: Line, m: nat, n: nat)
    ensures Ticks(c, Ticks(c, s, m), n) == Ticks(c, s, m + n)
    decreases m
  {
    hide Tick;
    if m > 0 {
      TicksCompose(c, Tick(c, s), m - 1, n);
    }
  }

  /** Cycles inside a character only count it down. */
  lemma {:induction false} QuietTicks(c: Config, s: Line, n: nat)
    requires s.left == 0 || n < s.left
    ensures Ticks(c, s, n) == s.(time := s.time + n, left := if s.left == 0 then 0 else s.left - n)
    decreases n
  {
    if n > 0 {
      QuietTicks(c, Tick(c, s), n - 1);
    }
  }

  /** The last cycle of a character finishes it. */
  lemma LastTick(c: Config, s: Line)
    requires s.left > 0
    ensures Ticks(c, s, s.left) == Finish(c, s.(time := s.time + s.left, left := 0))
  {
    hide Finish;
    QuietTicks(c, s, s.left - 1);
    var t := Ticks(c, s, s.left - 1);
    TicksCompose(c, s, s.left - 1, 1);
    assert Ticks(c, t, 1) == Tick(c, t) by {
      assert Ticks(c, Tick(c, t), 0) == Tick(c, t);
    }
  }

  lemma TicksNone(c: Config, s: Line)
    ensures Ticks(c, s, 0) == s
  {}

  /** A jump that does not pass the end of a character. */
  lemma AdvanceTicks(c: Config, s: Line, n: nat)
    requires n > 0 && (s.left == 0 || n <= s.left)
    ensures Ticks(c, s, n) ==
      if s.left == 0 || n < s.left then s.(time := s.time + n, left := if s.left == 0 then 0 else s.left - n)
      else Finish(c, s.(time := s.time + n, left := 0))
  {
    hide Ticks, Finish;
    if s.left == 0 || n < s.left {
      QuietTicks(c, s, n);
    } else {
      LastTick(c, s);
    }
  }

  /** The waiting character, if any, is sent the moment the current one ends, and nothing else is ever sent. */
  lemma SentWhenDue(c: Config, s: Line, n: nat)
    requires !s.tdre ==> c.te && s.left > 0
    ensures Ticks(c, s, n).sends ==
      if !s.tdre && s.left <= n then s.sends + [Frame(c.data, s.time + s.left, c.cycles)] else s.sends
    ensures Ticks(c, s, n).tdre <==> s.tdre || s.left <= n
  {
    hide Finish;
    if s.left == 0 || n < s.left {
      QuietTicks(c, s, n);
    } else {
      var t := Finish(c, s.(time := s.time + s.left, left := 0));
      LastTick(c, s);
      TicksCompose(c, s, s.left, n - s.left);
      FinishSends(c, s.(time := s.time + s.left, left := 0));
      NothingWaiting(c, t, n - s.left);
    }
  }

  /** A waiting character has a running clock before it. */
  lemma WaitingRuns(c: Config, s: Line, n: nat)
    requires !s.tdre ==> c.te && s.left > 0
    ensures !Ticks(c, s, n).tdre ==> c.te && Ticks(c, s, n).left > 0
  {
    hide Ticks;
    SentWhenDue(c, s, n);
    if n < s.left { QuietTicks(c, s, n); }
  }

  lemma FinishSends(c: Config, s: Line)
    requires !s.tdre ==> c.te
    ensures Finish(c, s).tdre
    ensures Finish(c, s).sends == if s.tdre then s.sends else s.sends + [Frame(c.data, s.time, c.cycles)]
  {}

  lemma {:induction false} NothingWaiting(c: Config, s: Line, n: nat)
    requires s.tdre
    ensures Ticks(c, s, n).tdre && Ticks(c, s, n).sends == s.sends
    decreases n
  {
    if n > 0 {
      NothingWaiting(c, Tick(c, s), n - 1);
    }
  }

  /** When the line falls silent: at the end of the last character, with the one still waiting behind it. */
  function SilentAfter(c: Config, s: Line): nat {
    s.left + (if s.tdre then 0 else c.cycles)
  }

  /** With the transmitter on, after `n` cycles: TEND shows from the end of the last character on, its interrupt was
      requested then, once, and the clock ran until then. */
  predicate EndShows(c: Config, s: Line, t: Line, n: nat) {
    var ended := s.left > 0 && n >= SilentAfter(c, s);
    && t.tend == (s.tend || ended)
    && t.requests == (if ended && c.teie then s.requests + [TEI(c.index)] else s.requests)
    && t.left == (if n < s.left then s.left - n else if n < SilentAfter(c, s) then SilentAfter(c, s) - n else 0)
  }

  lemma LineEnds(c: Config, s: Line, n: nat)
    requires c.te && c.cycles > 0 && (!s.tdre ==> s.left > 0)
    ensures EndShows(c, s, Ticks(c, s, n), n)
  {
    hide Ticks;
    if s.left == 0 || n < s.left {
      QuietTicks(c, s, n);
    } else {
      var s1 := s.(time := s.time + s.left, left := 0);
      var t := Finish(c, s1);
      LastTick(c, s);
      TicksCompose(c, s, s.left, n - s.left);
      if s.tdre || n < SilentAfter(c, s) {
        QuietTicks(c, t, n - s.left);
      } else {
        var u := Finish(c, t.(time := t.time + c.cycles, left := 0));
        LastTick(c, t);
        TicksCompose(c, t, c.cycles, n - s.left - c.cycles);
        QuietTicks(c, u, n - s.left - c.cycles);
      }
    }
  }

  /** A synchronous receiver alone keeps the clock running. */
  lemma {:induction false} ClockRuns(c: Config, s: Line, n: nat)
    requires !c.te && c.re && c.sync && c.cycles > 0 && s.left > 0
    ensures Ticks(c, s, n) == s.(time := s.time + n,
      left := if n < s.left then s.left - n else c.cycles - (n - s.left) % c.cycles)
    decreases n
  {
    hide Ticks;
    if n < s.left {
      QuietTicks(c, s, n);
    } else {
      var t := Finish(c, s.(time := s.time + s.left, left := 0));
      LastTick(c, s);
      TicksCompose(c, s, s.left, n - s.left);
      ClockRuns(c, t, n - s.left);
      if n - s.left < c.cycles {
        SmallRest(n - s.left, c.cycles);
      } else {
        RestAfter(n - s.left, c.cycles);
      }
    }
  }

  lemma SmallRest(n: nat, d: nat)
    requires n < d
    ensures n % d == n
  {}

  lemma RestAfter(n: nat, d: nat)
    requires 0 < d <= n
    ensures (n - d) % d == n % d
  {
    var q, r := n / d, n % d;
    assert n == d * q + r;
    assert n - d == d * (q - 1) + r;
    RestIs(n - d, q - 1, r, d);
  }

  lemma RestIs(n: nat, q: int, r: nat, d: nat)
    requires n == d * q + r && r < d
    ensures n % d == r
  {
    var p, t := n / d, n % d;
    assert d * p + t == d * q + r;
    if p < q { MultiplesApart(p, q, d); }
    if p > q { MultiplesApart(q, p, d); }
  }

  lemma MultiplesApart(p: int, q: int, d: nat)
    requires p < q
    ensures d * p + d <= d * q
  {
    assert d * (q - p) == d + d * (q - p - 1);
    assert d * (q - p - 1) >= 0;
  }

  /** Without transmitter and without such a receiver the clock stops at the end of the character. */
  lemma ClockStops(c: Config, s: Line, n: nat)
    requires !c.te && !(c.re && c.sync) && s.tdre
    ensures Ticks(c, s, n) == s.(time := s.time + n, left := if n < s.left then s.left - n else 0)
  {
    hide Ticks;
    if s.left == 0 || n < s.left {
      QuietTicks(c, s, n);
    } else {
      var t := Finish(c, s.(time := s.time + s.left, left := 0));
      LastTick(c, s);
      TicksCompose(c, s, s.left, n - s.left);
      QuietTicks(c, t, n - s.left);
    }
  }

  /** Updating at one time and again later is updating once at the later time. */
  lemma SamplingIndependence(c: Config, s: Line, first: nat, second: nat)
    requires s.time <= first <= second
    ensures Ticks(c, s, first - s.time).time == first
    ensures Ticks(c, Ticks(c, s, first - s.time), second - first) == Ticks(c, s, second - s.time)
  {
    TicksTime(c, s, first - s.time);
    TicksCompose(c, s, first - s.time, second - first);
  }

  lemma {:induction false} TicksTime(c: Config, s: Line, n: nat)
    ensures Ticks(c, s, n).time == s.time + n
    decreases n
  {
    if n > 0 {
      TicksTime(c, Tick(c, s), n - 1);
    }
  }

  /** The line without the record of interrupts. */
  function Quiet(s: Line): Line {
    s.(requests := [])
  }

  lemma {:induction false} TicksQuiet(c: Config, s: Line, n: nat)
    ensures Quiet(Ticks(c, s, n)) == Quiet(Ticks(c, Quiet(s), n))
    decreases n
  {
    if n > 0 {
      TicksQuiet(c, Tick(c, s), n - 1);
      TicksQuiet(c, Tick(c, Quiet(s)), n - 1);
    }
  }

  // ---------- what every run keeps ----------

  /** Frames do not overlap: each starts no earlier than the one before it ends. */
  ghost predicate Apart(s: seq<Frame>) {
    forall i :: 0 < i < |s| ==> s[i - 1].time + s[i - 1].cycles <= s[i].time
  }

  /** The last frame ends by `end`. */
  predicate EndsBy(s: seq<Frame>, end: nat) {
    s != [] ==> s[|s| - 1].time + s[|s| - 1].cycles <= end
  }

  /** A waiting character has a transmitter and a running clock, the end flag only shows with nothing waiting and always
      without a transmitter, and the frames sent are apart. */
  ghost predicate Sound(c: Config, s: Line) {
    && (!s.tdre ==> c.te && s.left > 0)
    && (s.tend ==> s.tdre)
    && (!c.te ==> s.tend)
    && Apart(s.sends) && EndsBy(s.sends, s.time + s.left)
  }

  lemma SendApart(s: seq<Frame>, f: Frame)
    requires Apart(s) && EndsBy(s, f.time)
    ensures Apart(s + [f]) && EndsBy(s + [f], f.time + f.cycles)
  {}

  lemma FinishSound(c: Config, s: Line)
    requires s.left == 0 && c.cycles > 0
    requires (!s.tdre ==> c.te) && (s.tend ==> s.tdre) && (!c.te ==> s.tend)
    requires Apart(s.sends) && EndsBy(s.sends, s.time)
    ensures Sound(c, Finish(c, s))
  {
    hide Apart;
    SendApart(s.sends, Frame(c.data, s.time, c.cycles));
  }

  lemma {:induction false} TicksSound(c: Config, s: Line, n: nat)
    requires Sound(c, s) && c.cycles > 0
    ensures Sound(c, Ticks(c, s, n))
    decreases n
  {
    hide Apart, Finish;
    if n > 0 {
      if s.left == 1 {
        FinishSound(c, s.(time := s.time + 1, left := 0));
      }
      TicksSound(c, Tick(c, s), n - 1);
    }
  }

  // ---------- what register writes do to the line ----------

  /** The transmitter accepts a character while another is on the line. */
  lemma AcceptSound(c: Config, s: Line)
    requires Sound(c, s) && c.te && s.left > 0
    ensures Sound(c, s.(tdre := false, tend := false))
  {}

  /** The end of the last character need not show. */
  lemma BusySound(c: Config, s: Line)
    requires Sound(c, s) && c.te
    ensures Sound(c, s.(tend := false))
  {}

  /** It accepts one with the line free, and sends it at once. */
  lemma SendSound(c: Config, s: Line, f: Frame)
    requires Sound(c, s) && c.te && s.left == 0 && f.time == s.time
    ensures Sound(c, s.(tdre := true, tend := false, left := f.cycles, sends := s.sends + [f]))
  {
    hide Apart;
    SendApart(s.sends, f);
  }

  /** Switching the transmitter off forgets the waiting character; the clock may be started for receiving. */
  lemma OffSound(c: Config, off: Config, s: Line, left: nat)
    requires Sound(c, s) && !off.te && s.left <= left
    ensures Sound(off, s.(tdre := true, tend := true, left := left))
  {}

  /** Nothing else in the setup matters. */
  lemma SetupSound(c: Config, d: Config, s: Line)
    requires Sound(c, s) && (d.te || !c.te)
    ensures Sound(d, s)
  {}
}
