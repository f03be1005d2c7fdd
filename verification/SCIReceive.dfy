/** The receive side of the serial port over a whole update: what comes in, when, and what it leaves. */
module SCIReceive {
  import opened SCITicks

  /** What was received: the asynchronous characters, in order, how often RDRF was set, the bytes read from the device,
      in order, and how many filler bytes were written to it. */
  datatype Inbox = Inbox(receptions: seq<Frame>, fills: nat, taken: seq<Byte>, fillers: nat) {
    function Fill(sync: bool, f: Frame, read: bool, filler: bool): Inbox {
      Inbox(if sync then receptions else receptions + [f], fills + 1, if read then taken + [f.data] else taken,
            if filler then fillers + 1 else fillers)
    }

    /** No character is stored over one the program has not taken, and asynchronous ones are apart. */
    ghost predicate Keeps(acks: nat, rdrf: bool, end: nat) {
      && fills == acks + (if rdrf then 1 else 0)
      && Apart(receptions) && EndsBy(receptions, end)
    }
  }

  /** What stays fixed on the receive side between register writes. */
  datatype Wire = Wire(sync: bool, te: bool, re: bool, rie: bool, device: bool, cycles: nat)

  /** The receiver: its data register and delayed interrupt, the bytes waiting at the device, and the record. */
  datatype Intake = Intake(data: Byte, delayed: bool, incoming: seq<Byte>, inbox: Inbox) {
    /** The device has more to say. */
    function Hear(more: seq<Byte>): Intake {
      this.(incoming := incoming + more)
    }

    /** The byte a character brings: the device's, if it has one. */
    function Next(w: Wire): Byte {
      if w.device && incoming != [] then incoming[0] else data
    }

    function Rest(w: Wire): seq<Byte> {
      if w.device && incoming != [] then incoming[1..] else incoming
    }

    /** A character is stored at `time`. */
    function Store(w: Wire, time: nat, filler: bool): Intake {
      Intake(Next(w), delayed || w.rie, Rest(w),
             inbox.Fill(w.sync, Frame(Next(w), time, w.cycles), w.device && incoming != [], filler))
    }
  }

  lemma HearNothing(i: Intake)
    ensures i.Hear([]) == i
  {
    assert i.incoming + [] == i.incoming;
  }

  /** A character goes out to the device, which may answer; in synchronous mode one comes in with it, unless the last
      one has not been taken. */
  function Sending(i: Intake, w: Wire, rdrf: bool, more: seq<Byte>, time: nat): Intake {
    var h := i.Hear(more);
    if w.sync && w.re && !rdrf then h.Store(w, time, false) else h
  }

  /** The device's next byte comes in with the one sent, if there is one; without one the data register keeps its byte,
      and when the last character has not been taken nothing comes in. */
  lemma SendingTakes(i: Intake, w: Wire, rdrf: bool, more: seq<Byte>, time: nat)
    ensures var j, all := Sending(i, w, rdrf, more, time), i.incoming + more;
      if w.sync && w.re && !rdrf then
        && j.delayed == (i.delayed || w.rie) && j.inbox.receptions == i.inbox.receptions
        && j.inbox.fillers == i.inbox.fillers
        && if w.device && all != [] then
            [j.data] + j.incoming == all && j.inbox.taken == i.inbox.taken + [j.data]
          else
            j.data == i.data && j.incoming == all && j.inbox.taken == i.inbox.taken
      else j == i.(incoming := all)
  {
    var all := i.incoming + more;
    if all != [] { assert all == [all[0]] + all[1..]; }
  }

  /** With the two flags and the counter of the receiver. */
  datatype Rx = Rx(rdrf: bool, orer: bool, left: nat, intake: Intake) {
    function Later(n: nat): Rx {
      this.(left := if left <= n then 0 else left - n)
    }
  }

  // ---------- what every reception keeps ----------

  lemma AcknowledgeKeeps(i: Inbox, acks: nat, end: nat)
    requires i.Keeps(acks, true, end)
    ensures i.Keeps(acks + 1, false, end)
  {}

  lemma KeepsLater(i: Inbox, acks: nat, rdrf: bool, end: nat, later: nat)
    requires i.Keeps(acks, rdrf, end) && end <= later
    ensures i.Keeps(acks, rdrf, later)
  {}

  lemma FillKeeps(i: Inbox, acks: nat, sync: bool, f: Frame, read: bool, filler: bool, end: nat)
    requires i.Keeps(acks, false, end) && (sync || end <= f.time)
    ensures i.Fill(sync, f, read, filler).Keeps(acks, true, if sync then end else f.time + f.cycles)
    ensures sync ==> i.Fill(sync, f, read, filler).receptions == i.receptions
  {
    hide Apart;
    if !sync {
      SendApart(i.receptions, f);
    }
  }

  /** The bytes read from the device and those still there are the ones it has had, in order. */
  predicate Whole(i: Intake, offered: seq<Byte>) {
    offered == i.inbox.taken + i.incoming
  }

  lemma StoreWhole(i: Intake, w: Wire, time: nat, filler: bool, offered: seq<Byte>)
    requires Whole(i, offered)
    ensures Whole(i.Store(w, time, filler), offered)
  {}

  lemma HearWhole(i: Intake, more: seq<Byte>, offered: seq<Byte>)
    requires Whole(i, offered)
    ensures Whole(i.Hear(more), offered + more)
  {}

  lemma StoreKept(i: Intake, w: Wire, acks: nat, time: nat, filler: bool, end: nat)
    requires i.inbox.Keeps(acks, false, end) && (w.sync || end <= time)
    ensures i.Store(w, time, filler).inbox.Keeps(acks, true, if w.sync then end else time + w.cycles)
    ensures w.sync ==> i.Store(w, time, filler).inbox.receptions == i.inbox.receptions
  {
    hide Inbox.Keeps, Inbox.Fill;
    FillKeeps(i.inbox, acks, w.sync, Frame(i.Next(w), time, w.cycles), w.device && i.incoming != [], filler, end);
  }

  lemma SendingKeeps(i: Intake, w: Wire, rdrf: bool, more: seq<Byte>, time: nat, acks: nat, end: nat,
                     offered: seq<Byte>)
    requires i.inbox.Keeps(acks, rdrf, end) && Whole(i, offered)
    ensures var j := Sending(i, w, rdrf, more, time);
      && j.inbox.Keeps(acks, rdrf || (w.sync && w.re), end) && Whole(j, offered + more)
      && j.inbox.receptions == i.inbox.receptions
  {
    hide Inbox.Keeps, Intake.Store, Whole;
    var h := i.Hear(more);
    HearWhole(i, more, offered);
    StoreWhole(h, w, time, false, offered + more);
    if w.sync && !rdrf { StoreKept(h, w, acks, time, false, end); }
  }

  // ---------- one round of the update loop ----------

  /** A character comes in by the transmitter's clock; there is an overrun when the last one has not been taken. */
  function Exchanged(w: Wire, r: Rx, time: nat, filler: bool): Rx {
    if r.rdrf then r.(orer := true) else r.(rdrf := true, intake := r.intake.Store(w, time, filler))
  }

  /** The end of a character on the line: a waiting one goes out, and the device may answer; in synchronous mode one
      comes in with it, and without a transmitter the receiver sends a filler to get it. */
  function Ended(w: Wire, r: Rx, waiting: bool, more: seq<Byte>, time: nat): Rx {
    if w.te && waiting then
      var h := r.(intake := r.intake.Hear(more));
      if w.sync && w.re then Exchanged(w, h, time, false) else h
    else if w.re && !w.te && w.sync && w.device then
      Exchanged(w, if r.rdrf then r else r.(intake := r.intake.Hear(more)), time, true)
    else r
  }

  /** At the end of a character the device is given a byte. */
  predicate Asks(w: Wire, rdrf: bool, waiting: bool) {
    if w.te then waiting else w.re && w.sync && w.device && !rdrf
  }

  lemma EndedSends(w: Wire, r: Rx, more: seq<Byte>, time: nat)
    requires w.te
    ensures var x := w.sync && w.re;
      Ended(w, r, true, more, time) ==
        Rx(r.rdrf || x, r.orer || (x && r.rdrf), r.left, Sending(r.intake, w, r.rdrf, more, time))
    ensures Ended(w, r, false, more, time) == r
  {
    hide Intake.Store, Intake.Hear;
  }

  lemma EndedAlone(w: Wire, r: Rx, waiting: bool, more: seq<Byte>, time: nat)
    requires !w.te
    ensures Ended(w, r, waiting, more, time) ==
      if w.re && w.sync && w.device then
        Rx(true, r.orer || r.rdrf, r.left, if r.rdrf then r.intake else r.intake.Hear(more).Store(w, time, true))
      else r
  {
    hide Intake.Store, Intake.Hear;
  }

  /** An asynchronous character that has ended makes room for the next one. */
  function Polled(w: Wire, r: Rx, time: nat): Rx {
    if r.left == 0 && w.re && !r.rdrf && !w.sync && w.device && r.intake.incoming != [] then
      Rx(true, r.orer, w.cycles, r.intake.Store(w, time, false))
    else r
  }

  function Passed(w: Wire, r: Rx, step: nat, time: nat, ends: bool, waiting: bool, more: seq<Byte>): Rx {
    var e := if ends then Ended(w, r, waiting, more, time) else r;
    Polled(w, e.Later(step), time)
  }

  // ---------- the whole update at once ----------

  /** How an update finds the port: the receiver, the cycles left of the character on the line and whether one waits
      behind it, the bytes the device answers with, when the update starts, and how far its first round goes. */
  datatype Start = Start(r: Rx, left: nat, waiting: bool, more: seq<Byte>, time: nat, first: nat) {
    /** The character on the line has ended within `e` cycles. */
    predicate Over(e: nat) {
      0 < left <= e
    }

    /** The bytes at the device by then. */
    function Heard(w: Wire, e: nat): Intake {
      if w.te && waiting && Over(e) then r.intake.Hear(more) else r.intake
    }

    /** When an asynchronous character can come in, 0 for never: once the last one is over and the device has a byte. */
    function Ready(w: Wire): nat {
      if r.intake.incoming != [] then (if r.left > 0 then r.left else first)
      else if w.te && waiting && left > 0 && more != [] then (if r.left > left then r.left else left)
      else 0
    }

    predicate Comes(w: Wire, e: nat) {
      w.re && w.device && !r.rdrf && 0 < Ready(w) <= e
    }

    /** The asynchronous receiver after `e` cycles: at most one character has come in. */
    function Async(w: Wire, e: nat): Rx {
      if Comes(w, e) then
        Rx(true, r.orer, w.cycles, Heard(w, e).Store(w, time + Ready(w), false)).Later(e - Ready(w))
      else Rx(r.rdrf, r.orer, r.left, Heard(w, e)).Later(e)
    }

    /** The synchronous one: a character comes in with the one that goes out, or with every filler. */
    function Sync(w: Wire, e: nat): Rx {
      if w.te && waiting && Over(e) then
        var h := r.(intake := r.intake.Hear(more));
        (if w.re then Exchanged(w, h, time + left, false) else h).Later(e)
      else if w.re && !w.te && w.device && Over(e) then
        var h := if r.rdrf then r else r.(intake := r.intake.Hear(more));
        var x := Exchanged(w, h, time + left, true);
        (if e >= left + w.cycles then x.(orer := true) else x).Later(e)
      else r.Later(e)
    }

    function At(w: Wire, e: nat): Rx {
      if w.sync then Sync(w, e) else Async(w, e)
    }
  }

  lemma LaterTwice(r: Rx, m: nat, n: nat)
    ensures r.Later(m).Later(n) == r.Later(m + n)
  {}

  lemma StoreHears(i: Intake, w: Wire, more: seq<Byte>, time: nat)
    requires w.device && i.incoming != []
    ensures i.Hear(more).Store(w, time, false) == i.Store(w, time, false).Hear(more)
  {
    assert (i.incoming + more)[1..] == i.incoming[1..] + more;
  }

  lemma StoreKeeps(i: Intake, w: Wire, time: nat)
    ensures w.device && i.incoming != [] ==> i.Store(w, time, false).incoming == i.incoming[1..]
  {}

  /** What a round has to be: it does not pass the end of a character, and sees a character end when it reaches one. */
  predicate Round(w: Wire, s: Start, e: nat, step: nat, ends: bool, waiting: bool) {
    && step > 0 && (s.left <= e || e + step <= s.left)
    && (if e == 0 then step == s.first else e >= s.first > 0)
    && (s.At(w, e).left > 0 ==> step <= s.At(w, e).left)
    && (ends && waiting <==> s.waiting && e < s.left == e + step)
    && (e < s.left == e + step ==> ends)
    && (ends ==> s.left > 0 && (e + step == s.left || (e >= s.left && e + step >= s.left + w.cycles)))
    && (!w.te && w.re && w.sync && 0 < s.left <= e < s.left + w.cycles <= e + step ==> ends)
  }

  lemma AsyncRound(w: Wire, s: Start, e: nat, step: nat, ends: bool, waiting: bool)
    requires !w.sync && w.cycles > 0 && Round(w, s, e, step, ends, waiting)
    ensures Passed(w, s.Async(w, e), step, s.time + e + step, ends, waiting, s.more) == s.Async(w, e + step)
  {
    hide Intake.Store;
    var t := s.Ready(w);
    if w.device && s.r.intake.incoming != [] { StoreHears(s.r.intake, w, s.more, s.time + t); }
    StoreKeeps(s.r.intake, w, s.time + t);
  }

  lemma SyncRound(w: Wire, s: Start, e: nat, step: nat, ends: bool, waiting: bool)
    requires w.sync && w.cycles > 0 && Round(w, s, e, step, ends, waiting)
    ensures Passed(w, s.Sync(w, e), step, s.time + e + step, ends, waiting, s.more) == s.Sync(w, e + step)
  {
    hide Intake.Store, Intake.Hear;
  }

  /** One round is a step of the whole, with what the device answers in it. */
  lemma OneRound(w: Wire, s: Start, e: nat, step: nat, ends: bool, waiting: bool, answer: seq<Byte>)
    requires w.cycles > 0 && Round(w, s, e, step, ends, waiting)
    requires answer == [] || (ends && Asks(w, s.At(w, e).rdrf, waiting))
    ensures Passed(w, s.At(w, e), step, s.time + e + step, ends, waiting, answer) ==
      Answered(w, s, e, ends, waiting, answer).At(w, e + step)
    ensures ends && Asks(w, s.At(w, e).rdrf, waiting) ==> e < s.left == e + step && Asks(w, s.r.rdrf, s.waiting)
  {
    hide Polled, Round, Exchanged;
    var t := Answered(w, s, e, ends, waiting, answer);
    AskedOnce(w, s, e, step, ends, waiting, answer);
    if w.sync { SyncRound(w, t, e, step, ends, waiting); } else { AsyncRound(w, t, e, step, ends, waiting); }
  }

  function Answered(w: Wire, s: Start, e: nat, ends: bool, waiting: bool, answer: seq<Byte>): Start {
    if ends && Asks(w, s.At(w, e).rdrf, waiting) then s.(more := answer) else s
  }

  /** The answer does not matter before it is given, and it is given once. */
  lemma AskedOnce(w: Wire, s: Start, e: nat, step: nat, ends: bool, waiting: bool, answer: seq<Byte>)
    requires w.cycles > 0 && Round(w, s, e, step, ends, waiting)
    ensures var t := Answered(w, s, e, ends, waiting, answer);
      s.At(w, e) == t.At(w, e) && Round(w, t, e, step, ends, waiting)
    ensures ends && Asks(w, s.At(w, e).rdrf, waiting) ==> e < s.left == e + step && Asks(w, s.r.rdrf, s.waiting)
  {
    hide Intake.Store, Intake.Hear;
  }

  /** What the first round of an update finds. */
  lemma AtStart(w: Wire, s: Start)
    ensures s.At(w, 0) == s.r
  {}

  /** How far the first round of an update of `n` cycles goes: to the end of a character, or all the way. */
  function First(rx: nat, tx: nat, n: nat): nat {
    var first := if 0 < tx < n then tx else n;
    if 0 < rx < first then rx else first
  }

  /** The start of an update of `n` cycles. */
  function Begun(r: Rx, left: nat, waiting: bool, more: seq<Byte>, time: nat, n: nat): Start {
    Start(r, left, waiting, more, time, First(r.left, left, n))
  }

  /** A round that goes to the next end of a character, of those sent and those received, or all the way. */
  lemma RoundHolds(w: Wire, c: Config, line: Line, s: Start, e: nat, step: nat)
    requires c.te == w.te && c.re == w.re && c.sync == w.sync && c.cycles == w.cycles > 0
    requires s.left == line.left && s.waiting == !line.tdre && (s.waiting ==> c.te && line.left > 0)
    requires 0 < step && (if e == 0 then step == s.first else e >= s.first > 0)
    requires s.At(w, e).left > 0 ==> step <= s.At(w, e).left
    requires var t := Ticks(c, line, e); t.left == 0 || step <= t.left
    ensures var t := Ticks(c, line, e); Round(w, s, e, step, 0 < t.left == step, !t.tdre)
  {
    hide Ticks, Start.At;
    SentWhenDue(c, line, e);
    if s.left == 0 || e < s.left {
      QuietTicks(c, line, e);
    } else if c.te {
      LineEnds(c, line, e);
    } else if c.re && c.sync {
      ClockRuns(c, line, e);
      if e - s.left < w.cycles { SmallRest(e - s.left, w.cycles); }
    } else {
      ClockStops(c, line, e);
    }
  }

  /** What every update keeps. */
  lemma AtKeeps(w: Wire, s: Start, e: nat, acks: nat, offered: seq<Byte>)
    requires w.cycles > 0 && s.r.intake.inbox.Keeps(acks, s.r.rdrf, s.time + s.r.left)
    requires Whole(s.r.intake, offered) && (s.more != [] ==> s.Over(e))
    requires s.more != [] ==> Asks(w, s.r.rdrf, s.waiting)
    ensures var t := s.At(w, e);
      t.intake.inbox.Keeps(acks, t.rdrf, s.time + e + t.left) && Whole(t.intake, offered + s.more)
  {
    hide Inbox.Keeps, Intake.Store, Whole;
    var i, end, last := s.r.intake, s.time + s.r.left, s.time + e + s.At(w, e).left;
    assert offered + [] == offered;
    HearWhole(i, s.more, offered);
    KeepsLater(i.inbox, acks, s.r.rdrf, end, last);
    if !w.sync && s.Comes(w, e) {
      StoreAll(w, s.Heard(w, e), acks, s.time + s.Ready(w), false, end, offered + s.more, last);
    } else if w.sync && !s.r.rdrf && w.re && s.Over(e) {
      var filler := !w.te;
      StoreAll(w, i.Hear(s.more), acks, s.time + s.left, filler, end, offered + s.more, last);
    }
  }

  lemma StoreAll(w: Wire, i: Intake, acks: nat, time: nat, filler: bool, end: nat, offered: seq<Byte>, last: nat)
    requires i.inbox.Keeps(acks, false, end) && Whole(i, offered)
    requires if w.sync then end <= last else end <= time && time + w.cycles <= last
    ensures var j := i.Store(w, time, filler); j.inbox.Keeps(acks, true, last) && Whole(j, offered)
  {
    hide Inbox.Keeps, Intake.Store, Whole;
    StoreKept(i, w, acks, time, filler, end);
    StoreWhole(i, w, time, filler, offered);
    KeepsLater(i.Store(w, time, filler).inbox, acks, true, if w.sync then end else time + w.cycles, last);
  }

  /** The next round of the loop, from the state of the line and of the receiver. */
  lemma RoundStep(w: Wire, c: Config, line: Line, s: Start, e: nat, step: nat, answer: seq<Byte>)
    requires c.te == w.te && c.re == w.re && c.sync == w.sync && c.cycles == w.cycles > 0
    requires s.left == line.left && s.waiting == !line.tdre && (s.waiting ==> c.te && line.left > 0)
    requires 0 < step && (if e == 0 then step == s.first else e >= s.first > 0)
    requires s.At(w, e).left > 0 ==> step <= s.At(w, e).left
    requires s.more != [] ==> s.left <= e
    requires var t := Ticks(c, line, e);
      && (t.left == 0 || step <= t.left)
      && (answer != [] ==> 0 < t.left == step && Asks(w, s.At(w, e).rdrf, !t.tdre))
    ensures var t := Ticks(c, line, e);
      && Passed(w, s.At(w, e), step, s.time + e + step, 0 < t.left == step, !t.tdre, answer) ==
         s.(more := s.more + answer).At(w, e + step)
      && (answer != [] ==> e < s.left == e + step && Asks(w, s.r.rdrf, s.waiting))
      && (0 < t.left == step && !t.tdre <==> s.waiting && e < s.left <= e + step)
  {
    hide Ticks, Start.At, Passed, Asks;
    var t := Ticks(c, line, e);
    RoundHolds(w, c, line, s, e, step);
    OneRound(w, s, e, step, 0 < t.left == step, !t.tdre, answer);
    assert [] + answer == answer && s.more + [] == s.more;
  }

  /** What the receiver's wiring and the transmitter's setup have in common. */
  predicate Agree(w: Wire, c: Config) {
    c.te == w.te && c.re == w.re && c.sync == w.sync && c.cycles == w.cycles > 0
  }

  /** An update that started at `s` with `line` has come `e` cycles far. */
  ghost predicate Reached(w: Wire, c: Config, line: Line, s: Start, e: nat, t: Line, r: Rx) {
    && Agree(w, c) && s.left == line.left && s.waiting == !line.tdre && (s.waiting ==> c.te && line.left > 0)
    && t == Ticks(c, line, e) && r == s.At(w, e) && (e == 0 || e >= s.first > 0)
    && (s.more != [] ==> w.device && 0 < s.left <= e && Asks(w, s.r.rdrf, s.waiting))
  }

  lemma ReachedStart(w: Wire, c: Config, line: Line, s: Start)
    requires Agree(w, c) && s.left == line.left && s.waiting == !line.tdre && (s.waiting ==> c.te && line.left > 0)
    requires s.more == []
    ensures Reached(w, c, line, s, 0, line, s.r)
  {
    hide Start.At;
    AtStart(w, s);
    TicksNone(c, line);
  }

  lemma ReachedRuns(w: Wire, c: Config, line: Line, s: Start, e: nat, t: Line, r: Rx)
    requires Reached(w, c, line, s, e, t, r)
    ensures w.cycles > 0 && (!t.tdre ==> w.te && t.left > 0)
  {
    hide Ticks, Start.At;
    WaitingRuns(c, line, e);
  }

  lemma ReachedNext(w: Wire, c: Config, line: Line, s: Start, e: nat, t: Line, r: Rx, step: nat, answer: seq<Byte>)
    requires Reached(w, c, line, s, e, t, r) && 0 < step && (e == 0 ==> step == s.first)
    requires (t.left == 0 || step <= t.left) && (r.left == 0 || step <= r.left)
    requires answer != [] ==> w.device && 0 < t.left == step && Asks(w, r.rdrf, !t.tdre)
    ensures Reached(w, c, line, s.(more := s.more + answer), e + step, Ticks(c, t, step),
      Passed(w, r, step, s.time + e + step, 0 < t.left == step, !t.tdre, answer))
    ensures 0 < t.left == step && !t.tdre <==> s.waiting && e < s.left <= e + step
  {
    hide Ticks, Start.At, Passed, Asks;
    TicksCompose(c, line, e, step);
    RoundStep(w, c, line, s, e, step, answer);
  }

  // ---------- what an update does to the receiver, outright ----------

  /** When in an update of `n` cycles an asynchronous character comes in, 0 for never: with a byte waiting at the
      device, as the last character ends, or else in the first round; with an answer of the device, once that is given
      too. */
  function Arrival(waiting: bool, answered: bool, rx: nat, tx: nat, n: nat): nat {
    if waiting then (if rx > 0 then rx else if 0 < tx < n then tx else n)
    else if answered then (if rx > tx then rx else tx)
    else 0
  }

  function Left(cycles: nat, n: nat): nat {
    if cycles <= n then 0 else cycles - n
  }

  /** The asynchronous receiver over `n` cycles: with RE, a device and RDRF clear, the device's next byte comes in as
      soon as the last character is over.  It sets RDRF, is in the data register, requests its interrupt and starts the
      counter; the device has one byte less.  Otherwise nothing is taken. */
  predicate TakesAsync(w: Wire, r: Rx, t: Rx, tx: nat, more: seq<Byte>, time: nat, n: nat) {
    var a := Arrival(r.intake.incoming != [], more != [], r.left, tx, n);
    && t.orer == r.orer
    && if w.re && w.device && !r.rdrf && 0 < a <= n then
        && t.rdrf && [t.intake.data] + t.intake.incoming == r.intake.incoming + more
        && t.intake.delayed == w.rie && t.left == Left(w.cycles, n - a)
        && t.intake.inbox.taken == r.intake.inbox.taken + [t.intake.data]
        && t.intake.inbox.fillers == r.intake.inbox.fillers
        && t.intake.inbox.receptions == r.intake.inbox.receptions + [Frame(t.intake.data, time + a, w.cycles)]
      else
        && t.rdrf == r.rdrf && t.intake.data == r.intake.data && t.intake.incoming == r.intake.incoming + more
        && !t.intake.delayed && t.left == Left(r.left, n) && t.intake.inbox == r.intake.inbox
  }

  /** The synchronous one: a character comes in with the waiting one that goes out, or alone with every character of
      the clock.  It is the device's byte, if there is one; with RDRF set already there is an overrun and nothing is
      taken. */
  predicate TakesSync(w: Wire, r: Rx, t: Rx, tx: nat, waiting: bool, more: seq<Byte>, n: nat) {
    && t.left == Left(r.left, n) && t.intake.inbox.receptions == r.intake.inbox.receptions
    && if w.re && 0 < tx <= n && (if w.te then waiting else w.device) then
        && t.rdrf && t.orer == (r.orer || r.rdrf || (!w.te && n >= tx + w.cycles))
        && t.intake.delayed == (!r.rdrf && w.rie)
        && t.intake.inbox.fillers == r.intake.inbox.fillers + (if r.rdrf || w.te then 0 else 1)
        && if !r.rdrf && w.device && r.intake.incoming + more != [] then
            && [t.intake.data] + t.intake.incoming == r.intake.incoming + more
            && t.intake.inbox.taken == r.intake.inbox.taken + [t.intake.data]
          else
            && t.intake.data == r.intake.data && t.intake.incoming == r.intake.incoming + more
            && t.intake.inbox.taken == r.intake.inbox.taken
      else
        && t.rdrf == r.rdrf && t.orer == r.orer && t.intake.data == r.intake.data
        && t.intake.incoming == r.intake.incoming + more && !t.intake.delayed && t.intake.inbox == r.intake.inbox
  }

  predicate Takes(w: Wire, r: Rx, t: Rx, tx: nat, waiting: bool, more: seq<Byte>, time: nat, n: nat) {
    if w.sync then TakesSync(w, r, t, tx, waiting, more, n) else TakesAsync(w, r, t, tx, more, time, n)
  }

  /** An asynchronous receiver leaves no byte at the device when it is free to take it. */
  lemma TakesAll(w: Wire, r: Rx, t: Rx, tx: nat, waiting: bool, more: seq<Byte>, time: nat, n: nat)
    requires Takes(w, r, t, tx, waiting, more, time, n) && !w.sync && w.re && w.device && n > 0
    requires more != [] ==> 0 < tx <= n
    ensures t.intake.incoming == [] || t.rdrf || t.left > 0
  {}

  lemma AsyncAfter(w: Wire, r: Rx, left: nat, waiting: bool, more: seq<Byte>, time: nat, n: nat)
    requires !w.sync && (more != [] ==> 0 < left <= n && Asks(w, r.rdrf, waiting)) && !r.intake.delayed
    ensures TakesAsync(w, r, Begun(r, left, waiting, more, time, n).At(w, n), left, more, time, n)
  {
    HearNothing(r.intake);
    var s := Begun(r, left, waiting, more, time, n);
    if s.Comes(w, n) {
      var h := s.Heard(w, n);
      assert h.incoming == [h.incoming[0]] + h.incoming[1..];
    }
  }

  lemma SyncAfter(w: Wire, r: Rx, left: nat, waiting: bool, more: seq<Byte>, time: nat, n: nat)
    requires w.sync && (more != [] ==> 0 < left <= n && Asks(w, r.rdrf, waiting)) && !r.intake.delayed
    ensures TakesSync(w, r, Begun(r, left, waiting, more, time, n).At(w, n), left, waiting, more, n)
  {
    HearNothing(r.intake);
    var h := r.intake.Hear(more);
    if h.incoming != [] { assert h.incoming == [h.incoming[0]] + h.incoming[1..]; }
  }

  /** The receiver with no interrupt delayed. */
  function Fresh(r: Rx): Rx {
    r.(intake := r.intake.(delayed := false))
  }

  lemma FreshKeeps(r: Rx)
    ensures var f := Fresh(r); f.rdrf == r.rdrf && f.left == r.left && f.intake == r.intake.(delayed := false)
  {}

  /** Neither depends on the interrupts delayed before. */
  lemma TakesFresh(w: Wire, r: Rx, t: Rx, tx: nat, waiting: bool, more: seq<Byte>, time: nat, n: nat)
    ensures var f := Fresh(r);
      && TakesAsync(w, f, t, tx, more, time, n) == TakesAsync(w, r, t, tx, more, time, n)
      && TakesSync(w, f, t, tx, waiting, more, n) == TakesSync(w, r, t, tx, waiting, more, n)
  {}

  lemma WholeFresh(i: Intake, offered: seq<Byte>)
    ensures Whole(i.(delayed := false), offered) == Whole(i, offered)
  {}

  // ---------- updating in between ----------

  /** The asynchronous receiver after an update of `n` cycles, with nothing waiting to be sent. */
  function Updated(w: Wire, r: Rx, tx: nat, time: nat, n: nat): Rx {
    Begun(r, tx, false, [], time, n).At(w, n)
  }

  /** A byte is at the device for a receiver that is free, and no character on the line ends within `m` cycles. */
  predicate Idle(w: Wire, r: Rx, tx: nat, m: nat) {
    w.re && w.device && !r.rdrf && r.left == 0 && r.intake.incoming != [] && (tx == 0 || tx > m)
  }

  /** Such a byte comes in when the update ends, however long that is. */
  lemma IdleTakes(w: Wire, r: Rx, tx: nat, time: nat, m: nat, n: nat)
    requires !w.sync && m > 0 && n > 0 && Idle(w, r, tx, m)
    ensures Updated(w, Updated(w, r, tx, time, m), Left(tx, m), time + m, n) != Updated(w, r, tx, time, m + n)
  {
    var once, twice := Updated(w, r, tx, time, m + n), Updated(w, r, tx, time, m);
    var f, b, before := First(0, tx, m + n), r.intake.incoming[0], r.intake.inbox.receptions;
    assert twice.intake.inbox.receptions == before + [Frame(b, time + m, w.cycles)];
    assert once.intake.inbox.receptions == before + [Frame(b, time + f, w.cycles)];
    assert f > m && once.intake.inbox.receptions[|before|].time == time + f;
  }

  lemma BusyTakes(w: Wire, r: Rx, tx: nat, time: nat, m: nat, n: nat)
    requires !w.sync && m > 0 && n > 0 && !Idle(w, r, tx, m)
    ensures Updated(w, Updated(w, r, tx, time, m), Left(tx, m), time + m, n) == Updated(w, r, tx, time, m + n)
  {
    hide Intake.Store;
  }

  /** For the receiver an update in between matters: it changes nothing if and only if no such byte waits. */
  lemma LooksMatter(w: Wire, r: Rx, tx: nat, time: nat, m: nat, n: nat)
    requires !w.sync && m > 0 && n > 0
    ensures Updated(w, Updated(w, r, tx, time, m), Left(tx, m), time + m, n) == Updated(w, r, tx, time, m + n)
      <==> !Idle(w, r, tx, m)
  {
    hide Updated, Idle;
    if Idle(w, r, tx, m) {
      IdleTakes(w, r, tx, time, m, n);
    } else {
      BusyTakes(w, r, tx, time, m, n);
    }
  }
}
