/** The serial port over whole runs: register writes, time, updates and looks, in any order. */
module SCIRuns {
  import opened SCITicks
  import opened SCIReceive
  import opened SCI

  // ---------- the transmit side between two events ----------

  /** What of a port matters to its transmitter.  The line is as of the last update, `lag` cycles ago. */
  datatype Port = Port(index: nat, mode: Byte, bitRate: Byte, control: Byte, data: Byte, cycles: nat, line: Line,
                       lag: nat) {
    function Setup(): Config {
      Config(index, TE(control), RE(control), CA(mode), TEIE(control), data, cycles)
    }

    /** The same port some cycles later, clocked one by one. */
    function Later(n: nat): Port {
      this.(line := Quiet(Ticks(Setup(), line, n)))
    }

    function CaughtUp(): Port {
      Later(lag).(lag := 0)
    }

    /** The characters sent, and the one waiting. */
    function Committed(): seq<Byte> {
      Sent(line.sends) + (if line.tdre then [] else [data])
    }

    ghost predicate Fine() {
      cycles > 0 && Sound(Setup(), line)
    }
  }

  ghost function View(s: Serial, clock: nat): Port
    requires s.lastUpdateCycle <= clock
    reads s
  {
    Port(s.index, s.mode, s.bitRate, s.control, s.txData, s.cyclesPerChar,
         Line(s.lastUpdateCycle, TDRE(s.status), TEND(s.status), s.txCycles, s.sends, []), clock - s.lastUpdateCycle)
  }

  /** The write hands a character over. */
  predicate Hands(p: Port, addr: int, val: Byte) {
    addr == 4 && p.line.tdre && !TDRE(val) && TE(p.control)
  }

  /** The write takes the waiting character back. */
  predicate Withdraws(p: Port, addr: int, val: Byte) {
    addr == 2 && !p.line.tdre && !TE(val)
  }

  /** The write changes the waiting character. */
  predicate Replaces(p: Port, addr: int) {
    addr == 3 && !p.line.tdre
  }

  /** A register write, as of the last update. */
  function Put(p: Port, addr: int, val: Byte): Port {
    if addr == 0 then p.(mode := val, cycles := CharBits(val) * BitCycles(val, p.bitRate))
    else if addr == 1 then p.(bitRate := val, cycles := CharBits(p.mode) * BitCycles(p.mode, val))
    else if addr == 2 then
      var left := if StartsClock(p.control, val, CA(p.mode), p.line.left) then p.cycles else p.line.left;
      p.(control := val,
         line := if TE(val) then p.line.(left := left) else p.line.(left := left, tdre := true, tend := true))
    else if addr == 3 then p.(data := val)
    else if !Hands(p, addr, val) then p
    else if p.line.left > 0 then p.(line := p.line.(tdre := false, tend := false))
    else
      var f := Frame(p.data, p.line.time, p.cycles);
      p.(line := p.line.(tend := false, left := p.cycles, sends := p.line.sends + [f]))
  }

  // ---------- runs ----------

  /** What happens to a port: a write by the program, which updates it first; one by a transfer channel, which does not;
      time; a register read, which updates; the look between two instructions; and bytes reaching the device. */
  datatype Op = Write(addr: int, val: Byte) | Transfer(addr: int, val: Byte) | Wait(cycles: nat) | Read | Look |
    Arrive(bytes: seq<Byte>)

  predicate Follows(p: Port, op: Op, q: Port) {
    match op
    case Write(addr, val) => q == Put(p.CaughtUp(), addr, val)
    case Transfer(addr, val) => q == Put(p, addr, val)
    case Wait(n) => q == p.(lag := p.lag + n)
    case Read => q == p.CaughtUp()
    case Arrive(_) => q == p
    case Look => q == p.CaughtUp() || (q == p && (Enabled(p.control) ==> p.line.left == 0 || p.lag < p.line.left))
  }

  predicate IsRun(ports: seq<Port>, ops: seq<Op>) {
    |ports| == |ops| + 1 && forall k :: 0 <= k < |ops| ==> Follows(ports[k], ops[k], ports[k + 1])
  }

  // ---------- the receive side ----------

  /** What an event adds to the receiver: what was taken and received stays, and the asynchronous characters received
      with the bytes still at the device are those of before with `more`. */
  predicate Adds(async: bool, i: Intake, j: Intake, more: seq<Byte>) {
    && i.inbox.taken <= j.inbox.taken && i.inbox.receptions <= j.inbox.receptions
    && (async ==> Sent(j.inbox.receptions) + j.incoming == Sent(i.inbox.receptions) + i.incoming + more)
  }

  lemma AddsNone(async: bool, i: Intake)
    ensures Adds(async, i, i, [])
  {
    assert Sent(i.inbox.receptions) + i.incoming + [] == Sent(i.inbox.receptions) + i.incoming;
  }

  lemma AddsHeard(async: bool, i: Intake, more: seq<Byte>)
    ensures Adds(async, i, i.Hear(more), more)
  {
    assert Sent(i.inbox.receptions) + (i.incoming + more) == Sent(i.inbox.receptions) + i.incoming + more;
  }

  lemma AddsTwice(async: bool, i: Intake, j: Intake, k: Intake, m: seq<Byte>, n: seq<Byte>)
    requires Adds(async, i, j, m) && Adds(async, j, k, n)
    ensures Adds(async, i, k, m + n)
  {
    hide Sent;
    var x := Sent(i.inbox.receptions) + i.incoming;
    assert x + m + n == x + (m + n);
  }

  lemma TakesAdds(w: Wire, r: Rx, t: Rx, tx: nat, waiting: bool, more: seq<Byte>, time: nat, n: nat)
    requires Takes(w, r, t, tx, waiting, more, time, n)
    ensures Adds(!w.sync, r.intake, t.intake, more)
  {
    hide Sent, Left, Arrival;
    var i, j := r.intake, t.intake;
    if !w.sync {
      if j.inbox == i.inbox {
        assert Sent(i.inbox.receptions) + (i.incoming + more) == Sent(i.inbox.receptions) + i.incoming + more;
      } else {
        var f := j.inbox.receptions[|j.inbox.receptions| - 1];
        SentPush(i.inbox.receptions, f);
        assert Sent(i.inbox.receptions) + [f.data] + j.incoming == Sent(i.inbox.receptions) + ([f.data] + j.incoming);
        assert Sent(i.inbox.receptions) + (i.incoming + more) == Sent(i.inbox.receptions) + i.incoming + more;
      }
    }
  }

  lemma SendingAdds(i: Intake, w: Wire, rdrf: bool, more: seq<Byte>, time: nat)
    ensures Adds(!w.sync, i, Sending(i, w, rdrf, more, time), more)
  {
    hide Sent;
    AddsHeard(!w.sync, i, more);
  }

  /** One event at a port does to its view what it should; `said` is what the device answers in it. */
  method Happens(port: Serial, cpu: H8CPU, op: Op) returns (ghost said: seq<Byte>)
    requires port.Valid() && port.lastUpdateCycle <= cpu.clock
    modifies port, cpu
    ensures port.Valid() && port.lastUpdateCycle <= cpu.clock
    ensures Follows(old(View(port, cpu.clock)), op, View(port, cpu.clock))
    ensures port.offered == old(port.offered) + Given(op, said)
    ensures Adds(!CA(old(port.mode)), old(port.Taken()), port.Taken(), Given(op, said))
  {
    hide Serial.Valid, Serial.ValidFor, Serial.Taken, Put, Port.CaughtUp, TDRE, TEND, Adds, CA;
    said := [];
    match op
    case Write(addr, val) =>
      said := UpdatePort(port, cpu);
      ghost var i := port.Taken();
      ghost var more := WritePort(port, cpu, addr, val);
      AddsTwice(!CA(old(port.mode)), old(port.Taken()), i, port.Taken(), said, more);
      said := said + more;
    case Transfer(addr, val) => said := WritePort(port, cpu, addr, val);
    case Wait(n) =>
      AddsNone(!CA(port.mode), port.Taken());
      cpu.clock := cpu.clock + n;
    case Read => said := UpdatePort(port, cpu);
    case Look => said := LookAt(port, cpu);
    case Arrive(bytes) =>
      AddsHeard(!CA(port.mode), port.Taken(), bytes);
      port.Arrive(bytes);
  }

  /** The bytes the device gets in an event: those that reach it, or its own answers. */
  function Given(op: Op, said: seq<Byte>): seq<Byte> {
    if op.Arrive? then op.bytes else said
  }

  lemma ViewParts(port: Serial, clock: nat)
    requires port.lastUpdateCycle <= clock
    ensures var v := View(port, clock);
      && v == Port(port.index, port.mode, port.bitRate, port.control, port.txData, port.cyclesPerChar,
                   port.LineAt(port.lastUpdateCycle, []), clock - port.lastUpdateCycle)
      && v.Setup() == port.Setup()
  {}

  method UpdatePort(port: Serial, cpu: H8CPU) returns (ghost more: seq<Byte>)
    requires port.Valid() && port.lastUpdateCycle <= cpu.clock
    modifies port, cpu
    ensures port.Valid() && port.lastUpdateCycle == cpu.clock
    ensures View(port, cpu.clock) == old(View(port, cpu.clock)).CaughtUp()
    ensures cpu.clock == old(cpu.clock) && port.mode == old(port.mode) && port.offered == old(port.offered) + more
    ensures Adds(!CA(port.mode), old(port.Taken()), port.Taken(), more)
  {
    hide Serial.Valid, Serial.ValidFor, Ticks, Adds, Takes, EndShows, Delayed, Asks, Others;
    hide TDRE, TEND, TE, RE, CA, TEIE;
    hide Serial.LineAt, Serial.Setup, Serial.Receiver, Serial.Wiring, Serial.Taken, Serial.Due, View;
    ghost var raised := cpu.requests + Delayed(port.index, port.delayedTX, port.delayedRX);
    ghost var line := port.LineAt(port.lastUpdateCycle, raised);
    ViewParts(port, cpu.clock);
    port.Seen(port.lastUpdateCycle, raised);
    port.SeenReceiver();
    TicksQuiet(port.Setup(), line, cpu.clock - port.lastUpdateCycle);
    more := port.Update(cpu);
    ViewParts(port, cpu.clock);
    port.Seen(port.lastUpdateCycle, cpu.requests);
    port.SeenReceiver();
    port.SeenSetup();
    TakesAdds(port.Wiring(), old(port.Receiver()), port.Receiver(), old(port.txCycles), !TDRE(old(port.status)), more,
              old(port.lastUpdateCycle), cpu.clock - old(port.lastUpdateCycle));
  }

  method LookAt(port: Serial, cpu: H8CPU) returns (ghost more: seq<Byte>)
    requires port.Valid() && port.lastUpdateCycle <= cpu.clock
    modifies port, cpu
    ensures port.Valid() && port.lastUpdateCycle <= cpu.clock && cpu.clock == old(cpu.clock)
    ensures Follows(old(View(port, cpu.clock)), Look, View(port, cpu.clock))
    ensures port.offered == old(port.offered) + more
    ensures Adds(!CA(old(port.mode)), old(port.Taken()), port.Taken(), more)
  {
    hide Serial.Valid, Serial.ValidFor, Ticks, TDRE, TEND, TE, RE, CA, TEIE, Enabled, Adds, Takes;
    AddsNone(!CA(port.mode), port.Taken());
    more := port.UpdateForInterrupts(cpu);
    if Enabled(port.control) && old(port.nextUpdateCycle) <= cpu.clock {
      TakesAdds(port.Wiring(), old(port.Receiver()), port.Receiver(), old(port.txCycles), !TDRE(old(port.status)), more,
                old(port.lastUpdateCycle), cpu.clock - old(port.lastUpdateCycle));
    }
  }

  method WritePort(port: Serial, cpu: H8CPU, addr: int, val: Byte) returns (ghost more: seq<Byte>)
    requires port.Valid() && port.lastUpdateCycle <= cpu.clock
    modifies port, cpu
    ensures port.Valid() && port.lastUpdateCycle == old(port.lastUpdateCycle)
    ensures cpu.clock == old(cpu.clock) && View(port, cpu.clock) == Put(old(View(port, cpu.clock)), addr, val)
    ensures port.offered == old(port.offered) + more
    ensures Adds(!CA(old(port.mode)), old(port.Taken()), port.Taken(), more)
  {
    hide Serial.Valid, Serial.ValidFor, TDRE, TEND, TE, RE, CA, TEIE, CharBits, BitCycles, Settled, Written, Began;
    hide StartsClock, Enabling, ClearTEND, Loaded, Emptied, SetTEND, Adds, Sending, Serial.Taken;
    hide Serial.Wiring, Serial.Setup;
    hide Books.Accept, Books.Drop, Books.Replace, RDRF, TIE;
    var began := Began(Written(port.status, val), port.txCycles == 0, CA(port.mode) && RE(port.control));
    port.ValidSettled();
    SettledBits(port.status, val);
    SettledBits(port.status, port.control);
    SettledWrite(port.status, val, port.control);
    BeganBits(Written(port.status, val), port.txCycles == 0, CA(port.mode) && RE(port.control));
    SettledBits(began, port.control);
    AddsNone(!CA(port.mode), port.Taken());
    more := port.SetReg(addr, val, cpu);
    port.SeenSetup();
    SendingAdds(old(port.Taken()), port.Wiring(), RDRF(Written(old(port.status), val)), more, port.lastUpdateCycle);
  }

  // ---------- every run is one of the port clocked cycle by cycle ----------

  /** The event happens at once, to a port that is never behind. */
  function Instantly(p: Port, op: Op): Port {
    match op
    case Write(addr, val) => Put(p, addr, val)
    case Transfer(addr, val) => Put(p, addr, val)
    case Wait(n) => p.Later(n)
    case Read => p
    case Look => p
    case Arrive(_) => p
  }

  function Clocked(p: Port, ops: seq<Op>, k: nat): Port
    requires k <= |ops|
  {
    if k == 0 then p else Instantly(Clocked(p, ops, k - 1), ops[k - 1])
  }

  lemma LaterTwice(p: Port, m: nat, n: nat)
    ensures p.Later(m).Later(n) == p.Later(m + n)
  {
    hide Ticks;
    TicksCompose(p.Setup(), p.line, m, n);
    TicksQuiet(p.Setup(), Ticks(p.Setup(), p.line, m), n);
  }

  lemma LaterNone(p: Port)
    requires p.line.requests == []
    ensures p.Later(0) == p
  {
    TicksNone(p.Setup(), p.line);
  }

  lemma PutQuiet(p: Port, addr: int, val: Byte)
    ensures Put(p, addr, val).line.requests == p.line.requests && Put(p, addr, val).lag == p.lag
  {}

  lemma CaughtUpPrompt(p: Port)
    requires p.lag == 0
    ensures p.CaughtUp() == p.(line := Quiet(p.line))
  {
    TicksNone(p.Setup(), p.line);
  }

  lemma PutPrompt(p: Port, addr: int, val: Byte)
    ensures Put(p, addr, val).(line := Quiet(Put(p, addr, val).line)) == Put(p.(line := Quiet(p.line)), addr, val)
  {
    hide CharBits, BitCycles, StartsClock, TE, RE, CA, TDRE;
  }

  lemma FollowsInstantly(p: Port, op: Op, q: Port)
    requires Follows(p, op, q) && (op.Transfer? ==> p.lag == 0)
    ensures q.CaughtUp() == Instantly(p.CaughtUp(), op)
  {
    hide Put, Ticks;
    var c := p.CaughtUp();
    LaterNone(c);
    match op
    case Write(addr, val) =>
      PutQuiet(c, addr, val);
      LaterNone(q);
    case Transfer(addr, val) =>
      PutQuiet(p, addr, val);
      CaughtUpPrompt(p);
      CaughtUpPrompt(q);
      PutPrompt(p, addr, val);
    case Wait(n) => LaterTwice(p, p.lag, n);
    case Read =>
    case Look =>
    case Arrive(_) =>
  }

  /** Transfer channels only come right after an update. */
  predicate Prompt(ports: seq<Port>, ops: seq<Op>)
    requires |ops| < |ports|
  {
    forall k :: 0 <= k < |ops| && ops[k].Transfer? ==> ports[k].lag == 0
  }

  /** However the time is cut by updates and looks, the port is where a port clocked every cycle would be. */
  lemma {:induction false} RunClocked(ports: seq<Port>, ops: seq<Op>, k: nat)
    requires IsRun(ports, ops) && k <= |ops| && Prompt(ports, ops)
    ensures ports[k].CaughtUp() == Clocked(ports[0].CaughtUp(), ops, k)
  {
    hide Follows, Instantly, Port.CaughtUp;
    if k > 0 {
      RunClocked(ports, ops, k - 1);
      FollowsInstantly(ports[k - 1], ops[k - 1], ports[k]);
    }
  }

  // ---------- what is handed over is sent ----------

  /** The port a write finds. */
  function Found(p: Port, op: Op): Port {
    if op.Write? then p.CaughtUp() else p
  }

  function Handed(p: Port, op: Op): seq<Byte> {
    if (op.Write? || op.Transfer?) && Hands(Found(p, op), op.addr, op.val) then [p.data] else []
  }

  function Taken(p: Port, op: Op): nat {
    if (op.Write? || op.Transfer?) && Withdraws(Found(p, op), op.addr, op.val) then 1 else 0
  }

  /** All but the last. */
  function Front(s: seq<Byte>): seq<Byte> {
    if s == [] then [] else s[..|s| - 1]
  }

  /** What a write does to the characters committed: it adds one, takes the last one back or replaces it. */
  function Entry(acc: seq<Byte>, p: Port, addr: int, val: Byte): seq<Byte> {
    if Hands(p, addr, val) then acc + [p.data]
    else if Withdraws(p, addr, val) then Front(acc)
    else if Replaces(p, addr) then Front(acc) + [val]
    else acc
  }

  /** The account of the first `k` events, starting from `acc`. */
  function Ledger(acc: seq<Byte>, ports: seq<Port>, ops: seq<Op>, k: nat): seq<Byte>
    requires k <= |ops| < |ports|
  {
    if k == 0 then acc else
      var before, op := Ledger(acc, ports, ops, k - 1), ops[k - 1];
      if op.Write? || op.Transfer? then Entry(before, Found(ports[k - 1], op), op.addr, op.val) else before
  }

  /** The characters handed over by the first `k` events. */
  function HandedOver(ports: seq<Port>, ops: seq<Op>, k: nat): seq<Byte>
    requires k <= |ops| < |ports|
  {
    if k == 0 then [] else HandedOver(ports, ops, k - 1) + Handed(ports[k - 1], ops[k - 1])
  }

  function Withdrawn(ports: seq<Port>, ops: seq<Op>, k: nat): nat
    requires k <= |ops| < |ports|
  {
    if k == 0 then 0 else Withdrawn(ports, ops, k - 1) + Taken(ports[k - 1], ops[k - 1])
  }

  /** Every write to SCR leaves the transmitter on. */
  predicate StaysOn(ops: seq<Op>) {
    forall op :: op in ops && (op.Write? || op.Transfer?) && op.addr == 2 ==> TE(op.val)
  }

  /** TDR is only written when no character is waiting there. */
  predicate Patient(ports: seq<Port>, ops: seq<Op>)
    requires |ops| < |ports|
  {
    forall k :: 0 <= k < |ops| && (ops[k].Write? || ops[k].Transfer?) ==>
      !Replaces(Found(ports[k], ops[k]), ops[k].addr)
  }

  lemma LaterDelivers(p: Port, n: nat)
    requires p.Fine()
    ensures p.Later(n).Fine() && p.line.sends <= p.Later(n).line.sends
    ensures p.Later(n).Committed() == p.Committed()
  {
    hide Ticks, Sent, Apart;
    var c, t := p.Setup(), Ticks(p.Setup(), p.line, n);
    TicksSound(c, p.line, n);
    SoundWaiting(c, t, Quiet(t));
    SentWhenDue(c, p.line, n);
    SentPush(p.line.sends, Frame(c.data, p.line.time + p.line.left, c.cycles));
  }

  lemma SentPush(s: seq<Frame>, f: Frame)
    ensures Sent(s + [f]) == Sent(s) + [f.data]
  {}

  lemma CyclesPositive(mode: Byte, bitRate: Byte)
    ensures CharBits(mode) * BitCycles(mode, bitRate) > 0
  {
    PositiveProduct(CharBits(mode), BitCycles(mode, bitRate));
  }

  lemma PutFine(p: Port, addr: int, val: Byte)
    requires p.Fine()
    ensures Put(p, addr, val).Fine() && p.line.sends <= Put(p, addr, val).line.sends
  {
    hide Sound, CharBits, BitCycles, TE, RE, CA, TEIE, TDRE;
    var q := Put(p, addr, val);
    CyclesPositive(q.mode, q.bitRate);
    if addr == 2 && !TE(val) {
      OffSound(p.Setup(), q.Setup(), p.line, q.line.left);
    } else if Hands(p, addr, val) {
      if p.line.left > 0 {
        AcceptSound(p.Setup(), p.line);
      } else {
        SendSound(p.Setup(), p.line, Frame(p.data, p.line.time, p.cycles));
      }
    } else {
      SoundLeft(p.Setup(), q.Setup(), p.line, q.line.left);
    }
  }

  /** A transmitter that stays on or is switched on; a clock that is started earlier ends no later. */
  lemma SoundLeft(c: Config, d: Config, s: Line, left: nat)
    requires Sound(c, s) && (d.te || !c.te) && s.left <= left
    ensures Sound(d, s.(left := left))
  {}

  lemma PutDelivers(p: Port, addr: int, val: Byte)
    requires p.Fine()
    ensures |Put(p, addr, val).Committed()| + (if Withdraws(p, addr, val) then 1 else 0)
      == |p.Committed()| + (if Hands(p, addr, val) then 1 else 0)
    ensures Put(p, addr, val).Committed() == Entry(p.Committed(), p, addr, val)
  {
    hide Sound, CharBits, BitCycles, StartsClock, TE, RE, CA, TEIE, TDRE, Sent;
    SentPush(p.line.sends, Frame(p.data, p.line.time, p.cycles));
  }

  lemma FollowsDelivers(p: Port, op: Op, q: Port)
    requires Follows(p, op, q) && p.Fine()
    ensures q.Fine() && p.line.sends <= q.line.sends
    ensures |q.Committed()| + Taken(p, op) == |p.Committed()| + |Handed(p, op)|
    ensures q.Committed() == if op.Write? || op.Transfer?
      then Entry(p.Committed(), Found(p, op), op.addr, op.val) else p.Committed()
  {
    hide Entry, Put, Sound, Ticks, Sent, Hands, Withdraws, Replaces;
    LaterDelivers(p, p.lag);
    if op.Write? || op.Transfer? {
      PutFine(Found(p, op), op.addr, op.val);
      PutDelivers(Found(p, op), op.addr, op.val);
    }
  }

  /** Nothing is lost and nothing is sent twice: what has been sent or is waiting is what the account of the writes
      says, as many characters as were there before and handed over since, less those withdrawn; what has been sent
      stays; frames never overlap. */
  lemma {:induction false} RunDelivers(ports: seq<Port>, ops: seq<Op>, k: nat)
    requires IsRun(ports, ops) && k <= |ops| && ports[0].Fine()
    ensures ports[k].Fine() && ports[0].line.sends <= ports[k].line.sends
    ensures ports[k].Committed() == Ledger(ports[0].Committed(), ports, ops, k)
    ensures |ports[k].Committed()| + Withdrawn(ports, ops, k) == |ports[0].Committed()| + |HandedOver(ports, ops, k)|
  {
    hide Follows, Port.Committed, Port.Fine, Handed, Taken, Entry, Found;
    if k > 0 {
      RunDelivers(ports, ops, k - 1);
      FollowsDelivers(ports[k - 1], ops[k - 1], ports[k]);
    }
  }

  lemma {:induction false} NothingWithdrawn(ports: seq<Port>, ops: seq<Op>, k: nat)
    requires k <= |ops| < |ports| && StaysOn(ops)
    ensures Withdrawn(ports, ops, k) == 0
  {
    hide Found;
    if k > 0 {
      NothingWithdrawn(ports, ops, k - 1);
    }
  }

  /** An account without withdrawals and replacements. */
  lemma {:induction false} LedgerAdds(acc: seq<Byte>, ports: seq<Port>, ops: seq<Op>, k: nat)
    requires k <= |ops| < |ports| && StaysOn(ops) && Patient(ports, ops)
    ensures Ledger(acc, ports, ops, k) == acc + HandedOver(ports, ops, k)
  {
    hide Found, Front, Hands;
    if k > 0 {
      LedgerAdds(acc, ports, ops, k - 1);
      FoundData(ports[k - 1], ops[k - 1]);
      assert ops[k - 1] in ops;
    }
  }

  lemma FoundData(p: Port, op: Op)
    ensures Found(p, op).data == p.data
  {}

  /** With the transmitter left on, the characters on the line are those handed over, in order. */
  lemma RunExact(ports: seq<Port>, ops: seq<Op>, k: nat)
    requires IsRun(ports, ops) && k <= |ops| && ports[0].Fine() && StaysOn(ops) && Patient(ports, ops)
    ensures ports[k].Committed() == ports[0].Committed() + HandedOver(ports, ops, k)
  {
    hide Port.Committed, Port.Fine, Ledger, HandedOver, Withdrawn, StaysOn, Patient;
    RunDelivers(ports, ops, k);
    LedgerAdds(ports[0].Committed(), ports, ops, k);
  }

  /** A waiting character is not kept waiting: when the one on the line has ended, everything handed over is sent. */
  lemma LaterSends(p: Port, n: nat)
    requires p.Fine() && n >= p.line.left
    ensures p.Later(n).line.tdre && Sent(p.Later(n).line.sends) == p.Committed()
  {
    hide Ticks, Sent, Apart;
    SentWhenDue(p.Setup(), p.line, n);
    SentPush(p.line.sends, Frame(p.data, p.line.time + p.line.left, p.cycles));
  }

  /** With an interrupt enabled, what a look leaves is not behind with sending. */
  lemma LookSees(p: Port, q: Port)
    requires Follows(p, Look, q) && Enabled(p.control)
    ensures q.line.sends == q.CaughtUp().line.sends && q.line.tdre == q.CaughtUp().line.tdre
  {
    hide Ticks, Enabled;
    if q == p && p.lag > 0 && (p.line.left == 0 || p.lag < p.line.left) {
      QuietTicks(p.Setup(), p.line, p.lag);
    } else if q == p.CaughtUp() {
      TicksNone(q.Setup(), q.line);
    } else {
      TicksNone(p.Setup(), p.line);
    }
  }

  // ---------- the port itself ----------

  lemma ValidFine(port: Serial, clock: nat)
    requires port.Valid() && port.lastUpdateCycle <= clock
    ensures View(port, clock).Fine()
  {}

  /** The bytes the device gets in the first `k` events. */
  function Heard(ops: seq<Op>, said: seq<seq<Byte>>, k: nat): seq<Byte>
    requires k <= |ops| && k <= |said|
  {
    if k == 0 then [] else Heard(ops, said, k - 1) + Given(ops[k - 1], said[k - 1])
  }

  lemma {:induction false} HeardSame(ops: seq<Op>, said: seq<seq<Byte>>, next: seq<Byte>, k: nat)
    requires k <= |ops| && k <= |said|
    ensures Heard(ops, said + [next], k) == Heard(ops, said, k)
  {
    if k > 0 {
      HeardSame(ops, said, next, k - 1);
    }
  }

  /** The port is asynchronous and is left so. */
  predicate StaysAsync(mode: Byte, ops: seq<Op>) {
    !CA(mode) && forall op :: op in ops && (op.Write? || op.Transfer?) && op.addr == 0 ==> !CA(op.val)
  }

  lemma FollowsMode(p: Port, op: Op, q: Port)
    requires Follows(p, op, q)
    ensures q.mode == if (op.Write? || op.Transfer?) && op.addr == 0 then op.val else p.mode
  {
    hide Ticks, Enabled, CharBits, BitCycles, StartsClock, TE, CA, TDRE;
  }

  /** One more event. */
  method RunOne(port: Serial, cpu: H8CPU, ops: seq<Op>, k: nat, ghost mode: Byte, ghost start: Intake,
                ghost said: seq<seq<Byte>>)
    returns (ghost next: seq<Byte>)
    requires port.Valid() && port.lastUpdateCycle <= cpu.clock && k < |ops| && |said| == k
    requires StaysAsync(mode, ops) ==> !CA(port.mode)
    requires Adds(StaysAsync(mode, ops), start, port.Taken(), Heard(ops, said, k))
    modifies port, cpu
    ensures port.Valid() && port.lastUpdateCycle <= cpu.clock
    ensures Follows(old(View(port, cpu.clock)), ops[k], View(port, cpu.clock))
    ensures StaysAsync(mode, ops) ==> !CA(port.mode)
    ensures port.offered == old(port.offered) + Given(ops[k], next)
    ensures Adds(StaysAsync(mode, ops), start, port.Taken(), Heard(ops, said + [next], k + 1))
  {
    hide Serial.Valid, Serial.ValidFor, Serial.Taken, Follows, Adds, CA, Given;
    ghost var i, p, async := port.Taken(), View(port, cpu.clock), StaysAsync(mode, ops);
    assert ops[k] in ops;
    next := Happens(port, cpu, ops[k]);
    FollowsMode(p, ops[k], View(port, cpu.clock));
    HeardSame(ops, said, next, k);
    AddsLess(!CA(old(port.mode)), async, i, port.Taken(), Given(ops[k], next));
    AddsTwice(async, start, i, port.Taken(), Heard(ops, said, k), Given(ops[k], next));
  }

  lemma AddsLess(async: bool, less: bool, i: Intake, j: Intake, more: seq<Byte>)
    requires Adds(async, i, j, more) && (less ==> async)
    ensures Adds(less, i, j, more)
  {}

  /** Any run of events at a port.  Whatever happens to it happens to its view, one event after the other; so it is in
      the end where a port clocked every cycle would be, and has sent what was handed over.  The bytes of the device are
      read once each, in the order they came; the characters of an asynchronous receiver are those bytes, and lie at
      least a character apart. */
  method Run(port: Serial, cpu: H8CPU, ops: seq<Op>) returns (ghost ports: seq<Port>, ghost said: seq<seq<Byte>>)
    requires port.Valid() && port.lastUpdateCycle <= cpu.clock
    modifies port, cpu
    ensures port.Valid() && port.lastUpdateCycle <= cpu.clock && IsRun(ports, ops)
    ensures ports[0] == old(View(port, cpu.clock)) && ports[|ops|] == View(port, cpu.clock)
    ensures Prompt(ports, ops) ==>
      View(port, cpu.clock).CaughtUp() == Clocked(old(View(port, cpu.clock)).CaughtUp(), ops, |ops|)
    ensures View(port, cpu.clock).Committed() == Ledger(old(View(port, cpu.clock)).Committed(), ports, ops, |ops|)
    ensures StaysOn(ops) && Patient(ports, ops) ==>
      View(port, cpu.clock).Committed() == old(View(port, cpu.clock)).Committed() + HandedOver(ports, ops, |ops|)
    // the receiver
    ensures |said| == |ops| && port.offered == old(port.offered) + Heard(ops, said, |ops|)
    ensures port.inbox.taken + port.incoming == port.offered && old(port.inbox.taken) <= port.inbox.taken
    ensures old(port.inbox.receptions) <= port.inbox.receptions && Apart(port.inbox.receptions)
    ensures StaysAsync(old(port.mode), ops) ==>
      Sent(port.inbox.receptions) + port.incoming ==
        Sent(old(port.inbox.receptions)) + old(port.incoming) + Heard(ops, said, |ops|)
  {
    hide View, Follows, Serial.Valid, Serial.ValidFor, Port.Fine, Port.Committed, Port.CaughtUp, Adds, CA;
    hide StaysOn, Patient, Prompt, Clocked, HandedOver, Ledger, StaysAsync, Given, Apart, Sent;
    ValidFine(port, cpu.clock);
    ports, said := [View(port, cpu.clock)], [];
    ghost var start, async := port.Taken(), StaysAsync(port.mode, ops);
    AddsNone(async, start);
    AsyncNow(port.mode, ops);
    for k := 0 to |ops|
      invariant port.Valid() && port.lastUpdateCycle <= cpu.clock && |ports| == k + 1 && |said| == k
      invariant ports[0] == old(View(port, cpu.clock)) && ports[k] == View(port, cpu.clock)
      invariant forall j :: 0 <= j < k ==> Follows(ports[j], ops[j], ports[j + 1])
      invariant async ==> !CA(port.mode)
      invariant port.offered == old(port.offered) + Heard(ops, said, k)
      invariant Adds(async, start, port.Taken(), Heard(ops, said, k))
    {
      ghost var next := RunOne(port, cpu, ops, k, old(port.mode), start, said);
      HeardSame(ops, said, next, k);
      ports, said := ports + [View(port, cpu.clock)], said + [next];
    }
    if Prompt(ports, ops) {
      RunClocked(ports, ops, |ops|);
    }
    RunDelivers(ports, ops, |ops|);
    if StaysOn(ops) && Patient(ports, ops) {
      RunExact(ports, ops, |ops|);
    }
    Received(port, start, async, Heard(ops, said, |ops|));
  }

  lemma AsyncNow(mode: Byte, ops: seq<Op>)
    ensures StaysAsync(mode, ops) ==> !CA(mode)
  {}

  lemma Received(port: Serial, start: Intake, async: bool, more: seq<Byte>)
    requires port.Valid() && Adds(async, start, port.Taken(), more)
    ensures port.inbox.taken + port.incoming == port.offered && start.inbox.taken <= port.inbox.taken
    ensures start.inbox.receptions <= port.inbox.receptions && Apart(port.inbox.receptions)
    ensures async ==>
      Sent(port.inbox.receptions) + port.incoming == Sent(start.inbox.receptions) + start.incoming + more
  {
    hide Sent, Apart, InTime, Sound, Books.Conserves;
  }
}
