/** A serial port: a state machine paced by the CPU clock, driven by register writes and updates. */
module SCI {
  import opened SCIReceive
  import opened SCITicks

  /** The parts of the CPU a port touches. */
  class H8CPU {
    var clock: nat
    ghost var requests: seq<Source>

    method Interrupt(source: Source)
      modifies this`requests
      ensures requests == old(requests) + [source]
    {
      requests := requests + [source];
    }
  }

  // the register bits the port looks at
  predicate CA(mode: Byte) { mode.b7 }
  predicate CHR(mode: Byte) { mode.b6 }
  predicate PE(mode: Byte) { mode.b5 }
  predicate STOP(mode: Byte) { mode.b3 }
  predicate MP(mode: Byte) { mode.b2 }
  predicate TIE(control: Byte) { control.b7 }
  predicate RIE(control: Byte) { control.b6 }
  predicate TE(control: Byte) { control.b5 }
  predicate RE(control: Byte) { control.b4 }
  predicate MPIE(control: Byte) { control.b3 }
  predicate TEIE(control: Byte) { control.b2 }
  predicate TDRE(status: Byte) { status.b7 }
  predicate RDRF(status: Byte) { status.b6 }
  predicate ORER(status: Byte) { status.b5 }
  predicate TEND(status: Byte) { status.b2 }

  function SetORER(status: Byte): Byte {
    status.(b5 := true)
  }

  function SetTEND(status: Byte): Byte {
    status.(b2 := true)
  }

  function ClearTEND(status: Byte): Byte {
    status.(b2 := false)
  }

  /** A write to the status register only clears its top five bits and leaves the next two alone. */
  function Written(status: Byte, val: Byte): Byte {
    Byte(val.b7 && status.b7, val.b6 && status.b6, val.b5 && status.b5, val.b4 && status.b4, val.b3 && status.b3,
         status.b2, status.b1, val.b0)
  }

  lemma BeganBits(s: Byte, idle: bool, exchange: bool)
    ensures var b, c := Began(s, idle, exchange), ClearTEND(s);
      && b == (if idle then Loaded(c, exchange) else c)
      && TDRE(c) == TDRE(s) && RDRF(c) == RDRF(s) && !TEND(c)
      && TDRE(b) == (idle || TDRE(s)) && !TEND(b)
  {}

  /** Without a transmitter the two transmit flags show. */
  function Settled(control: Byte, status: Byte): Byte {
    if TE(control) then status else SetTEND(Emptied(status))
  }

  lemma SettledFlags(s: Byte, control: Byte)
    ensures var t := Settled(control, s);
      && TDRE(t) == (!TE(control) || TDRE(s)) && TEND(t) == (!TE(control) || TEND(s)) && RDRF(t) == RDRF(s)
  {}

  lemma AlreadySettled(s: Byte, control: Byte)
    requires TE(control) || (TDRE(s) && TEND(s))
    ensures Settled(control, s) == s
  {}

  /** The status after a character was handed over: on an idle line it goes out at once, and in synchronous mode one
      comes in with it. */
  function Began(status: Byte, idle: bool, exchange: bool): Byte {
    if idle then Loaded(ClearTEND(status), exchange) else ClearTEND(status)
  }

  /** What a write to the status register leaves, and what of it shows. */
  lemma SettledWrite(s: Byte, val: Byte, control: Byte)
    ensures var w := Written(s, val); var t := Settled(control, w);
      && TDRE(w) == (TDRE(s) && TDRE(val)) && TEND(w) == TEND(s)
      && TDRE(t) == (!TE(control) || TDRE(w)) && TEND(t) == (!TE(control) || TEND(s))
      && RDRF(t) == RDRF(w) == (RDRF(s) && RDRF(val)) && (TE(control) ==> t == w)
  {}

  lemma SettledBits(s: Byte, control: Byte)
    ensures Settled(control, s) == if TE(control) then s else SetTEND(Emptied(s))
    ensures !TE(control) ==> TDRE(Settled(control, s)) && TEND(Settled(control, s))
    ensures RDRF(Settled(control, s)) == RDRF(s)
  {}

  function SetRDRF(status: Byte): Byte {
    status.(b6 := true)
  }

  /** The status after a character went out. */
  function Emptied(status: Byte): Byte {
    status.(b7 := true)
  }

  /** The status after a character came in: full, or overrun when it was full already. */
  function Stored(status: Byte): Byte {
    if RDRF(status) then SetORER(status) else SetRDRF(status)
  }

  lemma StatusBits(s: Byte)
    ensures TDRE(Emptied(s)) && TEND(Emptied(s)) == TEND(s) && RDRF(Emptied(s)) == RDRF(s)
    ensures TDRE(SetTEND(s)) == TDRE(s) && TEND(SetTEND(s)) && RDRF(SetTEND(s)) == RDRF(s)
    ensures TDRE(Stored(s)) == TDRE(s) && TEND(Stored(s)) == TEND(s) && RDRF(Stored(s))
  {}

  /** The bits of the status register that a port leaves alone by itself. */
  function Others(status: Byte): Byte {
    status.(b7 := false, b6 := false, b5 := false, b2 := false)
  }

  /** The status after a character went out, with one coming in for it or not. */
  function Loaded(status: Byte, exchange: bool): Byte {
    if exchange then Stored(Emptied(status)) else Emptied(status)
  }

  lemma LoadedBits(s: Byte, exchange: bool)
    ensures var t := Loaded(s, exchange);
      && TDRE(t) && TEND(t) == TEND(s) && RDRF(t) == (RDRF(s) || exchange)
      && ORER(t) == (ORER(s) || (exchange && RDRF(s))) && Others(t) == Others(s)
  {}

  lemma EndBits(s: Byte)
    ensures var t := SetTEND(s);
      TDRE(t) == TDRE(s) && TEND(t) && RDRF(t) == RDRF(s) && ORER(t) == ORER(s) && Others(t) == Others(s)
  {}

  lemma StoredBits(s: Byte)
    ensures var t := Stored(s);
      TDRE(t) == TDRE(s) && TEND(t) == TEND(s) && RDRF(t) && ORER(t) == (ORER(s) || RDRF(s)) && Others(t) == Others(s)
  {}

  lemma StoredCases(s: Byte)
    ensures Stored(s) == if RDRF(s) then SetORER(s) else SetRDRF(s)
  {}

  /** The register as a number. */
  function Bits(b: Byte): bv8 {
    (if b.b7 then 0x80 else 0) | (if b.b6 then 0x40 else 0) | (if b.b5 then 0x20 else 0) | (if b.b4 then 0x10 else 0) |
    (if b.b3 then 0x08 else 0) | (if b.b2 then 0x04 else 0) | (if b.b1 then 0x02 else 0) | (if b.b0 then 0x01 else 0)
  }

  /** The flags are the bits of the register definitions. */
  lemma FlagBits(b: Byte)
    ensures CA(b) == TIE(b) == TDRE(b) == (Bits(b) & 0x80 != 0)
    ensures CHR(b) == RIE(b) == RDRF(b) == (Bits(b) & 0x40 != 0)
    ensures PE(b) == TE(b) == ORER(b) == (Bits(b) & 0x20 != 0)
    ensures RE(b) == (Bits(b) & 0x10 != 0)
    ensures STOP(b) == MPIE(b) == (Bits(b) & 0x08 != 0)
    ensures MP(b) == TEIE(b) == TEND(b) == (Bits(b) & 0x04 != 0)
    ensures ClockSelect(b) == (Bits(b) & 0x03) as nat
  {}

  /** What each change of the status register is in bits. */
  lemma StatusChanges(s: Byte, control: Byte)
    ensures Bits(Settled(control, s)) == if TE(control) then Bits(s) else Bits(s) | 0x84
    ensures Bits(ClearTEND(s)) == Bits(s) & 0xFB && Bits(SetTEND(s)) == Bits(s) | 0x04
    ensures Bits(Emptied(s)) == Bits(s) | 0x80
    ensures Bits(Stored(s)) == if RDRF(s) then Bits(s) | 0x20 else Bits(s) | 0x40
  {
    hide Bits;
    Set80(s);
    Set40(s);
    Set20(s);
    Set04(s);
    Set04(Emptied(s));
    Both84(Bits(s));
  }

  lemma Set80(s: Byte)
    ensures Bits(s.(b7 := true)) == Bits(s) | 0x80
  {}

  lemma Set40(s: Byte)
    ensures Bits(s.(b6 := true)) == Bits(s) | 0x40
  {}

  lemma Set20(s: Byte)
    ensures Bits(s.(b5 := true)) == Bits(s) | 0x20
  {}

  lemma Set04(s: Byte)
    ensures Bits(s.(b2 := true)) == Bits(s) | 0x04 && Bits(s.(b2 := false)) == Bits(s) & 0xFB
  {}

  lemma Both84(v: bv8)
    ensures v | 0x80 | 0x04 == v | 0x84
  {}

  /** A write to the status register clears its top five bits, leaves the next two and sets the last. */
  lemma WrittenBits(s: Byte, val: Byte)
    ensures Bits(Written(s, val)) == (Bits(val) & Bits(s) & 0xF8) | (Bits(s) & 0x06) | (Bits(val) & 0x01)
  {}

  function FourTo(n: nat): nat {
    if n == 0 then 1 else 4 * FourTo(n - 1)
  }

  /** The cycles of a character: in asynchronous mode a start bit, seven or eight data bits, a parity or multiprocessor
      bit if there is one, one or two stop bits and an idle bit, of 32 cycles times a power of four and the bit rate; in
      synchronous mode eight bits, eight times as fast. */
  lemma CharacterCycles(mode: Byte, bitRate: Byte)
    ensures var scale := FourTo(ClockSelect(mode)) * (bitRate.Value() + 1);
      CharBits(mode) * BitCycles(mode, bitRate) ==
        if CA(mode) then 8 * (4 * scale)
        else (1 + (if CHR(mode) then 7 else 8) + (if PE(mode) || MP(mode) then 1 else 0)
              + (if STOP(mode) then 2 else 1) + 1) * (32 * scale)
  {
    hide Byte.Value;
    assert FourTo(1) == 4;
    assert FourTo(2) == 16;
    assert FourTo(3) == 64;
    var div, v := FourTo(ClockSelect(mode)), bitRate.Value() + 1;
    assert 32 * div * v == 32 * (div * v);
    assert 4 * div * v == 4 * (div * v);
  }

  /** The bits of a character on the line, start and stop bits and the idle bit included. */
  function CharBits(mode: Byte): nat {
    if CA(mode) then 8 else
      11 + (if STOP(mode) then 1 else 0) + (if PE(mode) || MP(mode) then 1 else 0) - (if CHR(mode) then 1 else 0)
  }

  /** The clock cycles of one bit: the clock select divides by 1, 4, 16 or 64. */
  function BitCycles(mode: Byte, bitRate: Byte): nat {
    var div := if mode.b1 then if mode.b0 then 64 else 16 else if mode.b0 then 4 else 1;
    (if CA(mode) then 4 else 32) * div * (bitRate.Value() + 1)
  }

  /** The low two bits of the mode. */
  function ClockSelect(mode: Byte): (k: nat)
    ensures k < 4
  {
    (if mode.b1 then 2 else 0) + (if mode.b0 then 1 else 0)
  }

  lemma BitsFormula(mode: Byte)
    ensures CharBits(mode) == if CA(mode) then 8 else
      8 + 2 + (if STOP(mode) then 1 else 0) + (if PE(mode) then 1 else if MP(mode) then 1 else 0)
      - (if CHR(mode) then 1 else 0) + 1
  {}

  lemma RateFormula(scale: nat, div: nat, v: nat)
    ensures scale * (div * (v + 1) * 4) == (scale * 4) * div * (v + 1)
  {}

  lemma RateFormulas(mode: Byte, bitRate: Byte, scale: nat, div: nat)
    requires scale == (if CA(mode) then 1 else 8)
    requires div == [1, 4, 16, 64][ClockSelect(mode)]
    ensures scale * (div * (bitRate.Value() + 1) * 4) == BitCycles(mode, bitRate)
    ensures CharBits(mode) * BitCycles(mode, bitRate) == BitCycles(mode, bitRate) * CharBits(mode) > 0
  {
    hide Byte.Value;
    RateFormula(scale, div, bitRate.Value());
    PositiveProduct(CharBits(mode), BitCycles(mode, bitRate));
  }

  lemma PositiveProduct(x: nat, y: nat)
    requires x > 0 && y > 0
    ensures x * y > 0
  {}

  predicate InTime(last: nat, next: nat, tx: nat, rx: nat, cycles: nat) {
    && last <= next <= last + cycles
    && (tx > 0 ==> next <= last + tx)
    && (rx > 0 ==> next <= last + rx)
  }

  function Sent(s: seq<Frame>): seq<Byte> {
    seq(|s|, i requires 0 <= i < |s| => s[i].data)
  }

  /** What the program did with the transmitter: the characters handed over and not withdrawn, how often TDRE was
      cleared with the transmitter on, and how often the transmitter was then switched off with the character still
      waiting. */
  datatype Books = Books(accepted: seq<Byte>, clears: nat, dropped: nat) {
    function Accept(data: Byte): Books {
      this.(accepted := accepted + [data], clears := clears + 1)
    }

    /** The waiting character changes. */
    function Replace(data: Byte): Books
      requires accepted != []
    {
      this.(accepted := accepted[..|accepted| - 1] + [data])
    }

    function Drop(): Books
      requires accepted != []
    {
      this.(accepted := accepted[..|accepted| - 1], dropped := dropped + 1)
    }

    /** Every character handed over is sent exactly once, still waiting, or was withdrawn. */
    predicate Conserves(sends: seq<Frame>, tdre: bool, data: Byte) {
      && clears == |sends| + dropped + (if tdre then 0 else 1)
      && accepted == Sent(sends) + (if tdre then [] else [data])
    }
  }

  lemma SendConserves(o: Books, sends: seq<Frame>, f: Frame)
    requires o.Conserves(sends, false, f.data)
    ensures o.Conserves(sends + [f], true, f.data)
  {
    assert Sent(sends + [f]) == Sent(sends) + [f.data];
  }

  /** Time keeps the line sound and the books right. */
  lemma LineKeeps(c: Config, s: Line, n: nat, o: Books)
    requires Sound(c, s.(requests := [])) && c.cycles > 0 && o.Conserves(s.sends, s.tdre, c.data)
    ensures !s.tdre ==> c.te && s.left > 0
    ensures var t := Ticks(c, s, n); Sound(c, t.(requests := [])) && o.Conserves(t.sends, t.tdre, c.data)
  {
    hide Ticks, Sound, Books.Conserves;
    var t := Ticks(c, s, n);
    SoundWaiting(c, s.(requests := []), s);
    TicksSound(c, s, n);
    SoundWaiting(c, t, t.(requests := []));
    SentWhenDue(c, s, n);
    if !s.tdre && s.left <= n {
      SendConserves(o, s.sends, Frame(c.data, s.time + s.left, c.cycles));
    }
  }

  lemma AcceptConserves(o: Books, sends: seq<Frame>, data: Byte)
    requires o.Conserves(sends, true, data)
    ensures o.Accept(data).Conserves(sends, false, data)
  {}

  lemma WaitingConserves(o: Books, sends: seq<Frame>, data: Byte, next: Byte)
    requires o.Conserves(sends, false, data)
    ensures o.accepted != []
    ensures o.Replace(next).Conserves(sends, false, next) && o.Drop().Conserves(sends, true, next)
  {}

  lemma IdleConserves(o: Books, sends: seq<Frame>, data: Byte, next: Byte)
    requires o.Conserves(sends, true, data)
    ensures o.Conserves(sends, true, next)
  {}

  lemma InTimeStart(last: nat, next: nat, rx: nat, cycles: nat)
    requires cycles > 0
    ensures InTime(last, next, 0, rx, cycles) ==> InTime(last, next, cycles, rx, cycles)
  {}

  /** The cycles until something is due: the end of a character sent or received, or a whole character. */
  function Soonest(tx: nat, rx: nat, cycles: nat): nat {
    var n := if tx > 0 && tx < cycles then tx else cycles;
    if rx > 0 && rx < n then rx else n
  }

  /** What the rounds of an update do, outright. */
  lemma Outcome(w: Wire, c: Config, r: Rx, line: Line, more: seq<Byte>, n: nat)
    requires c.cycles > 0 && Sound(c, line.(requests := []))
    requires more != [] ==> 0 < line.left <= n && Asks(w, r.rdrf, !line.tdre)
    ensures Ticks(c, line, n).sends ==
      if !line.tdre && line.left <= n then line.sends + [Frame(c.data, line.time + line.left, c.cycles)] else line.sends
    ensures Ticks(c, line, n).tdre <==> line.tdre || line.left <= n
    ensures c.te ==> EndShows(c, line, Ticks(c, line, n), n)
    ensures var t := Begun(Fresh(r), line.left, !line.tdre, more, line.time, n).At(w, n);
      Takes(w, r, t, line.left, !line.tdre, more, line.time, n)
  {
    hide Ticks, Sound, EndShows, TakesSync, TakesAsync, Start.At, Asks, Begun;
    SoundWaiting(c, line.(requests := []), line);
    SentWhenDue(c, line, n);
    if c.te { LineEnds(c, line, n); }
    if w.sync {
      SyncAfter(w, Fresh(r), line.left, !line.tdre, more, line.time, n);
    } else {
      AsyncAfter(w, Fresh(r), line.left, !line.tdre, more, line.time, n);
    }
    TakesFresh(w, r, Begun(Fresh(r), line.left, !line.tdre, more, line.time, n).At(w, n), line.left, !line.tdre, more,
               line.time, n);
  }

  class Serial {
    const index: nat
    var mode: Byte
    var bitRate: Byte
    var control: Byte
    var status: Byte
    var smartCardMode: Byte
    var txData: Byte
    var rxData: Byte
    var device: bool  // whether a device is attached
    var lastUpdateCycle: nat
    var nextUpdateCycle: nat
    var cyclesPerChar: nat
    var txCycles: nat
    var rxCycles: nat
    var delayedTX: bool
    var delayedRX: bool
    var incoming: seq<Byte>  // the bytes waiting at the device

    ghost var sends: seq<Frame>  // characters of the data register put on the line, in order
    ghost var books: Books
    ghost var inbox: Inbox
    ghost var acks: nat          // how often the program cleared RDRF
    ghost var offered: seq<Byte> // the bytes the device has had so far, in order

    ghost function Setup(): Config
      reads this`mode, this`control, this`txData, this`cyclesPerChar
    {
      Config(index, TE(control), RE(control), CA(mode), TEIE(control), txData, cyclesPerChar)
    }

    ghost function LineAt(now: nat, requests: seq<Source>): Line
      reads this`status, this`txCycles, this`sends
    {
      Line(now, TDRE(status), TEND(status), txCycles, sends, requests)
    }

    ghost function Wiring(): Wire
      reads this`mode, this`control, this`device, this`cyclesPerChar
    {
      Wire(CA(mode), TE(control), RE(control), RIE(control), device, cyclesPerChar)
    }

    ghost function Taken(): Intake
      reads this`rxData, this`delayedRX, this`incoming, this`inbox
    {
      Intake(rxData, delayedRX, incoming, inbox)
    }

    ghost function Receiver(): Rx
      reads this`status, this`rxCycles, this`rxData, this`delayedRX, this`incoming, this`inbox
    {
      Rx(RDRF(status), ORER(status), rxCycles, Taken())
    }

    /** The invariant, for a status register that may still have to be stored. */
    ghost predicate ValidFor(status: Byte)
      reads this
    {
      && cyclesPerChar > 0
      && Sound(Setup(), LineAt(lastUpdateCycle, []).(tdre := TDRE(status), tend := TEND(status)))
      && Deadline()
      && books.Conserves(sends, TDRE(status), txData)
      && inbox.Keeps(acks, RDRF(status), lastUpdateCycle + rxCycles)
      && Whole(Taken(), offered)
    }

    /** When the next update is due. */
    function Due(): nat
      reads this`delayedTX, this`delayedRX, this`rxCycles, this`txCycles, this`mode, this`device, this`incoming
      reads this`lastUpdateCycle, this`cyclesPerChar
    {
      if delayedTX || delayedRX || (rxCycles == 0 && !CA(mode) && device && incoming != []) then lastUpdateCycle
      else lastUpdateCycle + Soonest(txCycles, rxCycles, cyclesPerChar)
    }

    lemma DueInTime()
      requires cyclesPerChar > 0
      ensures InTime(lastUpdateCycle, Due(), txCycles, rxCycles, cyclesPerChar)
    {}

    /** The next update comes no later than the end of a character being sent or received. */
    predicate Deadline()
      reads this
    {
      InTime(lastUpdateCycle, nextUpdateCycle, txCycles, rxCycles, cyclesPerChar)
    }

    /** The invariant but for TDRE, which a write has just cleared. */
    ghost predicate ReadyFor(status: Byte)
      reads this
    {
      && cyclesPerChar > 0
      && Sound(Setup(), LineAt(lastUpdateCycle, []).(tdre := true, tend := TEND(status)))
      && Deadline()
      && books.Conserves(sends, true, txData)
      && inbox.Keeps(acks, RDRF(status), lastUpdateCycle + rxCycles)
      && Whole(Taken(), offered)
    }

    ghost predicate Valid()
      reads this
    {
      ValidFor(status)
    }

    constructor (index: nat)
      ensures Valid() && this.index == index && !device
      ensures sends == [] && books == Books([], 0, 0) && inbox == Inbox([], 0, [], 0) && acks == 0
      ensures incoming == [] == offered
    {
      var zero := Byte(false, false, false, false, false, false, false, false);
      this.index := index;
      mode, bitRate, control, smartCardMode, txData, rxData := zero, zero, zero, zero, zero, zero;
      status := zero.(b7 := true, b2 := true);
      device := false;
      lastUpdateCycle, nextUpdateCycle, cyclesPerChar, txCycles, rxCycles := 0, 0, 1, 0, 0;
      delayedTX, delayedRX := false, false;
      sends, books, inbox, acks := [], Books([], 0, 0), Inbox([], 0, [], 0), 0;
      incoming, offered := [], [];
    }

    /** The device has a byte. */
    method CanRead() returns (b: bool)
      ensures b == (incoming != [])
    {
      b := incoming != [];
    }

    method Read() returns (v: Byte)
      requires incoming != []
      modifies this`incoming
      ensures [v] + incoming == old(incoming)
    {
      v := incoming[0];
      incoming := incoming[1..];
    }

    /** A byte goes to the device, which answers with whatever it likes. */
    method Tell(data: Byte) returns (ghost more: seq<Byte>)
      modifies this`incoming, this`offered
      ensures incoming == old(incoming) + more && offered == old(offered) + more
    {
      var answer: seq<Byte> := *;
      more := answer;
      incoming := incoming + answer;
      offered := offered + answer;
    }

    /** The device gets bytes to hand on. */
    method Arrive(bytes: seq<Byte>)
      requires Valid()
      modifies this`incoming, this`offered
      ensures Valid() && incoming == old(incoming) + bytes && offered == old(offered) + bytes
      ensures Taken() == old(Taken()).Hear(bytes)
    {
      hide Books.Conserves, Inbox.Keeps, Whole, InTime, Sound;
      HearWhole(Taken(), bytes, offered);
      incoming := incoming + bytes;
      offered := offered + bytes;
    }

    method CalcNextUpdate()
      requires cyclesPerChar > 0
      modifies this`nextUpdateCycle
      ensures nextUpdateCycle == Due()
      ensures InTime(lastUpdateCycle, nextUpdateCycle, txCycles, rxCycles, cyclesPerChar)
    {
      if delayedTX || delayedRX {
        nextUpdateCycle := lastUpdateCycle;
        return;
      }
      if rxCycles == 0 && !CA(mode) && device {
        var ready := CanRead();
        if ready {
          nextUpdateCycle := lastUpdateCycle;
          return;
        }
      }
      var nextUpdate := cyclesPerChar;
      if txCycles != 0 && txCycles < nextUpdate {
        nextUpdate := txCycles;
      }
      if rxCycles != 0 && rxCycles < nextUpdate {
        nextUpdate := rxCycles;
      }
      nextUpdateCycle := lastUpdateCycle + nextUpdate;
    }

    method UpdateClockDiv()
      modifies this`cyclesPerChar, this`nextUpdateCycle
      ensures cyclesPerChar == CharBits(mode) * BitCycles(mode, bitRate) > 0
      ensures InTime(lastUpdateCycle, nextUpdateCycle, txCycles, rxCycles, cyclesPerChar)
    {
      hide CharBits, BitCycles, Byte.Value, InTime;
      var clockDiv: seq<nat> := [1, 4, 16, 64];
      var bits := 8;
      var clocksPerBit := 1;
      if !CA(mode) {
        bits := bits + 2;
        if STOP(mode) {
          bits := bits + 1;
        }
        if PE(mode) {
          bits := bits + 1;
        } else if MP(mode) {
          bits := bits + 1;
        }
        if CHR(mode) {
          bits := bits - 1;
        }
        bits := bits + 1;
        clocksPerBit := clocksPerBit * 8;
      }
      RateFormulas(mode, bitRate, clocksPerBit, clockDiv[ClockSelect(mode)]);
      clocksPerBit := clocksPerBit * (clockDiv[ClockSelect(mode)] * (bitRate.Value() + 1) * 4);
      BitsFormula(mode);
      cyclesPerChar := clocksPerBit * bits;
      CalcNextUpdate();
    }

    /** The byte of a character: the device's, when it has one; a synchronous receiver without transmitter clocks out a
        filler to get it. */
    method FromDevice() returns (ghost more: seq<Byte>)
      modifies this`rxData, this`incoming, this`offered
      ensures rxData == old(Taken()).Hear(more).Next(Wiring()) && offered == old(offered) + more
      ensures incoming == old(Taken()).Hear(more).Rest(Wiring())
      ensures more != [] ==> device && CA(mode) && !TE(control)
    {
      hide CA, TE, RE, RIE;
      more := [];
      HearNothing(Taken());
      if device {
        if CA(mode) && !TE(control) {
          more := Tell(Byte(true, true, true, true, true, true, true, true));
        }
        var ready := CanRead();
        if ready {
          rxData := Read();
        }
      }
    }

    /** The byte of a character and its interrupt. */
    method TakeByte(ghost now: nat) returns (ghost more: seq<Byte>)
      modifies this`rxData, this`delayedRX, this`inbox, this`incoming, this`offered
      ensures Taken() == old(Taken()).Hear(more).Store(Wiring(), now, device && CA(mode) && !TE(control))
      ensures offered == old(offered) + more && (more != [] ==> device && CA(mode) && !TE(control))
    {
      hide RIE, CA, TE, RE, Intake.Next, Intake.Rest;
      ghost var i, w, filler := Taken(), Wiring(), device && CA(mode) && !TE(control);
      more := FromDevice();
      if RIE(control) {
        delayedRX := true;
      }
      inbox := i.Hear(more).Store(w, now, filler).inbox;
    }

    /** A character comes in with the data register free. */
    method Receive(ghost now: nat) returns (ghost more: seq<Byte>)
      requires cyclesPerChar > 0 && !RDRF(status)
      modifies this`status, this`rxData, this`delayedRX, this`rxCycles, this`nextUpdateCycle, this`inbox
      modifies this`incoming, this`offered
      ensures status == SetRDRF(old(status)) && (more != [] ==> device && CA(mode) && !TE(control))
      ensures Taken() == old(Taken()).Hear(more).Store(Wiring(), now, device && CA(mode) && !TE(control))
      ensures offered == old(offered) + more && nextUpdateCycle == Due()
      ensures rxCycles == if CA(mode) then old(rxCycles) else cyclesPerChar
    {
      hide SetRDRF, RDRF, CA, TE, Serial.Due, Intake.Hear, Intake.Store;
      more := TakeByte(now);
      status := SetRDRF(status);
      if !CA(mode) {
        rxCycles := cyclesPerChar;
      }
      CalcNextUpdate();
    }

    /** A character comes in: it is stored, or lost to an overrun when the last one has not been taken. */
    method DoRX(ghost now: nat) returns (ghost more: seq<Byte>)
      requires cyclesPerChar > 0
      modifies this`status, this`rxData, this`delayedRX, this`rxCycles, this`nextUpdateCycle, this`inbox
      modifies this`incoming, this`offered
      ensures status == Stored(old(status)) && (more != [] ==> device && CA(mode) && !TE(control) && !old(RDRF(status)))
      ensures rxCycles == if CA(mode) || old(RDRF(status)) then old(rxCycles) else cyclesPerChar
      ensures Taken() == if old(RDRF(status)) then old(Taken())
        else old(Taken()).Hear(more).Store(Wiring(), now, device && CA(mode) && !TE(control))
      ensures offered == old(offered) + more
      ensures nextUpdateCycle == if old(RDRF(status)) then old(nextUpdateCycle) else Due()
    {
      hide Stored, SetORER, SetRDRF, RDRF, RIE, CA, TE, Intake.Store, Intake.Hear, Serial.Due;
      StoredCases(status);
      more := [];
      if RDRF(status) {
        status := SetORER(status);
      } else {
        more := Receive(now);
      }
    }

    /** The character in the data register goes out. */
    method PutOut(ghost now: nat) returns (ghost more: seq<Byte>)
      requires cyclesPerChar > 0
      modifies this`status, this`nextUpdateCycle, this`txCycles, this`delayedTX, this`sends
      modifies this`incoming, this`offered
      ensures sends == old(sends) + [Frame(txData, now, cyclesPerChar)] && status == Emptied(old(status))
      ensures txCycles == cyclesPerChar && delayedTX == (old(delayedTX) || TIE(control))
      ensures incoming == old(incoming) + more && offered == old(offered) + more && (more != [] ==> device)
      ensures nextUpdateCycle == Due()
    {
      hide Emptied, TIE, Serial.Due;
      sends := sends + [Frame(txData, now, cyclesPerChar)];
      more := [];
      if device {
        more := Tell(txData);
      }
      status := Emptied(status);
      if TIE(control) {
        delayedTX := true;
      }
      txCycles := cyclesPerChar;
      CalcNextUpdate();
    }

    /** Sends the character in the data register.  In synchronous mode one comes in at the same time. */
    method DoTX(ghost now: nat) returns (ghost more: seq<Byte>)
      requires cyclesPerChar > 0 && TE(control)
      modifies this`status, this`rxData, this`delayedRX, this`nextUpdateCycle, this`inbox
      modifies this`rxCycles, this`txCycles, this`delayedTX, this`sends, this`incoming, this`offered
      ensures sends == old(sends) + [Frame(txData, now, cyclesPerChar)]
      ensures status == Loaded(old(status), CA(mode) && RE(control))
      ensures txCycles == cyclesPerChar && rxCycles == old(rxCycles)
      ensures delayedTX == (old(delayedTX) || TIE(control))
      ensures Taken() == Sending(old(Taken()), Wiring(), RDRF(old(status)), more, now)
      ensures offered == old(offered) + more && (more != [] ==> device) && nextUpdateCycle == Due()
    {
      hide Emptied, Stored, Intake.Store, RDRF, CA, RE, TE, TIE, RIE, Serial.Due;
      StatusBits(status);
      more := PutOut(now);
      HearNothing(Taken());
      if CA(mode) && RE(control) {
        ghost var none := DoRX(now);
        assert none == [];
      }
    }

    /** The character on the line has ended and the next one waits. */
    method SendNext(cpu: H8CPU, ghost now: nat) returns (ghost more: seq<Byte>)
      requires cyclesPerChar > 0 && txCycles == 0 && TE(control) && !TDRE(status)
      modifies this`status, this`rxData, this`delayedRX, this`nextUpdateCycle, this`inbox, this`incoming, this`offered
      modifies this`rxCycles, this`txCycles, this`delayedTX, this`sends
      ensures LineAt(now, cpu.requests) == Finish(Setup(), old(LineAt(now, cpu.requests)))
      ensures rxCycles == old(rxCycles) && Others(status) == Others(old(status))
      ensures Receiver() == Ended(Wiring(), old(Receiver()), true, more, now)
      ensures offered == old(offered) + more && (more != [] ==> device)
      ensures delayedTX == (old(delayedTX) || TIE(control))
    {
      hide Loaded, RDRF, ORER, TDRE, TEND, RE, CA, TEIE, TIE, Others;
      hide Serial.Due, Exchanged, Ended, Sending;
      LoadedBits(status, CA(mode) && RE(control));
      more := DoTX(now);
      EndedSends(Wiring(), old(Receiver()), more, now);
    }

    /** The last character has ended. */
    method ReportEnd(cpu: H8CPU, ghost now: nat)
      requires txCycles == 0 && TE(control) && TDRE(status)
      modifies this`status, cpu`requests
      ensures LineAt(now, cpu.requests) == Finish(Setup(), old(LineAt(now, cpu.requests)))
      ensures Others(status) == Others(old(status))
      ensures Receiver() == Ended(Wiring(), old(Receiver()), false, [], now)
    {
      hide SetTEND, RDRF, ORER, TDRE, TEND, RE, CA, TEIE, Others;
      EndBits(status);
      status := SetTEND(status);
      if TEIE(control) {
        cpu.Interrupt(TEI(index));
      }
    }

    /** A synchronous receiver without a transmitter keeps going. */
    method KeepGoing(cpu: H8CPU, ghost now: nat) returns (ghost more: seq<Byte>)
      requires cyclesPerChar > 0 && txCycles == 0 && !TE(control) && TDRE(status)
      modifies this`status, this`rxData, this`delayedRX, this`nextUpdateCycle, this`inbox, this`incoming, this`offered
      modifies this`rxCycles, this`txCycles
      ensures LineAt(now, cpu.requests) == Finish(Setup(), old(LineAt(now, cpu.requests)))
      ensures rxCycles == old(rxCycles) && Others(status) == Others(old(status))
      ensures Receiver() == Ended(Wiring(), old(Receiver()), false, more, now)
      ensures offered == old(offered) + more
      ensures more != [] ==> device && RE(control) && CA(mode) && !RDRF(old(status))
    {
      hide Emptied, Stored, SetTEND, RDRF, ORER, TDRE, TEND, RE, CA, TEIE, TIE, Others, Intake.Store, Intake.Hear;
      hide Serial.Due, Exchanged, Ended, Sending;
      StoredBits(status);
      more := [];
      if RE(control) && CA(mode) {
        if device {
          more := DoRX(now);
        }
        txCycles := cyclesPerChar;
      }
      EndedAlone(Wiring(), old(Receiver()), false, more, now);
    }

    /** The character on the line has ended. */
    method FinishChar(cpu: H8CPU, ghost now: nat) returns (ghost more: seq<Byte>)
      requires cyclesPerChar > 0 && txCycles == 0 && (!TDRE(status) ==> TE(control))
      modifies this`status, this`rxData, this`delayedRX, this`nextUpdateCycle, this`inbox, this`incoming, this`offered
      modifies this`rxCycles, this`txCycles, this`delayedTX, this`sends, cpu`requests
      ensures LineAt(now, cpu.requests) == Finish(Setup(), old(LineAt(now, cpu.requests)))
      ensures rxCycles == old(rxCycles) && Others(status) == Others(old(status))
      ensures Receiver() == Ended(Wiring(), old(Receiver()), !TDRE(old(status)), more, now)
      ensures offered == old(offered) + more && (more != [] ==> device)
      ensures more != [] ==> Asks(Wiring(), RDRF(old(status)), !TDRE(old(status)))
      ensures delayedTX == (old(delayedTX) || (!TDRE(old(status)) && TIE(control)))
    {
      hide RDRF, TDRE, TE, TIE, Others, Ended, Finish, Serial.LineAt, Serial.Setup, Serial.Receiver;
      more := [];
      if !TDRE(status) && TE(control) {
        more := SendNext(cpu, now);
      } else if TE(control) {
        ReportEnd(cpu, now);
      }
      if !TE(control) {
        more := KeepGoing(cpu, now);
      }
    }

    /** The transmit side over `step` cycles that do not pass the end of the character on the line. */
    method PassTX(cpu: H8CPU, step: nat, ghost now: nat) returns (ghost more: seq<Byte>)
      requires 0 < step && (txCycles == 0 || step <= txCycles)
      requires cyclesPerChar > 0 && (!TDRE(status) ==> TE(control) && txCycles > 0)
      modifies this`status, this`rxData, this`delayedRX, this`nextUpdateCycle, this`inbox, this`incoming, this`offered
      modifies this`rxCycles, this`txCycles, this`delayedTX, this`sends, cpu`requests
      ensures LineAt(now + step, cpu.requests) == Ticks(Setup(), old(LineAt(now, cpu.requests)), step)
      ensures rxCycles == old(rxCycles) && Others(status) == Others(old(status))
      ensures Receiver() == if 0 < old(txCycles) == step
        then Ended(Wiring(), old(Receiver()), !TDRE(old(status)), more, now + step) else old(Receiver())
      ensures offered == old(offered) + more && (more != [] ==> device && 0 < old(txCycles) == step)
      ensures more != [] ==> Asks(Wiring(), RDRF(old(status)), !TDRE(old(status)))
      ensures delayedTX == (old(delayedTX) || (0 < old(txCycles) == step && !TDRE(old(status)) && TIE(control)))
    {
      hide RDRF, ORER, TDRE, TEND, TE, RE, CA, TEIE, TIE, Finish, Ticks, Ended, Others;
      AdvanceTicks(Setup(), LineAt(now, cpu.requests), step);
      more := [];
      if txCycles != 0 {
        txCycles := txCycles - step;
        if txCycles == 0 {
          more := FinishChar(cpu, now + step);
        }
      }
    }

    /** With the line free an asynchronous character comes in when the device has one. */
    method Poll(ghost now: nat)
      requires cyclesPerChar > 0
      modifies this`status, this`rxData, this`delayedRX, this`nextUpdateCycle, this`inbox, this`rxCycles
      modifies this`incoming, this`offered
      ensures TDRE(status) == old(TDRE(status)) && TEND(status) == old(TEND(status))
      ensures Others(status) == Others(old(status)) && offered == old(offered)
      ensures Receiver() == Polled(Wiring(), old(Receiver()), now)
    {
      hide Stored, RDRF, ORER, TDRE, TEND, RE, CA, TE, Others, Intake.Store, Intake.Hear, Serial.Due;
      StoredBits(status);
      HearNothing(Taken());
      if rxCycles == 0 && RE(control) && !RDRF(status) && !CA(mode) && device {
        var ready := CanRead();
        if ready {
          ghost var none := DoRX(now);
          assert none == [];
        }
      }
    }

    /** The receive side over the same cycles: the counter runs down, and with the line free an asynchronous character
        comes in when the device has one. */
    method PassRX(step: nat, ghost now: nat)
      requires 0 < step && (rxCycles == 0 || step <= rxCycles) && cyclesPerChar > 0
      modifies this`status, this`rxData, this`delayedRX, this`nextUpdateCycle, this`inbox, this`rxCycles
      modifies this`incoming, this`offered
      ensures TDRE(status) == old(TDRE(status)) && TEND(status) == old(TEND(status))
      ensures Others(status) == Others(old(status)) && offered == old(offered)
      ensures Receiver() == Polled(Wiring(), old(Receiver()).Later(step), now + step)
    {
      hide RDRF, ORER, TDRE, TEND, Others, Polled;
      if rxCycles != 0 {
        rxCycles := rxCycles - step;
      }
      Poll(now + step);
    }

    /** One round of the update loop. */
    method Pass(cpu: H8CPU, step: nat, ghost now: nat) returns (ghost more: seq<Byte>)
      requires 0 < step && (txCycles == 0 || step <= txCycles) && (rxCycles == 0 || step <= rxCycles)
      requires cyclesPerChar > 0 && (!TDRE(status) ==> TE(control) && txCycles > 0)
      modifies this`status, this`rxData, this`delayedRX, this`nextUpdateCycle, this`inbox, this`incoming, this`offered
      modifies this`rxCycles, this`txCycles, this`delayedTX, this`sends, cpu`requests
      ensures LineAt(now + step, cpu.requests) == Ticks(Setup(), old(LineAt(now, cpu.requests)), step)
      ensures Others(status) == Others(old(status))
      ensures Receiver() == Passed(Wiring(), old(Receiver()), step, now + step, 0 < old(txCycles) == step,
                                   !TDRE(old(status)), more)
      ensures offered == old(offered) + more && (more != [] ==> device && 0 < old(txCycles) == step)
      ensures more != [] ==> Asks(Wiring(), RDRF(old(status)), !TDRE(old(status)))
      ensures delayedTX == (old(delayedTX) || (0 < old(txCycles) == step && !TDRE(old(status)) && TIE(control)))
      ensures nextUpdateCycle == Due()
    {
      hide RDRF, ORER, TDRE, TEND, TE, RE, CA, TEIE, TIE, Ticks, Ended, Others, Polled;
      hide Serial.Setup, Serial.Wiring, Serial.Taken, Serial.Receiver, Serial.Due, Rx.Later;
      Seen(now, cpu.requests);
      SeenReceiver();
      more := PassTX(cpu, step, now);
      PassRX(step, now);
      CalcNextUpdate();
    }

    /** The cycles to the next end of a character, or all that are left. */
    method StepOf(elapsed: nat) returns (step: nat)
      requires elapsed > 0
      ensures 0 < step <= elapsed && (txCycles == 0 || step <= txCycles) && (rxCycles == 0 || step <= rxCycles)
      ensures step == First(rxCycles, txCycles, elapsed)
    {
      step := elapsed;
      if txCycles != 0 && txCycles < step {
        step := txCycles;
      }
      if rxCycles != 0 && rxCycles < step {
        step := rxCycles;
      }
    }

    lemma Seen(now: nat, requests: seq<Source>)
      ensures LineAt(now, requests).left == txCycles && LineAt(now, requests).tdre == TDRE(status)
      ensures LineAt(now, requests).sends == sends && LineAt(now, requests).time == now
      ensures LineAt(now, []) == LineAt(now, requests).(requests := [])
    {}

    lemma SeenReceiver()
      ensures Receiver().left == rxCycles && Receiver().rdrf == RDRF(status)
      ensures Receiver().intake == Taken() && Taken().inbox == inbox
    {}

    lemma SeenSetup()
      ensures var w := Wiring();
        w.te == TE(control) && w.device == device && w.cycles == cyclesPerChar && w.sync == CA(mode)
      ensures var c := Setup(); c.data == txData && c.cycles == cyclesPerChar && c.te == TE(control)
    {}

    lemma Parts()
      requires Valid()
      ensures cyclesPerChar > 0 && Sound(Setup(), LineAt(lastUpdateCycle, []))
      ensures InTime(lastUpdateCycle, nextUpdateCycle, txCycles, rxCycles, cyclesPerChar)
      ensures books.Conserves(sends, TDRE(status), txData)
      ensures inbox.Keeps(acks, RDRF(status), lastUpdateCycle + rxCycles) && Whole(Taken(), offered)
    {
      hide Books.Conserves, Inbox.Keeps, InTime, Whole, Sound, TDRE, TEND;
    }

    lemma Assembled()
      requires cyclesPerChar > 0 && Sound(Setup(), LineAt(lastUpdateCycle, []))
      requires InTime(lastUpdateCycle, nextUpdateCycle, txCycles, rxCycles, cyclesPerChar)
      requires books.Conserves(sends, TDRE(status), txData)
      requires inbox.Keeps(acks, RDRF(status), lastUpdateCycle + rxCycles) && Whole(Taken(), offered)
      ensures Valid()
    {
      hide Books.Conserves, Inbox.Keeps, InTime, Whole, Sound, TDRE, TEND;
    }

    /** One round of the loop. */
    method NextRound(cpu: H8CPU, elapsed: nat, ghost line: Line, ghost s: Start, ghost e: nat)
      returns (step: nat, ghost answer: seq<Byte>)
      requires Reached(Wiring(), Setup(), line, s, e, LineAt(s.time + e, cpu.requests), Receiver())
      requires elapsed > 0 && (e == 0 ==> s.first == First(rxCycles, txCycles, elapsed))
      modifies this`status, this`rxData, this`delayedRX, this`nextUpdateCycle, this`inbox, this`incoming, this`offered
      modifies this`rxCycles, this`txCycles, this`delayedTX, this`sends, cpu`requests
      ensures 0 < step <= elapsed
      ensures Reached(Wiring(), Setup(), line, s.(more := s.more + answer), e + step,
        LineAt(s.time + e + step, cpu.requests), Receiver())
      ensures offered == old(offered) + answer && Others(status) == Others(old(status)) && nextUpdateCycle == Due()
      ensures delayedTX == (old(delayedTX) || (s.waiting && e < s.left <= e + step && TIE(control)))
    {
      hide RDRF, ORER, TDRE, TEND, TE, RE, CA, TEIE, TIE, Others, Ticks, Asks, Passed, Serial.Due, RIE, First, Reached;
      hide Serial.LineAt, Serial.Receiver, Serial.Setup, Serial.Wiring, Serial.Taken;
      Seen(s.time + e, cpu.requests);
      SeenReceiver();
      SeenSetup();
      ghost var w, c, t, r := Wiring(), Setup(), LineAt(s.time + e, cpu.requests), Receiver();
      ReachedRuns(w, c, line, s, e, t, r);
      step := StepOf(elapsed);
      answer := Pass(cpu, step, s.time + e);
      ReachedNext(w, c, line, s, e, t, r, step, answer);
    }

    /** The loop of an update: character ends are met one after another. */
    method CatchUp(cpu: H8CPU, cycles: nat, ghost from: nat) returns (ghost more: seq<Byte>)
      requires cyclesPerChar > 0 && (!TDRE(status) ==> TE(control) && txCycles > 0)
      modifies this`status, this`rxData, this`delayedRX, this`nextUpdateCycle, this`inbox, this`incoming, this`offered
      modifies this`rxCycles, this`txCycles, this`delayedTX, this`sends, cpu`requests
      ensures LineAt(from + cycles, cpu.requests) == Ticks(Setup(), old(LineAt(from, cpu.requests)), cycles)
      ensures Receiver() ==
        Begun(old(Receiver()), old(txCycles), !TDRE(old(status)), more, from, cycles).At(Wiring(), cycles)
      ensures offered == old(offered) + more && Others(status) == Others(old(status))
      ensures more != [] ==>
        device && 0 < old(txCycles) <= cycles && Asks(Wiring(), RDRF(old(status)), !TDRE(old(status)))
      ensures delayedTX == (old(delayedTX) || (!TDRE(old(status)) && old(txCycles) <= cycles && TIE(control)))
      ensures nextUpdateCycle == if cycles == 0 then old(nextUpdateCycle) else Due()
    {
      hide RDRF, ORER, TDRE, TEND, TE, RE, CA, TEIE, TIE, Others, Ticks, Asks, Start.At, Serial.Due, RIE, First;
      hide Serial.Taken;
      var elapsed := cycles;
      ghost var line, s :=
        LineAt(from, cpu.requests), Begun(Receiver(), txCycles, !TDRE(status), [], from, cycles);
      more := [];
      ReachedStart(Wiring(), Setup(), line, s);
      while elapsed != 0
        invariant 0 <= elapsed <= cycles
        invariant Reached(Wiring(), Setup(), line, s.(more := more), cycles - elapsed,
          LineAt(from + cycles - elapsed, cpu.requests), Receiver())
        invariant offered == old(offered) + more && Others(status) == Others(old(status))
        invariant delayedTX == (old(delayedTX) || (s.waiting && s.left <= cycles - elapsed && TIE(control)))
        invariant elapsed == cycles ==> old(rxCycles) == rxCycles && txCycles == old(txCycles)
        invariant nextUpdateCycle == if elapsed == cycles then old(nextUpdateCycle) else Due()
      {
        var step;
        ghost var answer;
        step, answer := NextRound(cpu, elapsed, line, s.(more := more), cycles - elapsed);
        elapsed := elapsed - step;
        more := more + answer;
      }
    }

    /** A write to SMR. */
    method SetMode(val: Byte)
      requires Valid()
      modifies this`mode, this`cyclesPerChar, this`nextUpdateCycle
      ensures Valid() && mode == val && cyclesPerChar == CharBits(mode) * BitCycles(mode, bitRate)
    {
      hide Books.Conserves, Inbox.Keeps, Whole, InTime, RDRF, TDRE, TEND, TE, RE, CA, TEIE, Sound, CharBits, BitCycles;
      ghost var c := Setup();
      mode := val;
      UpdateClockDiv();
      SetupSound(c, Setup(), LineAt(lastUpdateCycle, []));
    }

    /** A write to BRR. */
    method SetBitRate(val: Byte)
      requires Valid()
      modifies this`bitRate, this`cyclesPerChar, this`nextUpdateCycle
      ensures Valid() && bitRate == val && cyclesPerChar == CharBits(mode) * BitCycles(mode, bitRate)
    {
      hide Books.Conserves, Inbox.Keeps, Whole, InTime, RDRF, TDRE, TEND, TE, RE, CA, TEIE, Sound, CharBits, BitCycles;
      ghost var c := Setup();
      bitRate := val;
      UpdateClockDiv();
      SetupSound(c, Setup(), LineAt(lastUpdateCycle, []));
    }

    /** A write to SCR. */
    method SetControl(val: Byte, cpu: H8CPU)
      requires Valid()
      modifies this`txCycles, this`control, this`books, cpu`requests
      ensures ValidFor(Settled(control, status)) && control == val
      ensures txCycles ==
        if StartsClock(old(control), val, CA(mode), old(txCycles)) then cyclesPerChar else old(txCycles)
      ensures books == if TE(val) || TDRE(status) then old(books) else old(books).Drop()
      ensures cpu.requests == old(cpu.requests) + Enabling(index, old(control), val, status)
    {
      hide Books.Conserves, Books.Drop, Inbox.Keeps, Whole, Settled, Sound, InTime;
      hide RDRF, TDRE, TEND, TE, TIE, RE, CA, TEIE, Serial.Taken;
      InTimeStart(lastUpdateCycle, nextUpdateCycle, rxCycles, cyclesPerChar);
      ghost var c, line := Setup(), LineAt(lastUpdateCycle, []);
      SettledFlags(status, val);
      if TIE(val) && !TIE(control) && TE(val) && TDRE(status) {
        cpu.Interrupt(TXI(index));
      }
      if RE(val) && !RE(control) && !TE(val) && CA(mode) && txCycles == 0 {
        txCycles := cyclesPerChar;
      }
      control := val;
      if TE(val) {
        SetupSound(c, Setup(), line);
      } else {
        OffSound(c, Setup(), line, txCycles);
        if !TDRE(status) {
          WaitingConserves(books, sends, txData, txData);
          books := books.Drop();
        }
      }
    }

    /** A character handed over with the line free. */
    method SendAtOnce() returns (ghost more: seq<Byte>)
      requires TE(control) && cyclesPerChar > 0 && txCycles == 0 && books.Conserves(sends, false, txData)
      requires Sound(Setup(), LineAt(lastUpdateCycle, []).(tdre := true)) && !TEND(status)
      requires inbox.Keeps(acks, RDRF(status), lastUpdateCycle + rxCycles) && Whole(Taken(), offered)
      modifies this`status, this`rxData, this`delayedRX, this`nextUpdateCycle, this`inbox
      modifies this`rxCycles, this`txCycles, this`delayedTX, this`sends, this`incoming, this`offered
      ensures Valid() && status == Loaded(old(status), CA(mode) && RE(control))
      ensures txCycles == cyclesPerChar && rxCycles == old(rxCycles)
      ensures inbox.receptions == old(inbox).receptions && delayedTX == (old(delayedTX) || TIE(control))
      ensures sends == old(sends) + [Frame(txData, lastUpdateCycle, cyclesPerChar)]
      ensures Taken() == Sending(old(Taken()), Wiring(), RDRF(old(status)), more, lastUpdateCycle)
      ensures offered == old(offered) + more && (more != [] ==> device)
    {
      hide Books.Conserves, Inbox.Keeps, Whole, InTime, RDRF, TDRE, TEND, Whole;
      hide TE, RE, CA, TIE, RIE, TEIE, Sound, Loaded, Sending, Serial.Due;
      ghost var c, line := Setup(), LineAt(lastUpdateCycle, []).(tdre := true);
      LoadedBits(status, CA(mode) && RE(control));
      SendSound(c, line, Frame(txData, lastUpdateCycle, cyclesPerChar));
      SendConserves(books, sends, Frame(txData, lastUpdateCycle, cyclesPerChar));
      more := DoTX(lastUpdateCycle);
      SendingKeeps(old(Taken()), Wiring(), RDRF(old(status)), more, lastUpdateCycle, acks, lastUpdateCycle + rxCycles,
                   old(offered));
      DueInTime();
    }

    /** A character is handed over: it goes out at once when the line is free. */
    method Accept() returns (ghost more: seq<Byte>)
      requires TE(control) && !TDRE(status) && ReadyFor(status)
      modifies this`status, this`rxData, this`delayedRX, this`nextUpdateCycle, this`inbox
      modifies this`rxCycles, this`txCycles, this`delayedTX, this`sends, this`books, this`incoming, this`offered
      ensures Valid() && status == Began(old(status), old(txCycles) == 0, CA(mode) && RE(control))
      ensures txCycles == (if old(txCycles) == 0 then cyclesPerChar else old(txCycles))
      ensures books == old(books).Accept(txData) && inbox.receptions == old(inbox).receptions
      ensures sends ==
        if old(txCycles) != 0 then old(sends) else old(sends) + [Frame(txData, lastUpdateCycle, cyclesPerChar)]
      ensures rxCycles == old(rxCycles) && delayedTX == (old(delayedTX) || (old(txCycles) == 0 && TIE(control)))
      ensures Taken() == if old(txCycles) == 0
        then Sending(old(Taken()), Wiring(), RDRF(old(status)), more, lastUpdateCycle) else old(Taken())
      ensures offered == old(offered) + more && (more != [] ==> device && old(txCycles) == 0)
    {
      hide Books.Conserves, Books.Accept, Inbox.Keeps, InTime, ClearTEND, RDRF, TDRE, TEND, Began, Whole;
      hide TE, RE, CA, TIE, RIE, TEIE, Sound, Loaded, Sending;
      more := [];
      ghost var line := LineAt(lastUpdateCycle, []).(tdre := true);
      BeganBits(status, txCycles == 0, CA(mode) && RE(control));
      BusySound(Setup(), line);
      status := ClearTEND(status);
      AcceptConserves(books, sends, txData);
      books := books.Accept(txData);
      if txCycles == 0 {
        more := SendAtOnce();
      } else {
        AcceptSound(Setup(), line);
      }
    }

    /** The flags a write to SSR clears. */
    method ClearFlags(val: Byte)
      requires Valid()
      modifies this`status, this`acks
      ensures status == Written(old(status), val) && TDRE(status) == (TDRE(old(status)) && TDRE(val))
      ensures acks == old(acks) + (if RDRF(old(status)) && !RDRF(val) then 1 else 0)
      ensures if Accepts(old(status), control, val) then ReadyFor(status) else ValidFor(Settled(control, status))
    {
      hide Books.Conserves, Inbox.Keeps, Whole, InTime, Settled, Written, RDRF, TDRE, TEND, TE, RE, CA, TEIE, Sound;
      SettledWrite(status, val, control);
      SoundWaiting(Setup(), LineAt(lastUpdateCycle, []), LineAt(lastUpdateCycle, []));
      if RDRF(status) && !RDRF(val) {
        AcknowledgeKeeps(inbox, acks, lastUpdateCycle + rxCycles);
        acks := acks + 1;
      }
      status := Written(status, val);
    }

    /** Without a transmitter the data register is empty and the line at its end. */
    method Settle()
      requires ValidFor(Settled(control, status))
      modifies this`status
      ensures Valid() && status == Settled(control, old(status))
    {
      hide Books.Conserves, Inbox.Keeps, Whole, InTime, Settled, Sound, SetTEND, Emptied;
      hide RDRF, TDRE, TEND, TE, RE, CA, TEIE;
      SettledBits(status, control);
      if !TE(control) {
        status := SetTEND(Emptied(status));
      }
    }

    /** A write to SSR. */
    method SetStatus(val: Byte) returns (ghost more: seq<Byte>)
      requires Valid()
      modifies this`status, this`rxData, this`delayedRX, this`nextUpdateCycle, this`inbox, this`acks
      modifies this`rxCycles, this`txCycles, this`delayedTX, this`sends, this`books, this`incoming, this`offered
      ensures Valid()
      ensures acks == old(acks) + (if RDRF(old(status)) && !RDRF(val) then 1 else 0)
      ensures inbox.receptions == old(inbox).receptions
      ensures !Accepts(old(status), control, val) ==>
        status == Settled(control, Written(old(status), val)) && txCycles == old(txCycles) &&
        books == old(books) && sends == old(sends)
      ensures Accepts(old(status), control, val) ==>
        status == Settled(control, Began(Written(old(status), val), old(txCycles) == 0, CA(mode) && RE(control))) &&
        books == old(books).Accept(txData)
      ensures Accepts(old(status), control, val) ==>
        txCycles == (if old(txCycles) == 0 then cyclesPerChar else old(txCycles)) &&
        sends == if old(txCycles) != 0 then old(sends) else old(sends) + [Frame(txData, lastUpdateCycle, cyclesPerChar)]
      ensures rxCycles == old(rxCycles)
      ensures delayedTX == (old(delayedTX) || (Begins(old(status), control, val, old(txCycles)) && TIE(control)))
      ensures Taken() == if Begins(old(status), control, val, old(txCycles))
        then Sending(old(Taken()), Wiring(), RDRF(Written(old(status), val)), more, lastUpdateCycle) else old(Taken())
      ensures offered == old(offered) + more
      ensures more != [] ==> device && Begins(old(status), control, val, old(txCycles))
    {
      hide Books.Conserves, Books.Accept, Inbox.Keeps, InTime, Settled, Written, RDRF, TDRE, TEND, Sending;
      more := [];
      hide TE, RE, CA, TEIE, TIE, RIE, Sound, Began, Serial.Setup, Serial.LineAt, Serial.ValidFor, Serial.ReadyFor;
      SettledBits(Began(Written(status, val), txCycles == 0, CA(mode) && RE(control)), control);
      var cleared := TDRE(status) && !TDRE(val);
      ClearFlags(val);
      if cleared && TE(control) {
        more := Accept();
      }
      Settle();
    }

    /** A write to TDR: a character already waiting is replaced. */
    method SetData(val: Byte)
      requires Valid()
      modifies this`txData, this`books
      ensures Valid() && txData == val
      ensures books == if TDRE(status) then old(books) else old(books).Replace(val)
    {
      hide Books.Conserves, Books.Replace, Inbox.Keeps, InTime, RDRF, TDRE, TEND, TE, RE, CA, TEIE, Sound;
      ghost var c := Setup();
      if TDRE(status) {
        IdleConserves(books, sends, txData, val);
      } else {
        WaitingConserves(books, sends, txData, val);
        books := books.Replace(val);
      }
      txData := val;
      SetupSound(c, Setup(), LineAt(lastUpdateCycle, []));
    }

    /** The requests an update could not make earlier. */
    method RaiseDelayed(cpu: H8CPU)
      modifies this`delayedTX, this`delayedRX, cpu`requests
      ensures cpu.requests == old(cpu.requests + Delayed(index, delayedTX, delayedRX)) && !delayedTX && !delayedRX
      ensures Receiver() == Fresh(old(Receiver()))
    {
      if delayedTX || delayedRX {
        if delayedTX {
          cpu.Interrupt(TXI(index));
        }
        if delayedRX {
          cpu.Interrupt(RXI(index));
        }
        delayedTX, delayedRX := false, false;
      }
    }

    /** The whole of an update but for the delayed requests: what ticking every cycle would have done to the line, and
        the receiver at once. */
    method Advance(cpu: H8CPU, cycles: nat, ghost from: nat) returns (ghost more: seq<Byte>)
      requires lastUpdateCycle == from + cycles && cyclesPerChar > 0 && Sound(Setup(), LineAt(from, []))
      requires InTime(from, nextUpdateCycle, txCycles, rxCycles, cyclesPerChar)
      requires books.Conserves(sends, TDRE(status), txData) && !delayedTX && !delayedRX
      requires inbox.Keeps(acks, RDRF(status), from + rxCycles) && Whole(Taken(), offered)
      modifies this`status, this`rxData, this`delayedRX, this`nextUpdateCycle, this`inbox, this`incoming, this`offered
      modifies this`rxCycles, this`txCycles, this`delayedTX, this`sends, cpu`requests
      ensures Valid()
      ensures LineAt(from + cycles, cpu.requests) == Ticks(Setup(), old(LineAt(from, cpu.requests)), cycles)
      ensures Receiver() ==
        Begun(old(Receiver()), old(txCycles), !TDRE(old(status)), more, from, cycles).At(Wiring(), cycles)
      ensures offered == old(offered) + more && Others(status) == Others(old(status))
      ensures more != [] ==>
        device && 0 < old(txCycles) <= cycles && Asks(Wiring(), RDRF(old(status)), !TDRE(old(status)))
      ensures delayedTX == (!TDRE(old(status)) && old(txCycles) <= cycles && TIE(control))
      ensures nextUpdateCycle == if cycles == 0 then old(nextUpdateCycle) else Due()
    {
      hide Books.Conserves, Inbox.Keeps, InTime, Whole, Sound, Ticks, Asks, Start.At, Serial.Due;
      hide RDRF, ORER, TDRE, TEND, TE, RE, CA, TEIE, TIE, RIE, Others;
      hide Serial.LineAt, Serial.Receiver, Serial.Setup, Serial.Wiring, Serial.Taken, Serial.ValidFor, Serial.Valid;
      Seen(from, cpu.requests);
      SeenReceiver();
      SeenSetup();
      ghost var c, w, line, r, tx := Setup(), Wiring(), LineAt(from, cpu.requests), Receiver(), txCycles;
      LineKeeps(c, line, cycles, books);
      more := CatchUp(cpu, cycles, from);
      Seen(from + cycles, cpu.requests);
      SeenReceiver();
      AtKeeps(w, Begun(r, tx, !line.tdre, more, from, cycles), cycles, acks, old(offered));
      if cycles == 0 {
        TicksNone(c, line);
        AtStart(w, Begun(r, tx, !line.tdre, more, from, cycles));
      } else {
        DueInTime();
      }
      Assembled();
    }

    /** The requests an update could not make earlier, and how far it has to go. */
    method StartUpdate(cpu: H8CPU) returns (elapsed: nat)
      requires Valid() && lastUpdateCycle <= cpu.clock
      modifies this`delayedTX, this`delayedRX, this`lastUpdateCycle, cpu`requests
      ensures lastUpdateCycle == cpu.clock == old(lastUpdateCycle) + elapsed
      ensures cpu.requests == old(cpu.requests + Delayed(index, delayedTX, delayedRX)) && !delayedTX && !delayedRX
      ensures Receiver() == Fresh(old(Receiver())) && Whole(Taken(), offered)
      ensures var l := LineAt(old(lastUpdateCycle), cpu.requests);
        && l == old(LineAt(lastUpdateCycle, cpu.requests + Delayed(index, delayedTX, delayedRX)))
        && Sound(Setup(), l.(requests := [])) && LineAt(old(lastUpdateCycle), []) == l.(requests := [])
      ensures cyclesPerChar > 0 && InTime(old(lastUpdateCycle), nextUpdateCycle, txCycles, rxCycles, cyclesPerChar)
      ensures books.Conserves(sends, TDRE(status), txData)
      ensures inbox.Keeps(acks, RDRF(status), old(lastUpdateCycle) + rxCycles)
      ensures var l := LineAt(old(lastUpdateCycle), cpu.requests);
        l.left == txCycles && l.tdre == TDRE(status) && l.sends == sends && l.time == old(lastUpdateCycle)
      ensures Setup().cycles == cyclesPerChar && Setup().data == txData && Setup().te == TE(control)
      ensures old(Receiver()).rdrf == RDRF(status) && Wiring().sync == CA(mode)
    {
      hide Books.Conserves, Inbox.Keeps, InTime, Whole, Sound, Delayed;
      hide RDRF, ORER, TDRE, TEND, TE, RE, CA, TEIE, TIE, RIE, Fresh;
      hide Serial.LineAt, Serial.Setup, Serial.Receiver, Serial.Wiring, Serial.Taken, Serial.Valid, Serial.ValidFor;
      Parts();
      SeenReceiver();
      FreshKeeps(Receiver());
      WholeFresh(Taken(), offered);
      RaiseDelayed(cpu);
      SeenReceiver();
      SeenSetup();
      Seen(lastUpdateCycle, cpu.requests);
      elapsed := cpu.clock - lastUpdateCycle;
      lastUpdateCycle := cpu.clock;
    }

    /** Catches up with the clock.  The line is where ticking every cycle would have brought it: a waiting character is
        sent if the one before it has ended, and the end of the last one shows and is reported.  The receiver takes a
        byte of the device as soon as it can, one at most, and in synchronous mode one with each character sent. */
    method Update(cpu: H8CPU) returns (ghost more: seq<Byte>)
      requires Valid() && lastUpdateCycle <= cpu.clock
      modifies this`status, this`rxData, this`delayedRX, this`nextUpdateCycle, this`inbox, this`lastUpdateCycle
      modifies this`rxCycles, this`txCycles, this`delayedTX, this`sends, this`incoming, this`offered, cpu`requests
      ensures Valid() && lastUpdateCycle == cpu.clock
      ensures LineAt(cpu.clock, cpu.requests) == Ticks(Setup(),
        old(LineAt(lastUpdateCycle, cpu.requests + Delayed(index, delayedTX, delayedRX))),
        cpu.clock - old(lastUpdateCycle))
      ensures sends == if !TDRE(old(status)) && old(lastUpdateCycle + txCycles) <= cpu.clock
        then old(sends) + [Frame(txData, old(lastUpdateCycle + txCycles), cyclesPerChar)] else old(sends)
      ensures TDRE(status) <==> TDRE(old(status)) || old(lastUpdateCycle + txCycles) <= cpu.clock
      ensures delayedTX ==
        (!TDRE(old(status)) && old(lastUpdateCycle + txCycles) <= cpu.clock && TIE(control))
      ensures TE(control) ==>
        EndShows(Setup(), old(LineAt(lastUpdateCycle, cpu.requests + Delayed(index, delayedTX, delayedRX))),
                 LineAt(cpu.clock, cpu.requests), cpu.clock - old(lastUpdateCycle))
      // the device answers a byte sent to it
      ensures offered == old(offered) + more
      ensures more != [] ==>
        && device && 0 < old(txCycles) <= cpu.clock - old(lastUpdateCycle)
        && Asks(Wiring(), RDRF(old(status)), !TDRE(old(status)))
      // the receiver
      ensures Takes(Wiring(), old(Receiver()), Receiver(), old(txCycles), !TDRE(old(status)), more,
                    old(lastUpdateCycle), cpu.clock - old(lastUpdateCycle))
      ensures Others(status) == Others(old(status))
      ensures nextUpdateCycle == if old(lastUpdateCycle) == cpu.clock then old(nextUpdateCycle) else Due()
    {
      hide Books.Conserves, Inbox.Keeps, InTime, Whole, Sound, Ticks, Start.At, Serial.Due, Takes;
      hide RDRF, ORER, TDRE, TEND, TE, RE, CA, TEIE, TIE, RIE, Others, Begun, Asks, EndShows, Fresh, Delayed;
      hide Serial.LineAt, Serial.Setup, Serial.Receiver, Serial.Wiring, Serial.Taken, Serial.Valid, Serial.ValidFor;
      var elapsed := StartUpdate(cpu);
      ghost var from := lastUpdateCycle - elapsed;
      ghost var w, line := Wiring(), LineAt(from, cpu.requests);
      more := Advance(cpu, elapsed, from);
      Seen(cpu.clock, cpu.requests);
      Outcome(w, Setup(), old(Receiver()), line, more, elapsed);
    }

    /** Called between instructions: with an interrupt enabled, no character end is ever overdue. */
    method UpdateForInterrupts(cpu: H8CPU) returns (ghost more: seq<Byte>)
      requires Valid() && lastUpdateCycle <= cpu.clock
      modifies this`status, this`rxData, this`delayedRX, this`nextUpdateCycle, this`inbox, this`lastUpdateCycle
      modifies this`rxCycles, this`txCycles, this`delayedTX, this`sends, this`incoming, this`offered, cpu`requests
      ensures Valid() && lastUpdateCycle <= cpu.clock
      ensures Enabled(control) ==>
        && (txCycles > 0 ==> cpu.clock < lastUpdateCycle + txCycles)
        && (rxCycles > 0 ==> cpu.clock < lastUpdateCycle + rxCycles)
      ensures Enabled(control) ==>
        sends == Ticks(Setup(), old(LineAt(lastUpdateCycle, [])), cpu.clock - old(lastUpdateCycle)).sends
      ensures old(sends) <= sends
      ensures if lastUpdateCycle == cpu.clock
        then LineAt(cpu.clock, []) ==
          Quiet(Ticks(Setup(), old(LineAt(lastUpdateCycle, [])), cpu.clock - old(lastUpdateCycle)))
        else LineAt(lastUpdateCycle, []) == old(LineAt(lastUpdateCycle, []))
      ensures offered == old(offered) + more
      ensures if Enabled(control) && old(nextUpdateCycle) <= cpu.clock
        then Takes(Wiring(), old(Receiver()), Receiver(), old(txCycles), !TDRE(old(status)), more,
                   old(lastUpdateCycle), cpu.clock - old(lastUpdateCycle))
        else Receiver() == old(Receiver()) && more == []
    {
      hide Books.Conserves, Inbox.Keeps, Whole, Ticks, Sound, Enabled, Takes;
      hide RDRF, ORER, TDRE, TEND, TE, RE, CA, TEIE, TIE;
      hide Serial.LineAt, Serial.Setup, Serial.Receiver, Serial.Wiring, Serial.Taken, Serial.Valid, Serial.ValidFor;
      hide Delayed, Asks, EndShows, Serial.Due;
      more := [];
      ghost var c, line := Setup(), LineAt(lastUpdateCycle, []);
      Parts();
      Seen(lastUpdateCycle, []);
      TicksNone(c, line);
      if !Enabled(control) {
        return;
      }
      var elapsed := cpu.clock - lastUpdateCycle;
      var toNext := nextUpdateCycle - lastUpdateCycle;
      SoundWaiting(c, line, line);
      SentWhenDue(c, line, elapsed);
      if elapsed >= toNext {
        ghost var raised := cpu.requests + Delayed(index, delayedTX, delayedRX);
        Seen(lastUpdateCycle, raised);
        TicksQuiet(c, LineAt(lastUpdateCycle, raised), elapsed);
        more := Update(cpu);
        Parts();
        Seen(cpu.clock, cpu.requests);
      }
    }

    method SetDevice(attached: bool)
      requires Valid()
      modifies this`device
      ensures Valid() && device == attached
    {
      device := attached;
    }

    method SetSmartCardMode(val: Byte)
      requires Valid()
      modifies this`smartCardMode
      ensures Valid() && smartCardMode == val
    {
      hide Books.Conserves, Inbox.Keeps, Whole, InTime, RDRF, TDRE, TEND, TE, RE, CA, TEIE, Sound;
      smartCardMode := val;
    }

    lemma ValidSettled()
      requires Valid()
      ensures Settled(control, status) == status
    {
      hide Books.Conserves, Inbox.Keeps, Whole, InTime, Settled, RDRF, TDRE, TEND, TE, RE, CA, TEIE, Sound;
      SoundWaiting(Setup(), LineAt(lastUpdateCycle, []), LineAt(lastUpdateCycle, []));
      AlreadySettled(status, control);
    }

    /** A write to any register but SSR. */
    method Store(addr: int, val: Byte, cpu: H8CPU)
      requires Valid() && addr != 4
      modifies this`mode, this`bitRate, this`cyclesPerChar, this`nextUpdateCycle, this`control, this`txCycles
      modifies this`txData, this`smartCardMode, this`books, this`status, cpu`requests
      ensures Valid() && status == Settled(control, old(status))
      ensures mode == (if addr == 0 then val else old(mode)) && bitRate == (if addr == 1 then val else old(bitRate))
      ensures control == (if addr == 2 then val else old(control)) && txData == (if addr == 3 then val else old(txData))
      ensures smartCardMode == if addr == 6 then val else old(smartCardMode)
      ensures cyclesPerChar ==
        if addr == 0 || addr == 1 then CharBits(mode) * BitCycles(mode, bitRate) else old(cyclesPerChar)
      ensures txCycles ==
        if addr == 2 && StartsClock(old(control), val, CA(mode), old(txCycles)) then cyclesPerChar else old(txCycles)
      ensures cpu.requests ==
        if addr == 2 then old(cpu.requests) + Enabling(index, old(control), val, old(status)) else old(cpu.requests)
      ensures books ==
        if addr == 2 && !TE(val) && !TDRE(old(status)) then old(books).Drop()
        else if addr == 3 && !TDRE(old(status)) then old(books).Replace(val)
        else old(books)
    {
      hide Books.Conserves, Books.Drop, Books.Replace, Inbox.Keeps, InTime, Settled;
      hide RDRF, TDRE, TEND, TE, RE, CA, TIE, TEIE, Sound, CharBits, BitCycles, Serial.ValidFor, StartsClock, Enabling;
      ValidSettled();
      if addr == 0 {
        SetMode(val);
      } else if addr == 1 {
        SetBitRate(val);
      } else if addr == 2 {
        SetControl(val, cpu);
      } else if addr == 3 {
        SetData(val);
      } else if addr == 6 {
        SetSmartCardMode(val);
      }
      Settle();
    }

    /** A register write: what it does to every register, to the line, to the interrupts requested and to the books.
        The invariant holds after any write to any address. */
    method SetReg(addr: int, val: Byte, cpu: H8CPU) returns (ghost more: seq<Byte>)
      requires Valid()
      modifies this, cpu`requests
      ensures Valid()
      ensures lastUpdateCycle == old(lastUpdateCycle) && device == old(device)
      ensures mode == (if addr == 0 then val else old(mode)) && bitRate == (if addr == 1 then val else old(bitRate))
      ensures control == (if addr == 2 then val else old(control)) && txData == (if addr == 3 then val else old(txData))
      ensures smartCardMode == if addr == 6 then val else old(smartCardMode)
      ensures cyclesPerChar ==
        if addr == 0 || addr == 1 then CharBits(mode) * BitCycles(mode, bitRate) else old(cyclesPerChar)
      // status
      ensures addr != 4 || !Accepts(old(status), control, val) ==>
        status == Settled(control, if addr == 4 then Written(old(status), val) else old(status))
      ensures addr == 4 && Accepts(old(status), control, val) ==>
        status == Settled(control, Began(Written(old(status), val), old(txCycles) == 0, CA(mode) && RE(control)))
      // the line
      ensures txCycles ==
        if addr == 2 && StartsClock(old(control), val, CA(mode), old(txCycles)) then cyclesPerChar
        else if addr == 4 && Accepts(old(status), control, val) && old(txCycles) == 0 then cyclesPerChar
        else old(txCycles)
      ensures sends ==
        if addr == 4 && Accepts(old(status), control, val) && old(txCycles) == 0
        then old(sends) + [Frame(txData, lastUpdateCycle, cyclesPerChar)] else old(sends)
      // interrupts
      ensures cpu.requests ==
        if addr == 2 then old(cpu.requests) + Enabling(index, old(control), val, old(status)) else old(cpu.requests)
      // books
      ensures books ==
        if addr == 2 && !TE(val) && !TDRE(old(status)) then old(books).Drop()
        else if addr == 3 && !TDRE(old(status)) then old(books).Replace(val)
        else if addr == 4 && Accepts(old(status), control, val) then old(books).Accept(txData)
        else old(books)
      ensures acks == if addr == 4 && RDRF(old(status)) && !RDRF(val) then old(acks) + 1 else old(acks)
      ensures inbox.receptions == old(inbox).receptions
      // the receive side
      ensures rxCycles == old(rxCycles)
      ensures delayedTX ==
        (old(delayedTX) || (addr == 4 && Begins(old(status), control, val, old(txCycles)) && TIE(control)))
      ensures Taken() == if addr == 4 && Begins(old(status), control, val, old(txCycles))
        then Sending(old(Taken()), Wiring(), RDRF(Written(old(status), val)), more, lastUpdateCycle) else old(Taken())
      ensures offered == old(offered) + more
      ensures more != [] ==> device && addr == 4 && Begins(old(status), control, val, old(txCycles))
    {
      hide Books.Conserves, Books.Drop, Books.Replace, Books.Accept, Inbox.Keeps, InTime, Settled;
      hide RDRF, TDRE, TEND, TE, RE, CA, TIE, TEIE, Sound, CharBits, BitCycles, SetTEND, Emptied, Began, Written;
      hide StartsClock, Enabling, Accepts, Begins, RIE, Sending, Serial.ValidFor, Serial.Valid, Serial.Taken;
      more := [];
      if addr == 4 {
        more := SetStatus(val);
      } else {
        Store(addr, val, cpu);
      }
    }
  }

  /** The write hands a character over. */
  predicate Accepts(status: Byte, control: Byte, val: Byte) {
    TDRE(status) && !TDRE(val) && TE(control)
  }

  /** And it goes out at once. */
  predicate Begins(status: Byte, control: Byte, val: Byte, tx: nat) {
    Accepts(status, control, val) && tx == 0
  }

  /** Enabling a receiver alone in synchronous mode starts the clock when it is not running. */
  predicate StartsClock(control: Byte, val: Byte, sync: bool, tx: nat) {
    RE(val) && !RE(control) && !TE(val) && sync && tx == 0
  }

  /** Enabling the transmit interrupt with the data register empty requests it. */
  function Enabling(index: nat, control: Byte, val: Byte, status: Byte): seq<Source> {
    if TIE(val) && !TIE(control) && TE(val) && TDRE(status) then [TXI(index)] else []
  }

  /** Some interrupt of the port is enabled. */
  predicate Enabled(control: Byte) {
    TEIE(control) || MPIE(control) || RIE(control) || TIE(control)
  }

  /** Being sound does not depend on the interrupts requested. */
  lemma SoundWaiting(c: Config, s: Line, t: Line)
    requires Sound(c, s) && t == s.(requests := t.requests)
    ensures Sound(c, t) && (!t.tdre ==> c.te && t.left > 0) && (!c.te ==> t.tdre && t.tend)
  {}

  /** The requests an update raises first. */
  function Delayed(index: nat, tx: bool, rx: bool): seq<Source> {
    (if tx then [TXI(index)] else []) + (if rx then [RXI(index)] else [])
  }
}
