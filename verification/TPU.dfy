/** One channel of the timer pulse unit, which counts by jumping from event to event. */
module TPU {
  import opened Bytes
  import opened TPUTicks

  /** The parts of the CPU a channel touches. */
  class H8CPU {
    var clock: nat
    var tpuStart: set<nat>
    ghost var log: seq<Event>  // interrupt requests and port updates, in order

    method Interrupt(source: nat)
      modifies this`log
      ensures log == old(log) + [Event.Interrupt(source)]
    {
      log := log + [Event.Interrupt(source)];
    }

    method UpdateTPUIO(ioState: Reg8, time: nat)
      modifies this`log
      ensures log == old(log) + [Port(ioState, time)]
    {
      log := log + [Port(ioState, time)];
    }
  }

  class TPU {
    const index: nat
    const general: array<nat>
    var clockDiv: nat
    var clockShift: int
    var lastUpdateCycle: nat
    var nextUpdateCycle: nat
    var nextUpdate: nat
    var clearOn: nat
    var ioState: Reg8
    var ioMask: Reg8
    var mode: Reg8
    var ioControl: Reg16
    var interruptEnable: Reg8
    var status: Reg8
    var counter: nat

    ghost var base: nat  // the counter when `nextUpdateCycle` was computed
    ghost var idle: nat  // the cycles the channel has stood still since

    /** Register ranges, the divider that goes with the shift, and whenever the channel has a clock: the next event is
        known, and the cycle it is taken to be due is late by what the counter had counted then and early by what the
        channel has stood still since.  A shift of -2 comes from both edges of a clock the channel does not have; the
        divider is then whatever a shift by a negative amount gives. */
    ghost predicate Valid()
      reads this, general
    {
      index < 6 && general.Length == 4 && counter < 0x10000 && (forall i :: 0 <= i < 4 ==> general[i] < 0x10000) &&
      -2 <= clockShift <= 8 &&
      (Divides(clockShift, clockDiv) || clockShift == clockDiv == 0) &&
      (clockDiv != 0 ==> nextUpdate == Next(Registers(), counter) && Scheduled())
    }

    /** Where the stored cycle lies from the cycle of the next event. */
    ghost predicate Scheduled()
      reads this`counter, this`nextUpdate, this`nextUpdateCycle, this`lastUpdateCycle, this`clockDiv
      reads this`base, this`idle
    {
      counter <= nextUpdate &&
      nextUpdateCycle + idle == lastUpdateCycle + Span(nextUpdate - counter, clockDiv) + Span(base, clockDiv)
    }

    /** The fixed registers; a channel without clock has the shape of one with a tick every cycle. */
    ghost function Registers(): Config
      reads this, general
    {
      Config(index, if clockDiv == 0 then 1 else clockDiv, clearOn, mode, ioControl, interruptEnable, general[..])
    }

    ghost function Snapshot(cpu: H8CPU): State
      reads this, cpu
    {
      State(counter, status, ioState, lastUpdateCycle, cpu.log)
    }

    constructor (index: nat)
      requires index < 6
      ensures Valid() && fresh(general) && this.index == index && clockDiv == clockShift == 0 && clearOn == 0
      ensures counter == 0 && general[..] == [0xFFFF, 0, 0, 0] && lastUpdateCycle == nextUpdateCycle == nextUpdate == 0
      ensures status == ioState == ioMask == mode == interruptEnable == Reg8(0) && ioControl == Reg16(0)
      ensures base == idle == 0
    {
      this.index := index;
      general := new nat[4](i => if i == 0 then 0xFFFF else 0);
      clockDiv, clockShift := 0, 0;
      lastUpdateCycle, nextUpdateCycle, nextUpdate, clearOn := 0, 0, 0, 0;
      ioState, ioMask, mode, interruptEnable, status := Reg8(0), Reg8(0), Reg8(0), Reg8(0), Reg8(0);
      ioControl, counter := Reg16(0), 0;
      base, idle := 0, 0;
    }

    method CalcNextUpdate()
      requires index < 6 && general.Length == 4 && counter < 0x10000
      requires forall i :: 0 <= i < 4 ==> general[i] < 0x10000
      modifies this`nextUpdate, this`nextUpdateCycle, this`base, this`idle
      ensures nextUpdate == Next(Registers(), counter)
      ensures nextUpdateCycle == lastUpdateCycle + Span(nextUpdate, clockDiv) && base == counter && idle == 0
      ensures nextUpdateCycle == lastUpdateCycle + Span(nextUpdate - counter, clockDiv) + Span(counter, clockDiv)
    {
      hide NextAmong, Span;
      nextUpdate := 0x10000;
      NextOfNone(general[..], counter);
      var numGen := if index == 0 || index == 3 then 4 else 2;
      for i := 0 to numGen
        invariant nextUpdate == NextAmong(general[..], counter, i)
      {
        NextOfOneMore(general[..], counter, i);
        if general[i] > counter && general[i] < nextUpdate {
          nextUpdate := general[i];
        }
      }
      nextUpdateCycle := lastUpdateCycle + Span(nextUpdate, clockDiv);
      SpanAdd(nextUpdate - counter, counter, clockDiv);
      base, idle := counter, 0;
    }

    /** A register write. */
    method SetReg(reg: nat, val: nat)
      requires Valid() && val < 256
      modifies this, general
      ensures Valid() && lastUpdateCycle == old(lastUpdateCycle) && ioState == old(ioState)
      // TCR
      ensures reg == 0 ==> clearOn == val / 32 && clockShift == Shift(index, val) && Divides(clockShift, clockDiv)
      ensures reg == 0 ==> var both := val / 8 % 4 == 2;
        && (val % 8 == 0 ==> clockDiv == 1)
        && (val % 8 == 1 ==> clockDiv == if both then 2 else 4)
        && (val % 8 == 2 ==> clockDiv == if both then 8 else 16)
        && (val % 8 == 3 ==> clockDiv == if both then 32 else 64)
        && (val % 8 == 6 && index % 2 == 1 ==> clockDiv == if both then 128 else 256)
        && (val % 8 >= 4 && !(val % 8 == 6 && index % 2 == 1) && !both ==> clockDiv == 0)
      ensures reg != 0 ==> clearOn == old(clearOn) && clockShift == old(clockShift) && clockDiv == old(clockDiv)
      // TMDR, TIOR, TIER
      ensures mode == if reg == 1 then Byte(val) else old(mode)
      ensures ioControl ==
        if reg == 2 && Wide() then old(ioControl).WithHigh(Byte(val))
        else if reg == 2 then Reg16(0).WithLow(Byte(val))
        else if reg == 3 && Wide() then old(ioControl).WithLow(Byte(val))
        else old(ioControl)
      ensures ioMask == if reg == (if Wide() then 3 else 2) then ioControl.Outputs(Wide()) else old(ioMask)
      ensures interruptEnable == if reg == 4 then Byte(val) else old(interruptEnable)
      // TSR
      ensures status == if reg == 5 then old(status).Only(Byte(val)) else old(status)
      // TCNT
      ensures counter / 256 == (if reg == 6 then val else old(counter) / 256)
      ensures counter % 256 == (if reg == 7 then val else old(counter) % 256)
      // TGRA..TGRD
      ensures forall i :: 0 <= i < 4 ==>
        general[i] / 256 == (if reg == 8 + 2 * i then val else old(general[i]) / 256) &&
        general[i] % 256 == (if reg == 9 + 2 * i then val else old(general[i]) % 256)
      // the next event
      ensures if reg == 0 || 6 <= reg < 16
        then nextUpdateCycle == lastUpdateCycle + Span(nextUpdate, clockDiv) && base == counter && idle == 0
        else nextUpdateCycle == old(nextUpdateCycle) && base == old(base) && idle == old(idle)
    {
      hide NextAmong, Byte, Reg16.WithHigh, Reg16.WithLow, Reg16.Outputs, Reg8.Only;
      hide Pow2, Shift, Prescaler, Divides;
      if reg < 6 {
        SetControl(reg, val);
      } else if reg < 8 {
        SetCounter(reg == 6, val);
      } else if reg < 16 {
        SetGeneral(reg / 2 - 4, reg % 2 == 0, val);
      }
    }

    /** Both bytes of TCNT, in either order. */
    method WriteCounter(high: nat, low: nat, highFirst: bool)
      requires Valid() && high < 256 && low < 256
      modifies this, general
      ensures Valid() && counter == 256 * high + low && forall i :: 0 <= i < 4 ==> general[i] == old(general[i])
    {
      assert general.Length == 4;
      hide Next, Shift, Divides, Byte, Reg16.WithHigh, Reg16.WithLow, Reg16.Outputs, Reg8.Only, TPU.Valid, Span;
      SetReg(if highFirst then 6 else 7, if highFirst then high else low);
      SetReg(if highFirst then 7 else 6, if highFirst then low else high);
      SameWords(old(general[..]), general[..]);
    }

    /** Both bytes of a compare register. */
    method WriteGeneral(i: nat, high: nat, low: nat, highFirst: bool)
      requires Valid() && i < 4 && high < 256 && low < 256
      modifies this, general
      ensures Valid() && counter == old(counter) && general[..] == old(general[..])[i := 256 * high + low]
    {
      assert general.Length == 4;
      hide Next, Shift, Divides, Byte, Reg16.WithHigh, Reg16.WithLow, Reg16.Outputs, Reg8.Only, TPU.Valid, Span;
      SetReg(8 + 2 * i + (if highFirst then 0 else 1), if highFirst then high else low);
      SetReg(8 + 2 * i + (if highFirst then 1 else 0), if highFirst then low else high);
      SameWords(old(general[..])[i := 256 * high + low], general[..]);
    }

    method SetControl(reg: nat, val: nat)
      requires Valid() && reg < 6 && val < 256
      modifies this`clearOn, this`clockShift, this`clockDiv, this`nextUpdate, this`nextUpdateCycle, this`base, this`idle
      modifies this`mode, this`ioControl, this`ioMask, this`interruptEnable, this`status
      ensures Valid()
      ensures reg == 0 ==> clearOn == val / 32 && clockShift == Shift(index, val) && Divides(clockShift, clockDiv)
      ensures reg == 0 ==> var both := val / 8 % 4 == 2;
        && (val % 8 == 0 ==> clockDiv == 1)
        && (val % 8 == 1 ==> clockDiv == if both then 2 else 4)
        && (val % 8 == 2 ==> clockDiv == if both then 8 else 16)
        && (val % 8 == 3 ==> clockDiv == if both then 32 else 64)
        && (val % 8 == 6 && index % 2 == 1 ==> clockDiv == if both then 128 else 256)
        && (val % 8 >= 4 && !(val % 8 == 6 && index % 2 == 1) && !both ==> clockDiv == 0)
      ensures reg != 0 ==> clearOn == old(clearOn) && clockShift == old(clockShift) && clockDiv == old(clockDiv)
      ensures mode == if reg == 1 then Byte(val) else old(mode)
      ensures ioControl ==
        if reg == 2 && Wide() then old(ioControl).WithHigh(Byte(val))
        else if reg == 2 then Reg16(0).WithLow(Byte(val))
        else if reg == 3 && Wide() then old(ioControl).WithLow(Byte(val))
        else old(ioControl)
      ensures ioMask == if reg == (if Wide() then 3 else 2) then ioControl.Outputs(Wide()) else old(ioMask)
      ensures interruptEnable == if reg == 4 then Byte(val) else old(interruptEnable)
      ensures status == if reg == 5 then old(status).Only(Byte(val)) else old(status)
      ensures if reg == 0
        then nextUpdateCycle == lastUpdateCycle + Span(nextUpdate, clockDiv) && base == counter && idle == 0
        else nextUpdateCycle == old(nextUpdateCycle) && base == old(base) && idle == old(idle)
    {
      hide NextAmong, Byte, Reg16.WithHigh, Reg16.WithLow, Reg16.Outputs, Reg8.Only, Reg16.Any;
      hide Pow2, Shift, Prescaler, Divides, Scheduled, Span, Next;
      ghost var c := Registers();
      match reg {
        case 0 => SetTCR(val);
        case 1 => mode := Byte(val);
        case 2 | 3 => SetTIOR(reg, val);
        case 4 => interruptEnable := Byte(val);
        case _ => status := status.Only(Byte(val));
      }
      if reg != 0 { NextSame(c, Registers(), counter); }
    }

    method SetCounter(high: bool, val: nat)
      requires Valid() && val < 256
      modifies this`counter, this`nextUpdate, this`nextUpdateCycle, this`base, this`idle
      ensures Valid() && counter / 256 == (if high then val else old(counter) / 256)
      ensures counter % 256 == if high then old(counter) % 256 else val
      ensures nextUpdateCycle == lastUpdateCycle + Span(nextUpdate, clockDiv) && base == counter && idle == 0
    {
      hide NextAmong, Pow2;
      counter := if high then val * 256 + counter % 256 else counter / 256 * 256 + val;
      CalcNextUpdate();
    }

    method SetGeneral(i: nat, high: bool, val: nat)
      requires Valid() && i < 4 && val < 256
      modifies this`nextUpdate, this`nextUpdateCycle, this`base, this`idle, general
      ensures Valid() && general[i] / 256 == (if high then val else old(general[i]) / 256)
      ensures general[i] % 256 == if high then old(general[i]) % 256 else val
      ensures forall j :: 0 <= j < 4 && j != i ==> general[j] == old(general[j])
      ensures nextUpdateCycle == lastUpdateCycle + Span(nextUpdate, clockDiv) && base == counter && idle == 0
    {
      hide NextAmong, Pow2;
      general[i] := if high then val * 256 + general[i] % 256 else general[i] / 256 * 256 + val;
      CalcNextUpdate();
    }

    method SetTCR(val: nat)
      requires Valid() && val < 256
      modifies this`clockShift, this`clockDiv, this`clearOn, this`nextUpdate, this`nextUpdateCycle, this`base, this`idle
      ensures Valid() && clearOn == val / 32 && clockShift == Shift(index, val) && Divides(clockShift, clockDiv)
      ensures var both := val / 8 % 4 == 2;
        && (val % 8 == 0 ==> clockDiv == 1)
        && (val % 8 == 1 ==> clockDiv == if both then 2 else 4)
        && (val % 8 == 2 ==> clockDiv == if both then 8 else 16)
        && (val % 8 == 3 ==> clockDiv == if both then 32 else 64)
        && (val % 8 == 6 && index % 2 == 1 ==> clockDiv == if both then 128 else 256)
        && (val % 8 >= 4 && !(val % 8 == 6 && index % 2 == 1) && !both ==> clockDiv == 0)
      ensures nextUpdateCycle == lastUpdateCycle + Span(nextUpdate, clockDiv) && base == counter && idle == 0
    {
      hide Next, Pow2, Shift, Span;
      SetShift(val);
      if clockShift == -2 {
        clockDiv := *;
      } else {
        clockDiv := if clockShift == -1 then 0 else Pow2(clockShift);
      }
      clearOn := val / 32;
      Rates(index, val, clockDiv);
      CalcNextUpdate();
    }

    method SetShift(val: nat)
      requires index < 6 && val < 256
      modifies this`clockShift
      ensures clockShift == Shift(index, val) && -2 <= clockShift <= 8
    {
      var edge, tpsc := val / 8 % 4, val % 8;
      if tpsc < 4 {
        clockShift := tpsc * 2;
      } else if tpsc == 6 && (index == 1 || index == 3 || index == 5) {
        clockShift := 8;
      } else {
        clockShift := -1;
      }
      // counting both edges doubles the rate
      if edge == 2 && clockShift != 0 {
        clockShift := clockShift - 1;
      }
    }

    /** Channels 0 and 3 have two halves of output control, the others one. */
    method SetTIOR(reg: nat, val: nat)
      requires (reg == 2 || reg == 3) && val < 256
      modifies this`ioControl, this`ioMask
      ensures ioControl ==
        if reg == 2 && Wide() then old(ioControl).WithHigh(Byte(val))
        else if reg == 2 then Reg16(0).WithLow(Byte(val))
        else if Wide() then old(ioControl).WithLow(Byte(val))
        else old(ioControl)
      ensures ioMask == if reg == (if Wide() then 3 else 2) then ioControl.Outputs(Wide()) else old(ioMask)
    {
      hide Byte, Reg16.WithHigh, Reg16.WithLow, Reg16.Outputs;
      if reg == 2 {
        if index == 0 || index == 3 {
          ioControl := ioControl.WithHigh(Byte(val));
        } else {
          ioControl := Reg16(0).WithLow(Byte(val));
          ioMask := ioControl.Outputs(false);
        }
      } else if index == 0 || index == 3 {
        ioControl := ioControl.WithLow(Byte(val));
        ioMask := ioControl.Outputs(true);
      }
    }

    predicate Wide() {
      index == 0 || index == 3
    }

    method SetIO(cpu: H8CPU, pin: bv8, value: bool)
      modifies this`ioState, cpu`log
      ensures Snapshot(cpu) == TPUTicks.SetIO(old(Snapshot(cpu)), pin, value)
    {
      if value {
        ioState := ioState.With(pin);
      } else {
        ioState := ioState.Without(pin);
      }
      cpu.UpdateTPUIO(ioState, lastUpdateCycle);
    }

    method Clear(cpu: H8CPU)
      modifies this`counter, this`ioState, cpu`log
      ensures Snapshot(cpu) == TPUTicks.Clear(Registers(), old(Snapshot(cpu)))
    {
      counter := 0;
      if mode.Is(0xF, 3) {
        // the outputs start over too
        if ioControl.Any(0x03) {
          SetIO(cpu, 1, ioControl.Any(0x04));
        }
        if ioControl.Any(0x30) {
          SetIO(cpu, 2, ioControl.Any(0x40));
        }
      }
    }

    method Raise(cpu: H8CPU, enable: bv8, source: nat)
      modifies cpu`log
      ensures Snapshot(cpu) == TPUTicks.Raise(Registers(), old(Snapshot(cpu)), enable, source)
    {
      if interruptEnable.Any(enable) {
        cpu.Interrupt(source);
      }
    }

    method CheckOverflow(cpu: H8CPU)
      requires Registers().Valid()
      modifies this`status, cpu`log
      ensures Snapshot(cpu) == Overflow(Registers(), old(Snapshot(cpu)))
    {
      hide TPUTicks.Raise;
      if counter == 0 {
        status := status.With(0x10);
        Raise(cpu, 0x10, OVERFLOW_SOURCES[index]);
      }
    }

    method CheckA(cpu: H8CPU)
      requires Registers().Valid()
      modifies this`counter, this`status, this`ioState, cpu`log
      ensures Snapshot(cpu) == CompareA(Registers(), old(Snapshot(cpu)))
    {
      hide TPUTicks.Clear, TPUTicks.SetIO, TPUTicks.Raise;
      if counter == general[0] {
        status := status.With(1);
        if clearOn == 1 {
          Clear(cpu);
        }
        Raise(cpu, 1, COMPARE_A_SOURCES[index]);
        // the pin follows unless it is an input
        ioControl.SelectIsAny();
        if ioControl.Any(0x03) && !ioControl.Any(0x08) {
          var value := false;
          match ioControl.Select(0) {
            case 1 => value := false;
            case 2 => value := true;
            case _ => value := !ioState.Any(1);
          }
          SetIO(cpu, 1, value);
        }
      }
    }

    method CheckB(cpu: H8CPU)
      requires Registers().Valid()
      modifies this`counter, this`status, this`ioState, cpu`log
      ensures Snapshot(cpu) == CompareB(Registers(), old(Snapshot(cpu)))
    {
      hide TPUTicks.Clear, TPUTicks.SetIO, TPUTicks.Raise;
      if counter == general[1] {
        status := status.With(2);
        if clearOn == 2 {
          Clear(cpu);
        }
        Raise(cpu, 2, COMPARE_A_SOURCES[index] + 1);
        // the pin follows unless it is an input
        ioControl.SelectIsAny();
        if ioControl.Any(0x30) && !ioControl.Any(0x80) {
          var value := false;
          match ioControl.Select(1) {
            case 1 => value := false;
            case 2 => value := true;
            case _ => value := !ioState.Any(2);
          }
          SetIO(cpu, 2, value);
        }
      }
    }

    method CheckC(cpu: H8CPU)
      requires Registers().Valid()
      modifies this`counter, this`status, this`ioState, cpu`log
      ensures Snapshot(cpu) == CompareC(Registers(), old(Snapshot(cpu)))
    {
      hide TPUTicks.Clear, TPUTicks.SetIO, TPUTicks.Raise;
      if counter == general[2] {
        status := status.With(4);
        if clearOn == 5 {
          Clear(cpu);
        }
        Raise(cpu, 4, if index == 0 then 34 else 50);
      }
    }

    method CheckD(cpu: H8CPU)
      requires Registers().Valid()
      modifies this`counter, this`status, this`ioState, cpu`log
      ensures Snapshot(cpu) == CompareD(Registers(), old(Snapshot(cpu)))
    {
      hide TPUTicks.Clear, TPUTicks.SetIO, TPUTicks.Raise;
      if counter == general[3] {
        status := status.With(8);
        if clearOn == 6 {
          Clear(cpu);
        }
        Raise(cpu, 8, if index == 0 then 35 else 51);
      }
    }

    predicate Counting(cpu: H8CPU)
      reads this, cpu
    {
      clockDiv != 0 && index in cpu.tpuStart && clockShift != -2
    }

    /** Brings the channel up to the clock.  Jumping from event to event, it does what the ticks in between do.  With a
        negative shift nothing is known of the count.  Only an update that meets an event looks for the next one. */
    method Update(cpu: H8CPU)
      requires Valid() && lastUpdateCycle <= cpu.clock
      modifies this, cpu`log
      ensures Valid() && Registers() == old(Registers()) && clockDiv == old(clockDiv) && ioMask == old(ioMask)
      ensures clockShift == old(clockShift)
      ensures clockDiv == 0 || index !in cpu.tpuStart ==>
        && Snapshot(cpu) == old(Snapshot(cpu)).(last := cpu.clock)
        && nextUpdateCycle == old(nextUpdateCycle) && base == old(base)
        && idle == old(idle) + cpu.clock - old(lastUpdateCycle)
      ensures Counting(cpu) ==> Snapshot(cpu) == Sample(Registers(), old(Snapshot(cpu)), cpu.clock)
      ensures Counting(cpu) ==>
        if cpu.clock < old(EventCycle(Registers(), Snapshot(cpu)))
        then nextUpdateCycle == old(nextUpdateCycle) && base == old(base) && idle == old(idle)
        else nextUpdateCycle == lastUpdateCycle + Span(nextUpdate, clockDiv) && base == counter && idle == 0
    {
      hide Checks, Ticks, Next, Advance, Span, Whole, Pow2, Divides;
      if clockDiv == 0 || index !in cpu.tpuStart {
        idle := idle + cpu.clock - lastUpdateCycle;
        lastUpdateCycle := cpu.clock;
      } else if clockShift == -2 {
        Undefined(cpu);
      } else {
        Count(cpu);
      }
    }

    /** Called between instructions.  With an interrupt enabled, a counting channel is updated from the cycle on that it
        takes the next event to be due; an event before that cycle is left overdue. */
    method UpdateForInterrupts(cpu: H8CPU)
      requires Valid() && lastUpdateCycle <= cpu.clock
      modifies this, cpu`log
      ensures Valid() && Registers() == old(Registers()) && clockDiv == old(clockDiv) && ioMask == old(ioMask)
      ensures clockShift == old(clockShift)
      ensures interruptEnable == Reg8(0) || cpu.clock < old(nextUpdateCycle) ==>
        Snapshot(cpu) == old(Snapshot(cpu)) && nextUpdateCycle == old(nextUpdateCycle) &&
        base == old(base) && idle == old(idle)
      ensures interruptEnable != Reg8(0) && Counting(cpu) ==>
        && Snapshot(cpu) == Look(Registers(), old(Snapshot(cpu)), old(nextUpdateCycle), cpu.clock)
        && (EventCycle(Registers(), Snapshot(cpu)) <= cpu.clock <==>
              old(EventCycle(Registers(), Snapshot(cpu))) <= cpu.clock < old(nextUpdateCycle))
        && cpu.clock < EventCycle(Registers(), Snapshot(cpu)) + Span(base, clockDiv)
      ensures interruptEnable != Reg8(0) && Counting(cpu) && old(nextUpdateCycle) <= cpu.clock ==>
        if cpu.clock < old(EventCycle(Registers(), Snapshot(cpu)))
        then nextUpdateCycle == old(nextUpdateCycle) && base == old(base) && idle == old(idle)
        else nextUpdateCycle == lastUpdateCycle + Span(nextUpdate, clockDiv) && base == counter && idle == 0
    {
      hide Checks, Ticks, Next, Advance, Span, Whole, Pow2, Divides, Sample;
      ghost var c, s := Registers(), Snapshot(cpu);
      var elapsed := cpu.clock - lastUpdateCycle;
      var toNext := nextUpdateCycle - lastUpdateCycle;
      LookOverdue(c, s, nextUpdateCycle, cpu.clock);
      SampleCurrent(c, s, cpu.clock);
      if interruptEnable != Reg8(0) && elapsed >= toNext {
        Update(cpu);
      }
    }

    /** When the interrupts of a counting channel are never late: if and only if the counter was 0 when the next event
        was looked for, or the channel has stood still long enough since, which shows in the cycle stored. */
    lemma PunctualWhen(cpu: H8CPU)
      requires Valid() && Counting(cpu)
      ensures var c, s := Registers(), Snapshot(cpu);
        && nextUpdateCycle + idle == EventCycle(c, s) + Span(base, clockDiv)
        && (Punctual(c, s, nextUpdateCycle) <==> base == 0 || nextUpdateCycle <= EventCycle(c, s))
        && (Punctual(c, s, nextUpdateCycle) <==> Span(base, clockDiv) <= idle)
    {
      hide Next, Span, Punctual, Pow2, Divides;
      SpanZero(base, clockDiv);
      PunctualExact(Registers(), Snapshot(cpu), nextUpdateCycle);
    }

    /** What a shift by a negative amount does to the count is anyone's guess. */
    method Undefined(cpu: H8CPU)
      requires Valid()
      modifies this, cpu`log
      ensures Valid() && Registers() == old(Registers()) && clockDiv == old(clockDiv) && ioMask == old(ioMask)
      ensures clockShift == old(clockShift)
    {
      hide Next, Pow2;
      var count: nat, cycle: nat := *, *;
      counter, lastUpdateCycle := count % 0x10000, cycle;
      status, ioState := *, *;
      cpu.log := *;
      CalcNextUpdate();
    }

    /** The part of an update that counts. */
    method Count(cpu: H8CPU)
      requires Valid() && lastUpdateCycle <= cpu.clock && clockDiv != 0 && clockShift != -2
      modifies this, cpu`log
      ensures Valid() && Registers() == old(Registers()) && clockDiv == old(clockDiv) && ioMask == old(ioMask)
      ensures clockShift == old(clockShift)
      ensures Snapshot(cpu) == Sample(Registers(), old(Snapshot(cpu)), cpu.clock)
      ensures if cpu.clock < old(EventCycle(Registers(), Snapshot(cpu)))
        then nextUpdateCycle == old(nextUpdateCycle) && base == old(base) && idle == old(idle)
        else nextUpdateCycle == lastUpdateCycle + Span(nextUpdate, clockDiv) && base == counter && idle == 0
    {
      hide Checks, Ticks, Next, Advance, Span, Whole, Pow2, Divides, EventCycle;
      ghost var c, s := Registers(), Snapshot(cpu);
      ShortOfEvent(c, s, cpu.clock);
      var elapsed := cpu.clock - lastUpdateCycle;
      var inc := Whole(elapsed, clockDiv); // the source shifts by clockShift
      ghost var total := inc;

      // short of the next event
      var incCounter := counter + inc;
      if incCounter < nextUpdate {
        SkipAll(c, s, inc);
        SpanAdd(inc, nextUpdate - incCounter, clockDiv);
        counter := incCounter;
        lastUpdateCycle := lastUpdateCycle + Span(inc, clockDiv);
        return;
      }

      StartTicks(c, s);
      while inc != 0
        invariant Registers() == c && clockDiv == old(clockDiv) != 0 && clockShift == old(clockShift)
        invariant ioMask == old(ioMask) && 0 <= inc <= total && Valid()
        invariant Snapshot(cpu) == Ticks(c, s, total - inc)
        invariant inc < total ==>
          nextUpdateCycle == lastUpdateCycle + Span(nextUpdate, clockDiv) && base == counter && idle == 0
      {
        var step := if inc < nextUpdate - counter then inc else nextUpdate - counter;
        TicksCompose(c, s, total - inc, step);
        Jump(cpu, step);
        inc := inc - step;
      }
    }

    /** One step of the event loop. */
    method Jump(cpu: H8CPU, step: nat)
      requires Valid() && clockDiv != 0 && 1 <= step && counter + step <= nextUpdate
      modifies this, cpu`log
      ensures Valid() && Registers() == old(Registers())
      ensures clockDiv == old(clockDiv) && clockShift == old(clockShift) && ioMask == old(ioMask)
      ensures Snapshot(cpu) == Ticks(Registers(), old(Snapshot(cpu)), step)
      ensures nextUpdateCycle == lastUpdateCycle + Span(nextUpdate, clockDiv) && base == counter && idle == 0
    {
      hide Checks, Ticks, Next, Advance, Span, Whole, Pow2, Divides;
      ghost var c, before := Registers(), Snapshot(cpu);
      JumpTicks(c, before, step);
      Move(cpu, step);
      CheckAll(cpu);
      CalcNextUpdate();
    }

    /** The 16-bit counter and its cycle stamp move on. */
    method Move(cpu: H8CPU, step: nat)
      requires clockDiv != 0
      modifies this`counter, this`lastUpdateCycle
      ensures counter < 0x10000 && Snapshot(cpu) == Advance(Registers(), old(Snapshot(cpu)), step)
    {
      hide Advance, Span;
      AdvanceFields(Registers(), Snapshot(cpu), step);
      counter := (counter + step) % 0x10000;
      lastUpdateCycle := lastUpdateCycle + Span(step, clockDiv);
    }

    method CheckAll(cpu: H8CPU)
      requires Registers().Valid() && counter < 0x10000
      modifies this`counter, this`status, this`ioState, cpu`log
      ensures Snapshot(cpu) == Checks(Registers(), old(Snapshot(cpu))) && counter < 0x10000
    {
      hide Overflow, CompareA, CompareB, CompareC, CompareD;
      CheckOverflow(cpu);
      CheckA(cpu);
      CheckB(cpu);
      if index != 0 && index != 3 {
        return;
      }
      CheckC(cpu);
      CheckD(cpu);
    }
  }

  /** The clock shift of a TCR value before edges are looked at; -1 for the clocks a channel does not have. */
  function Prescaler(index: nat, val: nat): int {
    if val % 8 < 4 then val % 8 * 2 else if val % 8 == 6 && index % 2 == 1 then 8 else -1
  }

  /** The divider of a shift; 0 for none, and unknown for a negative one. */
  predicate Divides(shift: int, div: nat) {
    shift == -2 || div == if shift < 0 then 0 else Pow2(shift)
  }

  /** Counting both edges halves the divider, where there is something to halve. */
  function Shift(index: nat, val: nat): int {
    var p := Prescaler(index, val);
    if val / 8 % 4 == 2 && p != 0 then p - 1 else p
  }

  /** The dividers in numbers. */
  lemma Rates(index: nat, val: nat, div: nat)
    requires Divides(Shift(index, val), div)
    ensures var both := val / 8 % 4 == 2;
      && (val % 8 == 0 ==> div == 1)
      && (val % 8 == 1 ==> div == if both then 2 else 4)
      && (val % 8 == 2 ==> div == if both then 8 else 16)
      && (val % 8 == 3 ==> div == if both then 32 else 64)
      && (val % 8 == 6 && index % 2 == 1 ==> div == if both then 128 else 256)
      && (val % 8 >= 4 && !(val % 8 == 6 && index % 2 == 1) && !both ==> div == 0)
  {
    hide Pow2;
    PowersToEight();
  }

  lemma PowersToEight()
    ensures Pow2(0) == 1 && Pow2(1) == 2 && Pow2(2) == 4 && Pow2(3) == 8 && Pow2(4) == 16 && Pow2(5) == 32
    ensures Pow2(6) == 64 && Pow2(7) == 128 && Pow2(8) == 256
  {}

  /** Words with the same bytes are the same. */
  lemma SameWords(a: seq<nat>, b: seq<nat>)
    requires |a| == |b| && forall i :: 0 <= i < |a| ==> a[i] / 256 == b[i] / 256 && a[i] % 256 == b[i] % 256
    ensures a == b
  {
    assert forall i :: 0 <= i < |a| ==> a[i] == b[i];
  }

  lemma NextSame(c: Config, d: Config, counter: nat)
    requires c.Valid() && d.Valid() && counter < 0x10000 && c.index == d.index && c.general == d.general
    ensures Next(c, counter) == Next(d, counter)
  {
    hide NextAmong;
  }

  lemma NextOfNone(general: seq<nat>, counter: nat)
    requires counter < 0x10000
    ensures NextAmong(general, counter, 0) == 0x10000
  {}

  lemma NextOfOneMore(general: seq<nat>, counter: nat, i: nat)
    requires i < |general| && counter < 0x10000
    ensures var n := NextAmong(general, counter, i);
      NextAmong(general, counter, i + 1) == if general[i] > counter && general[i] < n then general[i] else n
  {}

  lemma SkipAll(c: Config, s: State, n: nat)
    requires c.Valid() && s.counter < 0x10000 && s.counter + n < Next(c, s.counter)
    ensures Ticks(c, s, n) == s.(counter := s.counter + n, last := s.last + Span(n, c.div))
    ensures Next(c, s.counter + n) == Next(c, s.counter)
  {
    hide Span, Ticks, Next;
    QuietTicks(c, s, n);
    NextStays(c, s.counter, s.counter + n);
  }

  lemma StartTicks(c: Config, s: State)
    requires c.Valid()
    ensures Ticks(c, s, 0) == s
  {}

  lemma AdvanceFields(c: Config, s: State, n: nat)
    ensures Advance(c, s, n) == s.(counter := (s.counter + n) % 0x10000, last := s.last + Span(n, c.div))
  {}

  // ---------- a channel that is looked at too late ----------

  /** A tick every cycle, compare registers 10 and 20 that clear nothing, and an interrupt for the second. */
  function Two(): (c: Config)
    ensures c.Valid()
  {
    Config(1, 1, 0, Reg8(0), Reg16(0), Reg8(2), [10, 20, 0, 0])
  }

  lemma TwoMatches(s: State)
    requires s.counter == 0
    ensures Next(Two(), 0) == 10 && EventCycle(Two(), s) == s.last + 10
    ensures var r := Sample(Two(), s, s.last + 10);
      r.counter == 10 && r.last == s.last + 10 && r.log == s.log &&
      Next(Two(), 10) == 20 && EventCycle(Two(), r) == s.last + 20 &&
      Sample(Two(), r, s.last + 20).log == s.log + [Event.Interrupt(41)]
  {
    hide Checks, Sample, Span, Reg16.Select, Reg8.Any, Next;
    var c := Two();
    SpanOne(10);
    NoOutputs();
    EnablesB();
    TwoNext();
    DueThen(c, s, s.last + 10);
    SilentMatch(c, Advance(c, s, 10));
    var r := Sample(c, s, s.last + 10);
    DueThen(c, r, s.last + 20);
    PlainMatch(c, Advance(c, r, 10));
  }

  lemma TwoNext()
    ensures Next(Two(), 0) == 10 && Next(Two(), 10) == 20
  {}

  lemma EnablesB()
    ensures !Reg8(2).Any(1) && Reg8(2).Any(2)
  {}

  /** Set up by register writes while stopped, then started.  The first match is met in time; with it the second is
      taken to be due ten cycles late, and when it happens the look leaves it overdue: its interrupt has to wait. */
  method LateMatch(cpu: H8CPU) returns (t: TPU)
    requires cpu.tpuStart == {}
    modifies cpu
    ensures fresh(t) && fresh(t.general) && t.Valid() && t.Counting(cpu) && t.Registers() == Two()
    ensures cpu.clock == old(cpu.clock) + 20 && cpu.log == old(cpu.log)
    ensures EventCycle(Two(), t.Snapshot(cpu)) == cpu.clock && t.nextUpdateCycle == cpu.clock + 10
    ensures Sample(Two(), t.Snapshot(cpu), cpu.clock).log == cpu.log + [Event.Interrupt(41)]
  {
    hide Next, Sample, Span, EventCycle, Reg8.Any, TPU.Scheduled;
    t := SetUp();
    t.Update(cpu);
    cpu.tpuStart := {1};
    ghost var start := t.Snapshot(cpu);
    TwoMatches(start);
    SpanOne(20);
    cpu.clock := cpu.clock + 10;
    t.UpdateForInterrupts(cpu);
    cpu.clock := cpu.clock + 10;
    t.UpdateForInterrupts(cpu);
  }

  method SetUp() returns (t: TPU)
    ensures fresh(t) && fresh(t.general) && t.Valid() && t.Registers() == Two() && t.clockDiv == 1 && t.clockShift == 0
    ensures t.counter == 0 && t.lastUpdateCycle == 0 && t.nextUpdateCycle == 10
  {
    hide Next, Span, Shift, Divides, TPU.Scheduled, Byte;
    TwoNext();
    SpanOne(10);
    TwoBytes();
    t := new TPU(1);
    t.SetReg(4, 2);
    t.SetReg(8, 0);
    t.SetReg(9, 10);
    t.SetReg(11, 20);
    t.SetReg(0, 0);
  }

  lemma TwoBytes()
    ensures Byte(2) == Reg8(2) && Shift(1, 0) == 0 && forall div: nat :: Divides(0, div) ==> div == 1
  {}

  // ---------- the shift that is undefined ----------

  /** Both edges of a clock the channel does not have. */
  lemma ShiftUndefined(index: nat, val: nat)
    ensures Shift(index, val) == -2 <==>
      val / 8 % 4 == 2 && val % 8 >= 4 && !(val % 8 == 6 && index % 2 == 1)
  {}

  /** One such write starts every channel's count off. */
  lemma UndefinedSample(index: nat)
    ensures Shift(index, 0x14) == -2
  {}
}
