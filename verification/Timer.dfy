/** Timers with the time passed in (lib/logic/timer_ext.c); lib/logic/timer.c is the same with the system clock. */
module Timer {
  const MILLION := 1_000_000

  datatype TimeVal = TimeVal(sec: int, usec: int)

  predicate Normal(t: TimeVal) {
    0 <= t.usec < MILLION
  }

  function Micros(t: TimeVal): int {
    t.sec * MILLION + t.usec
  }

  /** Conversion of a double to an integer: towards zero. */
  function Trunc(x: real): int {
    if x >= 0.0 then x.Floor else -((-x).Floor)
  }

  function Abs(x: real): real {
    if x < 0.0 then -x else x
  }

  lemma TruncBound(x: real)
    ensures Abs(Trunc(x) as real - x) < 1.0 && Abs(Trunc(x) as real) <= Abs(x)
  {}

  class PlcTimer {
    var sec: int
    var usec: int
    var enabled: bool

    /** Microseconds accumulated, or the clock reading that corresponds to zero. */
    ghost function Raw(): int
      reads this
    {
      Micros(TimeVal(sec, usec))
    }

    /** plc_timer_get, in microseconds. */
    ghost function Reading(now: TimeVal): int
      reads this
    {
      if enabled then Micros(now) - Raw() else Raw()
    }

    ghost predicate Valid()
      reads this
    {
      0 <= usec < MILLION
    }

    constructor ()
      ensures Valid() && !enabled && Raw() == 0
    {
      sec, usec, enabled := 0, 0, false;
    }

    method Normalize()
      modifies this
      ensures Valid() && Raw() == old(Raw()) && enabled == old(enabled)
    {
      while usec >= MILLION
        invariant Raw() == old(Raw()) && enabled == old(enabled)
      {
        usec := usec - MILLION;
        sec := sec + 1;
      }
      while usec < 0
        invariant usec < MILLION && Raw() == old(Raw()) && enabled == old(enabled)
        decreases -usec
      {
        usec := usec + MILLION;
        sec := sec - 1;
      }
    }

    method Clear()
      modifies this
      ensures Valid() && !enabled && forall now :: Reading(now) == 0
    {
      sec, usec, enabled := 0, 0, false;
    }

    method Start(now: TimeVal)
      requires Normal(now)
      modifies this
      ensures Valid() && enabled && Raw() == Micros(now) && Reading(now) == 0
    {
      sec, usec, enabled := now.sec, now.usec, true;
    }

    /** Enable and disable share one subtraction; a single borrow is enough. */
    method Enable(now: TimeVal)
      requires Valid() && Normal(now)
      modifies this
      ensures Valid() && enabled
      ensures Raw() == if old(enabled) then old(Raw()) else Micros(now) - old(Raw())
      ensures Reading(now) == old(Reading(now))
    {
      if enabled {
        return;
      }
      usec := now.usec - usec;
      sec := now.sec - sec;
      if usec < 0 {
        usec := usec + MILLION;
        sec := sec - 1;
      }
      enabled := true;
    }

    method Disable(now: TimeVal)
      requires Valid() && Normal(now)
      modifies this
      ensures Valid() && !enabled
      ensures Raw() == if old(enabled) then Micros(now) - old(Raw()) else old(Raw())
      ensures Reading(now) == old(Reading(now))
    {
      if !enabled {
        return;
      }
      usec := now.usec - usec;
      sec := now.sec - sec;
      if usec < 0 {
        usec := usec + MILLION;
        sec := sec - 1;
      }
      enabled := false;
    }

    /** Advance by `incr` seconds: right to within one microsecond, whether running or not. */
    method Add(incr: real, now: TimeVal)
      requires Valid() && Normal(now)
      modifies this
      ensures Valid() && enabled == old(enabled)
      ensures Abs((Reading(now) - old(Reading(now))) as real - incr * 1000000.0) < 1.0
    {
      var amount := if enabled then -incr else incr;
      var s := Trunc(amount);
      sec := sec + s;
      amount := amount - s as real;
      ghost var exact := usec as real + amount * 1000000.0;
      usec := Trunc(usec as real + amount * 1000000.0);
      TruncBound(exact);
      Normalize();
    }

    /** Set to `val` seconds: right to within one microsecond; running or not stays as it is. */
    method Set(val: real, now: TimeVal)
      requires Normal(now)
      modifies this
      ensures Valid() && enabled == old(enabled)
      ensures Abs(Reading(now) as real - val * 1000000.0) < 1.0
    {
      var s := Trunc(val);
      var rest := val - s as real;
      if enabled {
        sec, usec := now.sec - s, Trunc(now.usec as real - rest * 1000000.0);
        TruncBound(now.usec as real - rest * 1000000.0);
      } else {
        sec, usec := s, Trunc(rest * 1000000.0);
        TruncBound(rest * 1000000.0);
      }
      Normalize();
    }
  }

  // ----- whole runs -----

  datatype Op = StartAt(now: TimeVal) | EnableAt(now: TimeVal) | DisableAt(now: TimeVal)

  /** The timer by its abstract value. */
  datatype Value = Value(raw: int, enabled: bool)

  function Step(v: Value, op: Op): Value {
    match op
    case StartAt(now) => Value(Micros(now), true)
    case EnableAt(now) => if v.enabled then v else Value(Micros(now) - v.raw, true)
    case DisableAt(now) => if v.enabled then Value(Micros(now) - v.raw, false) else v
  }

  function Run(v: Value, ops: seq<Op>): Value {
    if ops == [] then v else Step(Run(v, ops[..|ops| - 1]), ops[|ops| - 1])
  }

  function ReadingOf(v: Value, now: TimeVal): int {
    if v.enabled then Micros(now) - v.raw else v.raw
  }

  /** Time spent enabled since the last start, up to `now`: the sum over the intervals between calls. */
  function EnabledTime(v: Value, ops: seq<Op>, now: TimeVal): int {
    if ops == [] then 0
    else
      var k := |ops| - 1;
      var last := if Run(v, ops).enabled then Micros(now) - Micros(ops[k].now) else 0;
      (if ops[k].StartAt? then 0 else EnabledTime(v, ops[..k], ops[k].now)) + last
  }

  /** In every run after a clear, the reading is exactly the total enabled time since the last start. */
  lemma {:induction false} ReadingIsEnabledTime(ops: seq<Op>, now: TimeVal)
    ensures ReadingOf(Run(Value(0, false), ops), now) == EnabledTime(Value(0, false), ops, now)
    decreases |ops|
  {
    if ops == [] {
    } else {
      var k := |ops| - 1;
      ReadingIsEnabledTime(ops[..k], ops[k].now);
    }
  }

  /** The calls do to the fields what the abstract steps do. */
  method Apply(t: PlcTimer, op: Op)
    requires t.Valid() && Normal(op.now)
    modifies t
    ensures t.Valid()
    ensures Value(t.Raw(), t.enabled) == Step(old(Value(t.Raw(), t.enabled)), op)
  {
    match op {
      case StartAt(now) => t.Start(now);
      case EnableAt(now) => t.Enable(now);
      case DisableAt(now) => t.Disable(now);
    }
  }
}
