/** The volume ramp: one level shared by any number of live timers, each of which moves it towards the target. */
module VolumeRamp {
  import opened Options

  /** The ramp's level, its target, its steps, and the event sources that will still fire. */
  datatype State = State(current: int, target: int, stepUp: int, stepDown: int, live: set<nat>)

  /** One firing of a timer; `ok` tells whether the control could be set. */
  datatype Tick = Tick(timer: nat, ok: bool)

  function Moved(current: int, target: int, up: int, down: int): int {
    var lower := if current > target then (if current - down < target then target else current - down) else current;
    if lower < target then (if lower + up > target then target else lower + up) else lower
  }

  /** The level moves; the timer ends at the target or when the control cannot be set, and else fires again. */
  function Step(s: State, t: Tick): State {
    var current := Moved(s.current, s.target, s.stepUp, s.stepDown);
    s.(current := current, live := if !t.ok || current == s.target then s.live - {t.timer} else s.live)
  }

  /** Only live timers fire, in any order. */
  predicate IsRun(s: State, ts: seq<Tick>)
    decreases ts
  {
    ts == [] || (ts[0].timer in s.live && IsRun(Step(s, ts[0]), ts[1..]))
  }

  function Run(s: State, ts: seq<Tick>): State
    decreases ts
  {
    if ts == [] then s else Run(Step(s, ts[0]), ts[1..])
  }

  function Gap(s: State): nat {
    if s.current < s.target then s.target - s.current else s.current - s.target
  }

  /** `b` lies between `a` and the target. */
  predicate Between(a: int, b: int, target: int) {
    a <= b <= target || target <= b <= a
  }

  predicate Positive(s: State) {
    s.stepUp > 0 && s.stepDown > 0
  }

  /** Whatever the interleaving and whatever controls cannot be set, the level stays between where it was and
      the target, at every moment of the run, and never moves back. */
  lemma {:induction false} LevelIsMonotone(s: State, ts: seq<Tick>, k: nat)
    requires Positive(s) && k <= |ts|
    ensures Run(s, ts).target == s.target
    ensures Between(s.current, Run(s, ts[..k]).current, s.target)
    ensures Between(Run(s, ts[..k]).current, Run(s, ts).current, s.target)
    decreases ts
  {
    if ts != [] {
      var next := Step(s, ts[0]);
      LevelIsMonotone(next, ts[1..], if k > 0 then k - 1 else 0);
      if k > 0 {
        assert ts[..k][0] == ts[0] && ts[..k][1..] == ts[1..][..k - 1];
      }
    }
  }

  /** How many moves lead to the target: the distance in steps of its direction, rounded up. */
  function MovesLeft(s: State): nat
    requires Positive(s)
  {
    if s.current < s.target then RoundedUp(s.target - s.current, s.stepUp)
    else RoundedUp(s.current - s.target, s.stepDown)
  }

  function RoundedUp(distance: nat, step: int): (r: nat)
    requires step > 0
    ensures distance == 0 ==> r == 0
  {
    (distance + step - 1) / step
  }

  lemma OneStepLess(distance: nat, step: int)
    requires step > 0
    ensures distance > step ==> RoundedUp(distance - step, step) == RoundedUp(distance, step) - 1
    ensures 0 < distance <= step ==> RoundedUp(distance, step) == 1
  {
    if distance > step {
      var q, r := (distance - 1) / step, (distance - 1) % step;
      assert distance + step - 1 == (q + 1) * step + r;
      Divides(distance + step - 1, step, q + 1, r);
    } else if distance > 0 {
      Divides(distance + step - 1, step, 1, distance - 1);
    }
  }

  lemma Divides(a: int, d: int, q: int, r: int)
    requires d > 0 && a == q * d + r && 0 <= r < d
    ensures a / d == q
  {
    var e := a / d - q;
    assert e * d == (a / d) * d - q * d;
    assert e >= 1 ==> e * d >= d;
    assert e <= -1 ==> e * d <= -d;
  }

  /** One tick makes one of the moves left, unless there is none. */
  lemma OneMoveLess(s: State, t: Tick)
    requires Positive(s)
    ensures MovesLeft(Step(s, t)) == if MovesLeft(s) == 0 then 0 else MovesLeft(s) - 1
    ensures MovesLeft(Step(s, t)) == 0 <==> Step(s, t).current == s.target
  {
    OneStepLess(Gap(s), if s.current < s.target then s.stepUp else s.stepDown);
    MovesAtTarget(s);
    MovesAtTarget(Step(s, t));
  }

  lemma MovesAtTarget(s: State)
    requires Positive(s)
    ensures MovesLeft(s) == 0 <==> s.current == s.target
  {
    OneStepLess(Gap(s), if s.current < s.target then s.stepUp else s.stepDown);
  }

  /** Whatever controls cannot be set, k live timers make at most so many ticks as moves are left, and k more. When
      no timer is left and the last tick could set its control, the level is exactly the target. */
  lemma {:induction false} RampEnds(s: State, ts: seq<Tick>)
    requires Positive(s) && IsRun(s, ts)
    ensures Positive(Run(s, ts))
    ensures |ts| + MovesLeft(Run(s, ts)) + |Run(s, ts).live| <= MovesLeft(s) + |s.live|
    ensures Run(s, ts).live == {} && ts != [] && ts[|ts| - 1].ok ==> Run(s, ts).current == s.target
    decreases ts
  {
    hide MovesLeft, Moved;
    if ts != [] {
      var next := Step(s, ts[0]);
      TimersLeft(s, ts[0]);
      OneMoveLess(s, ts[0]);
      MovesAtTarget(s);
      RampEnds(next, ts[1..]);
      if |ts| > 1 {
        assert ts[1..][|ts| - 2] == ts[|ts| - 1];
      }
    }
  }

  lemma TimersLeft(s: State, t: Tick)
    requires t.timer in s.live
    ensures Step(s, t).live == s.live || |Step(s, t).live| == |s.live| - 1
    ensures !t.ok || Step(s, t).current == s.target <==> |Step(s, t).live| == |s.live| - 1
  {
    assert s.live == (s.live - {t.timer}) + {t.timer};
  }

  /** If all controls can be set, a ramp of k timers takes exactly the moves left and k - 1 more ticks, and one tick
      for each timer if it starts at the target. */
  lemma {:induction false} RampTakes(s: State, ts: seq<Tick>)
    requires Positive(s) && IsRun(s, ts) && Run(s, ts).live == {} && s.live != {}
    requires forall i :: 0 <= i < |ts| ==> ts[i].ok
    ensures |ts| == |s.live| + if MovesLeft(s) == 0 then 0 else MovesLeft(s) - 1
    decreases ts
  {
    hide MovesLeft, Moved;
    var next := Step(s, ts[0]);
    TimersLeft(s, ts[0]);
    OneMoveLess(s, ts[0]);
    MovesAtTarget(s);
    if next.live != {} {
      RampTakes(next, ts[1..]);
    }
  }

  /** The level after so many ticks. */
  function Level(current: int, target: int, up: int, down: int, n: nat): int
    decreases n
  {
    if n == 0 then current else Level(Moved(current, target, up, down), target, up, down, n - 1)
  }

  /** Some number of ticks takes the level to the target. */
  ghost predicate Reached(current: int, target: int, up: int, down: int) {
    exists n: nat :: Level(current, target, up, down, n) == target
  }

  /** The ramp reaches its target exactly when there is nothing to do or the step in its direction is positive;
      the steps can be set to any integer. */
  lemma TargetReachedIff(current: int, target: int, up: int, down: int)
    ensures Reached(current, target, up, down)
        <==> current == target || (current < target && up > 0) || (current > target && down > 0)
  {
    if current == target {
      assert Level(current, target, up, down, 0) == target;
    } else if (current < target && up > 0) || (current > target && down > 0) {
      var n := Reaches(current, target, up, down);
    } else {
      forall n: nat
        ensures Level(current, target, up, down, n) != target
      {
        NeverReaches(current, target, up, down, n);
      }
    }
  }

  /** With no step up, a ramp below its target stays where it is. */
  lemma NoStepNoRamp()
    ensures !Reached(0, 10, 0, 1)
  {
    TargetReachedIff(0, 10, 0, 1);
  }

  lemma {:induction false} Reaches(current: int, target: int, up: int, down: int) returns (n: nat)
    requires current == target || (current < target && up > 0) || (current > target && down > 0)
    ensures Level(current, target, up, down, n) == target
    decreases if current < target then target - current else current - target
  {
    if current == target {
      n := 0;
    } else {
      var rest := Reaches(Moved(current, target, up, down), target, up, down);
      n := rest + 1;
    }
  }

  lemma {:induction false} NeverReaches(current: int, target: int, up: int, down: int, n: nat)
    requires (current < target && up <= 0) || (current > target && down <= 0)
    ensures Level(current, target, up, down, n) != target
    decreases n
  {
    if n > 0 {
      NeverReaches(Moved(current, target, up, down), target, up, down, n - 1);
    }
  }

  // ---------------------------------------------------------------- the callbacks

  /** A JSON value as the ramp reads it; `Other` is any other type, with its value as an int. */
  datatype Volume = Values(values: seq<int>) | Single(value: int) | Other(n: int)

  /** The first value; an array without elements reads as 0. */
  function First(v: Volume): int
    requires !v.Other?
  {
    match v
    case Values(values) => if values == [] then 0 else values[0]
    case Single(value) => value
  }

  /** An array as an int is 0. */
  function AsInt(v: Volume): int {
    match v
    case Values(_) => 0
    case Single(value) => value
    case Other(n) => n
  }

  /** The element of a request that is looked at; an empty request has NULL there. */
  function Head(request: seq<Volume>): Volume {
    if request == [] then Other(0) else request[0]
  }

  /** A new ramp: target, level and one more timer. The target changes even when the level cannot be read. */
  function Started(s: State, response: Option<Volume>, volume: Volume, source: nat): State {
    if response.None? || volume.Other? then s
    else if response.value.Other? then s.(target := First(volume))
    else s.(target := First(volume), current := First(response.value), live := s.live + {source})
  }

  /** The tags that configure a ramp; any other tag starts one. */
  datatype Tag = SetMode | SetSlave | SetDelay | SetDown | SetUp | DoRamp

  /** What a configuration request changes. */
  datatype Config = Config(mode: int, slave: int, delay: int, stepDown: int, stepUp: int)

  /** The three modes of the ramp. */
  const NORMAL: int := 1
  const SMOOTH: int := 2
  const EMERGENCY: int := 3

  /** The configuration after a request with the integer `v`; an unknown mode is stored all the same. */
  function Configured(c: Config, tag: Tag, v: int): Config {
    match tag
    case SetMode =>
      if v == SMOOTH then Config(v, c.slave, 100 * 1000, 1, 1)
      else if v == NORMAL then Config(v, c.slave, 100 * 1000, 3, 2)
      else if v == EMERGENCY then Config(v, c.slave, 50 * 1000, 6, 2)
      else c.(mode := v)
    case SetSlave => c.(slave := v)
    case SetDelay => c.(delay := 1000 * v)
    case SetDown => c.(stepDown := v)
    case SetUp => c.(stepUp := v)
    case DoRamp => c
  }

  /** What the requests configure: mode 1 moves down by 3 and up by 2 each 100 ms, mode 2 by 1 and 1, mode 3 by 6 and 2
      each 50 ms; the other requests change one setting each, the delay in milliseconds. */
  lemma ConfigurationsAre(c: Config, v: int)
    ensures Configured(c, SetMode, 1) == Config(1, c.slave, 100_000, 3, 2)
    ensures Configured(c, SetMode, 2) == Config(2, c.slave, 100_000, 1, 1)
    ensures Configured(c, SetMode, 3) == Config(3, c.slave, 50_000, 6, 2)
    ensures v < 1 || v > 3 ==> Configured(c, SetMode, v) == Config(v, c.slave, c.delay, c.stepDown, c.stepUp)
    ensures Configured(c, SetSlave, v) == Config(c.mode, v, c.delay, c.stepDown, c.stepUp)
    ensures Configured(c, SetDelay, v) == Config(c.mode, c.slave, 1000 * v, c.stepDown, c.stepUp)
    ensures Configured(c, SetDown, v) == Config(c.mode, c.slave, c.delay, v, c.stepUp)
    ensures Configured(c, SetUp, v) == Config(c.mode, c.slave, c.delay, c.stepDown, v)
    ensures Configured(c, DoRamp, v) == c
  {
  }

  /** Of a request the first element counts, and of a list as an int nothing. */
  lemma FirstElementCounts(v: int, more: seq<Volume>, values: seq<int>)
    ensures AsInt(Head([Single(v)] + more)) == v && AsInt(Head([])) == 0 && AsInt(Head([Values(values)] + more)) == 0
    ensures First(Values([])) == 0 && First(Values([v] + values)) == v == First(Single(v))
  {
  }

  /** A new ramp starts at the level read and goes to the first value asked for. If the level cannot be read, only the
      target changes, and if there is no value or no control, nothing. */
  lemma NewRampStarts(s: State, level: int, target: int, more: seq<int>, source: nat)
    ensures Started(s, Some(Single(level)), Single(target), source)
         == State(level, target, s.stepUp, s.stepDown, s.live + {source})
    ensures Started(s, Some(Values([level] + more)), Values([target] + more), source)
         == State(level, target, s.stepUp, s.stepDown, s.live + {source})
    ensures Started(s, Some(Other(level)), Single(target), source)
         == State(s.current, target, s.stepUp, s.stepDown, s.live)
    ensures Started(s, None, Single(target), source) == s == Started(s, Some(Single(level)), Other(target), source)
  {
  }

  /** Which requests let every ramp reach its target: all of the known modes, and positive steps; the steps
      are otherwise those of earlier requests. */
  lemma ConfigurationsThatReach(c: Config, tag: Tag, v: int)
    ensures var d := Configured(c, tag, v);
      (forall current, target :: Reached(current, target, d.stepUp, d.stepDown))
      <==> match tag
           case SetMode => v == SMOOTH || v == NORMAL || v == EMERGENCY || (c.stepUp > 0 && c.stepDown > 0)
           case SetDown => v > 0 && c.stepUp > 0
           case SetUp => v > 0 && c.stepDown > 0
           case _ => c.stepUp > 0 && c.stepDown > 0
  {
    var d := Configured(c, tag, v);
    if d.stepUp > 0 && d.stepDown > 0 {
      forall current, target
        ensures Reached(current, target, d.stepUp, d.stepDown)
      {
        TargetReachedIff(current, target, d.stepUp, d.stepDown);
      }
    } else {
      TargetReachedIff(0, 1, d.stepUp, d.stepDown);
      TargetReachedIff(1, 0, d.stepUp, d.stepDown);
      assert !Reached(0, 1, d.stepUp, d.stepDown) || !Reached(1, 0, d.stepUp, d.stepDown);
    }
  }

  class HalVolRamp {
    var current: int
    var target: int
    var stepUp: int
    var stepDown: int
    var mode: int
    var slave: int
    var delay: int
    var live: set<nat>

    ghost function Abs(): State
      reads this
    {
      State(current, target, stepUp, stepDown, live)
    }

    ghost function Settings(): Config
      reads this
    {
      Config(mode, slave, delay, stepDown, stepUp)
    }

    /** RampTimerCB. */
    method TimerCallback(source: nat, setOk: bool) returns (rc: int)
      requires source in live
      modifies this`current, this`live
      ensures Abs() == Step(old(Abs()), Tick(source, setOk))
      ensures rc == if setOk then 0 else -1
    {
      if current > target {
        current := current - stepDown;
        if current < target {
          current := target;
        }
      }
      if current < target {
        current := current + stepUp;
        if current > target {
          current := target;
        }
      }
      if !setOk {
        live := live - {source};
        return -1;
      }
      if current == target {
        live := live - {source};
      }
      rc := 0;
    }

    /** volumeDoRamp: a new target, the level read back from the control, and one more timer `source`. */
    method StartRamp(response: Option<Volume>, volume: Volume, source: nat) returns (rc: int)
      requires source !in live
      modifies this`current, this`target, this`live
      ensures rc == 0 <==> response.Some? && !volume.Other? && !response.value.Other?
      ensures Abs() == Started(old(Abs()), response, volume, source)
    {
      if response.None? || volume.Other? {
        return -1;
      }
      target := First(volume);
      if response.value.Other? {
        return -1;
      }
      current := First(response.value);
      live := live + {source};
      rc := 0;
    }

    /** volumeRamp: the first element configures the ramp, or is the target of a new one with timer `source`. A
        request that is no array changes nothing. */
    method Ramp(tag: Tag, request: Option<seq<Volume>>, response: Option<Volume>, source: nat)
      requires source !in live
      modifies this
      ensures request.None? ==> Settings() == old(Settings()) && Abs() == old(Abs())
      ensures request.Some? ==> Settings() == Configured(old(Settings()), tag, AsInt(Head(request.value)))
      ensures request.Some? && tag == DoRamp ==> Abs() == Started(old(Abs()), response, Head(request.value), source)
      ensures tag != DoRamp ==> current == old(current) && target == old(target) && live == old(live)
    {
      if request.None? {
        return;
      }
      var value := Head(request.value);
      var v := AsInt(value);
      match tag
      case SetMode =>
        mode := v;
        if mode == SMOOTH {
          delay, stepDown, stepUp := 100 * 1000, 1, 1;
        } else if mode == NORMAL {
          delay, stepDown, stepUp := 100 * 1000, 3, 2;
        } else if mode == EMERGENCY {
          delay, stepDown, stepUp := 50 * 1000, 6, 2;
        }
      case SetSlave => slave := v;
      case SetDelay => delay := 1000 * v;
      case SetDown => stepDown := v;
      case SetUp => stepUp := v;
      case DoRamp =>
        var _ := StartRamp(response, value, source);
    }
  }
}
