/** src/bat3func.c: the second charging controller, one call of doload at a time. */
module Loader {
  import opened Bytes

  const MAX_PWM_T: int := 0x200
  const MIN_PWM_T: int := 0x100
  const DEFTARGET: int := 400      // mA
  const BIG_STEP: int := 100       // mA
  const SMALL_STEP: int := 10      // mA
  const STABLE_SECONDS: int := 15 * 60
  const DAY: int := 24 * 60 * 60
  const MAXMIN: nat := 30
  const FILTER: real := 0.99

  /** The fields of struct bat3 that loading reads or writes; true is ON. */
  datatype Board = Board(
    batU: word, batI: word, pwmLo: int, pwmT: int,
    pwm1: bool, pwm2: bool, opamp: bool, buck: bool, offset: bool,
    batRun: bool, softJP3: bool, updated: int)

  /** The fields of struct action that loading reads or writes; weights is weight[..weightpos]. */
  datatype Plan = Plan(current: int, hours: int, weights: seq<real>, alarm: int, stableTime: int)

  // ----- the parts of doload, as functions of the state -----

  function Switched(b: Board, on: bool): (next: Board)
  {
    b.(opamp := on, pwm1 := on, pwm2 := on)
  }

  function Forgotten(a: Plan): (next: Plan)
  {
    a.(alarm := 0, stableTime := 0, weights := [])
  }

  /** The lowest setting allowed for a target current. */
  function Floor(current: int): (p: int)
  {
    if current == DEFTARGET then MIN_PWM_T else 0
  }

  /** How far the current is below its target, in whole mA. */
  function Shortfall(current: int, batI: word): (mA: int)
  {
    current - TruncDiv(BattI(batI), 1000)
  }

  /** Two step sizes, by the size of the shortfall. */
  function StepFor(diff: int): (step: int)
  {
    if diff > BIG_STEP then -10 else if diff < -BIG_STEP then 10
    else if diff > SMALL_STEP then -1 else if diff < -SMALL_STEP then 1 else 0
  }

  function NextPwm(pwmLo: int, pwmT: int, current: int, batI: word): (p: int)
  {
    var p := pwmLo + StepFor(Shortfall(current, batI));
    var q := if p < Floor(current) then Floor(current) else p;
    if q > pwmT then pwmT else q
  }

  /** The exponential filter's next value. */
  function NextWeight(weights: seq<real>, v: int): (w: real)
  {
    if weights == [] then v as real
    else v as real * (1.0 - FILTER) + weights[|weights| - 1] * FILTER
  }

  /** The window after one more value: when it would fill the array, the oldest is shifted out. */
  function Pushed(weights: seq<real>, v: int): (next: seq<real>)
  {
    var all := weights + [NextWeight(weights, v)];
    if |all| == MAXMIN then all[1..] else all
  }

  /** The two latest weights differ by less than 1. */
  predicate Calm(weights: seq<real>) {
    |weights| >= 2 && -1.0 < weights[|weights| - 1] - weights[|weights| - 2] < 1.0
  }

  function AfterCheck(a: Plan, now: int): (next: Plan)
  {
    if |a.weights| < 2 then a
    else if !Calm(a.weights) then a.(stableTime := 0)
    else if a.stableTime == 0 then a.(stableTime := now)
    else a
  }

  predicate Verdict(a: Plan, now: int) {
    Calm(a.weights) && a.stableTime != 0 && now - a.stableTime > STABLE_SECONDS
  }

  /** What doload records of the round, before it decides. */
  function Recorded(a: Plan, batU: word, now: int): (next: Plan)
  {
    if a.alarm > now then a
    else
      var u := AfterCheck(a, now).(alarm := now + 1);
      if Verdict(a, now) then u else u.(weights := Pushed(u.weights, batU))
  }

  /** The loading branch: a step of the PWM and everything it needs switched on. */
  function Charging(b: Board, a: Plan): (next: Board)
  {
    Switched(b, true).(pwmLo := NextPwm(b.pwmLo, b.pwmT, a.current, b.batI),
                       buck := false, offset := false, pwmT := MAX_PWM_T)
  }

  /** The same, but outputs that come with an op-amp already on are left as they are. */
  function Continued(b: Board, a: Plan): (next: Board)
  {
    if b.opamp then Charging(b, a).(pwm1 := b.pwm1, pwm2 := b.pwm2) else Charging(b, a)
  }

  /** The plan after one call. */
  function PlanAfter(a: Plan, b: Board, now: int): (next: Plan)
  {
    if b.batRun then Forgotten(a)
    else if a.hours != 0 then a
    else AfterCheck(Recorded(a, b.batU, now), now)
  }

  /** The call finds the battery stable, for less than a day. */
  predicate Resting(a: Plan, b: Board, now: int) {
    var u := Recorded(a, b.batU, now);
    Verdict(u, now) && now - u.stableTime < DAY
  }

  /** The stability branch's effect on the board. */
  function ByStability(a: Plan, b: Board, now: int): (next: Board)
  {
    if Resting(a, b, now) then
      if b.opamp then Switched(b, false) else b
    else Continued(b, a)
  }

  /** The board's state after one call. */
  function BoardAfter(a: Plan, b: Board, now: int): (next: Board)
  {
    var c := b.(softJP3 := false);
    if b.batRun then Switched(c, false).(buck := false, offset := false, updated := now)
    else if a.hours != 0 then
      if a.hours < now then Switched(c, false) else Charging(c, a)
    else ByStability(a, c, now)
  }

  // ----- the code -----

  class Bat3 {
    var batU: word
    var batI: word
    var pwmLo: int
    var pwmT: int
    var pwm1: bool
    var pwm2: bool
    var opamp: bool
    var buck: bool
    var offset: bool
    var batRun: bool
    var softJP3: bool
    var updated: int

    ghost function View(): (b: Board)
      reads this
    {
      Board(batU, batI, pwmLo, pwmT, pwm1, pwm2, opamp, buck, offset, batRun, softJP3, updated)
    }

    method SwitchOpamp(sw: bool)
      modifies this
      ensures View() == Switched(old(View()), sw)
    {
      opamp := sw;
      pwm1 := sw;
      pwm2 := sw;
    }

    method CalcLoad(target: Action)
      modifies this`pwmLo
      ensures View() == old(View()).(pwmLo := NextPwm(old(pwmLo), pwmT, target.current, batI))
    {
      var diff := target.current - TruncDiv(BattI(batI), 1000);
      ghost var expected := NextPwm(pwmLo, pwmT, target.current, batI);
      assert diff == Shortfall(target.current, batI);
      var newpwm := pwmLo;
      if diff > BIG_STEP {
        newpwm := newpwm - 10;
      } else if diff < -BIG_STEP {
        newpwm := newpwm + 10;
      } else if diff > SMALL_STEP {
        newpwm := newpwm - 1;
      } else if diff < -SMALL_STEP {
        newpwm := newpwm + 1;
      }
      assert newpwm == pwmLo + StepFor(diff);
      if target.current == DEFTARGET {
        if newpwm < MIN_PWM_T {
          newpwm := MIN_PWM_T;
        }
      } else {
        if newpwm < 0 {
          newpwm := 0;
        }
      }
      if newpwm > pwmT {
        newpwm := pwmT;
      }
      assert newpwm == expected;
      pwmLo := newpwm;
    }

    /** The branch for a power failure. */
    method StopOnBattery(now: int)
      modifies this
      ensures View() == Switched(old(View()), false).(buck := false, offset := false, updated := now)
    {
      SwitchOpamp(false);
      buck := false;
      offset := false;
      updated := now;
    }

    /** The time-based branch. */
    method LoadByHours(target: Action, now: int)
      requires target.Valid()
      modifies this
      ensures View() == if target.hours < now then Switched(old(View()), false)
                        else Charging(old(View()), target.View())
    {
      if target.hours < now {
        SwitchOpamp(false);
      } else {
        CalcLoad(target);
        SwitchOpamp(true);
        buck := false;
        offset := false;
        pwmT := MAX_PWM_T;
      }
    }

    /** The stability branch. */
    method LoadByStability(target: Action, now: int)
      requires target.Valid()
      modifies this, target, target.weight
      ensures target.Valid()
      ensures target.View() == AfterCheck(Recorded(old(target.View()), batU, now), now)
      ensures View() == ByStability(old(target.View()), old(View()), now)
    {
      ghost var a, b := target.View(), View();
      target.Record(batU, now);
      var stable := target.CheckStable(now);
      if stable && now - target.stableTime < DAY {
        assert Resting(a, b, now);
        if opamp {
          SwitchOpamp(false);
        }
      } else {
        assert !Resting(a, b, now);
        GoOnLoading(target);
      }
    }

    /** One call of doload, at wall-clock time `now`. */
    method DoLoad(target: Action, now: int)
      requires target.Valid()
      modifies this, target, target.weight
      ensures target.Valid()
      ensures target.View() == PlanAfter(old(target.View()), old(View()), now)
      ensures View() == BoardAfter(old(target.View()), old(View()), now)
    {
      softJP3 := false;
      if batRun {
        StopOnBattery(now);
        target.ResetHistory();
        return;
      }
      if target.hours != 0 {
        LoadByHours(target, now);
        return;
      }
      LoadByStability(target, now);
    }

    /** The branch that keeps loading: outputs that are on already are left as they are. */
    method GoOnLoading(target: Action)
      requires target.Valid()
      modifies this
      ensures View() == Continued(old(View()), target.View())
    {
      CalcLoad(target);
      if !opamp {
        SwitchOpamp(true);
      }
      buck := false;
      offset := false;
      pwmT := MAX_PWM_T;
    }
  }

  class Action {
    var current: int
    var hours: int
    const weight: array<real>
    var weightpos: nat
    var alarm: int
    var stableTime: int

    ghost predicate Valid()
      reads this
    {
      weight.Length == MAXMIN && weightpos < MAXMIN
    }

    ghost function View(): (a: Plan)
      requires Valid()
      reads this, weight
    {
      Plan(current, hours, weight[..weightpos], alarm, stableTime)
    }

    constructor (current: int, hours: int)
      ensures Valid() && fresh(weight)
      ensures View() == Plan(current, hours, [], 0, 0)
    {
      this.current, this.hours := current, hours;
      weight := new real[MAXMIN];
      weightpos, alarm, stableTime := 0, 0, 0;
    }

    method ResetHistory()
      requires Valid()
      modifies this
      ensures Valid() && View() == Forgotten(old(View()))
    {
      alarm := 0;
      stableTime := 0;
      weightpos := 0;
    }

    /** Appends the filter's next value; when the array is full, shifts every entry down first. */
    method ProcessFirstDegree(newval: int)
      requires Valid()
      modifies this`weightpos, weight
      ensures Valid() && View() == old(View()).(weights := Pushed(old(View()).weights, newval))
    {
      ghost var was := weight[..];
      ghost var all := weight[..weightpos] + [NextWeight(weight[..weightpos], newval)];
      var newweight: real;
      if weightpos == 0 {
        newweight := newval as real;
      } else {
        newweight := newval as real * (1.0 - FILTER) + weight[weightpos - 1] * FILTER;
      }
      weightpos := weightpos + 1;
      if weightpos == MAXMIN {
        for pos := 1 to MAXMIN
          invariant weightpos == MAXMIN
          invariant forall k | 0 <= k < pos - 1 :: weight[k] == was[k + 1]
          invariant forall k | pos - 1 <= k < MAXMIN :: weight[k] == was[k]
        {
          weight[pos - 1] := weight[pos];
        }
        weightpos := weightpos - 1;
      }
      weight[weightpos - 1] := newweight;
      assert forall k | 0 <= k < weightpos :: weight[k] == if |all| == MAXMIN then all[k + 1] else all[k];
      assert weight[..weightpos] == if |all| == MAXMIN then all[1..] else all;
    }

    /** At most once a second, and unless the history is frozen, one more voltage is filtered. */
    method Record(batU: word, now: int)
      requires Valid()
      modifies this, weight
      ensures Valid() && View() == Recorded(old(View()), batU, now)
    {
      if alarm <= now {
        alarm := now + 1;
        var stable := CheckStable(now);
        if !stable {
          ProcessFirstDegree(batU);
        }
      }
    }

    method CheckStable(now: int) returns (stable: bool)
      requires Valid()
      modifies this`stableTime
      ensures Valid() && View() == AfterCheck(old(View()), now)
      ensures stable == Verdict(old(View()), now)
    {
      if weightpos < 2 {
        return false;
      }
      var diff := weight[weightpos - 1] - weight[weightpos - 2];
      if diff > -1.0 && diff < 1.0 {
        if stableTime == 0 {
          stableTime := now;
          return false;
        } else {
          return now - stableTime > STABLE_SECONDS;
        }
      } else {
        stableTime := 0;
        return false;
      }
    }
  }
}
