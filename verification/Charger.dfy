/** avr/bat3.c: the charging loop, one round of `while (state.running)` at a time. */
module Charger {
  import opened Bytes

  const LOCK_MAX: nat := 500
  const BAND: int := 3000          // uA that a locked current may be off by
  const RESHUTDOWN: int := 15      // seconds until a shutdown is commanded again

  /** A UDP command; commands 1 and 2 only concern logging and count as Quiet. */
  datatype Command =
    | Quiet
    | Retarget(mA: int)                          // command 3
    | Recycle(mA: int, on: int, off: int)        // command 4

  /** What the loop reads of the board's reply. */
  datatype Reply = Reply(adc7: word, pwmLo: word, batRun: bool)

  datatype Input = Input(cmd: Command, rep: Reply, t: int)

  /** The loop's variables, with the request it sent last: pwmLo, pwmT, and PWM1en == PWM2en. */
  datatype Charge = Charge(
    targetI: int, masterI: int,                 // uA
    timeOn: int, timeOff: int, timer: int,      // s
    locked: bool, lockHi: int, lockLo: int, lockMax: nat,
    lastT: int, pending: int,
    pwmLo: int, pwmT: int, driving: bool)

  // ----- the parts of a round, as functions of the state -----

  function Retargeted(s: Charge, mA: int): (next: Charge)
  {
    var u := if Abs(s.targetI - mA * 1000) > BAND
             then s.(locked := false, lockHi := s.lockMax + 1, lockLo := 0) else s;
    u.(targetI := mA * 1000, masterI := mA * 1000)
  }

  function OnCommand(s: Charge, cmd: Command): (next: Charge)
  {
    match cmd
    case Quiet => s
    case Retarget(mA) => Retargeted(s, mA).(timeOn := 1, timeOff := 0, timer := 1)
    case Recycle(mA, on, off) =>
      var on, off := if on < 0 then 0 else on, if off < 0 then 0 else off;
      Retargeted(s, mA).(timeOn := on, timeOff := off, timer := on)
  }

  /** One second on line power. */
  function DutyTick(s: Charge): (next: Charge)
  {
    if s.timer > 0 then
      if s.timer > 1 then s.(timer := s.timer - 1)
      else if s.timeOff > 0 then s.(timer := 0, targetI := 0)
      else s.(timer := s.timeOn)
    else if s.timer - 1 > -s.timeOff then s.(timer := s.timer - 1)
    else if s.timeOn > 0 then s.(timer := s.timeOn, targetI := s.masterI, locked := false)
    else s.(timer := s.timeOn)
  }

  /** One second of the power-failure countdown, with a shutdown delay of d seconds. */
  function Countdown(pending: int, batRun: bool, d: int): (next: int)
  {
    if !batRun then -1
    else if d <= 0 then pending
    else if pending <= 0 then d
    else if pending == 1 then RESHUTDOWN
    else pending - 1
  }

  predicate Expires(pending: int, batRun: bool, d: int) {
    batRun && d > 0 && pending == 1
  }

  /** The locked loop: a unit step when the current is out of band, and giving up at a range end. */
  function Nudged(u: Charge, rep: Reply): (next: Charge)
  {
    var error := BattI(rep.adc7) - u.targetI;
    if rep.batRun || u.targetI <= 0 || -BAND <= error <= BAND then u
    else if error > BAND then
      if u.pwmLo < u.lockMax then u.(pwmLo := u.pwmLo + 1) else u.(targetI := 0)
    else
      if u.pwmLo > 0 then u.(pwmLo := u.pwmLo - 1) else u.(targetI := 0)
  }

  /** The searching loop: the bracket narrows to the setting just measured, and its midpoint is next. */
  function Bisected(u: Charge, rep: Reply): (next: Charge)
  {
    var hi := if u.lockHi > u.lockMax then u.lockMax
              else if BattI(rep.adc7) > u.targetI then u.lockHi else u.pwmLo;
    var lo := if u.lockHi <= u.lockMax && BattI(rep.adc7) > u.targetI then u.pwmLo else u.lockLo;
    u.(lockHi := hi, lockLo := lo, pwmLo := lo + TruncDiv(hi - lo, 2), locked := hi - lo < 2)
  }

  /** The PWM update: a binary search while unlocked, unit steps while locked. */
  function Regulate(s: Charge, rep: Reply): (next: Charge)
  {
    var u := s.(driving := s.targetI > 0, pwmT := s.lockMax, pwmLo := rep.pwmLo);
    if s.locked then Nudged(u, rep) else Bisected(u, rep)
  }

  /** The midpoint lies in a bracket that may be inverted, and strictly inside a wide one. */
  lemma MidpointIsBetween(lo: int, hi: int)
    ensures Min(lo, hi) <= lo + TruncDiv(hi - lo, 2) <= lo + hi - Min(lo, hi)
    ensures hi - lo >= 2 ==> lo < lo + TruncDiv(hi - lo, 2) < hi
  {
  }

  /** A second has passed when the clock differs from the round before. */
  predicate Ticks(s: Charge, x: Input) {
    x.t != s.lastT
  }

  /** The state that the PWM update of a round starts from. */
  function BeforeUpdate(s: Charge, x: Input, d: int): (next: Charge)
  {
    var u := OnCommand(s, x.cmd);
    if !Ticks(s, x) then u
    else
      (if x.rep.batRun then u else DutyTick(u)).(lastT := x.t, pending := Countdown(u.pending, x.rep.batRun, d))
  }

  function Round(s: Charge, x: Input, d: int): (next: Charge)
  {
    Regulate(BeforeUpdate(s, x, d), x.rep)
  }

  /** The round commands a shutdown of the system. */
  predicate ShutsDown(s: Charge, x: Input, d: int) {
    Ticks(s, x) && Expires(s.pending, x.rep.batRun, d)
  }

  /** The round in which a command arrives is a quiet round from the commanded state. */
  lemma CommandActsFirst(s: Charge, x: Input, d: int)
    ensures Round(s, x, d) == Round(OnCommand(s, x.cmd), x.(cmd := Quiet), d)
    ensures ShutsDown(s, x, d) == ShutsDown(OnCommand(s, x.cmd), x.(cmd := Quiet), d)
  {
    var u := OnCommand(s, x.cmd);
    assert u.lastT == s.lastT && u.pending == s.pending;
    assert BeforeUpdate(s, x, d) == BeforeUpdate(u, x.(cmd := Quiet), d);
  }

  /** What the loop starts from; pwmLo is what the board echoed last. */
  function Initial(targetI: int, on: int, off: int, pwmLo: int, pwmT: int, driving: bool): (s: Charge)
  {
    Charge(targetI, targetI, on, off, on, false, LOCK_MAX + 1, 0, LOCK_MAX, 0, -1, pwmLo, pwmT, driving)
  }

  // ----- the loop itself -----

  class ChargeLoop {
    const shutdelay: int
    var targetI: int
    var masterI: int
    var timeOn: int
    var timeOff: int
    var timer: int
    var locked: bool
    var lockHi: int
    var lockLo: int
    var lockMax: nat
    var logT: int               // last_t of BAT3chargeState
    var lastT: int              // last_t of BAT3BatteryCharge
    var shutdownPending: int
    var pwmLo: int
    var pwmT: int
    var driving: bool

    ghost predicate Valid()
      reads this
    {
      logT == lastT
    }

    ghost function State(): (s: Charge)
      reads this
    {
      Charge(targetI, masterI, timeOn, timeOff, timer, locked, lockHi, lockLo, lockMax,
             lastT, shutdownPending, pwmLo, pwmT, driving)
    }

    constructor (targetI: int, on: int, off: int, shutdelay: int, pwmLo: int, pwmT: int, driving: bool)
      ensures Valid() && this.shutdelay == shutdelay
      ensures State() == Initial(targetI, on, off, pwmLo, pwmT, driving)
    {
      this.shutdelay := shutdelay;
      this.targetI, masterI := targetI, targetI;
      timeOn, timer := on, on;
      timeOff := off;
      locked := false;
      lockMax := LOCK_MAX;
      lockHi := LOCK_MAX + 1;
      lockLo := 0;
      logT, lastT := 0, 0;
      shutdownPending := -1;
      this.pwmLo, this.pwmT, this.driving := pwmLo, pwmT, driving;
    }

    method CommandCheck(cmd: Command)
      modifies this
      ensures State() == OnCommand(old(State()), cmd) && logT == old(logT)
    {
      match cmd
      case Quiet =>
      case Retarget(mA) =>
        Aim(mA);
        timeOn := 1;
        timeOff := 0;
        timer := 1;
      case Recycle(mA, on, off) =>
        Aim(mA);
        timeOn := on;
        if timeOn < 0 {
          timeOn := 0;
        }
        timeOff := off;
        if timeOff < 0 {
          timeOff := 0;
        }
        timer := timeOn;
    }

    /** The part that both commands share. */
    method Aim(mA: int)
      modifies this
      ensures State() == Retargeted(old(State()), mA) && logT == old(logT)
    {
      if Abs(targetI - mA * 1000) > BAND {
        locked := false;
        lockHi := lockMax + 1;
        lockLo := 0;
      }
      targetI, masterI := mA * 1000, mA * 1000;
    }

    /** The duty-cycle part of the log update. */
    method LogUpdate(rep: Reply, t: int)
      modifies this
      ensures logT == t
      ensures State() == if t == old(logT) || rep.batRun then old(State()) else DutyTick(old(State()))
    {
      if t != logT {
        logT := t;
        if !rep.batRun {
          if timer > 0 {
            timer := timer - 1;
            if timer == 0 {
              if timeOff > 0 {
                targetI := 0;
              } else {
                timer := timeOn;
              }
            }
          } else {
            timer := timer - 1;
            if timer <= -timeOff {
              if timeOn > 0 {
                targetI := masterI;
                locked := false;
              }
              timer := timeOn;
            }
          }
        }
      }
    }

    method PowerWatch(rep: Reply, t: int) returns (shutdown: bool)
      modifies this
      ensures logT == old(logT)
      ensures shutdown == (t != old(lastT) && Expires(old(shutdownPending), rep.batRun, shutdelay))
      ensures State() == if t == old(lastT) then old(State()) else old(State()).(
        lastT := t, pending := Countdown(old(shutdownPending), rep.batRun, shutdelay))
    {
      shutdown := false;
      if t != lastT {
        if rep.batRun {
          if shutdelay > 0 {
            if shutdownPending > 0 {
              shutdownPending := shutdownPending - 1;
              if shutdownPending == 0 {
                shutdown := true;
                shutdownPending := RESHUTDOWN;
              }
            } else {
              shutdownPending := shutdelay;
            }
          }
        } else {
          shutdownPending := -1;
        }
        lastT := t;
      }
    }

    method Nudge(rep: Reply)
      modifies this
      ensures State() == Nudged(old(State()), rep) && logT == old(logT)
    {
      if !rep.batRun && targetI > 0 && BattI(rep.adc7) - targetI > BAND {
        if pwmLo < lockMax {
          pwmLo := pwmLo + 1;
        } else {
          targetI := 0;
        }
      } else if !rep.batRun && targetI > 0 && BattI(rep.adc7) - targetI < -BAND {
        if pwmLo > 0 {
          pwmLo := pwmLo - 1;
        } else {
          targetI := 0;
        }
      }
    }

    method Bisect(rep: Reply)
      requires !locked
      modifies this
      ensures State() == Bisected(old(State()), rep) && logT == old(logT)
    {
      if lockHi > lockMax {
        lockHi := lockMax;
      } else if BattI(rep.adc7) > targetI {
        lockLo := pwmLo;
      } else {
        lockHi := pwmLo;
      }
      pwmLo := lockLo + TruncDiv(lockHi - lockLo, 2);
      if lockHi - lockLo < 2 {
        locked := true;
      }
    }

    method UpdatePwm(rep: Reply)
      modifies this
      ensures State() == Regulate(old(State()), rep) && logT == old(logT)
    {
      pwmLo := rep.pwmLo;
      driving := targetI > 0;
      pwmT := lockMax;
      if locked {
        Nudge(rep);
      } else {
        Bisect(rep);
      }
    }

    /** The part of a round that follows the reply, up to the request that is then sent. */
    method AfterReply(rep: Reply, t: int) returns (shutdown: bool)
      requires Valid()
      modifies this
      ensures Valid()
      ensures State() == Round(old(State()), Input(Quiet, rep, t), shutdelay)
      ensures shutdown == ShutsDown(old(State()), Input(Quiet, rep, t), shutdelay)
    {
      LogUpdate(rep, t);
      shutdown := PowerWatch(rep, t);
      UpdatePwm(rep);
    }
  }
}
