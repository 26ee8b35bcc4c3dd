/** Runs of the charging loop, and what holds on every one of them. */
module ChargeRuns {
  import opened Bytes
  import opened Charger

  /** The state after the rounds of `xs`, with a shutdown delay of d. */
  function Run(s: Charge, xs: seq<Input>, d: int): (end: Charge)
  {
    if xs == [] then s else Round(Run(s, xs[..|xs| - 1], d), xs[|xs| - 1], d)
  }

  lemma {:induction false} RunConcat(s: Charge, xs: seq<Input>, ys: seq<Input>, d: int)
    ensures Run(s, xs + ys, d) == Run(Run(s, xs, d), ys, d)
  {
    if ys == [] {
      assert xs + ys == xs;
    } else {
      assert (xs + ys)[..|xs + ys| - 1] == xs + ys[..|ys| - 1];
      RunConcat(s, xs, ys[..|ys| - 1], d);
    }
  }

  /** Every reply repeats the PWM low time of the request before it: this is what the request
      protocol waits for before a round ends. */
  ghost predicate Echoed(s: Charge, xs: seq<Input>, d: int) {
    xs != [] ==>
      && Echoed(s, xs[..|xs| - 1], d)
      && xs[|xs| - 1].rep.pwmLo == Run(s, xs[..|xs| - 1], d).pwmLo
  }

  // ----- the PWM range -----

  ghost predicate Safe(s: Charge) {
    && 1 <= s.lockMax
    && 0 <= s.lockLo <= s.lockMax
    && 0 <= s.lockHi <= s.lockMax + 1
    && (s.lockHi == s.lockMax + 1 ==> !s.locked && s.lockLo == 0)
    && (s.lockHi <= s.lockMax ==> 0 <= s.pwmLo <= s.lockMax && s.pwmT == s.lockMax)
  }

  /** The bracket of a search in progress, with the request in the middle of it. */
  ghost predicate Bracketed(s: Charge) {
    && 0 <= s.lockLo && s.lockLo + 2 <= s.lockHi <= s.lockMax
    && s.pwmLo == s.lockLo + (s.lockHi - s.lockLo) / 2
  }

  lemma SafeBeforeUpdate(s: Charge, x: Input, d: int)
    requires Safe(s)
    ensures var u := BeforeUpdate(s, x, d); Safe(u) && u.lockMax == s.lockMax && u.pwmLo == s.pwmLo
  {
    var u := OnCommand(s, x.cmd);
    assert Safe(u) && u.lockMax == s.lockMax && u.pwmLo == s.pwmLo;
    assert Safe(DutyTick(u));
  }

  lemma SafeUpdate(s: Charge, rep: Reply)
    requires Safe(s) && rep.pwmLo == s.pwmLo
    ensures var u := Regulate(s, rep);
      Safe(u) && u.lockMax == s.lockMax && u.lockHi <= u.lockMax && (u.locked || Bracketed(u))
  {
    var u := Regulate(s, rep);
    MidpointIsBetween(u.lockLo, u.lockHi);
  }

  lemma SafeRound(s: Charge, x: Input, d: int)
    requires Safe(s) && x.rep.pwmLo == s.pwmLo
    ensures var s' := Round(s, x, d);
      Safe(s') && s'.lockMax == s.lockMax && s'.lockHi <= s'.lockMax && (s'.locked || Bracketed(s'))
  {
    SafeBeforeUpdate(s, x, d);
    SafeUpdate(BeforeUpdate(s, x, d), x.rep);
  }

  lemma {:induction false} StaysSafe(s: Charge, xs: seq<Input>, d: int)
    requires Safe(s) && Echoed(s, xs, d)
    ensures Safe(Run(s, xs, d)) && Run(s, xs, d).lockMax == s.lockMax
  {
    if xs != [] {
      StaysSafe(s, xs[..|xs| - 1], d);
      SafeRound(Run(s, xs[..|xs| - 1], d), xs[|xs| - 1], d);
    }
  }

  /** The period asked for is lockMax, the PWM low time and the bracket are in range, and either the
      loop is locked or its request lies strictly inside the bracket. */
  ghost predicate InRange(u: Charge, lockMax: nat) {
    && u.pwmT == u.lockMax == lockMax && 0 <= u.pwmLo <= u.lockMax
    && 0 <= u.lockLo <= u.lockMax && 0 <= u.lockHi <= u.lockMax
    && (u.locked || u.lockLo < u.pwmLo < u.lockHi)
  }

  /** On every run, whatever the readings, commands and duty wakes: from the first update on, the
      period asked for is lockMax, the PWM low time and the bracket stay in range, and either the loop
      is locked or its request lies strictly inside the bracket. */
  lemma {:induction false} PwmStaysInRange(s: Charge, xs: seq<Input>, d: int)
    requires Safe(s) && Echoed(s, xs, d) && xs != []
    ensures InRange(Run(s, xs, d), s.lockMax)
  {
    var front, x := xs[..|xs| - 1], xs[|xs| - 1];
    StaysSafe(s, front, d);
    SafeRound(Run(s, front, d), x, d);
  }

  // ----- every search ends -----

  /** The logarithm to base 2, rounded up. */
  function Clog2(n: nat): (r: nat)
  {
    if n <= 1 then 0 else 1 + Clog2((n + 1) / 2)
  }

  lemma {:induction false} Clog2Monotone(m: nat, n: nat)
    requires m <= n
    ensures Clog2(m) <= Clog2(n)
    decreases n
  {
    if m > 1 {
      Clog2Monotone((m + 1) / 2, (n + 1) / 2);
    }
  }

  lemma SearchTakesTenRounds()
    ensures 1 + Clog2(LOCK_MAX) == 10
  {
    assert Clog2(500) == 3 + Clog2(63) && Clog2(63) == 3 + Clog2(8) && Clog2(8) == 3 + Clog2(1);
  }

  /** The command makes the loop start its search afresh. */
  ghost predicate Resets(s: Charge, cmd: Command) {
    !cmd.Quiet? && Abs(s.targetI - cmd.mA * 1000) > 3000
  }

  ghost predicate NoResets(s: Charge, xs: seq<Input>, d: int) {
    xs != [] ==>
      && NoResets(s, xs[..|xs| - 1], d)
      && !Resets(Run(s, xs[..|xs| - 1], d), xs[|xs| - 1].cmd)
  }

  /** Rounds that an unlocked loop needs at most until it locks. */
  ghost function Budget(s: Charge): (n: nat)
  {
    if s.locked then 0
    else if Bracketed(s) then Clog2(s.lockHi - s.lockLo)
    else 1 + Clog2(s.lockMax)
  }

  lemma BudgetBound(s: Charge)
    requires Safe(s)
    ensures Budget(s) <= 1 + Clog2(s.lockMax)
    ensures !s.locked ==> Budget(s) > 0
  {
    if Bracketed(s) {
      Clog2Monotone(s.lockHi - s.lockLo, s.lockMax);
    }
  }

  /** The bracket is untouched between rounds, unless a command resets it. */
  lemma BracketKept(s: Charge, x: Input, d: int)
    requires !Resets(s, x.cmd)
    ensures var u := BeforeUpdate(s, x, d);
      u.lockHi == s.lockHi && u.lockLo == s.lockLo && u.lockMax == s.lockMax && (u.locked ==> s.locked)
  {
  }

  /** Each unlocked round halves the bracket or locks. */
  lemma BudgetFalls(s: Charge, x: Input, d: int)
    requires Safe(s) && !s.locked && x.rep.pwmLo == s.pwmLo && !Resets(s, x.cmd)
    ensures var s' := Round(s, x, d); s'.locked || Budget(s') < Budget(s)
  {
    BracketKept(s, x, d);
    SafeRound(s, x, d);
    var s' := Round(s, x, d);
    if !s'.locked {
      var gap := s'.lockHi - s'.lockLo;
      if Bracketed(s) {
        assert gap <= (s.lockHi - s.lockLo + 1) / 2;
        Clog2Monotone(gap, (s.lockHi - s.lockLo + 1) / 2);
      } else {
        Clog2Monotone(gap, s.lockMax);
      }
    }
  }

  lemma {:induction false} SearchProgress(s: Charge, xs: seq<Input>, d: int)
    requires Safe(s) && Echoed(s, xs, d) && NoResets(s, xs, d)
    requires forall n: nat | n <= |xs| :: !Run(s, xs[..n], d).locked
    ensures Budget(Run(s, xs, d)) + |xs| <= Budget(s)
  {
    if xs != [] {
      var front := xs[..|xs| - 1];
      forall n: nat | n <= |front|
        ensures !Run(s, front[..n], d).locked
      {
        assert front[..n] == xs[..n];
      }
      SearchProgress(s, front, d);
      StaysSafe(s, front, d);
      assert xs[..|front|] == front && front[..|front|] == front && xs[..|xs|] == xs;
      BudgetFalls(Run(s, front, d), xs[|xs| - 1], d);
    }
  }

  /** The loop is locked after n of these rounds, and not before. */
  ghost predicate LocksAt(s: Charge, xs: seq<Input>, n: nat, d: int) {
    && n <= |xs| && Run(s, xs[..n], d).locked
    && forall k: nat | k < n :: !Run(s, xs[..k], d).locked
  }

  lemma {:induction false} FirstLock(s: Charge, xs: seq<Input>, m: nat, d: int) returns (n: nat)
    requires m <= |xs| && Run(s, xs[..m], d).locked
    ensures n <= m && LocksAt(s, xs, n, d)
  {
    if k: nat :| k < m && Run(s, xs[..k], d).locked {
      n := FirstLock(s, xs, k, d);
    } else {
      n := m;
    }
  }

  /** Whatever the readings, from every reachable state with any stale or inverted bracket: unless a
      command restarts the search, the loop is locked after some round within
      1 + ceil(log2(lockMax)). */
  lemma SearchEnds(s: Charge, xs: seq<Input>, d: int)
    requires Safe(s) && Echoed(s, xs, d) && NoResets(s, xs, d)
    requires |xs| >= 1 + Clog2(s.lockMax)
    ensures exists n: nat :: n <= 1 + Clog2(s.lockMax) && LocksAt(s, xs, n, d)
  {
    var m := 1 + Clog2(s.lockMax);
    if forall n: nat | n <= m :: !Run(s, xs[..n], d).locked {
      RunsPrefix(s, xs, m, d);
      forall n: nat | n <= m
        ensures !Run(s, xs[..m][..n], d).locked
      {
        assert xs[..m][..n] == xs[..n];
      }
      StaysSafe(s, xs[..m], d);
      assert xs[..m] == xs[..m][..m];
      BudgetBound(s);
      SearchProgress(s, xs[..m], d);
      BudgetBound(Run(s, xs[..m], d));
    } else {
      var k: nat :| k <= m && Run(s, xs[..k], d).locked;
      var n := FirstLock(s, xs, k, d);
    }
  }

  lemma {:induction false} RunsPrefix(s: Charge, xs: seq<Input>, k: nat, d: int)
    requires k <= |xs|
    ensures Echoed(s, xs, d) ==> Echoed(s, xs[..k], d)
    ensures NoResets(s, xs, d) ==> NoResets(s, xs[..k], d)
  {
    if k == |xs| {
      assert xs[..k] == xs;
    } else {
      RunsPrefix(s, xs[..|xs| - 1], k, d);
      assert xs[..|xs| - 1][..k] == xs[..k];
    }
  }

  // ----- the duty cycle -----

  ghost predicate NoCommands(xs: seq<Input>) {
    forall x | x in xs :: x.cmd.Quiet?
  }

  /** Seconds spent on line power. */
  ghost function LineTicks(s: Charge, xs: seq<Input>, d: int): (n: nat)
  {
    if xs == [] then 0
    else
      var front, x := xs[..|xs| - 1], xs[|xs| - 1];
      LineTicks(s, front, d) + if Ticks(Run(s, front, d), x) && !x.rep.batRun then 1 else 0
  }

  /** The time of the round before the next one. */
  function LastTime(t0: int, xs: seq<Input>): (t: int)
  {
    if xs == [] then t0 else xs[|xs| - 1].t
  }

  lemma RegulateKeepsClock(s: Charge, rep: Reply)
    ensures Regulate(s, rep).lastT == s.lastT
  {
  }

  lemma RoundSetsClock(s: Charge, x: Input, d: int)
    ensures Round(s, x, d).lastT == x.t
  {
    RegulateKeepsClock(BeforeUpdate(s, x, d), x.rep);
  }

  lemma {:induction false} ClockIsKept(s: Charge, xs: seq<Input>, d: int)
    ensures Run(s, xs, d).lastT == LastTime(s.lastT, xs)
  {
    if xs != [] {
      RoundSetsClock(Run(s, xs[..|xs| - 1], d), xs[|xs| - 1], d);
    }
  }

  /** Changes of the clock on line power, read off the inputs alone. */
  function LineSeconds(t0: int, xs: seq<Input>): (n: nat)
  {
    if xs == [] then 0
    else
      var front, x := xs[..|xs| - 1], xs[|xs| - 1];
      LineSeconds(t0, front) + if x.t != LastTime(t0, front) && !x.rep.batRun then 1 else 0
  }

  /** The seconds that the duty cycle sees are those of the clock. */
  lemma {:induction false} LineTicksAreSeconds(s: Charge, xs: seq<Input>, d: int)
    ensures LineTicks(s, xs, d) == LineSeconds(s.lastT, xs)
  {
    if xs != [] {
      var front := xs[..|xs| - 1];
      LineTicksAreSeconds(s, front, d);
      ClockIsKept(s, front, d);
    }
  }

  lemma ModSuccessor(n: nat, m: nat)
    requires m > 0
    ensures (n + 1) % m == if n % m == m - 1 then 0 else n % m + 1
  {
    var q, r := n / m, n % m;
    assert n == q * m + r;
    if r == m - 1 {
      assert n + 1 == (q + 1) * m;
      ModOf(q + 1, m, 0);
    } else {
      ModOf(q, m, r + 1);
    }
  }

  /** What a quiet round does to the duty cycle, whatever the PWM update does. */
  lemma QuietRoundDuty(s: Charge, x: Input, d: int)
    requires x.cmd.Quiet?
    ensures var u := if Ticks(s, x) && !x.rep.batRun then DutyTick(s) else s;
      var s' := Round(s, x, d);
      && s'.timer == u.timer && s'.timeOn == u.timeOn && s'.timeOff == u.timeOff && s'.masterI == u.masterI
      && (s'.targetI == u.targetI || s'.targetI == 0) && s'.driving == (u.targetI > 0)
  {
  }

  /** A cycle of no length starts over every second. */
  function Period(on: nat, off: nat): (p: nat)
    ensures p > 0
  {
    if on + off == 0 then 1 else on + off
  }

  /** n seconds on line power after a start with these times. */
  ghost predicate OnSchedule(u: Charge, on: nat, off: nat, masterI: int, n: nat) {
    u.timeOn == on && u.timeOff == off && u.masterI == masterI && u.timer == on - n % Period(on, off)
  }

  lemma ScheduleTick(u: Charge, on: nat, off: nat, masterI: int, n: nat)
    requires OnSchedule(u, on, off, masterI, n)
    ensures OnSchedule(DutyTick(u), on, off, masterI, n + 1)
  {
    ModSuccessor(n, Period(on, off));
  }

  lemma ScheduleRound(u: Charge, x: Input, on: nat, off: nat, masterI: int, n: nat, d: int)
    requires OnSchedule(u, on, off, masterI, n) && x.cmd.Quiet?
    ensures OnSchedule(Round(u, x, d), on, off, masterI, n + if Ticks(u, x) && !x.rep.batRun then 1 else 0)
  {
    QuietRoundDuty(u, x, d);
    ScheduleTick(u, on, off, masterI, n);
  }

  lemma {:induction false} StaysOnSchedule(s: Charge, xs: seq<Input>, on: nat, off: nat, n: nat, d: int)
    requires OnSchedule(s, on, off, s.masterI, n) && NoCommands(xs)
    ensures OnSchedule(Run(s, xs, d), on, off, s.masterI, n + LineTicks(s, xs, d))
  {
    if xs != [] {
      var front, x := xs[..|xs| - 1], xs[|xs| - 1];
      assert x in xs && forall y | y in front :: y in xs;
      StaysOnSchedule(s, front, on, off, n, d);
      ScheduleRound(Run(s, front, d), x, on, off, s.masterI, n + LineTicks(s, front, d), d);
    }
  }

  /** The duty cycle is exact: after n seconds on line power the timer stands at
      on - (n mod (on + off)), so every period has `on` seconds above zero and `off` at or below. */
  lemma {:induction false} DutyCycleIsExact(s: Charge, xs: seq<Input>, d: int)
    requires s.timer == s.timeOn >= 0 && s.timeOff >= 0 && NoCommands(xs)
    ensures OnSchedule(Run(s, xs, d), s.timeOn, s.timeOff, s.masterI, LineTicks(s, xs, d))
  {
    ModOf(0, Period(s.timeOn, s.timeOff), 0);
    StaysOnSchedule(s, xs, s.timeOn, s.timeOff, 0, d);
  }

  /** The cycle that a command starts: its own times, or one second on and none off for a current
      without times, and its own current. */
  lemma CommandSetsCycle(s: Charge, cmd: Command, xs: seq<Input>, d: int)
    requires !cmd.Quiet? && NoCommands(xs)
    ensures var v := OnCommand(s, cmd);
      var on, off := if cmd.Retarget? then 1 else -Min(0, -cmd.on), if cmd.Retarget? then 0 else -Min(0, -cmd.off);
      OnSchedule(Run(v, xs, d), on, off, cmd.mA * 1000, LineTicks(v, xs, d))
  {
    DutyCycleIsExact(OnCommand(s, cmd), xs, d);
  }

  /** The last round of this run is the one in which a period of the duty cycle ends. */
  ghost predicate WakesLast(s: Charge, xs: seq<Input>, d: int) {
    && xs != [] && s.timer == s.timeOn > 0 && s.timeOff > 0
    && LineTicks(s, xs, d) > LineTicks(s, xs[..|xs| - 1], d)
    && LineTicks(s, xs, d) % (s.timeOn + s.timeOff) == 0
  }

  /** Every time it does, the loop wakes: its target is the commanded current again, the PWMs are on
      if that is positive, and the lock is released, so that the round is one of the search. */
  lemma {:induction false} WakeExactly(s: Charge, xs: seq<Input>, d: int)
    requires WakesLast(s, xs, d) && NoCommands(xs)
    ensures var before, u, rep := Run(s, xs[..|xs| - 1], d), Run(s, xs, d), xs[|xs| - 1].rep;
      && u.timer == s.timeOn && u.targetI == s.masterI && (u.driving <==> s.masterI > 0)
      && u.pwmLo == u.lockLo + TruncDiv(u.lockHi - u.lockLo, 2) && (u.locked <==> u.lockHi - u.lockLo < 2)
      && if before.lockHi > before.lockMax then u.lockHi == before.lockMax && u.lockLo == before.lockLo
         else if (rep.adc7 - 29000) * 60 > s.masterI then u.lockLo == rep.pwmLo && u.lockHi == before.lockHi
         else u.lockHi == rep.pwmLo && u.lockLo == before.lockLo
  {
    var front, x := xs[..|xs| - 1], xs[|xs| - 1];
    assert x in xs && forall y | y in front :: y in xs;
    DutyCycleIsExact(s, front, d);
    var n := LineTicks(s, front, d);
    ModSuccessor(n, s.timeOn + s.timeOff);
    WakeRound(Run(s, front, d), x, d);
  }

  lemma WakeRound(s: Charge, x: Input, d: int)
    requires x.cmd.Quiet? && Ticks(s, x) && !x.rep.batRun
    requires s.timer == 1 - s.timeOff <= 0 < s.timeOn
    ensures var u := Round(s, x, d);
      && u.timer == s.timeOn && u.targetI == s.masterI && (u.driving <==> s.masterI > 0)
      && u.pwmLo == u.lockLo + TruncDiv(u.lockHi - u.lockLo, 2) && (u.locked <==> u.lockHi - u.lockLo < 2)
      && if s.lockHi > s.lockMax then u.lockHi == s.lockMax && u.lockLo == s.lockLo
         else if (x.rep.adc7 - 29000) * 60 > s.masterI then u.lockLo == x.rep.pwmLo && u.lockHi == s.lockHi
         else u.lockHi == x.rep.pwmLo && u.lockLo == s.lockLo
  {
  }

  // ----- a power failure -----

  /** Rounds on battery leave a locked loop alone, whatever they read: target, lock, bracket, setting
      and timer are those before the power failure. */
  lemma {:induction false} BatteryHolds(s: Charge, xs: seq<Input>, d: int)
    requires s.locked && NoCommands(xs) && Echoed(s, xs, d) && forall x | x in xs :: x.rep.batRun
    ensures var u := Run(s, xs, d);
      && u.locked && u.targetI == s.targetI && u.masterI == s.masterI && u.pwmLo == s.pwmLo
      && u.lockHi == s.lockHi && u.lockLo == s.lockLo && u.lockMax == s.lockMax
      && u.timer == s.timer && u.timeOn == s.timeOn && u.timeOff == s.timeOff
      && (xs != [] ==> u.driving == (s.targetI > 0))
  {
    if xs != [] {
      var front, x := xs[..|xs| - 1], xs[|xs| - 1];
      assert x in xs && forall y | y in front :: y in xs;
      BatteryHolds(s, front, d);
      QuietRoundDuty(Run(s, front, d), x, d);
    }
  }

  /** In every reachable state the target is either off or the commanded one, and it is off whenever
      a duty cycle with an on-time is in its off phase. */
  ghost predicate TargetFollowsPhase(s: Charge) {
    && (s.targetI == 0 || s.targetI == s.masterI)
    && s.timeOff >= 0
    && (s.timeOn > 0 && s.timer <= 0 ==> s.targetI == 0)
  }

  lemma PhaseThroughRound(s: Charge, x: Input, d: int)
    requires TargetFollowsPhase(s)
    ensures TargetFollowsPhase(Round(s, x, d))
  {
    var u := OnCommand(s, x.cmd);
    assert TargetFollowsPhase(u);
    assert TargetFollowsPhase(DutyTick(u));
    var v := BeforeUpdate(s, x, d);
    assert TargetFollowsPhase(v);
    PhaseThroughUpdate(v, x.rep);
  }

  lemma PhaseThroughUpdate(s: Charge, rep: Reply)
    requires TargetFollowsPhase(s)
    ensures TargetFollowsPhase(Regulate(s, rep))
  {
  }

  lemma {:induction false} TargetAlwaysFollowsPhase(s: Charge, xs: seq<Input>, d: int)
    requires TargetFollowsPhase(s)
    ensures TargetFollowsPhase(Run(s, xs, d))
  {
    if xs != [] {
      TargetAlwaysFollowsPhase(s, xs[..|xs| - 1], d);
      PhaseThroughRound(Run(s, xs[..|xs| - 1], d), xs[|xs| - 1], d);
    }
  }

  /** The duty cycle never switches: it has no off phase, or its on-time is zero, which the timer code
      takes for charging all the time rather than never. */
  ghost predicate AlwaysOn(s: Charge) {
    || (s.timeOn > 0 && s.timeOff == 0 && s.timer > 0)
    || (s.timeOn == 0 && s.timer <= 0)
  }

  /** In such a cycle nothing brings a given-up target back but a command. */
  lemma {:induction false} GivenUpForGood(s: Charge, xs: seq<Input>, d: int)
    requires s.targetI == 0 && AlwaysOn(s) && NoCommands(xs)
    ensures var u := Run(s, xs, d); u.targetI == 0 && AlwaysOn(u) && (xs != [] ==> !u.driving)
  {
    if xs != [] {
      var front, x := xs[..|xs| - 1], xs[|xs| - 1];
      assert x in xs && forall y | y in front :: y in xs;
      GivenUpForGood(s, front, d);
      QuietRoundDuty(Run(s, front, d), x, d);
    }
  }

  // ----- the power-failure countdown -----

  /** Consecutive seconds on battery, up to now. */
  ghost function BatteryTicks(s: Charge, xs: seq<Input>, d: int): (n: nat)
  {
    if xs == [] then 0
    else
      var front, x := xs[..|xs| - 1], xs[|xs| - 1];
      if !Ticks(Run(s, front, d), x) then BatteryTicks(s, front, d)
      else if x.rep.batRun then BatteryTicks(s, front, d) + 1
      else 0
  }

  /** Consecutive changes of the clock on battery, read off the inputs alone. */
  function BatterySeconds(t0: int, xs: seq<Input>): (n: nat)
  {
    if xs == [] then 0
    else
      var front, x := xs[..|xs| - 1], xs[|xs| - 1];
      if x.t == LastTime(t0, front) then BatterySeconds(t0, front)
      else if x.rep.batRun then BatterySeconds(t0, front) + 1
      else 0
  }

  /** The seconds that the countdown sees are those of the clock. */
  lemma {:induction false} BatteryTicksAreSeconds(s: Charge, xs: seq<Input>, d: int)
    ensures BatteryTicks(s, xs, d) == BatterySeconds(s.lastT, xs)
  {
    if xs != [] {
      var front := xs[..|xs| - 1];
      BatteryTicksAreSeconds(s, front, d);
      ClockIsKept(s, front, d);
    }
  }

  /** The countdown after k consecutive seconds on battery. */
  function PendingAfter(k: nat, d: int): (p: int)
  {
    if k == 0 || d <= 0 then -1
    else if k <= d then d + 1 - k
    else 15 - (k - d - 1) % 15
  }

  lemma RoundCountdown(s: Charge, x: Input, d: int)
    ensures Round(s, x, d).pending == if Ticks(s, x) then Countdown(s.pending, x.rep.batRun, d) else s.pending
  {
  }

  lemma PendingStep(k: nat, d: int)
    ensures Countdown(PendingAfter(k, d), true, d) == PendingAfter(k + 1, d)
    ensures Expires(PendingAfter(k, d), true, d) <==> d > 0 && k >= d && (k - d) % 15 == 0
  {
  }

  lemma {:induction false} PendingHasClosedForm(s: Charge, xs: seq<Input>, d: int)
    requires s.pending == -1
    ensures Run(s, xs, d).pending == PendingAfter(BatteryTicks(s, xs, d), d)
  {
    if xs != [] {
      var front := xs[..|xs| - 1];
      PendingHasClosedForm(s, front, d);
      PendingRound(Run(s, front, d), xs[|xs| - 1], BatteryTicks(s, front, d), d);
    }
  }

  lemma PendingRound(u: Charge, x: Input, k: nat, d: int)
    requires u.pending == PendingAfter(k, d)
    ensures Round(u, x, d).pending
      == PendingAfter(if !Ticks(u, x) then k else if x.rep.batRun then k + 1 else 0, d)
  {
    RoundCountdown(u, x, d);
    PendingStep(k, d);
  }

  /** Over every run: the next round commands a shutdown exactly when it is the k-th consecutive
      second on battery for k = d + 1, d + 16, d + 31, ...; with no delay set, never. */
  lemma {:induction false} ShutdownExactly(s: Charge, xs: seq<Input>, x: Input, d: int)
    requires s.pending == -1
    ensures var k := BatteryTicks(s, xs + [x], d);
      ShutsDown(Run(s, xs, d), x, d) <==>
        Ticks(Run(s, xs, d), x) && x.rep.batRun && d > 0 && k >= d + 1 && (k - d - 1) % 15 == 0
    ensures d <= 0 ==> forall u: Charge :: !ShutsDown(u, x, d)
  {
    PendingHasClosedForm(s, xs, d);
    PendingStep(BatteryTicks(s, xs, d), d);
    assert (xs + [x])[..|xs|] == xs;
  }

  // ----- from the start of the program -----

  /** What every echoed run from the start has: period, low time and bracket in the range of 500, a
      target that follows the phase, a timer and a countdown that count the seconds on line power and
      on battery. */
  lemma {:induction false} StartMeetsAll(targetI: int, on: nat, off: nat, pwmLo: int, pwmT: int, driving: bool,
                                         xs: seq<Input>, d: int)
    requires xs != [] && Echoed(Initial(targetI, on, off, pwmLo, pwmT, driving), xs, d)
    ensures var u := Run(Initial(targetI, on, off, pwmLo, pwmT, driving), xs, d);
      && InRange(u, 500) && TargetFollowsPhase(u)
      && u.pending == PendingAfter(BatterySeconds(0, xs), d)
      && (NoCommands(xs) ==> OnSchedule(u, on, off, targetI, LineSeconds(0, xs)))
  {
    var s := Initial(targetI, on, off, pwmLo, pwmT, driving);
    PwmStaysInRange(s, xs, d);
    TargetAlwaysFollowsPhase(s, xs, d);
    PendingHasClosedForm(s, xs, d);
    BatteryTicksAreSeconds(s, xs, d);
    LineTicksAreSeconds(s, xs, d);
    if NoCommands(xs) {
      DutyCycleIsExact(s, xs, d);
    }
  }
}
