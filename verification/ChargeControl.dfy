/** The charging loop against a steady battery: what the search finds, and where regulation ends. */
module ChargeControl {
  import opened Bytes
  import opened Charger
  import opened ChargeRuns

  /** The ADC reading that a PWM low time settles at. */
  type Plant = int -> word

  function Current(plant: Plant, p: int): (uA: int)
  {
    (plant(p) - 29000) * 60
  }

  /** Longer low time, less current, over the range in use. */
  ghost predicate Antitone(plant: Plant, max: nat) {
    forall p, q | 0 <= p <= q <= max :: Current(plant, q) <= Current(plant, p)
  }

  ghost predicate InBand(plant: Plant, p: int, target: int) {
    -3000 <= Current(plant, p) - target <= 3000
  }

  // ----- steady runs -----

  /** A round on line power with no command: the board repeats the setting sent last and reads the
      battery there, unless the PWMs are off. */
  ghost predicate PlantRound(s: Charge, x: Input, plant: Plant) {
    x.cmd.Quiet? && !x.rep.batRun && x.rep.pwmLo == s.pwmLo && (s.driving ==> x.rep.adc7 == plant(s.pwmLo))
  }

  /** The same, when the clock does not switch the duty cycle. */
  ghost predicate SteadyRound(s: Charge, x: Input, plant: Plant) {
    && PlantRound(s, x, plant)
    && (Ticks(s, x) ==> DutyTick(s).targetI == s.targetI && DutyTick(s).locked == s.locked)
  }

  ghost predicate Steady(s: Charge, xs: seq<Input>, plant: Plant, d: int) {
    xs != [] ==>
      && Steady(s, xs[..|xs| - 1], plant, d)
      && SteadyRound(Run(s, xs[..|xs| - 1], d), xs[|xs| - 1], plant)
  }

  /** The part of the state that the PWM update works on. */
  datatype Core = Core(targetI: int, locked: bool, lockHi: int, lockLo: int, lockMax: nat, pwmLo: int)

  function CoreOf(s: Charge): (c: Core)
  {
    Core(s.targetI, s.locked, s.lockHi, s.lockLo, s.lockMax, s.pwmLo)
  }

  lemma SteadyRoundIsUpdate(s: Charge, x: Input, plant: Plant, d: int)
    requires SteadyRound(s, x, plant)
    ensures CoreOf(Round(s, x, d)) == CoreOf(Regulate(s, x.rep))
    ensures x.rep == Reply(x.rep.adc7, s.pwmLo, false) && !Resets(s, x.cmd)
  {
    var u := BeforeUpdate(s, x, d);
    assert CoreOf(u) == CoreOf(s);
  }

  /** A positive target comes with the PWMs on. Every round leaves it so; only a command, or the start,
      sets a target while they are off. */
  ghost predicate Driven(s: Charge) {
    s.targetI > 0 ==> s.driving
  }

  lemma DrivenAfterRound(s: Charge, x: Input, d: int)
    ensures Driven(Round(s, x, d))
  {
  }

  lemma DrivenAfter(s: Charge, xs: seq<Input>, d: int)
    requires xs != [] || Driven(s)
    ensures Driven(Run(s, xs, d))
  {
    if xs != [] {
      DrivenAfterRound(Run(s, xs[..|xs| - 1], d), xs[|xs| - 1], d);
    }
  }

  /** Every reading is on the curve, PWMs off or not. */
  ghost predicate OnCurve(xs: seq<Input>, plant: Plant) {
    forall x | x in xs :: x.rep.adc7 == plant(x.rep.pwmLo)
  }

  lemma {:induction false} SteadyRunIsSafe(s: Charge, xs: seq<Input>, plant: Plant, d: int)
    requires Safe(s) && Steady(s, xs, plant, d)
    ensures Echoed(s, xs, d) && NoResets(s, xs, d)
    ensures Safe(Run(s, xs, d)) && Run(s, xs, d).lockMax == s.lockMax
  {
    if xs != [] {
      SteadyRunIsSafe(s, xs[..|xs| - 1], plant, d);
    }
    StaysSafe(s, xs, d);
  }

  lemma {:induction false} SteadyPrefix(s: Charge, xs: seq<Input>, k: nat, plant: Plant, d: int)
    requires Steady(s, xs, plant, d) && k <= |xs|
    ensures Steady(s, xs[..k], plant, d)
  {
    if k == |xs| {
      assert xs[..k] == xs;
    } else {
      SteadyPrefix(s, xs[..|xs| - 1], k, plant, d);
      assert xs[..|xs| - 1][..k] == xs[..k];
    }
  }

  lemma {:induction false} SteadyConcat(s: Charge, xs: seq<Input>, ys: seq<Input>, plant: Plant, d: int)
    requires Steady(s, xs + ys, plant, d)
    ensures Run(s, xs + ys, d) == Run(Run(s, xs, d), ys, d)
    ensures Steady(Run(s, xs, d), ys, plant, d)
  {
    if ys == [] {
      assert xs + ys == xs;
    } else {
      assert (xs + ys)[..|xs + ys| - 1] == xs + ys[..|ys| - 1];
      SteadyConcat(s, xs, ys[..|ys| - 1], plant, d);
    }
  }

  // ----- the search -----

  /** Nothing measured yet: the state after a start or a new target. */
  ghost predicate Fresh(s: Charge) {
    1 <= s.lockMax && !s.locked && s.lockHi == s.lockMax + 1 && s.lockLo == 0
  }

  /** The ends of the bracket, where measured, have the current above and not above the target. */
  ghost predicate Sided(s: Charge, plant: Plant) {
    && (s.lockLo == 0 || Current(plant, s.lockLo) > s.targetI)
    && (s.lockHi == s.lockMax || Current(plant, s.lockHi) <= s.targetI)
  }

  ghost predicate Searching(s: Charge, plant: Plant) {
    !s.locked && (Fresh(s) || (Bracketed(s) && Sided(s, plant)))
  }

  /** The state in which a search locks. */
  ghost predicate Found(s: Charge, plant: Plant) {
    s.locked && 0 <= s.lockLo == s.pwmLo && s.lockHi == s.lockLo + 1 <= s.lockMax && Sided(s, plant)
  }

  lemma SearchUpdate(s: Charge, rep: Reply, plant: Plant)
    requires Safe(s) && Searching(s, plant)
    requires (Fresh(s) || rep.adc7 == plant(s.pwmLo)) && rep.pwmLo == s.pwmLo
    ensures var s' := Regulate(s, rep); s'.targetI == s.targetI && (Searching(s', plant) || Found(s', plant))
  {
    if Fresh(s) {
    } else {
      MidpointIsBetween(s.lockLo, s.lockHi);
    }
  }

  lemma SearchRound(s: Charge, x: Input, plant: Plant, d: int)
    requires Safe(s) && Searching(s, plant) && SteadyRound(s, x, plant)
    requires Fresh(s) || x.rep.adc7 == plant(s.pwmLo)
    ensures var s' := Round(s, x, d); s'.targetI == s.targetI && (Searching(s', plant) || Found(s', plant))
  {
    SteadyRoundIsUpdate(s, x, plant, d);
    SearchUpdate(s, x.rep, plant);
  }

  lemma {:induction false} SearchRun(s: Charge, xs: seq<Input>, plant: Plant, d: int)
    requires Fresh(s) && Safe(s) && Steady(s, xs, plant, d)
    requires s.targetI > 0 || OnCurve(xs, plant)
    requires forall n: nat | n < |xs| :: !Run(s, xs[..n], d).locked
    ensures var u := Run(s, xs, d); u.targetI == s.targetI && (Searching(u, plant) || Found(u, plant))
  {
    if xs != [] {
      var front, x := xs[..|xs| - 1], xs[|xs| - 1];
      forall n: nat | n < |front|
        ensures !Run(s, front[..n], d).locked
      {
        assert front[..n] == xs[..n];
      }
      assert x in xs && forall y | y in front :: y in xs;
      SearchRun(s, front, plant, d);
      assert xs[..|front|] == front;
      SteadyRunIsSafe(s, front, plant, d);
      if front != [] {
        DrivenAfter(s, front, d);
      }
      SearchRound(Run(s, front, d), x, plant, d);
    }
  }

  /** A search from a start or new target locks within 1 + ceil(log2(lockMax)) rounds, on two
      neighbouring settings, the lower one requested, that were measured on the two sides. The first
      reading, which may come from a board with its PWMs off, is free. */
  lemma {:induction false} SearchFinds(s: Charge, xs: seq<Input>, plant: Plant, d: int) returns (n: nat)
    requires Fresh(s) && Safe(s) && Steady(s, xs, plant, d)
    requires s.targetI > 0 || OnCurve(xs, plant)
    requires |xs| >= 1 + Clog2(s.lockMax)
    ensures n <= 1 + Clog2(s.lockMax) && LocksAt(s, xs, n, d)
    ensures var u := Run(s, xs[..n], d);
      Found(u, plant) && u.targetI == s.targetI && u.lockMax == s.lockMax
  {
    SteadyRunIsSafe(s, xs, plant, d);
    SearchEnds(s, xs, d);
    n :| n <= 1 + Clog2(s.lockMax) && LocksAt(s, xs, n, d);
    SteadyPrefix(s, xs, n, plant, d);
    forall k: nat | k < n
      ensures !Run(s, xs[..n][..k], d).locked
    {
      assert xs[..n][..k] == xs[..k];
    }
    assert forall x | x in xs[..n] :: x in xs;
    SearchRun(s, xs[..n], plant, d);
    SteadyRunIsSafe(s, xs[..n], plant, d);
  }

  /** Locked on the last setting whose current is above the target. */
  ghost predicate LockedOnThreshold(u: Charge, plant: Plant, target: int) {
    && u.locked && u.pwmLo == u.lockLo && u.lockHi == u.lockLo + 1
    && forall q | 0 <= q <= u.lockMax :: Current(plant, q) > target <==> q <= u.pwmLo
  }

  /** Closed-loop search correctness: when a falling current curve crosses the target inside the
      range, the search locks on the last setting whose current is above the target. */
  lemma {:induction false} SearchIsCorrect(s: Charge, xs: seq<Input>, plant: Plant, d: int)
    requires Fresh(s) && Safe(s) && Steady(s, xs, plant, d)
    requires s.targetI > 0 || OnCurve(xs, plant)
    requires |xs| >= 1 + Clog2(s.lockMax)
    requires Antitone(plant, s.lockMax)
    requires Current(plant, 0) > s.targetI >= Current(plant, s.lockMax)
    ensures exists n: nat :: (
      && n <= 1 + Clog2(s.lockMax) && LocksAt(s, xs, n, d)
      && LockedOnThreshold(Run(s, xs[..n], d), plant, s.targetI))
  {
    var n := SearchFinds(s, xs, plant, d);
    FoundSplitsRange(Run(s, xs[..n], d), plant);
  }

  lemma FoundSplitsRange(u: Charge, plant: Plant)
    requires Found(u, plant) && Antitone(plant, u.lockMax)
    requires Current(plant, 0) > u.targetI >= Current(plant, u.lockMax)
    ensures forall q | 0 <= q <= u.lockMax :: Current(plant, q) > u.targetI <==> q <= u.pwmLo
  {
    assert Current(plant, u.lockLo) > u.targetI >= Current(plant, u.lockHi);
  }

  // ----- locked regulation -----

  /** One locked update on a steady battery. */
  lemma LockedUpdate(s: Charge, x: Input, plant: Plant, d: int)
    requires Safe(s) && s.locked && Driven(s) && SteadyRound(s, x, plant)
    ensures var s' := Round(s, x, d);
      var error := Current(plant, s.pwmLo) - s.targetI;
      && s'.locked && s'.lockMax == s.lockMax
      && if s.targetI <= 0 || InBand(plant, s.pwmLo, s.targetI) then
           s'.targetI == s.targetI && s'.pwmLo == s.pwmLo
         else if error > 0 then
           if s.pwmLo < s.lockMax then s'.targetI == s.targetI && s'.pwmLo == s.pwmLo + 1
           else s'.targetI == 0 && s'.pwmLo == s.pwmLo
         else
           if s.pwmLo > 0 then s'.targetI == s.targetI && s'.pwmLo == s.pwmLo - 1
           else s'.targetI == 0 && s'.pwmLo == s.pwmLo
  {
    SteadyRoundIsUpdate(s, x, plant, d);
  }

  /** In band, or with nothing to regulate, a locked loop never moves again. */
  lemma {:induction false} LockedHolds(s: Charge, xs: seq<Input>, plant: Plant, d: int)
    requires Safe(s) && s.locked && Driven(s) && Steady(s, xs, plant, d)
    requires s.targetI <= 0 || InBand(plant, s.pwmLo, s.targetI)
    ensures var u := Run(s, xs, d);
      u.locked && u.targetI == s.targetI && u.pwmLo == s.pwmLo && u.lockMax == s.lockMax
  {
    if xs != [] {
      LockedHolds(s, xs[..|xs| - 1], plant, d);
      DrivenAfter(s, xs[..|xs| - 1], d);
      SteadyRunIsSafe(s, xs[..|xs| - 1], plant, d);
      LockedUpdate(Run(s, xs[..|xs| - 1], d), xs[|xs| - 1], plant, d);
    }
  }

  /** In band already, or at most `bound` steps from the in-band setting `best`. */
  ghost predicate Within(p: int, plant: Plant, target: int, best: int, bound: int) {
    InBand(plant, p, target) || Abs(p - best) <= bound
  }

  lemma ApproachRound(s: Charge, x: Input, plant: Plant, best: int, bound: int, d: int)
    requires Safe(s) && s.locked && Driven(s) && s.targetI > 0 && SteadyRound(s, x, plant)
    requires Antitone(plant, s.lockMax) && 0 <= best <= s.lockMax && InBand(plant, best, s.targetI)
    requires Within(s.pwmLo, plant, s.targetI, best, bound)
    ensures var s' := Round(s, x, d);
      s'.locked && s'.targetI == s.targetI && Within(s'.pwmLo, plant, s.targetI, best, bound - 1)
    ensures !InBand(plant, s.pwmLo, s.targetI) ==> Abs(Round(s, x, d).pwmLo - best) == Abs(s.pwmLo - best) - 1
  {
    LockedUpdate(s, x, plant, d);
    assert s.pwmLo <= best ==> Current(plant, best) <= Current(plant, s.pwmLo);
    assert best <= s.pwmLo ==> Current(plant, s.pwmLo) <= Current(plant, best);
  }

  /** With an in-band setting somewhere in range, every locked round out of band comes one closer to
      it, and the target is never given up. */
  lemma {:induction false} LockedApproaches(s: Charge, xs: seq<Input>, plant: Plant, best: int, d: int)
    requires Safe(s) && s.locked && Driven(s) && s.targetI > 0 && Steady(s, xs, plant, d)
    requires Antitone(plant, s.lockMax) && 0 <= best <= s.lockMax && InBand(plant, best, s.targetI)
    ensures var u := Run(s, xs, d);
      && u.locked && u.targetI == s.targetI
      && Within(u.pwmLo, plant, s.targetI, best, Abs(s.pwmLo - best) - |xs|)
  {
    if xs != [] {
      var front := xs[..|xs| - 1];
      LockedApproaches(s, front, plant, best, d);
      DrivenAfter(s, front, d);
      SteadyRunIsSafe(s, front, plant, d);
      ApproachRound(Run(s, front, d), xs[|xs| - 1], plant, best, Abs(s.pwmLo - best) - |front|, d);
    }
  }

  /** Locked regulation converges: it is in band after at most |pwmLo - best| rounds, for every
      in-band setting `best`. */
  lemma {:induction false} RegulationConverges(s: Charge, xs: seq<Input>, plant: Plant, best: int, d: int)
    requires Safe(s) && s.locked && Driven(s) && s.targetI > 0 && Steady(s, xs, plant, d)
    requires Antitone(plant, s.lockMax) && 0 <= best <= s.lockMax && InBand(plant, best, s.targetI)
    requires |xs| >= Abs(s.pwmLo - best)
    ensures var u := Run(s, xs, d);
      u.locked && u.targetI == s.targetI && InBand(plant, u.pwmLo, s.targetI)
  {
    LockedApproaches(s, xs, plant, best, d);
  }

  /** The loop gives the target up exactly when even the end of the range is too strong or too weak;
      a curve that merely jumps over the band is never given up on. */
  lemma GivesUpExactly(s: Charge, xs: seq<Input>, plant: Plant, d: int)
    requires Safe(s) && s.locked && Driven(s) && s.targetI > 0 && Steady(s, xs, plant, d)
    requires Antitone(plant, s.lockMax) && |xs| > s.lockMax
    ensures Run(s, xs, d).targetI == 0 <==>
      || Current(plant, s.lockMax) - s.targetI > 3000
      || Current(plant, 0) - s.targetI < -3000
  {
    if Current(plant, s.lockMax) - s.targetI > 3000 {
      OneSidedRun(s, xs, plant, true, d);
    } else if Current(plant, 0) - s.targetI < -3000 {
      OneSidedRun(s, xs, plant, false, d);
    } else {
      NeverGivenUp(s, xs, plant, d);
    }
  }

  /** Out of band on one side everywhere, the low time runs to the end of the range. */
  lemma {:induction false} OneSidedRun(s: Charge, xs: seq<Input>, plant: Plant, up: bool, d: int)
    requires Safe(s) && s.locked && Driven(s) && s.targetI > 0 && Steady(s, xs, plant, d)
    requires Antitone(plant, s.lockMax)
    requires if up then Current(plant, s.lockMax) - s.targetI > 3000 else Current(plant, 0) - s.targetI < -3000
    ensures var u := Run(s, xs, d);
      var left := if up then s.lockMax - s.pwmLo else s.pwmLo;
      && u.locked
      && if |xs| > left then u.targetI == 0
         else u.targetI == s.targetI && u.pwmLo == if up then s.pwmLo + |xs| else s.pwmLo - |xs|
  {
    if xs != [] {
      var front := xs[..|xs| - 1];
      OneSidedRun(s, front, plant, up, d);
      DrivenAfter(s, front, d);
      SteadyRunIsSafe(s, front, plant, d);
      var u := Run(s, front, d);
      LockedUpdate(u, xs[|xs| - 1], plant, d);
      assert Current(plant, s.lockMax) <= Current(plant, u.pwmLo) <= Current(plant, 0);
    }
  }

  lemma {:induction false} NeverGivenUp(s: Charge, xs: seq<Input>, plant: Plant, d: int)
    requires Safe(s) && s.locked && Driven(s) && s.targetI > 0 && Steady(s, xs, plant, d)
    requires Current(plant, s.lockMax) - s.targetI <= 3000 && Current(plant, 0) - s.targetI >= -3000
    ensures Run(s, xs, d).locked && Run(s, xs, d).targetI == s.targetI
  {
    if xs != [] {
      var front := xs[..|xs| - 1];
      NeverGivenUp(s, front, plant, d);
      DrivenAfter(s, front, d);
      SteadyRunIsSafe(s, front, plant, d);
      NotGivenUpRound(Run(s, front, d), xs[|xs| - 1], plant, d);
    }
  }

  lemma NotGivenUpRound(s: Charge, x: Input, plant: Plant, d: int)
    requires Safe(s) && s.locked && Driven(s) && s.targetI > 0 && SteadyRound(s, x, plant)
    requires Current(plant, s.lockMax) - s.targetI <= 3000 && Current(plant, 0) - s.targetI >= -3000
    ensures Round(s, x, d).locked && Round(s, x, d).targetI == s.targetI
  {
    LockedUpdate(s, x, plant, d);
  }

  // ----- search and regulation together -----

  /** When the curve also falls by at most the band per step, the setting that the search locks on
      is in band already: from then on the loop never moves. */
  lemma {:induction false} SearchLocksInBand(s: Charge, xs: seq<Input>, plant: Plant, d: int)
    requires Fresh(s) && Safe(s) && s.targetI > 0 && Steady(s, xs, plant, d)
    requires |xs| >= 1 + Clog2(s.lockMax)
    requires Antitone(plant, s.lockMax)
    requires Current(plant, 0) > s.targetI >= Current(plant, s.lockMax)
    requires forall p | 0 <= p < s.lockMax :: Current(plant, p) - Current(plant, p + 1) <= 3000
    ensures var u := Run(s, xs, d);
      && u.locked && u.targetI == s.targetI && InBand(plant, u.pwmLo, s.targetI)
      && forall q | 0 <= q <= s.lockMax :: Current(plant, q) > s.targetI <==> q <= u.pwmLo
  {
    var n := SearchFinds(s, xs, plant, d);
    var v := Run(s, xs[..n], d);
    FoundInBand(v, plant);
    DrivenAfter(s, xs[..n], d);
    HoldsFrom(s, xs, n, plant, d);
  }

  /** A run that is locked in band after n rounds is so at its end. */
  lemma {:induction false} HoldsFrom(s: Charge, xs: seq<Input>, n: nat, plant: Plant, d: int)
    requires Safe(s) && Steady(s, xs, plant, d) && n <= |xs|
    requires var v := Run(s, xs[..n], d); v.locked && Driven(v) && InBand(plant, v.pwmLo, v.targetI)
    ensures var v, u := Run(s, xs[..n], d), Run(s, xs, d);
      u.locked && u.targetI == v.targetI && u.pwmLo == v.pwmLo
  {
    SteadyPrefix(s, xs, n, plant, d);
    SteadyRunIsSafe(s, xs[..n], plant, d);
    assert xs == xs[..n] + xs[n..];
    SteadyConcat(s, xs[..n], xs[n..], plant, d);
    LockedHolds(Run(s, xs[..n], d), xs[n..], plant, d);
  }

  lemma FoundInBand(u: Charge, plant: Plant)
    requires Found(u, plant) && Antitone(plant, u.lockMax)
    requires Current(plant, 0) > u.targetI >= Current(plant, u.lockMax)
    requires forall p | 0 <= p < u.lockMax :: Current(plant, p) - Current(plant, p + 1) <= 3000
    ensures InBand(plant, u.pwmLo, u.targetI)
    ensures forall q | 0 <= q <= u.lockMax :: Current(plant, q) > u.targetI <==> q <= u.pwmLo
  {
    FoundSplitsRange(u, plant);
    assert Current(plant, u.pwmLo) - Current(plant, u.pwmLo + 1) <= 3000;
  }

  lemma SteadyTarget(s: Charge, xs: seq<Input>, n: nat, plant: Plant, d: int)
    requires Safe(s) && Steady(s, xs, plant, d) && LocksAt(s, xs, n, d)
    ensures Run(s, xs[..n], d).targetI == s.targetI
    decreases |xs|
  {
    if n > 0 {
      SteadyPrefix(s, xs, n, plant, d);
      var ys := xs[..n];
      UnlockedTarget(s, ys, plant, d) by {
        forall k: nat | k < n
          ensures !Run(s, ys[..k], d).locked
        {
          assert ys[..k] == xs[..k];
        }
      }
    } else {
      assert xs[..0] == [];
    }
  }

  /** While it searches, the loop does not touch the target. */
  lemma {:induction false} UnlockedTarget(s: Charge, ys: seq<Input>, plant: Plant, d: int)
    requires Steady(s, ys, plant, d) && forall k: nat | k < |ys| :: !Run(s, ys[..k], d).locked
    ensures Run(s, ys, d).targetI == s.targetI
  {
    if ys != [] {
      var front := ys[..|ys| - 1];
      forall k: nat | k < |front|
        ensures !Run(s, front[..k], d).locked
      {
        assert front[..k] == ys[..k];
      }
      UnlockedTarget(s, front, plant, d);
      assert !Run(s, ys[..|front|], d).locked;
      SteadyRoundIsUpdate(Run(s, front, d), ys[|ys| - 1], plant, d);
    }
  }

  lemma ConvergesOnceLocked(s: Charge, xs: seq<Input>, n: nat, plant: Plant, best: int, d: int)
    requires Safe(s) && s.targetI > 0 && Steady(s, xs, plant, d) && LocksAt(s, xs, n, d)
    requires s.locked ==> Driven(s)
    requires Antitone(plant, s.lockMax) && 0 <= best <= s.lockMax && InBand(plant, best, s.targetI)
    requires |xs| - n >= s.lockMax
    ensures var u := Run(s, xs, d);
      u.locked && u.targetI == s.targetI && InBand(plant, u.pwmLo, s.targetI)
  {
    SteadyTarget(s, xs, n, plant, d);
    assert xs == xs[..n] + xs[n..];
    SteadyConcat(s, xs[..n], xs[n..], plant, d);
    SteadyPrefix(s, xs, n, plant, d);
    SteadyRunIsSafe(s, xs[..n], plant, d);
    DrivenAfter(s, xs[..n], d);
    RegulationConverges(Run(s, xs[..n], d), xs[n..], plant, best, d);
  }

  /** Global convergence: from every safe state, in the middle of a search, after a duty-cycle wake
      with a stale or inverted bracket, or locked anywhere, if some setting is in band then after
      1 + ceil(log2(lockMax)) + lockMax rounds the loop is locked in band with its target kept, and
      by LockedHolds it stays there. */
  lemma ConvergesFromAnywhere(s: Charge, xs: seq<Input>, plant: Plant, best: int, d: int)
    requires Safe(s) && s.targetI > 0 && Steady(s, xs, plant, d)
    requires s.locked ==> Driven(s)
    requires Antitone(plant, s.lockMax) && 0 <= best <= s.lockMax && InBand(plant, best, s.targetI)
    requires |xs| >= 1 + Clog2(s.lockMax) + s.lockMax
    ensures var u := Run(s, xs, d);
      u.locked && u.targetI == s.targetI && InBand(plant, u.pwmLo, s.targetI)
  {
    SteadyRunIsSafe(s, xs, plant, d);
    SearchEnds(s, xs, d);
    var n: nat :| n <= 1 + Clog2(s.lockMax) && LocksAt(s, xs, n, d);
    ConvergesOnceLocked(s, xs, n, plant, best, d);
  }

  // ----- a new current -----

  ghost predicate PlantRun(s: Charge, xs: seq<Input>, plant: Plant, d: int) {
    xs != [] ==>
      && PlantRun(s, xs[..|xs| - 1], plant, d)
      && PlantRound(Run(s, xs[..|xs| - 1], d), xs[|xs| - 1], plant)
  }

  /** A duty cycle that never switches stays so, and the clock never disturbs the regulation. */
  lemma {:induction false} AlwaysOnIsSteady(s: Charge, xs: seq<Input>, plant: Plant, d: int)
    requires AlwaysOn(s) && PlantRun(s, xs, plant, d)
    ensures AlwaysOn(Run(s, xs, d)) && Steady(s, xs, plant, d)
  {
    if xs != [] {
      var front := xs[..|xs| - 1];
      AlwaysOnIsSteady(s, front, plant, d);
      QuietRoundDuty(Run(s, front, d), xs[|xs| - 1], d);
    }
  }

  lemma {:induction false} PlantRunIsQuiet(s: Charge, xs: seq<Input>, plant: Plant, d: int)
    requires PlantRun(s, xs, plant, d)
    ensures NoCommands(xs)
  {
    if xs != [] {
      PlantRunIsQuiet(s, xs[..|xs| - 1], plant, d);
    }
  }

  lemma ModPlus(n: nat, k: nat, m: nat)
    requires m > 0 && n % m + k < m
    ensures (n + k) % m == n % m + k
  {
    assert n == n / m * m + n % m;
    ModOf(n / m, m, n % m + k);
  }

  /** ... and neither does it while an on-phase lasts. */
  lemma {:induction false} OnPhaseIsSteady(s: Charge, xs: seq<Input>, plant: Plant, on: nat, off: nat, n: nat, d: int)
    requires OnSchedule(s, on, off, s.masterI, n) && PlantRun(s, xs, plant, d)
    requires n % Period(on, off) + LineTicks(s, xs, d) < on
    ensures Steady(s, xs, plant, d)
  {
    if xs != [] {
      var front := xs[..|xs| - 1];
      OnPhaseIsSteady(s, front, plant, on, off, n, d);
      PlantRunIsQuiet(s, front, plant, d);
      StaysOnSchedule(s, front, on, off, n, d);
      ModPlus(n, LineTicks(s, front, d), Period(on, off));
    }
  }

  /** The seconds of this run fit into the on-phase that it starts with, or the phase never ends. */
  ghost predicate StaysOn(s: Charge, xs: seq<Input>, d: int) {
    || AlwaysOn(s)
    || (s.timer == s.timeOn > 0 && s.timeOff >= 0 && LineTicks(s, xs, d) < s.timeOn)
  }

  /** A falling curve that crosses the target inside the range, in steps of at most the band. */
  ghost predicate Crosses(plant: Plant, max: nat, target: int) {
    && Antitone(plant, max) && Current(plant, 0) > target >= Current(plant, max)
    && forall p | 0 <= p < max :: Current(plant, p) - Current(plant, p + 1) <= 3000
  }

  /** Locked in band, on the last setting whose current is above the target. */
  ghost predicate Reached(u: Charge, plant: Plant, max: nat, target: int) {
    && u.locked && u.targetI == target && InBand(plant, u.pwmLo, target)
    && forall q | 0 <= q <= max :: Current(plant, q) > target <==> q <= u.pwmLo
  }

  /** A fresh search reaches its target and stays there, if the on-time is long enough to lock. */
  lemma FreshTargetIsReached(s: Charge, xs: seq<Input>, plant: Plant, d: int)
    requires Safe(s) && Fresh(s) && s.targetI > 0 && PlantRun(s, xs, plant, d) && StaysOn(s, xs, d)
    requires |xs| >= 1 + Clog2(s.lockMax) && Crosses(plant, s.lockMax, s.targetI)
    ensures Reached(Run(s, xs, d), plant, s.lockMax, s.targetI)
  {
    if AlwaysOn(s) {
      AlwaysOnIsSteady(s, xs, plant, d);
    } else {
      ModOf(0, Period(s.timeOn, s.timeOff), 0);
      OnPhaseIsSteady(s, xs, plant, s.timeOn, s.timeOff, 0, d);
    }
    SteadyRunIsSafe(s, xs, plant, d);
    SearchLocksInBand(s, xs, plant, d);
  }

  /** A command restarts the search exactly when its target is more than the band away from the one
      in force; otherwise lock, bracket and setting stay as they are. */
  lemma CommandRestartsExactly(s: Charge, cmd: Command)
    requires Safe(s) && !cmd.Quiet?
    ensures var u := OnCommand(s, cmd);
      && u.targetI == u.masterI == cmd.mA * 1000
      && (if Resets(s, cmd) then Fresh(u)
          else CoreOf(u).(targetI := s.targetI) == CoreOf(s))
  {
  }

  /** The command's duty cycle has no off phase: command 3, or command 4 with a zero on- or off-time. */
  predicate NoOffPhase(cmd: Command) {
    cmd.Retarget? || (cmd.Recycle? && (cmd.on <= 0 || cmd.off <= 0))
  }

  /** From any safe state, PWMs on or off, a command for a new current that a falling curve crosses in
      steps of at most the band: after 1 + ceil(log2(lockMax)) rounds the loop is locked on the last
      setting above the target, in band, and it stays so for as long as the command's first on-phase
      lasts, or for good if it has no off phase. */
  lemma NewCurrentIsReached(s: Charge, cmd: Command, xs: seq<Input>, plant: Plant, d: int)
    requires Safe(s) && Resets(s, cmd) && cmd.mA > 0
    requires PlantRun(OnCommand(s, cmd), xs, plant, d)
    requires NoOffPhase(cmd) || LineTicks(OnCommand(s, cmd), xs, d) < cmd.on
    requires |xs| >= 1 + Clog2(s.lockMax) && Crosses(plant, s.lockMax, cmd.mA * 1000)
    ensures Reached(Run(OnCommand(s, cmd), xs, d), plant, s.lockMax, cmd.mA * 1000)
  {
    CommandRestartsExactly(s, cmd);
    FreshTargetIsReached(OnCommand(s, cmd), xs, plant, d);
  }

  lemma InitialIsFresh(targetI: int, on: int, off: int, pwmLo: int, pwmT: int, driving: bool)
    ensures var s := Initial(targetI, on, off, pwmLo, pwmT, driving);
      Safe(s) && Fresh(s) && 1 + Clog2(s.lockMax) == 10
  {
    SearchTakesTenRounds();
  }

  /** The same from the start of the program: ten rounds, whatever the board was doing before. */
  lemma StartIsReached(targetI: int, on: int, off: int, pwmLo: int, pwmT: int, driving: bool, xs: seq<Input>,
                       plant: Plant, d: int)
    requires targetI > 0 && |xs| >= 10 && Crosses(plant, LOCK_MAX, targetI)
    requires var s := Initial(targetI, on, off, pwmLo, pwmT, driving);
      PlantRun(s, xs, plant, d) && StaysOn(s, xs, d)
    ensures Reached(Run(Initial(targetI, on, off, pwmLo, pwmT, driving), xs, d), plant, LOCK_MAX, targetI)
  {
    InitialIsFresh(targetI, on, off, pwmLo, pwmT, driving);
    FreshTargetIsReached(Initial(targetI, on, off, pwmLo, pwmT, driving), xs, plant, d);
  }

  /** Every later on-phase that is long enough also ends locked in band: xs runs up to a wake, and ys
      is the part of the on-phase after it. */
  lemma LaterOnPhaseReachesBand(s: Charge, xs: seq<Input>, ys: seq<Input>, plant: Plant, best: int, d: int)
    requires Safe(s) && Echoed(s, xs, d) && NoCommands(xs) && WakesLast(s, xs, d) && s.masterI > 0
    requires PlantRun(Run(s, xs, d), ys, plant, d) && LineTicks(Run(s, xs, d), ys, d) < s.timeOn
    requires Antitone(plant, s.lockMax) && 0 <= best <= s.lockMax && InBand(plant, best, s.masterI)
    requires |ys| >= 1 + Clog2(s.lockMax) + s.lockMax
    ensures var u := Run(s, xs + ys, d);
      u.locked && u.targetI == s.masterI && InBand(plant, u.pwmLo, s.masterI)
  {
    var v, n := Run(s, xs, d), LineTicks(s, xs, d);
    StaysSafe(s, xs, d);
    WakeExactly(s, xs, d);
    DrivenAfter(s, xs, d);
    DutyCycleIsExact(s, xs, d);
    OnPhaseIsSteady(v, ys, plant, s.timeOn, s.timeOff, n, d);
    ConvergesFromAnywhere(v, ys, plant, best, d);
    RunConcat(s, xs, ys, d);
  }

  /** A power failure does no harm: a loop in band before it is in band, at the same setting, in the
      first round after it and from then on. */
  lemma PowerFailureIsHarmless(s: Charge, xs: seq<Input>, ys: seq<Input>, plant: Plant, d: int)
    requires Safe(s) && s.locked && Driven(s) && (s.targetI <= 0 || InBand(plant, s.pwmLo, s.targetI))
    requires NoCommands(xs) && Echoed(s, xs, d) && forall x | x in xs :: x.rep.batRun
    requires Steady(Run(s, xs, d), ys, plant, d)
    ensures var u := Run(s, xs + ys, d); u.locked && u.targetI == s.targetI && u.pwmLo == s.pwmLo
  {
    BatteryHolds(s, xs, d);
    StaysSafe(s, xs, d);
    DrivenAfter(s, xs, d);
    LockedHolds(Run(s, xs, d), ys, plant, d);
    RunConcat(s, xs, ys, d);
  }

  // ----- the off phase -----

  /** After a duty-cycle command, the PWMs are off in every off phase of every run without further
      commands if and only if the on-time is positive (or the commanded current is not). */
  lemma {:induction false} OffPhaseIsOffExactly(s: Charge, mA: int, on: int, off: int, d: int)
    ensures var v := OnCommand(s, Recycle(mA, on, off));
      (forall xs | NoCommands(xs) && xs != [] :: Run(v, xs, d).timer <= 0 ==> !Run(v, xs, d).driving)
      <==> on > 0 || mA <= 0
  {
    var v := OnCommand(s, Recycle(mA, on, off));
    if on > 0 || mA <= 0 {
      forall xs | NoCommands(xs) && xs != []
        ensures Run(v, xs, d).timer <= 0 ==> !Run(v, xs, d).driving
      {
        OffWithTimer(v, xs, d);
      }
    } else {
      var x := Input(Quiet, Reply(0, 0, true), v.lastT);
      assert [x][..0] == [];
      assert NoCommands([x]) && Run(v, [x], d) == Round(v, x, d);
      assert Run(v, [x], d).timer <= 0 && Run(v, [x], d).driving;
    }
  }

  lemma {:induction false} OffWithTimer(s: Charge, xs: seq<Input>, d: int)
    requires TargetFollowsPhase(s) && NoCommands(xs) && xs != []
    requires (s.timer == s.timeOn > 0) || s.masterI <= 0
    ensures Run(s, xs, d).timer <= 0 ==> !Run(s, xs, d).driving
  {
    var front, x := xs[..|xs| - 1], xs[|xs| - 1];
    assert x in xs && forall y | y in front :: y in xs;
    var u := Run(s, front, d);
    TargetAlwaysFollowsPhase(s, front, d);
    CycleKept(s, front, d);
    QuietRoundDuty(u, x, d);
  }

  lemma {:induction false} CycleKept(s: Charge, xs: seq<Input>, d: int)
    requires NoCommands(xs)
    ensures var u := Run(s, xs, d); u.masterI == s.masterI && u.timeOn == s.timeOn && u.timeOff == s.timeOff
  {
    if xs != [] {
      var front, x := xs[..|xs| - 1], xs[|xs| - 1];
      assert x in xs && forall y | y in front :: y in xs;
      CycleKept(s, front, d);
      QuietRoundDuty(Run(s, front, d), x, d);
    }
  }
}
