/** What the second controller guarantees over runs: its filter window, its verdict, its regulation. */
module LoadRuns {
  import opened Bytes
  import opened Loader

  // ----- the filter and its window -----

  /** Every value of the filter since the history was reset, oldest first. */
  function History(vs: seq<int>): (hs: seq<real>)
    ensures |hs| == |vs|
  {
    if vs == [] then []
    else
      var before := History(vs[..|vs| - 1]);
      before + [NextWeight(before, vs[|vs| - 1])]
  }

  /** What the array holds after the same calls. */
  function Window(vs: seq<int>): (ws: seq<real>)
  {
    if vs == [] then [] else Pushed(Window(vs[..|vs| - 1]), vs[|vs| - 1])
  }

  /** The shifting array is the unbounded history, cut to its last 29 values. */
  lemma {:induction false} WindowIsRecentHistory(vs: seq<int>)
    ensures |Window(vs)| == Min(|vs|, 29)
    ensures Window(vs) == History(vs)[|vs| - Min(|vs|, 29)..]
  {
    if vs != [] {
      var front, v := vs[..|vs| - 1], vs[|vs| - 1];
      WindowIsRecentHistory(front);
      var h, w := History(front), Window(front);
      assert NextWeight(h, v) == NextWeight(w, v);
      var k := |front| - |w|;
      assert h + [NextWeight(h, v)] == h[..k] + (w + [NextWeight(w, v)]);
    }
  }

  lemma WeightedMean(x: real, y: real, lo: real, hi: real)
    requires lo <= x <= hi && lo <= y <= hi
    ensures lo <= x * (1.0 - FILTER) + y * FILTER <= hi
  {
  }

  /** Every filtered value lies between any bounds that all inputs since the reset respect. */
  lemma {:induction false} HistoryIsBounded(vs: seq<int>, lo: int, hi: int)
    requires forall v | v in vs :: lo <= v <= hi
    ensures forall h | h in History(vs) :: lo as real <= h <= hi as real
  {
    if vs != [] {
      var front, v := vs[..|vs| - 1], vs[|vs| - 1];
      assert v in vs && forall u | u in front :: u in vs;
      HistoryIsBounded(front, lo, hi);
      var before := History(front);
      if before != [] {
        assert before[|before| - 1] in before;
        WeightedMean(v as real, before[|before| - 1], lo as real, hi as real);
      }
    }
  }

  /** After one more value the window is calm exactly when the value is within 100 of the weight
      before it. */
  lemma CalmExactly(weights: seq<real>, v: int)
    requires 1 <= |weights| < 30
    ensures Calm(Pushed(weights, v)) <==> -100.0 < v as real - weights[|weights| - 1] < 100.0
  {
    var last := weights[|weights| - 1];
    assert NextWeight(weights, v) - last == (v as real - last) * 0.01;
  }

  // ----- runs -----

  datatype Event =
    | Sample(board: Board, now: int)     // a call of doload
    | SetCurrent(mA: int)                // the operator sets a new target

  function PlanStep(a: Plan, e: Event): (next: Plan)
  {
    match e
    case Sample(b, now) => PlanAfter(a, b, now)
    case SetCurrent(mA) => a.(current := if mA < 0 || mA > 2000 then DEFTARGET else mA, stableTime := 0)
  }

  function PlanRun(a: Plan, es: seq<Event>): (end: Plan)
  {
    if es == [] then a else PlanStep(PlanRun(a, es[..|es| - 1]), es[|es| - 1])
  }

  /** The voltages that a run has recorded since the history was last reset. */
  function Fed(a: Plan, es: seq<Event>): (vs: seq<int>)
  {
    if es == [] then []
    else
      var fed, u, e := Fed(a, es[..|es| - 1]), PlanRun(a, es[..|es| - 1]), es[|es| - 1];
      if e.SetCurrent? then fed
      else if e.board.batRun then []
      else if u.hours != 0 || u.alarm > e.now || Verdict(u, e.now) then fed
      else fed + [e.board.batU]
  }

  lemma EventFeeds(a: Plan, e: Event)
    ensures PlanStep(a, e).weights ==
      if e.SetCurrent? then a.weights
      else if e.board.batRun then []
      else if a.hours != 0 || a.alarm > e.now || Verdict(a, e.now) then a.weights
      else Pushed(a.weights, e.board.batU)
  {
  }

  lemma {:induction false} RunHoldsWindow(a: Plan, es: seq<Event>)
    requires a.weights == []
    ensures PlanRun(a, es).weights == Window(Fed(a, es))
  {
    if es != [] {
      var front, e := es[..|es| - 1], es[|es| - 1];
      RunHoldsWindow(a, front);
      EventFeeds(PlanRun(a, front), e);
      if e.Sample? {
        var fed: seq<int> := Fed(a, front);
        assert (fed + [e.board.batU])[..|fed|] == fed;
      }
    }
  }

  /** Over every run of doload the array holds the latest values of the filter, run without a bound on
      the voltages recorded since the last reset. */
  lemma RunHoldsRecentHistory(a: Plan, es: seq<Event>)
    requires a.weights == []
    ensures var vs, ws := Fed(a, es), PlanRun(a, es).weights;
      |ws| == Min(|vs|, 29) && ws == History(vs)[|vs| - |ws|..]
  {
    RunHoldsWindow(a, es);
    WindowIsRecentHistory(Fed(a, es));
  }

  /** The checks of a run, with their time and what they saw, and the events that start it over. */
  datatype Mark = Checked(time: int, calm: bool) | Cleared

  function Marks(a: Plan, e: Event): (ms: seq<Mark>)
  {
    match e
    case SetCurrent(_) => [Cleared]
    case Sample(b, now) =>
      if b.batRun then [Cleared]
      else if a.hours != 0 then []
      else (if a.alarm > now then [] else [Checked(now, Calm(a.weights))])
           + [Checked(now, Calm(Recorded(a, b.batU, now).weights))]
  }

  function Log(a: Plan, es: seq<Event>): (ms: seq<Mark>)
  {
    if es == [] then [] else Log(a, es[..|es| - 1]) + Marks(PlanRun(a, es[..|es| - 1]), es[|es| - 1])
  }

  /** The log has a calm check at this time, and nothing but calm checks since. */
  ghost predicate CalmSince(log: seq<Mark>, time: int) {
    exists i :: 0 <= i < |log| && log[i] == Checked(time, true)
      && forall j | i <= j < |log| :: log[j].Checked? && log[j].calm
  }

  ghost predicate Earned(a: Plan, log: seq<Mark>) {
    a.stableTime != 0 ==> |a.weights| >= 2 && CalmSince(log, a.stableTime)
  }

  lemma CalmGoesOn(log: seq<Mark>, time: int, now: int)
    requires CalmSince(log, time)
    ensures CalmSince(log + [Checked(now, true)], time)
  {
    var i :| 0 <= i < |log| && log[i] == Checked(time, true)
      && forall j | i <= j < |log| :: log[j].Checked? && log[j].calm;
    var more := log + [Checked(now, true)];
    assert more[i] == Checked(time, true);
  }

  lemma CheckKeepsEarned(a: Plan, log: seq<Mark>, now: int)
    requires Earned(a, log)
    ensures Earned(AfterCheck(a, now), log + [Checked(now, Calm(a.weights))])
  {
    if Calm(a.weights) {
      var more := log + [Checked(now, true)];
      if a.stableTime == 0 {
        assert more[|log|] == Checked(now, true);
      } else {
        CalmGoesOn(log, a.stableTime, now);
      }
    }
  }

  lemma EventKeepsEarned(a: Plan, log: seq<Mark>, e: Event)
    requires Earned(a, log)
    ensures Earned(PlanStep(a, e), log + Marks(a, e))
  {
    if e.Sample? && !e.board.batRun {
      if a.hours != 0 {
        assert log + [] == log;
      } else {
        var first := if a.alarm > e.now then [] else [Checked(e.now, Calm(a.weights))];
        var u := Recorded(a, e.board.batU, e.now);
        CheckKeepsEarned(a, log, e.now);
        assert log + [] == log;
        assert Earned(u, log + first);
        CheckKeepsEarned(u, log + first, e.now);
        assert (log + first) + [Checked(e.now, Calm(u.weights))] == log + Marks(a, e);
      }
    }
  }

  lemma {:induction false} RunIsEarned(a: Plan, es: seq<Event>)
    requires a.stableTime == 0
    ensures Earned(PlanRun(a, es), Log(a, es))
  {
    if es != [] {
      var front := es[..|es| - 1];
      RunIsEarned(a, front);
      EventKeepsEarned(PlanRun(a, front), Log(a, front), es[|es| - 1]);
    }
  }

  /** Soundness of the verdict: it is given only when every check over more than 15 minutes, back to
      the one at stable_time, was calm, with no reset in between. */
  lemma VerdictIsEarned(a: Plan, es: seq<Event>, now: int)
    requires a.stableTime == 0
    ensures var u := PlanRun(a, es);
      Verdict(u, now) ==> Calm(u.weights) && now - u.stableTime > 15 * 60 && CalmSince(Log(a, es), u.stableTime)
  {
    RunIsEarned(a, es);
  }

  // ----- when the verdict comes -----

  ghost predicate CalmFrom(log: seq<Mark>, i: nat) {
    i < |log| && forall j | i <= j < |log| :: log[j].Checked? && log[j].calm
  }

  /** The calm checks at the end of the log start with mark i. */
  ghost predicate StreakStart(log: seq<Mark>, i: nat) {
    CalmFrom(log, i) && (i == 0 || log[i - 1].Cleared? || !log[i - 1].calm)
  }

  ghost predicate LastCalm(log: seq<Mark>) {
    log != [] && log[|log| - 1].Checked? && log[|log| - 1].calm
  }

  /** The stable time is that of the check that starts the final calm streak, and 0 without one. */
  ghost predicate Timed(a: Plan, log: seq<Mark>) {
    && (a.stableTime != 0 <==> LastCalm(log))
    && (a.stableTime != 0 ==> |a.weights| >= 2)
    && (a.stableTime != 0 ==> exists i: nat :: StreakStart(log, i) && log[i].time == a.stableTime)
  }

  lemma StreakGoesOn(log: seq<Mark>, i: nat, now: int)
    requires StreakStart(log, i)
    ensures StreakStart(log + [Checked(now, true)], i)
  {
  }

  lemma CheckKeepsTimed(a: Plan, log: seq<Mark>, now: int)
    requires Timed(a, log) && now != 0
    ensures Timed(AfterCheck(a, now), log + [Checked(now, Calm(a.weights))])
  {
    if Calm(a.weights) {
      var more := log + [Checked(now, true)];
      if a.stableTime == 0 {
        assert StreakStart(more, |log|);
      } else {
        var i: nat :| StreakStart(log, i) && log[i].time == a.stableTime;
        StreakGoesOn(log, i, now);
        assert more[i] == log[i];
      }
    }
  }

  lemma EventKeepsTimed(a: Plan, log: seq<Mark>, e: Event)
    requires Timed(a, log) && (LastCalm(log) ==> Calm(a.weights)) && (e.Sample? ==> e.now != 0)
    ensures var u, more := PlanStep(a, e), log + Marks(a, e);
      Timed(u, more) && (LastCalm(more) ==> Calm(u.weights))
  {
    assert log + [] == log;
    if e.Sample? && !e.board.batRun && a.hours == 0 {
      var first := if a.alarm > e.now then [] else [Checked(e.now, Calm(a.weights))];
      var u := Recorded(a, e.board.batU, e.now);
      CheckKeepsTimed(a, log, e.now);
      assert Timed(u, log + first);
      CheckKeepsTimed(u, log + first, e.now);
      assert (log + first) + [Checked(e.now, Calm(u.weights))] == log + Marks(a, e);
    }
  }

  /** No sample is taken at time 0, which stands for no time. */
  ghost predicate Clocked(es: seq<Event>) {
    forall e | e in es && e.Sample? :: e.now != 0
  }

  lemma {:induction false} RunIsTimed(a: Plan, es: seq<Event>)
    requires a.stableTime == 0 && Clocked(es)
    ensures var u, log := PlanRun(a, es), Log(a, es); Timed(u, log) && (LastCalm(log) ==> Calm(u.weights))
  {
    if es != [] {
      var front, e := es[..|es| - 1], es[|es| - 1];
      assert e in es && forall x | x in front :: x in es;
      RunIsTimed(a, front);
      EventKeepsTimed(PlanRun(a, front), Log(a, front), e);
    }
  }

  lemma NoStartInside(log: seq<Mark>, i: nat, j: nat)
    requires CalmFrom(log, i) && i < j < |log|
    ensures !StreakStart(log, j)
  {
    assert log[j - 1].calm;
  }

  lemma OneStreak(log: seq<Mark>, i: nat, j: nat)
    requires StreakStart(log, i) && StreakStart(log, j)
    ensures i == j
  {
    if i < j {
      NoStartInside(log, i, j);
    } else if j < i {
      NoStartInside(log, j, i);
    }
  }

  /** The stable time is that of every start of the final streak; there is none without one. */
  lemma StreakIsStableTime(a: Plan, log: seq<Mark>, i: nat)
    requires Timed(a, log) && StreakStart(log, i)
    ensures a.stableTime != 0 && log[i].time == a.stableTime
  {
    assert log[|log| - 1].calm;
    var k: nat :| StreakStart(log, k) && log[k].time == a.stableTime;
    OneStreak(log, i, k);
  }

  /** The final calm streak of the log started more than `least` and less than `most` seconds ago. */
  ghost predicate CalmFor(log: seq<Mark>, now: int, least: int, most: int) {
    exists i: nat :: StreakStart(log, i) && least < now - log[i].time < most
  }

  lemma CalmForIs(a: Plan, log: seq<Mark>, now: int, least: int, most: int)
    requires Timed(a, log)
    ensures CalmFor(log, now, least, most) <==> a.stableTime != 0 && least < now - a.stableTime < most
  {
    forall i: nat | StreakStart(log, i)
      ensures a.stableTime != 0 && log[i].time == a.stableTime
    {
      StreakIsStableTime(a, log, i);
    }
  }

  /** The verdict is exact: over every run it is given if and only if the checks have been calm since
      one more than 15 minutes ago that followed a check that was not, a reset or a new target. */
  lemma VerdictExactly(a: Plan, es: seq<Event>, now: int)
    requires a.stableTime == 0 && Clocked(es)
    ensures Verdict(PlanRun(a, es), now) <==>
      exists i: nat :: StreakStart(Log(a, es), i) && now - Log(a, es)[i].time > 15 * 60
  {
    var u, log := PlanRun(a, es), Log(a, es);
    RunIsTimed(a, es);
    forall i: nat | StreakStart(log, i)
      ensures u.stableTime != 0 && log[i].time == u.stableTime
    {
      StreakIsStableTime(u, log, i);
    }
  }

  /** The clock does not run backwards, and shows at most t. */
  ghost predicate Forwards(es: seq<Event>, t: int) {
    && (forall i, j | 0 <= i < j < |es| && es[i].Sample? && es[j].Sample? :: es[i].now <= es[j].now)
    && forall i | 0 <= i < |es| && es[i].Sample? :: es[i].now <= t
  }

  ghost predicate MarksForwards(log: seq<Mark>, t: int) {
    && (forall i, j | 0 <= i < j < |log| && log[i].Checked? && log[j].Checked? :: log[i].time <= log[j].time)
    && forall i | 0 <= i < |log| && log[i].Checked? :: log[i].time <= t
  }

  lemma MarksLater(log: seq<Mark>, ms: seq<Mark>, t0: int, t: int)
    requires MarksForwards(log, t0) && t0 <= t
    requires forall m | m in ms && m.Checked? :: m.time == t
    ensures MarksForwards(log + ms, t)
  {
  }

  lemma {:induction false} LogForwards(a: Plan, es: seq<Event>, t: int)
    requires Forwards(es, t)
    ensures MarksForwards(Log(a, es), t)
  {
    if es != [] {
      var front, e := es[..|es| - 1], es[|es| - 1];
      var t0 := if e.Sample? then e.now else t;
      LogForwards(a, front, t0);
      MarksLater(Log(a, front), Marks(PlanRun(a, front), e), t0, t0);
      MarksLater(Log(a, es), [], t0, t);
      assert Log(a, es) + [] == Log(a, es);
    }
  }

  lemma {:induction false} StreakOf(log: seq<Mark>, i: nat) returns (k: nat)
    requires CalmFrom(log, i)
    ensures k <= i && StreakStart(log, k)
  {
    if i == 0 || log[i - 1].Cleared? || !log[i - 1].calm {
      k := i;
    } else {
      k := StreakOf(log, i - 1);
    }
  }

  /** The verdict comes: if all checks since some check more than 15 minutes ago were calm, it is
      given. */
  lemma VerdictComes(a: Plan, es: seq<Event>, now: int, i: nat)
    requires a.stableTime == 0 && Clocked(es) && Forwards(es, now)
    requires CalmFrom(Log(a, es), i) && now - Log(a, es)[i].time > 15 * 60
    ensures Verdict(PlanRun(a, es), now)
  {
    var k := StreakOf(Log(a, es), i);
    LogForwards(a, es, now);
    VerdictExactly(a, es, now);
  }

  lemma {:induction false} HoursKept(a: Plan, es: seq<Event>)
    ensures PlanRun(a, es).hours == a.hours
  {
    if es != [] {
      HoursKept(a, es[..|es| - 1]);
    }
  }

  /** For a plan whose stable time comes with a window, recording makes no verdict and takes none. */
  lemma RestingIsVerdict(u: Plan, b: Board, now: int)
    requires u.stableTime != 0 ==> |u.weights| >= 2
    ensures Resting(u, b, now) <==> Verdict(u, now) && now - u.stableTime < 86400
  {
  }

  /** The op-amp is exact: after a call on line power it is off if and only if the final calm streak of
      the log started more than 15 minutes and less than a day ago, and then the low time is kept. */
  lemma RestsExactly(a: Plan, es: seq<Event>, b: Board, now: int)
    requires a.stableTime == 0 && a.hours == 0 && Clocked(es) && !b.batRun
    ensures var c := BoardAfter(PlanRun(a, es), b, now);
      && (!c.opamp <==> CalmFor(Log(a, es), now, 15 * 60, 24 * 60 * 60))
      && (!c.opamp ==> c.pwmLo == b.pwmLo)
  {
    var u := PlanRun(a, es);
    RunIsTimed(a, es);
    HoursKept(a, es);
    RestingIsVerdict(u, b, now);
    CalmForIs(u, Log(a, es), now, 15 * 60, 24 * 60 * 60);
  }

  // ----- once a second -----

  /** The times of the calls on line power since the last on battery. */
  function Seen(es: seq<Event>): (ts: seq<int>)
  {
    if es == [] then []
    else
      var seen, e := Seen(es[..|es| - 1]), es[|es| - 1];
      if e.SetCurrent? then seen else if e.board.batRun then [] else seen + [e.now]
  }

  /** The alarm stands a second after the latest of these times. */
  ghost predicate AlarmFor(alarm: int, ts: seq<int>) {
    if ts == [] then alarm <= 0
    else alarm - 1 in ts && forall t | t in ts :: t < alarm
  }

  lemma EventSetsAlarm(a: Plan, ts: seq<int>, e: Event)
    requires a.hours == 0 && AlarmFor(a.alarm, ts) && (e.Sample? ==> e.now >= 0)
    ensures AlarmFor(PlanStep(a, e).alarm,
      if e.SetCurrent? then ts else if e.board.batRun then [] else ts + [e.now])
  {
    if e.Sample? && !e.board.batRun {
      assert PlanStep(a, e).alarm == if a.alarm > e.now then a.alarm else e.now + 1;
    }
  }

  lemma {:induction false} AlarmIsLast(a: Plan, es: seq<Event>)
    requires a.hours == 0 && a.alarm <= 0 && forall e | e in es && e.Sample? :: e.now >= 0
    ensures AlarmFor(PlanRun(a, es).alarm, Seen(es))
  {
    if es != [] {
      var front, e := es[..|es| - 1], es[|es| - 1];
      assert e in es && forall x | x in front :: x in es;
      AlarmIsLast(a, front);
      HoursKept(a, front);
      EventSetsAlarm(PlanRun(a, front), Seen(front), e);
    }
  }

  /** A voltage is recorded at most once a second: over every run, a call finds the alarm set if and
      only if a call since the last one on battery was made in the same second or a later one. */
  lemma RecordsOnceASecond(a: Plan, es: seq<Event>, now: int)
    requires a.hours == 0 && a.alarm <= 0 && now >= 0 && forall e | e in es && e.Sample? :: e.now >= 0
    ensures PlanRun(a, es).alarm > now <==> exists t :: t in Seen(es) && t >= now
  {
    AlarmIsLast(a, es);
    var alarm := PlanRun(a, es).alarm;
    assert alarm > now ==> alarm - 1 in Seen(es);
  }

  /** Rounds on line power, none before `from`. */
  ghost predicate LineSince(es: seq<Event>, from: int) {
    forall e | e in es :: e.Sample? && !e.board.batRun && e.now >= from
  }

  lemma FrozenStep(a: Plan, b: Board, now: int, from: int)
    requires a.hours == 0 && Verdict(a, from) && !b.batRun && now >= from
    ensures PlanAfter(a, b, now).(alarm := a.alarm) == a
    ensures BoardAfter(a, b, now).opamp <==> now - a.stableTime >= 86400
  {
  }

  /** Once given, the verdict lasts as long as line power and the target do: the history is frozen,
      and the op-amp is off exactly until the stable time is a day old, and on from then on. */
  lemma {:induction false} VerdictLasts(a: Plan, from: int, es: seq<Event>, b: Board, now: int)
    requires a.hours == 0 && Verdict(a, from) && LineSince(es, from)
    requires !b.batRun && now >= from
    ensures var u := PlanRun(a, es);
      && u.(alarm := a.alarm) == a && Verdict(u, now)
      && (BoardAfter(u, b, now).opamp <==> now - a.stableTime >= 86400)
  {
    if es != [] {
      var front, e := es[..|es| - 1], es[|es| - 1];
      assert e in es && forall x | x in front :: x in es;
      VerdictLasts(a, from, front, b, now);
      FrozenStep(PlanRun(a, front), e.board, e.now, from);
    }
    FrozenStep(PlanRun(a, es), b, now, from);
  }

  // ----- regulation against a steady battery -----

  /** The ADC reading that a PWM low time settles at. */
  type Plant = int -> word

  function MicroAmps(plant: Plant, p: int): (uA: int)
  {
    (plant(p) - 29000) * 60
  }

  /** The lowest setting allowed for a target current: half the range for the default of 400 mA. */
  function Lowest(current: int): (p: int)
  {
    if current == 400 then 256 else 0
  }

  /** The current as calc_load sees it, in whole mA. */
  function MilliAmps(plant: Plant, p: int): (mA: int)
  {
    TruncDiv(MicroAmps(plant, p), 1000)
  }

  /** From lo to hi the current falls, by at most 10 mA a step. */
  ghost predicate Gentle(plant: Plant, lo: int, hi: int) {
    forall p, q | lo <= p < hi && q == p + 1 :: 0 <= MicroAmps(plant, p) - MicroAmps(plant, q) <= 10_000
  }

  lemma TruncKeepsSpan(a: int, b: int, k: nat)
    requires 0 <= a - b <= 10_000 * k
    ensures 0 <= TruncDiv(a, 1000) - TruncDiv(b, 1000) <= 10 * k
  {
  }

  lemma {:induction false} GentleSpan(plant: Plant, lo: int, hi: int, p: int, q: int)
    requires Gentle(plant, lo, hi) && lo <= p <= q <= hi
    ensures 0 <= MicroAmps(plant, p) - MicroAmps(plant, q) <= 10_000 * (q - p)
    ensures 0 <= MilliAmps(plant, p) - MilliAmps(plant, q) <= 10 * (q - p)
    decreases q - p
  {
    if p < q {
      GentleSpan(plant, lo, hi, p + 1, q);
    }
    TruncKeepsSpan(MicroAmps(plant, p), MicroAmps(plant, q), q - p);
  }

  ghost predicate InBand(plant: Plant, p: int, current: int) {
    -10 <= current - MilliAmps(plant, p) <= 10
  }

  /** n calls of calc_load in a row. */
  function Steps(plant: Plant, p: int, top: int, current: int, n: nat): (end: int)
  {
    if n == 0 then p
    else
      var before := Steps(plant, p, top, current, n - 1);
      NextPwm(before, top, current, plant(before))
  }

  /** The clamps: every step ends in range, whatever the reading. */
  lemma StepStaysInRange(p: int, top: int, current: int, batI: word)
    requires Lowest(current) <= top
    ensures Lowest(current) <= NextPwm(p, top, current, batI) <= top
  {
  }

  /** The step itself, before the clamps: none in band, and out of band towards `best`, not across. */
  lemma StepIsTowards(plant: Plant, p: int, top: int, current: int, best: int)
    requires Lowest(current) <= p <= top && Lowest(current) <= best <= top
    requires Gentle(plant, Lowest(current), top) && InBand(plant, best, current)
    ensures var q := p + StepFor(Shortfall(current, plant(p)));
      if InBand(plant, p, current) then q == p
      else if p > best then best <= q < p
      else p < q <= best
  {
    if p >= best {
      GentleSpan(plant, Lowest(current), top, best, p);
    } else {
      GentleSpan(plant, Lowest(current), top, p, best);
    }
  }

  /** The two speeds, where no clamp holds: ten steps when more than 100 mA off, one when more than 10. */
  lemma StepIsSized(plant: Plant, p: int, top: int, current: int)
    requires Lowest(current) + 10 <= p <= top - 10
    ensures var q, off := NextPwm(p, top, current, plant(p)), current - MilliAmps(plant, p);
      q == if off > 100 then p - 10 else if off > 10 then p - 1
           else if off >= -10 then p else if off >= -100 then p + 1 else p + 10
  {
  }

  /** One step in band stays; one step out of band comes closer to `best` and does not cross it. */
  lemma StepApproaches(plant: Plant, p: int, top: int, current: int, best: int)
    requires Lowest(current) <= p <= top && Lowest(current) <= best <= top
    requires Gentle(plant, Lowest(current), top) && InBand(plant, best, current)
    ensures var q := NextPwm(p, top, current, plant(p));
      if InBand(plant, p, current) then q == p
      else if p > best then best <= q < p
      else p < q <= best
  {
    StepIsTowards(plant, p, top, current, best);
  }

  /** `q` lies on p's side of `best`, no further from it than p. */
  predicate Between(p: int, q: int, best: int) {
    if p >= best then best <= q <= p else p <= q <= best
  }

  /** In band, or at most `bound` steps from the in-band setting `best`. */
  ghost predicate Within(plant: Plant, q: int, current: int, best: int, bound: int) {
    InBand(plant, q, current) || Abs(q - best) <= bound
  }

  lemma OneStepCloser(plant: Plant, p: int, q: int, top: int, current: int, best: int, bound: int)
    requires Lowest(current) <= p <= top && Lowest(current) <= best <= top
    requires Gentle(plant, Lowest(current), top) && InBand(plant, best, current)
    requires Between(p, q, best) && Within(plant, q, current, best, bound)
    ensures var q' := NextPwm(q, top, current, plant(q));
      Between(p, q', best) && Within(plant, q', current, best, bound - 1)
  {
    StepApproaches(plant, q, top, current, best);
  }

  lemma {:induction false} LoadingApproaches(plant: Plant, p: int, top: int, current: int, best: int, n: nat)
    requires Lowest(current) <= p <= top && Lowest(current) <= best <= top
    requires Gentle(plant, Lowest(current), top) && InBand(plant, best, current)
    ensures var q := Steps(plant, p, top, current, n);
      Between(p, q, best) && Within(plant, q, current, best, Abs(p - best) - n)
  {
    if n > 0 {
      LoadingApproaches(plant, p, top, current, best, n - 1);
      OneStepCloser(plant, p, Steps(plant, p, top, current, n - 1), top, current, best, Abs(p - best) - (n - 1));
    }
  }

  /** Two-speed loading converges without overshoot: it stays on its side of `best`, and after at
      most |p - best| calls it is in band for good. By StepApproaches every call that finds it out of
      band brings it closer. */
  lemma LoadingConverges(plant: Plant, p: int, top: int, current: int, best: int, n: nat)
    requires Lowest(current) <= p <= top && Lowest(current) <= best <= top
    requires Gentle(plant, Lowest(current), top) && InBand(plant, best, current)
    ensures var q := Steps(plant, p, top, current, n);
      && Between(p, q, best)
      && (n >= Abs(p - best) ==> InBand(plant, q, current) && Steps(plant, p, top, current, n + 1) == q)
  {
    LoadingApproaches(plant, p, top, current, best, n);
    StepApproaches(plant, Steps(plant, p, top, current, n), top, current, best);
  }

  /** A target between the currents at the two clamps always has an in-band setting. */
  lemma {:induction false} FindBand(plant: Plant, lo: int, hi: int, current: int) returns (best: int)
    requires lo <= hi && Gentle(plant, lo, hi)
    requires MilliAmps(plant, lo) >= current >= MilliAmps(plant, hi)
    ensures lo <= best <= hi && InBand(plant, best, current)
    decreases hi - lo
  {
    if MilliAmps(plant, lo) - current <= 10 {
      best := lo;
    } else {
      GentleSpan(plant, lo, hi, lo, lo + 1);
      best := FindBand(plant, lo + 1, hi, current);
    }
  }

  /** Every reachable target is reached: from any setting in range, within top - Floor calls. */
  lemma ReachableTargetIsReached(plant: Plant, p: int, top: int, current: int, n: nat)
    requires Lowest(current) <= p <= top && Gentle(plant, Lowest(current), top)
    requires MilliAmps(plant, Lowest(current)) >= current >= MilliAmps(plant, top)
    requires n >= top - Lowest(current)
    ensures InBand(plant, Steps(plant, p, top, current, n), current)
    ensures Steps(plant, p, top, current, n + 1) == Steps(plant, p, top, current, n)
  {
    var best := FindBand(plant, Lowest(current), top, current);
    LoadingConverges(plant, p, top, current, best, n);
  }

  /** A target below even the current at the ceiling ends at the ceiling, */
  lemma {:induction false} TooSmallTargetEndsAtCeiling(plant: Plant, p: int, top: int, current: int, n: nat)
    requires Lowest(current) <= p <= top && Gentle(plant, Lowest(current), top)
    requires current - MilliAmps(plant, top) < -10
    ensures Min(p + n, top) <= Steps(plant, p, top, current, n) <= top
  {
    if n > 0 {
      TooSmallTargetEndsAtCeiling(plant, p, top, current, n - 1);
      var q := Steps(plant, p, top, current, n - 1);
      GentleSpan(plant, Lowest(current), top, q, top);
    }
  }

  /** ... and one above even the current at the floor ends at the floor. */
  lemma {:induction false} TooLargeTargetEndsAtFloor(plant: Plant, p: int, top: int, current: int, n: nat)
    requires Lowest(current) <= p <= top && Gentle(plant, Lowest(current), top)
    requires current - MilliAmps(plant, Lowest(current)) > 10
    ensures Lowest(current) <= Steps(plant, p, top, current, n) <= p - Min(n, p - Lowest(current))
  {
    if n > 0 {
      TooLargeTargetEndsAtFloor(plant, p, top, current, n - 1);
      var q := Steps(plant, p, top, current, n - 1);
      GentleSpan(plant, Lowest(current), top, Lowest(current), q);
    }
  }

  // ----- doload in closed loop -----

  /** A call of doload on line power: the clock, the battery voltage that is then sampled, and the
      current that is sampled if the charger is off then. */
  datatype Call = Call(now: int, batU: word, offI: word)

  /** The charger delivers: the op-amp and both PWMs are on. */
  predicate Powered(b: Board) {
    b.opamp && b.pwm1 && b.pwm2
  }

  /** One call, on a board that repeats its settings. It then reads the battery at the low time it was
      given if the charger is on, and anything if it is off. */
  function Served(a: Plan, b: Board, call: Call, plant: Plant): (end: (Plan, Board))
  {
    var c := BoardAfter(a, b, call.now);
    (PlanAfter(a, b, call.now),
     c.(batI := if Powered(c) then plant(c.pwmLo) else call.offI, batU := call.batU))
  }

  /** The plan and the board after these calls. */
  function Loop(a: Plan, b: Board, calls: seq<Call>, plant: Plant): (end: (Plan, Board))
  {
    if calls == [] then (a, b)
    else
      var (a1, b1) := Loop(a, b, calls[..|calls| - 1], plant);
      Served(a1, b1, calls[|calls| - 1], plant)
  }

  /** The call charges: it is neither resting on a stable battery nor past its end time. */
  predicate Charges(a: Plan, b: Board, now: int) {
    if a.hours != 0 then a.hours >= now else !Resting(a, b, now)
  }

  /** A charging call leaves the charger on, unless the stability branch finds the op-amp on with a PWM
      off: it never switches a PWM on behind an op-amp that is on already. */
  lemma ChargingPowersExactly(a: Plan, b: Board, now: int)
    ensures var c := BoardAfter(a, b, now);
      Powered(c) <==> !b.batRun && Charges(a, b, now) && (a.hours != 0 || !b.opamp || (b.pwm1 && b.pwm2))
  {
  }

  /** After a call on battery everything is off, the settings are kept, and the history starts over. */
  lemma BatteryStopsAll(a: Plan, b: Board, now: int)
    requires b.batRun
    ensures var c := BoardAfter(a, b, now);
      && !c.opamp && !c.pwm1 && !c.pwm2 && !c.buck && !c.offset && !c.softJP3
      && c.updated == now && c.pwmLo == b.pwmLo && c.pwmT == b.pwmT && c.batRun
    ensures PlanAfter(a, b, now) == Plan(a.current, a.hours, [], 0, 0)
  {
  }

  /** No call of a run leaves anything on while on battery. */
  lemma NothingOnWithBattery(a: Plan, es: seq<Event>, i: nat)
    requires i < |es| && es[i].Sample? && es[i].board.batRun
    ensures var c := BoardAfter(PlanRun(a, es[..i]), es[i].board, es[i].now);
      !c.opamp && !c.pwm1 && !c.pwm2 && !c.buck && !c.offset && c.pwmLo == es[i].board.pwmLo
  {
    BatteryStopsAll(PlanRun(a, es[..i]), es[i].board, es[i].now);
  }

  /** A call never touches what was measured, and always clears soft-JP3. */
  lemma CallLeavesReadings(a: Plan, b: Board, now: int)
    ensures var c := BoardAfter(a, b, now);
      c.batU == b.batU && c.batI == b.batI && c.batRun == b.batRun && !c.softJP3
  {
  }

  /** A charging call switches buck and offset off; one that rests leaves them and the settings alone,
      and the PWMs too unless it finds the op-amp on. */
  lemma CallLeavesAlone(a: Plan, b: Board, now: int)
    requires !b.batRun
    ensures var c := BoardAfter(a, b, now);
      if Charges(a, b, now) then c.opamp && !c.buck && !c.offset && c.updated == b.updated
      else
        && c == b.(opamp := false, softJP3 := false, pwm1 := c.pwm1, pwm2 := c.pwm2)
        && (a.hours == 0 && !b.opamp ==> c.pwm1 == b.pwm1 && c.pwm2 == b.pwm2)
  {
  }

  /** The calls that charged, those of them that resumed on a reading taken while the charger was off,
      and how many have charged since the last of these. */
  datatype Tally = Tally(charged: nat, resumed: nat, since: nat)

  function Counted(n: Tally, charges: bool, powered: bool): (next: Tally)
  {
    if !charges then n
    else if powered then Tally(n.charged + 1, n.resumed, n.since + 1)
    else Tally(n.charged + 1, n.resumed + 1, 0)
  }

  function Count(a: Plan, b: Board, calls: seq<Call>, plant: Plant): (n: Tally)
  {
    if calls == [] then Tally(0, 0, 0)
    else
      var front := calls[..|calls| - 1];
      var (a1, b1) := Loop(a, b, front, plant);
      Counted(Count(a, b, front, plant), Charges(a1, b1, calls[|calls| - 1].now), Powered(b1))
  }

  /** A board on line power that, with the charger on, reads the battery where its PWM is. */
  ghost predicate Live(b: Board, plant: Plant) {
    !b.batRun && (Powered(b) ==> b.batI == plant(b.pwmLo))
  }

  /** The first call that charges clamps with the period it finds, and sets it to its own. */
  lemma CallMovesPwm(a: Plan, b: Board, now: int)
    requires !b.batRun
    ensures var c := BoardAfter(a, b, now);
      && !c.batRun
      && c.pwmT == (if Charges(a, b, now) then 512 else b.pwmT)
      && c.pwmLo == if Charges(a, b, now) then NextPwm(b.pwmLo, b.pwmT, a.current, b.batI) else b.pwmLo
  {
  }

  lemma CallKeepsTarget(a: Plan, b: Board, now: int)
    ensures PlanAfter(a, b, now).current == a.current
  {
  }

  /** A period shorter than doload's own can hold the first step back. */
  function Slack(pwmT: int): (k: nat)
  {
    if pwmT < 512 then 1 else 0
  }

  /** A call that charges on a reading that is not of the curve leaves the low time alone exactly if the
      reading happens to be in band, or the clamp on its side holds it. */
  lemma ResumeStaysExactly(p: int, top: int, current: int, offI: word)
    requires Lowest(current) <= p <= top
    ensures var short := Shortfall(current, offI);
      NextPwm(p, top, current, offI) == p <==>
        || -10 <= short <= 10
        || (short > 10 && p == Lowest(current))
        || (short < -10 && p == top)
  {
  }

  /** What is known of a low time q that started at p, with the period t, after these calls: it has not
      crossed `best` before the first resumption; each of these takes it at most 10 further away; and
      every charging call after the last one has brought it closer, or it is in band. Only a period
      longer than doload's lets the first resumption end above doload's range. */
  ghost predicate OnCourse(plant: Plant, p: int, t: int, q: int, current: int, best: int, n: Tally) {
    var bound := Abs(p - best) + 10 * n.resumed;
    && n.resumed + n.since <= n.charged
    && (n.charged == 0 ==> q == p) && (n.resumed == 0 ==> Between(p, q, best))
    && Lowest(current) <= q && (q > 512 ==> q <= p + 10 && t > 512 && n == Tally(1, 1, 0))
    && Abs(q - best) <= bound && Within(plant, q, current, best, bound + Slack(t) - n.since)
  }

  /** The setting, period, target and battery that a run starts from. */
  ghost predicate Regulable(plant: Plant, p: int, t: int, current: int, best: int) {
    && Lowest(current) <= p <= 512 && p <= t && Lowest(current) <= best <= 512
    && Gentle(plant, Lowest(current), 512) && InBand(plant, best, current)
  }

  /** A charging call on a reading of the curve. */
  lemma PoweredStaysOnCourse(plant: Plant, p: int, t: int, q: int, current: int, best: int, n: Tally)
    requires Regulable(plant, p, t, current, best) && OnCourse(plant, p, t, q, current, best, n)
    ensures var top := if n.charged == 0 then t else 512;
      OnCourse(plant, p, t, NextPwm(q, top, current, plant(q)), current, best, Counted(n, true, true))
  {
    if q <= 512 {
      StepIsTowards(plant, q, 512, current, best);
    }
  }

  /** A charging call on any other reading. */
  lemma ResumeStaysOnCourse(plant: Plant, p: int, t: int, q: int, current: int, best: int, n: Tally, offI: word)
    requires Regulable(plant, p, t, current, best) && OnCourse(plant, p, t, q, current, best, n)
    ensures var top := if n.charged == 0 then t else 512;
      OnCourse(plant, p, t, NextPwm(q, top, current, offI), current, best, Counted(n, true, false))
  {
  }

  /** Over every run of calls on line power, resting and charging in any order, from any period that
      holds the low time: the low time stays on its side of `best` up to the first call that resumes
      on a reading taken with the charger off. Such a call moves it by at most 10, and after k more
      charging calls it is in band, or within |p - best| + 10 times the resumptions - k of `best` (one
      more if the period found was shorter than doload's). */
  lemma {:induction false} DoloadStaysOnCourse(a: Plan, b: Board, calls: seq<Call>, plant: Plant, best: int)
    requires Live(b, plant) && Regulable(plant, b.pwmLo, b.pwmT, a.current, best)
    ensures var (a1, b1) := Loop(a, b, calls, plant);
      var n := Count(a, b, calls, plant);
      && Live(b1, plant) && a1.current == a.current
      && b1.pwmT == (if n.charged == 0 then b.pwmT else 512)
      && OnCourse(plant, b.pwmLo, b.pwmT, b1.pwmLo, a.current, best, n)
  {
    if calls != [] {
      var front, now := calls[..|calls| - 1], calls[|calls| - 1].now;
      DoloadStaysOnCourse(a, b, front, plant, best);
      var (a1, b1) := Loop(a, b, front, plant);
      var n := Count(a, b, front, plant);
      CallMovesPwm(a1, b1, now);
      CallKeepsTarget(a1, b1, now);
      if Powered(b1) {
        PoweredStaysOnCourse(plant, b.pwmLo, b.pwmT, b1.pwmLo, a.current, best, n);
      } else {
        ResumeStaysOnCourse(plant, b.pwmLo, b.pwmT, b1.pwmLo, a.current, best, n, b1.batI);
      }
    }
  }

  /** Whatever the reading, one call moves a low time that its clamps all but allow by at most 10. */
  lemma ServedMovesLittle(a: Plan, b: Board, call: Call, plant: Plant)
    requires !b.batRun && Lowest(a.current) <= b.pwmLo && Lowest(a.current) <= b.pwmT && b.pwmLo <= b.pwmT + 10
    ensures b.pwmLo - 10 <= Served(a, b, call, plant).1.pwmLo <= b.pwmLo + 10
  {
    CallMovesPwm(a, b, call.now);
  }

  lemma CourseIsInRange(a: Plan, b: Board, calls: seq<Call>, plant: Plant, best: int)
    requires Live(b, plant) && Regulable(plant, b.pwmLo, b.pwmT, a.current, best)
    ensures var (a1, b1) := Loop(a, b, calls, plant);
      && !b1.batRun && a1.current == a.current
      && Lowest(a.current) <= b1.pwmLo <= b1.pwmT + 10 && Lowest(a.current) <= b1.pwmT
  {
    DoloadStaysOnCourse(a, b, calls, plant, best);
  }

  /** On such a run every call moves the low time by at most 10, whatever it reads. */
  lemma EveryCallMovesLittle(a: Plan, b: Board, calls: seq<Call>, call: Call, plant: Plant, best: int)
    requires Live(b, plant) && Regulable(plant, b.pwmLo, b.pwmT, a.current, best)
    ensures var (a1, b1) := Loop(a, b, calls, plant);
      b1.pwmLo - 10 <= Served(a1, b1, call, plant).1.pwmLo <= b1.pwmLo + 10
  {
    CourseIsInRange(a, b, calls, plant, best);
    var (a1, b1) := Loop(a, b, calls, plant);
    ServedMovesLittle(a1, b1, call, plant);
  }

  /** From any board on line power, whatever low time, period and readings it starts with: the first
      charging call sets the period, from the second on the low time is in range, and every call that
      then charges on a reading of the curve takes it a step closer, so that it ends in band. */
  lemma {:induction false} DoloadReachesBand(a: Plan, b: Board, calls: seq<Call>, plant: Plant, best: int)
    requires !b.batRun && Lowest(a.current) <= best <= 512
    requires Gentle(plant, Lowest(a.current), 512) && InBand(plant, best, a.current)
    ensures var (a1, b1) := Loop(a, b, calls, plant);
      var n := Count(a, b, calls, plant);
      && a1.current == a.current && !b1.batRun && (calls != [] ==> Live(b1, plant)) && n.since <= n.charged
      && (n.charged >= 1 ==> b1.pwmT == 512)
      && (n.charged >= 2 ==> Lowest(a.current) <= b1.pwmLo <= 512)
      && (n.charged >= 2 ==>
          Within(plant, b1.pwmLo, a.current, best, 512 - Lowest(a.current) + 2 - n.since))
  {
    if calls != [] {
      var front, now := calls[..|calls| - 1], calls[|calls| - 1].now;
      DoloadReachesBand(a, b, front, plant, best);
      var (a1, b1) := Loop(a, b, front, plant);
      var n := Count(a, b, front, plant);
      CallMovesPwm(a1, b1, now);
      CallKeepsTarget(a1, b1, now);
      if n.charged >= 1 {
        StepStaysInRange(b1.pwmLo, 512, a.current, b1.batI);
      }
      if n.charged >= 2 && Powered(b1) {
        OneStepCloser(plant, b1.pwmLo, b1.pwmLo, 512, a.current, best,
                      512 - Lowest(a.current) + 2 - n.since);
      }
    }
  }

  /** The overshoot is real: in band at `best`, found stable and switched off for the rest of a day, the
      charger resumes on a reading of no current and goes ten steps past, or to the floor. */
  lemma ResumeOvershoots(b: Board, plant: Plant, best: int)
    requires Live(b, plant) && Powered(b) && b.pwmT == 512 && b.pwmLo == best
    requires 256 <= best <= 512 && InBand(plant, best, 400)
    ensures var a := Plan(400, 0, [1.0, 1.0], 0, 1000);
      var (a1, b1) := Loop(a, b, [Call(2000, 0, 29000), Call(1000 + 86400, 0, 29000)], plant);
      b1.pwmLo == if best - 10 < 256 then 256 else best - 10
  {
    var a := Plan(400, 0, [1.0, 1.0], 0, 1000);
    var first, second := Call(2000, 0, 29000), Call(1000 + 86400, 0, 29000);
    LoopTwice(a, b, first, second, plant);
    var (a1, b1) := Served(a, b, first, plant);
    assert !Powered(b1) && b1.pwmLo == best && b1.batI == 29000;
    assert Charges(a1, b1, second.now);
    CallMovesPwm(a1, b1, second.now);
    assert Shortfall(400, 29000) == 400;
  }

  lemma LoopTwice(a: Plan, b: Board, first: Call, second: Call, plant: Plant)
    ensures var (a1, b1) := Served(a, b, first, plant);
      Loop(a, b, [first, second], plant) == Served(a1, b1, second, plant)
  {
    assert [first, second][..1] == [first];
    assert Loop(a, b, [first], plant) == Served(a, b, first, plant);
  }
}
