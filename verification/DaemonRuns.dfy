/** avr/bat3.c: the charging daemon over many rounds, and what that gives the runs of the controller. */
module DaemonRuns {
  import opened Bytes
  import opened PacketFile
  import opened Avr
  import opened Charger
  import opened ChargeRuns
  import opened Daemon
  import ChargeControl

  /** What the outside adds to a round: a UDP command, if any, and the clock. */
  datatype Turn = Turn(cmd: Command, t: int)

  /** These inputs are the turns, one by one, with the replies that were read. */
  ghost predicate FollowTurns(xs: seq<Input>, turns: seq<Turn>) {
    |xs| <= |turns| && forall i | 0 <= i < |xs| :: xs[i].cmd == turns[i].cmd && xs[i].t == turns[i].t
  }

  /** The reply that ended round i reported the settings that the run holds after it. */
  ghost predicate ConfirmedRun(s: Charge, xs: seq<Input>, confirmed: seq<seq<byte>>, d: int) {
    |confirmed| <= |xs| && forall i | 0 <= i < |confirmed| :: Confirmed(confirmed[i], Run(s, xs[..i + 1], d))
  }

  /** The board keeps its low time from the reply that ends a round to the one that starts the next,
      and the first round starts from the low time the controller knows. */
  ghost predicate BoardKeeps(s: Charge, xs: seq<Input>, confirmed: seq<seq<byte>>) {
    && (xs != [] ==> xs[0].rep.pwmLo == s.pwmLo)
    && forall i | 0 < i < |xs| && i <= |confirmed| :: xs[i].rep.pwmLo == BoardReply(confirmed[i - 1]).pwmLo
  }

  lemma {:induction false} ConfirmedMore(s: Charge, xs: seq<Input>, x: Input, confirmed: seq<seq<byte>>, d: int)
    requires ConfirmedRun(s, xs, confirmed, d)
    ensures ConfirmedRun(s, xs + [x], confirmed, d)
  {
    forall i | 0 <= i < |confirmed|
      ensures Confirmed(confirmed[i], Run(s, (xs + [x])[..i + 1], d))
    {
      assert (xs + [x])[..i + 1] == xs[..i + 1];
    }
  }

  lemma {:induction false} ConfirmedLast(s: Charge, xs: seq<Input>, confirmed: seq<seq<byte>>, last: seq<byte>, d: int)
    requires ConfirmedRun(s, xs, confirmed, d) && |xs| == |confirmed| + 1
    requires Confirmed(last, Run(s, xs, d))
    ensures ConfirmedRun(s, xs, confirmed + [last], d)
  {
    assert xs[..|confirmed| + 1] == xs;
  }

  /** On a board that keeps its settings, the echo hypothesis of the controller's runs holds. */
  lemma {:induction false} KeptIsEchoed(s: Charge, xs: seq<Input>, confirmed: seq<seq<byte>>, k: nat, d: int)
    requires ConfirmedRun(s, xs, confirmed, d) && BoardKeeps(s, xs, confirmed)
    requires k <= |xs| <= |confirmed| + 1
    ensures Echoed(s, xs[..k], d)
  {
    if k > 0 {
      KeptIsEchoed(s, xs, confirmed, k - 1, d);
      assert xs[..k][..k - 1] == xs[..k - 1];
      if k == 1 {
        assert xs[..0] == [];
      } else {
        assert Confirmed(confirmed[k - 2], Run(s, xs[..k - 2 + 1], d));
      }
    }
  }

  /** The daemon inherits what runs of the controller guarantee: the range, and the end of every
      search. */
  lemma {:induction false} DaemonIsRegulated(s: Charge, xs: seq<Input>, confirmed: seq<seq<byte>>, d: int)
    requires Safe(s) && ConfirmedRun(s, xs, confirmed, d) && BoardKeeps(s, xs, confirmed)
    requires |xs| <= |confirmed| + 1
    ensures Echoed(s, xs, d)
    ensures xs != [] ==> InRange(Run(s, xs, d), s.lockMax)
    ensures NoResets(s, xs, d) && |xs| >= 1 + Clog2(s.lockMax) ==>
      exists n: nat :: n <= 1 + Clog2(s.lockMax) && LocksAt(s, xs, n, d)
  {
    KeptIsEchoed(s, xs, confirmed, |xs|, d);
    assert xs[..|xs|] == xs;
    if xs != [] {
      PwmStaysInRange(s, xs, d);
    }
    if NoResets(s, xs, d) && |xs| >= 1 + Clog2(s.lockMax) {
      SearchEnds(s, xs, d);
    }
  }

  /** The first round's command, taken before the run instead of in it. */
  function CommandTaken(xs: seq<Input>): (ys: seq<Input>)
    requires xs != []
  {
    [xs[0].(cmd := Quiet)] + xs[1..]
  }

  lemma {:induction false} CommandGoesFirst(s: Charge, xs: seq<Input>, d: int)
    requires xs != []
    ensures Run(s, xs, d) == Run(OnCommand(s, xs[0].cmd), CommandTaken(xs), d)
  {
    var v, ys := OnCommand(s, xs[0].cmd), CommandTaken(xs);
    var front := xs[..|xs| - 1];
    if front == [] {
      CommandActsFirst(s, xs[0], d);
      assert ys[..0] == [];
    } else {
      CommandGoesFirst(s, front, d);
      assert ys[..|ys| - 1] == CommandTaken(front);
    }
  }

  /** Line power, no command, and readings on the curve while the PWMs are on; what low time a reply
      reports is left open. */
  ghost predicate ReadsCurve(s: Charge, xs: seq<Input>, plant: ChargeControl.Plant, d: int) {
    xs != [] ==>
      var u, x := Run(s, xs[..|xs| - 1], d), xs[|xs| - 1];
      && ReadsCurve(s, xs[..|xs| - 1], plant, d)
      && x.cmd.Quiet? && !x.rep.batRun && (u.driving ==> x.rep.adc7 == plant(u.pwmLo))
  }

  lemma CommandIsSafe(s: Charge, cmd: Command)
    requires Safe(s)
    ensures var v := OnCommand(s, cmd); Safe(v) && v.lockMax == s.lockMax && v.pwmLo == s.pwmLo
  {
  }

  /** With the board's echo, such readings make a run on the curve. */
  lemma {:induction false} EchoedOnCurve(s: Charge, xs: seq<Input>, plant: ChargeControl.Plant, d: int)
    requires xs != [] && Safe(s) && Echoed(s, xs, d)
    requires ReadsCurve(OnCommand(s, xs[0].cmd), CommandTaken(xs), plant, d)
    ensures ChargeControl.PlantRun(OnCommand(s, xs[0].cmd), CommandTaken(xs), plant, d)
  {
    var front, ys := xs[..|xs| - 1], CommandTaken(xs);
    if front == [] {
      CommandIsSafe(s, xs[0].cmd);
      assert ys[..|ys| - 1] == [];
    } else {
      assert ys[..|ys| - 1] == CommandTaken(front);
      EchoedOnCurve(s, front, plant, d);
      CommandGoesFirst(s, front, d);
    }
  }

  /** What it takes for the daemon to reach its target: a search started afresh, by a start or by the
      command of the first round, for a current that a falling curve crosses; readings on that curve;
      an on-time and rounds enough for the search. */
  ghost predicate Reachable(s: Charge, xs: seq<Input>, plant: ChargeControl.Plant, d: int) {
    && xs != [] && |xs| >= 1 + Clog2(s.lockMax)
    && var v, ys := OnCommand(s, xs[0].cmd), CommandTaken(xs);
       && ChargeControl.Fresh(v) && v.targetI > 0 && ChargeControl.Crosses(plant, s.lockMax, v.targetI)
       && ReadsCurve(v, ys, plant, d) && ChargeControl.StaysOn(v, ys, d)
  }

  lemma EchoedReachesTarget(s: Charge, xs: seq<Input>, plant: ChargeControl.Plant, d: int)
    requires Safe(s) && Echoed(s, xs, d) && Reachable(s, xs, plant, d)
    ensures ChargeControl.Reached(Run(s, xs, d), plant, s.lockMax, OnCommand(s, xs[0].cmd).targetI)
  {
    CommandIsSafe(s, xs[0].cmd);
    CommandGoesFirst(s, xs, d);
    EchoedOnCurve(s, xs, plant, d);
    ChargeControl.FreshTargetIsReached(OnCommand(s, xs[0].cmd), CommandTaken(xs), plant, d);
  }

  /** The daemon ends locked in band, on the last setting whose current is above the target. */
  lemma {:induction false} DaemonReachesTarget(s: Charge, xs: seq<Input>, confirmed: seq<seq<byte>>,
                                               plant: ChargeControl.Plant, d: int)
    requires Safe(s) && ConfirmedRun(s, xs, confirmed, d) && BoardKeeps(s, xs, confirmed)
    requires |xs| <= |confirmed| + 1 && Reachable(s, xs, plant, d)
    ensures ChargeControl.Reached(Run(s, xs, d), plant, s.lockMax, OnCommand(s, xs[0].cmd).targetI)
  {
    KeptIsEchoed(s, xs, confirmed, |xs|, d);
    assert xs[..|xs|] == xs;
    EchoedReachesTarget(s, xs, plant, d);
  }

  /** Which rounds asked for a shutdown. */
  ghost predicate Shutdowns(s: Charge, xs: seq<Input>, shutdowns: seq<bool>, d: int) {
    |shutdowns| == |xs| && forall i | 0 <= i < |xs| :: shutdowns[i] == ShutsDown(Run(s, xs[..i], d), xs[i], d)
  }

  lemma {:induction false} ShutdownsMore(s: Charge, xs: seq<Input>, shutdowns: seq<bool>, x: Input, b: bool, d: int)
    requires Shutdowns(s, xs, shutdowns, d) && b == ShutsDown(Run(s, xs, d), x, d)
    ensures Shutdowns(s, xs + [x], shutdowns + [b], d)
  {
    var ys := xs + [x];
    assert ys[..|xs|] == xs;
    forall i | 0 <= i < |ys|
      ensures (shutdowns + [b])[i] == ShutsDown(Run(s, ys[..i], d), ys[i], d)
    {
      if i < |xs| {
        assert ys[..i] == xs[..i];
      }
    }
  }

  /** Everything the rounds xs taken so far have shown; one more of them may be under way. */
  ghost predicate Logged(s: Charge, turns: seq<Turn>, xs: seq<Input>, confirmed: seq<seq<byte>>,
                         shutdowns: seq<bool>, d: int) {
    && FollowTurns(xs, turns) && |confirmed| <= |xs| <= |confirmed| + 1
    && ConfirmedRun(s, xs, confirmed, d) && Shutdowns(s, xs, shutdowns, d)
  }

  lemma AskedIsLogged(s: Charge, turns: seq<Turn>, xs: seq<Input>, confirmed: seq<seq<byte>>,
                      shutdowns: seq<bool>, x: Input, b: bool, d: int)
    requires Logged(s, turns, xs, confirmed, shutdowns, d) && |xs| == |confirmed| < |turns|
    requires x.cmd == turns[|xs|].cmd && x.t == turns[|xs|].t && b == ShutsDown(Run(s, xs, d), x, d)
    ensures Logged(s, turns, xs + [x], confirmed, shutdowns + [b], d)
    ensures Run(s, xs + [x], d) == Round(Run(s, xs, d), x, d)
  {
    assert (xs + [x])[..|xs|] == xs;
    ShutdownsMore(s, xs, shutdowns, x, b, d);
    ConfirmedMore(s, xs, x, confirmed, d);
  }

  lemma EchoIsLogged(s: Charge, turns: seq<Turn>, xs: seq<Input>, confirmed: seq<seq<byte>>,
                     shutdowns: seq<bool>, last: seq<byte>, d: int)
    requires Logged(s, turns, xs, confirmed, shutdowns, d) && |xs| == |confirmed| + 1
    requires Confirmed(last, Run(s, xs, d))
    ensures Logged(s, turns, xs, confirmed + [last], shutdowns, d)
  {
    ConfirmedLast(s, xs, confirmed, last, d);
  }

  /** The program has exited in a request: the last replies read settle it, and none was accepted. */
  ghost predicate GivesUp(req: seq<byte>, read: seq<seq<byte>>, rest: seq<byte>) {
    exists k: nat, outcome: Outcome, sent: nat :: k <= |read| && !outcome.Accepted?
      && Settled(outcome, EchoCallback, req, read[k..], sent) && (outcome.NoReply? ==> Replies(rest) == [])
  }

  lemma LastRequestGivesUp(read: seq<seq<byte>>, first: seq<byte>, replies: seq<seq<byte>>, outcome: Outcome,
                           req: seq<byte>, sent: nat, rest: seq<byte>)
    requires Settled(outcome, EchoCallback, req, replies, sent) && !outcome.Accepted?
    requires outcome.NoReply? ==> Replies(rest) == []
    ensures GivesUp(req, read + ([first] + replies), rest)
  {
    var all, k := read + ([first] + replies), |read| + 1;
    assert all[k..] == replies;
  }

  /** Why the program has exited: the board is silent, or the request of the last round got no echo. */
  ghost predicate Exits(xs: seq<Input>, confirmed: seq<seq<byte>>, req: seq<byte>, read: seq<seq<byte>>,
                        rest: seq<byte>) {
    if |xs| == |confirmed| then Replies(rest) == [] else GivesUp(req, read, rest)
  }

  /** BAT3BatteryCharge for as many rounds as there are turns, or until the program exits because a
      request was not accepted or the board fell silent. `xs` are the rounds taken, `confirmed` the
      replies that ended them, and `read` every reply buffer in order; `plant` is any battery's curve. */
  method ChargeOnPort(port: Port, loop: ChargeLoop, req: array<byte>, rep: array<byte>, turns: seq<Turn>,
                      ghost plant: ChargeControl.Plant)
    returns (done: bool, shutdowns: seq<bool>, ghost xs: seq<Input>,
             ghost confirmed: seq<seq<byte>>, ghost read: seq<seq<byte>>)
    requires req != rep && req.Length >= REQ_SIZE && rep.Length >= REP_SIZE
    requires Fits(port.input, Min(rep.Length, LONGEST))
    requires loop.Valid() && Widths(loop.State())
    modifies port, loop, req, rep
    ensures loop.Valid() && Widths(loop.State()) && Fits(port.input, Min(rep.Length, LONGEST))
    ensures Received(old(port.input), read, port.input)
    ensures Logged(old(loop.State()), turns, xs, confirmed, shutdowns, loop.shutdelay)
    ensures done <==> |confirmed| == |turns|
    ensures done ==> loop.State() == Run(old(loop.State()), xs, loop.shutdelay)
    ensures !done ==> Exits(xs, confirmed, req[..REQ_SIZE], read, port.input)
    ensures Safe(old(loop.State())) && BoardKeeps(old(loop.State()), xs, confirmed) ==>
      && Echoed(old(loop.State()), xs, loop.shutdelay)
      && (done && turns != [] ==> InRange(loop.State(), old(loop.State()).lockMax))
      && (NoResets(old(loop.State()), xs, loop.shutdelay) && |xs| >= 1 + Clog2(old(loop.lockMax)) ==>
          exists n: nat :: n <= 1 + Clog2(old(loop.lockMax)) && LocksAt(old(loop.State()), xs, n, loop.shutdelay))
      && (done && Reachable(old(loop.State()), xs, plant, loop.shutdelay) ==>
          ChargeControl.Reached(loop.State(), plant, old(loop.lockMax),
                                OnCommand(old(loop.State()), turns[0].cmd).targetI))
  {
    ghost var s, d := loop.State(), loop.shutdelay;
    done, shutdowns, xs, confirmed, read := true, [], [], [], [];
    var i := 0;
    while i < |turns| && done
      invariant i <= |turns| && loop.Valid() && Widths(loop.State())
      invariant Fits(port.input, Min(rep.Length, LONGEST)) && Received(old(port.input), read, port.input)
      invariant Logged(s, turns, xs, confirmed, shutdowns, d)
      invariant if done then |xs| == |confirmed| == i && loop.State() == Run(s, xs, d)
                else |confirmed| < |turns| && Exits(xs, confirmed, req[..REQ_SIZE], read, port.input)
    {
      done, shutdowns, xs, confirmed, read :=
        TakeTurn(port, loop, req, rep, turns, i, shutdowns, s, old(port.input), xs, confirmed, read);
      i := i + 1;
    }
    if Safe(s) && BoardKeeps(s, xs, confirmed) {
      DaemonIsRegulated(s, xs, confirmed, d);
      if Reachable(s, xs, plant, d) {
        DaemonReachesTarget(s, xs, confirmed, plant, d);
      }
    }
  }

  /** One turn of the loop above. */
  method TakeTurn(port: Port, loop: ChargeLoop, req: array<byte>, rep: array<byte>, turns: seq<Turn>, i: nat,
                  shutdowns: seq<bool>, ghost s: Charge, ghost line: seq<byte>, ghost xs: seq<Input>,
                  ghost confirmed: seq<seq<byte>>, ghost read: seq<seq<byte>>)
    returns (done: bool, shutdowns': seq<bool>, ghost xs': seq<Input>,
             ghost confirmed': seq<seq<byte>>, ghost read': seq<seq<byte>>)
    requires req != rep && req.Length >= REQ_SIZE && rep.Length >= REP_SIZE
    requires loop.Valid() && Widths(loop.State())
    requires Fits(port.input, Min(rep.Length, LONGEST)) && Received(line, read, port.input)
    requires Logged(s, turns, xs, confirmed, shutdowns, loop.shutdelay)
    requires |xs| == |confirmed| == i < |turns| && loop.State() == Run(s, xs, loop.shutdelay)
    modifies port, loop, req, rep
    ensures loop.Valid() && Widths(loop.State())
    ensures Fits(port.input, Min(rep.Length, LONGEST)) && Received(line, read', port.input)
    ensures Logged(s, turns, xs', confirmed', shutdowns', loop.shutdelay)
    ensures if done then |xs'| == |confirmed'| == i + 1 && loop.State() == Run(s, xs', loop.shutdelay)
            else |confirmed'| == i && Exits(xs', confirmed', req[..REQ_SIZE], read', port.input)
  {
    ghost var d, mid := loop.shutdelay, port.input;
    shutdowns', xs', confirmed', read' := shutdowns, xs, confirmed, read;
    var end, shutdown;
    ghost var first, replies, sent;
    end, shutdown, first, replies, sent := RoundOnPort(port, loop, req, rep, turns[i].cmd, turns[i].t);
    if end.Silent? {
      SilentReceived(line, read, mid, port.input);
      return false, shutdowns', xs', confirmed', read';
    }
    ghost var x := Input(turns[i].cmd, end.reply, turns[i].t);
    ReceivedConcat(line, read, mid, [first] + replies, port.input);
    AskedIsLogged(s, turns, xs, confirmed, shutdowns, x, shutdown, d);
    shutdowns', xs', read' := shutdowns + [shutdown], xs + [x], read + ([first] + replies);
    done := end.outcome.Accepted?;
    if !done {
      LastRequestGivesUp(read, first, replies, end.outcome, req[..REQ_SIZE], sent, port.input);
    } else {
      EchoIsLogged(s, turns, xs', confirmed, shutdowns', rep[..], d);
      confirmed' := confirmed + [rep[..]];
    }
  }

  lemma SilentReceived(line: seq<byte>, read: seq<seq<byte>>, mid: seq<byte>, after: seq<byte>)
    requires Received(line, read, mid) && Replies(mid) == [] == Replies(after)
    ensures Received(line, read, after)
  {
  }
}
