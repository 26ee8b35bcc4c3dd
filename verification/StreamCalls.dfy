/** src/stream.c: successive calls of readStream on one line. */
module StreamCalls {
  import opened Bytes
  import opened Serial
  import opened Stream

  /** What successive calls return, until the line has nothing left; an error is an empty message. */
  function Messages(bs: seq<byte>, max: nat): (ms: seq<seq<byte>>)
    requires max > 0
    decreases |bs|
  {
    if bs == [] then []
    else
      var end := Read(FRESH, bs, max);
      UsedSome(bs, max);
      [end.msg[..Length(end)]] + Messages(bs[Used(FRESH, bs, max)..], max)
  }

  lemma {:induction false} UsedSome(bs: seq<byte>, max: nat)
    requires max > 0 && bs != []
    ensures Used(FRESH, bs, max) > 0
  {
    if |bs| > 1 {
      UsedSome(bs[..|bs| - 1], max);
    }
  }

  /** The frames of these messages, sealed, one after the other. */
  function SealedFrames(ms: seq<seq<byte>>): (bs: seq<byte>)
  {
    if ms == [] then [] else Frame(Seal(ms[0])) + SealedFrames(ms[1..])
  }

  /** What the calls should return for these messages when the current call stands at reader r: a
      decodable message ends the call; one that keeps the reader waiting leaves the call to the next
      message, or to the silence that makes it an error; any other is an error. */
  function Heard(r: Reader, ms: seq<seq<byte>>, max: nat): (hs: seq<seq<byte>>)
    decreases |ms|
  {
    if ms == [] then if r == FRESH then [] else [[]]
    else if Decodable(r, ms[0]) then [ms[0]] + Heard(FRESH, ms[1..], max)
    else if KeepsWaiting(r, ms[0]) then Heard(Read(r, Frame(Seal(ms[0])), max), ms[1..], max)
    else [[]] + Heard(FRESH, ms[1..], max)
  }

  /** Before a sealed frame's end byte the call is still running. */
  lemma RunsToTheEnd(r: Reader, m: seq<byte>, max: nat)
    requires !Halted(r, max) && |m| + 2 < max
    ensures !Halted(Read(r, [STX] + Stuff(Seal(m)), max), max)
  {
    var started := Reader(InMessage, [], r.lastEsc);
    ReadOne(r, STX, max);
    ReadConcat(r, [STX], Stuff(Seal(m)), max);
    if Clash(started, Seal(m)) {
      var end, i := ReadClashingBody(started, Seal(m), max);
      assert |end.msg| == |m| + 2;
    } else {
      var end := ReadSealedBody(r, m, max);
    }
  }

  /** A call that stops with byte b has used exactly the bytes up to it. */
  lemma CallStops(front: seq<byte>, b: byte, rest: seq<byte>, max: nat)
    requires !Halted(Read(FRESH, front, max), max) && Halted(Read(FRESH, front + [b], max), max)
    ensures Read(FRESH, front + [b] + rest, max) == Read(FRESH, front + [b], max)
    ensures Used(FRESH, front + [b] + rest, max) == |front| + 1
  {
    var bs := front + [b];
    ReadConcat(FRESH, bs, rest, max);
    HaltedStays(Read(FRESH, bs, max), rest, max);
    UsedStays(FRESH, bs, rest, max);
    assert bs[..|bs| - 1] == front;
  }

  /** A call that ends with a frame has used exactly the bytes up to its end. */
  lemma CallEnds(r: Reader, pre: seq<byte>, m: seq<byte>, rest: seq<byte>, max: nat)
    requires r == Read(FRESH, pre, max) && !Halted(r, max) && |m| + 2 < max
    requires Read(r, Frame(Seal(m)), max).phase.Ended?
    ensures Read(FRESH, pre + Frame(Seal(m)) + rest, max) == Read(r, Frame(Seal(m)), max)
    ensures Used(FRESH, pre + Frame(Seal(m)) + rest, max) == |pre + Frame(Seal(m))|
  {
    var body := [STX] + Stuff(Seal(m));
    Reassociate(pre, body, [ETX]);
    ReadConcat(FRESH, pre, Frame(Seal(m)), max);
    ReadConcat(FRESH, pre, body, max);
    RunsToTheEnd(r, m, max);
    CallStops(pre + body, ETX, rest, max);
  }

  /** A call that is still running when the line falls silent has used everything. */
  lemma CallWaits(pre: seq<byte>, max: nat)
    requires pre != [] && !Halted(Read(FRESH, pre, max), max)
    ensures Used(FRESH, pre, max) == |pre|
  {
  }

  /** Successive calls over any stream of sealed frames return exactly what is to be heard. */
  lemma {:induction false} CallsReturn(pre: seq<byte>, ms: seq<seq<byte>>, max: nat)
    requires max > 19 && forall m | m in ms :: |m| + 2 < max
    requires var r := Read(FRESH, pre, max);
      !Halted(r, max) && (pre == [] || (r.phase.InMessage? && Length(r) == 0))
    ensures Messages(pre + SealedFrames(ms), max) == Heard(Read(FRESH, pre, max), ms, max)
    decreases |ms|
  {
    var r := Read(FRESH, pre, max);
    if ms == [] {
      assert pre + [] == pre;
      if pre != [] {
        CallWaits(pre, max);
        assert pre[|pre|..] == [];
        assert Messages(pre, max) == [[]] + Messages([], max);
      }
    } else {
      var m, rest := ms[0], ms[1..];
      var f := Frame(Seal(m));
      assert m in ms && forall x | x in rest :: x in ms;
      Reassociate(pre, f, SealedFrames(rest));
      if !Decodable(r, m) && KeepsWaiting(r, m) {
        UndecodableFrame(r, m, max);
        ReadConcat(FRESH, pre, f, max);
        CallsReturn(pre + f, rest, max);
      } else {
        FrameEndsCall(r, m, max);
        CallEnds(r, pre, m, SealedFrames(rest), max);
        CallsReturn([], rest, max);
        NextCall(pre + f, SealedFrames(rest), max);
      }
    }
  }

  lemma FrameEndsCall(r: Reader, m: seq<byte>, max: nat)
    requires !Halted(r, max) && |m| + 2 < max && (Decodable(r, m) || !KeepsWaiting(r, m))
    ensures var end := Read(r, Frame(Seal(m)), max);
      end.phase.Ended? && end.msg[..Length(end)] == if Decodable(r, m) then m else []
  {
    if Decodable(r, m) {
      RoundTrip(r, m, [], max);
      assert Frame(Seal(m)) + [] == Frame(Seal(m));
    } else {
      UndecodableFrame(r, m, max);
    }
  }

  lemma NextCall(taken: seq<byte>, rest: seq<byte>, max: nat)
    requires max > 0 && taken != [] && Used(FRESH, taken + rest, max) == |taken|
    ensures var end := Read(FRESH, taken + rest, max);
      Messages(taken + rest, max) == [end.msg[..Length(end)]] + Messages([] + rest, max)
  {
    assert (taken + rest)[|taken|..] == [] + rest;
  }

  lemma {:induction false} AllHeard(ms: seq<seq<byte>>, max: nat)
    requires forall m | m in ms :: |m| != 17
    ensures Heard(FRESH, ms, max) == ms
    decreases |ms|
  {
    if ms != [] {
      assert ms[0] in ms && forall m | m in ms[1..] :: m in ms;
      AllHeard(ms[1..], max);
      assert ms == [ms[0]] + ms[1..];
    }
  }

  /** Successive calls over a stream of sealed frames return every message, in order, when none of
      them has 17 bytes. */
  lemma SuccessiveCallsReturnAll(ms: seq<seq<byte>>, max: nat)
    requires max > 19 && forall m | m in ms :: |m| + 2 < max && |m| != 17
    ensures Messages(SealedFrames(ms), max) == ms
  {
    assert [] + SealedFrames(ms) == SealedFrames(ms);
    CallsReturn([], ms, max);
    AllHeard(ms, max);
  }

  /** The messages that are not 17 bytes long, and an error at the end if the line falls silent while
      a call is running. */
  function Others(ms: seq<seq<byte>>, waiting: bool): (os: seq<seq<byte>>)
    decreases |ms|
  {
    if ms == [] then if waiting then [[]] else []
    else if |ms[0]| == 17 then Others(ms[1..], true)
    else [ms[0]] + Others(ms[1..], false)
  }

  /** The frame of a 17-byte message with nothing to escape leaves no stale position behind. */
  lemma PlainSeventeen(r: Reader, m: seq<byte>, max: nat)
    requires !Halted(r, max) && r.lastEsc == -1 && |m| == 17 && max > 19
    requires FirstEscape(Seal(m)) == 18
    ensures !Decodable(r, m) && KeepsWaiting(r, m)
    ensures var u := Read(r, Frame(Seal(m)), max); !Halted(u, max) && u.lastEsc == -1 && u != FRESH
  {
    UndecodableFrame(r, m, max);
    var mid := ReadFrame(r, Seal(m), max);
    var body := ReadBody(Reader(InMessage, [], -1), Seal(m), max);
  }

  lemma {:induction false} OthersHeard(r: Reader, ms: seq<seq<byte>>, max: nat)
    requires !Halted(r, max) && r.lastEsc == -1 && max > 19
    requires forall m | m in ms && |m| == 17 :: FirstEscape(Seal(m)) == 18
    ensures Heard(r, ms, max) == Others(ms, r != FRESH)
    decreases |ms|
  {
    if ms != [] {
      var m, rest := ms[0], ms[1..];
      assert m in ms && forall x | x in rest :: x in ms;
      if |m| == 17 {
        PlainSeventeen(r, m, max);
        OthersHeard(Read(r, Frame(Seal(m)), max), rest, max);
      } else {
        OthersHeard(FRESH, rest, max);
      }
    }
  }

  /** With 17-byte messages in the stream the others are still returned, in order, when sealing those
      leaves nothing to escape. */
  lemma OthersReturn(ms: seq<seq<byte>>, max: nat)
    requires max > 19 && forall m | m in ms :: |m| + 2 < max
    requires forall m | m in ms && |m| == 17 :: FirstEscape(Seal(m)) == 18
    ensures Messages(SealedFrames(ms), max) == Others(ms, false)
  {
    assert [] + SealedFrames(ms) == SealedFrames(ms);
    CallsReturn([], ms, max);
    OthersHeard(FRESH, ms, max);
  }

  /** One message of 17 bytes can cost the next one too: it leaves the call running with a stale
      escape position. */
  lemma SeventeenCanCostTheNext()
    ensures var s := [0x7E] + seq(16, _ => 0);
      Messages(SealedFrames([s, [0x7E]]), 56) == [[]]
  {
    var z: seq<byte> := seq(16, _ => 0);
    var s := [0x7E] + z;
    var ms := [s, [0x7E]];
    assert [] + SealedFrames(ms) == SealedFrames(ms);
    CallsReturn([], ms, 56);
    StaleAfterSeventeen(z, 56);
    assert FirstEscape(Seal([0x7E])) == 0 by {
      FirstEscapeIsFirst(Seal([0x7E]));
    }
    HeardAsOne(s, [0x7E], 56);
  }

  /** Two messages heard as one error. */
  lemma HeardAsOne(s: seq<byte>, t: seq<byte>, max: nat)
    requires !Decodable(FRESH, s) && KeepsWaiting(FRESH, s)
    requires var u := Read(FRESH, Frame(Seal(s)), max); !Decodable(u, t) && !KeepsWaiting(u, t)
    ensures Heard(FRESH, [s, t], max) == [[]]
  {
    var u, none := Read(FRESH, Frame(Seal(s)), max), [];
    assert [s, t][1..] == [t] && [t][1..] == none;
    assert Heard(FRESH, [s, t], max) == Heard(u, [t], max) == [[]] + Heard(FRESH, none, max);
  }

  lemma StaleAfterSeventeen(z: seq<byte>, max: nat)
    requires z == seq(16, _ => 0) && max > 19
    ensures Read(FRESH, Frame(Seal([0x7E] + z)), max).lastEsc == 1
  {
    var w := Seal([0x7E] + z);
    ZerosThenCrc(z);
    assert w == [0x7E] + w[1..];
    var mid := ReadFrame(FRESH, w, max);
    EscapedThenPlain(0x7E, w[1..], max);
  }

  /** An escaped byte in front leaves position 1 behind when nothing after it is escaped. */
  lemma EscapedThenPlain(b: byte, rest: seq<byte>, max: nat)
    requires MustEscape(b) && |rest| + 2 < max && FirstEscape(rest) == |rest|
    ensures Read(Reader(InMessage, [], -1), Stuff([b] + rest), max).lastEsc == 1
  {
    var started := Reader(InMessage, [], -1);
    var r1 := ReadByte(started, b, max);
    var r2 := ReadBody(r1, rest, max);
    ReadConcat(started, Code(b), Stuff(rest), max);
    StuffConcat([b], rest);
    StuffOne(b);
  }

  lemma StuffOne(b: byte)
    ensures Stuff([b]) == Code(b)
  {
    StuffSnoc([], b);
    assert [] + [b] == [b];
  }

  lemma ZerosThenCrc(z: seq<byte>)
    requires z == seq(16, _ => 0)
    ensures var rest := Seal([0x7E] + z)[1..];
      |rest| == 17 && FirstEscape(rest) == 17
  {
    SumConcat([0x7E], z);
    SumOne(0x7E);
    ZeroSum(z);
    var rest := Seal([0x7E] + z)[1..];
    assert rest == z + [0x81];
    FirstEscapeIsFirst(rest);
  }

  lemma {:induction false} ZeroSum(z: seq<byte>)
    requires forall j | 0 <= j < |z| :: z[j] == 0
    ensures Sum(z) == 0
  {
    if z != [] {
      ZeroSum(z[..|z| - 1]);
    }
  }
}
