/** avr/avr.c: the bounded-retry request protocol, with the echo test of avr/bat3.c. */
module Avr {
  import opened Bytes
  import opened Serial
  import opened PacketFile

  const RETRIES: nat := 5
  const REPLIES_TILL_RETRY: nat := 2

  /** How a request ends. The C code exits the process in the two failing cases. */
  datatype Outcome = Accepted | Rejected | NoReply

  /** What is on the wire after n more copies of a frame. */
  function Written(wire: seq<byte>, n: nat, frame: seq<byte>): (bs: seq<byte>)
    ensures |bs| == |wire| + n * |frame|
  {
    if n == 0 then wire else Written(wire, n - 1, frame) + frame
  }

  // ----- the request and reply structures laid over their bytes -----

  function Byte(bs: seq<byte>, i: nat): (b: byte)
  {
    if i < |bs| then bs[i] else 0
  }

  /** A little-endian 16-bit field. */
  function Word(bs: seq<byte>, i: nat): (w: word)
  {
    Byte(bs, i) + 0x100 * Byte(bs, i + 1)
  }

  /** Two output words agree on each of their low n one-bit fields. */
  predicate SameBits(w: nat, v: nat, n: nat) {
    n > 0 ==> w % 2 == v % 2 && SameBits(w / 2, v / 2, n - 1)
  }

  // Byte offsets in the packed structures.
  const REQ_OUTPUTS: nat := 4
  const REQ_PWM_LO: nat := 6
  const REQ_PWM_T: nat := 8
  const REP_PWM_LO: nat := 8
  const REP_PWM_T: nat := 10
  const REP_OUTPUTS: nat := 14

  /** The six output bits compared: PWM1en, PWM2en, _offsetEn, opampEn, _buckEn and _led. */
  predicate EchoCallback(req: seq<byte>, rep: seq<byte>) {
    var q, p := Word(req, REQ_OUTPUTS), Word(rep, REP_OUTPUTS);
    && SameBits(q, p, 6)
    && Word(req, REQ_PWM_LO) == Word(rep, REP_PWM_LO)
    && Word(req, REQ_PWM_T) == Word(rep, REP_PWM_T)
  }

  /** The callback accepts a reply exactly when its low six output bits and both 16-bit PWM times
      are, byte for byte, those of the request. */
  lemma EchoIsBytewise(req: seq<byte>, rep: seq<byte>)
    ensures EchoCallback(req, rep) <==>
      && Byte(req, 4) % 64 == Byte(rep, 14) % 64
      && Byte(req, 6) == Byte(rep, 8) && Byte(req, 7) == Byte(rep, 9)
      && Byte(req, 8) == Byte(rep, 10) && Byte(req, 9) == Byte(rep, 11)
  {
    LowSixBits(Word(req, 4), Word(rep, 14), Byte(req, 4), Byte(req, 5), Byte(rep, 14), Byte(rep, 15));
    WordsEqual(Byte(req, 6), Byte(req, 7), Byte(rep, 8), Byte(rep, 9));
    WordsEqual(Byte(req, 8), Byte(req, 9), Byte(rep, 10), Byte(rep, 11));
  }

  lemma WordsEqual(a: byte, b: byte, c: byte, d: byte)
    ensures a + 0x100 * b == c + 0x100 * d <==> a == c && b == d
  {
  }

  /** The low six bits of two words agree exactly when their low bytes agree modulo 64. */
  lemma LowSixBits(w: nat, v: nat, a: byte, b: byte, c: byte, d: byte)
    requires w == a + 0x100 * b && v == c + 0x100 * d
    ensures SameBits(w, v, 6) <==> a % 64 == c % 64
  {
    SameBitsMod(w, v, 6);
    Pow2OfSix();
    HighByteDrops(a, b);
    HighByteDrops(c, d);
  }

  lemma Pow2OfSix()
    ensures Pow2(6) == 64
  {
    assert Pow2(6) == 4 * Pow2(4) && Pow2(4) == 4 * Pow2(2) && Pow2(2) == 4;
  }

  lemma HighByteDrops(a: byte, b: byte)
    ensures (a + 0x100 * b) % 64 == a % 64
  {
    var q, r := a / 64, a % 64;
    assert a + 0x100 * b == (q + 4 * b) * 64 + r;
  }

  lemma {:induction false} SameBitsMod(w: nat, v: nat, n: nat)
    ensures SameBits(w, v, n) <==> w % Pow2(n) == v % Pow2(n)
  {
    if n > 0 {
      SameBitsMod(w / 2, v / 2, n - 1);
      HalveMod(w, Pow2(n - 1));
      HalveMod(v, Pow2(n - 1));
    }
  }

  function Pow2(n: nat): (r: nat)
    ensures r > 0
  {
    if n == 0 then 1 else 2 * Pow2(n - 1)
  }

  lemma {:induction false} HalveMod(w: nat, m: nat)
    requires m > 0
    ensures w % (2 * m) == 2 * (w / 2 % m) + w % 2
  {
    var q, r := w / 2 / m, w / 2 % m;
    assert w / 2 == q * m + r;
    assert w == q * (2 * m) + (2 * r + w % 2);
    ModOf(q, 2 * m, 2 * r + w % 2);
  }

  // ----- what a request reads -----

  /** Reading on from `before` to `after` gave the intact packets at the front of these buffers. */
  ghost predicate Received(before: seq<byte>, buffers: seq<seq<byte>>, after: seq<byte>) {
    var all := Replies(before);
    && |buffers| <= |all|
    && (forall i | 0 <= i < |buffers| :: all[i] <= buffers[i])
    && all[|buffers|..] == Replies(after)
  }

  lemma ReceivedSnoc(before: seq<byte>, buffers: seq<seq<byte>>, mid: seq<byte>,
                     buffer: seq<byte>, packet: seq<byte>, after: seq<byte>)
    requires Received(before, buffers, mid)
    requires Replies(mid) == [packet] + Replies(after) && packet <= buffer
    ensures Received(before, buffers + [buffer], after)
  {
    var all := Replies(before);
    assert all[|buffers|] == all[|buffers|..][0] == packet;
    assert all[|buffers| + 1..] == all[|buffers|..][1..];
  }

  lemma ReceivedCons(before: seq<byte>, buffer: seq<byte>, packet: seq<byte>, mid: seq<byte>,
                     buffers: seq<seq<byte>>, after: seq<byte>)
    requires Replies(before) == [packet] + Replies(mid) && packet <= buffer
    requires Received(mid, buffers, after)
    ensures Received(before, [buffer] + buffers, after)
  {
    var all, rest := Replies(before), Replies(mid);
    assert forall i | 0 < i <= |buffers| :: all[i] == rest[i - 1];
    assert all[1 + |buffers|..] == rest[|buffers|..];
  }

  lemma ReceivedConcat(before: seq<byte>, xs: seq<seq<byte>>, mid: seq<byte>, ys: seq<seq<byte>>, after: seq<byte>)
    requires Received(before, xs, mid) && Received(mid, ys, after)
    ensures Received(before, xs + ys, after)
  {
    var all, rest := Replies(before), Replies(mid);
    assert forall j | 0 <= j < |ys| :: all[|xs| + j] == all[|xs|..][j] == rest[j];
    forall i | 0 <= i < |xs + ys|
      ensures all[i] <= (xs + ys)[i]
    {
      if i >= |xs| {
        assert all[|xs| + (i - |xs|)] == rest[i - |xs|];
      }
    }
    assert all[|xs| + |ys|..] == all[|xs|..][|ys|..];
  }

  ghost predicate NoneAccepted(accept: (seq<byte>, seq<byte>) -> bool, req: seq<byte>, buffers: seq<seq<byte>>) {
    forall i | 0 <= i < |buffers| :: !accept(req, buffers[i])
  }

  /** How the request ended, by the replies it read: it is accepted at the first acceptable one
      among the first five and at no other, and it was sent once, and once more after every second
      refusal. */
  ghost predicate Settled(outcome: Outcome, accept: (seq<byte>, seq<byte>) -> bool, req: seq<byte>,
                          buffers: seq<seq<byte>>, sent: nat) {
    var k := |buffers|;
    match outcome
    case Accepted =>
      && 1 <= k <= 5 && sent == 1 + (k - 1) / 2
      && accept(req, buffers[k - 1]) && NoneAccepted(accept, req, buffers[..k - 1])
    case Rejected => k == 5 && sent == 3 && NoneAccepted(accept, req, buffers)
    case NoReply => k < 5 && sent == 1 + k / 2 && NoneAccepted(accept, req, buffers)
  }

  lemma SentSoFar(refused: nat, till: int, sent: nat)
    requires refused + till == 2 * sent && 1 <= till <= 2
    ensures sent == 1 + refused / 2
  {
  }

  // ----- the serial port -----

  class Port {
    var input: seq<byte>    // bytes the board has sent and nobody has read; then silence
    var output: seq<byte>   // bytes written to the board

    method FramedSend(src: array<byte>, len: nat)
      requires len <= src.Length
      modifies this`output
      ensures output == old(output) + Frame(src[..len])
    {
      var overhead := SerialFrameOverhead(src, len);
      var buffer := new byte[len + overhead];
      SerialFrame(src, len, buffer);
      assert buffer[..buffer.Length] == buffer[..];
      output := output + buffer[..];
    }

    /** One call of filePacketGet on this port. */
    method Poll(arr: array<byte>) returns (len: nat)
      requires Fits(input, Min(arr.Length, LONGEST))
      modifies this`input, arr
      ensures len <= arr.Length && Fits(input, Min(arr.Length, LONGEST))
      ensures len == 0 ==> Replies(old(input)) == [] == Replies(input)
      ensures len > 0 ==> Replies(old(input)) == [arr[..len]] + Replies(input)
    {
      var used;
      ghost var was := input;
      len, used := FilePacketGet(input, arr);
      input := input[used..];
      assert was == was[..used] + input;
      if len > 0 {
        RepliesSplit(was[..used], input);
        FitsRest(was, Min(arr.Length, LONGEST), used);
      } else {
        assert input == [];
      }
    }

    /** Writes the checksum into the request's last byte. */
    static method SealRequest(req: array<byte>, len: nat)
      requires 1 <= len <= req.Length
      modifies req
      ensures req[..len] == Seal(old(req[..len - 1]))
      ensures req[len..] == old(req[len..])
    {
      ghost var m := req[..len - 1];
      req[len - 1] := 0;
      assert req[..len] == m + [0];
      SumSnoc(m, 0);
      var sum: int := Checksum(req, len);
      req[len - 1] := (0xFF - sum) % 0x100;
    }

    /** Reads one reply and shows it to the callback. */
    method Ask(req: array<byte>, len: nat, ret: array<byte>, accept: (seq<byte>, seq<byte>) -> bool,
               ghost start: seq<byte>, ghost before: seq<seq<byte>>)
      returns (outcome: Outcome, ghost replies: seq<seq<byte>>)
      requires len <= req.Length && req != ret
      requires Fits(input, Min(ret.Length, LONGEST)) && Received(start, before, input)
      modifies this`input, ret
      ensures Fits(input, Min(ret.Length, LONGEST)) && Received(start, replies, input)
      ensures outcome.NoReply? ==> replies == before && Replies(input) == []
      ensures !outcome.NoReply? ==> replies == before + [ret[..]]
      ensures outcome.Accepted? ==> accept(req[..len], ret[..])
      ensures outcome.Rejected? ==> !accept(req[..len], ret[..])
    {
      ghost var mid := input;
      var n := Poll(ret);
      if n == 0 {
        return NoReply, before;
      }
      replies := before + [ret[..]];
      ReceivedSnoc(start, before, mid, ret[..], ret[..n], input);
      outcome := if accept(req[..len], ret[..]) then Accepted else Rejected;
    }

    /** The state of a request that has not been accepted yet: what was read since `start` and
        written since `wire`, with `till` refusals to go before it is sent again. */
    ghost predicate Waiting(start: seq<byte>, wire: seq<byte>, accept: (seq<byte>, seq<byte>) -> bool,
                            req: seq<byte>, replies: seq<seq<byte>>, sent: nat, till: int)
      reads this
    {
      && Received(start, replies, input)
      && NoneAccepted(accept, req, replies)
      && output == Written(wire, sent, Frame(req))
      && |replies| + till == 2 * sent && 1 <= till <= 2
    }

    /** Counts a refused reply, and sends the request again when it is the second one. */
    method CountRefusal(req: array<byte>, len: nat, repliesTillRetry: int, ghost wire: seq<byte>, ghost sent: nat)
      returns (till: int, ghost sentNow: nat)
      requires len <= req.Length && 1 <= repliesTillRetry <= 2
      requires output == Written(wire, sent, Frame(req[..len]))
      modifies this`output
      ensures output == Written(wire, sentNow, Frame(req[..len]))
      ensures 1 <= till <= 2 && 2 * sentNow - till == 2 * sent - repliesTillRetry + 1
    {
      till, sentNow := repliesTillRetry - 1, sent;
      if till == 0 {
        FramedSend(req, len);
        till, sentNow := REPLIES_TILL_RETRY, sent + 1;
      }
    }

    /** Sends a sealed request and reads replies until one is accepted. `replies` lists the reply
        buffer as the callback saw it, reply by reply; `sent` counts the frames written. */
    method SendUntilAccepted(req: array<byte>, len: nat, ret: array<byte>,
                             accept: (seq<byte>, seq<byte>) -> bool)
      returns (outcome: Outcome, ghost replies: seq<seq<byte>>, ghost sent: nat)
      requires len <= req.Length && req != ret
      requires Fits(input, Min(ret.Length, LONGEST))
      modifies this, ret
      ensures Fits(input, Min(ret.Length, LONGEST)) && Received(old(input), replies, input)
      ensures Settled(outcome, accept, req[..len], replies, sent)
      ensures outcome.Accepted? ==> ret[..] == replies[|replies| - 1]
      ensures outcome.NoReply? ==> Replies(input) == []
      ensures output == Written(old(output), sent, Frame(req[..len]))
    {
      var retries := RETRIES;
      var repliesTillRetry: int := REPLIES_TILL_RETRY;
      ghost var start, wire := input, output;
      FramedSend(req, len);
      replies, sent := [], 1;
      assert output == Written(wire, 0, Frame(req[..len])) + Frame(req[..len]);
      while retries > 0
        invariant retries == RETRIES - |replies|
        invariant Fits(input, Min(ret.Length, LONGEST))
        invariant Waiting(start, wire, accept, req[..len], replies, sent, repliesTillRetry)
        modifies this, ret
      {
        SentSoFar(|replies|, repliesTillRetry, sent);
        retries := retries - 1;
        ghost var before := replies;
        outcome, replies := Ask(req, len, ret, accept, start, before);
        if !outcome.Rejected? {
          assert outcome.Accepted? ==> replies[..|replies| - 1] == before;
          return;
        }
        repliesTillRetry, sent := CountRefusal(req, len, repliesTillRetry, wire, sent);
      }
      SentSoFar(|replies|, repliesTillRetry, sent);
      outcome := Rejected;
    }

    /** Writes the checksum into the request's last byte, then sends it until it is accepted. */
    method SendRequest(req: array<byte>, len: nat, ret: array<byte>,
                       accept: (seq<byte>, seq<byte>) -> bool)
      returns (outcome: Outcome, ghost replies: seq<seq<byte>>, ghost sent: nat)
      requires 1 <= len <= req.Length && req != ret
      requires Fits(input, Min(ret.Length, LONGEST))
      modifies this, req, ret
      ensures req[..len] == Seal(old(req[..len - 1])) && req[len..] == old(req[len..])
      ensures Fits(input, Min(ret.Length, LONGEST)) && Received(old(input), replies, input)
      ensures Settled(outcome, accept, req[..len], replies, sent)
      ensures outcome.Accepted? ==> ret[..] == replies[|replies| - 1]
      ensures outcome.NoReply? ==> Replies(input) == []
      ensures output == Written(old(output), sent, Frame(req[..len]))
    {
      SealRequest(req, len);
      outcome, replies, sent := SendUntilAccepted(req, len, ret, accept);
    }

    /** A request with the echo callback: a successful return leaves a reply that repeats what was
        asked, PWM low time and period included. */
    method SendAndAwaitEcho(req: array<byte>, len: nat, ret: array<byte>)
      returns (outcome: Outcome, ghost replies: seq<seq<byte>>, ghost sent: nat)
      requires 13 <= len <= req.Length && req != ret
      requires Fits(input, Min(ret.Length, LONGEST))
      modifies this, req, ret
      ensures req[..len] == Seal(old(req[..len - 1])) && Intact(req[..len])
      ensures Fits(input, Min(ret.Length, LONGEST)) && Received(old(input), replies, input)
      ensures Settled(outcome, EchoCallback, req[..len], replies, sent)
      ensures outcome.Accepted? ==> ret[..] == replies[|replies| - 1] && EchoCallback(req[..len], ret[..])
      ensures outcome.NoReply? ==> Replies(input) == []
      ensures output == Written(old(output), sent, Frame(req[..len]))
    {
      outcome, replies, sent := SendRequest(req, len, ret, EchoCallback);
      IntactIsSealed(req[..len]);
    }
  }

  /** Ask over a line that carries whole frames: the replies are the intact payloads. */
  lemma {:induction false} RepliesOverFrames(ps: seq<seq<byte>>, room: nat)
    requires forall p | p in ps :: Intact(p) && |p| <= Min(room, LONGEST)
    ensures Replies(Frames(ps)) == ps
    ensures Fits(Frames(ps), Min(room, LONGEST))
  {
    RepliesOfFrames(ps);
    FramesFit(ps, Min(room, LONGEST));
    AllPass(ps);
  }

  lemma {:induction false} AllPass(ps: seq<seq<byte>>)
    requires forall p | p in ps :: Intact(p)
    ensures Passing(ps) == ps
  {
    if ps != [] {
      var front, p := ps[..|ps| - 1], ps[|ps| - 1];
      assert p in ps;
      forall q | q in front
        ensures Intact(q)
      {
        assert q in ps;
      }
      AllPass(front);
      assert ps == front + [p];
    }
  }

  // ----- the outcome, by the packets on the line -----

  /** The callback, which is shown the whole buffer, goes by the packet at its front. */
  ghost predicate GoesByPacket(accept: (seq<byte>, seq<byte>) -> bool, req: seq<byte>, ps: seq<seq<byte>>) {
    forall p, buffer | p in ps && p <= buffer :: accept(req, buffer) == accept(req, p)
  }

  /** Number i of these packets is acceptable. */
  predicate AcceptedAt(accept: (seq<byte>, seq<byte>) -> bool, req: seq<byte>, ps: seq<seq<byte>>, i: nat) {
    i < |ps| && accept(req, ps[i])
  }

  lemma ReadAsPackets(line: seq<byte>, buffers: seq<seq<byte>>, rest: seq<byte>,
                      accept: (seq<byte>, seq<byte>) -> bool, req: seq<byte>)
    requires Received(line, buffers, rest) && GoesByPacket(accept, req, Replies(line))
    ensures |buffers| <= |Replies(line)| && (Replies(rest) == [] ==> |buffers| == |Replies(line)|)
    ensures forall i: nat | i < |buffers| :: accept(req, buffers[i]) == AcceptedAt(accept, req, Replies(line), i)
  {
    forall i: nat | i < |buffers|
      ensures accept(req, buffers[i]) == AcceptedAt(accept, req, Replies(line), i)
    {
      assert Replies(line)[i] in Replies(line);
    }
  }

  /** The outcome of a request is exact: it is accepted if and only if one of the first five packets
      on the line is acceptable, rejected if and only if there are five and none is, and without a reply
      otherwise. It was sent once, and again after every second refusal. */
  lemma OutcomeExactly(line: seq<byte>, buffers: seq<seq<byte>>, rest: seq<byte>, outcome: Outcome,
                       accept: (seq<byte>, seq<byte>) -> bool, req: seq<byte>, sent: nat)
    requires Received(line, buffers, rest) && GoesByPacket(accept, req, Replies(line))
    requires Settled(outcome, accept, req, buffers, sent) && (outcome.NoReply? ==> Replies(rest) == [])
    ensures var ps := Replies(line);
      && (outcome.Accepted? <==> exists i: nat :: i < 5 && AcceptedAt(accept, req, ps, i))
      && (outcome.Rejected? <==> |ps| >= 5 && forall i: nat | i < 5 :: !AcceptedAt(accept, req, ps, i))
      && (outcome.NoReply? <==> |ps| < 5 && forall i: nat | i < 5 :: !AcceptedAt(accept, req, ps, i))
    ensures forall i: nat | AcceptedAt(accept, req, Replies(line), i) && i < 5
      && (forall j: nat | j < i :: !AcceptedAt(accept, req, Replies(line), j)) :: sent == 1 + i / 2
    ensures outcome.Rejected? ==> sent == 3
  {
    var ps, k := Replies(line), |buffers|;
    ReadAsPackets(line, buffers, rest, accept, req);
    match outcome
    case Accepted =>
      assert AcceptedAt(accept, req, ps, k - 1);
      assert forall j: nat | j < k - 1 :: buffers[..k - 1][j] == buffers[j];
    case Rejected =>
    case NoReply =>
  }

  lemma EchoGoesByPacket(req: seq<byte>, ps: seq<seq<byte>>)
    requires forall p | p in ps :: |p| >= 16
    ensures GoesByPacket(EchoCallback, req, ps)
  {
    forall p, buffer | p in ps && p <= buffer
      ensures EchoCallback(req, buffer) == EchoCallback(req, p)
    {
      assert forall i: nat | i < 16 :: Byte(buffer, i) == Byte(p, i);
    }
  }

  /** A request to the board over a line that carries these packets, framed: each is intact and holds
      the fields that are compared. */
  lemma RequestOverFrames(ps: seq<seq<byte>>, buffers: seq<seq<byte>>, rest: seq<byte>, outcome: Outcome,
                          req: seq<byte>, sent: nat)
    requires forall p | p in ps :: Intact(p) && 16 <= |p| <= LONGEST
    requires Received(Frames(ps), buffers, rest) && Settled(outcome, EchoCallback, req, buffers, sent)
    requires outcome.NoReply? ==> Replies(rest) == []
    ensures outcome.Accepted? <==> exists i: nat :: i < 5 && AcceptedAt(EchoCallback, req, ps, i)
    ensures outcome.Rejected? <==> |ps| >= 5 && forall i: nat | i < 5 :: !AcceptedAt(EchoCallback, req, ps, i)
    ensures outcome.NoReply? <==> |ps| < 5 && forall i: nat | i < 5 :: !AcceptedAt(EchoCallback, req, ps, i)
  {
    RepliesOverFrames(ps, LONGEST);
    EchoGoesByPacket(req, ps);
    OutcomeExactly(Frames(ps), buffers, rest, outcome, EchoCallback, req, sent);
  }
}
