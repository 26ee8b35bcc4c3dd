/** avr/bat3.c: one whole round of the charging daemon on the serial port, from the reply read to the
    request echoed. This is where the framed link and the controller meet. */
module Daemon {
  import opened Bytes
  import opened PacketFile
  import opened Serial
  import opened Avr
  import opened Charger

  const REQ_SIZE: nat := 13
  const REP_SIZE: nat := 19
  const REP_CURRENT: nat := 6

  // Bit numbers in the 16-bit outputs field.
  const PWM1_EN: nat := 0
  const PWM2_EN: nat := 1
  const OPAMP_EN: nat := 3
  const LED_OFF: nat := 5
  const BAT_RUN: nat := 7
  const SOFT_JP3: nat := 11

  predicate Bit(w: nat, k: nat) {
    if k == 0 then w % 2 == 1 else Bit(w / 2, k - 1)
  }

  function BitValue(on: bool): (b: nat)
    ensures b <= 1
  {
    if on then 1 else 0
  }

  function WithBit(w: nat, k: nat, on: bool): (r: nat)
  {
    if k == 0 then 2 * (w / 2) + BitValue(on) else 2 * WithBit(w / 2, k - 1, on) + w % 2
  }

  lemma Halves(x: nat, b: nat)
    requires b <= 1
    ensures (2 * x + b) / 2 == x && (2 * x + b) % 2 == b
  {
  }

  lemma {:induction false} BitIsSet(w: nat, k: nat, on: bool)
    ensures Bit(WithBit(w, k, on), k) == on
  {
    if k == 0 {
      Halves(w / 2, BitValue(on));
    } else {
      BitIsSet(w / 2, k - 1, on);
      Halves(WithBit(w / 2, k - 1, on), w % 2);
    }
  }

  /** Setting one bit leaves the others alone. */
  lemma {:induction false} OtherBitsKept(w: nat, k: nat, on: bool, j: nat)
    requires j != k
    ensures Bit(WithBit(w, k, on), j) == Bit(w, j)
  {
    if k == 0 {
      Halves(w / 2, BitValue(on));
    } else {
      Halves(WithBit(w / 2, k - 1, on), w % 2);
      if j > 0 {
        OtherBitsKept(w / 2, k - 1, on, j - 1);
      }
    }
  }

  lemma DoubledBelow(x: nat, b: nat, half: nat)
    requires b <= 1
    ensures 2 * x + b < 2 * half <==> x < half
  {
  }

  lemma {:induction false} WithBitFits(w: nat, k: nat, on: bool, n: nat)
    requires w < Pow2(n) && k < n
    ensures WithBit(w, k, on) < Pow2(n)
  {
    assert Pow2(n) == 2 * Pow2(n - 1);
    assert w / 2 < Pow2(n - 1) by {
      assert w == 2 * (w / 2) + w % 2;
      DoubledBelow(w / 2, w % 2, Pow2(n - 1));
    }
    if k == 0 {
      DoubledBelow(w / 2, BitValue(on), Pow2(n - 1));
    } else {
      WithBitFits(w / 2, k - 1, on, n - 1);
      DoubledBelow(WithBit(w / 2, k - 1, on), w % 2, Pow2(n - 1));
    }
  }

  lemma {:induction false} SameBitsAgree(w: nat, v: nat, n: nat, k: nat)
    requires SameBits(w, v, n) && k < n
    ensures Bit(w, k) == Bit(v, k)
  {
    if k > 0 {
      SameBitsAgree(w / 2, v / 2, n - 1, k - 1);
    }
  }

  /** One of the sixteen bits of an outputs field, set or cleared. */
  function Set(w: word, k: nat, on: bool): (r: word)
    requires k < 16
    ensures Bit(r, k) == on
  {
    Pow2OfSixteen();
    WithBitFits(w, k, on, 16);
    BitIsSet(w, k, on);
    WithBit(w, k, on)
  }

  lemma Pow2OfSixteen()
    ensures Pow2(16) == 0x1_0000
  {
    Pow2OfSix();
    assert Pow2(16) == 16 * Pow2(12) && Pow2(12) == 16 * Pow2(8) && Pow2(8) == 4 * Pow2(6);
  }

  /** Where in a reply the controller reads its fields, byte by byte. */
  lemma BoardReplyFields(rep: seq<byte>)
    ensures var r := BoardReply(rep);
      && r.adc7 == Byte(rep, 6) + 256 * Byte(rep, 7) && r.pwmLo == Byte(rep, 8) + 256 * Byte(rep, 9)
      && (r.batRun <==> Byte(rep, 14) >= 128)
  {
    HighBit(Byte(rep, 14), Byte(rep, 15));
  }

  lemma HalfBit(a: nat, h: nat, k: nat)
    requires k > 0
    ensures Bit(a + 2 * h, k) == Bit(a / 2 + h, k - 1)
  {
    assert (a + 2 * h) / 2 == a / 2 + h;
  }

  lemma HighBit(lo: byte, hi: byte)
    ensures Bit(lo + 256 * hi, 7) <==> lo >= 128
  {
    var a3 := lo / 2 / 2 / 2;
    HalfBit(lo, 128 * hi, 7);
    HalfBit(lo / 2, 64 * hi, 6);
    HalfBit(lo / 2 / 2, 32 * hi, 5);
    assert Bit(lo + 256 * hi, 7) == Bit(a3 + 32 * hi, 4);
    HighBitOfFive(a3, hi);
  }

  lemma HighBitOfFive(a: nat, hi: nat)
    requires a < 32
    ensures Bit(a + 32 * hi, 4) <==> a >= 16
  {
    HalfBit(a, 16 * hi, 4);
    HalfBit(a / 2, 8 * hi, 3);
    HalfBit(a / 2 / 2, 4 * hi, 2);
    HalfBit(a / 2 / 2 / 2, 2 * hi, 1);
    EvenAdded(a / 2 / 2 / 2 / 2, hi);
  }

  lemma EvenAdded(a: nat, h: nat)
    ensures Bit(a + 2 * h, 0) == Bit(a, 0)
  {
  }

  /** What the controller reads of a reply. */
  function BoardReply(rep: seq<byte>): (r: Reply)
  {
    Reply(Word(rep, REP_CURRENT), Word(rep, REP_PWM_LO), Bit(Word(rep, REP_OUTPUTS), BAT_RUN))
  }

  /** The outputs of a request made from a reply: all but soft-JP3 and the LED are repeated. The LED is
      off on battery, blinks while a PWM is enabled, and is on otherwise. */
  function EchoedOutputs(w: word): (r: word)
  {
    var off := Bit(w, BAT_RUN) || ((Bit(w, PWM1_EN) || Bit(w, PWM2_EN)) && !Bit(w, LED_OFF));
    Set(Set(w, SOFT_JP3, false), LED_OFF, off)
  }

  function ControlledOutputs(w: word, driving: bool): (r: word)
  {
    Set(Set(Set(w, PWM1_EN, driving), PWM2_EN, driving), OPAMP_EN, true)
  }

  lemma SetBits(w: word, k: nat, on: bool, j: nat)
    requires k < 16
    ensures Bit(Set(w, k, on), j) == if j == k then on else Bit(w, j)
  {
    if j != k {
      OtherBitsKept(w, k, on, j);
    }
  }

  /** What bit j of a request's outputs is to be, for a reply with outputs p: PWM1 (0) and PWM2 (1) as the
      controller has them, the op-amp (3) on, soft-JP3 (11) off, the LED (5) off on battery, toggled
      while a PWM is enabled, and on otherwise; all others are repeated. */
  predicate WantedBit(p: word, driving: bool, j: nat) {
    if j == 0 || j == 1 then driving
    else if j == 3 then true
    else if j == 11 then false
    else if j == 5 then Bit(p, 7) || ((Bit(p, 0) || Bit(p, 1)) && !Bit(p, 5))
    else Bit(p, j)
  }

  /** The bits of a request made from a reply and the controller's decision, one by one. */
  lemma OutputsBitByBit(p: word, driving: bool, j: nat)
    ensures Bit(ControlledOutputs(EchoedOutputs(p), driving), j) == WantedBit(p, driving, j)
  {
    var off := Bit(p, 7) || ((Bit(p, 0) || Bit(p, 1)) && !Bit(p, 5));
    var w1 := Set(p, SOFT_JP3, false);
    var w2 := Set(w1, LED_OFF, off);
    var w3 := Set(w2, PWM1_EN, driving);
    var w4 := Set(w3, PWM2_EN, driving);
    SetBits(p, SOFT_JP3, false, j);
    SetBits(w1, LED_OFF, off, j);
    SetBits(w2, PWM1_EN, driving, j);
    SetBits(w3, PWM2_EN, driving, j);
    SetBits(w4, OPAMP_EN, true, j);
  }

  lemma ControlledBits(w: word, driving: bool)
    ensures var r := ControlledOutputs(w, driving);
      Bit(r, PWM1_EN) == Bit(r, PWM2_EN) == driving && Bit(r, OPAMP_EN)
  {
    var r1 := Set(w, PWM1_EN, driving);
    var r2 := Set(r1, PWM2_EN, driving);
    OtherBitsKept(r1, PWM2_EN, driving, PWM1_EN);
    OtherBitsKept(r2, OPAMP_EN, true, PWM1_EN);
    OtherBitsKept(r2, OPAMP_EN, true, PWM2_EN);
  }

  /** No 16-bit field of the loop wraps around. */
  ghost predicate Widths(s: Charge) {
    && s.lockMax < 0xFFFF && 0 <= s.lockHi < 0x1_0000 && 0 <= s.lockLo < 0x1_0000
    && 0 <= s.pwmLo < 0x1_0000 && 0 <= s.pwmT < 0x1_0000
  }

  /** Whatever the board replies, echo or not, a round keeps every 16-bit field in its width. */
  lemma WidthsHold(s: Charge, x: Input, d: int)
    requires Widths(s)
    ensures Widths(Round(s, x, d))
  {
    var c := OnCommand(s, x.cmd);
    assert Widths(c) && Widths(DutyTick(c));
    WidthsThroughUpdate(BeforeUpdate(s, x, d), x.rep);
  }

  lemma WidthsThroughUpdate(s: Charge, rep: Reply)
    requires Widths(s)
    ensures Widths(Regulate(s, rep))
  {
    var v := Regulate(s, rep);
    MidpointIsBetween(v.lockLo, v.lockHi);
  }

  /** The first twelve bytes of a request: no alarm, the outputs, both PWM times, and the EEPROM bytes
      that are left in the buffer. */
  function RequestBytes(outputs: word, pwmLo: word, pwmT: word, eeAddr: byte, eeData: byte): (req: seq<byte>)
    ensures |req| == REQ_SIZE - 1
  {
    [0, 0, 0, 0, outputs % 0x100, outputs / 0x100, pwmLo % 0x100, pwmLo / 0x100, pwmT % 0x100, pwmT / 0x100,
     eeAddr, eeData]
  }

  lemma RequestFields(outputs: word, pwmLo: word, pwmT: word, eeAddr: byte, eeData: byte, req: seq<byte>)
    requires |req| == REQ_SIZE
    requires req[..REQ_SIZE - 1] == RequestBytes(outputs, pwmLo, pwmT, eeAddr, eeData)
    ensures Word(req, REQ_OUTPUTS) == outputs
    ensures Word(req, REQ_PWM_LO) == pwmLo && Word(req, REQ_PWM_T) == pwmT
  {
    var want := RequestBytes(outputs, pwmLo, pwmT, eeAddr, eeData);
    assert forall i | 0 <= i < REQ_SIZE - 1 :: req[i] == req[..REQ_SIZE - 1][i] == want[i];
  }

  /** An accepted reply to a request with these outputs and times reports the PWM times asked for, the
      PWMs as asked, and the op-amp on. */
  lemma EchoConfirms(w: word, driving: bool, req: seq<byte>, rep: seq<byte>)
    requires Word(req, REQ_OUTPUTS) == ControlledOutputs(w, driving) && EchoCallback(req, rep)
    ensures var p := Word(rep, REP_OUTPUTS);
      Bit(p, PWM1_EN) == Bit(p, PWM2_EN) == driving && Bit(p, OPAMP_EN)
    ensures Word(rep, REP_PWM_LO) == Word(req, REQ_PWM_LO) && Word(rep, REP_PWM_T) == Word(req, REQ_PWM_T)
  {
    var q, p := Word(req, REQ_OUTPUTS), Word(rep, REP_OUTPUTS);
    ControlledBits(w, driving);
    SameBitsAgree(q, p, 6, PWM1_EN);
    SameBitsAgree(q, p, 6, PWM2_EN);
    SameBitsAgree(q, p, 6, OPAMP_EN);
  }

  /** How a round ends: with no reply to start from, or with the reply used and the request's fate. */
  datatype RoundEnd = Silent | Asked(reply: Reply, outcome: Outcome)

  method PutWord(arr: array<byte>, i: nat, w: word)
    requires i + 1 < arr.Length
    modifies arr
    ensures arr[..] == old(arr[..])[i := w % 0x100][i + 1 := w / 0x100]
  {
    arr[i] := w % 0x100;
    arr[i + 1] := w / 0x100;
  }

  /** BAT3requestInitFromReply, on the reply's bytes. */
  method RequestInit(rep: seq<byte>, req: array<byte>) returns (len: nat)
    requires req.Length >= REQ_SIZE
    modifies req
    ensures len == REQ_SIZE
    ensures req[..REQ_SIZE - 1] == RequestBytes(EchoedOutputs(Word(rep, REP_OUTPUTS)),
      Word(rep, REP_PWM_LO), Word(rep, REP_PWM_T), old(req[10]), old(req[11]))
  {
    var outputs := Word(rep, REP_OUTPUTS);
    var off: bool;
    if Bit(outputs, BAT_RUN) {
      off := true;
    } else if Bit(outputs, PWM1_EN) || Bit(outputs, PWM2_EN) {
      off := !Bit(outputs, LED_OFF);
    } else {
      off := false;
    }
    PutWord(req, REQ_OUTPUTS, Set(Set(outputs, SOFT_JP3, false), LED_OFF, off));
    PutWord(req, REQ_PWM_LO, Word(rep, REP_PWM_LO));
    PutWord(req, REQ_PWM_T, Word(rep, REP_PWM_T));
    req[0], req[1], req[2], req[3] := 0, 0, 0, 0;
    len := REQ_SIZE;
  }

  /** The controller's decisions, written into the request. */
  method RequestControl(loop: ChargeLoop, req: array<byte>, ghost w: word, ghost lo: word, ghost t: word,
                        ghost eeAddr: byte, ghost eeData: byte)
    requires Widths(loop.State()) && req.Length >= REQ_SIZE
    requires req[..REQ_SIZE - 1] == RequestBytes(w, lo, t, eeAddr, eeData)
    modifies req
    ensures req[..REQ_SIZE - 1]
      == RequestBytes(ControlledOutputs(w, loop.driving), loop.pwmLo, loop.pwmT, eeAddr, eeData)
  {
    ghost var want := RequestBytes(w, lo, t, eeAddr, eeData);
    assert forall i | 0 <= i < REQ_SIZE - 1 :: req[i] == want[i];
    var outputs := Word(req[..], REQ_OUTPUTS);
    assert outputs == w;
    PutWord(req, REQ_OUTPUTS, Set(Set(Set(outputs, PWM1_EN, loop.driving), PWM2_EN, loop.driving), OPAMP_EN, true));
    PutWord(req, REQ_PWM_LO, loop.pwmLo);
    PutWord(req, REQ_PWM_T, loop.pwmT);
  }

  /** The controller's side of a round, once a reply is in the buffer: its step, and the request. */
  method Respond(loop: ChargeLoop, rep: seq<byte>, req: array<byte>, t: int) returns (len: nat, shutdown: bool)
    requires req.Length >= REQ_SIZE && loop.Valid() && Widths(loop.State())
    modifies loop, req
    ensures loop.Valid() && Widths(loop.State()) && len == REQ_SIZE
    ensures var x := Input(Quiet, BoardReply(rep), t);
      && loop.State() == Round(old(loop.State()), x, loop.shutdelay)
      && shutdown == ShutsDown(old(loop.State()), x, loop.shutdelay)
    ensures req[..REQ_SIZE - 1] == RequestBytes(
      ControlledOutputs(EchoedOutputs(Word(rep, REP_OUTPUTS)), loop.driving), loop.pwmLo, loop.pwmT,
      old(req[10]), old(req[11]))
  {
    ghost var eeAddr, eeData := req[10], req[11];
    len := RequestInit(rep, req);
    WidthsHold(loop.State(), Input(Quiet, BoardReply(rep), t), loop.shutdelay);
    shutdown := loop.AfterReply(BoardReply(rep), t);
    RequestControl(loop, req, EchoedOutputs(Word(rep, REP_OUTPUTS)), Word(rep, REP_PWM_LO), Word(rep, REP_PWM_T),
                   eeAddr, eeData);
  }

  /** The board, by this reply, holds the settings that the controller holds. */
  ghost predicate Confirmed(rep: seq<byte>, s: Charge) {
    var p := Word(rep, REP_OUTPUTS);
    && BoardReply(rep).pwmLo == s.pwmLo && Word(rep, REP_PWM_T) == s.pwmT
    && Bit(p, PWM1_EN) == Bit(p, PWM2_EN) == s.driving && Bit(p, OPAMP_EN)
  }

  /** The last reply read is the one in the buffer, and it confirms the controller's settings. */
  ghost predicate Concludes(replies: seq<seq<byte>>, rep: seq<byte>, s: Charge) {
    replies != [] && replies[|replies| - 1] == rep && Confirmed(rep, s)
  }

  /** Sends a request made from the controller's settings until the board confirms them. */
  method SendSettings(port: Port, loop: ChargeLoop, req: array<byte>, rep: array<byte>,
                      ghost w: word, ghost eeAddr: byte, ghost eeData: byte)
    returns (outcome: Outcome, ghost replies: seq<seq<byte>>, ghost sent: nat)
    requires req != rep && req.Length >= REQ_SIZE
    requires Fits(port.input, Min(rep.Length, LONGEST)) && Widths(loop.State())
    requires req[..REQ_SIZE - 1]
      == RequestBytes(ControlledOutputs(w, loop.driving), loop.pwmLo, loop.pwmT, eeAddr, eeData)
    modifies port, req, rep
    ensures Fits(port.input, Min(rep.Length, LONGEST)) && Received(old(port.input), replies, port.input)
    ensures Settled(outcome, EchoCallback, req[..REQ_SIZE], replies, sent)
    ensures port.output == Written(old(port.output), sent, Frame(req[..REQ_SIZE]))
    ensures outcome.Accepted? ==> Concludes(replies, rep[..], loop.State())
    ensures outcome.NoReply? ==> Replies(port.input) == []
    ensures req[..REQ_SIZE] == Seal(old(req[..REQ_SIZE - 1]))
  {
    ghost var asked := req[..REQ_SIZE - 1];
    outcome, replies, sent := port.SendAndAwaitEcho(req, REQ_SIZE, rep);
    if outcome.Accepted? {
      assert req[..REQ_SIZE][..REQ_SIZE - 1] == asked;
      RequestFields(ControlledOutputs(w, loop.driving), loop.pwmLo, loop.pwmT, eeAddr, eeData, req[..REQ_SIZE]);
      EchoConfirms(w, loop.driving, req[..REQ_SIZE], rep[..]);
    }
  }

  /** The request asks for the controller's settings and repeats the rest of the reply: no alarm, the
      outputs bit by bit, both PWM times, and the EEPROM bytes that were in the buffer. */
  ghost predicate Requests(req: seq<byte>, rep: seq<byte>, s: Charge, eeprom: seq<byte>) {
    && |req| == 13 && req[..4] == [0, 0, 0, 0] && req[10..12] == eeprom
    && (forall j: nat | j < 16 :: Bit(Word(req, 4), j) == WantedBit(Word(rep, 14), s.driving, j))
    && Word(req, 6) == s.pwmLo && Word(req, 8) == s.pwmT
  }

  lemma RequestIsFor(req: seq<byte>, asked: seq<byte>, rep: seq<byte>, s: Charge, eeAddr: byte, eeData: byte)
    requires Widths(s)
    requires var w := EchoedOutputs(Word(rep, REP_OUTPUTS));
      asked == RequestBytes(ControlledOutputs(w, s.driving), s.pwmLo, s.pwmT, eeAddr, eeData)
    requires req == Seal(asked)
    ensures Intact(req) && Requests(req, rep, s, [eeAddr, eeData])
  {
    var p := Word(rep, REP_OUTPUTS);
    var q := ControlledOutputs(EchoedOutputs(p), s.driving);
    IntactIsSealed(req);
    RequestFields(q, s.pwmLo, s.pwmT, eeAddr, eeData, req);
    forall j: nat | j < 16
      ensures Bit(Word(req, 4), j) == WantedBit(Word(rep, 14), s.driving, j)
    {
      OutputsBitByBit(p, s.driving, j);
    }
    assert req[10..12] == asked[10..12];
    assert req[..4] == asked[..4];
  }

  /** The fields read lie in the packet itself, when it is as long as the structure. */
  lemma FieldsInFront(packet: seq<byte>, buffer: seq<byte>)
    requires packet <= buffer
    ensures |packet| >= REP_SIZE ==> BoardReply(packet) == BoardReply(buffer)
  {
    assert |packet| >= REP_SIZE ==> forall i: nat | i < REP_SIZE :: Byte(packet, i) == Byte(buffer, i);
  }

  /** The first packet is at the front of the buffer, and has all the fields if it is long enough. */
  ghost predicate StartsWith(packets: seq<seq<byte>>, buffer: seq<byte>) {
    && packets != [] && packets[0] <= buffer
    && (|packets[0]| >= REP_SIZE ==> BoardReply(packets[0]) == BoardReply(buffer))
  }

  lemma FirstReply(line: seq<byte>, buffer: seq<byte>, n: nat, after: seq<byte>)
    requires n <= |buffer| && Replies(line) == [buffer[..n]] + Replies(after)
    ensures Received(line, [buffer], after) && StartsWith(Replies(line), buffer)
  {
    FieldsInFront(buffer[..n], buffer);
    ReceivedCons(line, buffer, buffer[..n], after, [], after);
    assert [buffer] + [] == [buffer];
  }

  /** The start of a round: the command, then the board's next reply, if there is one. */
  method Begin(port: Port, loop: ChargeLoop, rep: array<byte>, cmd: Command) returns (heard: bool)
    requires Fits(port.input, Min(rep.Length, LONGEST)) && loop.Valid() && Widths(loop.State())
    modifies port, loop, rep
    ensures loop.Valid() && Widths(loop.State()) && loop.State() == OnCommand(old(loop.State()), cmd)
    ensures Fits(port.input, Min(rep.Length, LONGEST)) && port.output == old(port.output)
    ensures !heard ==> Replies(old(port.input)) == [] == Replies(port.input)
    ensures heard ==>
      Received(old(port.input), [rep[..]], port.input) && StartsWith(Replies(old(port.input)), rep[..])
  {
    ghost var line := port.input;
    loop.CommandCheck(cmd);
    var n := port.Poll(rep);
    heard := n > 0;
    if heard {
      assert rep[..][..n] == rep[..n];
      FirstReply(line, rep[..], n, port.input);
    }
  }

  /** The round from the reply in the buffer on, with the command already taken: the step, and its
      settings sent. */
  method Answer(port: Port, loop: ChargeLoop, req: array<byte>, rep: array<byte>, t: int,
                ghost before: Charge, ghost cmd: Command)
    returns (outcome: Outcome, shutdown: bool, ghost replies: seq<seq<byte>>, ghost sent: nat)
    requires req != rep && req.Length >= REQ_SIZE
    requires Fits(port.input, Min(rep.Length, LONGEST)) && loop.Valid() && Widths(loop.State())
    requires loop.State() == OnCommand(before, cmd)
    modifies port, loop, req, rep
    ensures loop.Valid() && Widths(loop.State())
    ensures var x := Input(cmd, BoardReply(old(rep[..])), t);
      && loop.State() == Round(before, x, loop.shutdelay)
      && shutdown == ShutsDown(before, x, loop.shutdelay)
    ensures Fits(port.input, Min(rep.Length, LONGEST)) && Received(old(port.input), replies, port.input)
    ensures Settled(outcome, EchoCallback, req[..REQ_SIZE], replies, sent)
    ensures port.output == Written(old(port.output), sent, Frame(req[..REQ_SIZE]))
    ensures Intact(req[..REQ_SIZE]) && Requests(req[..REQ_SIZE], old(rep[..]), loop.State(), old(req[10..12]))
    ensures outcome.NoReply? ==> Replies(port.input) == []
    ensures outcome.Accepted? ==> Concludes(replies, rep[..], loop.State())
  {
    ghost var first := rep[..];
    ghost var w := EchoedOutputs(Word(first, REP_OUTPUTS));
    ghost var eeAddr, eeData := req[10], req[11];
    assert req[10..12] == [eeAddr, eeData];
    CommandActsFirst(before, Input(cmd, BoardReply(rep[..]), t), loop.shutdelay);
    var len;
    len, shutdown := Respond(loop, rep[..], req, t);
    ghost var asked := req[..REQ_SIZE - 1];
    outcome, replies, sent := SendSettings(port, loop, req, rep, w, eeAddr, eeData);
    RequestIsFor(req[..REQ_SIZE], asked, first, loop.State(), eeAddr, eeData);
  }

  /** One round of BAT3BatteryCharge on the port. The controller takes one step on the reply read, and
      when the request comes back accepted the board has reported the very settings the controller
      holds. `first` is the reply buffer the step used, `replies` those the request then read, and
      `sent` the number of frames it took. */
  method RoundOnPort(port: Port, loop: ChargeLoop, req: array<byte>, rep: array<byte>, cmd: Command, t: int)
    returns (end: RoundEnd, shutdown: bool,
             ghost first: seq<byte>, ghost replies: seq<seq<byte>>, ghost sent: nat)
    requires req != rep && req.Length >= REQ_SIZE && rep.Length >= REP_SIZE
    requires Fits(port.input, Min(rep.Length, LONGEST))
    requires loop.Valid() && Widths(loop.State())
    modifies port, loop, req, rep
    ensures loop.Valid() && Widths(loop.State()) && Fits(port.input, Min(rep.Length, LONGEST))
    ensures end.Silent? <==> Replies(old(port.input)) == []
    ensures end.Silent? ==> Replies(port.input) == []
    ensures end.Silent? ==>
      !shutdown && loop.State() == OnCommand(old(loop.State()), cmd) && port.output == old(port.output)
    ensures end.Asked? ==>
      var x := Input(cmd, end.reply, t);
      && loop.State() == Round(old(loop.State()), x, loop.shutdelay)
      && shutdown == ShutsDown(old(loop.State()), x, loop.shutdelay)
    ensures end.Asked? ==>
      && end.reply == BoardReply(first) && Received(old(port.input), [first] + replies, port.input)
      && Settled(end.outcome, EchoCallback, req[..REQ_SIZE], replies, sent)
      && port.output == Written(old(port.output), sent, Frame(req[..REQ_SIZE]))
    ensures end.Asked? ==> StartsWith(Replies(old(port.input)), first)
    ensures end.Asked? ==>
      Intact(req[..REQ_SIZE]) && Requests(req[..REQ_SIZE], first, loop.State(), old(req[10..12]))
    ensures end.Asked? && end.outcome.NoReply? ==> Replies(port.input) == []
    ensures end.Asked? && end.outcome.Accepted? ==>
      Concludes(replies, rep[..], loop.State())
  {
    ghost var before, line := loop.State(), port.input;
    var heard := Begin(port, loop, rep, cmd);
    if !heard {
      return Silent, false, [], [], 0;
    }
    ghost var mid := port.input;
    first := rep[..];
    var reply := BoardReply(rep[..]);
    var outcome;
    outcome, shutdown, replies, sent := Answer(port, loop, req, rep, t, before, cmd);
    ReceivedConcat(line, [first], mid, replies, port.input);
    end := Asked(reply, outcome);
  }
}
