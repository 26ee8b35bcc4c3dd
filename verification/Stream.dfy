/** src/stream.c: the second, independently written sender and streaming decoder. */
module Stream {
  import opened Bytes
  import opened Serial

  /** The position at which an ETX is taken for an unescaped checksum. */
  const ETX_WORKAROUND: nat := 18

  // ----- the sender -----

  method CalcCrc(msg: array<byte>, len: nat) returns (crc: byte)
    requires len <= msg.Length
    ensures crc == Crc(msg[..len])
  {
    var acc: int := 0xFF;
    for pos := 0 to len
      invariant 0 <= acc < 0x100 && acc == Crc(msg[..pos])
    {
      assert msg[..pos + 1] == msg[..pos] + [msg[pos]];
      SumSnoc(msg[..pos], msg[pos]);
      acc := (acc - msg[pos]) % 0x100;
    }
    crc := acc;
  }

  /** The sender's own test and escape of one byte: the code that lib/serial.c would write. */
  method PutByte(b: byte, mymsg: array<byte>, pos: nat) returns (next: nat)
    requires pos + |Code(b)| <= mymsg.Length
    modifies mymsg
    ensures next == pos + |Code(b)| && mymsg[..next] == old(mymsg[..pos]) + Code(b)
  {
    next := pos;
    if b == STX || b == ESC || b == ETX || b == 0x11 || b == 0x13 {
      mymsg[next] := ESC;
      mymsg[next + 1] := Flip(b);
      next := next + 2;
    } else {
      mymsg[next] := b;
      next := next + 1;
    }
  }

  /** The start byte and the message, escaped. */
  method PutMessage(msg: array<byte>, len: nat, mymsg: array<byte>) returns (pos: nat)
    requires len <= msg.Length && msg != mymsg && 1 + |Stuff(msg[..len])| <= mymsg.Length
    modifies mymsg
    ensures pos == 1 + |Stuff(msg[..len])| && mymsg[..pos] == [STX] + Stuff(msg[..len])
  {
    ghost var m := msg[..len];
    mymsg[0] := STX;
    pos := 1;
    assert m[..0] == [];
    for cnt := 0 to len
      invariant pos == 1 + |Stuff(m[..cnt])| <= 1 + |Stuff(m)|
      invariant mymsg[..pos] == [STX] + Stuff(m[..cnt])
    {
      StuffStep(m, cnt);
      ghost var done := mymsg[..pos];
      pos := PutByte(msg[cnt], mymsg, pos);
      assert mymsg[..pos] == done + Code(m[cnt]);
      Reassociate([STX], Stuff(m[..cnt]), Code(m[cnt]));
    }
    assert m[..len] == m;
  }

  /** What goes out is what lib/serial.c's framing of the sealed message would be. The C function
      collects it in a buffer of 50 bytes, which the message must not overrun. */
  method WriteStream(msg: array<byte>, len: nat) returns (wire: seq<byte>)
    requires len <= msg.Length
    requires |Frame(Seal(msg[..len]))| <= 50
    ensures wire == Frame(Seal(msg[..len]))
  {
    SealedFrame(msg[..len]);
    var mymsg := new byte[50];
    var pos := PutMessage(msg, len, mymsg);
    var crc := CalcCrc(msg, len);
    pos := PutByte(crc, mymsg, pos);
    mymsg[pos] := ETX;
    pos := pos + 1;
    wire := mymsg[..pos];
    assert wire == mymsg[..pos - 1] + [ETX];
  }

  lemma SealedFrame(m: seq<byte>)
    ensures Frame(Seal(m)) == [STX] + Stuff(m) + Code(Crc(m)) + [ETX]
  {
    StuffSnoc(m, Crc(m));
    Reassociate([STX], Stuff(m), Code(Crc(m)));
  }

  // ----- the receiver -----

  datatype Phase = NotStarted | InMessage | Ended

  /** msg[..pos] as a sequence, with the position at which the last escape was resolved. */
  datatype Reader = Reader(phase: Phase, msg: seq<byte>, lastEsc: int)

  const FRESH: Reader := Reader(NotStarted, [], -1)

  /** The implicit escape state: the last byte stored is an escape that is still to be resolved. */
  predicate Pending(r: Reader) {
    r.msg != [] && r.msg[|r.msg| - 1] == ESC && r.lastEsc != |r.msg|
  }

  function Take(r: Reader, b: byte): (next: Reader)
  {
    if b == STX then r.(phase := InMessage, msg := [])
    else if !r.phase.InMessage? then r
    else if b == ETX then
      if |r.msg| == ETX_WORKAROUND then r.(msg := r.msg + [b]) else r.(phase := Ended)
    else if Pending(r) then r.(msg := r.msg[..|r.msg| - 1] + [Flip(b)], lastEsc := |r.msg|)
    else r.(msg := r.msg + [b])
  }

  /** The loop stops when a message has ended or the caller's buffer is full. */
  predicate Halted(r: Reader, max: nat) {
    r.phase.Ended? || |r.msg| == max
  }

  /** A run of the loop; bytes after it stopped are not read. */
  function Read(r: Reader, bs: seq<byte>, max: nat): (end: Reader)
  {
    if bs == [] then r
    else
      var before := Read(r, bs[..|bs| - 1], max);
      if Halted(before, max) then before else Take(before, bs[|bs| - 1])
  }

  /** The length returned: that of the message without its checksum, or 0 for an error. */
  function Length(r: Reader): (n: nat)
  {
    if r.msg != [] && Intact(r.msg) then |r.msg| - 1 else 0
  }

  lemma ReadSnoc(r: Reader, bs: seq<byte>, b: byte, max: nat)
    ensures var before := Read(r, bs, max);
      Read(r, bs + [b], max) == if Halted(before, max) then before else Take(before, b)
  {
    assert (bs + [b])[..|bs|] == bs;
  }

  lemma {:induction false} ReadConcat(r: Reader, xs: seq<byte>, ys: seq<byte>, max: nat)
    ensures Read(r, xs + ys, max) == Read(Read(r, xs, max), ys, max)
  {
    if ys == [] {
      assert xs + ys == xs;
    } else {
      var front, b := ys[..|ys| - 1], ys[|ys| - 1];
      ReadConcat(r, xs, front, max);
      assert xs + ys == (xs + front) + [b];
      ReadSnoc(r, xs + front, b, max);
    }
  }

  /** What the loop does with one byte received. */
  method TakeByte(phase: Phase, msg: array<byte>, pos: nat, lastEsc: int, rxchar: byte)
    returns (phase': Phase, pos': nat, lastEsc': int)
    requires pos < msg.Length
    modifies msg
    ensures pos' <= msg.Length
    ensures Reader(phase', msg[..pos'], lastEsc') == Take(Reader(phase, old(msg[..pos]), lastEsc), rxchar)
  {
    phase', pos', lastEsc' := phase, pos, lastEsc;
    if rxchar == STX {
      phase' := InMessage;
      pos' := 0;
    } else if rxchar == ETX {
      if phase == InMessage {
        if pos == ETX_WORKAROUND {
          msg[pos] := rxchar;
          pos' := pos + 1;
        } else {
          phase' := Ended;
        }
      }
    } else if phase == InMessage {
      if pos > 0 && msg[pos - 1] == ESC && lastEsc != pos {
        lastEsc' := pos;
        msg[pos - 1] := Flip(rxchar);
      } else {
        msg[pos] := rxchar;
        pos' := pos + 1;
      }
    }
  }

  /** The length without the checksum if the checksum is right, and 0 otherwise. */
  method CheckCrc(msg: array<byte>, pos: nat) returns (n: nat)
    requires pos <= msg.Length
    ensures n == if pos > 0 && Intact(msg[..pos]) then pos - 1 else 0
  {
    n := 0;
    if pos > 0 {
      IntactIsSealed(msg[..pos]);
      assert msg[..pos][..pos - 1] == msg[..pos - 1];
      var crc := CalcCrc(msg, pos - 1);
      if crc == msg[pos - 1] {
        n := pos - 1;
      }
    }
  }

  /** How many bytes a run of the loop takes from the line. */
  function Used(r: Reader, bs: seq<byte>, max: nat): (k: nat)
    ensures k <= |bs|
  {
    if bs == [] then 0
    else
      var front := bs[..|bs| - 1];
      if Halted(Read(r, front, max), max) then Used(r, front, max) else |bs|
  }

  /** Reads until a message ends, the buffer fills, or the input falls silent. What follows the bytes
      used is left for the next call. */
  method ReadStream(input: seq<byte>, msg: array<byte>) returns (n: nat, used: nat)
    requires msg.Length > 0
    modifies msg
    ensures n == Length(Read(FRESH, input, msg.Length))
    ensures n <= msg.Length && (n > 0 ==> msg[..n] == Read(FRESH, input, msg.Length).msg[..n])
    ensures used == Used(FRESH, input, msg.Length)
  {
    var phase, lastEsc := NotStarted, -1;
    var pos: nat := 0;
    used := 0;
    ghost var r := FRESH;
    while used < |input| && phase != Ended
      invariant used <= |input| && pos < msg.Length
      invariant Reader(phase, msg[..pos], lastEsc) == r == Read(FRESH, input[..used], msg.Length)
      invariant used == Used(FRESH, input[..used], msg.Length)
    {
      ReadNext(input, used, msg.Length);
      phase, pos, lastEsc := TakeByte(phase, msg, pos, lastEsc, input[used]);
      r := Take(r, input[used]);
      used := used + 1;
      if pos == msg.Length {
        break;
      }
    }
    ReadStops(input, used, msg.Length);
    n := CheckCrc(msg, pos);
  }

  lemma ReadNext(input: seq<byte>, i: nat, max: nat)
    requires i < |input| && !Halted(Read(FRESH, input[..i], max), max)
    ensures Read(FRESH, input[..i + 1], max) == Take(Read(FRESH, input[..i], max), input[i])
    ensures Used(FRESH, input[..i + 1], max) == i + 1
  {
    assert input[..i + 1][..i] == input[..i];
  }

  lemma {:induction false} ReadStops(input: seq<byte>, i: nat, max: nat)
    requires i <= |input|
    requires i == |input| || Halted(Read(FRESH, input[..i], max), max)
    ensures Read(FRESH, input, max) == Read(FRESH, input[..i], max)
    ensures Used(FRESH, input, max) == Used(FRESH, input[..i], max)
  {
    assert input == input[..i] + input[i..];
    ReadConcat(FRESH, input[..i], input[i..], max);
    HaltedStays(Read(FRESH, input[..i], max), input[i..], max);
    UsedStays(FRESH, input[..i], input[i..], max);
  }

  lemma {:induction false} UsedStays(r: Reader, xs: seq<byte>, ys: seq<byte>, max: nat)
    requires ys == [] || Halted(Read(r, xs, max), max)
    ensures Used(r, xs + ys, max) == Used(r, xs, max)
  {
    if ys == [] {
      assert xs + ys == xs;
    } else {
      var front := ys[..|ys| - 1];
      assert (xs + ys)[..|xs + ys| - 1] == xs + front;
      ReadConcat(r, xs, front, max);
      HaltedStays(Read(r, xs, max), front, max);
      UsedStays(r, xs, front, max);
    }
  }

  lemma {:induction false} HaltedStays(r: Reader, bs: seq<byte>, max: nat)
    requires Halted(r, max) || bs == []
    ensures Read(r, bs, max) == r
  {
    if bs != [] {
      HaltedStays(r, bs[..|bs| - 1], max);
    }
  }

  // ----- the round trip, and exactly when it fails -----

  /** The index of the first byte that is escaped, or the length when there is none. */
  function FirstEscape(t: seq<byte>): (k: nat)
    ensures k <= |t|
  {
    if t == [] then 0
    else
      var k := FirstEscape(t[..|t| - 1]);
      if k == |t| - 1 && !MustEscape(t[k]) then |t| else k
  }

  lemma {:induction false} FirstEscapeIsFirst(t: seq<byte>)
    ensures var k := FirstEscape(t);
      && FirstEscape(t[..k]) == k && (k < |t| ==> MustEscape(t[k]))
      && forall j | 0 <= j < k :: !MustEscape(t[j])
  {
    if t != [] {
      var front := t[..|t| - 1];
      FirstEscapeIsFirst(front);
      var k := FirstEscape(t);
      if k < |t| {
        assert t[..k] == front[..k];
      } else {
        assert t[..k] == t;
      }
    }
  }

  /** The stale position of an earlier escape hides the first escape of the coming bytes t. */
  predicate Clash(r: Reader, t: seq<byte>) {
    FirstEscape(t) < |t| && r.lastEsc == |r.msg| + FirstEscape(t) + 1
  }

  lemma ReadOne(r: Reader, x: byte, max: nat)
    requires !Halted(r, max)
    ensures Read(r, [x], max) == Take(r, x)
  {
    var none: seq<byte> := [];
    assert [x] == none + [x];
    ReadSnoc(r, none, x, max);
  }

  lemma ReadTwo(r: Reader, x: byte, y: byte, max: nat)
    requires !Halted(r, max) && !Halted(Take(r, x), max)
    ensures Read(r, [x, y], max) == Take(Take(r, x), y)
  {
    assert [x, y] == [x] + [y];
    ReadOne(r, x, max);
    ReadSnoc(r, [x], y, max);
  }

  lemma TakeStored(r: Reader, b: byte)
    requires r.phase.InMessage? && !Pending(r) && b != STX && b != ETX
    ensures Take(r, b) == Reader(InMessage, r.msg + [b], r.lastEsc)
    ensures b != ESC || r.lastEsc == |r.msg| + 1 ==> !Pending(Take(r, b))
    ensures b == ESC && r.lastEsc != |r.msg| + 1 ==> Pending(Take(r, b))
  {
  }

  lemma TakeResolved(msg: seq<byte>, lastEsc: int, b: byte)
    requires MustEscape(b) && lastEsc != |msg| + 1
    ensures Take(Reader(InMessage, msg + [ESC], lastEsc), Flip(b)) == Reader(InMessage, msg + [b], |msg| + 1)
  {
    assert (msg + [ESC])[..|msg|] == msg;
  }

  lemma ReadEscaped(r: Reader, b: byte, max: nat) returns (end: Reader)
    requires r.phase.InMessage? && !Pending(r) && MustEscape(b)
    requires r.lastEsc != |r.msg| + 1 && |r.msg| + 1 < max
    ensures end == Read(r, [ESC, Flip(b)], max) == Reader(InMessage, r.msg + [b], |r.msg| + 1)
    ensures !Pending(end)
  {
    TakeStored(r, ESC);
    ReadTwo(r, ESC, Flip(b), max);
    TakeResolved(r.msg, r.lastEsc, b);
    end := Reader(InMessage, r.msg + [b], |r.msg| + 1);
  }

  /** With the stale position just there, the escape and its byte are both kept as they are. */
  lemma ReadMissed(r: Reader, b: byte, max: nat) returns (end: Reader)
    requires r.phase.InMessage? && !Pending(r) && MustEscape(b)
    requires r.lastEsc == |r.msg| + 1 && |r.msg| + 2 < max
    ensures end == Read(r, [ESC, Flip(b)], max) == Reader(InMessage, r.msg + [ESC, Flip(b)], r.lastEsc)
    ensures !Pending(end)
  {
    TakeStored(r, ESC);
    TakeStored(Take(r, ESC), Flip(b));
    ReadTwo(r, ESC, Flip(b), max);
    end := Reader(InMessage, r.msg + [ESC, Flip(b)], r.lastEsc);
    assert (r.msg + [ESC]) + [Flip(b)] == r.msg + [ESC, Flip(b)];
  }

  /** Inside a message with no escape pending, bytes that do not clash are decoded one by one, and
      leave no escape pending. */
  lemma {:induction false} ReadBody(r: Reader, t: seq<byte>, max: nat) returns (end: Reader)
    requires r.phase.InMessage? && !Pending(r) && !Clash(r, t)
    requires |r.msg| + |t| < max
    ensures end == Read(r, Stuff(t), max)
    ensures end.phase.InMessage? && end.msg == r.msg + t && !Pending(end)
    ensures if FirstEscape(t) == |t| then end.lastEsc == r.lastEsc else |r.msg| < end.lastEsc <= |end.msg|
  {
    end := r;
    if t == [] {
      assert r.msg + t == r.msg;
    } else {
      var front := t[..|t| - 1];
      var mid := ReadBody(r, front, max);
      end := ReadLast(r, t, mid, max);
      ReadConcat(r, Stuff(front), Code(t[|t| - 1]), max);
    }
  }

  /** The last byte of a body, after the ones before it. */
  lemma ReadLast(r: Reader, t: seq<byte>, mid: Reader, max: nat) returns (end: Reader)
    requires t != [] && !Clash(r, t) && |r.msg| + |t| < max
    requires mid.phase.InMessage? && mid.msg == r.msg + t[..|t| - 1] && !Pending(mid)
    requires if FirstEscape(t[..|t| - 1]) == |t| - 1 then mid.lastEsc == r.lastEsc
             else |r.msg| < mid.lastEsc <= |mid.msg|
    ensures end == Read(mid, Code(t[|t| - 1]), max)
    ensures end.phase.InMessage? && end.msg == r.msg + t && !Pending(end)
    ensures if FirstEscape(t) == |t| then end.lastEsc == r.lastEsc else |r.msg| < end.lastEsc <= |end.msg|
  {
    end := ReadByte(mid, t[|t| - 1], max);
    Reassociate(r.msg, t[..|t| - 1], [t[|t| - 1]]);
    assert t == t[..|t| - 1] + [t[|t| - 1]];
  }

  lemma ReadByte(r: Reader, b: byte, max: nat) returns (end: Reader)
    requires r.phase.InMessage? && !Pending(r) && |r.msg| + 1 < max
    requires MustEscape(b) ==> r.lastEsc != |r.msg| + 1
    ensures end == Read(r, Code(b), max) && !Pending(end)
    ensures end == Reader(InMessage, r.msg + [b], if MustEscape(b) then |r.msg| + 1 else r.lastEsc)
  {
    if MustEscape(b) {
      end := ReadEscaped(r, b, max);
    } else {
      ReadOne(r, b, max);
      TakeStored(r, b);
      end := Take(r, b);
    }
  }

  /** A frame, split at its start and end bytes. */
  lemma ReadFrame(r: Reader, p: seq<byte>, max: nat) returns (mid: Reader)
    requires !Halted(r, max) && max > 0
    ensures mid == Read(Reader(InMessage, [], r.lastEsc), Stuff(p), max)
    ensures Read(r, Frame(p), max) == if Halted(mid, max) then mid else Take(mid, ETX)
  {
    mid := Read(Reader(InMessage, [], r.lastEsc), Stuff(p), max);
    var none: seq<byte> := [];
    assert none + [STX] == [STX];
    ReadSnoc(r, none, STX, max);
    ReadConcat(r, [STX], Stuff(p), max);
    ReadSnoc(r, [STX] + Stuff(p), ETX, max);
  }

  /** readStream hands the caller the message m. */
  predicate Returns(end: Reader, m: seq<byte>) {
    Length(end) == |m| && end.msg[..Length(end)] == m
  }

  /** Round trip: from any point of the loop, a sealed frame that does not clash is decoded, and
      whatever follows it is left unread, unless the message has 17 bytes. */
  lemma RoundTrip(r: Reader, m: seq<byte>, tail: seq<byte>, max: nat)
    requires !Halted(r, max) && |m| + 1 < max
    requires |m| != 17 && !Clash(Reader(InMessage, [], r.lastEsc), Seal(m))
    ensures var end := Read(r, Frame(Seal(m)) + tail, max);
      end.phase.Ended? && end.msg == Seal(m) && Returns(end, m)
  {
    var w := Seal(m);
    var mid := ReadFrame(r, w, max);
    mid := ReadSealedBody(r, m, max);
    ReadConcat(r, Frame(w), tail, max);
    HaltedStays(Read(r, Frame(w), max), tail, max);
  }

  /** If its end byte never comes, the message is still returned once the line falls silent. */
  lemma SilenceEndsMessage(r: Reader, m: seq<byte>, max: nat)
    requires !Halted(r, max) && |m| + 1 < max && !Clash(Reader(InMessage, [], r.lastEsc), Seal(m))
    ensures Returns(Read(r, [STX] + Stuff(Seal(m)), max), m)
  {
    var mid := ReadSealedBody(r, m, max);
    ReadOne(r, STX, max);
    ReadConcat(r, [STX], Stuff(Seal(m)), max);
  }

  lemma EtxKeptAsChecksum(r: Reader)
    requires r.phase.InMessage? && |r.msg| == ETX_WORKAROUND && Intact(r.msg)
    ensures Take(r, ETX) == r.(msg := r.msg + [ETX]) && Length(Take(r, ETX)) == 0
  {
    SumSnoc(r.msg, ETX);
    NotIntact(Sum(r.msg), 32);
  }

  /** A message of 17 bytes runs into the workaround: its frame leaves the reader waiting, and if
      the line then falls silent the result is an error. */
  lemma SeventeenIsLost(r: Reader, m: seq<byte>, max: nat)
    requires !Halted(r, max) && |m| + 1 < max
    requires |m| == 17 && !Clash(Reader(InMessage, [], r.lastEsc), Seal(m))
    ensures var end := Read(r, Frame(Seal(m)), max);
      end.phase.InMessage? && end.msg == Seal(m) + [ETX] && Length(end) == 0
  {
    var mid := ReadFrame(r, Seal(m), max);
    mid := ReadSealedBody(r, m, max);
    EtxKeptAsChecksum(mid);
  }

  lemma ReadSealedBody(r: Reader, m: seq<byte>, max: nat) returns (mid: Reader)
    requires !Halted(r, max) && |m| + 1 < max
    requires !Clash(Reader(InMessage, [], r.lastEsc), Seal(m))
    ensures mid == Read(Reader(InMessage, [], r.lastEsc), Stuff(Seal(m)), max)
    ensures mid.phase.InMessage? && mid.msg == Seal(m) && Intact(Seal(m))
  {
    mid := ReadBody(Reader(InMessage, [], r.lastEsc), Seal(m), max);
    var none: seq<byte> := [];
    assert none + Seal(m) == Seal(m);
    SealSum(m);
  }

  /** A clash keeps one byte too many. */
  lemma ReadClashingBody(r: Reader, w: seq<byte>, max: nat) returns (end: Reader, i: nat)
    requires r.phase.InMessage? && r.msg == [] && |w| + 1 < max && Clash(r, w)
    ensures i < |w| && MustEscape(w[i])
    ensures end == Read(r, Stuff(w), max) && end.phase.InMessage?
    ensures end.msg == w[..i] + [ESC, Flip(w[i])] + w[i + 1..]
  {
    i := r.lastEsc - 1;
    FirstEscapeIsFirst(w);
    var mid := ReadBody(r, w[..i], max);
    assert r.msg + w[..i] == w[..i];
    end := ReadMissedBody(mid, w, i, max);
    StuffAround(w, i);
    Reassociate(Stuff(w[..i]), Code(w[i]), Stuff(w[i + 1..]));
    ReadConcat(r, Stuff(w[..i]), Code(w[i]) + Stuff(w[i + 1..]), max);
  }

  lemma ReadMissedBody(mid: Reader, w: seq<byte>, i: nat, max: nat) returns (end: Reader)
    requires i < |w| && MustEscape(w[i]) && |w| + 1 < max
    requires mid.phase.InMessage? && !Pending(mid) && mid.msg == w[..i] && mid.lastEsc == i + 1
    ensures end == Read(mid, Code(w[i]) + Stuff(w[i + 1..]), max) && end.phase.InMessage?
    ensures end.msg == w[..i] + [ESC, Flip(w[i])] + w[i + 1..]
  {
    var missed := ReadMissed(mid, w[i], max);
    end := ReadBody(missed, w[i + 1..], max);
    ReadConcat(mid, Code(w[i]), Stuff(w[i + 1..]), max);
  }

  /** ... and the checksum always catches it. With 16 bytes the end byte is then kept as a checksum,
      and the reader goes on waiting. */
  lemma ClashIsLost(r: Reader, m: seq<byte>, max: nat)
    requires !Halted(r, max) && |m| + 2 < max
    requires Clash(Reader(InMessage, [], r.lastEsc), Seal(m))
    ensures var end := Read(r, Frame(Seal(m)), max);
      && Length(end) == 0
      && if |m| == 16 then end.phase.InMessage? && |end.msg| == 19 else end.phase.Ended?
  {
    var mid := ReadFrame(r, Seal(m), max);
    var end, i := ReadClashingBody(Reader(InMessage, [], r.lastEsc), Seal(m), max);
    ClashingBodyFails(Seal(m), i, end, m);
    assert |end.msg| == |m| + 2;
  }

  lemma ClashingBodyFails(w: seq<byte>, i: nat, end: Reader, m: seq<byte>)
    requires w == Seal(m) && i < |w| && MustEscape(w[i]) && end.phase.InMessage?
    requires end.msg == w[..i] + [ESC, Flip(w[i])] + w[i + 1..]
    ensures Length(end) == 0 == Length(Take(end, ETX))
  {
    assert w == w[..i] + [w[i]] + w[i + 1..];
    SealSum(m);
    ClashSum(w[..i], w[i], w[i + 1..]);
    EtxCannotRepair(end);
  }

  /** Neither as it stands nor with an ETX kept as checksum does the message come out intact. */
  lemma EtxCannotRepair(r: Reader)
    requires r.phase.InMessage? && !Intact(r.msg) && (Sum(r.msg) + ETX) % 0x100 != 0xFF
    ensures Length(r) == 0 == Length(Take(r, ETX))
  {
    SumSnoc(r.msg, ETX);
  }

  lemma SealSum(m: seq<byte>)
    ensures Sum(Seal(m)) % 0x100 == 0xFF
  {
    SumSnoc(m, Crc(m));
  }

  lemma ClashSum(p: seq<byte>, b: byte, t: seq<byte>)
    requires MustEscape(b) && Intact(p + [b] + t)
    ensures var s := Sum(p + [ESC, Flip(b)] + t);
      s % 0x100 != 0xFF && (s + ETX) % 0x100 != 0xFF
  {
    assert p + [ESC, Flip(b)] == (p + [ESC]) + [Flip(b)];
    SumSnoc(p, ESC);
    SumSnoc(p + [ESC], Flip(b));
    SumSnoc(p, b);
    SumConcat(p + [ESC, Flip(b)], t);
    SumConcat(p + [b], t);
    NotIntact(Sum(p + [b] + t), Flip(b) - b);
  }

  lemma NotIntact(sum: nat, d: int)
    requires sum % 0x100 == 0xFF && (d == 32 || d == -32)
    ensures (sum + d + ESC) % 0x100 != 0xFF && (sum + d + ESC + ETX) % 0x100 != 0xFF
    ensures (sum + ETX) % 0x100 != 0xFF
  {
  }

  lemma {:induction false} FirstEscapeOfPrefix(w: seq<byte>, k: nat)
    requires k <= |w|
    ensures FirstEscape(w[..k]) == if FirstEscape(w) < k then FirstEscape(w) else k
  {
    if k == |w| {
      assert w[..k] == w;
    } else {
      var front := w[..|w| - 1];
      FirstEscapeOfPrefix(front, k);
      assert front[..k] == w[..k];
    }
  }

  /** What a full buffer holds of a body: all but its last byte decoded, and that one as it arrived. */
  function Cut(w: seq<byte>, max: nat): (msg: seq<byte>)
    requires 0 < max <= |w|
  {
    w[..max - 1] + [Code(w[max - 1])[0]]
  }

  lemma StuffSplitInside(w: seq<byte>, i: nat) returns (more: seq<byte>)
    requires i < |w|
    ensures Stuff(w) == Stuff(w[..i]) + ([Code(w[i])[0]] + more)
  {
    var c := Code(w[i]);
    StuffAround(w, i);
    more := c[1..] + Stuff(w[i + 1..]);
    assert c == [c[0]] + c[1..];
    Reassociate([c[0]], c[1..], Stuff(w[i + 1..]));
    Reassociate(Stuff(w[..i]), c, Stuff(w[i + 1..]));
  }

  lemma LastByteStored(r: Reader, b: byte, more: seq<byte>, max: nat)
    requires r.phase.InMessage? && !Pending(r) && b != STX && b != ETX && |r.msg| + 1 == max
    ensures Read(r, [b] + more, max) == Reader(InMessage, r.msg + [b], r.lastEsc)
  {
    ReadOne(r, b, max);
    TakeStored(r, b);
    ReadConcat(r, [b], more, max);
    HaltedStays(Take(r, b), more, max);
  }

  lemma ReadFront(r: Reader, w: seq<byte>, k: nat, max: nat) returns (mid: Reader)
    requires r.phase.InMessage? && r.msg == [] && !Clash(r, w) && k < max && k <= |w|
    ensures mid == Read(r, Stuff(w[..k]), max) && mid.phase.InMessage? && mid.msg == w[..k] && !Pending(mid)
  {
    FirstEscapeOfPrefix(w, k);
    mid := ReadBody(r, w[..k], max);
    assert r.msg + w[..k] == w[..k];
  }

  lemma ReadToFull(r: Reader, w: seq<byte>, max: nat) returns (end: Reader)
    requires r.phase.InMessage? && r.msg == [] && !Clash(r, w) && 0 < max <= |w|
    ensures end == Read(r, Stuff(w), max) && end.phase.InMessage? && end.msg == Cut(w, max)
  {
    var c := Code(w[max - 1])[0];
    var mid := ReadFront(r, w, max - 1, max);
    var more := StuffSplitInside(w, max - 1);
    LastByteStored(mid, c, more, max);
    ReadConcat(r, Stuff(w[..max - 1]), [c] + more, max);
    end := Reader(InMessage, mid.msg + [c], mid.lastEsc);
  }

  /** A sealed message that fills the buffer is cut off there, with an escape that is still to be
      resolved if one stands at the end; it is an error unless what was kept happens to sum to 0xFF. */
  lemma LongMessageIsCut(r: Reader, m: seq<byte>, tail: seq<byte>, max: nat)
    requires !Halted(r, max) && 0 < max <= |m| + 1 && !Clash(Reader(InMessage, [], r.lastEsc), Seal(m))
    ensures var end, kept := Read(r, Frame(Seal(m)) + tail, max), Cut(Seal(m), max);
      end.msg == kept && Length(end) == if Sum(kept) % 256 == 255 then max - 1 else 0
  {
    var mid := ReadFrame(r, Seal(m), max);
    var full := ReadToFull(Reader(InMessage, [], r.lastEsc), Seal(m), max);
    ReadConcat(r, Frame(Seal(m)), tail, max);
    HaltedStays(full, tail, max);
  }

  /** What the round trip needs: the message is not 17 bytes long, and its first escape does not sit
      where an abandoned message resolved its last one. */
  predicate Decodable(r: Reader, m: seq<byte>) {
    |m| != 17 && !Clash(Reader(InMessage, [], r.lastEsc), Seal(m))
  }

  /** The frame leaves the reader waiting, its end byte taken for a checksum. */
  predicate KeepsWaiting(r: Reader, m: seq<byte>) {
    if Clash(Reader(InMessage, [], r.lastEsc), Seal(m)) then |m| == 16 else |m| == 17
  }

  /** A sealed frame that is not decodable, on its own: an error, and whether the reader has ended. */
  lemma UndecodableFrame(r: Reader, m: seq<byte>, max: nat)
    requires |m| + 2 < max && !Halted(r, max) && !Decodable(r, m)
    ensures var end := Read(r, Frame(Seal(m)), max);
      && Length(end) == 0 && m != []
      && if KeepsWaiting(r, m) then end.phase.InMessage? && |end.msg| == 19 else end.phase.Ended?
  {
    if Clash(Reader(InMessage, [], r.lastEsc), Seal(m)) {
      ClashIsLost(r, m, max);
      assert m == [] ==> Seal(m) == [0xFF] && FirstEscape(Seal(m)) == 1;
    } else {
      SeventeenIsLost(r, m, max);
    }
  }

  /** A reader that holds a long message has a long one or an error to report until a new start. */
  lemma {:induction false} LongStaysLong(r: Reader, tail: seq<byte>, max: nat)
    requires STX !in tail && |r.msg| >= 19
    ensures |Read(r, tail, max).msg| >= 19
  {
    if tail != [] {
      LongStaysLong(r, tail[..|tail| - 1], max);
    }
  }

  lemma FrameReadExactly(r: Reader, m: seq<byte>, tail: seq<byte>, max: nat)
    requires |m| + 2 < max && !Halted(r, max)
    ensures var end := Read(r, Frame(Seal(m)) + tail, max);
      && (Decodable(r, m) ==> Returns(end, m))
      && (!Decodable(r, m) && (tail == [] || !KeepsWaiting(r, m)) ==> Length(end) == 0)
      && (STX !in tail ==> (Returns(end, m) <==> Decodable(r, m)))
  {
    if Decodable(r, m) {
      RoundTrip(r, m, tail, max);
    } else {
      var u := Read(r, Frame(Seal(m)), max);
      UndecodableFrame(r, m, max);
      ReadConcat(r, Frame(Seal(m)), tail, max);
      if u.phase.Ended? || tail == [] {
        HaltedStays(u, tail, max);
      } else if STX !in tail {
        LongStaysLong(u, tail, max);
      }
    }
  }

  /** The second decoder's round trip, exactly. After any bytes that leave the reader waiting, a sealed
      frame returns its message if it is decodable there, whatever follows. If it is not, and nothing
      with a start byte follows, its message is not returned; and the result is an error if the line
      falls silent, or whatever follows unless the frame leaves the reader waiting. */
  lemma SecondDecoderExactly(noise: seq<byte>, m: seq<byte>, tail: seq<byte>, max: nat)
    requires |m| + 2 < max && !Halted(Read(FRESH, noise, max), max)
    ensures var before := Read(FRESH, noise, max);
      var end := Read(FRESH, noise + Frame(Seal(m)) + tail, max);
      && (Decodable(before, m) ==> Returns(end, m))
      && (!Decodable(before, m) && (tail == [] || !KeepsWaiting(before, m)) ==> Length(end) == 0)
      && (STX !in tail ==> (Returns(end, m) <==> Decodable(before, m)))
  {
    Reassociate(noise, Frame(Seal(m)), tail);
    ReadConcat(FRESH, noise, Frame(Seal(m)) + tail, max);
    FrameReadExactly(Read(FRESH, noise, max), m, tail, max);
  }

  /** No byte with a meaning of its own in a frame. */
  predicate Plain(t: seq<byte>) {
    STX !in t && ETX !in t && ESC !in t
  }

  lemma {:induction false} ReadPlain(r: Reader, t: seq<byte>, max: nat)
    requires r.phase.InMessage? && !Pending(r) && Plain(t) && |r.msg| + |t| < max
    ensures var end := Read(r, t, max); end == Reader(InMessage, r.msg + t, r.lastEsc) && !Pending(end)
  {
    if t == [] {
      assert r.msg + t == r.msg;
    } else {
      var front, b := t[..|t| - 1], t[|t| - 1];
      assert b in t && forall x | x in front :: x in t;
      ReadPlain(r, front, max);
      var mid := Reader(InMessage, r.msg + front, r.lastEsc);
      TakeStored(mid, b);
      Reassociate(r.msg, front, [b]);
      assert t == front + [b];
    }
  }

  /** What becomes of a 17-byte message followed by plain bytes and an end byte: exactly when those
      bytes sum to 0x81 modulo 256, the reader returns a longer message that nobody sent. */
  lemma SeventeenThenNoise(m: seq<byte>, t: seq<byte>, max: nat)
    requires |m| == 17 && Plain(t) && |t| + 19 < max
    ensures var end := Read(FRESH, Frame(Seal(m)) + (t + [ETX]), max);
      && end.phase.Ended? && end.msg == Seal(m) + [ETX] + t
      && Length(end) == if Sum(t) % 0x100 == 0x81 then 18 + |t| else 0
  {
    var u := Read(FRESH, Frame(Seal(m)), max);
    SeventeenIsLost(FRESH, m, max);
    ReadConcat(FRESH, Frame(Seal(m)), t + [ETX], max);
    ReadPlain(u, t, max);
    ReadSnoc(u, t, ETX, max);
    GrownIntact(m, t);
  }

  lemma GrownIntact(m: seq<byte>, t: seq<byte>)
    ensures Intact(Seal(m) + [ETX] + t) <==> Sum(t) % 0x100 == 0x81
  {
    SealSum(m);
    SumConcat(Seal(m) + [ETX], t);
    SumSnoc(Seal(m), ETX);
    GrownSum(Sum(Seal(m)), Sum(t), Sum(Seal(m) + [ETX] + t));
  }

  lemma GrownSum(sealed: nat, t: nat, all: nat)
    requires sealed % 0x100 == 0xFF && all == sealed + ETX + t
    ensures all % 0x100 == 0xFF <==> t % 0x100 == 0x81
  {
  }

  /** For one: after any 17-byte message, a byte 0x81 and an end byte give 19 bytes that nobody sent. */
  lemma SeventeenCanGrow(m: seq<byte>, max: nat)
    requires |m| == 17 && max > 20
    ensures var end := Read(FRESH, Frame(Seal(m)) + [0x81, ETX], max);
      Length(end) == 19 && end.msg[..19] == Seal(m) + [ETX]
  {
    SumOne(0x81);
    SeventeenThenNoise(m, [0x81], max);
    assert [0x81] + [ETX] == [0x81, ETX];
    assert (Seal(m) + [ETX] + [0x81])[..19] == Seal(m) + [ETX];
  }

  lemma SumOne(b: byte)
    ensures Sum([b]) == b
  {
    SumSnoc([], b);
    assert [] + [b] == [b];
  }

  lemma {:induction false} NoiseIsIgnored(noise: seq<byte>, max: nat)
    requires STX !in noise && max > 0
    ensures Read(FRESH, noise, max) == FRESH
  {
    if noise != [] {
      NoiseIsIgnored(noise[..|noise| - 1], max);
    }
  }

  /** With no start byte in the noise there is nothing stale, so only the 17-byte case is left. */
  lemma SecondDecoderAfterNoise(noise: seq<byte>, m: seq<byte>, tail: seq<byte>, max: nat)
    requires STX !in noise && |m| + 1 < max && |m| != 17
    ensures Returns(Read(FRESH, noise + Frame(Seal(m)) + tail, max), m)
  {
    NoiseIsIgnored(noise, max);
    RoundTrip(FRESH, m, tail, max);
    Reassociate(noise, Frame(Seal(m)), tail);
    ReadConcat(FRESH, noise, Frame(Seal(m)) + tail, max);
  }

  /** What the workaround is for: an 18-byte message whose checksum 0x7F arrives unescaped. */
  lemma RawEtxChecksum(noise: seq<byte>, m: seq<byte>, tail: seq<byte>, max: nat)
    requires STX !in noise && |m| == ETX_WORKAROUND && Crc(m) == ETX && |m| + 1 < max
    ensures Returns(Read(FRESH, noise + ([STX] + Stuff(m) + [ETX, ETX] + tail), max), m)
  {
    NoiseIsIgnored(noise, max);
    var sent := Frame(m) + [ETX];
    assert [STX] + Stuff(m) + [ETX, ETX] == sent;
    ReadConcat(FRESH, noise, sent + tail, max);
    ReadConcat(FRESH, sent, tail, max);
    RawEtxFrame(m, max);
    HaltedStays(Read(FRESH, sent, max), tail, max);
    SealSum(m);
  }

  lemma RawEtxFrame(m: seq<byte>, max: nat)
    requires |m| == ETX_WORKAROUND && Crc(m) == ETX && |m| + 1 < max
    ensures var end := Read(FRESH, Frame(m) + [ETX], max); end.phase.Ended? && end.msg == Seal(m)
  {
    ReadSnoc(FRESH, Frame(m), ETX, max);
    var mid := ReadFrame(FRESH, m, max);
    var body := ReadBody(Reader(InMessage, [], -1), m, max);
    var none: seq<byte> := [];
    assert none + m == m;
    assert Take(body, ETX) == Reader(InMessage, Seal(m), body.lastEsc);
  }

  /** The stale position is a real loss: this abandoned start and this frame, in the 56-byte buffer
      the program uses, end in an error. */
  lemma AbandonedStartLosesMessage()
    ensures Length(Read(FRESH, [STX, ESC, 0x5E] + Frame(Seal([0x7E])), 56)) == 0
  {
    var noise := [STX] + [ESC, Flip(0x7E)];
    assert noise == [STX, ESC, 0x5E];
    ReadOne(FRESH, STX, 56);
    var started := Reader(InMessage, [], -1);
    var before := ReadEscaped(started, 0x7E, 56);
    ReadConcat(FRESH, [STX], [ESC, Flip(0x7E)], 56);
    SecondDecoderExactly(noise, [0x7E], [], 56);
    assert noise + Frame(Seal([0x7E])) + [] == noise + Frame(Seal([0x7E]));
    assert FirstEscape([0x7E, Crc([0x7E])]) == 0 by {
      FirstEscapeIsFirst([0x7E, Crc([0x7E])]);
    }
  }
}
