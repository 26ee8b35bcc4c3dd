/** lib/serial.c: byte stuffing, framing, and the in-place batch decoder. */
module Serial {
  import opened Bytes

  predicate MustEscape(b: byte) {
    b == 0x7E || b == 0x7D || b == 0x7F || b == 0x11 || b == 0x13
  }

  /** What one payload byte becomes on the wire. */
  function Code(b: byte): (c: seq<byte>)
  {
    if MustEscape(b) then [ESC, Flip(b)] else [b]
  }

  /** The body of a frame: every payload byte coded in turn. */
  function Stuff(p: seq<byte>): (s: seq<byte>)
  {
    if p == [] then [] else Stuff(p[..|p| - 1]) + Code(p[|p| - 1])
  }

  function Frame(p: seq<byte>): (f: seq<byte>)
  {
    [STX] + Stuff(p) + [ETX]
  }

  /** What a frame's body stands for; an escape with nothing after it stands for nothing. */
  function Unstuff(s: seq<byte>): (p: seq<byte>)
    ensures |p| <= |s|
  {
    if s == [] then []
    else if s[0] != ESC then [s[0]] + Unstuff(s[1..])
    else if |s| == 1 then []
    else [Flip(s[1])] + Unstuff(s[2..])
  }

  lemma Reassociate(x: seq<byte>, y: seq<byte>, z: seq<byte>)
    ensures (x + y) + z == x + (y + z)
  {
  }

  lemma StuffSnoc(p: seq<byte>, b: byte)
    ensures Stuff(p + [b]) == Stuff(p) + Code(b)
  {
    assert (p + [b])[..|p|] == p;
  }

  lemma {:induction false} StuffConcat(p: seq<byte>, q: seq<byte>)
    ensures Stuff(p + q) == Stuff(p) + Stuff(q)
  {
    if q == [] {
      assert p + q == p;
    } else {
      var front, b := q[..|q| - 1], q[|q| - 1];
      StuffConcat(p, front);
      assert p + q == (p + front) + [b];
      StuffSnoc(p + front, b);
      Reassociate(Stuff(p), Stuff(front), Code(b));
    }
  }

  /** No control byte and no flow-control byte (XON 0x11, XOFF 0x13) is left raw in a body. */
  lemma {:induction false} StuffIsTransparent(p: seq<byte>)
    ensures forall b | b in Stuff(p) :: b != STX && b != ETX && b != 0x11 && b != 0x13
    ensures |p| <= |Stuff(p)| <= 2 * |p|
  {
    if p != [] {
      StuffIsTransparent(p[..|p| - 1]);
    }
  }

  /** The payload bytes that the wire reserves: the control bytes, and XON and XOFF. */
  function Reserved(p: seq<byte>): (n: nat)
  {
    if p == [] then 0
    else Reserved(p[..|p| - 1]) + if p[|p| - 1] in {0x7D, 0x7E, 0x7F, 0x11, 0x13} then 1 else 0
  }

  lemma {:induction false} StuffLength(p: seq<byte>)
    ensures |Stuff(p)| == |p| + Reserved(p)
  {
    if p != [] {
      StuffLength(p[..|p| - 1]);
    }
  }

  predicate CodedAs(b: byte, c: seq<byte>) {
    if b in {0x7D, 0x7E, 0x7F, 0x11, 0x13} then c == [0x7D, if b >= 0x20 then b - 0x20 else b + 0x20]
    else c == [b]
  }

  lemma CodeOnWire(b: byte)
    ensures CodedAs(b, Code(b))
  {
  }

  lemma SliceOfMiddle(x: seq<byte>, y: seq<byte>, z: seq<byte>)
    ensures (x + y + z)[|x|..|x| + |y|] == y
  {
  }

  /** A frame starts with 0x7E, ends with 0x7F, and is one byte longer for every reserved byte. */
  lemma FrameOnWire(p: seq<byte>)
    ensures Frame(p) == [0x7E] + Stuff(p) + [0x7F] && |Frame(p)| == |p| + Reserved(p) + 2
  {
    StuffLength(p);
  }

  /** Inside it, each payload byte stands as it is, or, if it is reserved, as 0x7D and the byte with
      bit 5 toggled. */
  lemma ByteOnWire(p: seq<byte>, i: nat)
    requires i < |p|
    ensures var at := i + Reserved(p[..i]);
      at + |Code(p[i])| <= |Stuff(p)| && CodedAs(p[i], Stuff(p)[at..at + |Code(p[i])|])
  {
    StuffLength(p[..i]);
    StuffAround(p, i);
    SliceOfMiddle(Stuff(p[..i]), Code(p[i]), Stuff(p[i + 1..]));
    CodeOnWire(p[i]);
  }

  /** Every prefix of a body ends either between two coded bytes or just after an escape. */
  lemma {:induction false} StuffPrefix(p: seq<byte>, m: nat) returns (k: nat)
    requires m <= |Stuff(p)|
    ensures k <= |p|
    ensures Stuff(p)[..m] == Stuff(p[..k]) || (k < |p| && Stuff(p)[..m] == Stuff(p[..k]) + [ESC])
  {
    if p == [] || m == |Stuff(p)| {
      k := |p|;
      assert p[..k] == p;
    } else {
      var front := p[..|p| - 1];
      if m <= |Stuff(front)| {
        k := StuffPrefix(front, m);
        assert front[..k] == p[..k];
      } else {
        k := |p| - 1;
        assert Stuff(p)[..m] == Stuff(front) + [ESC];
      }
    }
  }

  lemma UnstuffCode(b: byte, t: seq<byte>)
    ensures Unstuff(Code(b) + t) == [b] + Unstuff(t)
  {
    assert (Code(b) + t)[|Code(b)|..] == t;
  }

  lemma {:induction false} UnstuffAfter(p: seq<byte>, t: seq<byte>)
    ensures Unstuff(Stuff(p) + t) == p + Unstuff(t)
  {
    if p == [] {
      assert Stuff(p) + t == t;
    } else {
      var front, b := p[..|p| - 1], p[|p| - 1];
      Reassociate(Stuff(front), Code(b), t);
      UnstuffAfter(front, Code(b) + t);
      UnstuffCode(b, t);
      Reassociate(front, [b], Unstuff(t));
      assert p == front + [b];
    }
  }

  /** Batch round trip: unstuffing undoes stuffing, for every payload. */
  lemma UnstuffUndoesStuff(p: seq<byte>)
    ensures Unstuff(Stuff(p)) == p
  {
    UnstuffAfter(p, []);
    assert Stuff(p) + [] == Stuff(p);
  }

  /** The three ways in which the tail of a body starts. */
  lemma UnstuffTail(s: seq<byte>, k: nat)
    requires k < |s|
    ensures s[k] != ESC ==> Unstuff(s[k..]) == [s[k]] + Unstuff(s[k + 1..])
    ensures s[k] == ESC && k + 1 < |s| ==> Unstuff(s[k..]) == [Flip(s[k + 1])] + Unstuff(s[k + 2..])
    ensures s[k] == ESC && k + 1 == |s| ==> Unstuff(s[k..]) == []
  {
    var t := s[k..];
    assert t[1..] == s[k + 1..];
    assert |t| > 1 ==> t[2..] == s[k + 2..];
  }

  lemma OneLonger(p: seq<byte>, i: nat)
    requires i < |p|
    ensures p[..i + 1] == p[..i] + [p[i]]
  {
  }

  /** A body, split around the code of one payload byte. */
  lemma {:induction false} StuffAround(p: seq<byte>, i: nat)
    requires i < |p|
    ensures Stuff(p) == Stuff(p[..i]) + Code(p[i]) + Stuff(p[i + 1..])
  {
    OneLonger(p, i);
    StuffSnoc(p[..i], p[i]);
    StuffConcat(p[..i + 1], p[i + 1..]);
    assert p == p[..i + 1] + p[i + 1..];
  }

  /** The payload bytes done so far and the rest of the body make up what is wanted. */
  ghost predicate Splits(done: seq<byte>, body: seq<byte>, k: nat, want: seq<byte>) {
    k <= |body| && done + Unstuff(body[k..]) == want
  }

  lemma SplitsAtStart(body: seq<byte>)
    ensures Splits([], body, 0, Unstuff(body))
  {
    assert body[0..] == body;
  }

  lemma SplitsAtEnd(done: seq<byte>, body: seq<byte>, want: seq<byte>)
    requires Splits(done, body, |body|, want)
    ensures done == want
  {
  }

  /** The next unit of a body moves one payload byte over; a dangling escape moves none. */
  lemma UnstuffUnit(done: seq<byte>, body: seq<byte>, k: nat, want: seq<byte>)
    requires k < |body| && Splits(done, body, k, want)
    ensures body[k] != ESC ==> Splits(done + [body[k]], body, k + 1, want)
    ensures body[k] == ESC && k + 1 < |body| ==> Splits(done + [Flip(body[k + 1])], body, k + 2, want)
    ensures body[k] == ESC && k + 1 == |body| ==> done == want
  {
    UnstuffTail(body, k);
    if body[k] != ESC {
      Reassociate(done, [body[k]], Unstuff(body[k + 1..]));
    } else if k + 1 < |body| {
      Reassociate(done, [Flip(body[k + 1])], Unstuff(body[k + 2..]));
    } else {
      assert done + [] == done;
    }
  }

  /** The same while decoding, where a dangling escape ends one index too far with one byte too many. */
  ghost predicate Progress(done: seq<byte>, body: seq<byte>, k: nat, want: seq<byte>) {
    if k <= |body| then Splits(done, body, k, want)
    else k == |body| + 1 && done != [] && done[..|done| - 1] == want
  }

  lemma UnitDone(done: seq<byte>, body: seq<byte>, k: nat, want: seq<byte>, b: byte, next: nat)
    requires k < |body| && Progress(done, body, k, want)
    requires if body[k] == ESC then next == k + 2 && (next <= |body| ==> b == Flip(body[k + 1]))
             else next == k + 1 && b == body[k]
    ensures Progress(done + [b], body, next, want)
  {
    UnstuffUnit(done, body, k, want);
    assert (done + [b])[..|done|] == done;
  }

  method SerialFrameOverhead(src: array<byte>, len: nat) returns (off: nat)
    requires len <= src.Length
    ensures off == |Frame(src[..len])| - len
  {
    off := 2;
    for i := 0 to len
      invariant off == 2 + |Stuff(src[..i])| - i
    {
      StuffSnoc(src[..i], src[i]);
      assert src[..i + 1] == src[..i] + [src[i]];
      if MustEscape(src[i]) {
        off := off + 1;
      }
    }
  }

  /** One more payload byte: its code fits in front of what is still to be written. */
  lemma StuffStep(p: seq<byte>, i: nat)
    requires i < |p|
    ensures Stuff(p[..i + 1]) == Stuff(p[..i]) + Code(p[i])
    ensures |Stuff(p[..i])| + |Code(p[i])| <= |Stuff(p)|
  {
    StuffAround(p, i);
    StuffSnoc(p[..i], p[i]);
    OneLonger(p, i);
  }

  /** Writes one payload byte's code at dst[j..] and returns the index after it. */
  method PutCode(b: byte, dst: array<byte>, j: nat) returns (next: nat)
    requires j + |Code(b)| <= dst.Length
    modifies dst
    ensures next == j + |Code(b)| && dst[..next] == old(dst[..j]) + Code(b)
    ensures forall k | next <= k < dst.Length :: dst[k] == old(dst[k])
  {
    next := j;
    var c := b;
    if MustEscape(b) {
      dst[next] := ESC;
      next := next + 1;
      c := Flip(b);
    }
    dst[next] := c;
    next := next + 1;
  }

  method SerialFrame(src: array<byte>, len: nat, dst: array<byte>)
    requires len <= src.Length && src != dst
    requires |Frame(src[..len])| <= dst.Length
    modifies dst
    ensures dst[..|Frame(src[..len])|] == Frame(src[..len])
    ensures forall k | |Frame(src[..len])| <= k < dst.Length :: dst[k] == old(dst[k])
  {
    ghost var p := src[..len];
    dst[0] := STX;
    var j := 1;
    for i := 0 to len
      invariant j == 1 + |Stuff(p[..i])| && |Stuff(p[..i])| <= |Stuff(p)|
      invariant dst[..j] == [STX] + Stuff(p[..i])
      invariant forall k | j <= k < dst.Length :: dst[k] == old(dst[k])
    {
      StuffStep(p, i);
      ghost var done := dst[..j];
      j := PutCode(src[i], dst, j);
      assert dst[..j] == done + Code(p[i]);
      Reassociate([STX], Stuff(p[..i]), Code(p[i]));
    }
    assert p[..len] == p;
    ghost var done := dst[..j];
    dst[j] := ETX;
    j := j + 1;
    assert dst[..j] == done + [ETX];
  }

  /** Moves the unit at index i, decoded, to index j, and returns the index after it. */
  method MoveUnit(src: array<byte>, i: nat, j: nat, off: nat, ghost body: seq<byte>, ghost want: seq<byte>)
    returns (next: nat, count: nat)
    requires j < i <= |body| && i + 1 < src.Length && Progress(src[..j], body, i - 1, want)
    requires src[i] == body[i - 1] && (i < |body| ==> src[i + 1] == body[i])
    modifies src
    ensures i < next <= |body| + 2 && next - count == i - off + 1
    ensures Progress(src[..j + 1], body, next - 1, want)
    ensures forall k | j < k < src.Length :: src[k] == old(src[k])
  {
    ghost var done := src[..j];
    var b, at := src[i], i;
    count := off;
    if b == ESC {
      at := i + 1;
      b := Flip(src[at]);
      count := off + 1;
    }
    src[j] := b;
    next := at + 1;
    UnitDone(done, body, i - 1, want, b, at);
    assert src[..j + 1] == done + [b];
  }

  /** Decodes in place. The null reference of the C code is `ok == false`. Writes never overtake
      reads: everything from index n + 1 on is as it was. */
  method SerialUnframe(src: array<byte>, len: nat) returns (n: nat, ok: bool)
    requires len <= src.Length
    modifies src
    ensures ok <==> 0 < len && old(src[0]) == STX && old(src[len - 1]) == ETX
    ensures !ok ==> n == 0 && src[..] == old(src[..])
    ensures ok ==> n + 2 <= len && src[..n] == Unstuff(old(src[1..len - 1]))
    ensures ok ==> forall k | n < k < src.Length :: src[k] == old(src[k])
  {
    if len <= 0 || src[0] != STX || src[len - 1] != ETX {
      return 0, false;
    }
    ghost var body := src[1..len - 1];
    ghost var want := Unstuff(body);
    var i, j, off := 1, 0, 2;
    SplitsAtStart(body);
    assert src[..j] == [];
    while i < len - 1
      invariant 1 <= i <= len && j < i
      invariant forall k | j <= k < src.Length :: src[k] == old(src[k])
      invariant off == 2 + (i - 1 - j)
      invariant Progress(src[..j], body, i - 1, want)
    {
      assert src[i] == body[i - 1] && (i < |body| ==> src[i + 1] == body[i]);
      i, off := MoveUnit(src, i, j, off, body, want);
      j := j + 1;
    }
    n := len - off;
    ok := true;
    if i < len {
      SplitsAtEnd(src[..j], body, want);
    } else {
      assert src[..j][..j - 1] == src[..n];
    }
  }
}
