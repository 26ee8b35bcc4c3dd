/** Where the decoders of lib/serial.c, lib/file.c and src/stream.c agree. */
module Agreement {
  import opened Bytes
  import opened Serial
  import opened PacketFile
  import Stream

  function Total(ps: seq<seq<byte>>): (n: nat)
  {
    if ps == [] then 0 else Total(ps[..|ps| - 1]) + |ps[|ps| - 1]|
  }

  lemma TotalSnoc(ps: seq<seq<byte>>, p: seq<byte>)
    ensures Total(ps + [p]) == Total(ps) + |p|
  {
    assert (ps + [p])[..|ps|] == ps;
  }

  /** Bytes decoded so far, delivered or still held. */
  function Weight(l: Link): (n: nat)
  {
    Total(l.packets) + |Held(l.rx)|
  }

  lemma HeldStep(rx: Rx, b: byte)
    requires Proper(rx) && !rx.Done?
    ensures var next := Step(rx, b);
      && |Held(next)| <= |Held(rx)| + 1
      && (next.Done? ==> Held(next) == Held(rx))
      && (b == ESC && !rx.Escape? ==> Held(next) == Held(rx))
      && ((b == STX || b == ETX) && !rx.Escape? ==> |Held(next)| <= |Held(rx)|)
  {
  }

  lemma WeightStep(l: Link, b: byte)
    requires Open(l)
    ensures var l' := Receive(l, b);
      && Weight(l') <= Weight(l) + 1 && Total(l'.packets) <= Weight(l)
      && ((b == STX || b == ETX || b == ESC) && !l.rx.Escape? ==> Weight(l') <= Weight(l))
  {
    var rx := Step(l.rx, b);
    HeldStep(l.rx, b);
    if rx.Done? {
      TotalSnoc(l.packets, rx.buf);
      assert Weight(Receive(l, b)) == Total(l.packets) + |rx.buf|;
    } else {
      assert Weight(Receive(l, b)) == Total(l.packets) + |Held(rx)|;
    }
  }

  /** The streaming decoder never gets more bytes out of a stretch than the batch decoder does. */
  lemma {:induction false} WeightBound(l: Link, s: seq<byte>)
    requires Open(l) && !l.rx.Escape?
    ensures Weight(Feed(l, s)) <= Weight(l) + |Unstuff(s)|
    decreases |s|
  {
    if s != [] {
      var n := if s[0] == ESC && |s| > 1 then 2 else 1;
      assert s == s[..n] + s[n..];
      FeedConcat(l, s[..n], s[n..]);
      FeedOne(l, s[0]);
      WeightStep(l, s[0]);
      if n == 2 {
        var l1 := Receive(l, ESC);
        assert s[..2] == [ESC] + [s[1]];
        FeedConcat(l, [ESC], [s[1]]);
        FeedOne(l1, s[1]);
        WeightStep(l1, s[1]);
        WeightBound(Feed(l, s[..2]), s[2..]);
      } else {
        assert s[..1] == [s[0]];
        if |s| > 1 {
          WeightBound(Receive(l, s[0]), s[1..]);
        }
      }
    }
  }

  /** A raw control byte inside a packet costs a byte: what is delivered is too short. */
  lemma {:induction false} RawControlDiffers(l: Link, s: seq<byte>)
    requires l.rx.Started? || (l.rx.Data? && l.rx.buf != [])
    requires s != [] && (s[0] == STX || s[0] == ETX)
    ensures Feed(l, s + [ETX]).packets != l.packets + [Held(l.rx) + Unstuff(s)]
  {
    var l1, end := Receive(l, s[0]), Feed(l, s);
    FeedOne(l, s[0]);
    assert s == [s[0]] + s[1..];
    FeedConcat(l, [s[0]], s[1..]);
    FeedSnoc(l, s, ETX);
    WeightStep(l, s[0]);
    WeightBound(l1, s[1..]);
    WeightStep(end, ETX);
    TotalSnoc(l.packets, Held(l.rx) + Unstuff(s));
  }

  lemma DanglingDiffers(l: Link)
    requires l.rx.Started? || (l.rx.Data? && l.rx.buf != [])
    ensures Feed(l, [ESC] + [ETX]).packets == l.packets
  {
    FeedSnoc(l, [ESC], ETX);
    FeedOne(l, ESC);
  }

  lemma FeedMovesOver(l: Link, s: seq<byte>, n: nat, b: byte)
    requires l.rx.Started? || (l.rx.Data? && l.rx.buf != [])
    requires StandsFor(s, n, b)
    ensures Feed(l, s + [ETX]) == Feed(Link(Data(Held(l.rx) + [b]), l.packets), s[n..] + [ETX])
  {
    FeedUnit(l, s, n, b);
    assert s == s[..n] + s[n..];
    Reassociate(s[..n], s[n..], [ETX]);
    FeedConcat(l, s[..n], s[n..] + [ETX]);
  }

  lemma UnstuffMovesOver(held: seq<byte>, s: seq<byte>, n: nat, b: byte)
    requires StandsFor(s, n, b)
    ensures held + [b] + Unstuff(s[n..]) == held + Unstuff(s)
  {
    Reassociate(held, [b], Unstuff(s[n..]));
  }

  lemma CleanMovesOver(s: seq<byte>, n: nat, b: byte)
    requires StandsFor(s, n, b)
    ensures Clean(s) == Clean(s[n..])
  {
  }

  /** Bytes at the front that stand for one payload byte only move it from the body to what is held. */
  lemma UnitMovesOver(l: Link, s: seq<byte>) returns (n: nat, l1: Link)
    requires l.rx.Started? || (l.rx.Data? && l.rx.buf != [])
    requires s != [] && s != [ESC] && s[0] != STX && s[0] != ETX
    ensures 1 <= n <= |s| && l1.packets == l.packets && l1.rx.Data? && l1.rx.buf != []
    ensures Held(l1.rx) + Unstuff(s[n..]) == Held(l.rx) + Unstuff(s)
    ensures Feed(l, s + [ETX]) == Feed(l1, s[n..] + [ETX])
    ensures Clean(s) == Clean(s[n..])
  {
    n := if s[0] == ESC then 2 else 1;
    var b := if s[0] == ESC then Flip(s[1]) else s[0];
    l1 := Link(Data(Held(l.rx) + [b]), l.packets);
    FeedMovesOver(l, s, n, b);
    UnstuffMovesOver(Held(l.rx), s, n, b);
    CleanMovesOver(s, n, b);
  }

  lemma {:induction false} UncleanDiffers(l: Link, s: seq<byte>)
    requires l.rx.Started? || (l.rx.Data? && l.rx.buf != [])
    requires !Clean(s)
    ensures Feed(l, s + [ETX]).packets != l.packets + [Held(l.rx) + Unstuff(s)]
    decreases |s|
  {
    if s == [ESC] {
      DanglingDiffers(l);
    } else if s[0] == STX || s[0] == ETX {
      RawControlDiffers(l, s);
    } else {
      var n, l1 := UnitMovesOver(l, s);
      UncleanDiffers(l1, s[n..]);
    }
  }

  /** On bytes framed by STX and ETX, the streaming decoder delivers one packet, the batch decoder's
      result, exactly when the body is not empty, holds no raw STX or ETX, and ends in no escape. */
  lemma DecodersAgreeExactly(s: seq<byte>)
    ensures Feed(START, [STX] + s + [ETX]).packets == [Unstuff(s)] <==> s != [] && Clean(s)
  {
    var l := Receive(START, STX);
    FeedOne(START, STX);
    assert [STX] + s + [ETX] == [STX] + (s + [ETX]);
    FeedConcat(START, [STX], s + [ETX]);
    FeedSnoc(l, s, ETX);
    assert Held(l.rx) + Unstuff(s) == Unstuff(s);
    assert l.packets + [Unstuff(s)] == [Unstuff(s)];
    if Clean(s) {
      FeedClean(l, s);
      if s != [] {
        UnstuffTail(s, 0);
        assert s[0..] == s;
      }
    } else {
      UncleanDiffers(l, s);
    }
  }

  /** What either sender puts on the wire for a message, either of the two other decoders reads back:
      lib/file.c with its checksum, src/stream.c without, unless it has 17 bytes. */
  lemma SealedFrameIsReadByBoth(m: seq<byte>, max: nat)
    requires |m| + 1 < max && |m| != 17
    ensures Replies(Frame(Seal(m))) == [Seal(m)]
    ensures Stream.Returns(Stream.Read(Stream.FRESH, Frame(Seal(m)), max), m)
  {
    var none: seq<seq<byte>> := [];
    assert Frames([Seal(m)]) == Frame(Seal(m)) by {
      assert [Seal(m)][..0] == none;
      assert Frames(none) + Frame(Seal(m)) == Frame(Seal(m));
    }
    RepliesOfFrames([Seal(m)]);
    PassingOne(Seal(m));
    IntactIsSealed(Seal(m));
    Stream.SecondDecoderAfterNoise([], m, [], max);
    assert [] + Frame(Seal(m)) + [] == Frame(Seal(m));
  }
}
