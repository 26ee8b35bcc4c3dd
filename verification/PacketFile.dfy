/** lib/file.c: the byte-at-a-time frame decoder, its packed integer state, and packet reading. */
module PacketFile {
  import opened Bytes
  import opened Serial

  // ----- the decoder as an algebraic machine -----

  datatype Rx =
    | Idle                      // waiting for a start of frame
    | Started                   // start of frame seen, no byte of the packet yet
    | Data(buf: seq<byte>)      // buf received so far
    | Escape(buf: seq<byte>)    // buf received so far, and then an escape
    | Done(buf: seq<byte>)      // a complete packet

  /** The states the decoder can be in: Data and Done always hold at least one byte. */
  predicate Proper(rx: Rx) {
    rx.Data? || rx.Done? ==> rx.buf != []
  }

  function Held(rx: Rx): (p: seq<byte>)
  {
    if rx.Idle? || rx.Started? then [] else rx.buf
  }

  function Step(rx: Rx, b: byte): (next: Rx)
    requires Proper(rx)
    ensures Proper(next)
  {
    match rx
    case Escape(buf) => Data(buf + [Flip(b)])
    case Started =>
      if b == ESC then Escape([]) else if b == STX then Started else if b == ETX then Idle else Data([b])
    case Data(buf) =>
      if b == ESC then Escape(buf) else if b == STX then Idle else if b == ETX then Done(buf) else Data(buf + [b])
    case _ => if b == STX then Started else rx
  }

  // ----- the packed integer state -----

  /** The `len` field that stands for a decoder state. */
  function Packed(rx: Rx): (len: int)
  {
    match rx
    case Idle => 0
    case Started => -500
    case Data(buf) => -|buf|
    case Escape(buf) => -1000 - |buf|
    case Done(buf) => |buf|
  }

  /** The longest packet that the packed state can tell from "start of frame seen". */
  const LONGEST: nat := 499

  predicate ValidRef(len: int, room: nat) {
    || 0 <= len <= room
    || len == -500
    || (-500 < len < 0 && -len <= room)
    || (len <= -1000 && -1000 - len <= room)
  }

  /** Reads a `len` field and the buffer it refers to as a decoder state. */
  function View(len: int, arr: seq<byte>): (rx: Rx)
    requires ValidRef(len, |arr|)
    ensures Proper(rx) && Packed(rx) == len && Held(rx) <= arr
  {
    if len <= -1000 then Escape(arr[..-1000 - len])
    else if len == -500 then Started
    else if len < 0 then Data(arr[..-len])
    else if len == 0 then Idle
    else Done(arr[..len])
  }

  ghost predicate Unambiguous(n: nat) {
    forall x: Rx, y: Rx | Proper(x) && Proper(y) && |Held(x)| <= n && |Held(y)| <= n && Packed(x) == Packed(y) ::
      |Held(x)| == |Held(y)| && (Held(x) == Held(y) ==> x == y)
  }

  /** The packed state is faithful for packets of up to n bytes exactly when n is below 500;
      the 256 that the source documents is well inside. */
  lemma CodeIsFaithfulBelow500(n: nat)
    ensures Unambiguous(n) <==> n <= LONGEST
  {
    if n > LONGEST {
      var x, y := Started, Data(seq(500, _ => 0));
      assert Packed(x) == Packed(y);
    }
  }

  /** One byte into the packed decoder: it does to `len` and the buffer what Step does to the state. */
  method PacketGet(fr: int, arr: array<byte>, b: byte) returns (len: int)
    requires ValidRef(fr, arr.Length)
    requires |Held(Step(View(fr, arr[..]), b))| <= Min(arr.Length, LONGEST)
    modifies arr
    ensures ValidRef(len, arr.Length)
    ensures View(len, arr[..]) == Step(View(fr, old(arr[..])), b)
    ensures forall k | |Held(View(fr, old(arr[..])))| < k < arr.Length :: arr[k] == old(arr[k])
  {
    len := fr;
    if len <= -1000 {
      len := len + 1000;
      arr[-len] := Flip(b);
      len := len - 1;
    } else if len == -500 {
      if b == ESC {
        len := -1000;
      } else if b == STX {
      } else if b == ETX {
        len := 0;
      } else {
        len := -1;
        arr[0] := b;
      }
    } else if len < 0 {
      if b == ESC {
        len := len - 1000;
      } else if b == STX {
        len := 0;
      } else if b == ETX {
        len := -len;
      } else {
        arr[-len] := b;
        len := len - 1;
      }
    } else if b == STX {
      len := -500;
    }
  }

  // ----- a whole stream of bytes -----

  /** A decoder that is reset whenever it completes a packet, and the packets completed so far. */
  datatype Link = Link(rx: Rx, packets: seq<seq<byte>>)

  predicate Open(l: Link) {
    Proper(l.rx) && !l.rx.Done?
  }

  function Receive(l: Link, b: byte): (next: Link)
    requires Open(l)
    ensures Open(next)
  {
    var rx := Step(l.rx, b);
    if rx.Done? then Link(Idle, l.packets + [rx.buf]) else Link(rx, l.packets)
  }

  function Feed(l: Link, bs: seq<byte>): (next: Link)
    requires Open(l)
    ensures Open(next)
  {
    if bs == [] then l else Receive(Feed(l, bs[..|bs| - 1]), bs[|bs| - 1])
  }

  const START: Link := Link(Idle, [])

  lemma FeedSnoc(l: Link, bs: seq<byte>, b: byte)
    requires Open(l)
    ensures Feed(l, bs + [b]) == Receive(Feed(l, bs), b)
  {
    assert (bs + [b])[..|bs|] == bs;
  }

  lemma {:induction false} FeedConcat(l: Link, xs: seq<byte>, ys: seq<byte>)
    requires Open(l)
    ensures Feed(l, xs + ys) == Feed(Feed(l, xs), ys)
  {
    if ys == [] {
      assert xs + ys == xs;
    } else {
      var front, b := ys[..|ys| - 1], ys[|ys| - 1];
      FeedConcat(l, xs, front);
      assert xs + ys == (xs + front) + [b];
      FeedSnoc(l, xs + front, b);
    }
  }

  lemma FeedOne(l: Link, b: byte)
    requires Open(l)
    ensures Feed(l, [b]) == Receive(l, b)
  {
    assert [b][..0] == [];
  }

  /** Packets already delivered have no influence on what follows. */
  lemma {:induction false} FeedKeeps(l: Link, bs: seq<byte>)
    requires Open(l)
    ensures Feed(l, bs) == Link(Feed(Link(l.rx, []), bs).rx, l.packets + Feed(Link(l.rx, []), bs).packets)
  {
    if bs != [] {
      FeedKeeps(l, bs[..|bs| - 1]);
    }
  }

  // ----- bodies -----

  /** A body that the streaming decoder reads to its end: no raw STX or ETX outside an escape, and
      no escape left dangling. */
  predicate Clean(s: seq<byte>) {
    if s == [] then true
    else if s[0] == ESC then |s| >= 2 && Clean(s[2..])
    else s[0] != STX && s[0] != ETX && Clean(s[1..])
  }

  lemma CleanCode(b: byte, t: seq<byte>)
    requires Clean(t)
    ensures Clean(Code(b) + t)
  {
    assert (Code(b) + t)[|Code(b)|..] == t;
  }

  lemma {:induction false} StuffIsClean(p: seq<byte>, t: seq<byte>)
    requires Clean(t)
    ensures Clean(Stuff(p) + t)
  {
    if p == [] {
      assert Stuff(p) + t == t;
    } else {
      var c := Code(p[|p| - 1]);
      CleanCode(p[|p| - 1], t);
      StuffIsClean(p[..|p| - 1], c + t);
      Reassociate(Stuff(p[..|p| - 1]), c, t);
    }
  }

  function Grow(rx: Rx, p: seq<byte>): (next: Rx)
    requires rx.Started? || (rx.Data? && rx.buf != [])
    ensures next.Started? || (next.Data? && next.buf != [])
  {
    if p == [] then rx else Data(Held(rx) + p)
  }

  /** The first n bytes of s stand for b: one byte alone, or a pair that starts with an escape. */
  predicate StandsFor(s: seq<byte>, n: nat, b: byte) {
    && n <= |s|
    && if n == 2 then s[0] == ESC && b == Flip(s[1])
       else n == 1 && b == s[0] && b != ESC && b != STX && b != ETX
  }

  lemma FeedPair(l: Link, b: byte)
    requires l.rx.Started? || (l.rx.Data? && l.rx.buf != [])
    ensures Feed(l, [ESC, b]) == Link(Data(Held(l.rx) + [Flip(b)]), l.packets)
  {
    FeedOne(l, ESC);
    FeedSnoc(l, [ESC], b);
    assert [ESC, b] == [ESC] + [b];
  }

  /** Inside a packet, the bytes that stand for b add b to what is held. */
  lemma FeedUnit(l: Link, s: seq<byte>, n: nat, b: byte)
    requires l.rx.Started? || (l.rx.Data? && l.rx.buf != [])
    requires StandsFor(s, n, b)
    ensures Feed(l, s[..n]) == Link(Data(Held(l.rx) + [b]), l.packets)
  {
    if n == 2 {
      assert s[..2] == [ESC, s[1]];
      FeedPair(l, s[1]);
    } else {
      assert s[..1] == [b];
      FeedOne(l, b);
    }
  }

  /** Inside a packet, a clean body adds exactly what the batch decoder makes of it. */
  lemma {:induction false} FeedClean(l: Link, s: seq<byte>)
    requires l.rx.Started? || (l.rx.Data? && l.rx.buf != [])
    requires Clean(s)
    ensures Feed(l, s) == Link(Grow(l.rx, Unstuff(s)), l.packets)
    decreases |s|
  {
    if s != [] {
      var n := if s[0] == ESC then 2 else 1;
      var b := if s[0] == ESC then Flip(s[1]) else s[0];
      assert s == s[..n] + s[n..];
      FeedConcat(l, s[..n], s[n..]);
      FeedUnit(l, s, n, b);
      FeedClean(Feed(l, s[..n]), s[n..]);
      Reassociate(Held(l.rx), [b], Unstuff(s[n..]));
    }
  }

  lemma FeedStuffed(l: Link, p: seq<byte>)
    requires l.rx.Started? || (l.rx.Data? && l.rx.buf != [])
    ensures Feed(l, Stuff(p)) == Link(Grow(l.rx, p), l.packets)
  {
    StuffIsClean(p, []);
    assert Stuff(p) + [] == Stuff(p);
    UnstuffUndoesStuff(p);
    FeedClean(l, Stuff(p));
  }

  /** With no start of frame in it, line noise leaves an idle decoder idle. */
  lemma {:induction false} IdleIgnores(l: Link, bs: seq<byte>)
    requires l.rx.Idle? && STX !in bs
    ensures Feed(l, bs) == l
  {
    if bs != [] {
      IdleIgnores(l, bs[..|bs| - 1]);
    }
  }

  // ----- frames -----

  /** The rest of a frame inside a packet completes it with the payload added, unless that is empty. */
  lemma {:induction false} RestOfFrame(l: Link, p: seq<byte>)
    requires l.rx.Started? || (l.rx.Data? && l.rx.buf != [])
    ensures var packet := Held(l.rx) + p;
      Feed(l, Stuff(p) + [ETX]) == Link(Idle, l.packets + if packet == [] then [] else [packet])
  {
    FeedSnoc(l, Stuff(p), ETX);
    FeedStuffed(l, p);
    var none: seq<byte> := [];
    assert Held(l.rx) + none == Held(l.rx);
    assert l.packets + [] == l.packets;
  }

  lemma {:induction false} RestOfFrameIgnored(l: Link, p: seq<byte>)
    requires l.rx.Idle?
    ensures Feed(l, Stuff(p) + [ETX]) == l
  {
    StuffIsTransparent(p);
    IdleIgnores(l, Stuff(p) + [ETX]);
  }

  /** The packets that one frame's bytes complete, by the state they arrive in. */
  function Completed(rx: Rx, p: seq<byte>): (packets: seq<seq<byte>>)
  {
    match rx
    case Data(buf) => []                           // the STX is a framing error: frame lost
    case Escape(buf) => [buf + [Flip(STX)] + p]    // the STX is taken for an escaped byte
    case _ => if p == [] then [] else [p]
  }

  /** Resynchronisation: whatever state a frame arrives in, its last byte leaves the decoder idle;
      from idle, a non-empty frame delivers its payload and nothing else. */
  lemma {:induction false} AnyFrameResynchronises(l: Link, p: seq<byte>)
    requires Open(l)
    ensures Feed(l, Frame(p)) == Link(Idle, l.packets + Completed(l.rx, p))
  {
    var l1 := Receive(l, STX);
    assert Feed(l, Frame(p)) == Feed(l1, Stuff(p) + [ETX]) by {
      Reassociate([STX], Stuff(p), [ETX]);
      FeedConcat(l, [STX], Stuff(p) + [ETX]);
      FeedOne(l, STX);
    }
    if l.rx.Data? {
      RestOfFrameIgnored(l1, p);
      assert l.packets + [] == l.packets;
    } else {
      RestOfFrame(l1, p);
      var none: seq<byte> := [];
      assert none + p == p;
    }
  }

  /** Two frames after any noise: at worst the first is lost, the second always arrives. */
  lemma {:induction false} SecondFrameArrives(noise: seq<byte>, p: seq<byte>, q: seq<byte>)
    requires q != []
    ensures var before := Feed(START, noise);
      Feed(START, noise + Frame(p) + Frame(q))
        == Link(Idle, before.packets + Completed(before.rx, p) + [q])
  {
    var before := Feed(START, noise);
    FeedConcat(START, noise + Frame(p), Frame(q));
    FeedConcat(START, noise, Frame(p));
    AnyFrameResynchronises(before, p);
    AnyFrameResynchronises(Feed(before, Frame(p)), q);
  }

  function Frames(ps: seq<seq<byte>>): (bs: seq<byte>)
  {
    if ps == [] then [] else Frames(ps[..|ps| - 1]) + Frame(ps[|ps| - 1])
  }

  function NonEmpty(ps: seq<seq<byte>>): (qs: seq<seq<byte>>)
  {
    if ps == [] then []
    else NonEmpty(ps[..|ps| - 1]) + if ps[|ps| - 1] == [] then [] else [ps[|ps| - 1]]
  }

  /** Whole-stream round trip: an idle decoder gets back every non-empty packet of a stream of
      frames, in order, and is idle again. */
  lemma {:induction false} StreamRoundTrip(l: Link, ps: seq<seq<byte>>)
    requires l.rx.Idle?
    ensures Feed(l, Frames(ps)) == Link(Idle, l.packets + NonEmpty(ps))
  {
    if ps == [] {
      assert l.packets + NonEmpty(ps) == l.packets;
    } else {
      var front, p := ps[..|ps| - 1], ps[|ps| - 1];
      StreamRoundTrip(l, front);
      FeedConcat(l, Frames(front), Frame(p));
      AnyFrameResynchronises(Feed(l, Frames(front)), p);
    }
  }

  lemma FeedPartOfBody(l: Link, p: seq<byte>, m: nat)
    requires l.rx.Started? && m <= |Stuff(p)|
    ensures Feed(l, Stuff(p)[..m]).packets == l.packets
    ensures Held(Feed(l, Stuff(p)[..m]).rx) <= p
  {
    var k := StuffPrefix(p, m);
    FeedToEscape(l, p[..k]);
  }

  /** Inside a frame, after some payload bytes and perhaps the escape of the next one. */
  lemma FeedToEscape(l: Link, q: seq<byte>)
    requires l.rx.Started?
    ensures Feed(l, Stuff(q)).packets == Feed(l, Stuff(q) + [ESC]).packets == l.packets
    ensures Held(Feed(l, Stuff(q)).rx) == Held(Feed(l, Stuff(q) + [ESC]).rx) == q
  {
    FeedStuffed(l, q);
    FeedSnoc(l, Stuff(q), ESC);
    var none: seq<byte> := [];
    assert none + q == q;
  }

  /** Part of a frame, from idle: nothing is delivered, and no more than the payload is held. */
  lemma FramePrefix(l: Link, p: seq<byte>, m: nat)
    requires l.rx.Idle? && m < |Frame(p)|
    ensures Feed(l, Frame(p)[..m]).packets == l.packets
    ensures Held(Feed(l, Frame(p)[..m]).rx) <= p
  {
    if m > 0 {
      var part := Stuff(p)[..m - 1];
      assert Frame(p)[..m] == [STX] + part;
      FeedConcat(l, [STX], part);
      FeedOne(l, STX);
      FeedPartOfBody(Receive(l, STX), p, m - 1);
    }
  }

  /** ... each packet completes at its frame's own last byte: after m bytes of the next frame there
      are still only the packets of the frames before. */
  lemma StreamRoundTripNothingEarly(ps: seq<seq<byte>>, p: seq<byte>, m: nat)
    requires m < |Frame(p)|
    ensures Feed(START, Frames(ps) + Frame(p)[..m]).packets == NonEmpty(ps)
    ensures Held(Feed(START, Frames(ps) + Frame(p)[..m]).rx) <= p
  {
    StreamRoundTrip(START, ps);
    FeedConcat(START, Frames(ps), Frame(p)[..m]);
    FramePrefix(Feed(START, Frames(ps)), p, m);
  }

  // ----- intact packets -----

  /** The packets that pass the checksum, in order. */
  function Passing(ps: seq<seq<byte>>): (qs: seq<seq<byte>>)
  {
    if ps == [] then []
    else Passing(ps[..|ps| - 1]) + if Intact(ps[|ps| - 1]) then [ps[|ps| - 1]] else []
  }

  lemma {:induction false} PassingConcat(xs: seq<seq<byte>>, ys: seq<seq<byte>>)
    ensures Passing(xs + ys) == Passing(xs) + Passing(ys)
  {
    if ys == [] {
      assert xs + ys == xs;
    } else {
      PassingConcat(xs, ys[..|ys| - 1]);
      assert (xs + ys)[..|xs + ys| - 1] == xs + ys[..|ys| - 1];
    }
  }

  lemma PassingOne(p: seq<byte>)
    ensures Passing([p]) == if Intact(p) then [p] else []
  {
    var none: seq<seq<byte>> := [];
    assert [p][..0] == none;
  }

  lemma {:induction false} PassingAreNonEmpty(ps: seq<seq<byte>>)
    ensures Passing(NonEmpty(ps)) == Passing(ps)
  {
    if ps != [] {
      var front, p := ps[..|ps| - 1], ps[|ps| - 1];
      PassingAreNonEmpty(front);
      PassingOne(p);
      PassingConcat(NonEmpty(front), [p]);
      assert NonEmpty(front) + [] == NonEmpty(front);
      assert Passing(front) + [] == Passing(front);
    }
  }

  /** What a reader that discards corrupted packets gets out of a byte stream. */
  function Replies(bs: seq<byte>): (packets: seq<seq<byte>>)
  {
    Passing(Feed(START, bs).packets)
  }

  /** One more byte adds a reply exactly when it completes an intact packet. */
  lemma RepliesSnoc(bs: seq<byte>, b: byte)
    ensures var next := Step(Feed(START, bs).rx, b);
      Replies(bs + [b]) == Replies(bs) + if next.Done? && Intact(next.buf) then [next.buf] else []
  {
    var l := Feed(START, bs);
    var next := Step(l.rx, b);
    FeedSnoc(START, bs, b);
    assert Passing(l.packets) + [] == Passing(l.packets);
    if next.Done? {
      PassingConcat(l.packets, [next.buf]);
      PassingOne(next.buf);
    }
  }

  lemma RepliesOfFrames(ps: seq<seq<byte>>)
    ensures Replies(Frames(ps)) == Passing(ps)
  {
    assert START.packets + NonEmpty(ps) == NonEmpty(ps);
    StreamRoundTrip(START, ps);
    PassingAreNonEmpty(ps);
  }

  /** A frame whose packet differs from an intact one in a single byte adds no reply. */
  lemma CorruptedFrameIsDropped(ps: seq<seq<byte>>, p: seq<byte>, i: nat, b: byte)
    requires Intact(p) && i < |p| && b != p[i]
    ensures Replies(Frames(ps + [p[i := b]])) == Replies(Frames(ps))
  {
    RepliesOfFrames(ps);
    RepliesOfFrames(ps + [p[i := b]]);
    CorruptionCaught(p, i, b);
    PassingConcat(ps, [p[i := b]]);
    PassingOne(p[i := b]);
  }

  /** From the second frame after any noise on, no intact packet is missed. */
  lemma {:induction false} RepliesAfterNoise(noise: seq<byte>, p: seq<byte>, ps: seq<seq<byte>>)
    ensures var before := Feed(START, noise);
      Replies(noise + Frame(p) + Frames(ps))
        == Passing(before.packets + Completed(before.rx, p)) + Passing(ps)
  {
    var before := Feed(START, noise);
    FeedConcat(START, noise + Frame(p), Frames(ps));
    FeedConcat(START, noise, Frame(p));
    AnyFrameResynchronises(before, p);
    StreamRoundTrip(Feed(before, Frame(p)), ps);
    PassingConcat(before.packets + Completed(before.rx, p), NonEmpty(ps));
    PassingAreNonEmpty(ps);
  }

  /** Whenever the decoder is idle, the replies split there. */
  lemma {:induction false} RepliesSplit(xs: seq<byte>, ys: seq<byte>)
    requires Feed(START, xs).rx.Idle?
    ensures Replies(xs + ys) == Replies(xs) + Replies(ys)
    ensures Feed(START, xs + ys).rx == Feed(START, ys).rx
  {
    var l := Feed(START, xs);
    FeedConcat(START, xs, ys);
    FeedKeeps(l, ys);
    PassingConcat(l.packets, Feed(START, ys).packets);
  }

  /** How many bytes of a packet are held after n bytes of a stream. */
  function HeldAfter(bs: seq<byte>, n: nat): (k: nat)
    requires n <= |bs|
  {
    |Held(Feed(START, bs[..n]).rx)|
  }

  /** The C buffer has no bounds check: the stream must never make the decoder hold more. */
  ghost predicate Fits(bs: seq<byte>, room: nat) {
    forall n: nat | n <= |bs| :: HeldAfter(bs, n) <= room
  }

  lemma FeedNext(bs: seq<byte>, n: nat)
    requires n < |bs|
    ensures var next := Step(Feed(START, bs[..n]).rx, bs[n]);
      Feed(START, bs[..n + 1]).rx == if next.Done? then Idle else next
  {
    assert bs[..n + 1] == bs[..n] + [bs[n]];
    FeedSnoc(START, bs[..n], bs[n]);
  }

  lemma RoomForNext(bs: seq<byte>, room: nat, n: nat)
    requires Fits(bs, room) && n < |bs|
    ensures |Held(Step(Feed(START, bs[..n]).rx, bs[n]))| <= room
  {
    FeedNext(bs, n);
    FitsAt(bs, room, n);
    FitsAt(bs, room, n + 1);
  }

  /** Reading byte n of a stream in which no reply was complete before it. */
  lemma ReadOne(bs: seq<byte>, room: nat, n: nat) returns (next: Rx)
    requires Fits(bs, room) && n < |bs| && Replies(bs[..n]) == []
    ensures next == Step(Feed(START, bs[..n]).rx, bs[n]) && |Held(next)| <= room
    ensures Feed(START, bs[..n + 1]).rx == if next.Done? then Idle else next
    ensures Replies(bs[..n + 1]) == if next.Done? && Intact(next.buf) then [next.buf] else []
  {
    next := Step(Feed(START, bs[..n]).rx, bs[n]);
    FeedNext(bs, n);
    RoomForNext(bs, room, n);
    assert bs[..n + 1] == bs[..n] + [bs[n]];
    RepliesSnoc(bs[..n], bs[n]);
  }

  lemma FitsAt(bs: seq<byte>, room: nat, n: nat)
    requires Fits(bs, room) && n <= |bs|
    ensures |Held(Feed(START, bs[..n]).rx)| <= room
  {
    assert HeldAfter(bs, n) <= room;
  }

  lemma {:induction false} HeldInRest(bs: seq<byte>, n: nat, m: nat)
    requires n + m <= |bs| && Feed(START, bs[..n]).rx.Idle?
    ensures HeldAfter(bs[n..], m) == HeldAfter(bs, n + m)
  {
    assert bs[..n + m] == bs[..n] + bs[n..][..m];
    RepliesSplit(bs[..n], bs[n..][..m]);
  }

  lemma {:induction false} FitsRest(bs: seq<byte>, room: nat, n: nat)
    requires Fits(bs, room) && n <= |bs| && Feed(START, bs[..n]).rx.Idle?
    ensures Fits(bs[n..], room)
  {
    forall m: nat | m <= |bs[n..]|
      ensures HeldAfter(bs[n..], m) <= room
    {
      HeldInRest(bs, n, m);
      FitsAt(bs, room, n + m);
    }
  }

  lemma PrefixOfConcat(x: seq<byte>, y: seq<byte>, n: nat)
    requires n <= |x + y|
    ensures n <= |x| ==> (x + y)[..n] == x[..n]
    ensures n >= |x| ==> (x + y)[..n] == x + y[..n - |x|]
  {
  }

  lemma {:induction false} OneMoreFrameFits(ps: seq<seq<byte>>, p: seq<byte>, room: nat, n: nat)
    requires Fits(Frames(ps), room) && |p| <= room && n <= |Frames(ps) + Frame(p)|
    ensures |Held(Feed(START, (Frames(ps) + Frame(p))[..n]).rx)| <= room
  {
    var len := |Frames(ps)|;
    PrefixOfConcat(Frames(ps), Frame(p), n);
    if n <= len {
      FitsAt(Frames(ps), room, n);
    } else if n < len + |Frame(p)| {
      StreamRoundTripNothingEarly(ps, p, n - len);
    } else {
      assert Frame(p)[..n - len] == Frame(p);
      StreamRoundTrip(START, ps);
      FeedConcat(START, Frames(ps), Frame(p));
      AnyFrameResynchronises(Feed(START, Frames(ps)), p);
    }
  }

  /** Streams of frames fit whenever every payload does. */
  lemma {:induction false} FramesFit(ps: seq<seq<byte>>, room: nat)
    requires forall p | p in ps :: |p| <= room
    ensures Fits(Frames(ps), room)
  {
    if ps != [] {
      var front, p := ps[..|ps| - 1], ps[|ps| - 1];
      assert p in ps && forall q | q in front :: q in ps;
      FramesFit(front, room);
      forall n: nat | n <= |Frames(ps)|
        ensures HeldAfter(Frames(ps), n) <= room
      {
        OneMoreFrameFits(front, p, room, n);
      }
    }
  }

  method Checksum(pkt: array<byte>, len: nat) returns (sum: nat)
    requires len <= pkt.Length
    ensures sum == Sum(pkt[..len])
  {
    sum := 0;
    for i := 0 to len
      invariant sum == Sum(pkt[..i])
    {
      assert pkt[..i + 1] == pkt[..i] + [pkt[i]];
      SumSnoc(pkt[..i], pkt[i]);
      sum := sum + pkt[i];
    }
  }

  /** One byte of a stream in which no reply was complete before it. A positive length is a complete
      packet, after which the decoder counts as reset. */
  method ReadByte(input: seq<byte>, used: nat, b: int, arr: array<byte>) returns (len: int)
    requires Fits(input, Min(arr.Length, LONGEST)) && used < |input|
    requires ValidRef(b, arr.Length) && View(b, arr[..]) == Feed(START, input[..used]).rx
    requires Replies(input[..used]) == []
    modifies arr
    ensures ValidRef(len, arr.Length)
    ensures len <= 0 ==> View(len, arr[..]) == Feed(START, input[..used + 1]).rx && Replies(input[..used + 1]) == []
    ensures len > 0 ==> Feed(START, input[..used + 1]).rx == Idle
    ensures len > 0 ==> Replies(input[..used + 1]) == if Intact(arr[..len]) then [arr[..len]] else []
  {
    ghost var next := ReadOne(input, Min(arr.Length, LONGEST), used);
    len := PacketGet(b, arr, input[used]);
    assert next.Done? <==> len > 0;
  }

  /** One turn of the reading loop: a byte, and for a complete packet the checksum, after which a
      corrupted one is forgotten. */
  method ReadTurn(input: seq<byte>, used: nat, b: int, arr: array<byte>) returns (len: int, found: bool)
    requires Fits(input, Min(arr.Length, LONGEST)) && used < |input|
    requires ValidRef(b, arr.Length) && View(b, arr[..]) == Feed(START, input[..used]).rx
    requires Replies(input[..used]) == []
    modifies arr
    ensures ValidRef(len, arr.Length)
    ensures View(if found then 0 else len, arr[..]) == Feed(START, input[..used + 1]).rx
    ensures found ==> len > 0 && Replies(input[..used + 1]) == [arr[..len]]
    ensures !found ==> Replies(input[..used + 1]) == []
  {
    len := ReadByte(input, used, b, arr);
    found := false;
    if len > 0 {
      var sum := Checksum(arr, len);
      if sum % 0x100 == 0xFF {
        found := true;
      } else {
        len := 0;
      }
    }
  }

  /** Reads bytes up to the first intact packet; the end of the input is the silence that makes the
      C function give up. `len == 0` is the null reference. On success the input has been read
      exactly up to the packet's last byte. */
  method FilePacketGet(input: seq<byte>, arr: array<byte>) returns (len: nat, used: nat)
    requires Fits(input, Min(arr.Length, LONGEST))
    modifies arr
    ensures used <= |input| && len <= arr.Length
    ensures len == 0 ==> used == |input| && Replies(input) == []
    ensures len > 0 ==> 0 < used && Replies(input[..used - 1]) == []
    ensures len > 0 ==> Replies(input[..used]) == [arr[..len]] && Feed(START, input[..used]).rx.Idle?
  {
    var b := 0;
    used := 0;
    while used < |input|
      invariant used <= |input| && ValidRef(b, arr.Length)
      invariant View(b, arr[..]) == Feed(START, input[..used]).rx
      invariant Replies(input[..used]) == []
    {
      var found;
      b, found := ReadTurn(input, used, b, arr);
      used := used + 1;
      if found {
        return b, used;
      }
    }
    assert input[..used] == input;
    len := 0;
  }
}
