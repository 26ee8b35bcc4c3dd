/** Bytes, the frame's three control bytes, the running checksum, and the arithmetic of the C code. */
module Bytes {

  type byte = b: int | 0 <= b < 0x100
  type word = w: int | 0 <= w < 0x1_0000

  const ESC: byte := 0x7D
  const STX: byte := 0x7E
  const ETX: byte := 0x7F

  /** b ^ 0x20, written on integers: bit 5 is toggled. */
  function Flip(b: byte): (r: byte)
  {
    if b / 32 % 2 == 1 then b - 32 else b + 32
  }

  lemma FlipIsXor(b: bv8)
    ensures Flip(b as byte) == (b ^ 0x20) as byte
    ensures Flip(Flip(b as byte)) == b as byte
  {
    BitFiveSet(b);
    FlipTwice(b as byte);
  }

  lemma BitFiveSet(b: bv8)
    ensures b & 0x20 == 0x20 <==> b as int / 32 % 2 == 1
  {
    assert b & 0x20 == 0x20 <==> (b / 32) % 2 == 1;
  }

  lemma FlipTwice(b: byte)
    ensures Flip(Flip(b)) == b
  {
  }

  /** C's division by a positive number: it rounds toward zero, where Dafny's `/` rounds down. */
  function TruncDiv(a: int, b: int): (r: int)
    requires b > 0
  {
    if a >= 0 then a / b else -(-a / b)
  }

  /** It rounds toward zero: the remainder has the sign of the dividend and is smaller than b. */
  lemma TruncDivIsC(a: int, b: int)
    requires b > 0
    ensures var r := a - TruncDiv(a, b) * b; if a >= 0 then 0 <= r < b else -b < r <= 0
  {
    assert a >= 0 ==> a == a / b * b + a % b;
    assert a < 0 ==> -a == -a / b * b + -a % b;
  }

  /** The battery current in uA for an ADC reading. */
  function BattI(ticks: word): (uA: int)
  {
    (ticks - 29000) * 60
  }

  function Abs(x: int): (r: nat)
    ensures r == x || r == -x
  {
    if x < 0 then -x else x
  }

  function Min(x: int, y: int): (r: int)
  {
    if x < y then x else y
  }

  /** The sum of a packet's bytes, as an unbounded integer. */
  function Sum(p: seq<byte>): (r: nat)
  {
    if p == [] then 0 else Sum(p[..|p| - 1]) + p[|p| - 1]
  }

  /** A packet is intact when its bytes, checksum included, add up to 0xFF modulo 256. */
  predicate Intact(p: seq<byte>) {
    Sum(p) % 0x100 == 0xFF
  }

  /** The checksum byte that a sender appends: 0xFF minus the sum, cut to a byte. */
  function Crc(m: seq<byte>): (r: byte)
  {
    (0xFF - Sum(m)) % 0x100
  }

  function Seal(m: seq<byte>): (p: seq<byte>)
    ensures |p| == |m| + 1 && p[..|m|] == m
  {
    m + [Crc(m)]
  }

  lemma SumSnoc(p: seq<byte>, b: byte)
    ensures Sum(p + [b]) == Sum(p) + b
  {
    assert (p + [b])[..|p|] == p;
  }

  lemma {:induction false} SumConcat(p: seq<byte>, q: seq<byte>)
    ensures Sum(p + q) == Sum(p) + Sum(q)
  {
    if q == [] {
      assert p + q == p;
    } else {
      var front, b := q[..|q| - 1], q[|q| - 1];
      SumConcat(p, front);
      assert p + q == (p + front) + [b];
      SumSnoc(p + front, b);
    }
  }

  lemma SumUpdate(p: seq<byte>, i: nat, b: byte)
    requires i < |p|
    ensures Sum(p[i := b]) == Sum(p) - p[i] + b
  {
    assert p[i := b] == p[..i] + [b] + p[i + 1..];
    assert p == p[..i] + [p[i]] + p[i + 1..];
    SumConcat(p[..i] + [b], p[i + 1..]);
    SumConcat(p[..i] + [p[i]], p[i + 1..]);
    SumSnoc(p[..i], b);
    SumSnoc(p[..i], p[i]);
  }

  /** A packet is intact exactly when its last byte is the checksum of the ones before it. */
  lemma IntactIsSealed(p: seq<byte>)
    ensures Intact(p) <==> p != [] && p == Seal(p[..|p| - 1])
  {
    if p != [] {
      var m, c := p[..|p| - 1], p[|p| - 1];
      assert p == m + [c];
    }
  }

  /** Overwriting one byte of an intact packet leaves it intact only if the byte did not change. */
  lemma CorruptionCaught(p: seq<byte>, i: nat, b: byte)
    requires Intact(p) && i < |p|
    ensures Intact(p[i := b]) <==> b == p[i]
  {
    SumUpdate(p, i, b);
  }

  /** A non-zero multiple of m is at least m away from zero. */
  lemma MultipleIsApart(e: int, m: int)
    requires m >= 0
    ensures e >= 1 ==> e * m >= m
    ensures e <= -1 ==> e * m <= -m
  {
    if e >= 1 {
      assert e * m == (e - 1) * m + m;
    } else if e <= -1 {
      assert e * m == (e + 1) * m - m;
    }
  }

  /** Quotient and remainder determine each other. */
  lemma ModOf(q: nat, m: nat, r: nat)
    requires r < m
    ensures (q * m + r) % m == r
  {
    var n := q * m + r;
    var e := n / m - q;
    assert e * m == r - n % m;
    MultipleIsApart(e, m);
  }
}
