/** Bytes, C's unsigned 64-bit arithmetic and the few memory idioms every buffer shares. */
module Bytes {
  type byte = x: int | 0 <= x < 256

  const TWO_32: int := 0x1_0000_0000
  const TWO_63: int := 0x8000_0000_0000_0000
  const TWO_64: int := 0x1_0000_0000_0000_0000

  // The value a size_t expression has after wrap-around, that is, x modulo 2^64.
  function Wrap64(x: int): (r: nat)
    ensures r < TWO_64
    decreases if x < 0 then TWO_64 - x else x
  {
    if x < 0 then Wrap64(x + TWO_64) else if x >= TWO_64 then Wrap64(x - TWO_64) else x
  }

  function Power256(k: nat): nat {
    if k == 0 then 1 else 256 * Power256(k - 1)
  }

  // The unsigned number whose bytes, least significant first, are s.
  function LittleEndian(s: seq<byte>): nat {
    if s == [] then 0 else (s[0] as int) + 256 * LittleEndian(s[1..])
  }

  // The k low bytes of n, least significant first.
  function LittleEndianBytes(n: nat, k: nat): (r: seq<byte>)
    ensures |r| == k
  {
    if k == 0 then [] else [n % 256] + LittleEndianBytes(n / 256, k - 1)
  }

  // The unsigned number whose bytes, most significant first, are s.
  function BigEndian(s: seq<byte>): nat {
    if s == [] then 0 else 256 * BigEndian(s[..|s| - 1]) + s[|s| - 1]
  }

  // The k low bytes of n, most significant first.
  function BigEndianBytes(n: nat, k: nat): (r: seq<byte>)
    ensures |r| == k
  {
    if k == 0 then [] else BigEndianBytes(n / 256, k - 1) + [n % 256]
  }

  lemma {:induction false} BigEndianRoundTrip(n: nat, k: nat)
    requires n < Power256(k)
    ensures BigEndian(BigEndianBytes(n, k)) == n
    decreases k
  {
    if k > 0 {
      BigEndianRoundTrip(n / 256, k - 1);
      assert BigEndianBytes(n, k)[..k - 1] == BigEndianBytes(n / 256, k - 1);
    }
  }

  lemma {:induction false} LittleEndianRoundTrip(n: nat, k: nat)
    requires n < Power256(k)
    ensures LittleEndian(LittleEndianBytes(n, k)) == n
    decreases k
  {
    if k > 0 {
      LittleEndianRoundTrip(n / 256, k - 1);
      assert LittleEndianBytes(n, k)[1..] == LittleEndianBytes(n / 256, k - 1);
    }
  }

  // Network order: the most significant byte first.
  lemma BigEndianFour(s: seq<byte>)
    requires |s| == 4
    ensures BigEndian(s[..2]) == 256 * (s[0] as int) + s[1]
    ensures BigEndian(s) == 0x100_0000 * (s[0] as int) + 0x1_0000 * (s[1] as int) + 256 * (s[2] as int) + s[3]
  {
    var a, b, c := s[..1], s[..2], s[..3];
    assert a[..0] == [] && BigEndian(a) == s[0];
    assert b[..1] == a && c[..2] == b && s[..3] == c;
  }

  lemma BigEndianEight(s: seq<byte>)
    requires |s| == 8
    ensures BigEndian(s) == TWO_32 * BigEndian(s[..4]) + BigEndian(s[4..])
  {
    BigEndianFour(s[4..]);
    var a, b, c, d := s[..4], s[..5], s[..6], s[..7];
    assert b[..4] == a && c[..5] == b && d[..6] == c && s[..7] == d;
    assert BigEndian(b) == 256 * BigEndian(a) + s[4] && BigEndian(c) == 256 * BigEndian(b) + s[5];
    assert BigEndian(d) == 256 * BigEndian(c) + s[6] && BigEndian(s) == 256 * BigEndian(d) + s[7];
  }

  // The other order: the least significant byte first.
  lemma LittleEndianFour(s: seq<byte>)
    requires |s| == 4
    ensures LittleEndian(s) == s[0] + 256 * (s[1] as int) + 0x1_0000 * (s[2] as int) + 0x100_0000 * (s[3] as int)
  {
    var a, b, c := s[1..], s[2..], s[3..];
    assert c[1..] == [] && LittleEndian(c) == s[3];
    assert b[1..] == c && a[1..] == b;
    assert LittleEndian(b) == (s[2] as int) + 256 * LittleEndian(c);
    assert LittleEndian(a) == (s[1] as int) + 256 * LittleEndian(b);
  }

  // memcpy of `data` into a buffer at offset `at`.
  function Put<T>(buf: seq<T>, at: nat, data: seq<T>): (r: seq<T>)
    requires at + |data| <= |buf|
    ensures |r| == |buf|
    ensures r[at..at + |data|] == data
    ensures forall i :: 0 <= i < |buf| && !(at <= i < at + |data|) ==> r[i] == buf[i]
  {
    seq(|buf|, i requires 0 <= i < |buf| => if at <= i < at + |data| then data[i - at] else buf[i])
  }

  lemma PutKeepsSlice<T>(buf: seq<T>, at: nat, data: seq<T>, lo: nat, hi: nat)
    requires at + |data| <= |buf| && lo <= hi <= |buf| && (hi <= at || at + |data| <= lo)
    ensures Put(buf, at, data)[lo..hi] == buf[lo..hi]
  {
  }

  lemma PutBack<T>(buf: seq<T>, at: nat, n: nat)
    requires at + n <= |buf|
    ensures Put(buf, at, buf[at..at + n]) == buf
  {
  }

  lemma PutMiddle<T>(a: seq<T>, b: seq<T>, c: seq<T>, d: seq<T>)
    requires |b| == |d|
    ensures Put(a + b + c, |a|, d) == a + d + c
  {
  }

  lemma SliceOfTail<T>(s: seq<T>, at: nat, lo: nat, hi: nat)
    requires lo <= hi && at + hi <= |s|
    ensures s[at..][lo..hi] == s[at + lo..at + hi]
  {
  }

  lemma ConcatAssociates<T>(a: seq<T>, b: seq<T>, c: seq<T>)
    ensures a + b + c == a + (b + c)
  {
  }

  lemma ConcatParts<T>(a: seq<T>, b: seq<T>, c: seq<T>)
    ensures var w := a + b + c; var i, j := |a|, |a| + |b|;
            w[..i] == a && w[i..j] == b && w[j..] == c
  {
  }

  lemma ConcatTails<T>(a: seq<T>, b: seq<T>, c: seq<T>, d: seq<T>)
    ensures var w := a + (b + (c + d));
            w[|a|..] == b + (c + d) && w[|a| + |b|..] == c + d && w[|a| + |b| + |c|..] == d
  {
    assert a + (b + (c + d)) == a + b + (c + d) == a + b + c + d;
  }

  /// Exclusive or, bit by bit.

  function XorBits(a: nat, b: nat, k: nat): nat {
    if k == 0 then 0 else (a + b) % 2 + 2 * XorBits(a / 2, b / 2, k - 1)
  }

  function Power2(k: nat): nat {
    if k == 0 then 1 else 2 * Power2(k - 1)
  }

  // Bit k of x, from the least significant one on.
  function Bit(x: nat, k: nat): nat {
    if k == 0 then x % 2 else Bit(x / 2, k - 1)
  }

  lemma ByteBits(x: nat)
    ensures Bit(x, 0) == x % 2 && Bit(x, 1) == x / 2 % 2 && Bit(x, 2) == x / 4 % 2 && Bit(x, 3) == x / 8 % 2
    ensures Bit(x, 4) == x / 16 % 2 && Bit(x, 5) == x / 32 % 2 && Bit(x, 6) == x / 64 % 2 && Bit(x, 7) == x / 128 % 2
  {
    LowBits(x);
    LowBits(x / 16);
    HighBits(x);
    assert x / 16 / 2 == x / 32 && x / 16 / 4 == x / 64 && x / 16 / 8 == x / 128;
  }

  lemma LowBits(x: nat)
    ensures Bit(x, 0) == x % 2 && Bit(x, 1) == x / 2 % 2 && Bit(x, 2) == x / 4 % 2 && Bit(x, 3) == x / 8 % 2
  {
    var a, b := x / 2, x / 4;
    assert Bit(a, 0) == a % 2 && Bit(b, 0) == b % 2 && Bit(b / 2, 0) == b / 2 % 2;
    assert a / 2 == b && b / 2 == x / 8;
    assert Bit(a, 1) == Bit(b, 0) && Bit(b, 1) == Bit(b / 2, 0) && Bit(a, 2) == Bit(b, 1);
  }

  lemma HighBits(x: nat)
    ensures forall k :: 0 <= k < 4 ==> Bit(x, k + 4) == Bit(x / 16, k)
  {
    forall k | 0 <= k < 4
      ensures Bit(x, k + 4) == Bit(x / 16, k)
    {
      assert Bit(x, k + 4) == Bit(x / 2, k + 3) && Bit(x / 2, k + 3) == Bit(x / 2 / 2, k + 2);
      assert Bit(x / 4, k + 2) == Bit(x / 4 / 2, k + 1) && Bit(x / 8, k + 1) == Bit(x / 8 / 2, k);
    }
    assert Bit(x, 4) == Bit(x / 16, 0) && Bit(x, 5) == Bit(x / 16, 1);
    assert Bit(x, 6) == Bit(x / 16, 2) && Bit(x, 7) == Bit(x / 16, 3);
  }

  // A bit of the exclusive or is set if and only if just one of the two bits is.
  lemma {:induction false} XorBit(a: nat, b: nat, n: nat, k: nat)
    requires k < n
    ensures Bit(XorBits(a, b, n), k) == 1 <==> Bit(a, k) != Bit(b, k)
    decreases n
  {
    hide XorBits, Bit;
    XorStep(a, b, n);
    BitStep(XorBits(a, b, n), k);
    BitStep(a, k);
    BitStep(b, k);
    if k > 0 { XorBit(a / 2, b / 2, n - 1, k - 1); }
  }

  lemma XorStep(a: nat, b: nat, n: nat)
    requires n > 0
    ensures XorBits(a, b, n) / 2 == XorBits(a / 2, b / 2, n - 1)
    ensures XorBits(a, b, n) % 2 == 1 <==> a % 2 != b % 2
  {
    LowestBit(a, b, XorBits(a / 2, b / 2, n - 1));
  }

  lemma LowestBit(a: nat, b: nat, rest: nat)
    ensures var x := (a + b) % 2 + 2 * rest; x / 2 == rest && (x % 2 == 1 <==> a % 2 != b % 2)
  {
  }

  lemma BitStep(x: nat, k: nat)
    ensures Bit(x, k) == if k == 0 then x % 2 else Bit(x / 2, k - 1)
  {
  }

  lemma XorBound(a: nat, b: nat, k: nat)
    ensures XorBits(a, b, k) < Power2(k)
  {
  }

  lemma {:induction false} XorUndone(a: nat, b: nat, k: nat)
    requires a < Power2(k)
    ensures XorBits(XorBits(a, b, k), b, k) == a
    decreases k
  {
    if k > 0 {
      var rest := XorBits(a / 2, b / 2, k - 1);
      var x := XorBits(a, b, k);
      assert Power2(k) == 2 * Power2(k - 1);
      XorUndone(a / 2, b / 2, k - 1);
      XorLowBit(a, b, rest, x);
      assert XorBits(x, b, k) == (x + b) % 2 + 2 * XorBits(rest, b / 2, k - 1);
    }
  }

  lemma XorLowBit(a: nat, b: nat, rest: nat, x: nat)
    requires x == (a + b) % 2 + 2 * rest
    ensures x / 2 == rest && (x + b) % 2 == a % 2
  {
  }

  function Xor(a: byte, b: byte): byte {
    XorBound(a, b, 8);
    assert Power2(8) == 256;
    XorBits(a, b, 8)
  }

  // Exclusive or of bytes, bit for bit.
  lemma XorIs(a: byte, b: byte, k: nat)
    requires k < 8
    ensures Bit(Xor(a, b), k) == 1 <==> Bit(a, k) != Bit(b, k)
  {
    XorBit(a, b, 8, k);
  }

  lemma XorFour(a: nat, b: nat, n: nat)
    ensures XorBits(a, b, n + 4)
            == (a + b) % 2 + 2 * ((a / 2 + b / 2) % 2) + 4 * ((a / 4 + b / 4) % 2) + 8 * ((a / 8 + b / 8) % 2)
               + 16 * XorBits(a / 16, b / 16, n)
  {
    assert XorBits(a, b, n + 4) == (a + b) % 2 + 2 * XorBits(a / 2, b / 2, n + 3);
    assert a / 2 / 2 == a / 4 && b / 2 / 2 == b / 4 && a / 4 / 2 == a / 8 && b / 4 / 2 == b / 8;
    assert a / 8 / 2 == a / 16 && b / 8 / 2 == b / 16;
    assert XorBits(a / 2, b / 2, n + 3) == (a / 2 + b / 2) % 2 + 2 * XorBits(a / 4, b / 4, n + 2);
    assert XorBits(a / 4, b / 4, n + 2) == (a / 4 + b / 4) % 2 + 2 * XorBits(a / 8, b / 8, n + 1);
  }

  lemma XorTwice(a: byte, b: byte)
    ensures Xor(Xor(a, b), b) == a
  {
    assert Power2(8) == 256;
    XorUndone(a, b, 8);
  }

  function Flatten<T>(parts: seq<seq<T>>): seq<T> {
    if parts == [] then [] else parts[0] + Flatten(parts[1..])
  }

  lemma FlattenConcat<T>(a: seq<seq<T>>, b: seq<seq<T>>)
    ensures Flatten(a + b) == Flatten(a) + Flatten(b)
  {
    if a == [] {
      assert a + b == b;
    } else {
      assert (a + b)[1..] == a[1..] + b;
    }
  }

  lemma FlattenSnoc<T>(a: seq<seq<T>>, x: seq<T>)
    ensures Flatten(a + [x]) == Flatten(a) + x
  {
    FlattenConcat(a, [x]);
  }
}
