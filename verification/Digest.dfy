/** Streaming SHA-1 and MD5: the contexts, their bit counters in two 32-bit words, and the padding.
    The round functions are a parameter. */
module Digest {
  import opened Bytes

  type word = x: int | 0 <= x < TWO_32

  type Block = s: seq<byte> | |s| == 64 witness seq(64, i => 0)

  /// Folding a compression function over the whole blocks of a message.

  function Fold<S>(f: (S, Block) -> S, start: S, m: seq<byte>): S {
    if |m| < 64 then start else Fold(f, f(start, m[..64]), m[64..])
  }

  // What is left behind the whole blocks.
  function Rest(m: seq<byte>): (r: seq<byte>)
    ensures |r| < 64
  {
    if |m| < 64 then m else Rest(m[64..])
  }

  // Folding goes on from where it stopped.
  lemma {:induction false} FoldGoesOn<S>(f: (S, Block) -> S, start: S, a: seq<byte>, b: seq<byte>)
    ensures Fold(f, start, a + b) == Fold(f, Fold(f, start, a), Rest(a) + b)
    ensures Rest(a + b) == Rest(Rest(a) + b)
    decreases |a|
  {
    if |a| >= 64 {
      assert (a + b)[..64] == a[..64] && (a + b)[64..] == a[64..] + b;
      FoldGoesOn(f, f(start, a[..64]), a[64..], b);
    }
  }

  lemma FoldBlock<S>(f: (S, Block) -> S, start: S, block: Block, more: seq<byte>)
    ensures Fold(f, start, block + more) == Fold(f, f(start, block), more)
    ensures Rest(block + more) == Rest(more)
  {
    assert (block + more)[..64] == block && (block + more)[64..] == more;
  }

  lemma {:induction false} RestLength(m: seq<byte>)
    ensures exists k: nat {:trigger 64 * k} :: |m| == 64 * k + |Rest(m)|
    decreases |m|
  {
    if |m| < 64 {
      assert |m| == 64 * 0 + |Rest(m)|;
    } else {
      RestLength(m[64..]);
      var k: nat :| |m[64..]| == 64 * k + |Rest(m[64..])|;
      assert |m| == 64 * (k + 1) + |Rest(m)|;
    }
  }

  lemma RestMod(m: seq<byte>)
    ensures |Rest(m)| == |m| % 64
  {
    RestLength(m);
  }

  /// The bit counter.

  // The two words hold eight times n, modulo 2^64.
  ghost predicate Counts(lo: word, hi: word, n: nat) {
    Wrap64(8 * n) == lo + TWO_32 * hi
  }

  // Only the low word is trusted.
  ghost predicate CountsLow(lo: word, n: nat) {
    exists h: nat {:trigger TWO_32 * h} :: 8 * n == lo + TWO_32 * h
  }

  lemma {:induction false} WrapQuotient(x: nat) returns (q: nat)
    ensures x == Wrap64(x) + TWO_64 * q
  {
    if x < TWO_64 {
      q := 0;
    } else {
      q := WrapQuotient(x - TWO_64);
      q := q + 1;
    }
  }

  lemma {:induction false} WrapOf(r: nat, q: nat)
    requires r < TWO_64
    ensures Wrap64(r + TWO_64 * q) == r
    decreases q
  {
    if q > 0 { WrapOf(r, q - 1); }
  }

  lemma CountsHasLow(lo: word, hi: word, n: nat)
    requires Counts(lo, hi, n)
    ensures CountsLow(lo, n)
  {
    var q := WrapQuotient(8 * n);
    assert 8 * n == lo + TWO_32 * (hi + TWO_32 * q);
  }

  // A whole number of bytes, and where the next one goes in the buffer.
  lemma Position(lo: word, m: seq<byte>)
    requires CountsLow(lo, |m|)
    ensures lo / 8 % 64 == |Rest(m)|
  {
    var h: nat :| 8 * |m| == lo + TWO_32 * h;
    RestLength(m);
    var k: nat :| |m| == 64 * k + |Rest(m)|;
    hide *;
    PlaceInBlock(lo, k - 0x80_0000 * h, |Rest(m)|);
  }

  lemma PlaceInBlock(lo: nat, x: int, r: nat)
    requires lo == 8 * (64 * x + r) && r < 64
    ensures lo / 8 % 64 == r
  {
    assert lo / 8 == 64 * x + r;
  }

  // The low word after len more bytes: the length loses its high bits before and after the shift.
  function AddLow(lo: word, len: nat): word {
    (lo + len % TWO_32 * 8 % TWO_32) % TWO_32
  }

  function Carry(lo: word, len: nat): nat {
    if AddLow(lo, len) < lo then 1 else 0
  }

  // The high word as mg_sha1_update keeps it, and as mg_md5_update does, with the length cut to 32
  // bits before it is shifted.

  function Sha1High(lo: word, hi: word, len: nat): word {
    (hi + Carry(lo, len) + len / 0x2000_0000 % TWO_32) % TWO_32
  }

  function Md5High(lo: word, hi: word, len: nat): word {
    (hi + Carry(lo, len) + len % TWO_32 / 0x2000_0000) % TWO_32
  }

  lemma AddLowCounts(lo: word, n: nat, len: nat)
    requires CountsLow(lo, n)
    ensures CountsLow(AddLow(lo, len), n + len)
  {
    var h: nat :| 8 * n == lo + TWO_32 * h;
    var t := lo + len % TWO_32 * 8 % TWO_32;
    assert 8 * (n + len) == AddLow(lo, len) + TWO_32 * (h + t / TWO_32 + len % TWO_32 * 8 / TWO_32 + 8 * (len / TWO_32));
  }

  // Low words add up, with what is carried.
  lemma LowSum(lo: word, len: nat) returns (bits: nat)
    ensures bits == 8 * (len % 0x2000_0000) && 8 * len == bits + TWO_32 * (len / 0x2000_0000)
    ensures lo + bits == AddLow(lo, len) + TWO_32 * Carry(lo, len)
  {
    hide AddLow;
    bits := 8 * (len % 0x2000_0000);
    BitsKept(lo, len);
    ModOnce(lo + bits);
  }

  lemma BitsKept(lo: word, len: nat)
    ensures AddLow(lo, len) == (lo + 8 * (len % 0x2000_0000)) % TWO_32
  {
    var q, r := len / 0x2000_0000, len % 0x2000_0000;
    assert len % TWO_32 == r + 0x2000_0000 * (q % 8);
  }

  lemma ModOnce(t: nat)
    requires t < 2 * TWO_32
    ensures t % TWO_32 == if t < TWO_32 then t else t - TWO_32
  {
  }

  // The 64-bit count is exact modulo 2^64, whatever the lengths.
  lemma Sha1Counts(lo: word, hi: word, n: nat, len: nat)
    requires Counts(lo, hi, n)
    ensures Counts(AddLow(lo, len), Sha1High(lo, hi, len), n + len)
  {
    var q := WrapQuotient(8 * n);
    var bits := LowSum(lo, len);
    var b, c := len / 0x2000_0000, Carry(lo, len);
    var sum := hi + c + b % TWO_32;
    hide Carry, AddLow;
    assert sum == Sha1High(lo, hi, len) + TWO_32 * (sum / TWO_32) && b == b % TWO_32 + TWO_32 * (b / TWO_32);
    var lo', hi' := AddLow(lo, len), Sha1High(lo, hi, len);
    hide Sha1High;
    assert 8 * (n + len) == lo' + TWO_32 * hi' + TWO_64 * (q + sum / TWO_32 + b / TWO_32);
    WrapOf(lo' + TWO_32 * hi', q + sum / TWO_32 + b / TWO_32);
  }

  // MD5's count stays exact just when the length of the piece has nothing in the bits that the cast
  // drops and the shift would have kept; four gigabytes in one call are too many.
  lemma Md5Counts(lo: word, hi: word, n: nat, len: nat)
    requires Counts(lo, hi, n)
    ensures Counts(AddLow(lo, len), Md5High(lo, hi, len), n + len) <==> len / TWO_32 % 0x2000_0000 == 0
  {
    Sha1Counts(lo, hi, n, len);
    Highs(hi + Carry(lo, len), len);
  }

  lemma Highs(h: nat, len: nat)
    ensures (h + len / 0x2000_0000 % TWO_32) % TWO_32 == (h + len % TWO_32 / 0x2000_0000) % TWO_32
            <==> len / TWO_32 % 0x2000_0000 == 0
  {
    var a, b := len % TWO_32 / 0x2000_0000, len / TWO_32;
    assert len / 0x2000_0000 == a + 8 * b;
    var c := b % 0x2000_0000;
    assert len / 0x2000_0000 % TWO_32 == a + 8 * c;
  }

  lemma FourGigabytesAreLost()
    ensures Counts(0, 0, 0) && !Counts(AddLow(0, TWO_32), Md5High(0, 0, TWO_32), TWO_32)
  {
    Md5Counts(0, 0, 0, TWO_32);
  }

  /// Padding: a one bit, then as few zero bits as make room for eight bytes of length at the end of
  /// a block.

  function Zeros(k: nat): (r: seq<byte>)
    ensures |r| == k
  {
    seq(k, i => 0)
  }

  function ZeroCount(n: nat): nat {
    (119 - n % 64) % 64
  }

  // The least solution there is.
  lemma ZerosAreLeast(n: nat, k: nat)
    ensures (n + 1 + ZeroCount(n)) % 64 == 56
    ensures k < ZeroCount(n) ==> (n + 1 + k) % 64 != 56
  {
  }

  function Padding(n: nat, length: seq<byte>): seq<byte> {
    [0x80] + Zeros(ZeroCount(n)) + length
  }

  // Section 5.1.1 of FIPS 180-4: the length in bits, most significant byte first.
  function Sha1Padding(n: nat): seq<byte> {
    Padding(n, BigEndianBytes(Wrap64(8 * n), 8))
  }

  // Sections 3.1 and 3.2 of RFC 1321: least significant byte first.
  function Md5Padding(n: nat): seq<byte> {
    Padding(n, LittleEndianBytes(Wrap64(8 * n), 8))
  }

  lemma PaddedIsWhole(n: nat, length: seq<byte>)
    requires |length| == 8
    ensures (n + |Padding(n, length)|) % 64 == 0
  {
    ZerosAreLeast(n, 0);
  }

  // The bytes of a 32-bit word as C takes them out.
  function BigWord(n: nat): seq<byte> {
    [n / 0x100_0000 % 256, n / 0x1_0000 % 256, n / 0x100 % 256, n % 256]
  }

  function LittleWord(n: nat): seq<byte> {
    [n % 256, n / 0x100 % 256, n / 0x1_0000 % 256, n / 0x100_0000 % 256]
  }

  lemma TwoBytes(n: nat)
    ensures BigEndianBytes(n, 2) == [n / 256 % 256, n % 256]
    ensures LittleEndianBytes(n, 2) == [n % 256, n / 256 % 256]
  {
    assert BigEndianBytes(n / 256, 1) == BigEndianBytes(n / 256 / 256, 0) + [n / 256 % 256] == [n / 256 % 256];
    assert LittleEndianBytes(n / 256, 1) == [n / 256 % 256] + LittleEndianBytes(n / 256 / 256, 0);
  }

  lemma WordBytes(n: nat)
    ensures BigEndianBytes(n, 4) == BigWord(n) && LittleEndianBytes(n, 4) == LittleWord(n)
  {
    var m := n / 256 / 256;
    TwoBytes(m);
    assert m == n / 0x1_0000 && m / 256 == n / 0x100_0000 && n / 256 == n / 0x100;
    assert BigEndianBytes(n / 256, 3) == BigEndianBytes(m, 2) + [n / 256 % 256];
    assert LittleEndianBytes(n / 256, 3) == [n / 256 % 256] + LittleEndianBytes(m, 2);
  }

  // A long number's bytes are those of its halves.
  lemma {:induction false} BytesOfHalves(lo: nat, hi: nat, k: nat, j: nat)
    requires lo < Power256(k)
    ensures BigEndianBytes(lo + Power256(k) * hi, j + k) == BigEndianBytes(hi, j) + BigEndianBytes(lo, k)
    ensures LittleEndianBytes(lo + Power256(k) * hi, k + j) == LittleEndianBytes(lo, k) + LittleEndianBytes(hi, j)
  {
    if k == 0 {
      Unscaled(Power256(0), hi);
      assert LittleEndianBytes(lo, 0) == [] == BigEndianBytes(lo, 0);
    } else {
      hide BigEndianBytes, LittleEndianBytes;
      var n, q := lo + Power256(k) * hi, Power256(k - 1) * hi;
      Scaled(Power256(k), Power256(k - 1), hi);
      BytesOfHalves(lo / 256, hi, k - 1, j);
      LowByte(lo, q);
      BytesStep(n, j + k);
      BytesStep(hi, j);
      BytesStep(lo, k);
      hide *;
      ConcatAssociates(BigEndianBytes(hi, j), BigEndianBytes(lo / 256, k - 1), [lo % 256]);
      ConcatAssociates([lo % 256], LittleEndianBytes(lo / 256, k - 1), LittleEndianBytes(hi, j));
    }
  }

  lemma Scaled(a: nat, b: nat, c: nat)
    requires a == 256 * b
    ensures a * c == 256 * (b * c)
  {
  }

  lemma Unscaled(a: nat, c: nat)
    requires a == 1
    ensures a * c == c
  {
  }

  lemma LowByte(lo: nat, q: nat)
    ensures (lo + 256 * q) / 256 == lo / 256 + q && (lo + 256 * q) % 256 == lo % 256
  {
  }

  lemma BytesStep(n: nat, k: nat)
    ensures k > 0 ==> BigEndianBytes(n, k) == BigEndianBytes(n / 256, k - 1) + [n % 256]
    ensures k > 0 ==> LittleEndianBytes(n, k) == [n % 256] + LittleEndianBytes(n / 256, k - 1)
  {
  }

  lemma CounterBytes(lo: word, hi: word)
    ensures BigEndianBytes(lo + TWO_32 * hi, 8) == BigWord(hi) + BigWord(lo)
    ensures LittleEndianBytes(lo + TWO_32 * hi, 8) == LittleWord(lo) + LittleWord(hi)
  {
    assert Power256(4) == TWO_32;
    BytesOfHalves(lo, hi, 4, 4);
    WordBytes(lo);
    WordBytes(hi);
  }

  // The message "abc", padded: 24 bits, in the two byte orders.
  lemma AbcPadded()
    ensures [0x61, 0x62, 0x63] + Sha1Padding(3)
            == [0x61, 0x62, 0x63, 0x80] + seq(52, i => 0) + [0, 0, 0, 0, 0, 0, 0, 0x18]
    ensures [0x61, 0x62, 0x63] + Md5Padding(3)
            == [0x61, 0x62, 0x63, 0x80] + seq(52, i => 0) + [0x18, 0, 0, 0, 0, 0, 0, 0]
  {
    CounterBytes(24, 0);
    assert ZeroCount(3) == 52 && Wrap64(8 * 3) == 24;
    hide ZeroCount, BigEndianBytes, LittleEndianBytes, Wrap64;
  }
}
