/** Base64 (section 4 of RFC 4648): a byte-at-a-time encoder that keeps its left-over bits in the
    output buffer, an encoder that takes three bytes at a time, and the decoder. */
module Base64 {
  type octet = bv8

  const EQUALS: octet := 61

  /// The alphabet.

  // mg_b64idx; also entry c of the table in bcpy.
  function Letter(c: octet): octet {
    if c < 26 then c + 65 else if c < 52 then c - 26 + 97 else if c < 62 then c - 52 + 48
    else if c == 62 then 43 else 47
  }

  const BAD: octet := 255

  // mg_b64rev, with BAD for -1.
  function Rank(c: octet): octet {
    if 65 <= c <= 90 then c - 65 else if 97 <= c <= 122 then c + 26 - 97 else if 48 <= c <= 57 then c + 52 - 48
    else if c == 43 then 62 else if c == 47 then 63 else if c == EQUALS then 64 else BAD
  }

  lemma RankOfLetter(c: octet)
    requires c < 64
    ensures Rank(Letter(c)) == c && Letter(c) != EQUALS
  {
  }

  /// Three bytes as four groups of six bits, and back.

  function First(a: octet): octet { a >> 2 }

  function Second(a: octet, b: octet): octet { ((a & 3) << 4) | (b >> 4) }

  function Third(b: octet, c: octet): octet { ((b & 15) << 2) | (c >> 6) }

  function Fourth(c: octet): octet { c & 63 }

  function High(x: octet, y: octet): octet { (x << 2) | (y >> 4) }

  function Middle(y: octet, z: octet): octet { (y << 4) | (z >> 2) }

  function Low(z: octet, w: octet): octet { (z << 6) | w }

  lemma SixBits(a: octet, b: octet, c: octet)
    ensures First(a) < 64 && Second(a, b) < 64 && Third(b, c) < 64 && Fourth(c) < 64
    ensures High(First(a), Second(a, b)) == a
    ensures Middle(Second(a, b), Third(b, c)) == b
    ensures Low(Third(b, c), Fourth(c)) == c
  {
  }

  /// What the encoders write.

  function Encode(s: seq<octet>): (r: seq<octet>)
    ensures |r| == (|s| + 2) / 3 * 4
  {
    if s == [] then []
    else if |s| == 1 then [Letter(First(s[0])), Letter(Second(s[0], 0)), EQUALS, EQUALS]
    else if |s| == 2 then [Letter(First(s[0])), Letter(Second(s[0], s[1])), Letter(Third(s[1], 0)), EQUALS]
    else Block(s[0], s[1], s[2]) + Encode(s[3..])
  }

  function Block(a: octet, b: octet, c: octet): seq<octet> {
    [Letter(First(a)), Letter(Second(a, b)), Letter(Third(b, c)), Letter(Fourth(c))]
  }

  /// What the decoder reads.

  datatype Option<T> = None | Some(value: T)

  // The bytes of four characters, up to the first padding.
  function Group(p: octet, q: octet, r: octet, s: octet): Option<seq<octet>> {
    var a, b, c, d := Rank(p), Rank(q), Rank(r), Rank(s);
    if a >= 64 || b >= 64 || c == BAD || d == BAD then None
    else if r == EQUALS then Some([High(a, b)])
    else if s == EQUALS then Some([High(a, b), Middle(b, c)])
    else Some([High(a, b), Middle(b, c), Low(c, d)])
  }

  // Group after group; fewer than four characters at the end are ignored.
  function Decode(s: seq<octet>): (r: Option<seq<octet>>)
    ensures r.Some? ==> |r.value| <= |s| / 4 * 3
  {
    if |s| < 4 then Some([]) else Both(Group(s[0], s[1], s[2], s[3]), Decode(s[4..]))
  }

  function Both(x: Option<seq<octet>>, y: Option<seq<octet>>): Option<seq<octet>> {
    if x.Some? && y.Some? then Some(x.value + y.value) else None
  }

  lemma GroupOfBlock(a: octet, b: octet, c: octet)
    ensures Group(Letter(First(a)), Letter(Second(a, b)), Letter(Third(b, c)), Letter(Fourth(c))) == Some([a, b, c])
    ensures Group(Letter(First(a)), Letter(Second(a, b)), Letter(Third(b, 0)), EQUALS) == Some([a, b])
    ensures Group(Letter(First(a)), Letter(Second(a, 0)), EQUALS, EQUALS) == Some([a])
  {
    hide First, Second, Third, Fourth, High, Middle, Low;
    assert Rank(EQUALS) == 64;
    SixBits(a, b, c);
    SixBits(a, b, 0);
    SixBits(a, 0, 0);
    RankOfLetter(First(a));
    RankOfLetter(Second(a, b));
    RankOfLetter(Second(a, 0));
    RankOfLetter(Third(b, c));
    RankOfLetter(Third(b, 0));
    RankOfLetter(Fourth(c));
    hide Letter, Rank;
  }

  // Decoding undoes encoding, for every byte string.
  lemma {:induction false} DecodeEncode(s: seq<octet>)
    ensures Decode(Encode(s)) == Some(s)
    decreases |s|
  {
    hide Group, Letter, First, Second, Third, Fourth;
    var e := Encode(s);
    if |s| == 1 {
      GroupOfBlock(s[0], 0, 0);
      assert e[4..] == [] && s == [s[0]] + [];
    } else if |s| == 2 {
      GroupOfBlock(s[0], s[1], 0);
      assert e[4..] == [] && s == [s[0], s[1]] + [];
    } else if |s| > 2 {
      GroupOfBlock(s[0], s[1], s[2]);
      DecodeEncode(s[3..]);
      assert e[4..] == Encode(s[3..]);
      assert s == [s[0], s[1], s[2]] + s[3..];
    }
  }

  /// The loops.

  // Characters at the end that do not fill a group of four are not looked at.
  lemma {:induction false} DecodeCut(s: seq<octet>, t: seq<octet>)
    requires |s| % 4 == 0 && |t| < 4
    ensures Decode(s + t) == Decode(s)
    decreases |s|
  {
    hide Group;
    if s == [] {
      assert s + t == t;
    } else {
      assert (s + t)[4..] == s[4..] + t;
      DecodeCut(s[4..], t);
    }
  }

  /// The alphabet, the bits and the vectors of RFC 4648 (sections 4 and 10).

  ghost predicate IsLetter(c: octet) {
    exists k: octet :: k < 64 && Letter(k) == c
  }

  // Only letters and the equals sign have a rank, and that of a letter is its own.
  lemma LetterOfRank(c: octet)
    ensures Rank(c) < 64 ==> Letter(Rank(c)) == c
    ensures Rank(c) < 64 <==> IsLetter(c)
    ensures Rank(c) >= 64 ==> Rank(c) == if c == EQUALS then 64 else BAD
  {
    assert Rank(c) < 64 ==> Letter(Rank(c)) == c;
    hide Rank, Letter;
    if k: octet :| k < 64 && Letter(k) == c { RankOfLetter(k); }
  }

  // Which groups are refused: the first two characters must be letters, the others may be equals signs.
  lemma GroupRefused(p: octet, q: octet, r: octet, s: octet)
    ensures Group(p, q, r, s) == None
            <==> !IsLetter(p) || !IsLetter(q) || !(IsLetter(r) || r == EQUALS) || !(IsLetter(s) || s == EQUALS)
  {
    LetterOfRank(p);
    LetterOfRank(q);
    LetterOfRank(r);
    LetterOfRank(s);
    hide Rank, IsLetter, Letter;
  }

  // Three bytes in a row and the four six-bit numbers are the same 24 bits.
  lemma SameBits(a: octet, b: octet, c: octet)
    ensures ((a as bv24) << 16) | ((b as bv24) << 8) | (c as bv24)
            == ((First(a) as bv24) << 18) | ((Second(a, b) as bv24) << 12) | ((Third(b, c) as bv24) << 6) | (Fourth(c) as bv24)
  {
  }

  // And so they are on the way back, whatever bits the padding leaves over.
  lemma BitsBack(x: octet, y: octet, z: octet, w: octet)
    requires x < 64 && y < 64 && z < 64 && w < 64
    ensures ((High(x, y) as bv24) << 16) | ((Middle(y, z) as bv24) << 8) | (Low(z, w) as bv24)
            == ((x as bv24) << 18) | ((y as bv24) << 12) | ((z as bv24) << 6) | (w as bv24)
  {
  }

  lemma Vectors()
    ensures Encode([0x66]) == [0x5a, 0x67, 0x3d, 0x3d]  // f is Zg==
    ensures Encode([0x66, 0x6f]) == [0x5a, 0x6d, 0x38, 0x3d]  // fo is Zm8=
    ensures Encode([0x66, 0x6f, 0x6f, 0x62, 0x61, 0x72])
            == [0x5a, 0x6d, 0x39, 0x76, 0x59, 0x6d, 0x46, 0x79]  // foobar is Zm9vYmFy
    ensures Encode([0xfb, 0xff, 0xbf]) == [0x2b, 0x2f, 0x2b, 0x2f]  // the last two letters, +/+/
  {
    var s := [0x66, 0x6f, 0x6f, 0x62, 0x61, 0x72];
    assert Block(0x66, 0x6f, 0x6f) == [0x5a, 0x6d, 0x39, 0x76] && Block(0x62, 0x61, 0x72) == [0x59, 0x6d, 0x46, 0x79];
    assert Block(0xfb, 0xff, 0xbf) == [0x2b, 0x2f, 0x2b, 0x2f];
    assert s[3..] == [0x62, 0x61, 0x72] && [0x62, 0x61, 0x72][3..] == [] && [0xfb, 0xff, 0xbf][3..] == [];
    hide Block;
    assert Encode([0x62, 0x61, 0x72]) == [0x59, 0x6d, 0x46, 0x79];
  }

  // bcpy: three bytes at a time.
  // The four characters for the bytes from place i on.
  function BlockAt(buf: seq<octet>, i: nat): (r: seq<octet>)
    requires i < |buf|
    ensures |r| == 4
  {
    var b: octet := if i + 1 < |buf| then buf[i + 1] else 0;
    var c: octet := if i + 2 < |buf| then buf[i + 2] else 0;
    [Letter(First(buf[i])), Letter(Second(buf[i], b)), if i + 1 < |buf| then Letter(Third(b, c)) else EQUALS,
     if i + 2 < |buf| then Letter(Fourth(c)) else EQUALS]
  }

  lemma EncodeFrom(buf: seq<octet>, i: nat)
    requires i < |buf|
    ensures Encode(buf[i..]) == BlockAt(buf, i) + (if i + 3 <= |buf| then Encode(buf[i + 3..]) else [])
    ensures i + 3 > |buf| ==> Encode(buf[i..]) == BlockAt(buf, i)
  {
    hide Letter, First, Second, Third, Fourth;
    var rest := buf[i..];
    if i + 3 <= |buf| { assert rest[3..] == buf[i + 3..]; }
  }

  method BlockEncode(buf: seq<octet>) returns (out: seq<octet>, n: nat)
    ensures out == Encode(buf) && n == |out|
  {
    hide Letter, First, Second, Third, Fourth, Encode;
    out, n := [], 0;
    var i := 0;
    assert buf[0..] == buf && [] + Encode(buf) == Encode(buf);
    while i < |buf|
      invariant 0 <= i && n == |out| && Encode(buf) == out + (if i <= |buf| then Encode(buf[i..]) else [])
    {
      var c1 := buf[i];
      var c2: octet := if i + 1 < |buf| then buf[i + 1] else 0;
      var c3: octet := if i + 2 < |buf| then buf[i + 2] else 0;
      var tmp := [Letter(First(c1)), Letter(Second(c1, c2)), EQUALS, EQUALS];
      if i + 1 < |buf| { tmp := tmp[2 := Letter(Third(c2, c3))]; }
      if i + 2 < |buf| { tmp := tmp[3 := Letter(Fourth(c3))]; }
      ghost var was, more := out, if i + 3 <= |buf| then Encode(buf[i + 3..]) else [];
      EncodeFrom(buf, i);
      assert tmp == BlockAt(buf, i);
      assert was + (tmp + more) == was + tmp + more;
      out, n := out + tmp, n + 4;
      i := i + 3;
    }
  }

  // The bits of a byte that wait for the next one, and the letter they make with it.

  function Left2(a: octet): octet { (a & 3) << 4 }

  function Left4(b: octet): octet { (b & 15) << 2 }

  function Fill4(left: octet, b: octet): octet { left | (b >> 4) }

  function Fill2(left: octet, c: octet): octet { left | (c >> 6) }

  lemma Joins(a: octet, b: octet, c: octet)
    ensures Second(a, b) == Fill4(Left2(a), b) && Third(b, c) == Fill2(Left4(b), c)
  {
  }

  // The output after some bytes have gone through mg_base64_update: whole blocks, then the letters
  // complete so far, then, where the next letter will stand, the bits left over.
  function Partial(s: seq<octet>): (r: seq<octet>)
    ensures |r| == Place(|s|) + (if Held(|s|) == 0 then 0 else 1)
  {
    if s == [] then []
    else if |s| == 1 then [Letter(First(s[0])), Left2(s[0])]
    else if |s| == 2 then [Letter(First(s[0])), Letter(Second(s[0], s[1])), Left4(s[1])]
    else Block(s[0], s[1], s[2]) + Partial(s[3..])
  }

  // Where mg_base64_update puts its next letter.
  function Place(k: nat): nat {
    if k < 3 then k else Place(k - 3) + 4
  }

  // How many bytes the last group has.
  function Held(k: nat): (r: nat)
    ensures r < 3
  {
    if k < 3 then k else Held(k - 3)
  }

  // What one more byte does to that: from letter n on, with r bytes in the last group, the left-over
  // bits become part of a letter.
  predicate TookByte(was: seq<octet>, now: seq<octet>, n: nat, r: nat, ch: octet) {
    && n <= |was| && n <= |now| && now[..n] == was[..n]
    && if r == 0 then n == |was| && now[n..] == [Letter(First(ch)), Left2(ch)]
       else
         && n + 1 == |was|
         && now[n..] == if r == 1 then [Letter(Fill4(was[n], ch)), Left4(ch)]
                        else [Letter(Fill2(was[n], ch)), Letter(Fourth(ch))]
  }

  // What the end does: a zero byte flushes the left-over bits, and padding fills the last group.
  predicate Ended(was: seq<octet>, now: seq<octet>, n: nat, r: nat) {
    && n <= |was| && n <= |now| && now[..n] == was[..n]
    && if r == 0 then now == was
       else
         && n + 1 == |was|
         && now[n..] == if r == 1 then [Letter(Fill4(was[n], 0)), EQUALS, EQUALS]
                        else [Letter(Fill2(was[n], 0)), EQUALS]
  }

  lemma TookByteAhead(block: seq<octet>, was: seq<octet>, now: seq<octet>, n: nat, r: nat, ch: octet)
    requires |block| == 4 && TookByte(was, now, n, r, ch)
    ensures TookByte(block + was, block + now, n + 4, r, ch)
  {
    hide Letter, First, Second, Third, Fourth, Left2, Left4, Fill4, Fill2;
    assert (block + now)[..n + 4] == block + now[..n] && (block + now)[n + 4..] == now[n..];
    assert (block + was)[..n + 4] == block + was[..n];
  }

  lemma EndedAhead(block: seq<octet>, was: seq<octet>, now: seq<octet>, n: nat, r: nat)
    requires |block| == 4 && Ended(was, now, n, r)
    ensures Ended(block + was, block + now, n + 4, r)
  {
    hide Letter, First, Second, Third, Fourth, Left2, Left4, Fill4, Fill2;
    assert (block + now)[..n + 4] == block + now[..n] && (block + now)[n + 4..] == now[n..];
    assert (block + was)[..n + 4] == block + was[..n];
  }

  lemma {:induction false} PartialSnoc(s: seq<octet>, ch: octet)
    ensures TookByte(Partial(s), Partial(s + [ch]), Place(|s|), Held(|s|), ch)
    decreases |s|
  {
    hide *;
    PlaceNext(|s|);
    if |s| < 3 {
      PartialSnocShort(s, ch);
    } else {
      var a, b, c, rest := s[0], s[1], s[2], s[3..];
      PartialNext(a, b, c, rest);
      PartialNext(a, b, c, rest + [ch]);
      assert s == [a, b, c] + rest && s + [ch] == [a, b, c] + (rest + [ch]);
      PartialSnoc(rest, ch);
      TookByteAhead(Block(a, b, c), Partial(rest), Partial(rest + [ch]), Place(|rest|), Held(|rest|), ch);
    }
  }

  lemma PartialNext(a: octet, b: octet, c: octet, rest: seq<octet>)
    ensures Partial([a, b, c] + rest) == Block(a, b, c) + Partial(rest) && |Block(a, b, c)| == 4
  {
    hide Letter, First, Second, Third, Fourth, Left2, Left4;
    assert ([a, b, c] + rest)[3..] == rest;
  }

  lemma PartialSnocShort(s: seq<octet>, ch: octet)
    requires |s| < 3 && Place(|s|) == Held(|s|) == |s|
    ensures TookByte(Partial(s), Partial(s + [ch]), Place(|s|), Held(|s|), ch)
  {
    hide *;
    if s == [] {
      assert s + [ch] == [ch];
      TookByteShort(0, 0, ch);
    } else if |s| == 1 {
      assert s == [s[0]] && s + [ch] == [s[0], ch];
      TookByteShort(s[0], 0, ch);
    } else {
      assert s == [s[0], s[1]] && s + [ch] == [s[0], s[1], ch];
      TookByteShort(s[0], s[1], ch);
    }
  }

  lemma PartialShort(a: octet, b: octet, c: octet)
    ensures Partial([]) == [] && Partial([a]) == [Letter(First(a)), Left2(a)]
    ensures Partial([a, b]) == [Letter(First(a)), Letter(Second(a, b)), Left4(b)]
    ensures Partial([a, b, c]) == Block(a, b, c)
  {
    hide Letter, First, Second, Third, Fourth, Left2, Left4;
    assert [a, b, c][3..] == [];
  }

  lemma TookByteShort(a: octet, b: octet, ch: octet)
    ensures TookByte(Partial([]), Partial([ch]), 0, 0, ch)
    ensures TookByte(Partial([a]), Partial([a, ch]), 1, 1, ch)
    ensures TookByte(Partial([a, b]), Partial([a, b, ch]), 2, 2, ch)
  {
    hide *;
    PartialShort(ch, 0, 0);
    PartialShort(a, ch, 0);
    PartialShort(a, b, ch);
    TookFirst(ch);
    TookSecond(a, ch);
    TookThird(a, b, ch);
  }

  lemma TookFirst(ch: octet)
    ensures TookByte([], [Letter(First(ch)), Left2(ch)], 0, 0, ch)
  {
  }

  lemma TookSecond(a: octet, ch: octet)
    ensures TookByte([Letter(First(a)), Left2(a)], [Letter(First(a)), Letter(Second(a, ch)), Left4(ch)], 1, 1, ch)
  {
    Joins(a, ch, 0);
    hide Letter, First, Second, Third, Fourth, Left2, Left4, Fill4, Fill2;
  }

  lemma TookThird(a: octet, b: octet, ch: octet)
    ensures TookByte([Letter(First(a)), Letter(Second(a, b)), Left4(b)], Block(a, b, ch), 2, 2, ch)
  {
    Joins(a, b, ch);
    hide Letter, First, Second, Third, Fourth, Left2, Left4, Fill4, Fill2;
  }

  lemma PlaceNext(k: nat)
    ensures if k < 3 then Place(k) == Held(k) == k else Place(k) == Place(k - 3) + 4 && Held(k) == Held(k - 3)
  {
  }

  lemma {:induction false} PartialEnds(s: seq<octet>)
    ensures Ended(Partial(s), Encode(s), Place(|s|), Held(|s|))
    decreases |s|
  {
    hide Letter, First, Second, Third, Fourth, Left2, Left4, Fill4, Fill2;
    if |s| == 1 {
      Joins(s[0], 0, 0);
    } else if |s| == 2 {
      Joins(s[0], s[1], 0);
    } else if |s| > 2 {
      hide Ended, Block;
      PlaceNext(|s|);
      PartialEnds(s[3..]);
      EndedAhead(Block(s[0], s[1], s[2]), Partial(s[3..]), Encode(s[3..]), Place(|s| - 3), Held(|s|));
    }
  }

  lemma {:induction false} PlaceStep(k: nat)
    ensures Place(k) % 4 % 3 == Held(k) == Place(k) % 4
    ensures Place(k + 1) == Place(k) + (if Held(k) == 2 then 2 else 1)
  {
    if k >= 3 { PlaceStep(k - 3); }
  }

  lemma {:induction false} PlaceValue(k: nat)
    ensures Place(k) == k / 3 * 4 + k % 3 && Held(k) == k % 3
  {
    if k >= 3 { PlaceValue(k - 3); }
  }

  // The output so far is at the front of to.
  ghost predicate Holds(to: array<octet>, text: seq<octet>)
    reads to
  {
    |text| <= to.Length && to[..|text|] == text
  }

  lemma HoldsFront(to: array<octet>, text: seq<octet>, k: nat)
    requires Holds(to, text) && k <= |text|
    ensures k <= to.Length && to[..k] == text[..k]
  {
    assert to[..|text|][..k] == to[..k];
  }

  // mg_base64_update: takes one more byte, with the next letter due at to[n].
  method Update(ch: octet, to: array<octet>, n: nat, ghost s: seq<octet>) returns (m: nat)
    requires n == Place(|s|) && n + 2 <= to.Length && Holds(to, Partial(s))
    modifies to
    ensures m == Place(|s| + 1) && Holds(to, Partial(s + [ch]))
  {
    hide Letter, First, Second, Third, Fourth, Left2, Left4, Fill4, Fill2, Partial, Place, TookByte;
    PartialSnoc(s, ch);
    PlaceStep(|s|);
    ghost var was, now := Partial(s), Partial(s + [ch]);
    TookByteParts(was, now, n, Held(|s|), ch);
    var rem := n % 4 % 3;
    if rem == 0 {
      to[n] := Letter(First(ch));
      to[n + 1] := Left2(ch);
      m := n + 1;
    } else if rem == 1 {
      to[n] := Letter(Fill4(to[n], ch));
      to[n + 1] := Left4(ch);
      m := n + 1;
    } else {
      to[n] := Letter(Fill2(to[n], ch));
      to[n + 1] := Letter(Fourth(ch));
      m := n + 2;
    }
    assert to[..n] == was[..n];
    assert to[..n + 2] == to[..n] + [to[n], to[n + 1]];
  }

  lemma TookByteParts(was: seq<octet>, now: seq<octet>, n: nat, r: nat, ch: octet)
    requires TookByte(was, now, n, r, ch) && r < 3
    ensures |now| == n + 2 && n <= |was| && (r > 0 ==> n < |was|)
    ensures now == was[..n] + if r == 0 then [Letter(First(ch)), Left2(ch)]
                              else if r == 1 then [Letter(Fill4(was[n], ch)), Left4(ch)]
                              else [Letter(Fill2(was[n], ch)), Letter(Fourth(ch))]
  {
    hide Letter, First, Second, Third, Fourth, Left2, Left4, Fill4, Fill2;
    assert now == now[..n] + now[n..];
  }

  // What a zero byte leaves and what is wanted agree up to the last letter; then comes padding.
  lemma FlushedParts(was: seq<octet>, next: seq<octet>, now: seq<octet>, n: nat, r: nat)
    requires TookByte(was, next, n, r, 0) && Ended(was, now, n, r) && 0 < r < 3
    ensures |next| == n + 2 && |now| == n + 4 - r && next[..n + 1] == now[..n + 1]
    ensures forall k :: n < k < |now| ==> now[k] == EQUALS
  {
    hide Letter, First, Second, Third, Fourth, Left2, Left4, Fill4, Fill2;
    assert next == next[..n] + next[n..] && now == now[..n] + now[n..];
  }

  // mg_base64_final: flushes, pads and terminates.
  method Final(to: array<octet>, n: nat, ghost s: seq<octet>) returns (len: nat)
    requires n == Place(|s|) && |Encode(s)| < to.Length && Holds(to, Partial(s))
    modifies to
    ensures len == |Encode(s)| && to[..len] == Encode(s) && to[len] == 0
  {
    if n % 4 == 0 {
      PartialEnds(s);
      PlaceStep(|s|);
      hide Partial, Encode, Place;
      len := n;
    } else {
      len := Flush(to, n, s);
    }
    hide Partial, Encode, Place;
    len := Pad(to, len, Encode(s));
    to[len] := 0;
  }

  // Padding up to a multiple of four.
  method Pad(to: array<octet>, n: nat, ghost now: seq<octet>) returns (len: nat)
    requires n <= |now| < n + 4 && |now| % 4 == 0 && |now| < to.Length && to[..n] == now[..n]
    requires forall k :: n <= k < |now| ==> now[k] == EQUALS
    modifies to
    ensures len == |now| && to[..len] == now
  {
    len := n;
    while len % 4 != 0
      invariant n <= len <= |now| < len + 4 && to[..len] == now[..len]
      decreases |now| - len
    {
      to[len] := EQUALS;
      len := len + 1;
    }
  }

  lemma Flushing(s: seq<octet>, n: nat)
    requires n == Place(|s|) && n % 4 != 0
    ensures n + 2 <= |Encode(s)| == n + 4 - n % 4
    ensures Place(|s| + 1) == (if n % 4 == 2 then n + 2 else n + 1) && |Partial(s + [0])| == n + 2
    ensures Partial(s + [0])[..n + 1] == Encode(s)[..n + 1]
    ensures forall k :: n < k < |Encode(s)| ==> Encode(s)[k] == EQUALS
  {
    PlaceStep(|s|);
    PartialEnds(s);
    PartialSnoc(s, 0);
    FlushedParts(Partial(s), Partial(s + [0]), Encode(s), n, Held(|s|));
    hide *;
  }

  // The letter that holds the last left-over bits.
  method Flush(to: array<octet>, n: nat, ghost s: seq<octet>) returns (len: nat)
    requires n == Place(|s|) && n % 4 != 0 && |Encode(s)| < to.Length && Holds(to, Partial(s))
    modifies to
    ensures n < len <= |Encode(s)| && len % 4 != 0 && to[..len] == Encode(s)[..len]
    ensures |Encode(s)| < len + 4 && |Encode(s)| % 4 == 0
    ensures forall k :: len <= k < |Encode(s)| ==> Encode(s)[k] == EQUALS
  {
    hide *;
    ghost var next, now := Partial(s + [0]), Encode(s);
    Flushing(s, n);
    len := Update(0, to, n, s);
    if n % 4 == 2 { len := len - 1; }
    HoldsFront(to, next, n + 1);
    assert len == n + 1;
    assert to[..len] == next[..len] == now[..len];
  }

  // mg_base64_encode: byte at a time, and yet the same text as three at a time.
  method EncodeBytes(p: seq<octet>, to: array<octet>) returns (len: nat)
    requires |Encode(p)| < to.Length
    modifies to
    ensures len == |Encode(p)| && to[..len] == Encode(p) && to[len] == 0
  {
    len := 0;
    for i := 0 to |p|
      invariant len == Place(i) && Holds(to, Partial(p[..i]))
    {
      PlaceValue(i);
      assert p[..i + 1] == p[..i] + [p[i]];
      len := Update(p[i], to, len, p[..i]);
    }
    assert p[..|p|] == p;
    len := Final(to, len, p);
  }

  // The loop body: the bytes of four characters.
  method PutGroup(p: octet, q: octet, r: octet, s: octet, dst: array<octet>, len: nat) returns (ok: bool, n: nat)
    requires len + 3 <= dst.Length
    modifies dst
    ensures match Group(p, q, r, s)
            case None => !ok
            case Some(g) => ok && n == len + |g| <= len + 3 && dst[..n] == old(dst[..len]) + g
  {
    hide Rank, High, Middle, Low;
    ok, n := false, len;
    var a, b, c, d := Rank(p), Rank(q), Rank(r), Rank(s);
    if a >= 64 || b >= 64 || c == BAD || d == BAD { return; }
    ok := true;
    dst[n] := High(a, b);
    n := n + 1;
    if r != EQUALS {
      dst[n] := Middle(b, c);
      n := n + 1;
      if s != EQUALS {
        dst[n] := Low(c, d);
        n := n + 1;
      }
    }
  }

  // mg_base64_decode: 0 when a character does not belong, else the bytes and a zero behind them.
  method DecodeBytes(src: seq<octet>, dst: array<octet>) returns (len: nat)
    requires |src| / 4 * 3 < dst.Length
    modifies dst
    ensures match Decode(src)
            case None => len == 0
            case Some(d) => len == |d| && dst[..len] == d && dst[len] == 0
  {
    hide Group;
    len := 0;
    var i := 0;
    assert src[0..] == src && Both(Some([]), Decode(src)) == Decode(src) by {
      if Decode(src).Some? { assert [] + Decode(src).value == Decode(src).value; }
    }
    while i + 3 < |src|
      invariant i <= |src| && i % 4 == 0 && len <= i / 4 * 3
      invariant Decode(src) == Both(Some(dst[..len]), Decode(src[i..]))
    {
      ghost var rest, done := src[i..], dst[..len];
      assert rest[4..] == src[i + 4..];
      var ok, n := PutGroup(src[i], src[i + 1], src[i + 2], src[i + 3], dst, len);
      if !ok { return 0; }
      BothAssociates(done, Group(src[i], src[i + 1], src[i + 2], src[i + 3]).value, Decode(src[i + 4..]));
      i, len := i + 4, n;
    }
    dst[len] := 0;
  }

  lemma BothAssociates(a: seq<octet>, b: seq<octet>, c: Option<seq<octet>>)
    ensures Both(Some(a), Both(Some(b), c)) == Both(Some(a + b), c)
  {
    if c.Some? { assert a + (b + c.value) == a + b + c.value; }
  }

  // There and back through the two loops.
  method EncodeAndDecode(p: seq<octet>, text: array<octet>, dst: array<octet>) returns (len: nat)
    requires text != dst && |Encode(p)| < text.Length && |Encode(p)| / 4 * 3 < dst.Length
    modifies text, dst
    ensures len == |p| && dst[..len] == p
  {
    DecodeEncode(p);
    var n := EncodeBytes(p, text);
    len := DecodeBytes(text[..n], dst);
  }
}
