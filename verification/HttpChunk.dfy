/** Chunked HTTP bodies (section 7.1 of RFC 9112), decoded in place as their bytes arrive. */
module HttpChunk {
  import opened Bytes
  import opened IoBuf

  const CR: byte := 13
  const LF: byte := 10

  // The top bit of pfn_data: the handler has deleted a chunk.
  const DMARK := TWO_63

  // pfn_data & ~MG_DMARK
  function Processed(pfnData: nat): nat {
    if pfnData >= DMARK then pfnData - DMARK else pfnData
  }

  /// Hexadecimal sizes.

  // "%lx"
  function Hex(n: nat): (r: seq<byte>)
    ensures |r| > 0
    ensures forall i :: 0 <= i < |r| ==> r[i] != CR && r[i] != LF
  {
    (if n < 16 then [] else Hex(n / 16)) + [HexDigit(n % 16)]
  }

  function HexDigit(d: nat): byte
    requires d < 16
  {
    if d < 10 then 48 + d else 87 + d
  }

  // mg_unhex_nimble: no digit is refused; others wrap around in an unsigned char.
  function Nibble(c: byte): byte {
    if 48 <= c <= 57 then c - 48 else if 65 <= c <= 70 then c - 55 else if c >= 87 then c - 87 else c + 169
  }

  function BitOr(a: nat, b: nat): nat {
    if a == 0 then b else if b == 0 then a
    else (if a % 2 == 1 || b % 2 == 1 then 1 else 0) + 2 * BitOr(a / 2, b / 2)
  }

  // mg_unhexn on 64-bit values: v = v << 4 | nibble for each byte in turn.
  function Unhex(s: seq<byte>): nat {
    if s == [] then 0 else BitOr(Wrap64(16 * Unhex(s[..|s| - 1])), Nibble(s[|s| - 1]))
  }

  lemma OrDouble(a: nat, b: nat, bit: nat, twiceA: nat, twiceB: nat)
    requires bit < 2 && twiceA == 2 * a && twiceB == 2 * b + bit
    ensures BitOr(twiceA, twiceB) == 2 * BitOr(a, b) + bit
  {
  }

  const LOWER: string := "0123456789abcdef"
  const UPPER: string := "0123456789ABCDEF"

  // c is the digit d, in either case.
  predicate DigitIs(c: byte, d: nat) {
    d < 16 && (c == LOWER[d] as int || c == UPPER[d] as int)
  }

  // The size n in hexadecimal digits of either case, with any zeros in front.
  predicate Sizes(s: seq<byte>, n: nat) {
    if s == [] then n == 0 else DigitIs(s[|s| - 1], n % 16) && Sizes(s[..|s| - 1], n / 16)
  }

  // Every digit is read as what it stands for; any other byte as its distance from 'W'.
  lemma NibbleIs(c: byte, d: nat)
    ensures DigitIs(c, d) ==> Nibble(c) == d
    ensures (forall e: nat :: !DigitIs(c, e)) ==> (Nibble(c) + 'W' as int) % 256 == c
  {
    if 48 <= c <= 57 { assert DigitIs(c, c - 48); }
    if 65 <= c <= 70 { assert DigitIs(c, c - 55); }
  }

  lemma NibbleStep(v: nat, c: byte, d: nat)
    requires 16 * v < TWO_64 && DigitIs(c, d)
    ensures BitOr(Wrap64(16 * v), Nibble(c)) == 16 * v + d
  {
    hide BitOr, Nibble, Wrap64;
    NibbleIs(c, d);
    SmallWrap(16 * v);
    OrDigit(v, d);
  }

  lemma OrDigit(v: nat, d: nat)
    requires d < 16
    ensures BitOr(16 * v, d) == 16 * v + d
  {
    hide BitOr;
    NibbleBits(v, d / 8, d / 4 % 2, d / 2 % 2, d % 2);
    assert d == 8 * (d / 8) + 4 * (d / 4 % 2) + 2 * (d / 2 % 2) + d % 2;
  }

  lemma SmallWrap(x: nat)
    requires x < TWO_64
    ensures Wrap64(x) == x
  {
  }

  lemma NibbleBits(v: nat, b3: nat, b2: nat, b1: nat, b0: nat)
    requires b3 < 2 && b2 < 2 && b1 < 2 && b0 < 2
    ensures BitOr(16 * v, 8 * b3 + 4 * b2 + 2 * b1 + b0) == 16 * v + 8 * b3 + 4 * b2 + 2 * b1 + b0
  {
    assert BitOr(v, 0) == v;
    hide BitOr;
    OrDouble(v, 0, b3, 2 * v, b3);
    OrDouble(2 * v, b3, b2, 4 * v, 2 * b3 + b2);
    OrDouble(4 * v, 2 * b3 + b2, b1, 8 * v, 4 * b3 + 2 * b2 + b1);
    OrDouble(8 * v, 4 * b3 + 2 * b2 + b1, b0, 16 * v, 8 * b3 + 4 * b2 + 2 * b1 + b0);
  }

  // The reader of sizes takes digits in either case, for every size a size_t can hold ...
  lemma {:induction false} UnhexSize(s: seq<byte>, n: nat)
    requires Sizes(s, n) && n < TWO_64
    ensures Unhex(s) == n
    decreases |s|
  {
    hide DigitIs, BitOr, Nibble;
    if s != [] {
      UnhexSize(s[..|s| - 1], n / 16);
      NibbleStep(n / 16, s[|s| - 1], n % 16);
    }
  }

  // ... and so undoes the writer.
  lemma {:induction false} HexIsSize(n: nat)
    ensures Sizes(Hex(n), n)
    decreases n
  {
    var h := Hex(n);
    var high := if n < 16 then [] else Hex(n / 16);
    assert h[..|h| - 1] == high && h[|h| - 1] == HexDigit(n % 16);
    DigitStands(n % 16);
    if n >= 16 { HexIsSize(n / 16); }
  }

  lemma DigitStands(d: nat)
    requires d < 16
    ensures DigitIs(HexDigit(d), d)
  {
  }

  lemma UnhexHex(n: nat)
    requires n < TWO_64
    ensures Unhex(Hex(n)) == n
  {
    HexIsSize(n);
    UnhexSize(Hex(n), n);
  }

  lemma {:induction false} SizeIsPlain(s: seq<byte>, n: nat)
    requires Sizes(s, n)
    ensures forall k :: 0 <= k < |s| ==> s[k] != CR && s[k] != LF
    decreases |s|
  {
    if s != [] {
      SizeIsPlain(s[..|s| - 1], n / 16);
      DigitIsPlain(s[|s| - 1], n % 16);
      assert forall k :: 0 <= k < |s| - 1 ==> s[k] == s[..|s| - 1][k];
    }
  }

  lemma DigitIsPlain(c: byte, d: nat)
    requires DigitIs(c, d)
    ensures c != CR && c != LF
  {
  }

  /// One chunk.

  datatype Option<T> = None | Some(value: T)
  // The bytes up to and including the size line's CRLF, and the bytes of data after it.
  datatype Span = Span(prefix: nat, data: nat)

  // The first CR or LF, or the end.
  function LineEnd(s: seq<byte>): (i: nat)
    ensures i <= |s|
    ensures forall k :: 0 <= k < i ==> s[k] != CR && s[k] != LF
    ensures i < |s| ==> s[i] == CR || s[i] == LF
  {
    if s == [] || s[0] == CR || s[0] == LF then 0 else 1 + LineEnd(s[1..])
  }

  // The chunk at the front of s, whatever its size; None while it is not all there, or malformed.
  function Chunk(s: seq<byte>): (r: Option<Span>)
    ensures r.Some? ==> 2 <= r.value.prefix && r.value.prefix + r.value.data + 2 <= |s|
  {
    var i := LineEnd(s);
    var n := Unhex(s[..i]);
    if |s| < i + n + 4 || s[i] != CR || s[i + 1] != LF || s[i + n + 2] != CR || s[i + n + 3] != LF
    then None
    else Some(Span(i + 2, n))
  }

  // A chunk as a sender may write it, with its size line in digits of either case.
  datatype Sized = Sized(size: seq<byte>, data: seq<byte>)

  function Encode(w: Sized): seq<byte> {
    w.size + [CR, LF] + w.data + [CR, LF]
  }

  predicate WellSized(w: Sized) {
    Sizes(w.size, |w.data|) && |w.data| < TWO_64
  }

  // What mg_http_write_chunk sends.
  function Written(data: seq<byte>): Sized {
    Sized(Hex(|data|), data)
  }

  lemma WrittenIsSized(data: seq<byte>)
    requires |data| < TWO_64
    ensures WellSized(Written(data))
  {
    HexIsSize(|data|);
  }

  // A body: chunks with data, and one without to close it.
  function EncodeAll(ws: seq<Sized>, last: Sized): seq<byte> {
    if ws == [] then Encode(last) else Encode(ws[0]) + EncodeAll(ws[1..], last)
  }

  predicate ClosedBody(ws: seq<Sized>, last: Sized) {
    (forall k :: 0 <= k < |ws| ==> WellSized(ws[k]) && ws[k].data != []) && WellSized(last) && last.data == []
  }

  function Datas(ws: seq<Sized>): seq<seq<byte>> {
    if ws == [] then [] else [ws[0].data] + Datas(ws[1..])
  }

  lemma LineEndIs(s: seq<byte>, i: nat)
    requires i <= |s| && (i < |s| ==> s[i] == CR || s[i] == LF)
    requires forall k :: 0 <= k < i ==> s[k] != CR && s[k] != LF
    ensures LineEnd(s) == i
  {
  }

  // Where each part of an encoded chunk lies.
  lemma EncodeParts(w: Sized, rest: seq<byte>)
    ensures var s := Encode(w) + rest; var i := |w.size|; var j := i + 2 + |w.data|;
            && j + 2 <= |s|
            && s[..i] == w.size && s[i] == CR && s[i + 1] == LF
            && s[i + 2..j] == w.data && s[j] == CR && s[j + 1] == LF
            && s[j + 2..] == rest
  {
    var s := Encode(w) + rest;
    var body := w.data + ([CR, LF] + rest);
    assert s == w.size + ([CR, LF] + body);
    assert s[|w.size| + 2..] == body;
  }

  lemma ChunkOfEncode(w: Sized, rest: seq<byte>)
    requires WellSized(w)
    ensures var s := Encode(w) + rest; var h := |w.size|;
            && Chunk(s) == Some(Span(h + 2, |w.data|))
            && s[h + 2..h + 2 + |w.data|] == w.data
            && s[h + 2 + |w.data| + 2..] == rest
  {
    hide Encode, LineEnd, Unhex, Sizes;
    EncodeParts(w, rest);
    var s := Encode(w) + rest;
    SizeIsPlain(w.size, |w.data|);
    assert forall k :: 0 <= k < |w.size| ==> s[k] == s[..|w.size|][k];
    LineEndIs(s, |w.size|);
    UnhexSize(w.size, |w.data|);
  }

  // A chunk once found stays the same however much follows it.
  lemma ChunkStable(s: seq<byte>, t: seq<byte>)
    requires Chunk(s).Some?
    ensures Chunk(s + t) == Chunk(s)
  {
    var i := LineEnd(s);
    LineEndIs(s + t, i);
    assert (s + t)[..i] == s[..i];
  }

  /// What getchunk computes in 64-bit arithmetic.

  // Outside: it reads a byte that has not been received.
  datatype Got = Nothing | Piece(span: Span) | Outside

  // s.ptr[x], with `before` in front of s in the receive buffer; a size_t x may reach back.
  function Peek(before: seq<byte>, s: seq<byte>, x: nat): Option<byte> {
    var at := Wrap64(|before| + x);
    if at < |before| then Some(before[at]) else if at < |before| + |s| then Some(s[at - |before|]) else None
  }

  function Test(b: Option<byte>, wanted: byte, then_: Got): Got {
    if b.None? then Outside else if b.value != wanted then Nothing else then_
  }

  function GetChunk(before: seq<byte>, s: seq<byte>): Got {
    var i := LineEnd(s);
    var n := Unhex(s[..i]);
    if |s| < Wrap64(i + n + 4) then Nothing
    else
      Test(Peek(before, s, i), CR, Test(Peek(before, s, Wrap64(i + 1)), LF,
        Test(Peek(before, s, Wrap64(i + n + 2)), CR, Test(Peek(before, s, Wrap64(i + n + 3)), LF,
          Piece(Span(i + 2, n))))))
  }

  // A chunk that fits into 64 bits, size line and all.
  predicate SizeFits(s: seq<byte>) {
    LineEnd(s) + Unhex(s[..LineEnd(s)]) + 4 < TWO_64
  }

  predicate EndsInCrLf(s: seq<byte>) {
    |s| >= 2 && s[|s| - 2] == CR && s[|s| - 1] == LF
  }

  // The wrapped sums that pass for a chunk, or make getchunk read on: a size of 2^64 - 2 is closed by
  // its own line end, one that reaches just before the size line by a line end in front of it, and the
  // line end of a large size may not have come yet.
  predicate Misread(before: seq<byte>, s: seq<byte>) {
    var i := LineEnd(s);
    var n := Unhex(s[..i]);
    && !SizeFits(s)
    && if i == |s| then n + 4 <= TWO_64
       else s[i] == CR && if i + 1 == |s| then n + 3 <= TWO_64
       else s[i + 1] == LF && (n + 2 == TWO_64 || (i + n + 4 == TWO_64 && EndsInCrLf(before)))
  }

  function Promised(c: Option<Span>): Got {
    if c.None? then Nothing else Piece(c.value)
  }

  // The or of two numbers has the bits of both, however far they overlap.
  lemma {:induction false} OrIs(a: nat, b: nat, k: nat)
    ensures Bit(BitOr(a, b), k) == 1 <==> Bit(a, k) == 1 || Bit(b, k) == 1
    decreases k
  {
    ZeroBit(k);
    var bit := if a % 2 == 1 || b % 2 == 1 then 1 else 0;
    if a > 0 && b > 0 {
      if k > 0 { OrIs(a / 2, b / 2, k - 1); }
      assert (bit + 2 * BitOr(a / 2, b / 2)) / 2 == BitOr(a / 2, b / 2);
    }
  }

  lemma {:induction false} ZeroBit(k: nat)
    ensures Bit(0, k) == 0
    decreases k
  {
    if k > 0 { ZeroBit(k - 1); }
  }

  lemma {:induction false} OrFits(a: nat, b: nat, k: nat)
    requires a < Power2(k) && b < Power2(k)
    ensures BitOr(a, b) < Power2(k)
    decreases k
  {
    if a > 0 && b > 0 && k > 0 { OrFits(a / 2, b / 2, k - 1); }
  }

  lemma UnhexFits(s: seq<byte>)
    ensures Unhex(s) < TWO_64 && (s == [] ==> Unhex(s) == 0)
  {
    if s != [] {
      var v, d := Wrap64(16 * Unhex(s[..|s| - 1])), Nibble(s[|s| - 1]);
      hide Nibble, Unhex, Wrap64;
      TwoPower64();
      OrFits(v, d, 64);
    }
  }

  lemma TwoPower64()
    ensures Power2(64) == TWO_64 && Power2(63) == DMARK
  {
    assert Power2(8) == 256;
    assert Power2(16) == 256 * Power2(8);
    assert Power2(24) == 256 * Power2(16);
    assert Power2(32) == 256 * Power2(24);
    assert Power2(40) == 256 * Power2(32);
    assert Power2(48) == 256 * Power2(40);
    assert Power2(56) == 256 * Power2(48);
    assert Power2(64) == 256 * Power2(56);
  }

  lemma WrapIs(x: nat, r: nat)
    requires r < TWO_64 && (x == r || x == r + TWO_64)
    ensures Wrap64(x) == r
  {
  }

  // The byte at an offset from s that may reach back two bytes.
  function At(before: seq<byte>, s: seq<byte>, y: int): Option<byte>
    requires 2 <= |before| && -2 <= y
  {
    if y < 0 then Some(before[|before| + y]) else if y < |s| then Some(s[y]) else None
  }

  lemma PeekAt(before: seq<byte>, s: seq<byte>, x: nat, y: int)
    requires 2 <= |before| && |before| + |s| < TWO_63 && -2 <= y < TWO_63 && (x == y || x == y + TWO_64)
    ensures Peek(before, s, Wrap64(x)) == At(before, s, y)
  {
    var r := if y < 0 then y + TWO_64 else y;
    assert Wrap64(x) == r;
    assert Wrap64(|before| + r) == |before| + y;
  }

  // The same without wrap-around: `sum` is i + n + 4, or that less 2^64.
  lemma Unwrapped(before: seq<byte>, s: seq<byte>, i: nat, n: nat, sum: nat)
    requires 2 <= |before| && |before| + |s| < TWO_63 && i == LineEnd(s) && n == Unhex(s[..i]) && sum < TWO_64
    requires i + n + 4 == sum || i + n + 4 == sum + TWO_64
    ensures GetChunk(before, s) ==
      if |s| < sum then Nothing
      else Test(At(before, s, i), CR, Test(At(before, s, i + 1), LF,
        Test(At(before, s, sum - 2), CR, Test(At(before, s, sum - 1), LF, Piece(Span(i + 2, n))))))
  {
    hide Unhex, LineEnd, Peek, At;
    WrapIs(i, i);
    WrapIs(i + 1, i + 1);
    WrapIs(i + n + 4, sum);
    hide Wrap64;
    if |s| >= sum {
      PeekAt(before, s, i, i);
      PeekAt(before, s, i + 1, i + 1);
      PeekAt(before, s, i + n + 2, sum - 2);
      PeekAt(before, s, i + n + 3, sum - 1);
    }
  }

  lemma PlainScan(before: seq<byte>, s: seq<byte>)
    requires 2 <= |before| && |before| + |s| < TWO_63 && SizeFits(s)
    ensures GetChunk(before, s) == Promised(Chunk(s))
  {
    var i := LineEnd(s);
    var n := Unhex(s[..i]);
    Unwrapped(before, s, i, n, i + n + 4);
    hide Unhex, LineEnd, GetChunk;
  }

  // The sum of a size line that wraps.
  lemma WrappedSum(before: seq<byte>, s: seq<byte>) returns (i: nat, n: nat, sum: nat)
    requires 2 <= |before| && |before| + |s| < TWO_63 && !SizeFits(s)
    ensures i == LineEnd(s) && n == Unhex(s[..i]) && sum == i + n + 4 - TWO_64 && sum < i + 4 && i > 0
    ensures GetChunk(before, s) ==
      if |s| < sum then Nothing
      else Test(At(before, s, i), CR, Test(At(before, s, i + 1), LF,
        Test(At(before, s, sum - 2), CR, Test(At(before, s, sum - 1), LF, Piece(Span(i + 2, n))))))
  {
    i := LineEnd(s);
    n := Unhex(s[..i]);
    UnhexFits(s[..i]);
    hide Unhex, LineEnd;
    sum := i + n + 4 - TWO_64;
    Unwrapped(before, s, i, n, sum);
  }

  lemma Misled(before: seq<byte>, s: seq<byte>)
    requires 2 <= |before| && |before| + |s| < TWO_63 && Misread(before, s)
    ensures var i := LineEnd(s); var got := GetChunk(before, s);
            got == Outside || got == Piece(Span(i + 2, Unhex(s[..i])))
  {
    hide Unhex, LineEnd;
    var i, n, sum := WrappedSum(before, s);
    hide GetChunk;
  }

  lemma NotMisled(before: seq<byte>, s: seq<byte>)
    requires 2 <= |before| && |before| + |s| < TWO_63 && !SizeFits(s) && !Misread(before, s)
    ensures GetChunk(before, s) == Nothing
  {
    hide Unhex, LineEnd;
    var i, n, sum := WrappedSum(before, s);
    hide GetChunk;
  }

  // getchunk finds what the format says exactly when the sums it wraps do not mislead it; otherwise
  // it reads bytes that are not there, or reports more data than there is.
  lemma GetChunkExact(before: seq<byte>, s: seq<byte>)
    requires 2 <= |before| && |before| + |s| < TWO_63
    ensures GetChunk(before, s) == Promised(Chunk(s)) <==> !Misread(before, s)
    ensures Misread(before, s)
            <==> GetChunk(before, s).Outside? || (GetChunk(before, s).Piece? && GetChunk(before, s).span.data > |s|)
  {
    if SizeFits(s) {
      PlainScan(before, s);
    } else {
      assert Chunk(s) == None;
      if Misread(before, s) { Misled(before, s); } else { NotMisled(before, s); }
    }
    hide Unhex, LineEnd, GetChunk;
  }

  // fffffffffffffffe and a line end pass for a chunk of 2^64 - 2 bytes, wherever they come ...
  lemma OwnLineEndTaken(before: seq<byte>)
    requires 2 <= |before| < TWO_63 - 18
    ensures GetChunk(before, Hex(TWO_64 - 2) + [CR, LF]) == Piece(Span(18, TWO_64 - 2))
  {
    SixteenDigits(TWO_64 - 2);
    SizeLine(TWO_64 - 2);
    hide Unhex, LineEnd, Hex;
    var i, n, sum := WrappedSum(before, Hex(TWO_64 - 2) + [CR, LF]);
    hide GetChunk;
  }

  // ... and so do ffffffffffffffec and a line end when a line end stands in front of them.
  lemma LineEndInFrontTaken(before: seq<byte>)
    requires |before| < TWO_63 - 18 && EndsInCrLf(before)
    ensures GetChunk(before, Hex(TWO_64 - 20) + [CR, LF]) == Piece(Span(18, TWO_64 - 20))
  {
    SixteenDigits(TWO_64 - 20);
    SizeLine(TWO_64 - 20);
    hide Unhex, LineEnd, Hex;
    var i, n, sum := WrappedSum(before, Hex(TWO_64 - 20) + [CR, LF]);
    hide GetChunk;
  }

  lemma SixteenDigits(n: nat)
    requires TWO_64 - 20 <= n < TWO_64
    ensures |Hex(n)| == 16
  {
    assert Power256(7) == 0x100_0000_0000_0000 && Power256(8) == TWO_64;
    EvenDigits(n, 8);
  }

  // A number that needs k bytes, the highest at least 16, has 2k digits.
  lemma {:induction false} EvenDigits(n: nat, k: nat)
    requires k > 0 && 16 * Power256(k - 1) <= n < Power256(k)
    ensures |Hex(n)| == 2 * k
    decreases k
  {
    assert |Hex(n)| == 1 + |Hex(n / 16)|;
    if k == 1 {
      assert Power256(0) == 1 && Power256(1) == 256 && n / 16 < 16;
    } else {
      assert Power256(k) == 256 * Power256(k - 1) && Power256(k - 1) == 256 * Power256(k - 2);
      assert |Hex(n / 16)| == 1 + |Hex(n / 16 / 16)|;
      hide Hex, Power256;
      EvenDigits(n / 16 / 16, k - 1);
    }
  }

  lemma SizeLine(n: nat)
    requires n < TWO_64
    ensures var s := Hex(n) + [CR, LF]; LineEnd(s) == |Hex(n)| && Unhex(s[..|Hex(n)|]) == n
  {
    hide Hex, Unhex;
    var s := Hex(n) + [CR, LF];
    LineEndIs(s, |Hex(n)|);
    assert s[..|Hex(n)|] == Hex(n);
    UnhexHex(n);
  }

  /// A stream of chunks.

  // The chunks taken from the front of a stream, whether the empty one was among them, and the
  // bytes left over.
  datatype Stream = Stream(chunks: seq<seq<byte>>, last: bool, rest: seq<byte>)

  function Decode(s: seq<byte>): (r: Stream)
    ensures |r.rest| <= |s|
    decreases |s|
  {
    match Chunk(s)
    case None => Stream([], false, s)
    case Some(Span(pl, dl)) =>
      var data, after := s[pl..pl + dl], s[pl + dl + 2..];
      if dl == 0 then Stream([data], true, after) else Prepend([data], Decode(after))
  }

  function Prepend(chunks: seq<seq<byte>>, s: Stream): Stream {
    s.(chunks := chunks + s.chunks)
  }

  lemma PrependTwice(a: seq<seq<byte>>, b: seq<seq<byte>>, s: Stream)
    ensures Prepend(a, Prepend(b, s)) == Prepend(a + b, s)
  {
    assert a + (b + s.chunks) == a + b + s.chunks;
  }

  // Decoding what has arrived and then, with the leftover bytes, what arrives later, is decoding
  // it all at once. This is so of the format, with sizes of any length, on every byte stream; the
  // code keeps to it until a size line misleads getchunk.
  lemma {:induction false} DecodeSplit(s: seq<byte>, t: seq<byte>)
    ensures var d := Decode(s);
            Decode(s + t) ==
            if d.last then d.(rest := d.rest + t) else Prepend(d.chunks, Decode(d.rest + t))
    decreases |s|
  {
    hide Chunk;
    match Chunk(s)
    case None =>
      assert [] + Decode(s + t).chunks == Decode(s + t).chunks;
    case Some(Span(pl, dl)) =>
      ChunkStable(s, t);
      var u, data, after := s + t, s[pl..pl + dl], s[pl + dl + 2..];
      assert u[pl..pl + dl] == data;
      assert u[pl + dl + 2..] == after + t;
      if dl > 0 {
        assert Decode(s) == Prepend([data], Decode(after));
        assert Decode(u) == Prepend([data], Decode(after + t));
        DecodeSplit(after, t);
        PrependTwice([data], Decode(after).chunks, Decode(Decode(after).rest + t));
      }
  }

  // Decoding meets a size line that misleads getchunk. Behind a chunk there is a line end in front.
  predicate Breaks(before: seq<byte>, s: seq<byte>)
    decreases |s|
  {
    || Misread(before, s)
    || match Chunk(s)
       case None => false
       case Some(Span(pl, dl)) => dl > 0 && Breaks([CR, LF], s[pl + dl + 2..])
  }

  lemma FrontMatters(a: seq<byte>, b: seq<byte>, s: seq<byte>)
    requires EndsInCrLf(a) ==> EndsInCrLf(b)
    ensures Misread(a, s) ==> Misread(b, s)
    ensures Breaks(a, s) ==> Breaks(b, s)
  {
    hide Unhex, LineEnd, Chunk;
  }

  // What breaks when the bytes come later is broken when they come at once.
  lemma {:induction false} BreaksLater(s: seq<byte>, t: seq<byte>, front: seq<byte>)
    requires !Decode(s).last && Breaks(front, Decode(s).rest + t)
    ensures Breaks([CR, LF], s + t)
    decreases |s|
  {
    hide Chunk, Misread;
    match Chunk(s)
    case None =>
      FrontMatters(front, [CR, LF], s + t);
    case Some(Span(pl, dl)) =>
      ChunkStable(s, t);
      assert (s + t)[pl + dl + 2..] == s[pl + dl + 2..] + t;
      BreaksLater(s[pl + dl + 2..], t, front);
  }

  // Nothing breaks while every size line met fits into 64 bits.
  predicate SizesFit(s: seq<byte>)
    decreases |s|
  {
    SizeFits(s)
    && match Chunk(s)
       case None => true
       case Some(Span(pl, dl)) => dl > 0 ==> SizesFit(s[pl + dl + 2..])
  }

  lemma {:induction false} FittingNeverBreaks(before: seq<byte>, s: seq<byte>)
    requires SizesFit(s)
    ensures !Breaks(before, s)
    decreases |s|
  {
    hide Chunk, SizeFits;
    if Chunk(s).Some? && Chunk(s).value.data > 0 {
      var Span(pl, dl) := Chunk(s).value;
      FittingNeverBreaks([CR, LF], s[pl + dl + 2..]);
    }
  }

  lemma DecodeFirst(w: Sized, tail: seq<byte>)
    requires WellSized(w) && w.data != []
    ensures Decode(Encode(w) + tail) == Prepend([w.data], Decode(tail))
  {
    hide Chunk, Encode;
    ChunkOfEncode(w, tail);
  }

  // Decoding undoes encoding: every chunk once, in order, then the empty one; the rest is kept.
  lemma {:induction false} DecodeEncode(ws: seq<Sized>, last: Sized, rest: seq<byte>)
    requires ClosedBody(ws, last)
    ensures Decode(EncodeAll(ws, last) + rest) == Stream(Datas(ws) + [[]], true, rest)
    decreases |ws|
  {
    hide Chunk, Encode, WellSized;
    if ws == [] {
      ChunkOfEncode(last, rest);
      assert EncodeAll(ws, last) + rest == Encode(last) + rest;
    } else {
      var tail := EncodeAll(ws[1..], last) + rest;
      DecodeEncode(ws[1..], last, rest);
      DecodeFirst(ws[0], tail);
      assert EncodeAll(ws, last) + rest == Encode(ws[0]) + tail;
      assert [ws[0].data] + (Datas(ws[1..]) + [[]]) == Datas(ws) + [[]];
    }
  }

  const HELLO: seq<byte> := [0x68, 0x65, 0x6c, 0x6c, 0x6f]

  // A body byte by byte: "5", "hello" and "0", each with its line end.
  lemma HelloBody(rest: seq<byte>)
    ensures Decode([0x35, 0x0d, 0x0a] + HELLO + [0x0d, 0x0a] + [0x30, 0x0d, 0x0a, 0x0d, 0x0a] + rest)
            == Stream([HELLO, []], true, rest)
  {
    var w, last := Sized([0x35], HELLO), Sized([0x30], []);
    HelloSizes();
    assert Encode(w) == [0x35, 0x0d, 0x0a] + HELLO + [0x0d, 0x0a];
    assert Encode(last) == [0x30, 0x0d, 0x0a, 0x0d, 0x0a];
    hide Encode, WellSized, Decode;
    assert EncodeAll([w], last) == Encode(w) + EncodeAll([], last);
    assert Datas([w]) == [HELLO] + Datas([]) == [HELLO];
    DecodeEncode([w], last, rest);
  }

  lemma HelloSizes()
    ensures WellSized(Sized([0x35], HELLO)) && WellSized(Sized([0x30], []))
  {
    assert Sizes([], 0) && DigitIs(0x35, 5) && DigitIs(0x30, 0);
    assert Sizes([0x35], 5) && Sizes([0x30], 0);
  }

  // `done` has been taken from the front of `all`, and `rest` is left.
  predicate Taken(all: seq<byte>, done: seq<seq<byte>>, rest: seq<byte>, last: bool) {
    Decode(all) == if last then Stream(done, true, rest) else Prepend(done, Decode(rest))
  }

  lemma TakeMore(all: seq<byte>, done: seq<seq<byte>>, rest: seq<byte>, pl: nat, dl: nat)
    requires Taken(all, done, rest, false) && Chunk(rest) == Some(Span(pl, dl))
    ensures Taken(all, done + [rest[pl..pl + dl]], rest[pl + dl + 2..], dl == 0)
  {
    hide Chunk;
    PrependTwice(done, [rest[pl..pl + dl]], Decode(rest[pl + dl + 2..]));
  }

  lemma TakenAll(all: seq<byte>, done: seq<seq<byte>>, rest: seq<byte>, last: bool)
    requires Taken(all, done, rest, last) && (last || Chunk(rest).None?)
    ensures Decode(all) == Stream(done, last, rest)
  {
    hide Chunk;
  }

  // The chunks a handler leaves in the buffer, end to end.
  function Kept(chunks: seq<seq<byte>>, drop: seq<byte> -> bool): seq<byte> {
    if chunks == [] then []
    else (if drop(chunks[0]) then [] else chunks[0]) + Kept(chunks[1..], drop)
  }

  predicate AnyDropped(chunks: seq<seq<byte>>, drop: seq<byte> -> bool) {
    chunks != [] && (drop(chunks[0]) || AnyDropped(chunks[1..], drop))
  }

  lemma {:induction false} KeptSnoc(a: seq<seq<byte>>, data: seq<byte>, drop: seq<byte> -> bool)
    ensures Kept(a + [data], drop) == Kept(a, drop) + (if drop(data) then [] else data)
    ensures AnyDropped(a + [data], drop) == (AnyDropped(a, drop) || drop(data))
    decreases |a|
  {
    var last := if drop(data) then [] else data;
    if a == [] {
      assert a + [data] == [data];
    } else {
      assert (a + [data])[1..] == a[1..] + [data] && (a + [data])[0] == a[0];
      KeptSnoc(a[1..], data, drop);
      var first := if drop(a[0]) then [] else a[0];
      assert first + (Kept(a[1..], drop) + last) == first + Kept(a[1..], drop) + last;
    }
  }

  // Chunks that are all deleted leave nothing behind.
  lemma {:induction false} KeptNone(chunks: seq<seq<byte>>, drop: seq<byte> -> bool)
    requires forall k :: 0 <= k < |chunks| ==> drop(chunks[k])
    ensures Kept(chunks, drop) == [] && (AnyDropped(chunks, drop) <==> chunks != [])
    decreases |chunks|
  {
    if chunks != [] {
      KeptNone(chunks[1..], drop);
    }
  }

  lemma {:induction false} KeptAll(chunks: seq<seq<byte>>, drop: seq<byte> -> bool)
    requires !AnyDropped(chunks, drop)
    ensures Kept(chunks, drop) == Flatten(chunks)
    decreases |chunks|
  {
    if chunks != [] {
      KeptAll(chunks[1..], drop);
    }
  }

  // A buffer in the midst of decoding: `front` ends at `end`, then come `del` bytes to be given
  // up, then the bytes not looked at yet.
  predicate Shape(w: seq<byte>, end: nat, del: nat, front: seq<byte>, rest: seq<byte>) {
    end + del + |rest| == |w| < TWO_63 && w[..end] == front && w[end + del..] == rest
  }

  // Copying a chunk's data down to the end of the body, and then perhaps deleting it again.
  lemma TakeShape(w: seq<byte>, end: nat, del: nat, front: seq<byte>, rest: seq<byte>, pl: nat, dl: nat)
    requires Shape(w, end, del, front, rest) && pl + dl + 2 <= |rest|
    ensures var at := end + del; var data, after := rest[pl..pl + dl], rest[pl + dl + 2..];
            && w[at + pl..at + pl + dl] == data
            && var moved := Put(w, end, data);
               && moved[end..end + dl] == data
               && Shape(moved, end + dl, del + pl + 2, front + data, after)
               && Shape(moved[..end] + moved[end + dl..], end, del + pl + 2, front, after)
  {
    var at, next := end + del, end + del + pl + dl + 2;
    var data, after := rest[pl..pl + dl], rest[pl + dl + 2..];
    SliceOfTail(w, at, pl, pl + dl);
    SliceOfTail(w, at, pl + dl + 2, |rest|);
    PutKeepsSlice(w, end, data, 0, end);
    PutKeepsSlice(w, end, data, next, |w|);
    var moved := Put(w, end, data);
    assert moved[end..end + dl] == data;
    hide Put;
    assert moved[next..] == after;
    assert moved[..end + dl] == moved[..end] + moved[end..end + dl];
    var cut := moved[..end] + moved[end + dl..];
    assert cut[next - dl..] == moved[next..];
  }

  // The line end behind a chunk stays in front of what comes next.
  predicate Behind(w: seq<byte>, end: nat, del: nat, front: seq<byte>, rest: seq<byte>) {
    Shape(w, end, del, front, rest) && EndsInCrLf(w[..end + del])
  }

  lemma TakeBehind(w: seq<byte>, end: nat, del: nat, front: seq<byte>, rest: seq<byte>, pl: nat, dl: nat)
    requires Shape(w, end, del, front, rest) && Chunk(rest) == Some(Span(pl, dl))
    ensures var at := end + del; var data, after := rest[pl..pl + dl], rest[pl + dl + 2..];
            && at + pl + dl <= |w| && w[at + pl..at + pl + dl] == data
            && var moved := Put(w, end, data);
               && moved[end..end + dl] == data
               && Behind(moved, end + dl, del + pl + 2, front + data, after)
               && Behind(moved[..end] + moved[end + dl..], end, del + pl + 2, front, after)
  {
    hide Chunk, Shape, Put, EndsInCrLf;
    ChunkEnds(rest, pl, dl);
    TakeShape(w, end, del, front, rest, pl, dl);
    TakeRoom(w, end, del, front, rest, pl, dl);
    LineEndStays(w, end, del, front, rest, pl, dl);
  }

  lemma ChunkEnds(rest: seq<byte>, pl: nat, dl: nat)
    requires Chunk(rest) == Some(Span(pl, dl))
    ensures 2 <= pl && pl + dl + 2 <= |rest| && rest[pl + dl] == CR && rest[pl + dl + 1] == LF
  {
    hide Unhex, LineEnd;
  }

  lemma TakeRoom(w: seq<byte>, end: nat, del: nat, front: seq<byte>, rest: seq<byte>, pl: nat, dl: nat)
    requires Shape(w, end, del, front, rest) && pl + dl + 2 <= |rest|
    ensures end + del + pl + dl + 2 <= |w|
  {
  }

  // The line end behind the chunk is still there once the data have been moved up or cut out.
  lemma LineEndStays(w: seq<byte>, end: nat, del: nat, front: seq<byte>, rest: seq<byte>, pl: nat, dl: nat)
    requires Shape(w, end, del, front, rest) && 2 <= pl && pl + dl + 2 <= |rest|
    requires rest[pl + dl] == CR && rest[pl + dl + 1] == LF
    ensures end + del + pl + dl + 2 <= |w|
    ensures var at := end + del + pl + dl + 2; var moved := Put(w, end, rest[pl..pl + dl]);
            var cut := moved[..end] + moved[end + dl..];
            EndsInCrLf(moved[..at]) && EndsInCrLf(cut[..at - dl])
  {
    var at := end + del + pl + dl;
    assert rest[pl + dl] == w[at] && rest[pl + dl + 1] == w[at + 1];
    var moved := Put(w, end, rest[pl..pl + dl]);
    assert moved[at] == CR && moved[at + 1] == LF;
    hide Put, Shape;
    var cut := moved[..end] + moved[end + dl..];
    assert cut[at - dl] == moved[at] && cut[at + 1 - dl] == moved[at + 1];
  }

  lemma BreaksHere(before: seq<byte>, rest: seq<byte>)
    ensures Misread(before, rest) ==> Breaks(before, rest)
    ensures Chunk(rest) == None ==> (Breaks(before, rest) <==> Misread(before, rest))
  {
    hide Misread, Chunk;
  }

  lemma BreaksStep(before: seq<byte>, rest: seq<byte>, pl: nat, dl: nat, front: seq<byte>)
    requires !Misread(before, rest) && Chunk(rest) == Some(Span(pl, dl)) && EndsInCrLf(front)
    ensures Breaks(before, rest) <==> dl > 0 && Breaks(front, rest[pl + dl + 2..])
  {
    hide Misread, Chunk;
    var after := rest[pl + dl + 2..];
    FrontMatters(front, [CR, LF], after);
    FrontMatters([CR, LF], front, after);
  }

  // How far the loop over a stream has got: the chunks taken, what stands at the front of the
  // buffer, what is left, the handler's events and pfn_data.
  datatype Progress = Progress(chunks: seq<seq<byte>>, front: seq<byte>, rest: seq<byte>,
                               events: seq<seq<byte>>, pfnData: nat)

  predicate Sofar(drop: seq<byte> -> bool, start: Progress, now: Progress, last: bool) {
    && Taken(start.rest, now.chunks, now.rest, last)
    && now.front == start.front + Kept(now.chunks, drop)
    && now.events == start.events + now.chunks
    && now.pfnData < TWO_64
    && (now.pfnData >= DMARK <==> start.pfnData >= DMARK || AnyDropped(now.chunks, drop))
  }

  function Advance(drop: seq<byte> -> bool, now: Progress, pl: nat, dl: nat): Progress
    requires pl + dl + 2 <= |now.rest|
  {
    var data := now.rest[pl..pl + dl];
    Progress(now.chunks + [data], now.front + (if drop(data) then [] else data), now.rest[pl + dl + 2..],
             now.events + [data], if drop(data) then Processed(now.pfnData) + DMARK else now.pfnData)
  }

  lemma SofarAdvance(drop: seq<byte> -> bool, start: Progress, now: Progress, pl: nat, dl: nat)
    requires Sofar(drop, start, now, false) && Chunk(now.rest) == Some(Span(pl, dl))
    ensures Sofar(drop, start, Advance(drop, now, pl, dl), dl == 0)
  {
    hide Chunk, Taken, Kept, AnyDropped;
    var data := now.rest[pl..pl + dl];
    var piece := if drop(data) then [] else data;
    TakeMore(start.rest, now.chunks, now.rest, pl, dl);
    KeptSnoc(now.chunks, data, drop);
    assert start.front + Kept(now.chunks, drop) + piece == start.front + (Kept(now.chunks, drop) + piece);
    assert start.events + now.chunks + [data] == start.events + (now.chunks + [data]);
  }

  lemma SofarStart(drop: seq<byte> -> bool, start: Progress)
    requires start.chunks == [] && start.pfnData < TWO_64
    ensures Sofar(drop, start, start, false)
  {
    hide Chunk;
    assert [] + Decode(start.rest).chunks == Decode(start.rest).chunks;
  }

  // The buffer w after some turns of the loop; `breaks` says whether the stream misleads getchunk.
  predicate Stands(drop: seq<byte> -> bool, w: seq<byte>, end: nat, del: nat, start: Progress, now: Progress,
                   last: bool, breaks: bool) {
    && Shape(w, end, del, now.front, now.rest)
    && Sofar(drop, start, now, last)
    && breaks == (!last && Breaks(w[..end + del], now.rest))
  }

  lemma StandsStart(drop: seq<byte> -> bool, w: seq<byte>, end: nat, start: Progress)
    requires Shape(w, end, 0, start.front, start.rest) && start.chunks == [] && start.pfnData < TWO_64
    ensures Stands(drop, w, end, 0, start, start, false, Breaks(w[..end], start.rest))
  {
    SofarStart(drop, start);
    hide Sofar, Breaks;
  }

  lemma StandsMeans(drop: seq<byte> -> bool, w: seq<byte>, end: nat, del: nat, start: Progress, now: Progress,
                    last: bool, breaks: bool)
    requires Stands(drop, w, end, del, start, now, last, breaks)
    ensures Shape(w, end, del, now.front, now.rest) && Sofar(drop, start, now, last) && (last ==> !breaks)
  {
  }

  lemma StandsFound(drop: seq<byte> -> bool, w: seq<byte>, end: nat, del: nat, start: Progress, now: Progress,
                    breaks: bool)
    requires Stands(drop, w, end, del, start, now, false, breaks) && 2 <= end
    ensures Shape(w, end, del, now.front, now.rest) && end + del + |now.rest| == |w| && w[end + del..] == now.rest
    ensures var got := GetChunk(w[..end + del], now.rest); var wrong := Misread(w[..end + del], now.rest);
            && wrong == (got.Outside? || (got.Piece? && got.span.data > |now.rest|))
            && (!wrong ==> got == Promised(Chunk(now.rest)))
            && (wrong ==> breaks) && (!wrong && got.Nothing? ==> !breaks)
  {
    GetChunkExact(w[..end + del], now.rest);
    BreaksHere(w[..end + del], now.rest);
    hide Sofar, Breaks, Misread, Chunk, GetChunk;
  }

  lemma StandsOn(drop: seq<byte> -> bool, w: seq<byte>, end: nat, del: nat, start: Progress, now: Progress,
                 breaks: bool, pl: nat, dl: nat, w': seq<byte>)
    requires Stands(drop, w, end, del, start, now, false, breaks) && Chunk(now.rest) == Some(Span(pl, dl))
    requires !Misread(w[..end + del], now.rest)
    requires var gone := if drop(now.rest[pl..pl + dl]) then dl else 0; var then_ := Advance(drop, now, pl, dl);
             Behind(w', end + dl - gone, del + pl + 2, then_.front, then_.rest)
    ensures var gone := if drop(now.rest[pl..pl + dl]) then dl else 0;
            Stands(drop, w', end + dl - gone, del + pl + 2, start, Advance(drop, now, pl, dl), dl == 0, breaks)
  {
    hide Sofar, Breaks, Misread, Chunk, EndsInCrLf, Processed;
    var gone := if drop(now.rest[pl..pl + dl]) then dl else 0;
    SofarAdvance(drop, start, now, pl, dl);
    BreaksStep(w[..end + del], now.rest, pl, dl, w'[..end + dl - gone + (del + pl + 2)]);
  }

  /// The receiving side.

  // A connection whose first hlen received bytes are the message header. `processed` and `deleted`
  // are the two parts of pfn_data, `drop` says which chunks the handler deletes from the buffer,
  // and `events` are the chunks it has been shown.
  class Receiver {
    const hlen: nat
    const drop: seq<byte> -> bool
    const recv: Buffer
    var pfnData: nat
    var events: seq<seq<byte>>

    ghost predicate Valid()
      reads this, recv
    {
      recv.Valid() && 2 <= hlen && hlen + Processed(pfnData) <= recv.len < TWO_63 && pfnData < TWO_64
    }

    // The received bytes: header, body so far, and what has not been decoded yet.
    ghost function Header(): seq<byte>
      requires Valid()
      reads this, recv, recv.buf
    {
      recv.Data()[..hlen]
    }

    ghost function Body(): seq<byte>
      requires Valid()
      reads this, recv, recv.buf
    {
      recv.Data()[hlen..hlen + Processed(pfnData)]
    }

    ghost function Pending(): seq<byte>
      requires Valid()
      reads this, recv, recv.buf
    {
      recv.Data()[hlen + Processed(pfnData)..]
    }

    constructor (header: seq<byte>, drop: seq<byte> -> bool)
      requires 2 <= |header| < TWO_63
      ensures Valid() && fresh(recv) && fresh(recv.buf)
      ensures hlen == |header| && this.drop == drop && pfnData == 0 && events == []
      ensures recv.Data() == header
    {
      this.hlen := |header|;
      this.drop := drop;
      recv := new Buffer();
      pfnData := 0;
      events := [];
      new;
      recv.Append(header);
    }

    // getchunk on the n bytes of recv from offset `at`.
    method GetChunkAt(at: nat, n: nat) returns (got: Got)
      requires recv.Valid() && at + n == recv.len
      ensures got == GetChunk(recv.Data()[..at], recv.Data()[at..])
    {
      hide Unhex, LineEnd, Wrap64, Peek;
      ghost var s := recv.Data()[at..];
      assert s == recv.buf[at..at + n];
      var i := 0;
      while i < n && recv.buf[at + i] != CR && recv.buf[at + i] != LF
        invariant i <= n
        invariant forall k :: 0 <= k < i ==> s[k] != CR && s[k] != LF
      {
        i := i + 1;
      }
      LineEndIs(s, i);
      var size := UnhexBytes(at, i);
      SliceOfTail(recv.Data(), at, 0, i);
      if n < Wrap64(i + size + 4) { return Nothing; }
      got := TestAt(at, i, CR, Piece(Span(i + 2, size)));
      if got.Piece? { got := TestAt(at, Wrap64(i + 1), LF, got); }
      if got.Piece? { got := TestAt(at, Wrap64(i + size + 2), CR, got); }
      if got.Piece? { got := TestAt(at, Wrap64(i + size + 3), LF, got); }
    }

    // s.ptr[x] == wanted, for s at offset `at`.
    method TestAt(at: nat, x: nat, wanted: byte, chunk: Got) returns (got: Got)
      requires recv.Valid() && at <= recv.len
      ensures got == Test(Peek(recv.Data()[..at], recv.Data()[at..], x), wanted, chunk)
    {
      var p := Wrap64(at + x);
      got := if p >= recv.len then Outside else if recv.buf[p] != wanted then Nothing else chunk;
    }

    // mg_unhexn on the n bytes of recv from offset `at`.
    method UnhexBytes(at: nat, n: nat) returns (v: nat)
      requires recv.Valid() && at + n <= recv.len
      ensures v == Unhex(recv.Data()[at..at + n])
    {
      v := 0;
      ghost var s := recv.Data();
      for i := 0 to n
        invariant v == Unhex(s[at..at + i])
      {
        assert s[at..at + i + 1][..i] == s[at..at + i];
        v := BitOr(Wrap64(16 * v), Nibble(recv.buf[at + i]));
      }
    }
  
    // The loop body on one chunk, at the front of `rest`: compact its data, show it, and let the
    // handler delete it. `gone` is how many bytes the handler deleted.
    method TakeChunk(pl: nat, dl: nat, end: nat, del: nat, ghost front: seq<byte>, ghost rest: seq<byte>)
      returns (gone: nat)
      requires recv.Valid() && Shape(recv.Data(), end, del, front, rest)
      requires Chunk(rest) == Some(Span(pl, dl))
      modifies this`pfnData, this`events, recv`len, recv.buf
      ensures var data := rest[pl..pl + dl];
              && events == old(events) + [data]
              && gone == (if drop(data) then dl else 0)
              && pfnData == (if drop(data) then Processed(old(pfnData)) + DMARK else old(pfnData))
              && recv.Valid()
              && Behind(recv.Data(), end + dl - gone, del + pl + 2,
                        front + (if drop(data) then [] else data), rest[pl + dl + 2..])
    {
      hide Chunk, Shape, Behind, Put, Processed;
      ghost var was := recv.Data();
      TakeBehind(was, end, del, front, rest, pl, dl);
      recv.Move(end, end + del + pl, dl);
      gone := ShowChunk(end, dl);
      assert front + [] == front;
    }

    // The handler sees the chunk at `end`, and perhaps calls mg_http_delete_chunk.
    method ShowChunk(end: nat, dl: nat) returns (gone: nat)
      requires recv.Valid() && end + dl <= recv.len
      modifies this`pfnData, this`events, recv`len, recv.buf
      ensures var was := old(recv.Data()); var data := was[end..end + dl]; var dropped := drop(data);
              && recv.Valid() && events == old(events) + [data]
              && gone == (if dropped then dl else 0)
              && pfnData == (if dropped then Processed(old(pfnData)) + DMARK else old(pfnData))
              && recv.Data() == if dropped then was[..end] + was[end + dl..] else was
    {
      assert recv.buf[end..end + dl] == recv.Data()[end..end + dl];
      events := events + [recv.buf[end..end + dl]];
      var saved := recv.len;
      if drop(recv.buf[end..end + dl]) {
        var _ := recv.Del(end, dl);
        pfnData := Processed(pfnData) + DMARK;
      }
      gone := if recv.len != saved then dl else 0;
    }

    // One turn of the loop of deliver_chunked_chunks, on the n bytes behind `end + del`; `broken` when a
    // wrapped sum makes it read or move bytes that are not there.
    method TakeNext(end: nat, del: nat, n: nat, ghost was: Progress, ghost now: Progress, ghost breaks: bool)
      returns (found: bool, broken: bool, pl: nat, dl: nat, gone: nat, ghost next: Progress)
      requires recv.Valid() && 2 <= end && n == |now.rest| && now.events == events && now.pfnData == pfnData
      requires Stands(drop, recv.Data(), end, del, was, now, false, breaks)
      modifies this`pfnData, this`events, recv`len, recv.buf
      ensures recv.Valid() && next.events == events && next.pfnData == pfnData
      ensures !found ==>
                && next == now && broken == breaks && (broken || Chunk(now.rest).None?)
                && Stands(drop, recv.Data(), end, del, was, next, false, breaks)
      ensures found ==>
                && !broken && gone <= dl && |next.rest| + pl + dl + 2 == n
                && Stands(drop, recv.Data(), end + dl - gone, del + pl + 2, was, next, dl == 0, breaks)
    {
      hide Stands, Chunk, Misread, GetChunk, Shape, Behind, Sofar;
      ghost var w := recv.Data();
      StandsFound(drop, w, end, del, was, now, breaks);
      var got := GetChunkAt(end + del, n);
      found, broken, pl, dl, gone, next := false, false, 0, 0, 0, now;
      broken := got.Outside? || (got.Piece? && got.span.data > n);
      if broken || got.Nothing? { return; }
      found, pl, dl := true, got.span.prefix, got.span.data;
      next := Advance(drop, now, pl, dl);
      gone := TakeChunk(pl, dl, end, del, now.front, now.rest);
      StandsOn(drop, w, end, del, was, now, breaks, pl, dl, recv.Data());
    }

    // The loop, with len bytes at offset `start` not looked at yet.
    method TakeChunks(body: nat, start: nat, len: nat, ghost was: Progress)
      returns (processed: nat, del: nat, last: bool, broken: bool, ghost now: Progress)
      requires recv.Valid() && start == hlen + body && start + len == recv.len && len == |was.rest| && 2 <= hlen
      requires was.chunks == [] && was.events == events && was.pfnData == pfnData < TWO_64
      requires Shape(recv.Data(), hlen + body, 0, was.front, was.rest)
      modifies this`pfnData, this`events, recv`len, recv.buf
      ensures recv.Valid() && Shape(recv.Data(), hlen + processed, del, now.front, now.rest)
      ensures broken == Breaks(old(recv.Data())[..start], was.rest)
      ensures Sofar(drop, was, now, last) && (broken || last || Chunk(now.rest).None?)
      ensures now.events == events && now.pfnData == pfnData
    {
      hide Chunk, Sofar, Breaks, Misread, GetChunk, Stands, Shape;
      processed, del, last, broken, now := body, 0, false, false, was;
      ghost var breaks := Breaks(recv.Data()[..start], was.rest);
      StandsStart(drop, recv.Data(), start, was);
      var left, found := len, true;
      while found && !last
        invariant recv.Valid() && left == |now.rest| && now.events == events && now.pfnData == pfnData
        invariant Stands(drop, recv.Data(), hlen + processed, del, was, now, last, breaks)
        invariant if found then !broken else broken == breaks && !last && (broken || Chunk(now.rest).None?)
        decreases found, left
      {
        var pl, dl, gone;
        found, broken, pl, dl, gone, now := TakeNext(hlen + processed, del, left, was, now, breaks);
        if found {
          left, del := left - (pl + dl + 2), del + pl + 2;
          processed, last := processed + dl - gone, dl == 0;
        }
      }
      StandsMeans(drop, recv.Data(), hlen + processed, del, was, now, last, breaks);
    }

    // deliver_chunked_chunks: decodes every chunk that is all there; `broken` exactly when it comes to a
    // size line that misleads getchunk, after which nothing is promised.
    method Deliver() returns (last: bool, bodyLen: nat, messageLen: nat, next: bool, broken: bool)
      requires Valid()
      modifies this`pfnData, this`events, recv`len, recv.buf
      ensures recv.Valid() && (!broken && !next ==> Valid())
      ensures broken == old(Breaks(Header() + Body(), Pending()))
      ensures !broken ==>
              var d := old(Decode(Pending()));
              var body := old(Body()) + Kept(d.chunks, drop);
              var marked := old(pfnData) >= DMARK || AnyDropped(d.chunks, drop);
              && events == old(events) + d.chunks
              && last == d.last && next == (last && marked)
              && (last ==> bodyLen == |body| && messageLen == hlen + |body| && pfnData == 0)
              && (!last ==> pfnData == |body| + (if marked then DMARK else 0))
              && recv.Data() == (if next then [] else old(Header())) + body + d.rest
    {
      hide Chunk, Decode, Kept, AnyDropped, Breaks;
      ghost var header, body, all := Header(), Body(), Pending();
      ghost var was := Progress([], header + body, all, events, pfnData);
      var buf, len := hlen, recv.len - hlen;
      var processed: nat := Processed(pfnData);
      if processed <= len {
        len, buf := len - processed, buf + processed;
      }
      assert recv.Data()[..hlen + processed] == header + body;
      var end, del, done, wrong, now := TakeChunks(processed, buf, len, was);
      processed, last, broken := end, done, wrong;
      if broken { return false, 0, 0, false, true; }
      TakenAll(all, now.chunks, now.rest, last);
      ghost var d := Decode(all);
      ghost var w, kept := recv.Data(), Kept(d.chunks, drop);
      assert w[..hlen + processed] == header + (body + kept);
      bodyLen, messageLen, next := Finish(processed, del, last);
      assert w[hlen..hlen + processed] == body + kept;
    }

    method DropHeader()
      requires recv.Valid() && hlen <= recv.len
      modifies recv`len, recv.buf
      ensures recv.Valid() && recv.Data() == old(recv.Data())[hlen..]
    {
      var _ := recv.Del(0, hlen);
    }

    // The end of deliver_chunked_chunks: close the gap after the body, and record how far it got.
    method Finish(processed: nat, del: nat, last: bool) returns (bodyLen: nat, messageLen: nat, next: bool)
      requires recv.Valid() && 2 <= hlen && hlen + processed + del <= recv.len < TWO_63 && pfnData < TWO_64
      modifies this`pfnData, recv`len, recv.buf
      ensures recv.Valid() && (!next ==> Valid())
      ensures var was := old(recv.Data()); var end := hlen + processed;
              && next == (last && old(pfnData) >= DMARK)
              && recv.Data() == was[if next then hlen else 0..end] + was[end + del..]
              && pfnData == (if last then 0 else processed + (if old(pfnData) >= DMARK then DMARK else 0))
              && (last ==> bodyLen == processed && messageLen == end)
    {
      ghost var was, end := recv.Data(), hlen + processed;
      var _ := recv.Del(hlen + processed, del);
      assert recv.Data() == was[..end] + was[end + del..];
      assert (was[..end] + was[end + del..])[hlen..] == was[hlen..end] + was[end + del..];
      var mark := if pfnData >= DMARK then DMARK else 0;
      pfnData := processed + mark;
      bodyLen, messageLen, next := 0, 0, false;
      if last {
        bodyLen, messageLen, pfnData := processed, hlen + processed, 0;
        if mark != 0 {
          DropHeader();
          next := true;
        }
      }
    }
  }

  /// Whole connections: the same result however the bytes are cut into reads.

  // A piece that comes behind `got` shows getchunk a size line that misleads it.
  predicate PieceBreaks(drop: seq<byte> -> bool, header: seq<byte>, got: seq<byte>, piece: seq<byte>) {
    var d := Decode(got);
    !d.last && Breaks(header + Kept(d.chunks, drop), d.rest + piece)
  }

  predicate BreaksIn(drop: seq<byte> -> bool, header: seq<byte>, got: seq<byte>, pieces: seq<seq<byte>>)
    decreases |pieces|
  {
    pieces != []
    && (PieceBreaks(drop, header, got, pieces[0]) || BreaksIn(drop, header, got + pieces[0], pieces[1..]))
  }

  // Bytes that never break, wherever they end, can be cut anywhere.
  lemma {:induction false} AnyCutHolds(drop: seq<byte> -> bool, header: seq<byte>, got: seq<byte>,
                                       pieces: seq<seq<byte>>)
    requires forall k :: |got| <= k <= |got| + |Flatten(pieces)| ==> !Breaks([CR, LF], (got + Flatten(pieces))[..k])
    ensures !BreaksIn(drop, header, got, pieces)
    decreases |pieces|
  {
    hide Breaks, Decode;
    if pieces != [] {
      var piece, more := pieces[0], Flatten(pieces[1..]);
      assert got + Flatten(pieces) == got + piece + more;
      assert (got + piece + more)[..|got + piece|] == got + piece;
      if !Decode(got).last && Breaks(header + Kept(Decode(got).chunks, drop), Decode(got).rest + piece) {
        BreaksLater(got, piece, header + Kept(Decode(got).chunks, drop));
      }
      AnyCutHolds(drop, header, got + piece, pieces[1..]);
    }
  }

  // Reads arrive one after another until the last chunk has been seen; what follows it stays. `broken`
  // exactly when some piece, behind those before it, shows getchunk a size line that misleads it.
  method ReadAll(c: Receiver, pieces: seq<seq<byte>>) returns (last: bool, next: bool, broken: bool)
    requires c.Valid() && c.pfnData == 0 && c.events == [] && c.Pending() == []
    requires c.recv.len + |Flatten(pieces)| < TWO_63
    modifies c, c.recv, c.recv.buf
    ensures broken == old(BreaksIn(c.drop, c.Header(), [], pieces))
    ensures !broken ==>
            var d := Decode(Flatten(pieces));
            && c.events == d.chunks && last == d.last
            && next == (last && AnyDropped(d.chunks, c.drop))
            && c.recv.Valid()
            && c.recv.Data() == (if next then [] else old(c.Header())) + Kept(d.chunks, c.drop) + d.rest
  {
    hide Holds, Decode, Kept, AnyDropped, PieceBreaks;
    ghost var header, got: seq<byte> := c.Header(), [];
    last, next, broken := false, false, false;
    HoldsNothing(c.drop, header);
    assert c.recv.Data() == header && pieces[0..] == pieces;
    for k := 0 to |pieces|
      invariant BreaksIn(c.drop, header, [], pieces) == BreaksIn(c.drop, header, got, pieces[k..])
      invariant got == Flatten(pieces[..k]) && |header| == c.hlen
      invariant |header| + |Flatten(pieces)| < TWO_63
      invariant c.recv.buf == old(c.recv.buf) || fresh(c.recv.buf)
      invariant Reading(c, header, got, last, next)
    {
      assert pieces[..k + 1] == pieces[..k] + [pieces[k]];
      FlattenSnoc(pieces[..k], pieces[k]);
      FlattenConcat(pieces[..k + 1], pieces[k + 1..]);
      assert pieces == pieces[..k + 1] + pieces[k + 1..];
      assert pieces[k..][0] == pieces[k] && pieces[k..][1..] == pieces[k + 1..];
      last, next, broken := ReadOne(c, pieces[k], last, next, header, got);
      if broken { return false, false, true; }
      got := got + pieces[k];
    }
    assert pieces[..|pieces|] == pieces;
    HoldsMeans(c.drop, header, got, Snap(c, last, next));
  }

  lemma HoldsNothing(drop: seq<byte> -> bool, header: seq<byte>)
    ensures Holds(drop, header, [], Snapshot(header, [], 0, false, false))
  {
    assert Chunk([]) == None;
    assert header + [] + [] == header;
  }

  lemma HoldsMeans(drop: seq<byte> -> bool, header: seq<byte>, got: seq<byte>, n: Snapshot)
    requires Holds(drop, header, got, n)
    ensures var d := Decode(got);
            && n.events == d.chunks && n.last == d.last && n.next == (n.last && AnyDropped(d.chunks, drop))
            && n.data == (if n.next then [] else header) + Kept(d.chunks, drop) + d.rest
  {
  }

  // What a connection has received, seen and recorded.
  datatype Snapshot = Snapshot(data: seq<byte>, events: seq<seq<byte>>, pfnData: nat, last: bool, next: bool)

  // What it must be once the bytes `got` have arrived behind the header.
  predicate Holds(drop: seq<byte> -> bool, header: seq<byte>, got: seq<byte>, n: Snapshot) {
    var d := Decode(got); var dropped := AnyDropped(d.chunks, drop);
    && n.events == d.chunks && n.last == d.last && n.next == (n.last && dropped)
    && n.data == (if n.next then [] else header) + Kept(d.chunks, drop) + d.rest
    && n.pfnData < TWO_64 && (!n.last ==> n.pfnData == |Kept(d.chunks, drop)| + (if dropped then DMARK else 0))
  }

  lemma HoldsAfterLast(drop: seq<byte> -> bool, header: seq<byte>, got: seq<byte>, n: Snapshot, piece: seq<byte>)
    requires Holds(drop, header, got, n) && n.last
    ensures Holds(drop, header, got + piece, n.(data := n.data + piece))
  {
    DecodeSplit(got, piece);
    hide Decode, Kept, AnyDropped;
    var d := Decode(got);
    ConcatAssociates((if n.next then [] else header) + Kept(d.chunks, drop), d.rest, piece);
  }

  // Before the last chunk: where body and pending bytes lie after a piece has arrived.
  lemma HoldsParts(drop: seq<byte> -> bool, header: seq<byte>, got: seq<byte>, n: Snapshot, piece: seq<byte>)
    requires Holds(drop, header, got, n) && !n.last && |header| + |got| < TWO_63
    ensures var d := Decode(got); var w := n.data + piece; var end := |header| + Processed(n.pfnData);
            && end <= |w| && w[..|header|] == header
            && w[|header|..end] == Kept(d.chunks, drop) && w[end..] == d.rest + piece
  {
    DecodeShrinks(got, drop);
    hide Decode, Kept, AnyDropped;
    var d := Decode(got);
    var kept := Kept(d.chunks, drop);
    ConcatAssociates(header + kept, d.rest, piece);
    ConcatParts(header, kept, d.rest + piece);
  }

  // What deliver_chunked_chunks makes of it.
  lemma HoldsAfterDeliver(drop: seq<byte> -> bool, header: seq<byte>, got: seq<byte>, n: Snapshot, piece: seq<byte>,
                          m: Snapshot)
    requires Holds(drop, header, got, n) && !n.last && |header| + |got| + |piece| < TWO_63
    requires var d := Decode(got); var e := Decode(d.rest + piece);
             var body := Kept(d.chunks, drop) + Kept(e.chunks, drop);
             var marked := n.pfnData >= DMARK || AnyDropped(e.chunks, drop);
             && m.events == n.events + e.chunks && m.last == e.last && m.next == (m.last && marked)
             && m.pfnData == (if m.last then 0 else |body| + (if marked then DMARK else 0))
             && m.data == (if m.next then [] else header) + body + e.rest
    ensures Holds(drop, header, got + piece, m)
  {
    var d := Decode(got);
    DecodeSplit(got, piece);
    KeptConcat(d.chunks, Decode(d.rest + piece).chunks, drop);
    DecodeShrinks(got, drop);
    DecodeShrinks(got + piece, drop);
    hide Decode, Kept, AnyDropped;
  }

  ghost function Snap(c: Receiver, last: bool, next: bool): Snapshot
    requires c.recv.Valid()
    reads c, c.recv, c.recv.buf
  {
    Snapshot(c.recv.Data(), c.events, c.pfnData, last, next)
  }

  ghost predicate Reading(c: Receiver, header: seq<byte>, got: seq<byte>, last: bool, next: bool)
    reads c, c.recv, c.recv.buf
  {
    c.recv.Valid() && 2 <= |header| == c.hlen && Holds(c.drop, header, got, Snap(c, last, next))
  }

  method ReadOne(c: Receiver, piece: seq<byte>, wasLast: bool, wasNext: bool, ghost header: seq<byte>,
                 ghost got: seq<byte>)
    returns (last: bool, next: bool, broken: bool)
    requires Reading(c, header, got, wasLast, wasNext) && |header| + |got| + |piece| < TWO_63
    modifies c, c.recv, c.recv.buf
    ensures broken == PieceBreaks(c.drop, header, got, piece)
    ensures !broken ==> Reading(c, header, got + piece, last, next)
    ensures c.recv.buf == old(c.recv.buf) || fresh(c.recv.buf)
  {
    ghost var n := Snap(c, wasLast, wasNext);
    last, next, broken := wasLast, wasNext, false;
    c.recv.Append(piece);
    if last {
      HoldsAfterLast(c.drop, header, got, n, piece);
    } else {
      HoldsParts(c.drop, header, got, n, piece);
      HoldsFits(c.drop, header, got, n);
      hide Holds, Decode, Kept, AnyDropped, Processed, Breaks;
      ghost var w := c.recv.Data();
      assert w == n.data + piece;
      assert c.Valid();
      ghost var d := Decode(got);
      assert c.Header() == header && c.Body() == Kept(d.chunks, c.drop) && c.Pending() == d.rest + piece;
      var ended, bodyLen, messageLen, gone, wrong := c.Deliver();
      last, next, broken := ended, gone, wrong;
      if broken { return; }
      HoldsAfterDeliver(c.drop, header, got, n, piece, Snap(c, last, next));
    }
  }

  lemma HoldsFits(drop: seq<byte> -> bool, header: seq<byte>, got: seq<byte>, n: Snapshot)
    requires Holds(drop, header, got, n) && !n.next
    ensures |n.data| <= |header| + |got| && n.pfnData < TWO_64
  {
    DecodeShrinks(got, drop);
  }

  // Decoding never makes bytes.
  lemma {:induction false} DecodeShrinks(s: seq<byte>, drop: seq<byte> -> bool)
    ensures |Kept(Decode(s).chunks, drop)| + |Decode(s).rest| <= |s|
    decreases |s|
  {
    hide Chunk;
    if Chunk(s).Some? && Chunk(s).value.data > 0 {
      var Span(pl, dl) := Chunk(s).value;
      DecodeShrinks(s[pl + dl + 2..], drop);
      assert Decode(s).chunks[1..] == Decode(s[pl + dl + 2..]).chunks;
    }
  }

  lemma {:induction false} KeptConcat(a: seq<seq<byte>>, b: seq<seq<byte>>, drop: seq<byte> -> bool)
    ensures Kept(a + b, drop) == Kept(a, drop) + Kept(b, drop)
    ensures AnyDropped(a + b, drop) == (AnyDropped(a, drop) || AnyDropped(b, drop))
    decreases |b|
  {
    if b == [] {
      assert a + b == a;
    } else {
      KeptSnoc(a, b[0], drop);
      KeptConcat(a + [b[0]], b[1..], drop);
      assert a + [b[0]] + b[1..] == a + b;
      var first := if drop(b[0]) then [] else b[0];
      assert Kept(a, drop) + first + Kept(b[1..], drop) == Kept(a, drop) + (first + Kept(b[1..], drop));
    }
  }

  // No part of a size line misleads getchunk.
  lemma {:induction false} UnhexPrefix(s: seq<byte>, n: nat, i: nat)
    requires Sizes(s, n) && n < TWO_64 && i <= |s|
    ensures Unhex(s[..i]) <= n
    decreases |s|
  {
    hide DigitIs, Unhex;
    if i == |s| {
      assert s[..i] == s;
      UnhexSize(s, n);
    } else {
      assert s[..i] == s[..|s| - 1][..i];
      UnhexPrefix(s[..|s| - 1], n / 16, i);
    }
  }

  lemma PartialChunkFits(w: Sized, p: seq<byte>, t: seq<byte>)
    requires WellSized(w) && p + t == Encode(w) && t != [] && |p + t| < TWO_63
    ensures SizeFits(p) && Chunk(p) == None
  {
    hide Chunk, LineEnd, Unhex, Encode, Sizes;
    var e, h := p + t, w.size;
    ChunkOfEncode(w, []);
    EncodeParts(w, []);
    assert e + [] == e;
    if Chunk(p).Some? { ChunkStable(p, t); }
    var i := if |p| < |h| then |p| else |h|;
    SizeIsPlain(h, |w.data|);
    assert forall k :: 0 <= k < i ==> p[k] == e[k] == e[..|h|][k] == h[k];
    assert i < |p| ==> p[i] == e[i];
    LineEndIs(p, i);
    assert p[..i] == h[..i];
    UnhexPrefix(h, |w.data|, i);
  }

  lemma {:induction false} EncodedFits(ws: seq<Sized>, last: Sized, rest: seq<byte>, k: nat)
    requires ClosedBody(ws, last) && |EncodeAll(ws, last)| < TWO_63
    requires k <= |EncodeAll(ws, last) + rest|
    ensures SizesFit((EncodeAll(ws, last) + rest)[..k])
    decreases |ws|
  {
    hide Chunk, SizeFits, Encode, WellSized;
    var w := if ws == [] then last else ws[0];
    var e, tail := Encode(w), if ws == [] then rest else EncodeAll(ws[1..], last) + rest;
    assert EncodeAll(ws, last) + rest == e + tail;
    if k < |e| {
      assert (e + tail)[..k] == e[..k] && e[..k] + e[k..] == e;
      PartialChunkFits(w, e[..k], e[k..]);
    } else {
      var p := tail[..k - |e|];
      assert (e + tail)[..k] == e + p;
      ChunkOfEncode(w, p);
      WholeChunkFits(w, p);
      if ws != [] { EncodedFits(ws[1..], last, rest, k - |e|); }
    }
  }

  lemma WholeChunkFits(w: Sized, p: seq<byte>)
    requires WellSized(w) && |Encode(w)| < TWO_63
    ensures SizeFits(Encode(w) + p)
  {
    var s, h := Encode(w) + p, w.size;
    hide Encode, LineEnd, Unhex, Sizes;
    EncodeParts(w, p);
    EncodeParts(w, []);
    assert Encode(w) + [] == Encode(w);
    SizeIsPlain(h, |w.data|);
    assert forall k :: 0 <= k < |h| ==> s[k] == s[..|h|][k];
    LineEndIs(s, |h|);
    UnhexSize(h, |w.data|);
  }

  lemma EncodedNeverBreaks(ws: seq<Sized>, last: Sized, rest: seq<byte>)
    requires ClosedBody(ws, last) && |EncodeAll(ws, last)| < TWO_63
    ensures var s := EncodeAll(ws, last) + rest;
            forall k :: 0 <= k <= |s| ==> !Breaks([CR, LF], s[..k])
  {
    hide ClosedBody, EncodeAll;
    var s := EncodeAll(ws, last) + rest;
    forall k | 0 <= k <= |s|
      ensures !Breaks([CR, LF], s[..k])
    {
      EncodedFits(ws, last, rest, k);
      FittingNeverBreaks([CR, LF], s[..k]);
    }
  }

  // Any list of non-empty chunks closed by an empty one, their sizes in digits of either case, read in
  // any pieces by a handler that deletes nothing: each chunk is reported once, in order, and the
  // buffer ends as header, exact concatenation, and every byte that followed.
  method ReadEncoded(c: Receiver, pieces: seq<seq<byte>>, ghost ws: seq<Sized>, ghost end: Sized,
                     ghost rest: seq<byte>)
    returns (last: bool, next: bool)
    requires c.Valid() && c.pfnData == 0 && c.events == [] && c.Pending() == []
    requires c.recv.len + |Flatten(pieces)| < TWO_63
    requires ClosedBody(ws, end) && Flatten(pieces) == EncodeAll(ws, end) + rest
    requires forall data :: !c.drop(data)
    modifies c, c.recv, c.recv.buf
    ensures last && !next && c.events == Datas(ws) + [[]]
    ensures c.recv.Valid() && c.recv.Data() == old(c.Header()) + Flatten(Datas(ws)) + rest
  {
    hide Decode, Kept, AnyDropped, EncodeAll, BreaksIn, Flatten, ClosedBody, Datas;
    ghost var chunks := Datas(ws);
    DecodeEncode(ws, end, rest);
    EncodedHolds(c.drop, c.Header(), pieces, ws, end, rest);
    NoneDropped(chunks + [[]], c.drop);
    KeptAll(chunks + [[]], c.drop);
    FlattenSnoc(chunks, []);
    assert Flatten(chunks) + [] == Flatten(chunks);
    var broken;
    last, next, broken := ReadAll(c, pieces);
  }

  lemma EncodedHolds(drop: seq<byte> -> bool, header: seq<byte>, pieces: seq<seq<byte>>, ws: seq<Sized>, end: Sized,
                     rest: seq<byte>)
    requires ClosedBody(ws, end) && Flatten(pieces) == EncodeAll(ws, end) + rest && |Flatten(pieces)| < TWO_63
    ensures !BreaksIn(drop, header, [], pieces)
  {
    hide EncodeAll, Breaks, BreaksIn, Flatten, ClosedBody;
    EncodedNeverBreaks(ws, end, rest);
    assert [] + Flatten(pieces) == Flatten(pieces);
    AnyCutHolds(drop, header, [], pieces);
  }

  lemma NoneDropped(chunks: seq<seq<byte>>, drop: seq<byte> -> bool)
    requires forall data :: !drop(data)
    ensures !AnyDropped(chunks, drop)
  {
  }
}
