/** The SHA-1 context and its update and final steps, over any round function (sections 5.1.1 and
    6.1 of FIPS 180-4). */
module Sha1 {
  import opened Bytes
  import opened Digest

  type Chain = s: seq<word> | |s| == 5 witness [0, 0, 0, 0, 0]

  type Rounds = (Chain, Block) -> Chain

  const START: Chain := [0x6745_2301, 0xEFCD_AB89, 0x98BA_DCFE, 0x1032_5476, 0xC3D2_E1F0]

  // Words one after another, most significant byte first.
  function Show(s: seq<word>): (r: seq<byte>)
    ensures |r| == 4 * |s|
  {
    if s == [] then [] else Show(s[..|s| - 1]) + BigWord(s[|s| - 1])
  }

  // Byte i of that, as the two loops of mg_sha1_final take it: (word[i >> 2] >> ((3 - (i & 3)) * 8)) & 255.
  function ByteOf(s: seq<word>, i: nat): byte
    requires i < 4 * |s|
  {
    var w, k := s[i / 4], 3 - i % 4;
    (if k == 3 then w / 0x100_0000 else if k == 2 then w / 0x1_0000 else if k == 1 then w / 0x100 else w) % 256
  }

  lemma {:induction false} ByteOfShow(s: seq<word>, i: nat)
    requires i < 4 * |s|
    ensures Show(s)[i] == ByteOf(s, i)
    decreases |s|
  {
    var n := |s| - 1;
    if i < 4 * n { ByteOfShow(s[..n], i); }
  }

  method ShowWords(s: seq<word>) returns (b: seq<byte>)
    ensures b == Show(s)
  {
    b := [];
    for i := 0 to 4 * |s|
      invariant b == Show(s)[..i]
    {
      ByteOfShow(s, i);
      b := b + [ByteOf(s, i)];
    }
  }

  // What section 6.1 of FIPS 180-4 asks for, given the round function.
  function Sum(f: Rounds, m: seq<byte>): seq<byte> {
    Show(Fold(f, START, m + Sha1Padding(|m|)))
  }

  // The initial state, as RFC 3174 (section 6.1) writes it.
  lemma StartShows()
    ensures Show(START) == [0x67, 0x45, 0x23, 0x01, 0xef, 0xcd, 0xab, 0x89, 0x98, 0xba, 0xdc, 0xfe, 0x10, 0x32, 0x54, 0x76,
                            0xc3, 0xd2, 0xe1, 0xf0]
  {
    hide Show;
    StartWords();
    var s: seq<word> := START;
    ShowLast(s[..0], s[0]);
    ShowLast(s[..1], s[1]);
    ShowLast(s[..2], s[2]);
    ShowLast(s[..3], s[3]);
    ShowLast(s[..4], s[4]);
    assert s[..0] + [s[0]] == s[..1] && s[..1] + [s[1]] == s[..2] && s[..2] + [s[2]] == s[..3];
    assert s[..3] + [s[3]] == s[..4] && s[..4] + [s[4]] == s;
    hide BigWord;
    assert Show(s[..0]) == [];
  }

  lemma ShowLast(s: seq<word>, w: word)
    ensures Show(s + [w]) == Show(s) + BigWord(w) && (s == [] ==> Show(s) == [])
  {
    hide BigWord;
    assert (s + [w])[..|s|] == s;
  }

  lemma StartWords()
    ensures BigWord(START[0]) == [0x67, 0x45, 0x23, 0x01] && BigWord(START[1]) == [0xef, 0xcd, 0xab, 0x89]
    ensures BigWord(START[2]) == [0x98, 0xba, 0xdc, 0xfe] && BigWord(START[3]) == [0x10, 0x32, 0x54, 0x76]
    ensures BigWord(START[4]) == [0xc3, 0xd2, 0xe1, 0xf0]
  {
    hide BigWord;
    WordIs(0x67, 0x45, 0x23, 0x01);
    WordIs(0xef, 0xcd, 0xab, 0x89);
    WordIs(0x98, 0xba, 0xdc, 0xfe);
    WordIs(0x10, 0x32, 0x54, 0x76);
    WordIs(0xc3, 0xd2, 0xe1, 0xf0);
  }

  lemma WordIs(a: byte, b: byte, c: byte, d: byte)
    ensures BigWord(0x100_0000 * a + 0x1_0000 * b + 0x100 * c + d) == [a, b, c, d]
  {
    var n := 0x100_0000 * a + 0x1_0000 * b + 0x100 * c + d;
    assert n / 0x100 == 0x1_0000 * a + 0x100 * b + c && n / 0x1_0000 == 0x100 * a + b && n / 0x100_0000 == a;
  }

  // How far a pass over the blocks of m has come: `rest` is still to be folded.
  predicate Reached(f: Rounds, m: seq<byte>, now: Chain, rest: seq<byte>) {
    Fold(f, START, m) == Fold(f, now, rest) && Rest(m) == Rest(rest)
  }

  lemma ReachedBlock(f: Rounds, m: seq<byte>, now: Chain, block: Block, rest: seq<byte>)
    requires Reached(f, m, now, block + rest)
    ensures Reached(f, m, f(now, block), rest)
  {
    FoldBlock(f, now, block, rest);
  }

  lemma Begins(f: Rounds, m: seq<byte>, more: seq<byte>)
    ensures Reached(f, m + more, Fold(f, START, m), Rest(m) + more)
  {
    FoldGoesOn(f, START, m, more);
  }

  lemma Ends(f: Rounds, m: seq<byte>, now: Chain, rest: seq<byte>)
    requires Reached(f, m, now, rest) && |rest| < 64
    ensures now == Fold(f, START, m) && rest == Rest(m)
  {
  }

  lemma LengthBytes(lo: word, hi: word, n: nat)
    requires Counts(lo, hi, n)
    ensures Padding(n, Show([hi, lo])) == Sha1Padding(n)
  {
    hide BigWord, Show, Padding, BigEndianBytes, Wrap64;
    CounterBytes(lo, hi);
    ShowLast([], hi);
    ShowLast([hi], lo);
    assert [] + [hi] == [hi] && [hi] + [lo] == [hi, lo] && [] + BigWord(hi) == BigWord(hi);
  }

  // Where the count stands after the one bit and k zero bytes.
  lemma PadPosition(lo: word, hi: word, m: seq<byte>, k: nat)
    requires Counts(lo, hi, |m + ([0x80] + Zeros(k))|) && k <= ZeroCount(|m|)
    ensures lo / 8 % 64 == 56 <==> k == ZeroCount(|m|)
  {
    ZerosAreLeast(|m|, k);
    CountsHasLow(lo, hi, |m| + 1 + k);
    Position(lo, m + ([0x80] + Zeros(k)));
    RestMod(m + ([0x80] + Zeros(k)));
  }

  lemma PaddingParts(m: seq<byte>, length: seq<byte>)
    ensures m + ([0x80] + Zeros(ZeroCount(|m|))) + length == m + Padding(|m|, length)
  {
    hide Zeros, ZeroCount;
    ConcatAssociates(m, [0x80] + Zeros(ZeroCount(|m|)), length);
  }

  lemma ZerosSnoc(m: seq<byte>, k: nat)
    ensures m + ([0x80] + Zeros(k)) + [0] == m + ([0x80] + Zeros(k + 1))
  {
  }

  lemma CutInTwo(data: seq<byte>, i: nat)
    requires i <= |data|
    ensures data == data[..i] + data[i..]
  {
  }

  class Context {
    const rounds: Rounds
    var state: Chain
    var lo: word
    var hi: word
    const buffer: array<byte>
    // Everything absorbed so far.
    ghost var message: seq<byte>

    ghost predicate Valid()
      reads this, buffer
    {
      && buffer.Length == 64
      && state == Fold(rounds, START, message)
      && buffer[..|Rest(message)|] == Rest(message)
      && Counts(lo, hi, |message|)
    }

    // mg_sha1_init
    constructor (f: Rounds)
      ensures Valid() && message == [] && rounds == f && fresh(buffer)
    {
      rounds := f;
      state := START;
      lo, hi := 0, 0;
      buffer := new byte[64];
      message := [];
    }

    // memcpy into the buffer.
    method Fill(j: nat, data: seq<byte>)
      requires buffer.Length == 64 && j + |data| <= 64
      modifies buffer
      ensures buffer[..j] == old(buffer[..j]) && buffer[j..j + |data|] == data
    {
      forall k | 0 <= k < |data| {
        buffer[j + k] := data[k];
      }
    }

    method Keep(j: nat, data: seq<byte>)
      requires buffer.Length == 64 && j + |data| <= 64
      modifies buffer
      ensures buffer[..j + |data|] == old(buffer[..j]) + data
    {
      Fill(j, data);
      assert buffer[..j + |data|] == buffer[..j] + buffer[j..j + |data|];
    }

    // The rest of a block, and its turn.
    method FillUp(j: nat, data: seq<byte>, ghost more: seq<byte>, ghost all: seq<byte>, ghost kept: seq<byte>)
      requires buffer.Length == 64 && j + |data| == 64 && buffer[..j] == kept
      requires Reached(rounds, all, state, kept + (data + more))
      modifies this`state, buffer
      ensures Reached(rounds, all, state, more)
    {
      hide *;
      Fill(j, data);
      ghost var block := kept + data;
      assert buffer[..] == buffer[..j] + buffer[j..64] == block;
      ConcatAssociates(kept, data, more);
      ReachedBlock(rounds, all, state, block, more);
      state := rounds(state, buffer[..]);
    }

    // mg_sha1_update: more of the message has the same effect as all of it at once.
    method Update(data: seq<byte>)
      requires Valid()
      modifies this, buffer
      ensures Valid() && message == old(message) + data
    {
      hide Fold, Rest, Reached, AddLow, Sha1High, Counts, CountsLow;
      Sha1Counts(lo, hi, |message|, |data|);
      CountsHasLow(lo, hi, |message|);
      Position(lo, message);
      Begins(rounds, message, data);
      ghost var kept, all := Rest(message), message + data;
      assert buffer.Length == 64 && buffer[..|kept|] == kept && |kept| < 64 && Reached(rounds, all, state, kept + data);
      var j := lo / 8 % 64;
      lo, hi := AddLow(lo, |data|), Sha1High(lo, hi, |data|);
      message := all;
      var i := 0;
      if j + |data| > 63 {
        i := 64 - j;
        CutInTwo(data, i);
        FillUp(j, data[..i], data[i..], all, kept);
        i := Blocks(i, data, all);
        j := 0;
        Ends(rounds, all, state, data[i..]);
      } else {
        Ends(rounds, all, state, kept + data);
      }
      Keep(j, data[i..]);
    }

    // The whole blocks of data from i on.
    method Blocks(from: nat, data: seq<byte>, ghost all: seq<byte>) returns (i: nat)
      requires from <= |data| && Reached(rounds, all, state, data[from..])
      modifies this`state
      ensures i <= |data| < i + 64 && Reached(rounds, all, state, data[i..])
    {
      hide *;
      i := from;
      while i + 63 < |data|
        invariant i <= |data| && Reached(rounds, all, state, data[i..])
      {
        ghost var block := data[i..i + 64];
        assert data[i..] == block + data[i + 64..];
        ReachedBlock(rounds, all, state, block, data[i + 64..]);
        state := rounds(state, data[i..i + 64]);
        i := i + 64;
      }
    }

    method PadZeros()
      requires Valid()
      modifies this, buffer
      ensures Valid() && message == old(message) + ([0x80] + Zeros(ZeroCount(|old(message)|)))
    {
      ghost var m, z := message, 0;
      Update([0x80]);
      assert [0x80] + Zeros(0) == [0x80];
      PadPosition(lo, hi, m, 0);
      while lo / 8 % 64 != 56
        invariant Valid() && z <= ZeroCount(|m|)
        invariant message == m + ([0x80] + Zeros(z))
        invariant lo / 8 % 64 == 56 <==> z == ZeroCount(|m|)
        decreases ZeroCount(|m|) - z
      {
        hide ZeroCount, Zeros, Counts, Fold, Rest;
        Update([0]);
        ZerosSnoc(m, z);
        z := z + 1;
        PadPosition(lo, hi, m, z);
      }
    }

    // mg_sha1_final: pads byte by byte, appends the length the message had before, and shows the
    // chaining value.
    method Final() returns (digest: seq<byte>)
      requires Valid()
      modifies this, buffer
      ensures digest == Sum(rounds, old(message))
      ensures lo == hi == 0 && state == [0, 0, 0, 0, 0] && (forall k :: 0 <= k < buffer.Length ==> buffer[k] == 0)
    {
      ghost var m := message;
      var finalcount := ShowWords([hi, lo]);
      LengthBytes(lo, hi, |m|);
      hide *;
      PadZeros();
      Update(finalcount);
      assert message == m + Padding(|m|, finalcount) by {
        PaddingParts(m, finalcount);
      }
      digest := ShowWords(state);
      lo, hi, state := 0, 0, [0, 0, 0, 0, 0];
      forall k | 0 <= k < 64 {
        buffer[k] := 0;
      }
    }
  }

  // However a message is cut into pieces, its digest is that of the whole.
  method HashPieces(f: Rounds, pieces: seq<seq<byte>>) returns (digest: seq<byte>)
    ensures digest == Sum(f, Flatten(pieces))
  {
    assert pieces[..0] == [] && Flatten(pieces[..0]) == [];
    hide *;
    var c := new Context(f);
    for i := 0 to |pieces|
      invariant fresh(c) && fresh(c.buffer) && c.Valid() && c.rounds == f
      invariant c.message == Flatten(pieces[..i])
    {
      assert pieces[..i + 1] == pieces[..i] + [pieces[i]];
      FlattenSnoc(pieces[..i], pieces[i]);
      c.Update(pieces[i]);
    }
    assert pieces[..|pieces|] == pieces;
    digest := c.Final();
  }
}
