/** The MD5 context and its update and final steps, over any round function, with the count of bits
    that the code keeps (section 3 of RFC 1321). */
module Md5 {
  import opened Bytes
  import opened Digest

  type Chain = s: seq<word> | |s| == 4 witness [0, 0, 0, 0]

  type Rounds = (Chain, Block) -> Chain

  const START: Chain := [0x6745_2301, 0xEFCD_AB89, 0x98BA_DCFE, 0x1032_5476]

  // Words one after another, least significant byte first.
  function Show(s: seq<word>): seq<byte> {
    if s == [] then [] else LittleWord(s[0]) + Show(s[1..])
  }

  // What sections 3.1 to 3.5 of RFC 1321 ask for, given the round function.
  function Sum(f: Rounds, m: seq<byte>): seq<byte> {
    Show(Fold(f, START, m + Md5Padding(|m|)))
  }

  // The initial state, as RFC 1321 (section 3.3) writes it: it counts up and down.
  lemma StartShows()
    ensures Show(START) == [0x01, 0x23, 0x45, 0x67, 0x89, 0xab, 0xcd, 0xef, 0xfe, 0xdc, 0xba, 0x98, 0x76, 0x54, 0x32, 0x10]
  {
    StartWords();
    var s: seq<word> := START;
    hide LittleWord;
    assert s[1..][1..] == s[2..] && s[2..][1..] == s[3..] && s[3..][1..] == [];
    assert Show(s) == LittleWord(s[0]) + Show(s[1..]) && Show(s[1..]) == LittleWord(s[1]) + Show(s[2..]);
    assert Show(s[2..]) == LittleWord(s[2]) + Show(s[3..]) && Show(s[3..]) == LittleWord(s[3]) + Show([]);
    hide Show;
    assert Show([]) == [];
  }

  lemma StartWords()
    ensures LittleWord(START[0]) == [0x01, 0x23, 0x45, 0x67] && LittleWord(START[1]) == [0x89, 0xab, 0xcd, 0xef]
    ensures LittleWord(START[2]) == [0xfe, 0xdc, 0xba, 0x98] && LittleWord(START[3]) == [0x76, 0x54, 0x32, 0x10]
  {
    hide LittleWord;
    WordIs(0x01, 0x23, 0x45, 0x67);
    WordIs(0x89, 0xab, 0xcd, 0xef);
    WordIs(0xfe, 0xdc, 0xba, 0x98);
    WordIs(0x76, 0x54, 0x32, 0x10);
  }

  lemma WordIs(a: byte, b: byte, c: byte, d: byte)
    ensures LittleWord(a + 0x100 * b + 0x1_0000 * c + 0x100_0000 * d) == [a, b, c, d]
  {
    var n := a + 0x100 * b + 0x1_0000 * c + 0x100_0000 * d;
    assert n / 0x100 == b + 0x100 * c + 0x1_0000 * d && n / 0x1_0000 == c + 0x100 * d && n / 0x100_0000 == d;
  }

  // What is computed when the two words of the counter are lo and hi.
  function SumCounted(f: Rounds, m: seq<byte>, lo: word, hi: word): seq<byte> {
    Show(Fold(f, START, m + Padding(|m|, LittleWord(lo) + LittleWord(hi))))
  }

  // That is the right thing when they hold the length.
  lemma SumOfExact(f: Rounds, m: seq<byte>, lo: word, hi: word)
    requires Counts(lo, hi, |m|)
    ensures SumCounted(f, m, lo, hi) == Sum(f, m)
  {
    CounterBytes(lo, hi);
  }

  // How far a pass over the blocks of m has come: `rest` is still to be folded.
  predicate Reached(f: Rounds, m: seq<byte>, now: Chain, rest: seq<byte>) {
    Fold(f, START, m) == Fold(f, now, rest) && Rest(m) == Rest(rest)
  }

  lemma ReachedBlock(f: Rounds, m: seq<byte>, now: Chain, block: Block, rest: seq<byte>)
    requires Reached(f, m, now, block + rest)
    ensures Reached(f, m, f(now, block), rest)
  {
    FoldBlock(f, now, block, rest);
  }

  lemma Begins(f: Rounds, m: seq<byte>, more: seq<byte>)
    ensures Reached(f, m + more, Fold(f, START, m), Rest(m) + more)
  {
    FoldGoesOn(f, START, m, more);
  }

  lemma Ends(f: Rounds, m: seq<byte>, now: Chain, rest: seq<byte>)
    requires Reached(f, m, now, rest) && |rest| < 64
    ensures now == Fold(f, START, m) && rest == Rest(m)
  {
  }

  // The last one or two blocks: what is left of the message, a one bit, zeros and the length.
  lemma LastBlocks(f: Rounds, m: seq<byte>, length: seq<byte>)
    requires |length| == 8
    ensures var s, r := Fold(f, START, m), Rest(m) + [0x80];
            Fold(f, START, m + Padding(|m|, length))
            == if |r| <= 56 then f(s, r + Zeros(56 - |r|) + length) else f(f(s, r + Zeros(64 - |r|)), Zeros(56) + length)
  {
    hide *;
    var s, r := Fold(f, START, m), Rest(m) + [0x80];
    var z := ZeroCount(|m|);
    ZerosWanted(m);
    FoldGoesOn(f, START, m, Padding(|m|, length));
    assert Rest(m) + Padding(|m|, length) == r + Zeros(z) + length by { PaddingAhead(Rest(m), |m|, length); }
    if |r| <= 56 {
      FoldOne(f, s, r + Zeros(56 - |r|) + length);
    } else {
      var first: Block := r + Zeros(64 - |r|);
      ZerosJoin(64 - |r|, 56);
      assert r + Zeros(z) + length == first + (Zeros(56) + length) by { Regroup(r, Zeros(64 - |r|), Zeros(56), length); }
      FoldBlock(f, s, first, Zeros(56) + length);
      FoldOne(f, f(s, first), Zeros(56) + length);
    }
  }

  lemma ZerosWanted(m: seq<byte>)
    ensures var n := |Rest(m)| + 1; n <= 64 && ZeroCount(|m|) == if n <= 56 then 56 - n else 120 - n
  {
    RestMod(m);
  }

  lemma PaddingAhead(r: seq<byte>, n: nat, length: seq<byte>)
    ensures r + Padding(n, length) == r + [0x80] + Zeros(ZeroCount(n)) + length
  {
    hide Zeros, ZeroCount;
    ConcatAssociates(r, [0x80], Zeros(ZeroCount(n)));
    ConcatAssociates(r, [0x80] + Zeros(ZeroCount(n)), length);
  }

  lemma Regroup(a: seq<byte>, b: seq<byte>, c: seq<byte>, d: seq<byte>)
    ensures a + (b + c) + d == a + b + (c + d)
  {
  }

  lemma ZerosJoin(a: nat, b: nat)
    ensures Zeros(a) + Zeros(b) == Zeros(a + b)
  {
  }

  lemma FoldOne(f: Rounds, s: Chain, block: Block)
    ensures Fold(f, s, block) == f(s, block)
  {
    FoldBlock(f, s, block, []);
    assert block + [] == block;
  }

  lemma Advances(lo: word, m: seq<byte>, data: seq<byte>)
    requires CountsLow(lo, |m|)
    ensures lo / 8 % 64 == |Rest(m)| && CountsLow(AddLow(lo, |data|), |m + data|)
  {
    Position(lo, m);
    AddLowCounts(lo, |m|, |data|);
  }

  lemma CutInTwo(data: seq<byte>, i: nat)
    requires i <= |data|
    ensures data == data[..i] + data[i..]
  {
  }

  class Context {
    const rounds: Rounds
    var state: Chain
    var lo: word
    var hi: word
    const buffer: array<byte>
    // Everything absorbed so far.
    ghost var message: seq<byte>

    ghost predicate Valid()
      reads this, buffer
    {
      && buffer.Length == 64
      && state == Fold(rounds, START, message)
      && buffer[..|Rest(message)|] == Rest(message)
      && CountsLow(lo, |message|)
    }

    // mg_md5_init
    constructor (f: Rounds)
      ensures Valid() && Counts(lo, hi, 0) && message == [] && rounds == f && fresh(buffer)
    {
      rounds := f;
      state := START;
      lo, hi := 0, 0;
      buffer := new byte[64];
      message := [];
      new;
      assert 8 * 0 == lo + TWO_32 * 0;
    }

    // memcpy into the buffer.
    method Fill(j: nat, data: seq<byte>)
      requires buffer.Length == 64 && j + |data| <= 64
      modifies buffer
      ensures buffer[..j] == old(buffer[..j]) && buffer[j..j + |data|] == data
      ensures buffer[j + |data|..] == old(buffer[j + |data|..])
    {
      forall k | 0 <= k < |data| {
        buffer[j + k] := data[k];
      }
    }

    // mg_md5_update: the chaining value and the buffer are those of the whole message; the count stays
    // exact just when the length has no bits that the cast to 32 bits loses.
    method Update(data: seq<byte>)
      requires Valid()
      modifies this, buffer
      ensures Valid() && message == old(message) + data
      ensures old(Counts(lo, hi, |message|)) ==>
                (Counts(lo, hi, |message|) <==> |data| / TWO_32 % 0x2000_0000 == 0)
    {
      hide Fold, Rest, Reached, AddLow, Md5High, Counts, CountsLow, Zeros, LittleWord;
      if Counts(lo, hi, |message|) { Md5Counts(lo, hi, |message|, |data|); }
      Advances(lo, message, data);
      Begins(rounds, message, data);
      ghost var kept, all := Rest(message), message + data;
      assert buffer.Length == 64 && buffer[..|kept|] == kept && |kept| < 64 && Reached(rounds, all, state, kept + data);
      var t := lo / 8 % 64;
      lo, hi := AddLow(lo, |data|), Md5High(lo, hi, |data|);
      message := all;
      var i := 0;
      if t != 0 {
        if |data| < 64 - t {
          Ends(rounds, all, state, kept + data);
          Keep(t, data);
          return;
        }
        i := 64 - t;
        CutInTwo(data, i);
        FillUp(t, data[..i], data[i..], all, kept);
      } else {
        assert kept + data == data[0..];
      }
      i := Blocks(i, data, all);
      Ends(rounds, all, state, data[i..]);
      Fill(0, data[i..]);
    }

    // Completes the block in the buffer.
    method Keep(t: nat, data: seq<byte>)
      requires buffer.Length == 64 && t + |data| <= 64
      modifies buffer
      ensures buffer[..t + |data|] == old(buffer[..t]) + data
    {
      Fill(t, data);
      assert buffer[..t + |data|] == buffer[..t] + buffer[t..t + |data|];
    }

    method FillUp(t: nat, data: seq<byte>, ghost more: seq<byte>, ghost all: seq<byte>, ghost kept: seq<byte>)
      requires buffer.Length == 64 && t + |data| == 64 && buffer[..t] == kept
      requires Reached(rounds, all, state, kept + (data + more))
      modifies this`state, buffer
      ensures Reached(rounds, all, state, more)
    {
      hide *;
      Fill(t, data);
      ghost var block := kept + data;
      assert buffer[..] == buffer[..t] + buffer[t..64] == block;
      ConcatAssociates(kept, data, more);
      ReachedBlock(rounds, all, state, block, more);
      state := rounds(state, buffer[..]);
    }

    // The whole blocks of data from i on, each copied into the buffer first.
    method Blocks(from: nat, data: seq<byte>, ghost all: seq<byte>) returns (i: nat)
      requires buffer.Length == 64 && from <= |data| && Reached(rounds, all, state, data[from..])
      modifies this`state, buffer
      ensures i <= |data| < i + 64 && Reached(rounds, all, state, data[i..])
    {
      hide *;
      i := from;
      while |data| - i >= 64
        invariant i <= |data| && Reached(rounds, all, state, data[i..])
      {
        ghost var block := data[i..i + 64];
        assert data[i..] == block + data[i + 64..];
        Fill(0, data[i..i + 64]);
        assert buffer[..] == buffer[0..64] == block;
        ReachedBlock(rounds, all, state, block, data[i + 64..]);
        state := rounds(state, buffer[..]);
        i := i + 64;
      }
    }

    // memset of part of the buffer to zero.
    method Clear(from: nat, to: nat)
      requires buffer.Length == 64 && from <= to <= 64
      modifies buffer
      ensures buffer[..to] == old(buffer[..from]) + Zeros(to - from) && buffer[to..] == old(buffer[to..])
    {
      forall k | from <= k < to {
        buffer[k] := 0;
      }
    }

    // Zeros from p on up to where the length goes, maybe in the next block.
    method MakeRoom(p: nat)
      requires buffer.Length == 64 && 0 < p <= 64
      modifies this`state, buffer
      ensures if p <= 56 then state == old(state) && buffer[..56] == old(buffer[..p]) + Zeros(56 - p)
              else state == rounds(old(state), old(buffer[..p]) + Zeros(64 - p)) && buffer[..56] == Zeros(56)
    {
      hide *;
      var count := 64 - p;
      if count < 8 {
        Clear(p, 64);
        assert buffer[..] == buffer[..64];
        state := rounds(state, buffer[..]);
        Clear(0, 56);
        assert buffer[..0] == [] && [] + Zeros(56) == Zeros(56);
      } else {
        Clear(p, p + (count - 8));
      }
    }

    // The counter's words behind that.
    method PutLength()
      requires buffer.Length == 64
      modifies buffer
      ensures buffer[..] == old(buffer[..56]) + (LittleWord(lo) + LittleWord(hi))
    {
      var length := LittleWord(lo) + LittleWord(hi);
      assert |length| == 8;
      hide *;
      forall k | 0 <= k < 8 {
        buffer[56 + k] := length[k];
      }
    }

    method LastBlock()
      requires Valid()
      modifies this`state, buffer
      ensures state == Fold(rounds, START, message + Padding(|message|, LittleWord(lo) + LittleWord(hi)))
    {
      LastBlocks(rounds, message, LittleWord(lo) + LittleWord(hi));
      Position(lo, message);
      ghost var r := Rest(message) + [0x80];
      assert buffer.Length == 64 && |r| <= 64 && buffer[..|r| - 1] == Rest(message);
      hide *;
      var count := lo / 8 % 64;
      buffer[count] := 0x80;
      assert buffer[..count + 1] == r;
      MakeRoom(count + 1);
      PutLength();
      state := rounds(state, buffer[..]);
    }

    // mg_md5_final: pads in the buffer, over into one more block when the length no longer fits.
    method Final() returns (digest: seq<byte>)
      requires Valid()
      modifies this, buffer
      ensures digest == old(SumCounted(rounds, message, lo, hi))
      ensures old(Counts(lo, hi, |message|)) ==> digest == Sum(rounds, old(message))
      ensures lo == hi == 0 && state == [0, 0, 0, 0] && (forall k :: 0 <= k < buffer.Length ==> buffer[k] == 0)
    {
      if Counts(lo, hi, |message|) { SumOfExact(rounds, message, lo, hi); }
      LastBlock();
      digest := Show(state);
      hide *;
      lo, hi, state := 0, 0, [0, 0, 0, 0];
      forall k | 0 <= k < 64 {
        buffer[k] := 0;
      }
    }
  }

  // However a message is cut into pieces of less than four gigabytes, its digest is that of the whole.
  method HashPieces(f: Rounds, pieces: seq<seq<byte>>) returns (digest: seq<byte>)
    requires forall k :: 0 <= k < |pieces| ==> |pieces[k]| < TWO_32
    ensures digest == Sum(f, Flatten(pieces))
  {
    assert pieces[..0] == [] && Flatten(pieces[..0]) == [];
    hide *;
    var c := new Context(f);
    for i := 0 to |pieces|
      invariant fresh(c) && fresh(c.buffer) && c.Valid() && c.rounds == f && Counts(c.lo, c.hi, |c.message|)
      invariant c.message == Flatten(pieces[..i])
    {
      assert pieces[..i + 1] == pieces[..i] + [pieces[i]];
      FlattenSnoc(pieces[..i], pieces[i]);
      c.Update(pieces[i]);
    }
    assert pieces[..|pieces|] == pieces;
    digest := c.Final();
  }
}
