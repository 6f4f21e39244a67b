/** struct mg_queue and its four operations, run by one caller at a time: each call is the
    uninterrupted run of the same steps that QueueProtocol interleaves. */
module MgQueue {
  import opened Bytes
  import opened QueueProtocol

  // Marking the end and wrapping keeps the ring well laid out ...
  lemma MarkKeepsLayout(s: State, v: View)
    requires Layout(s, v) && !v.lapped && s.tail > HS
    ensures Layout(s.(buf := Put(s.buf, s.head, LengthBytes(0)), head := 0), View(v.front, true, s.head, []))
  {
    StoreKeepsLayout(s, v, s.head, LengthBytes(0));
    LengthRoundTrip(s.buf, s.head, 0);
    assert s.consumed + v.front + v.back == s.consumed + v.front + [];
  }

  // Without its first record the chain still is one.
  lemma OldestGone(s: State, v: View)
    requires Layout(s, v) && s.consumed == [] && v.front != []
    ensures var w, at := v.(front := v.front[1..]), s.tail + |v.front[0]| + 4;
            at + 4 <= |s.buf| && Layout(s.(tail := at, added := w.front + w.back), w)
  {
    var end, rest := if v.lapped then v.mark else s.head, v.front[1..];
    ChainOrder(s.buf, s.tail + 4 + |v.front[0]|, end, rest);
    assert [] + rest + v.back == rest + v.back;
  }

  // At the marker the walk goes on at the start of the buffer.
  lemma WrapKeepsLayout(s: State, v: View)
    requires Layout(s, v) && v.lapped && v.front == [] && s.consumed == [] && s.added == v.front + v.back
    ensures Layout(s.(tail := 0, added := v.back), View(v.back, false, 0, []))
  {
    assert [] + v.back + [] == v.back && v.front + v.back == v.back;
  }

  lemma LappedOrNot(s: State, v: View)
    requires Layout(s, v)
    ensures !v.lapped ==> v.back == []
  {
  }

  lemma FitsInside(s: State, v: View, len: nat)
    requires Layout(s, v) && Fits(s, v, len)
    ensures s.head + HS + len <= |s.buf|
  {
  }

  // ... and so does publishing the record that was written behind its length word.
  lemma AddKeepsLayout(s: State, v: View, len: nat) returns (w: View)
    requires Layout(s, v) && s.consumed == [] && 0 < len < TWO_32 && Fits(s, v, len)
    ensures w.front + w.back == v.front + v.back + [s.buf[s.head + 4..s.head + 4 + len]]
    ensures Layout(s.(buf := Put(s.buf, s.head, LengthBytes(len)), head := s.head + len + 4,
                      added := w.front + w.back), w)
  {
    hide Layout, Fits;
    var t, m := LengthWordInPlace(s, v, len);
    w := PublishKeepsLayout(t, v, m);
    var r := s.(buf := t.buf, head := s.head + len + 4, added := w.front + w.back);
    assert r == t.(head := t.head + |m| + 4, added := t.consumed + w.front + w.back) by {
      assert [] + w.front + w.back == w.front + w.back;
    }
  }

  lemma LengthWordInPlace(s: State, v: View, len: nat) returns (t: State, m: Message)
    requires Layout(s, v) && 0 < len < TWO_32 && Fits(s, v, len)
    ensures t == s.(buf := Put(s.buf, s.head, LengthBytes(len))) && Layout(t, v) && Fits(t, v, len)
    ensures m == s.buf[s.head + 4..s.head + 4 + len] == t.buf[s.head + 4..s.head + 4 + len]
    ensures LengthAt(t.buf, t.head) == len
  {
    m := s.buf[s.head + 4..s.head + 4 + len];
    t := Store(s, s.head, LengthBytes(len));
    assert Layout(t, v) by { StoreKeepsLayout(s, v, s.head, LengthBytes(len)); }
    assert LengthAt(t.buf, s.head) == len by { LengthRoundTrip(s.buf, s.head, len); }
    PutKeepsSlice(s.buf, s.head, LengthBytes(len), s.head + 4, s.head + 4 + len);
  }

  class Queue {
    const buf: array<byte>
    var head: nat
    var tail: nat
    ghost var view: View

    // The ring as the step machine sees it.
    ghost function Ring(): State
      reads this, buf
    {
      State(buf[..], head, tail, Producer.Idle, Resting, 0, false, Waiting(), [])
    }

    // The messages added and not yet deleted, oldest first.
    ghost function Waiting(): seq<Message>
      reads this
    {
      view.front + view.back
    }

    ghost predicate Valid()
      reads this, buf
    {
      Layout(Ring(), view)
    }

    constructor (buf: array<byte>)
      requires buf.Length < TWO_63
      ensures Valid() && Waiting() == [] && this.buf == buf && head == tail == 0
    {
      this.buf := buf;
      head, tail, view := 0, 0, View([], false, 0, []);
    }

    // mg_queue_book: offers at least len bytes at offset `at`, or fails with space 0.
    method Book(len: nat) returns (space: nat, at: nat)
      requires Valid() && len < TWO_32
      modifies this, buf
      ensures Valid() && Waiting() == old(Waiting()) && at == head + 4
      ensures var s := old(Ring());
              Ring().(space := space) == BookAlone(s, len).(producer := Producer.Idle)
      ensures space >= len > 0 ==> Fits(Ring(), view, len)
      ensures space == 0 || space >= len
    {
      ghost var s, v := Ring(), view;
      BookAloneOutcome(s, len);
      space := 0;
      if head >= tail && head + len + HS <= buf.Length {
        space := buf.Length - head - HS;
      } else if head >= tail && tail > HS {
        MarkKeepsLayout(s, v);
        WriteLength(0);
        view := View(v.front, true, head, []);
        head := 0;
        assert Waiting() == v.front + v.back;
      }
      if head + HS + len < tail {
        space := tail - head - HS;
      }
      at := head + 4;
    }

    // mg_queue_write_len
    method WriteLength(len: nat)
      requires head + 4 <= buf.Length && len < TWO_32
      modifies buf
      ensures buf[..] == Put(old(buf[..]), head, LengthBytes(len))
    {
      var bytes := LengthBytes(len);
      forall i | head <= i < head + 4 {
        buf[i] := bytes[i - head];
      }
      ghost var was := old(buf[..]);
      assert forall i :: head <= i < head + 4 ==> Put(was, head, bytes)[i] == Put(was, head, bytes)[head..head + 4][i - head];
    }

    // mg_queue_add, for a message of len bytes already written at head + 4.
    method Add(len: nat)
      requires Valid() && 0 < len < TWO_32 && Fits(Ring(), view, len)
      modifies this, buf
      ensures Valid()
      ensures Waiting() == old(Waiting()) + [old(buf[head + 4..head + 4 + len])]
      ensures tail == old(tail) && head == old(head) + len + 4
      ensures buf[..] == Put(old(buf[..]), old(head), LengthBytes(len))
    {
      hide Layout, Fits, Chain;
      ghost var s := Ring();
      FitsInside(s, view, len);
      ghost var w := AddKeepsLayout(s, view, len);
      ghost var r := s.(buf := Put(s.buf, s.head, LengthBytes(len)), head := s.head + len + 4,
                        added := w.front + w.back);
      WriteLength(len);
      assert head + HS + len <= buf.Length;
      head := head + len + 4;
      view := w;
      assert Ring() == r;
    }

    // mg_queue_next: the oldest message's length and offset, or 0 exactly when there is none.
    method Next() returns (len: nat, at: nat)
      requires Valid()
      modifies this`tail, this`view
      ensures Valid() && Waiting() == old(Waiting()) && at == tail + 4
      ensures len == 0 <==> Waiting() == []
      ensures tail == if old(view.lapped && view.front == []) then 0 else old(tail)
      ensures len > 0 ==> len == |Waiting()[0]|
      ensures len > 0 ==> at + len <= buf.Length && buf[at..at + len] == Waiting()[0] && view.front != []
    {
      hide Chain, Layout;
      EmptyOrNot(Ring(), view);
      LappedOrNot(Ring(), view);
      len := 0;
      if tail != head {
        len := ReadLength();
        if len == 0 {
          WrapKeepsLayout(Ring(), view);
          view := View(view.back, false, 0, []);
          assert Waiting() == old(Waiting());
          tail := 0;
          EmptyOrNot(Ring(), view);
          if head > tail {
            len := ReadLength();
          }
        }
      }
      at := tail + 4;
    }

    // mg_queue_read_len; its assert holds.
    method ReadLength() returns (n: nat)
      requires Valid() && tail != head
      ensures n == if view.front == [] then 0 else |view.front[0]|
      ensures n == 0 <==> view.front == []
      ensures n > 0 ==> tail + 4 + n <= buf.Length && buf[tail + 4..tail + 4 + n] == view.front[0]
    {
      ghost var end := if view.lapped then view.mark else head;
      ChainOrder(buf[..], tail, end, view.front);
      if view.front != [] {
        ChainOrder(buf[..], tail + 4 + |view.front[0]|, end, view.front[1..]);
      }
      n := LittleEndian(buf[tail..tail + 4]);
      assert n == LengthAt(buf[..], tail);
      assert tail + n + 4 <= buf.Length;
    }

    // mg_queue_del, for the message mg_queue_next returned.
    method Del(len: nat)
      requires Valid() && view.front != [] && len == |view.front[0]|
      modifies this`tail, this`view
      ensures Valid() && Waiting() == old(Waiting())[1..] && tail == old(tail) + len + 4
    {
      hide Layout, Chain;
      OldestGone(Ring(), view);
      ghost var s := Ring();
      tail := tail + len + 4;
      view := view.(front := view.front[1..]);
      assert tail + 4 <= buf.Length;
      assert Ring() == s.(tail := tail, added := view.front + view.back);
    }
  }
}
