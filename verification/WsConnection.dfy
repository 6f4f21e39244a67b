/** The two ends of a WebSocket connection at work on their buffers: mg_ws_send fills one in place,
    ws_process and mg_ws_cb empty the other. */
module WsConnection {
  import opened Bytes
  import opened IoBuf
  import opened WsFrame
  import opened WsStream

  /// Sending.

  // memcpy into the header.
  method WriteAt(header: array<byte>, at: nat, bytes: seq<byte>)
    requires at + |bytes| <= header.Length
    modifies header
    ensures header[..at + |bytes|] == old(header[..at]) + bytes
  {
    forall i | at <= i < at + |bytes| {
      header[i] := bytes[i - at];
    }
  }

  // mkhdr, for a payload of n bytes; `random` is what mg_random yields.
  method MakeHeader(n: nat, op: byte, isClient: bool, random: Mask) returns (header: array<byte>, len: nat)
    requires n < TWO_64
    ensures fresh(header) && len <= header.Length == 14
    ensures header[..len] == Header(op % 128 + 128, n, if isClient then Some(random) else None)
  {
    hide Header, BigEndianBytes, WithMaskFlag;
    header := new byte[14](_ => 0);
    header[0] := op % 128 + 128;
    if n < 126 {
      header[1], len := n, 2;
    } else if n < 65536 {
      header[1], len := 126, 4;
      WriteAt(header, 2, BigEndianBytes(n, 2));
    } else {
      header[1], len := 127, 10;
      WriteAt(header, 2, BigEndianBytes(n, 8));
    }
    ghost var flags: byte := op % 128 + 128;
    ghost var field := LengthField(n);
    assert header[..len] == [flags] + field && field != [] && len <= 10;
    HeaderIs(flags, n, random);
    if isClient {
      header[1] := header[1] + 128;
      MaskFlagged(flags, field, header[..len]);
      WriteAt(header, len, random);
      len := len + 4;
    }
  }

  // The header's second byte with the mask flag set.
  lemma MaskFlagged(flags: byte, field: seq<byte>, now: seq<byte>)
    requires field != [] && field[0] < 128 && |now| == |field| + 1
    requires now == ([flags] + field)[1 := field[0] + 128]
    ensures now == [flags] + WithMaskFlag(field)
  {
  }

  lemma HeaderIs(flags: byte, n: nat, random: Mask)
    ensures Header(flags, n, None) == [flags] + LengthField(n)
    ensures Header(flags, n, Some(random)) == [flags] + WithMaskFlag(LengthField(n)) + random
  {
  }

  // The loop that both mg_ws_mask and ws_process run over len bytes at offset p.
  method XorInPlace(buf: array<byte>, p: nat, len: nat, mask: nat)
    requires mask + 4 <= p && p + len <= buf.Length
    modifies buf
    ensures buf[..] == old(Put(buf[..], p, XorMask(buf[p..p + len], buf[mask..mask + 4])))
  {
    ghost var was, key := buf[..], buf[mask..mask + 4];
    for i := 0 to len
      invariant buf[mask..mask + 4] == key
      invariant forall k :: p <= k < p + i ==> buf[k] == XorMask(was[p..p + len], key)[k - p]
      invariant forall k :: 0 <= k < buf.Length && !(p <= k < p + i) ==> buf[k] == was[k]
    {
      assert buf[mask + i % 4] == key[i % 4];
      assert XorMask(was[p..p + len], key)[i] == Xor(was[p..p + len][i], key[i % 4]);
      buf[p + i] := Xor(buf[p + i], buf[mask + i % 4]);
    }
  }

  // mg_ws_mask: masks the last len bytes with the four before them.
  method MaskTail(send: Buffer, len: nat, isClient: bool)
    requires send.Valid() && (isClient ==> len + 4 <= send.len)
    modifies send.buf
    ensures send.Valid()
    ensures var was := old(send.Data()); var p := |was| - len;
            send.Data() == if isClient then was[..p] + XorMask(was[p..], was[p - 4..p]) else was
  {
    if isClient {
      ghost var was := send.Data();
      var p := send.len - len;
      assert send.buf[p..p + len] == was[p..] && send.buf[p - 4..p] == was[p - 4..p];
      ghost var masked := XorMask(was[p..], was[p - 4..p]);
      XorInPlace(send.buf, p, len, p - 4);
      assert send.Data()[p..] == masked;
    }
  }

  // A header and a payload, masked with the end of the header where it lies.
  method AppendMasked(send: Buffer, header: seq<byte>, payload: seq<byte>, isClient: bool)
    requires send.Valid() && (isClient ==> |header| >= 4)
    modifies send, send.buf
    ensures send.Valid() && (send.buf == old(send.buf) || fresh(send.buf))
    ensures send.Data() == old(send.Data()) + header
                           + if isClient then XorMask(payload, header[|header| - 4..]) else payload
  {
    hide XorMask;
    ghost var was := send.Data();
    send.Append(header);
    send.Append(payload);
    ghost var w := send.Data();
    ghost var p := |was| + |header|;
    assert w[p..] == payload && w[..p] == was + header && (isClient ==> w[p - 4..p] == header[|header| - 4..]);
    MaskTail(send, |payload|, isClient);
  }

  // mg_ws_send: header, payload, and for a client the mask over the payload where it lies.
  method Send(send: Buffer, payload: seq<byte>, op: byte, isClient: bool, random: Mask) returns (n: nat)
    requires send.Valid() && |payload| < TWO_64
    modifies send, send.buf
    ensures send.Valid() && (send.buf == old(send.buf) || fresh(send.buf))
    ensures var f := Frame(op % 128 + 128, payload, if isClient then Some(random) else None);
            send.Data() == old(send.Data()) + f && n == |f|
  {
    hide Header, XorMask, BigEndianBytes, Frame, LengthField, WithMaskFlag;
    ghost var was := send.Data();
    var header, len := MakeHeader(|payload|, op, isClient, random);
    SentIs(was, op % 128 + 128, payload, if isClient then Some(random) else None);
    AppendMasked(send, header[..len], payload, isClient);
    n := len + |payload|;
  }

  // Where mg_ws_mask finds payload and mask, and that masking there makes the frame.
  lemma SentIs(was: seq<byte>, flags: byte, payload: seq<byte>, mask: Option<Mask>)
    ensures var h := Header(flags, |payload|, mask);
            && (mask.Some? ==> |h| >= 4 && h[|h| - 4..] == mask.value)
            && |Frame(flags, payload, mask)| == |h| + |payload|
            && was + Frame(flags, payload, mask) == was + h + (if mask.Some? then XorMask(payload, mask.value) else payload)
  {
    hide Header, XorMask;
    var h := Header(flags, |payload|, mask);
    HeaderParts(flags, |payload|, mask);
    ConcatAssociates(was, h, if mask.Some? then XorMask(payload, mask.value) else payload);
  }

  /// Replies.

  // What replies put into the send buffer; a client masks them with random(k), random(k + 1) and so on.
  function Sent(events: seq<Event>, isClient: bool, random: nat -> Mask, k: nat): seq<byte> {
    if events == [] then []
    else match events[0]
      case Reply(op, data) =>
        Frame(op % 128 + 128, data, if isClient then Some(random(k)) else None)
        + Sent(events[1..], isClient, random, k + 1)
      case _ => Sent(events[1..], isClient, random, k)
  }

  function Replies(events: seq<Event>): nat {
    if events == [] then 0 else (if events[0].Reply? then 1 else 0) + Replies(events[1..])
  }

  lemma {:induction false} SentConcat(a: seq<Event>, b: seq<Event>, isClient: bool, random: nat -> Mask, k: nat)
    ensures Replies(a + b) == Replies(a) + Replies(b)
    ensures Sent(a + b, isClient, random, k) == Sent(a, isClient, random, k) + Sent(b, isClient, random, k + Replies(a))
    decreases |a|
  {
    hide Frame;
    if a == [] {
      assert a + b == b;
    } else {
      assert (a + b)[0] == a[0] && (a + b)[1..] == a[1..] + b;
      SentConcat(a[1..], b, isClient, random, if a[0].Reply? then k + 1 else k);
    }
  }

  lemma SentOne(e: Event, isClient: bool, random: nat -> Mask, k: nat)
    ensures Replies([e]) == if e.Reply? then 1 else 0
    ensures Sent([e], isClient, random, k)
            == if e.Reply? then Frame(e.op % 128 + 128, e.data, if isClient then Some(random(k)) else None) else []
  {
    hide Frame;
    assert [e][1..] == [];
  }

  // What is sent does not depend on the bytes that stray frames report.
  lemma {:induction false} SentBlurred(a: seq<Event>, b: seq<Event>, isClient: bool, random: nat -> Mask, k: nat)
    requires Blurred(a) == Blurred(b)
    ensures Sent(a, isClient, random, k) == Sent(b, isClient, random, k) && Replies(a) == Replies(b)
    decreases |a|
  {
    hide Frame;
    SameLength(a, b);
    if a != [] {
      assert Blurred(a)[0] == Blurred(b)[0];
      BlurredRest(a);
      BlurredRest(b);
      SentBlurred(a[1..], b[1..], isClient, random, if a[0].Reply? then k + 1 else k);
    }
  }

  // The answers that control frames ask for: to a ping a pong, and to a close a close, with the same payload.
  function Answers(signals: seq<Text>, isClient: bool, random: nat -> Mask, k: nat): seq<byte> {
    if signals == [] then []
    else
      var Text(op, data) := signals[0];
      if op != PING && op != CLOSE then Answers(signals[1..], isClient, random, k)
      else
        Frame((if op == PING then PONG else CLOSE) + 128, data, if isClient then Some(random(k)) else None)
        + Answers(signals[1..], isClient, random, k + 1)
  }

  function Asking(signals: seq<Text>): nat {
    if signals == [] then 0
    else (if signals[0].op == PING || signals[0].op == CLOSE then 1 else 0) + Asking(signals[1..])
  }

  lemma {:induction false} AnswersConcat(a: seq<Text>, b: seq<Text>, isClient: bool, random: nat -> Mask, k: nat)
    ensures Asking(a + b) == Asking(a) + Asking(b)
    ensures Answers(a + b, isClient, random, k)
            == Answers(a, isClient, random, k) + Answers(b, isClient, random, k + Asking(a))
    decreases |a|
  {
    hide Frame;
    if a == [] {
      assert a + b == b;
    } else {
      assert (a + b)[0] == a[0] && (a + b)[1..] == a[1..] + b;
      AnswersConcat(a[1..], b, isClient, random, k + Asking([a[0]]));
      AnswersOne(a[0], isClient, random, k);
    }
  }

  lemma AnswersOne(t: Text, isClient: bool, random: nat -> Mask, k: nat)
    ensures Asking([t]) == if t.op == PING || t.op == CLOSE then 1 else 0
    ensures Answers([t], isClient, random, k)
            == if t.op == PING then Frame(PONG + 128, t.data, if isClient then Some(random(k)) else None)
               else if t.op == CLOSE then Frame(CLOSE + 128, t.data, if isClient then Some(random(k)) else None) else []
  {
    hide Frame;
    assert [t][1..] == [];
  }

  // A ping that says "Hello" is answered, by a server, with a pong that says "Hello"; a close with a close.
  lemma HelloAnswered(random: nat -> Mask)
    ensures Answers([Text(9, HELLO)], false, random, 0) == [0x8a, 0x05] + HELLO
    ensures Answers([Text(8, HELLO), Text(10, HELLO)], false, random, 0) == [0x88, 0x05] + HELLO
  {
    AnswersOne(Text(9, HELLO), false, random, 0);
    AnswersOne(Text(8, HELLO), false, random, 0);
    AnswersOne(Text(10, HELLO), false, random, 1);
    AnswersConcat([Text(8, HELLO)], [Text(10, HELLO)], false, random, 0);
    ShortFrame(0x8a, HELLO);
    ShortFrame(0x88, HELLO);
  }

  // The events answer just what they report.
  ghost predicate Matched(events: seq<Event>, isClient: bool, random: nat -> Mask) {
    && Replies(events) == Asking(Signals(events))
    && forall k: nat :: Sent(events, isClient, random, k) == Answers(Signals(events), isClient, random, k)
  }

  lemma MatchedConcat(a: seq<Event>, b: seq<Event>, isClient: bool, random: nat -> Mask)
    requires Matched(a, isClient, random) && Matched(b, isClient, random)
    ensures Matched(a + b, isClient, random)
  {
    hide Sent, Answers, Replies, Asking, Signals;
    SignalsConcat(a, b);
    forall k: nat
      ensures Sent(a + b, isClient, random, k) == Answers(Signals(a + b), isClient, random, k)
    {
      SentConcat(a, b, isClient, random, k);
      AnswersConcat(Signals(a), Signals(b), isClient, random, k);
    }
    SentConcat(a, b, isClient, random, 0);
    AnswersConcat(Signals(a), Signals(b), isClient, random, 0);
  }

  lemma QuietMatched(e: Event, isClient: bool, random: nat -> Mask)
    requires !e.Reply? && (e.Control? ==> e.flags % 16 != PING && e.flags % 16 != CLOSE)
    ensures Matched([e], isClient, random)
  {
    hide Sent, Answers, Replies, Asking, Signals;
    EventsOfOne(e);
    forall k: nat
      ensures Sent([e], isClient, random, k) == Answers(Signals([e]), isClient, random, k)
    {
      QuietSends(e, isClient, random, k);
    }
    QuietSends(e, isClient, random, 0);
  }

  lemma QuietSends(e: Event, isClient: bool, random: nat -> Mask, k: nat)
    requires !e.Reply? && (e.Control? ==> e.flags % 16 != PING && e.flags % 16 != CLOSE)
    ensures Replies([e]) == Asking(Signals([e]))
    ensures Sent([e], isClient, random, k) == Answers(Signals([e]), isClient, random, k)
  {
    hide Sent, Answers, Replies, Asking, Signals;
    EventsOfOne(e);
    SentOne(e, isClient, random, k);
    if Signals([e]) == [] {
      AnswersNothing(isClient, random, k);
    } else {
      AnswersOne(Signals([e])[0], isClient, random, k);
    }
  }

  lemma AnswersNothing(isClient: bool, random: nat -> Mask, k: nat)
    ensures Asking([]) == 0 && Answers([], isClient, random, k) == []
  {
  }

  // A control frame and its reply, in either order.
  lemma ReplyMatched(flags: byte, data: seq<byte>, es: seq<Event>, isClient: bool, random: nat -> Mask)
    requires flags % 16 == PING || flags % 16 == CLOSE
    requires var r := Reply(if flags % 16 == PING then PONG else CLOSE, data);
             es == [r, Control(flags, data)] || es == [Control(flags, data), r]
    ensures Matched(es, isClient, random)
  {
    hide Sent, Answers, Replies, Asking, Signals;
    forall k: nat
      ensures Sent(es, isClient, random, k) == Answers(Signals(es), isClient, random, k)
    {
      ReplySends(flags, data, es, isClient, random, k);
    }
    ReplySends(flags, data, es, isClient, random, 0);
  }

  lemma ReplySends(flags: byte, data: seq<byte>, es: seq<Event>, isClient: bool, random: nat -> Mask, k: nat)
    requires flags % 16 == PING || flags % 16 == CLOSE
    requires var r := Reply(if flags % 16 == PING then PONG else CLOSE, data);
             es == [r, Control(flags, data)] || es == [Control(flags, data), r]
    ensures Replies(es) == Asking(Signals(es))
    ensures Sent(es, isClient, random, k) == Answers(Signals(es), isClient, random, k)
  {
    hide Sent, Answers, Replies, Asking, Signals, Frame;
    var c, r := Control(flags, data), Reply(if flags % 16 == PING then PONG else CLOSE, data);
    assert es == [es[0]] + [es[1]];
    EventsOfOne(c);
    EventsOfOne(r);
    EventsOfTwo(es[0], es[1]);
    assert Signals(es) == [Text(flags % 16, data)];
    SentOne(r, isClient, random, k);
    SentOne(c, isClient, random, k);
    SentOne(c, isClient, random, k + 1);
    SentConcat([es[0]], [es[1]], isClient, random, k);
    AnswersOne(Text(flags % 16, data), isClient, random, k);
  }

  lemma ReportMatched(flags: byte, data: seq<byte>, isClient: bool, random: nat -> Mask)
    ensures Matched(Report(flags, data), isClient, random)
  {
    hide Matched;
    var op := flags % 16;
    if op == PING || op == CLOSE {
      ReplyMatched(flags, data, Report(flags, data), isClient, random);
    } else if Report(flags, data) == [] {
      NothingMatched(isClient, random);
    } else {
      QuietMatched(Report(flags, data)[0], isClient, random);
    }
  }

  lemma NothingMatched(isClient: bool, random: nat -> Mask)
    ensures Matched([], isClient, random)
  {
  }

  lemma HandleMatched(acc: seq<byte>, flags: byte, data: seq<byte>, front: byte, isClient: bool, random: nat -> Mask)
    ensures Matched(Handle(acc, flags, data, front).events, isClient, random)
  {
    hide Matched, Report, Wrap64;
    ReportMatched(flags, data, isClient, random);
    if flags % 16 == 0 && flags >= 128 {
      var whole := acc + data;
      var e := if whole == [] then Stray(front, Wrap64(0 - 1)) else Message(whole[0], whole[1..]);
      QuietMatched(e, isClient, random);
      MatchedConcat(Report(flags, data), [e], isClient, random);
    }
  }

  // Whatever arrives: each ping is answered by a pong and each close by a close, with the same payload and
  // in order, and nothing else is sent.
  lemma {:induction false} DecodeMatched(acc: seq<byte>, s: seq<byte>, isClient: bool, random: nat -> Mask)
    ensures Matched(Decode(acc, s).events, isClient, random)
    decreases |s|
  {
    hide Matched, Parse, Payload, Handle, Front;
    match Parse(s)
    case None => NothingMatched(isClient, random);
    case Some(Lengths(h, n)) =>
      var tail := s[h + n..];
      var o := Handle(acc, s[0], Payload(s), Front(tail));
      HandleMatched(acc, s[0], Payload(s), Front(tail), isClient, random);
      DecodeMatched(o.acc, tail, isClient, random);
      MatchedConcat(o.events, Decode(o.acc, tail).events, isClient, random);
  }

  /// Receiving.

  // Handling frames one by one has led from `start` to `now`.
  predicate Handled(start: Stream, now: Stream) {
    Prepend(start.events, Decode(start.acc, start.rest)) == Prepend(now.events, Decode(now.acc, now.rest))
  }

  function Advance(now: Stream): Stream
    requires Parse(now.rest).Some?
  {
    var Lengths(h, n) := Parse(now.rest).value;
    var o := Handle(now.acc, now.rest[0], Payload(now.rest), Front(now.rest[h + n..]));
    Stream(now.events + o.events, o.acc, now.rest[h + n..])
  }

  lemma HandledMore(start: Stream, now: Stream)
    requires Handled(start, now) && Parse(now.rest).Some?
    ensures Handled(start, Advance(now))
  {
    hide Parse, Payload, Handle;
    var Lengths(h, n) := Parse(now.rest).value;
    var o := Handle(now.acc, now.rest[0], Payload(now.rest), Front(now.rest[h + n..]));
    ConcatAssociates(now.events, o.events, Decode(o.acc, now.rest[h + n..]).events);
  }

  lemma AdvanceIs(now: Stream)
    requires Parse(now.rest).Some?
    ensures var Lengths(h, n) := Parse(now.rest).value; var rest := now.rest[h + n..];
            var o := Handle(now.acc, now.rest[0], Payload(now.rest), Front(rest));
            Advance(now) == Stream(now.events + o.events, o.acc, rest)
  {
  }

  lemma AdvanceShrinks(now: Stream)
    requires Parse(now.rest).Some?
    ensures |Advance(now).rest| < |now.rest|
  {
    hide Handle, Payload;
  }

  lemma HandledAll(start: Stream, now: Stream)
    requires Handled(start, now) && Parse(now.rest).None?
    ensures now == Prepend(start.events, Decode(start.acc, start.rest))
  {
    hide Parse;
    assert now.events + [] == now.events;
  }

  // A buffer whose frame has been unmasked in place.
  lemma UnmaskedParts(acc: seq<byte>, s: seq<byte>)
    requires Parse(s).Some?
    ensures var Lengths(h, n) := Parse(s).value; var data := Payload(s);
            Put(acc + s, |acc| + h, data) == acc + s[..h] + data + s[h + n..]
  {
    hide Parse, Payload;
    var Lengths(h, n) := Parse(s).value;
    assert acc + s == acc + s[..h] + s[h..h + n] + s[h + n..];
    PutMiddle(acc + s[..h], s[h..h + n], s[h + n..], Payload(s));
  }

  lemma PayloadFits(s: seq<byte>)
    requires Parse(s).Some?
    ensures |Payload(s)| < TWO_64
  {
  }

  class Connection {
    const recv: Buffer
    const send: Buffer
    const isClient: bool
    const random: nat -> Mask  // what mg_random yields for the k-th reply
    var replies: nat           // how many replies have been sent so far
    var pfnData: nat           // how many bytes of a message in progress lie at the front
    var events: seq<Event>     // what has been reported and replied so far

    ghost predicate Apart()
      reads this, recv, send
    {
      recv.Valid() && send.Valid() && recv != send && recv.buf != send.buf
    }

    ghost predicate Valid()
      reads this, recv, send
    {
      Apart() && pfnData <= recv.len
    }

    // The replies among the events since `from` have been sent, behind `was`.
    ghost predicate Answered(from: seq<Event>, was: seq<byte>, k: nat)
      requires send.Valid()
      reads this, send, send.buf
    {
      NowAnswered(from, events, was, k, send.Data(), replies)
    }

    ghost predicate NowAnswered(from: seq<Event>, now: seq<Event>, was: seq<byte>, k: nat, sent: seq<byte>, j: nat) {
      from <= now && j == k + Replies(now[|from|..]) && sent == was + Sent(now[|from|..], isClient, random, k)
    }

    ghost function InProgress(): seq<byte>
      requires Valid()
      reads this, recv, recv.buf, send
    {
      recv.Data()[..pfnData]
    }

    ghost function Pending(): seq<byte>
      requires Valid()
      reads this, recv, recv.buf, send
    {
      recv.Data()[pfnData..]
    }

    constructor (isClient: bool, random: nat -> Mask)
      ensures Valid() && fresh(recv) && fresh(recv.buf) && fresh(send) && fresh(send.buf)
      ensures recv.Data() == [] && send.Data() == [] && pfnData == 0 && events == []
      ensures this.isClient == isClient && this.random == random && replies == 0
    {
      recv := new Buffer();
      send := new Buffer();
      this.isClient := isClient;
      this.random := random;
      replies := 0;
      pfnData := 0;
      events := [];
    }

    // ws_process on the bytes from offset ofs: measures the frame there and, once it is complete,
    // unmasks its payload where it lies; otherwise returns 0 and changes nothing.
    method Process(ofs: nat) returns (n: nat, headerLen: nat, dataLen: nat, flags: byte)
      requires recv.Valid() && ofs <= recv.len
      modifies recv.buf
      ensures recv.Valid()
      ensures var was := old(recv.Data()); var s := was[ofs..];
              match Parse(s)
              case None => n == 0 && recv.Data() == was
              case Some(Lengths(h, d)) =>
                && n == h + d && headerLen == h && dataLen == d && flags == s[0]
                && recv.Data() == Put(was, ofs + h, Payload(s))
    {
      hide Payload, Measure, Put;
      ghost var s := recv.Data()[ofs..];
      var len := recv.len - ofs;
      var maskLen;
      headerLen, dataLen, maskLen, flags := MeasureAt(ofs, len, s);
      if dataLen > GIB || headerLen + dataLen > len { return 0, headerLen, dataLen, flags; }
      n := headerLen + dataLen;
      if n > 0 { UnmaskFrame(ofs, headerLen, dataLen, maskLen, s); }
    }

    // The payload of a complete frame, unmasked where it lies.
    method UnmaskFrame(ofs: nat, headerLen: nat, dataLen: nat, maskLen: nat, ghost s: seq<byte>)
      requires recv.Valid() && ofs <= recv.len && s == recv.Data()[ofs..]
      requires Parse(s) == Some(Lengths(headerLen, dataLen)) && maskLen == MaskLen(s)
      modifies recv.buf
      ensures recv.Data() == Put(old(recv.Data()), ofs + headerLen, Payload(s))
    {
      hide Measure, XorMask, Put;
      ghost var was := recv.Data();
      SliceOfTail(was, ofs, headerLen, headerLen + dataLen);
      if maskLen > 0 {
        SliceOfTail(was, ofs, headerLen - 4, headerLen);
        Unmask(ofs + headerLen, dataLen, s[headerLen..headerLen + dataLen], s[headerLen - 4..headerLen]);
      } else {
        PutBack(was, ofs + headerLen, dataLen);
      }
    }

    // The header fields, read where they lie.
    method MeasureAt(ofs: nat, len: nat, ghost s: seq<byte>)
      returns (headerLen: nat, dataLen: nat, maskLen: nat, flags: byte)
      requires recv.Valid() && ofs + len == recv.len && s == recv.Data()[ofs..]
      ensures Measure(s) == Lengths(headerLen, dataLen) && (headerLen == 0 ==> dataLen == 0)
      ensures headerLen > 0 ==> len >= 2 && flags == s[0] && maskLen == MaskLen(s) && headerLen >= 2 + maskLen
    {
      hide BigEndian;
      headerLen, dataLen, maskLen, flags := 0, 0, 0, 0;
      if len >= 2 {
        assert recv.buf[ofs] == s[0] && recv.buf[ofs + 1] == s[1];
        var n := recv.buf[ofs + 1] % 128;
        maskLen := if recv.buf[ofs + 1] >= 128 then 4 else 0;
        flags := recv.buf[ofs];
        if n < 126 && len >= maskLen {
          dataLen, headerLen := n, 2 + maskLen;
        } else if n == 126 && len >= 4 + maskLen {
          headerLen := 4 + maskLen;
          SliceOfTail(recv.Data(), ofs, 2, 4);
          assert recv.Data()[ofs + 2..ofs + 4] == recv.buf[ofs + 2..ofs + 4];
          dataLen := BigEndian(recv.buf[ofs + 2..ofs + 4]);
        } else if len >= 10 + maskLen {
          headerLen := 10 + maskLen;
          SliceOfTail(recv.Data(), ofs, 2, 10);
          assert recv.Data()[ofs + 2..ofs + 10] == recv.buf[ofs + 2..ofs + 10];
          dataLen := BigEndian(recv.buf[ofs + 2..ofs + 10]);
        }
      }
    }

    method Unmask(p: nat, len: nat, ghost data: seq<byte>, ghost mask: Mask)
      requires recv.Valid() && 4 <= p && p + len <= recv.len
      requires recv.Data()[p..p + len] == data && recv.Data()[p - 4..p] == mask
      modifies recv.buf
      ensures recv.Data() == Put(old(recv.Data()), p, XorMask(data, mask))
    {
      ghost var was := recv.buf[..];
      assert recv.buf[p..p + len] == data && recv.buf[p - 4..p] == mask;
      XorInPlace(recv.buf, p, len, p - 4);
      assert forall k :: 0 <= k < recv.len ==> Put(was, p, XorMask(data, mask))[k] == Put(was[..recv.len], p, XorMask(data, mask))[k];
    }
  
    // One turn of the loop of mg_ws_cb, on the complete frame Process found at offset ofs.
    method TakeFrame(ofs: nat, headerLen: nat, dataLen: nat, flags: byte, ghost acc: seq<byte>,
                     ghost header: seq<byte>, ghost data: seq<byte>, ghost rest: seq<byte>)
      returns (end: nat)
      requires Apart() && recv.Data() == acc + header + data + rest && |data| < TWO_64
      requires ofs == |acc| == pfnData && headerLen == |header| >= 1 && dataLen == |data| && header[0] == flags
      modifies this, recv, recv.buf, send, send.buf
      ensures Valid() && end == pfnData && recv.buf == old(recv.buf) && (send.buf == old(send.buf) || fresh(send.buf))
      ensures Answered(old(events), old(send.Data()), old(replies))
      ensures var o := Handle(acc, flags, data, Front(rest));
              Now() == Stream(old(events) + o.events, o.acc, rest)
    {
      hide Report, Wrap64, Front, NowAnswered;
      end := ofs;
      var final, op := flags >= 128, flags % 16;
      FrameParts(acc, header, data, rest);
      ghost var was := recv.Data();
      assert recv.buf[ofs + headerLen..ofs + headerLen + dataLen] == was[ofs + headerLen..ofs + headerLen + dataLen];
      RaiseEvents(flags, recv.buf[ofs + headerLen..ofs + headerLen + dataLen]);
      if !final || op == 0 {
        end := StripHeader(ofs, headerLen, dataLen, op, acc, header, data, rest);
      }
      if final && op != 0 {
        var _ := recv.Del(end, headerLen + dataLen);
      }
      if final && op == 0 {
        ghost var now, sent, k := events, send.Data(), replies;
        FinishMessage(end, acc + data, rest);
        AnsweredMore(old(events), now, old(send.Data()), old(replies), sent, k);
        end := 0;
      }
    }

    // Keep a fragment's payload next to what is there already; the first also keeps its flags byte.
    method StripHeader(ofs: nat, headerLen: nat, dataLen: nat, op: byte, ghost acc: seq<byte>,
                       ghost header: seq<byte>, ghost data: seq<byte>, ghost rest: seq<byte>)
      returns (end: nat)
      requires Apart() && recv.Data() == acc + header + data + rest
      requires ofs == |acc| && headerLen == |header| >= 1 && dataLen == |data|
      modifies this`pfnData, recv`len, recv.buf
      ensures var kept := (if op != 0 then acc + [header[0]] else acc) + data;
              Valid() && recv.Data() == kept + rest && end == pfnData == |kept|
      ensures recv.len == 0 ==> 0 < recv.buf.Length && recv.buf[0] == 0
    {
      FrameParts(acc, header, data, rest);
      end := ofs;
      var strip := headerLen;
      if op != 0 { end, strip := end + 1, strip - 1; }
      var _ := recv.Del(end, strip);
      end := end + dataLen;
      pfnData := end;
    }

    // The last fragment has come: report the message joined at the front and remove it.
    method FinishMessage(end: nat, ghost whole: seq<byte>, ghost rest: seq<byte>)
      requires Apart() && recv.Data() == whole + rest && end == |whole|
      requires recv.len == 0 ==> 0 < recv.buf.Length && recv.buf[0] == 0
      modifies this`pfnData, this`events, recv`len, recv.buf
      ensures Valid() && pfnData == 0 && recv.Data() == rest
      ensures events == old(events) + [if whole == [] then Stray(Front(rest), Wrap64(0 - 1))
                                        else Message(whole[0], whole[1..])]
      ensures Answered(old(events), old(send.Data()), old(replies))
    {
      hide Wrap64, NowAnswered;
      assert end > 0 ==> recv.buf[0] == whole[0] && recv.buf[1..end] == whole[1..];
      assert end == 0 ==> whole + rest == rest && recv.buf[0] == Front(rest);
      Raise(if end == 0 then Stray(recv.buf[0], Wrap64(end - 1)) else Message(recv.buf[0], recv.buf[1..end]));
      var _ := recv.Del(0, end);
      pfnData := 0;
    }

    ghost function Now(): Stream
      requires Valid()
      reads this, recv, recv.buf, send
    {
      Stream(events, InProgress(), Pending())
    }

    // One frame, if one is all there.
    method ReadFrame(ofs: nat) returns (found: bool, end: nat)
      requires Valid() && ofs == pfnData
      modifies this, recv, recv.buf, send, send.buf
      ensures Valid() && recv.buf == old(recv.buf) && (send.buf == old(send.buf) || fresh(send.buf)) && end == pfnData
      ensures Answered(old(events), old(send.Data()), old(replies))
      ensures found == Parse(old(Pending())).Some?
      ensures Now() == if found then Advance(old(Now())) else old(Now())
    {
      hide Parse, Payload, Handle, Advance, NowAnswered;
      ghost var acc, s, was, now := InProgress(), Pending(), recv.Data(), Now();
      assert was == acc + s;
      var n, headerLen, dataLen, flags := Process(ofs);
      found, end := n > 0, ofs;
      if n > 0 {
        UnmaskedParts(acc, s);
        PayloadFits(s);
        ghost var header, rest := s[..headerLen], s[headerLen + dataLen..];
        AdvanceIs(now);
        end := TakeFrame(ofs, headerLen, dataLen, flags, acc, header, Payload(s), rest);
      } else {
        NothingAnswered();
      }
    }

    // mg_ws_cb on a read event: handles every frame that is all there.
    method Read()
      requires Valid()
      modifies this, recv, recv.buf, send, send.buf
      ensures Valid() && recv.buf == old(recv.buf) && (send.buf == old(send.buf) || fresh(send.buf))
      ensures Now() == old(Prepend(events, Decode(InProgress(), Pending())))
      ensures Answered(old(events), old(send.Data()), old(replies))
    {
      ghost var start := Now();
      assert Handled(start, start);
      NothingAnswered();
      hide Parse, Advance, Handled, Answered;
      var ofs, found := pfnData, true;
      while found
        invariant Valid() && ofs == pfnData && recv.buf == old(recv.buf)
        invariant send.buf == old(send.buf) || fresh(send.buf)
        invariant Handled(start, Now()) && (!found ==> Parse(Now().rest).None?)
        invariant Answered(start.events, old(send.Data()), old(replies))
        decreases found, |Now().rest|
      {
        ghost var now := Now();
        if Parse(now.rest).Some? {
          HandledMore(start, now);
          AdvanceShrinks(now);
        }
        ghost var sent, k := send.Data(), replies;
        assert NowAnswered(start.events, now.events, old(send.Data()), old(replies), sent, k);
        found, ofs := ReadFrame(ofs);
        AnsweredMore(start.events, now.events, old(send.Data()), old(replies), sent, k);
      }
      HandledAll(start, Now());
    }

    lemma NothingAnswered()
      requires send.Valid()
      ensures Answered(events, send.Data(), replies)
    {
      assert events[|events|..] == [] && send.Data() + [] == send.Data();
    }

    // Answered so far, up to `mid`, and from there on.
    lemma AnsweredMore(from: seq<Event>, mid: seq<Event>, was: seq<byte>, k: nat, sent: seq<byte>, j: nat)
      requires send.Valid() && NowAnswered(from, mid, was, k, sent, j) && Answered(mid, sent, j)
      ensures Answered(from, was, k)
    {
      hide Sent, Replies;
      var a, b := mid[|from|..], events[|mid|..];
      assert events[|from|..] == a + b;
      SentConcat(a, b, isClient, random, k);
      ConcatAssociates(was, Sent(a, isClient, random, k), Sent(b, isClient, random, j));
    }

    // mg_ws_send, on this connection.
    method Answer(op: byte, data: seq<byte>)
      requires send.Valid() && |data| < TWO_64
      modifies this`events, this`replies, send, send.buf
      ensures send.Valid() && (send.buf == old(send.buf) || fresh(send.buf))
      ensures events == old(events) + [Reply(op, data)] && Answered(old(events), old(send.Data()), old(replies))
    {
      hide Frame, Sent, Replies;
      SentOne(Reply(op, data), isClient, random, replies);
      var _ := Send(send, data, op, isClient, random(replies));
      replies := replies + 1;
      events := events + [Reply(op, data)];
      assert events[|old(events)|..] == [Reply(op, data)];
    }

    // mg_call.
    method Raise(e: Event)
      requires send.Valid() && !e.Reply?
      modifies this`events
      ensures events == old(events) + [e] && Answered(old(events), send.Data(), replies)
    {
      hide Sent, Replies;
      SentOne(e, isClient, random, replies);
      events := events + [e];
      assert events[|old(events)|..] == [e] && send.Data() + [] == send.Data();
    }

    // The switch of mg_ws_cb.
    method RaiseEvents(flags: byte, data: seq<byte>)
      requires send.Valid() && |data| < TWO_64
      modifies this`events, this`replies, send, send.buf
      ensures send.Valid() && (send.buf == old(send.buf) || fresh(send.buf))
      ensures events == old(events) + Report(flags, data) && Answered(old(events), old(send.Data()), old(replies))
    {
      hide Sent, Replies;
      NothingAnswered();
      ghost var now, was, k := events, send.Data(), replies;
      var op := flags % 16;
      if op == CONTINUE {
        Raise(Control(flags, data));
      } else if op == PING {
        Answer(PONG, data);
        ghost var mid, sent, j := events, send.Data(), replies;
        Raise(Control(flags, data));
        AnsweredMore(now, mid, was, k, sent, j);
      } else if op == PONG {
        Raise(Control(flags, data));
      } else if op == TEXT || op == BINARY {
        if flags >= 128 { Raise(Message(flags, data)); }
      } else if op == CLOSE {
        Raise(Control(flags, data));
        ghost var mid, sent, j := events, send.Data(), replies;
        Answer(CLOSE, data);
        AnsweredMore(now, mid, was, k, sent, j);
      } else {
        Raise(Failure(op));
      }
    }
  }

  // Where the parts of a frame lie, and what is left when its header, or all of it, is cut out.
  lemma FrameParts(acc: seq<byte>, header: seq<byte>, data: seq<byte>, rest: seq<byte>)
    requires header != []
    ensures var w := acc + header + data + rest; var i, j := |acc| + |header|, |acc| + |header| + |data|;
            && w[i..j] == data
            && w[..|acc|] + w[j..] == acc + rest
            && w[..|acc|] + w[i..] == acc + data + rest
            && w[..|acc| + 1] + w[i..] == acc + [header[0]] + data + rest
  {
    var w := acc + header + data + rest;
    ConcatParts(acc + header, data, rest);
    assert w[|acc| + |header|..] == data + rest;
    assert w[..|acc|] == acc;
    assert w[..|acc| + 1] == acc + [header[0]];
  }

  /// Whole connections: the same result however the bytes are cut into reads.

  // The events without the byte that stray frames report.
  function Blurred(events: seq<Event>): seq<Event> {
    seq(|events|, i requires 0 <= i < |events| => if events[i].Stray? then Stray(0, 0) else events[i])
  }

  lemma BlurredConcat(a: seq<Event>, b: seq<Event>)
    ensures Blurred(a + b) == Blurred(a) + Blurred(b)
  {
  }

  lemma {:induction false} SignalsBlurred(a: seq<Event>, b: seq<Event>)
    requires Blurred(a) == Blurred(b)
    ensures Signals(a) == Signals(b)
    decreases |a|
  {
    SameLength(a, b);
    if a != [] {
      assert Blurred(a)[0] == Blurred(b)[0];
      BlurredRest(a);
      BlurredRest(b);
      SignalsBlurred(a[1..], b[1..]);
    }
  }

  lemma BlurredRest(a: seq<Event>)
    requires a != []
    ensures Blurred(a)[1..] == Blurred(a[1..])
  {
  }

  lemma BlurredNoStray(a: seq<Event>, b: seq<Event>)
    requires Blurred(a) == Blurred(b) && NoStray(b)
    ensures a == b
  {
    assert |Blurred(a)| == |a| && |Blurred(b)| == |b|;
    forall k | 0 <= k < |a|
      ensures a[k] == b[k]
    {
      assert Blurred(a)[k] == Blurred(b)[k];
    }
  }

  // No cut comes right behind a stray frame with a byte other than zero to follow.
  predicate CleanCuts(pieces: seq<seq<byte>>) {
    forall k :: 0 <= k < |pieces| ==> !CutsStray(Flatten(pieces[..k]), pieces[k])
  }

  predicate CutsStray(got: seq<byte>, piece: seq<byte>) {
    EndsStray(Decode([], got)) && Front(piece) != 0
  }

  // What has happened once `got` has arrived: everything but the stray bytes is that of decoding it at
  // once, and those too exactly while the cuts are clean.
  predicate Told(now: Stream, got: seq<byte>, clean: bool) {
    var d := Decode([], got);
    && now.acc == d.acc && now.rest == d.rest && Blurred(now.events) == Blurred(d.events)
    && (EndsStray(d) ==> EndsStray(now) && now.events[|now.events| - 1] == Stray(0, Wrap64(0 - 1)))
    && (now.events == d.events <==> clean)
  }

  lemma ToldMore(now: Stream, got: seq<byte>, clean: bool, piece: seq<byte>)
    requires Told(now, got, clean)
    ensures Told(Prepend(now.events, Decode(now.acc, now.rest + piece)), got + piece, clean && !CutsStray(got, piece))
  {
    hide Decode, Wrap64, Front, Blurred, Amended;
    DecodeApart([], got, piece);
    DecodeApart(now.acc, now.rest + piece, []);
    var d := Decode([], got);
    var more := Decode(d.acc, d.rest + piece);
    if d.rest + piece == [] {
      NothingDecoded(d.acc);
    } else if more.events == [] && more.rest == [] {
      QuietIsProgress(d.acc, d.rest + piece);
    }
    AmendedEvents(d, piece, now.events, clean);
    BlurredConcat(now.events, more.events);
    BlurredConcat(Amended(d, piece), more.events);
    SameLength(now.events, d.events);
    Cancel(now.events, Amended(d, piece), more.events);
    LastOf(now.events, more.events);
    LastOf(Amended(d, piece), more.events);
  }

  lemma SameLength(a: seq<Event>, b: seq<Event>)
    requires Blurred(a) == Blurred(b)
    ensures |a| == |b|
  {
    assert |Blurred(a)| == |a| && |Blurred(b)| == |b|;
  }

  lemma Cancel(a: seq<Event>, b: seq<Event>, c: seq<Event>)
    requires |a| == |b|
    ensures a + c == b + c <==> a == b
  {
    if a + c == b + c { assert a == (a + c)[..|a|] == (b + c)[..|b|] == b; }
  }

  lemma LastOf(a: seq<Event>, b: seq<Event>)
    ensures a + b != [] ==> (a + b)[|a + b| - 1] == if b == [] then a[|a| - 1] else b[|b| - 1]
  {
  }

  lemma AmendedEvents(d: Stream, t: seq<byte>, events: seq<Event>, clean: bool)
    requires Blurred(events) == Blurred(d.events) && (events == d.events <==> clean)
    requires EndsStray(d) ==> d.events[|d.events| - 1] == Stray(0, Wrap64(0 - 1))
    requires EndsStray(d) ==> events != [] && events[|events| - 1] == Stray(0, Wrap64(0 - 1))
    ensures var amended := Amended(d, t);
            && |amended| == |d.events| && Blurred(amended) == Blurred(d.events)
            && (EndsStray(d) ==> amended[|amended| - 1] == Stray(Front(t), Wrap64(0 - 1)))
            && (!EndsStray(d) ==> amended == d.events)
            && (events == amended <==> clean && !(EndsStray(d) && Front(t) != 0))
  {
    hide Wrap64, Front;
    if EndsStray(d) && Front(t) == 0 { assert Amended(d, t) == d.events; }
  }

  method ReadAll(c: Connection, pieces: seq<seq<byte>>)
    requires c.Valid() && c.recv.len == 0 && c.events == [] && c.replies == 0
    modifies c, c.recv, c.recv.buf, c.send, c.send.buf
    ensures c.Valid()
    ensures c.send.Data() == old(c.send.Data()) + Answers(Signals(c.events), c.isClient, c.random, 0)
    ensures Signals(c.events) == Signals(Decode([], Flatten(pieces)).events)
    ensures var now, d := c.Now(), Decode([], Flatten(pieces));
            && now.acc == d.acc && now.rest == d.rest && Blurred(now.events) == Blurred(d.events)
            && (now.events == d.events <==> CleanCuts(pieces))
  {
    ghost var got: seq<byte>, clean := [], true;
    DecodeNothing();
    hide Decode, Told, CutsStray, Blurred;
    assert c.InProgress() == [] && c.Pending() == [];
    for k := 0 to |pieces|
      invariant c.Valid() && (c.recv.buf == old(c.recv.buf) || fresh(c.recv.buf))
      invariant (c.send.buf == old(c.send.buf) || fresh(c.send.buf)) && c.Answered([], old(c.send.Data()), 0)
      invariant got == Flatten(pieces[..k]) && Told(c.Now(), got, clean)
      invariant clean == forall j :: 0 <= j < k ==> !CutsStray(Flatten(pieces[..j]), pieces[j])
    {
      assert pieces[..k + 1] == pieces[..k] + [pieces[k]];
      FlattenSnoc(pieces[..k], pieces[k]);
      ToldMore(c.Now(), got, clean, pieces[k]);
      ghost var events, sent, n := c.events, c.send.Data(), c.replies;
      ReadPiece(c, pieces[k]);
      c.AnsweredMore([], events, old(c.send.Data()), 0, sent, n);
      clean := clean && !CutsStray(got, pieces[k]);
      got := got + pieces[k];
    }
    assert pieces[..|pieces|] == pieces;
    ToldMeans(c.Now(), got, clean);
    SignalsBlurred(c.events, Decode([], got).events);
    SentBlurred(c.events, Decode([], got).events, c.isClient, c.random, 0);
    DecodeMatched([], got, c.isClient, c.random);
    assert c.events[0..] == c.events;
  }

  lemma ToldMeans(now: Stream, got: seq<byte>, clean: bool)
    requires Told(now, got, clean)
    ensures var d := Decode([], got);
            && now.acc == d.acc && now.rest == d.rest && Blurred(now.events) == Blurred(d.events)
            && (now.events == d.events <==> clean)
  {
  }

  lemma DecodeNothing()
    ensures Decode([], []) == Stream([], [], []) && Told(Stream([], [], []), [], true)
  {
  }

  // One read from the socket.
  method ReadPiece(c: Connection, piece: seq<byte>)
    requires c.Valid()
    modifies c, c.recv, c.recv.buf, c.send, c.send.buf
    ensures c.Valid() && (c.recv.buf == old(c.recv.buf) || fresh(c.recv.buf))
    ensures (c.send.buf == old(c.send.buf) || fresh(c.send.buf))
    ensures c.Answered(old(c.events), old(c.send.Data()), old(c.replies))
    ensures var was := old(c.Now()); c.Now() == Prepend(was.events, Decode(was.acc, was.rest + piece))
  {
    ghost var was := c.Now();
    c.recv.Append(piece);
    assert c.InProgress() == was.acc && c.Pending() == was.rest + piece;
    hide Decode;
    c.Read();
  }

  // Any legal stream of text, binary, ping and pong frames, fragmented or not, in any pieces: every
  // message arrives once, in order, as the concatenation of its unmasked fragments, and the control
  // frames between fragments arrive too, in order, without disturbing it.
  method ReadLegal(c: Connection, pieces: seq<seq<byte>>, ghost us: seq<Unit>)
    requires c.Valid() && c.recv.len == 0 && c.events == [] && c.replies == 0
    requires forall k :: 0 <= k < |us| ==> LegalUnit(us[k])
    requires Flatten(pieces) == WiresBytes(UnitsWires(us))
    modifies c, c.recv, c.recv.buf, c.send, c.send.buf
    ensures c.Valid() && c.recv.len == 0
    ensures Messages(c.events) == UnitsMessages(us) && Signals(c.events) == UnitsSignals(us) && NoStray(c.events)
    ensures c.send.Data() == old(c.send.Data()) + Answers(UnitsSignals(us), c.isClient, c.random, 0)
  {
    hide Decode, Messages, Signals, Blurred, CleanCuts;
    DecodeLegal(us);
    ReadAll(c, pieces);
    BlurredNoStray(c.events, Decode([], Flatten(pieces)).events);
    assert |c.Now().acc| + |c.Now().rest| == c.recv.len;
  }
}
