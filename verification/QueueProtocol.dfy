/** mg_queue_*: a lock-free ring as a state machine, one step for each access to shared fields or bytes. */
module QueueProtocol {
  import opened Bytes

  type Message = seq<byte>

  // Room for a record's length word and for the zero marker after it.
  const HS := 8

  // The 32-bit length word, least significant byte first.
  function LengthBytes(n: nat): seq<byte> {
    LittleEndianBytes(n, 4)
  }

  function LengthAt(buf: seq<byte>, at: nat): nat
    requires at + 4 <= |buf|
  {
    LittleEndian(buf[at..at + 4])
  }

  lemma LengthRoundTrip(buf: seq<byte>, at: nat, n: nat)
    requires at + 4 <= |buf| && n < TWO_32
    ensures LengthAt(Put(buf, at, LengthBytes(n)), at) == n
  {
    assert Power256(4) == TWO_32;
    LittleEndianRoundTrip(n, 4);
  }

  /// Program counters: one constructor for each shared access still to be made.

  datatype Producer =
    | Idle
    | BookFit(len: nat)                  // reads tail: head >= tail && head + len + hs <= size
    | BookOrder(len: nat)                // reads tail: head >= tail
    | BookRoom(len: nat)                 // reads tail: tail > hs
    | BookMark(len: nat)                 // writes the zero marker at head
    | BookReset(len: nat)                // writes head = 0
    | BookLap(len: nat, space: nat)      // reads tail: head + hs + len < tail
    | BookSpan(len: nat)                 // reads tail again: space = tail - head - hs
    | Filling(len: nat, text: Message)   // booking succeeded; the caller writes its bytes
    | AddLength(len: nat, text: Message) // writes the length word at head
    | AddHead(len: nat, text: Message)   // writes head

  datatype Consumer =
    | Resting
    | NextCompare                        // reads head: tail != head
    | NextLength                         // reads the length word at tail
    | NextWrap                           // writes tail = 0
    | NextCompareAgain                   // reads head: head > tail
    | NextLengthAgain                    // reads the length word at offset 0
    | Reading(len: nat, got: Message)    // mg_queue_next returned len; the caller reads, then deletes

  // `fault` records an access outside the buffer or a failed assert; `added` and `consumed` are
  // history: what mg_queue_add published and what was read in full and then deleted.
  datatype State = State(
    buf: seq<byte>, head: nat, tail: nat, producer: Producer, consumer: Consumer,
    space: nat, fault: bool, added: seq<Message>, consumed: seq<Message>)

  datatype Action =
    | Book(len: nat)   // producer calls mg_queue_book
    | Write(b: byte)   // producer stores the next byte of its message
    | Add(n: nat)      // producer calls mg_queue_add for the first n bytes it stored
    | GiveUp           // producer drops a booking
    | ProducerMoves    // producer's next access inside mg_queue_book or mg_queue_add
    | Next             // consumer calls mg_queue_next
    | Leave            // consumer keeps the message for later
    | ConsumerMoves    // consumer's next access

  function Initial(buf: seq<byte>): State {
    State(buf, 0, 0, Idle, Resting, 0, false, [], [])
  }

  function Store(s: State, at: nat, data: seq<byte>): State {
    if at + |data| <= |s.buf| then s.(buf := Put(s.buf, at, data)) else s.(fault := true)
  }

  // The caller uses the booking only when mg_queue_book offers at least what it asked for.
  function Booked(s: State, len: nat, space: nat): State {
    s.(space := space, producer := if space >= len then Filling(len, []) else Idle)
  }

  predicate InsideProducer(p: Producer) {
    !p.Idle? && !p.Filling?
  }

  function ProducerStep(s: State): State
    requires InsideProducer(s.producer)
  {
    var size := |s.buf|;
    match s.producer
    case BookFit(len) =>
      if s.head >= s.tail && Wrap64(s.head + len + HS) <= size
      then s.(producer := BookLap(len, Wrap64(size - s.head - HS)))
      else s.(producer := BookOrder(len))
    case BookOrder(len) =>
      s.(producer := if s.head >= s.tail then BookRoom(len) else BookLap(len, 0))
    case BookRoom(len) =>
      s.(producer := if s.tail > HS then BookMark(len) else BookLap(len, 0))
    case BookMark(len) =>
      Store(s, s.head, LengthBytes(0)).(producer := BookReset(len))
    case BookReset(len) =>
      s.(head := 0, producer := BookLap(len, 0))
    case BookLap(len, space) =>
      if Wrap64(s.head + HS + len) < s.tail then s.(producer := BookSpan(len)) else Booked(s, len, space)
    case BookSpan(len) =>
      Booked(s, len, Wrap64(s.tail - s.head - HS))
    case AddLength(n, text) =>
      Store(s, s.head, LengthBytes(n)).(producer := AddHead(n, text))
    case AddHead(n, text) =>
      if s.head + HS + n <= size
      then s.(head := Wrap64(s.head + n + 4), producer := Idle, added := s.added + [text])
      else s.(fault := true)
  }

  // mg_queue_read_len, with its assert.
  function ReadLength(s: State): (r: (State, nat)) {
    if s.tail + 4 <= |s.buf| && s.tail + LengthAt(s.buf, s.tail) + 4 <= |s.buf|
    then (s, LengthAt(s.buf, s.tail)) else (s.(fault := true), 0)
  }

  function ConsumerStep(s: State): State
    requires !s.consumer.Resting?
  {
    match s.consumer
    case NextCompare =>
      s.(consumer := if s.tail != s.head then NextLength else Resting)
    case NextLength =>
      var (t, n) := ReadLength(s);
      t.(consumer := if n == 0 then NextWrap else Reading(n, []))
    case NextWrap =>
      s.(tail := 0, consumer := NextCompareAgain)
    case NextCompareAgain =>
      s.(consumer := if s.head > s.tail then NextLengthAgain else Resting)
    case NextLengthAgain =>
      var (t, n) := ReadLength(s);
      t.(consumer := if n == 0 then Resting else Reading(n, []))
    case Reading(n, got) =>
      if |got| < n then
        if s.tail + 4 + |got| < |s.buf|
        then s.(consumer := Reading(n, got + [s.buf[s.tail + 4 + |got|]]))
        else s.(fault := true)
      else
        var tail := Wrap64(s.tail + n + 4);
        s.(tail := tail, consumer := Resting, consumed := s.consumed + [got],
           fault := s.fault || tail + 4 > |s.buf|)
  }

  // A message length must fit the 32-bit length word.
  predicate Enabled(s: State, a: Action) {
    match a
    case Book(len) => s.producer.Idle? && len < TWO_32
    case Write(_) => s.producer.Filling? && |s.producer.text| < s.producer.len
    case Add(n) => s.producer.Filling? && 0 < n <= |s.producer.text|
    case GiveUp => s.producer.Filling?
    case ProducerMoves => InsideProducer(s.producer)
    case Next => s.consumer.Resting?
    case Leave => s.consumer.Reading?
    case ConsumerMoves => !s.consumer.Resting?
  }

  function Step(s: State, a: Action): State
    requires Enabled(s, a)
  {
    match a
    case Book(len) => s.(producer := BookFit(len))
    case Write(b) =>
      var Filling(len, text) := s.producer;
      Store(s, s.head + 4 + |text|, [b]).(producer := Filling(len, text + [b]))
    case Add(n) => s.(producer := AddLength(n, s.producer.text[..n]))
    case GiveUp => s.(producer := Idle)
    case ProducerMoves => ProducerStep(s)
    case Next => s.(consumer := NextCompare)
    case Leave => s.(consumer := Resting)
    case ConsumerMoves => ConsumerStep(s)
  }

  // A schedule is any interleaving of enabled actions of the two sides.
  predicate Schedule(s: State, acts: seq<Action>)
    decreases |acts|
  {
    acts == [] || (Enabled(s, acts[0]) && Schedule(Step(s, acts[0]), acts[1..]))
  }

  function Run(s: State, acts: seq<Action>): State
    requires Schedule(s, acts)
    decreases |acts|
  {
    if acts == [] then s else Run(Step(s, acts[0]), acts[1..])
  }

  /// The invariant.

  // Records laid end to end in buf[from..to] carry exactly these messages.
  predicate Chain(buf: seq<byte>, from: nat, to: nat, msgs: seq<Message>)
    requires to <= |buf|
    decreases |msgs|
  {
    if msgs == [] then from == to
    else
      var n := |msgs[0]|;
      && 0 < n && from + 4 + n <= to
      && LengthAt(buf, from) == n
      && buf[from + 4..from + 4 + n] == msgs[0]
      && Chain(buf, from + 4 + n, to, msgs[1..])
  }

  // Which unread messages lie ahead of tail, and, once head has been reset to the start of the
  // buffer, where the zero marker is and which messages lie behind tail.
  datatype View = View(front: seq<Message>, lapped: bool, mark: nat, back: seq<Message>)

  predicate Layout(s: State, v: View) {
    && |s.buf| < TWO_63
    && (s.head == 0 || s.head + 4 <= |s.buf|)
    && s.added == s.consumed + v.front + v.back
    && if v.lapped then
         && s.head < s.tail <= v.mark && v.mark + 4 <= |s.buf|
         && LengthAt(s.buf, v.mark) == 0
         && Chain(s.buf, s.tail, v.mark, v.front)
         && Chain(s.buf, 0, s.head, v.back)
       else
         s.tail <= s.head <= |s.buf| && v.back == [] && Chain(s.buf, s.tail, s.head, v.front)
  }

  // A record of this length fits at head and leaves room for the next length word.
  predicate Fits(s: State, v: View, len: nat) {
    if v.lapped then s.head + HS + len < s.tail else s.head + HS + len <= |s.buf|
  }

  predicate ProducerOk(s: State, v: View)
    requires Layout(s, v)
  {
    match s.producer
    case Idle => true
    case BookFit(len) => len < TWO_32
    case BookOrder(len) => len < TWO_32
    case BookRoom(len) => len < TWO_32 && !v.lapped
    case BookMark(len) => len < TWO_32 && !v.lapped && s.tail > HS
    case BookReset(len) => len < TWO_32 && !v.lapped && s.tail > HS && LengthAt(s.buf, s.head) == 0
    case BookLap(len, space) => len < TWO_32 && (space > 0 ==> !v.lapped && Fits(s, v, len))
    case BookSpan(len) => len < TWO_32 && Fits(s, v, len)
    case Filling(len, text) =>
      && len < TWO_32 && |text| <= len && (len > 0 ==> Fits(s, v, len))
      && (len > 0 ==> s.buf[s.head + 4..s.head + 4 + |text|] == text)
    case AddLength(n, text) =>
      && 0 < n == |text| < TWO_32 && Fits(s, v, n)
      && s.buf[s.head + 4..s.head + 4 + n] == text
    case AddHead(n, text) =>
      && 0 < n == |text| < TWO_32 && Fits(s, v, n)
      && LengthAt(s.buf, s.head) == n
      && s.buf[s.head + 4..s.head + 4 + n] == text
  }

  predicate ConsumerOk(s: State, v: View) {
    match s.consumer
    case Resting => true
    case NextCompare => true
    case NextLength => v.lapped || v.front != []
    case NextWrap => v.lapped && s.tail == v.mark
    case NextCompareAgain => !v.lapped && s.tail == 0
    case NextLengthAgain => !v.lapped && s.tail == 0 && v.front != []
    case Reading(n, got) => v.front != [] && n == |v.front[0]| && got <= v.front[0]
  }

  predicate Inv(s: State, v: View) {
    !s.fault && Layout(s, v) && ProducerOk(s, v) && ConsumerOk(s, v)
  }

  /// Framing of chains.

  lemma {:induction false} ChainFrame(b: seq<byte>, c: seq<byte>, from: nat, to: nat, msgs: seq<Message>)
    requires to <= |b| == |c| && Chain(b, from, to, msgs)
    requires forall i :: from <= i < to ==> b[i] == c[i]
    ensures Chain(c, from, to, msgs)
    decreases |msgs|
  {
    if msgs != [] {
      var n := |msgs[0]|;
      assert c[from..from + 4] == b[from..from + 4];
      assert c[from + 4..from + 4 + n] == b[from + 4..from + 4 + n];
      ChainFrame(b, c, from + 4 + n, to, msgs[1..]);
    }
  }

  lemma {:induction false} ChainOrder(b: seq<byte>, from: nat, to: nat, msgs: seq<Message>)
    requires to <= |b| && Chain(b, from, to, msgs)
    ensures from <= to && (from == to <==> msgs == [])
    decreases |msgs|
  {
    if msgs != [] {
      ChainOrder(b, from + 4 + |msgs[0]|, to, msgs[1..]);
    }
  }

  lemma {:induction false} ChainSnoc(b: seq<byte>, from: nat, to: nat, msgs: seq<Message>, m: Message)
    requires to <= |b| && Chain(b, from, to, msgs)
    requires 0 < |m| && to + 4 + |m| <= |b|
    requires LengthAt(b, to) == |m| && b[to + 4..to + 4 + |m|] == m
    ensures Chain(b, from, to + 4 + |m|, msgs + [m])
    decreases |msgs|
  {
    if msgs != [] {
      ChainSnoc(b, from + 4 + |msgs[0]|, to, msgs[1..], m);
      assert (msgs + [m])[1..] == msgs[1..] + [m];
    } else {
      assert (msgs + [m])[1..] == [];
    }
  }

  lemma SameLength(b: seq<byte>, c: seq<byte>, at: nat)
    requires at + 4 <= |b| == |c| && b[at..at + 4] == c[at..at + 4]
    ensures LengthAt(b, at) == LengthAt(c, at)
  {
  }

  // Storing into the free region leaves every unread record and the marker as they were.
  lemma StoreKeepsLayout(s: State, v: View, at: nat, data: seq<byte>)
    requires Layout(s, v) && s.head <= at
    requires at + |data| <= if v.lapped then s.tail else |s.buf|
    ensures at + |data| <= |s.buf| && Layout(Store(s, at, data), v)
  {
    hide Chain, LengthAt;
    var t := Store(s, at, data);
    if v.lapped {
      assert t.buf[v.mark..v.mark + 4] == s.buf[v.mark..v.mark + 4];
      SameLength(s.buf, t.buf, v.mark);
      ChainFrame(s.buf, t.buf, s.tail, v.mark, v.front);
      ChainFrame(s.buf, t.buf, 0, s.head, v.back);
    } else {
      ChainFrame(s.buf, t.buf, s.tail, s.head, v.front);
    }
  }

  /// Each step keeps the invariant. A step of one side keeps what the other side relies on ...

  lemma ProducerOkStable(s: State, v: View, t: State, w: View)
    requires Layout(s, v) && Layout(t, w) && ProducerOk(s, v)
    requires t.buf == s.buf && t.head == s.head && t.producer == s.producer
    requires (w.lapped == v.lapped && s.tail <= t.tail) || (v.lapped && !w.lapped)
    ensures ProducerOk(t, w)
  {
  }

  lemma ConsumerOkStable(s: State, v: View, t: State, w: View)
    requires ConsumerOk(s, v) && t.consumer == s.consumer && t.tail == s.tail
    requires v.front <= w.front && (v.lapped ==> w.lapped && w.mark == v.mark)
    requires w.lapped && !v.lapped ==> s.tail > 0
    ensures ConsumerOk(t, w)
  {
  }

  /// ... and the laid-out ring and its own side's facts are kept step by step.

  lemma MarkKeepsInv(s: State, v: View)
    requires Inv(s, v) && s.producer.BookMark?
    ensures Inv(ProducerStep(s), v)
  {
    StoreKeepsLayout(s, v, s.head, LengthBytes(0));
    LengthRoundTrip(s.buf, s.head, 0);
    ConsumerOkStable(s, v, ProducerStep(s), v);
  }

  lemma ResetKeepsInv(s: State, v: View) returns (w: View)
    requires Inv(s, v) && s.producer.BookReset?
    ensures Inv(ProducerStep(s), w)
  {
    w := View(v.front, true, s.head, []);
    var t := ProducerStep(s);
    assert t == s.(head := 0, producer := BookLap(s.producer.len, 0));
    assert s.consumed + v.front + v.back == s.consumed + w.front + w.back;
    ConsumerOkStable(s, v, t, w);
  }

  lemma OneByteMore(buf: seq<byte>, from: nat, at: nat, b: byte)
    requires from <= at < |buf|
    ensures Put(buf, at, [b])[from..at + 1] == buf[from..at] + [b]
  {
  }

  lemma WriteKeepsInv(s: State, v: View, b: byte)
    requires Inv(s, v) && Enabled(s, Write(b))
    ensures Inv(Step(s, Write(b)), v)
  {
    hide Chain, ConsumerOk, LengthAt;
    var Filling(len, text) := s.producer;
    var at := s.head + 4 + |text|;
    StoreKeepsLayout(s, v, at, [b]);
    var t := Step(s, Write(b));
    assert t.buf == Put(s.buf, at, [b]);
    OneByteMore(s.buf, s.head + 4, at, b);
    ConsumerOkStable(s, v, t, v);
  }

  lemma AddLengthKeepsInv(s: State, v: View)
    requires Inv(s, v) && s.producer.AddLength?
    ensures Inv(ProducerStep(s), v)
  {
    hide ConsumerOk, Chain;
    var AddLength(n, text) := s.producer;
    StoreKeepsLayout(s, v, s.head, LengthBytes(n));
    LengthRoundTrip(s.buf, s.head, n);
    PutKeepsSlice(s.buf, s.head, LengthBytes(n), s.head + 4, s.head + 4 + n);
    var t := ProducerStep(s);
    assert t == s.(buf := Put(s.buf, s.head, LengthBytes(n)), producer := AddHead(n, text));
    ConsumerOkStable(s, v, t, v);
  }

  // Publishing a record appends its message to the unread ones.
  lemma PublishKeepsLayout(s: State, v: View, m: Message) returns (w: View)
    requires Layout(s, v) && 0 < |m| && Fits(s, v, |m|)
    requires LengthAt(s.buf, s.head) == |m| && s.buf[s.head + 4..s.head + 4 + |m|] == m
    ensures w.front + w.back == v.front + v.back + [m] && v.front <= w.front
    ensures w.lapped == v.lapped && w.mark == v.mark
    ensures Layout(s.(head := s.head + |m| + 4, added := s.consumed + w.front + w.back), w)
  {
    hide Chain, LengthAt;
    var head := s.head + 4 + |m|;
    if v.lapped {
      w := v.(back := v.back + [m]);
      assert w.front + w.back == v.front + v.back + [m];
      assert Chain(s.buf, 0, head, w.back) by { ChainSnoc(s.buf, 0, s.head, v.back, m); }
    } else {
      w := v.(front := v.front + [m]);
      assert Chain(s.buf, s.tail, head, w.front) by { ChainSnoc(s.buf, s.tail, s.head, v.front, m); }
    }
  }

  lemma AddHeadKeepsInv(s: State, v: View) returns (w: View)
    requires Inv(s, v) && s.producer.AddHead?
    ensures Inv(ProducerStep(s), w)
  {
    hide ConsumerOk, Chain;
    var AddHead(n, text) := s.producer;
    var t := ProducerStep(s);
    w := PublishKeepsLayout(s, v, text);
    var u := s.(head := s.head + n + 4, added := s.consumed + w.front + w.back);
    assert s.consumed + w.front + w.back == s.added + [text] by {
      assert s.consumed + w.front + w.back == s.consumed + (w.front + w.back);
    }
    assert t == u.(producer := Idle);
    ConsumerOkStable(s, v, t, w);
  }

  // The comparisons of mg_queue_book change nothing shared.
  lemma CompareKeepsInv(s: State, v: View)
    requires Inv(s, v) && InsideProducer(s.producer)
    requires !s.producer.BookMark? && !s.producer.BookReset? && !s.producer.AddLength? && !s.producer.AddHead?
    ensures Inv(ProducerStep(s), v)
  {
    var t := ProducerStep(s);
    assert t == s.(producer := t.producer, space := t.space);
    assert Layout(t, v);
    ConsumerOkStable(s, v, t, v);
  }

  lemma ProducerKeepsInv(s: State, v: View) returns (w: View)
    requires Inv(s, v) && InsideProducer(s.producer)
    ensures Inv(ProducerStep(s), w)
  {
    w := v;
    match s.producer {
      case BookMark(_) => MarkKeepsInv(s, v);
      case BookReset(_) => w := ResetKeepsInv(s, v);
      case AddLength(_, _) => AddLengthKeepsInv(s, v);
      case AddHead(_, _) => w := AddHeadKeepsInv(s, v);
      case _ => CompareKeepsInv(s, v);
    }
  }

  // Moving tail past the oldest record drops its message from the unread ones.
  lemma PassKeepsLayout(s: State, v: View) returns (w: View)
    requires Layout(s, v) && v.front != []
    ensures w == v.(front := v.front[1..])
    ensures s.tail + 4 + |v.front[0]| + 4 <= |s.buf|
    ensures Layout(s.(tail := s.tail + 4 + |v.front[0]|, consumed := s.consumed + [v.front[0]]), w)
  {
    var m := v.front[0];
    w := v.(front := v.front[1..]);
    assert v.front == [m] + w.front;
    assert s.consumed + v.front + v.back == s.consumed + [m] + w.front + w.back;
    ChainOrder(s.buf, s.tail + 4 + |m|, if v.lapped then v.mark else s.head, w.front);
  }

  lemma DeleteKeepsInv(s: State, v: View) returns (w: View)
    requires Inv(s, v) && s.consumer.Reading? && |s.consumer.got| == s.consumer.len
    ensures Inv(ConsumerStep(s), w)
  {
    var m := v.front[0];
    w := PassKeepsLayout(s, v);
    assert s.consumer.got == m;
    var t := ConsumerStep(s);
    assert t == s.(tail := s.tail + 4 + |m|, consumer := Resting, consumed := s.consumed + [m]);
    ProducerOkStable(s, v, t, w);
  }

  lemma ReadKeepsInv(s: State, v: View)
    requires Inv(s, v) && s.consumer.Reading? && |s.consumer.got| < s.consumer.len
    ensures Inv(ConsumerStep(s), v)
  {
    var Reading(n, got) := s.consumer;
    var m := v.front[0];
    assert s.buf[s.tail + 4..s.tail + 4 + n] == m;
    assert s.buf[s.tail + 4 + |got|] == m[|got|];
    var t := ConsumerStep(s);
    assert t == s.(consumer := Reading(n, got + [m[|got|]]));
    ProducerOkStable(s, v, t, v);
  }

  lemma WrapKeepsInv(s: State, v: View) returns (w: View)
    requires Inv(s, v) && s.consumer.NextWrap?
    ensures Inv(ConsumerStep(s), w) && ConsumerStep(s) == s.(tail := 0, consumer := NextCompareAgain)
    ensures v.front == [] && w == View(v.back, false, 0, [])
  {
    ChainOrder(s.buf, s.tail, v.mark, v.front);
    w := View(v.back, false, 0, []);
    var t := ConsumerStep(s);
    assert t == s.(tail := 0, consumer := NextCompareAgain);
    assert s.consumed + v.front + v.back == s.consumed + w.front + w.back;
    ProducerOkStable(s, v, t, w);
  }

  lemma OldestHasLength(s: State, v: View)
    requires Layout(s, v) && v.front != []
    ensures |v.front[0]| > 0
  {
  }

  // Reading the length word at tail: it is inside the buffer, and 0 exactly at the marker.
  lemma LengthAtTail(s: State, v: View)
    requires Layout(s, v) && (v.lapped || v.front != [])
    ensures ReadLength(s) == (s, if v.front == [] then 0 else |v.front[0]|)
    ensures v.front == [] ==> s.tail == v.mark
  {
    ChainOrder(s.buf, s.tail, if v.lapped then v.mark else s.head, v.front);
    if v.front != [] {
      ChainOrder(s.buf, s.tail + 4 + |v.front[0]|, if v.lapped then v.mark else s.head, v.front[1..]);
    }
  }

  lemma LengthKeepsInv(s: State, v: View)
    requires Inv(s, v) && (s.consumer.NextLength? || s.consumer.NextLengthAgain?)
    ensures Inv(ConsumerStep(s), v)
    ensures var done := if s.consumer.NextLength? then NextWrap else Resting;
            ConsumerStep(s) == s.(consumer := if v.front == [] then done else Reading(|v.front[0]|, []))
  {
    LengthAtTail(s, v);
    if v.front != [] { OldestHasLength(s, v); }
    var t := ConsumerStep(s);
    assert t == s.(consumer := t.consumer);
    ProducerOkStable(s, v, t, v);
  }

  lemma EmptyOrNot(s: State, v: View)
    requires Layout(s, v)
    ensures s.tail != s.head <==> v.lapped || v.front != []
  {
    if !v.lapped { ChainOrder(s.buf, s.tail, s.head, v.front); }
  }

  lemma EmptyTestKeepsInv(s: State, v: View)
    requires Inv(s, v) && (s.consumer.NextCompare? || s.consumer.NextCompareAgain?)
    ensures Inv(ConsumerStep(s), v)
    ensures var more := if s.consumer.NextCompare? then NextLength else NextLengthAgain;
            ConsumerStep(s) == s.(consumer := if v.lapped || v.front != [] then more else Resting)
  {
    EmptyOrNot(s, v);
    var t := ConsumerStep(s);
    assert t == s.(consumer := t.consumer);
    ProducerOkStable(s, v, t, v);
  }

  lemma ConsumerKeepsInv(s: State, v: View) returns (w: View)
    requires Inv(s, v) && !s.consumer.Resting?
    ensures Inv(ConsumerStep(s), w)
  {
    w := v;
    match s.consumer {
      case Reading(n, got) =>
        if |got| < n { ReadKeepsInv(s, v); } else { w := DeleteKeepsInv(s, v); }
      case NextWrap => w := WrapKeepsInv(s, v);
      case NextCompare => EmptyTestKeepsInv(s, v);
      case NextCompareAgain => EmptyTestKeepsInv(s, v);
      case NextLength => LengthKeepsInv(s, v);
      case NextLengthAgain => LengthKeepsInv(s, v);
    }
  }

  lemma AddKeepsInv(s: State, v: View, n: nat)
    requires Inv(s, v) && Enabled(s, Add(n))
    ensures Inv(Step(s, Add(n)), v)
  {
    var text := s.producer.text;
    assert s.buf[s.head + 4..s.head + 4 + n] == s.buf[s.head + 4..s.head + 4 + |text|][..n];
    ConsumerOkStable(s, v, Step(s, Add(n)), v);
  }

  // Starting or dropping a call touches only the caller's own program counter.
  lemma CallKeepsInv(s: State, v: View, a: Action)
    requires Inv(s, v) && Enabled(s, a) && (a.Book? || a.GiveUp? || a.Next? || a.Leave?)
    ensures Inv(Step(s, a), v)
  {
    var t := Step(s, a);
    assert t == s.(producer := t.producer, consumer := t.consumer);
    if a.Next? || a.Leave? {
      ProducerOkStable(s, v, t, v);
    } else {
      ConsumerOkStable(s, v, t, v);
    }
  }

  lemma StepKeepsInv(s: State, v: View, a: Action) returns (w: View)
    requires Inv(s, v) && Enabled(s, a)
    ensures Inv(Step(s, a), w)
  {
    w := v;
    match a {
      case ProducerMoves => w := ProducerKeepsInv(s, v);
      case ConsumerMoves => w := ConsumerKeepsInv(s, v);
      case Write(b) => WriteKeepsInv(s, v, b);
      case Add(n) => AddKeepsInv(s, v, n);
      case _ => CallKeepsInv(s, v, a);
    }
  }

  lemma {:induction false} RunKeepsInv(s: State, v: View, acts: seq<Action>) returns (w: View)
    requires Inv(s, v) && Schedule(s, acts)
    ensures Inv(Run(s, acts), w)
    decreases |acts|
  {
    w := v;
    if acts != [] {
      w := StepKeepsInv(s, v, acts[0]);
      w := RunKeepsInv(Step(s, acts[0]), w, acts[1..]);
    }
  }

  /// Main results.

  // However the two sides interleave, no access leaves the buffer, no assert fails, and what has
  // been consumed is a prefix of what has been added: in order, byte for byte, nothing invented.
  lemma {:induction false} FirstInFirstOut(buf: seq<byte>, acts: seq<Action>)
    requires |buf| < TWO_63 && Schedule(Initial(buf), acts)
    ensures var t := Run(Initial(buf), acts); !t.fault && t.consumed <= t.added
  {
    var w := RunKeepsInv(Initial(buf), View([], false, 0, []), acts);
  }

  // The bytes of unread records, and of the zero marker the consumer has still to pass.
  predicate Unread(s: State, v: View, i: nat) {
    if v.lapped then s.tail <= i < v.mark + 4 || i < s.head else s.tail <= i < s.head
  }

  // The buffer offsets from .0 up to .1 that an action stores to.
  function WriteSpan(s: State, a: Action): (nat, nat) {
    if a.Write? && s.producer.Filling? then
      (s.head + 4 + |s.producer.text|, s.head + 4 + |s.producer.text| + 1)
    else if a.ProducerMoves? && (s.producer.BookMark? || s.producer.AddLength?) then (s.head, s.head + 4)
    else (0, 0)
  }

  predicate Undisturbed(s: State, v: View, a: Action)
    requires Enabled(s, a)
  {
    var (lo, hi) := WriteSpan(s, a);
    var t := Step(s, a);
    && hi <= |s.buf| == |t.buf|
    && (forall i :: lo <= i < hi ==> !Unread(s, v, i))
    && (forall i :: 0 <= i < |s.buf| && !(lo <= i < hi) ==> t.buf[i] == s.buf[i])
  }

  lemma ConsumerStoresNothing(s: State)
    requires !s.consumer.Resting?
    ensures ConsumerStep(s).buf == s.buf
  {
  }

  lemma ProducerUndisturbed(s: State, v: View)
    requires Inv(s, v) && InsideProducer(s.producer)
    ensures Undisturbed(s, v, ProducerMoves)
  {
    if !s.producer.BookMark? && !s.producer.AddLength? {
      assert ProducerStep(s).buf == s.buf;
    }
  }

  lemma StepUndisturbed(s: State, v: View, a: Action)
    requires Inv(s, v) && Enabled(s, a)
    ensures Undisturbed(s, v, a)
  {
    match a {
      case ConsumerMoves => ConsumerStoresNothing(s);
      case ProducerMoves => ProducerUndisturbed(s, v);
      case Write(b) =>
      case _ => assert Step(s, a).buf == s.buf;
    }
  }

  // No store of the producer ever falls on a record or a marker the consumer has still to read: those lie from
  // tail to head, or from tail to behind the marker and from the front to head.
  lemma NeverOverwritesUnread(buf: seq<byte>, acts: seq<Action>, a: Action) returns (v: View)
    requires |buf| < TWO_63 && Schedule(Initial(buf), acts) && Enabled(Run(Initial(buf), acts), a)
    ensures var s := Run(Initial(buf), acts); var t := Step(s, a);
            && Inv(s, v) && Undisturbed(s, v, a)
            && |t.buf| == |s.buf| >= s.head && (v.lapped ==> s.tail <= v.mark && v.mark + 4 <= |s.buf|)
            && forall i | 0 <= i < |s.buf| && if v.lapped then s.tail <= i < v.mark + 4 || i < s.head else s.tail <= i < s.head
                 :: t.buf[i] == s.buf[i]
  {
    hide Inv, Schedule, Step, Undisturbed;
    var s := Run(Initial(buf), acts);
    InitialInv(buf);
    v := RunKeepsInv(Initial(buf), View([], false, 0, []), acts);
    StepUndisturbed(s, v, a);
    UnreadInside(s, v);
    UnreadKept(s, v, a);
  }

  lemma InitialInv(buf: seq<byte>)
    requires |buf| < TWO_63
    ensures Inv(Initial(buf), View([], false, 0, []))
  {
  }

  lemma UnreadInside(s: State, v: View)
    requires Inv(s, v)
    ensures s.head <= |s.buf| && (v.lapped ==> s.tail <= v.mark && v.mark + 4 <= |s.buf|)
  {
  }

  lemma UnreadKept(s: State, v: View, a: Action)
    requires Inv(s, v) && Enabled(s, a) && Undisturbed(s, v, a)
    ensures var t := Step(s, a);
            && |t.buf| == |s.buf|
            && forall i | 0 <= i < |s.buf| && if v.lapped then s.tail <= i < v.mark + 4 || i < s.head else s.tail <= i < s.head
                 :: t.buf[i] == s.buf[i]
  {
    hide Step, Inv, WriteSpan;
    var t := Step(s, a);
    forall i | 0 <= i < |s.buf| && if v.lapped then s.tail <= i < v.mark + 4 || i < s.head else s.tail <= i < s.head
      ensures t.buf[i] == s.buf[i]
    {
      assert Unread(s, v, i);
    }
  }

  // In every state the invariant allows, the accesses either side is about to make lie inside the buffer, and the
  // asserts beside them hold.
  lemma AccessesInside(s: State, v: View)
    requires Inv(s, v)
    ensures var p, c := s.producer, s.consumer;
            && (p.BookMark? || p.AddLength? ==> s.head + 4 <= |s.buf|)
            && (p.Filling? && |p.text| < p.len ==> s.head + 4 + |p.text| < |s.buf|)
            && (p.AddHead? ==> s.head + 8 + p.len <= |s.buf|)
            && (c.NextLength? || c.NextLengthAgain? ==>
                  s.tail + 4 <= |s.buf| && s.tail + LittleEndian(s.buf[s.tail..s.tail + 4]) + 4 <= |s.buf|)
            && (c.Reading? ==> |c.got| <= c.len && s.tail + 4 + c.len + 4 <= |s.buf|)
  {
    if s.consumer.NextLength? || s.consumer.NextLengthAgain? {
      LengthAtTail(s, v);
      TailRecordInside(s, v);
    }
    if s.consumer.Reading? { var w := PassKeepsLayout(s, v); }
  }

  // A record or a marker stands at tail.
  lemma TailRecordInside(s: State, v: View)
    requires Layout(s, v) && (v.lapped || v.front != [])
    ensures s.tail + 4 + (if v.front == [] then 0 else |v.front[0]|) <= |s.buf|
    ensures LittleEndian(s.buf[s.tail..s.tail + 4]) == if v.front == [] then 0 else |v.front[0]|
  {
    LengthAtTail(s, v);
    if v.front != [] { var w := PassKeepsLayout(s, v); }
  }

  // The consumer's next access makes mg_queue_next return 0.
  predicate SaysEmpty(s: State) {
    !s.consumer.Resting? && !s.consumer.Reading? && ConsumerStep(s).consumer.Resting?
  }

  // It does so only when there is nothing to be read.
  lemma EmptyIsEmpty(s: State, v: View)
    requires Inv(s, v) && SaysEmpty(s)
    ensures v.front == [] && v.back == [] && s.consumed == s.added
  {
    ChainOrder(s.buf, s.tail, if v.lapped then v.mark else s.head, v.front);
  }

  // The consumer is told the queue is empty only when every message added has been consumed.
  lemma EmptyMeansDrained(buf: seq<byte>, acts: seq<Action>)
    requires |buf| < TWO_63 && Schedule(Initial(buf), acts) && SaysEmpty(Run(Initial(buf), acts))
    ensures var t := Run(Initial(buf), acts); t.consumed == t.added
  {
    var v := RunKeepsInv(Initial(buf), View([], false, 0, []), acts);
    EmptyIsEmpty(Run(Initial(buf), acts), v);
  }

  /// Each side running without interference.

  function BookRank(p: Producer): nat {
    match p
    case BookFit(_) => 7
    case BookOrder(_) => 6
    case BookRoom(_) => 5
    case BookMark(_) => 4
    case BookReset(_) => 3
    case BookLap(_, _) => 2
    case BookSpan(_) => 1
    case _ => 0
  }

  // The rest of a mg_queue_book call.
  function FinishBook(s: State): State
    decreases BookRank(s.producer)
  {
    if BookRank(s.producer) == 0 then s else FinishBook(ProducerStep(s))
  }

  function NextRank(c: Consumer): nat {
    match c
    case NextCompare => 5
    case NextLength => 4
    case NextWrap => 3
    case NextCompareAgain => 2
    case NextLengthAgain => 1
    case _ => 0
  }

  // The rest of a mg_queue_next call.
  function FinishNext(s: State): State
    decreases NextRank(s.consumer)
  {
    if NextRank(s.consumer) == 0 then s else FinishNext(ConsumerStep(s))
  }

  lemma BookStepKeepsHistory(s: State)
    requires BookRank(s.producer) > 0
    ensures ProducerStep(s).added == s.added && ProducerStep(s).consumed == s.consumed
    ensures ProducerStep(s).consumer == s.consumer && BookRank(ProducerStep(s).producer) < BookRank(s.producer)
  {
  }

  lemma {:induction false} FinishBookKeepsInv(s: State, v: View) returns (w: View)
    requires Inv(s, v)
    ensures Inv(FinishBook(s), w) && FinishBook(s).added == s.added && FinishBook(s).consumed == s.consumed
    decreases BookRank(s.producer)
  {
    w := v;
    if BookRank(s.producer) > 0 {
      w := ProducerKeepsInv(s, v);
      BookStepKeepsHistory(s);
      w := FinishBookKeepsInv(ProducerStep(s), w);
    }
  }

  lemma {:induction false} FinishNextKeepsInv(s: State, v: View) returns (w: View)
    requires Inv(s, v)
    ensures Inv(FinishNext(s), w) && FinishNext(s).added == s.added && FinishNext(s).consumed == s.consumed
    decreases NextRank(s.consumer)
  {
    w := v;
    if NextRank(s.consumer) > 0 {
      w := ConsumerKeepsInv(s, v);
      w := FinishNextKeepsInv(ConsumerStep(s), w);
    }
  }

  /// Progress.

  function BookAlone(s: State, len: nat): State {
    FinishBook(s.(producer := BookFit(len)))
  }

  function NextAlone(s: State): State {
    FinishNext(s.(consumer := NextCompare))
  }

  predicate Drained(s: State, v: View) {
    Inv(s, v) && s.producer.Idle? && s.consumer.Resting? && v.front == [] && v.back == []
  }

  // On a drained queue: does a record of this length fit, before or after head wraps?
  predicate RoomFor(s: State, len: nat) {
    var size := |s.buf|;
    if s.head < s.tail then len + HS <= size
    else s.head + len + HS <= size || (s.tail > HS && len + HS <= size)
  }

  predicate Succeeds(s: State) {
    s.producer.Filling?
  }

  // What an uninterrupted mg_queue_book does from its last comparison on ...
  function LapOutcome(s: State, len: nat, space: nat): State {
    Booked(s, len, if s.head + HS + len < s.tail then s.tail - s.head - HS else space)
  }

  // ... and in all: book ahead of head, or else mark the end and wrap, or else book behind tail.
  function BookOutcome(s: State, len: nat): State
    requires s.head + 4 <= |s.buf| || s.tail <= HS
  {
    var size := |s.buf|;
    if s.head >= s.tail && s.head + len + HS <= size then LapOutcome(s, len, size - s.head - HS)
    else if s.head >= s.tail && s.tail > HS
    then LapOutcome(s.(buf := Put(s.buf, s.head, LengthBytes(0)), head := 0), len, 0)
    else LapOutcome(s, len, 0)
  }

  predicate InRange(s: State, len: nat) {
    |s.buf| < TWO_63 && s.head <= |s.buf| && s.tail <= |s.buf| && len < TWO_32
  }

  lemma BookLapEnds(s: State, len: nat, space: nat)
    requires InRange(s, len) && s.producer == BookLap(len, space)
    ensures FinishBook(s) == LapOutcome(s, len, space)
  {
    assert Wrap64(s.head + HS + len) == s.head + HS + len;
    if s.head + HS + len < s.tail {
      assert Wrap64(s.tail - s.head - HS) == s.tail - s.head - HS;
      BookSpanEnds(s.(producer := BookSpan(len)), len);
    }
  }

  lemma BookSpanEnds(s: State, len: nat)
    requires InRange(s, len) && s.producer == BookSpan(len)
    ensures FinishBook(s) == Booked(s, len, Wrap64(s.tail - s.head - HS))
  {
  }

  lemma BookMarkEnds(s: State, len: nat)
    requires InRange(s, len) && s.producer == BookMark(len) && s.head + 4 <= |s.buf|
    ensures FinishBook(s) == LapOutcome(s.(buf := Put(s.buf, s.head, LengthBytes(0)), head := 0), len, 0)
  {
    hide ProducerStep, FinishBook, Wrap64, Put;
    MarkStep(s, len);
    BookResetEnds(ProducerStep(s), len);
  }

  lemma MarkStep(s: State, len: nat)
    requires s.producer == BookMark(len) && s.head + 4 <= |s.buf|
    ensures FinishBook(s) == FinishBook(ProducerStep(s))
    ensures ProducerStep(s) == s.(buf := Put(s.buf, s.head, LengthBytes(0)), producer := BookReset(len))
    ensures |Put(s.buf, s.head, LengthBytes(0))| == |s.buf|
  {
    hide Put, LengthBytes, Wrap64;
    LengthIsFour(0);
    assert BookRank(s.producer) > 0;
  }

  lemma BookResetEnds(s: State, len: nat)
    requires InRange(s, len) && s.producer == BookReset(len)
    ensures FinishBook(s) == LapOutcome(s.(head := 0), len, 0)
  {
    BookLapEnds(s.(head := 0, producer := BookLap(len, 0)), len, 0);
  }

  lemma BookOrderEnds(s: State, len: nat)
    requires InRange(s, len) && s.producer == BookOrder(len)
    requires s.head + 4 <= |s.buf| || s.tail <= HS
    ensures FinishBook(s) ==
            if s.head >= s.tail && s.tail > HS
            then LapOutcome(s.(buf := Put(s.buf, s.head, LengthBytes(0)), head := 0), len, 0)
            else LapOutcome(s, len, 0)
  {
    BookLapEnds(s.(producer := BookLap(len, 0)), len, 0);
    if s.head >= s.tail {
      BookRoomEnds(s.(producer := BookRoom(len)), len);
    }
  }

  lemma BookRoomEnds(s: State, len: nat)
    requires InRange(s, len) && s.producer == BookRoom(len)
    requires s.head + 4 <= |s.buf| || s.tail <= HS
    ensures FinishBook(s) ==
            if s.tail > HS
            then LapOutcome(s.(buf := Put(s.buf, s.head, LengthBytes(0)), head := 0), len, 0)
            else LapOutcome(s, len, 0)
  {
    if s.tail > HS {
      BookMarkEnds(s.(producer := BookMark(len)), len);
    } else {
      BookLapEnds(s.(producer := BookLap(len, 0)), len, 0);
    }
  }

  lemma BookAloneOutcome(s: State, len: nat)
    requires InRange(s, len) && (s.head + 4 <= |s.buf| || s.tail <= HS)
    ensures BookAlone(s, len) == BookOutcome(s, len)
  {
    var s0 := s.(producer := BookFit(len));
    assert Wrap64(s.head + len + HS) == s.head + len + HS;
    assert FinishBook(s0) == FinishBook(ProducerStep(s0));
    if s.head >= s.tail && s.head + len + HS <= |s.buf| {
      assert Wrap64(|s.buf| - s.head - HS) == |s.buf| - s.head - HS;
      BookLapEnds(ProducerStep(s0), len, |s.buf| - s.head - HS);
    } else {
      BookOrderEnds(s.(producer := BookOrder(len)), len);
    }
  }

  // On a drained queue mg_queue_next finds nothing; it steps over the marker if there is one.
  lemma NextAloneOnDrained(s: State, v: View)
    requires Drained(s, v)
    ensures NextAlone(s) == s.(tail := if s.head < s.tail then 0 else s.tail)
    ensures Drained(NextAlone(s), if v.lapped then View([], false, 0, []) else v)
  {
    var s0 := s.(consumer := NextCompare);
    var s1 := ConsumerStep(s0);
    assert FinishNext(s0) == FinishNext(s1);
    if v.lapped {
      var s2 := ConsumerStep(s1);
      var s3 := ConsumerStep(s2);
      var s4 := ConsumerStep(s3);
      assert FinishNext(s1) == FinishNext(s2) == FinishNext(s3) == FinishNext(s4);
    }
  }

  // Book, and if that fails let the consumer look once and book again.
  function BookWithRetry(s: State, len: nat): State {
    var t := BookAlone(s, len);
    if Succeeds(t) then t else BookAlone(NextAlone(t), len)
  }

  // On a drained queue one retry is all it ever takes, and a record for which there is no room
  // before or after wrapping is never accepted: unless it is longer than the whole buffer allows,
  // both calls leave the ring exactly as it was.
  lemma ProgressOnDrained(s: State, v: View, len: nat)
    requires Drained(s, v) && 0 < len < TWO_32
    ensures Succeeds(BookWithRetry(s, len)) <==> RoomFor(s, len)
    ensures !RoomFor(s, len) && len + HS <= |s.buf| ==> BookAlone(s, len) == s.(space := 0) && NextAlone(s) == s
  {
    BookAloneOutcome(s, len);
    NextAloneOnDrained(s, v);
    var t := BookAlone(s, len);
    if !Succeeds(t) {
      var w := FinishBookKeepsInv(s.(producer := BookFit(len)), v);
      assert t.added == t.consumed;
      assert |t.added| == |t.consumed| + |w.front| + |w.back|;
      assert w.front == [] && w.back == [];
      NextAloneOnDrained(t, w);
      BookAloneOutcome(NextAlone(t), len);
    }
  }

  // So a message with sixteen bytes to spare can always be booked, and sixteen is exact: with one
  // byte less there is a drained queue, head and tail at 8, that refuses the message for good.
  lemma SixteenToSpareIsEnough(s: State, v: View, len: nat)
    requires Drained(s, v) && 0 < len && len + 16 <= |s.buf| && len < TWO_32
    ensures Succeeds(BookWithRetry(s, len))
  {
    ProgressOnDrained(s, v, len);
  }

  lemma FifteenToSpareIsNot(buf: seq<byte>)
    requires |buf| == 20
    ensures var s := Initial(buf).(head := 8, tail := 8);
            Drained(s, View([], false, 0, [])) && !Succeeds(BookWithRetry(s, 5))
  {
    ProgressOnDrained(Initial(buf).(head := 8, tail := 8), View([], false, 0, []), 5);
  }

  /// A whole delivery.

  // With a message waiting, mg_queue_next finds the oldest, where it lies at tail or behind the marker.
  lemma NextAloneFinds(s: State, v: View) returns (w: View)
    requires Inv(s, v) && s.consumer.Resting? && v.front + v.back != []
    ensures var oldest := (v.front + v.back)[0];
            && NextAlone(s) == s.(tail := if v.front == [] then 0 else s.tail, consumer := Reading(|oldest|, []))
            && w.front != [] && w.front[0] == oldest
    ensures Inv(NextAlone(s), w) && w.front + w.back == v.front + v.back
  {
    hide ConsumerStep, FinishNext, Layout, ProducerOk, ConsumerOk;
    var s0 := s.(consumer := NextCompare);
    CallKeepsInv(s, v, Next);
    EmptyTestKeepsInv(s0, v);
    LappedOrFront(s0, v);
    var s1 := s0.(consumer := NextLength);
    LengthKeepsInv(s1, v);
    FinishNextGoesOn(s0);
    FinishNextGoesOn(s1);
    if v.front != [] {
      w := v;
      FinishNextGoesOn(ConsumerStep(s1));
    } else {
      w := WrapAloneFinds(s1, v);
    }
  }

  lemma FinishNextGoesOn(s: State)
    ensures FinishNext(s) == if NextRank(s.consumer) == 0 then s else FinishNext(ConsumerStep(s))
  {
    hide ConsumerStep;
  }

  // With messages waiting, head is not where tail is.
  lemma LappedOrFront(s: State, v: View)
    requires Inv(s, v)
    ensures v.back != [] ==> v.lapped
  {
    hide Chain;
  }

  // At the marker, with a message behind it.
  lemma WrapAloneFinds(s1: State, v: View) returns (w: View)
    requires Inv(s1, v) && s1.consumer.NextLength? && v.front == [] && v.back != []
    ensures FinishNext(s1) == s1.(tail := 0, consumer := Reading(|v.back[0]|, []))
    ensures Inv(FinishNext(s1), w) && w.front == v.back && w.back == []
  {
    hide ConsumerStep, FinishNext, Layout, ProducerOk, ConsumerOk;
    LengthKeepsInv(s1, v);
    var s2 := s1.(consumer := NextWrap);
    w := WrapKeepsInv(s2, v);
    var s3 := s2.(tail := 0, consumer := NextCompareAgain);
    EmptyTestKeepsInv(s3, w);
    var s4 := s3.(consumer := NextLengthAgain);
    LengthKeepsInv(s4, w);
    FinishNextGoesOn(s1);
    FinishNextGoesOn(s2);
    FinishNextGoesOn(s3);
    FinishNextGoesOn(s4);
    FinishNextGoesOn(ConsumerStep(s4));
  }

  // The reads of a message, and mg_queue_del.
  function FinishRead(s: State): State
    requires s.consumer.Reading?
    decreases if s.consumer.len > |s.consumer.got| then s.consumer.len - |s.consumer.got| else 0
  {
    var t := ConsumerStep(s);
    if t.consumer.Reading? && !t.fault then FinishRead(t) else t
  }

  lemma {:induction false} FinishReadTakes(s: State, v: View) returns (w: View)
    requires Inv(s, v) && s.consumer.Reading?
    ensures FinishRead(s) == s.(tail := s.tail + |v.front[0]| + 4, consumer := Resting, consumed := s.consumed + [v.front[0]])
    ensures Inv(FinishRead(s), w) && w.front + w.back == (v.front + v.back)[1..]
    decreases s.consumer.len - |s.consumer.got|
  {
    hide Chain;
    var m := v.front[0];
    if |s.consumer.got| < s.consumer.len {
      ReadKeepsInv(s, v);
      assert ConsumerStep(s) == s.(consumer := ConsumerStep(s).consumer);
      w := FinishReadTakes(ConsumerStep(s), v);
    } else {
      w := DeleteKeepsInv(s, v);
      assert s.consumer.got == m;
      PassKeepsTail(s, v);
      var t := ConsumerStep(s);
      assert t.added[|t.consumed|..] == w.front + w.back && s.added[|s.consumed|..] == v.front + v.back;
    }
  }

  lemma PassKeepsTail(s: State, v: View)
    requires Layout(s, v) && v.front != []
    ensures s.tail + |v.front[0]| + 4 < TWO_64
  {
    var w := PassKeepsLayout(s, v);
  }

  // Writing a message into a booking, byte after byte.
  function WriteAll(s: State, m: Message): State
    requires s.producer.Filling? && |s.producer.text| + |m| <= s.producer.len
    decreases |m|
  {
    if m == [] then s else WriteAll(Step(s, Write(m[0])), m[1..])
  }

  lemma {:induction false} WriteAllFills(s: State, v: View, m: Message)
    requires Inv(s, v) && s.producer.Filling? && |s.producer.text| + |m| <= s.producer.len
    ensures var t := WriteAll(s, m);
            && Inv(t, v) && |t.buf| == |s.buf|
            && t == s.(buf := t.buf, producer := Filling(s.producer.len, s.producer.text + m))
    decreases |m|
  {
    hide Chain;
    if m != [] {
      WriteKeepsInv(s, v, m[0]);
      var t := Step(s, Write(m[0]));
      StoreKeepsLength(s, s.head + 4 + |s.producer.text|, [m[0]]);
      assert s.producer.text + m == s.producer.text + [m[0]] + m[1..];
      WriteAllFills(t, v, m[1..]);
    } else {
      assert s.producer.text + m == s.producer.text;
    }
  }

  lemma StoreKeepsLength(s: State, at: nat, data: seq<byte>)
    ensures var t := Store(s, at, data); |t.buf| == |s.buf| && t == s.(buf := t.buf, fault := t.fault)
  {
  }

  // The two accesses of mg_queue_add.
  function AddAlone(s: State, n: nat): State
    requires Enabled(s, Add(n))
  {
    var t := ProducerStep(Step(s, Add(n)));
    if InsideProducer(t.producer) then ProducerStep(t) else t
  }

  // It publishes exactly the bytes written.
  lemma AddAloneAdds(s: State, v: View, n: nat) returns (w: View)
    requires Inv(s, v) && Enabled(s, Add(n))
    ensures AddAlone(s, n) == s.(buf := Put(s.buf, s.head, LengthBytes(n)), head := s.head + n + 4, producer := Idle,
                                 added := s.added + [s.producer.text[..n]])
    ensures Inv(AddAlone(s, n), w) && w.front + w.back == v.front + v.back + [s.producer.text[..n]]
  {
    hide Layout, ProducerOk, ConsumerOk, LengthBytes;
    AddKeepsInv(s, v, n);
    var s1, text := Step(s, Add(n)), s.producer.text[..n];
    FitsAtHead(s1, v);
    AddLengthKeepsInv(s1, v);
    var s2 := ProducerStep(s1);
    assert |LengthBytes(n)| == 4 by { LengthIsFour(n); }
    assert s2 == s1.(buf := Put(s.buf, s.head, LengthBytes(n)), producer := AddHead(n, text));
    w := AddHeadKeepsInv(s2, v);
    Unconsumed(s, v);
    Unconsumed(ProducerStep(s2), w);
    assert (s.added + [text])[|s.consumed|..] == s.added[|s.consumed|..] + [text];
  }

  lemma LengthIsFour(n: nat)
    ensures |LengthBytes(n)| == 4
  {
  }

  lemma Unconsumed(s: State, v: View)
    requires Layout(s, v)
    ensures |s.consumed| <= |s.added| && s.added[|s.consumed|..] == v.front + v.back
  {
    assert s.consumed + v.front + v.back == s.consumed + (v.front + v.back);
  }

  lemma FitsAtHead(s: State, v: View)
    requires Inv(s, v) && s.producer.AddLength?
    ensures s.head + HS + s.producer.len <= |s.buf| < TWO_63
  {
    if v.lapped { ChainOrder(s.buf, s.tail, v.mark, v.front); }
  }

  // Book, write, add; look, read, delete.
  function Delivered(s: State, m: Message): State
    requires s.producer.Filling? && s.producer.text == [] && 0 < |m| <= s.producer.len
  {
    var t := WriteAll(s, m);
    if !Enabled(t, Add(|m|)) then t
    else
      var u := NextAlone(AddAlone(t, |m|));
      if u.consumer.Reading? then FinishRead(u) else u
  }

  // A booking on a drained queue leaves it drained.
  lemma BookedOnDrained(s: State, v: View, len: nat) returns (w: View)
    requires Drained(s, v) && 0 < len < TWO_32 && Succeeds(BookWithRetry(s, len))
    ensures var t := BookWithRetry(s, len);
            && Inv(t, w) && w.front == [] && w.back == [] && t.producer == Filling(len, []) && t.consumer == Resting
            && t.added == t.consumed == s.consumed
  {
    hide Chain;
    var t := BookAlone(s, len);
    w := FinishBookKeepsInv(s.(producer := BookFit(len)), v);
    BookAloneOutcome(s, len);
    NothingWaits(t, w);
    if !Succeeds(t) {
      NextAloneOnDrained(t, w);
      var u := NextAlone(t);
      var x := if w.lapped then View([], false, 0, []) else w;
      BookAloneOutcome(u, len);
      w := FinishBookKeepsInv(u.(producer := BookFit(len)), x);
      NothingWaits(BookAlone(u, len), w);
    }
  }

  lemma NothingWaits(s: State, v: View)
    requires Layout(s, v) && s.added == s.consumed
    ensures v.front == [] && v.back == []
  {
    assert |s.added| == |s.consumed| + |v.front| + |v.back|;
  }

  // Whatever message there is room for on a drained queue goes through whole, and leaves it drained.
  lemma MessageGoesThrough(s: State, v: View, m: Message) returns (w: View)
    requires Drained(s, v) && 0 < |m| < TWO_32 && RoomFor(s, |m|)
    ensures BookWithRetry(s, |m|).producer == Filling(|m|, [])
    ensures var u := Delivered(BookWithRetry(s, |m|), m); u.added == u.consumed == s.consumed + [m] && Drained(u, w)
  {
    hide Chain, RoomFor, FinishBook, FinishNext, FinishRead, WriteAll, AddAlone, NextAlone, BookWithRetry, Layout;
    ProgressOnDrained(s, v, |m|);
    w := BookedOnDrained(s, v, |m|);
    var t := BookWithRetry(s, |m|);
    WriteAllFills(t, w, m);
    var t1 := WriteAll(t, m);
    assert m[..|m|] == m && [] + m == m && w.front + w.back + [m] == [m];
    w := AddAloneAdds(t1, w, |m|);
    var t2 := AddAlone(t1, |m|);
    w := NextAloneFinds(t2, w);
    w := FinishReadTakes(NextAlone(t2), w);
  }
}
