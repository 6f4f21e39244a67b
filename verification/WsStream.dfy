/** mg_ws_cb: takes complete frames off a receive buffer and joins fragmented messages (section 5.4 of RFC 6455). */
module WsStream {
  import opened Bytes
  import opened IoBuf
  import opened WsFrame

  const CONTINUE := 0
  const TEXT := 1
  const BINARY := 2
  const CLOSE := 8
  const PING := 9
  const PONG := 10

  /// What one frame does.

  datatype Event =
    | Message(flags: byte, data: seq<byte>)  // MG_EV_WS_MSG
    | Control(flags: byte, data: seq<byte>)  // MG_EV_WS_CTL
    | Reply(op: byte, data: seq<byte>)       // mg_ws_send
    | Failure(op: byte)                      // mg_error, unknown opcode
    // A final, empty continuation with nothing before it: MG_EV_WS_MSG with whatever byte stands at the
    // front of the buffer for flags, and a length that has wrapped around.
    | Stray(front: byte, len: nat)

  // The events of a frame on its own.
  function Report(flags: byte, data: seq<byte>): seq<Event> {
    var op := flags % 16;
    if op == CONTINUE || op == PONG then [Control(flags, data)]
    else if op == PING then [Reply(PONG, data), Control(flags, data)]
    else if op == TEXT || op == BINARY then if flags >= 128 then [Message(flags, data)] else []
    else if op == CLOSE then [Control(flags, data), Reply(CLOSE, data)]
    else [Failure(op)]
  }

  // The bytes kept at the front of the buffer for a message in progress: the flags byte of its
  // first fragment, then the payloads so far. Handling a frame changes them and raises events.
  datatype Outcome = Outcome(events: seq<Event>, acc: seq<byte>)

  // `front` is what comes to stand at the front of an emptied buffer: the byte behind the frame.
  function Handle(acc: seq<byte>, flags: byte, data: seq<byte>, front: byte): Outcome {
    var final, op, seen := flags >= 128, flags % 16, Report(flags, data);
    if op != 0 then Outcome(seen, if final then acc else acc + [flags] + data)
    else
      var whole := acc + data;
      if !final then Outcome(seen, whole)
      else Outcome(seen + [if whole == [] then Stray(front, Wrap64(0 - 1)) else Message(whole[0], whole[1..])], [])
  }

  // The first byte of what has arrived; a byte that is deleted leaves a zero.
  function Front(rest: seq<byte>): byte {
    if rest == [] then 0 else rest[0]
  }

  // Frame after frame, as long as one is complete.
  datatype Stream = Stream(events: seq<Event>, acc: seq<byte>, rest: seq<byte>)

  function Decode(acc: seq<byte>, s: seq<byte>): (r: Stream)
    ensures |r.acc| + |r.rest| <= |acc| + |s|
    decreases |s|
  {
    match Parse(s)
    case None => Stream([], acc, s)
    case Some(Lengths(h, n)) =>
      var o := Handle(acc, s[0], Payload(s), Front(s[h + n..]));
      Prepend(o.events, Decode(o.acc, s[h + n..]))
  }

  function Prepend(events: seq<Event>, s: Stream): Stream {
    s.(events := events + s.events)
  }

  /// Handling what has arrived, and later the rest.

  // Everything has been handled, and a stray frame came last: its event used a byte not there yet.
  predicate EndsStray(d: Stream) {
    d.rest == [] && d.acc == [] && d.events != [] && d.events[|d.events| - 1].Stray?
  }

  // The events as they would be, had t arrived at once.
  function Amended(d: Stream, t: seq<byte>): seq<Event> {
    if EndsStray(d) then d.events[..|d.events| - 1] + [Stray(Front(t), Wrap64(0 - 1))] else d.events
  }

  lemma HandleFront(acc: seq<byte>, flags: byte, data: seq<byte>, a: byte, b: byte)
    ensures var o, p := Handle(acc, flags, data, a), Handle(acc, flags, data, b); var n := |o.events| - 1;
            && o.acc == p.acc
            && if n >= 0 && o.events[n].Stray?
               then o.acc == [] && o.events == o.events[..n] + [Stray(a, Wrap64(0 - 1))]
                    && p.events == o.events[..n] + [Stray(b, Wrap64(0 - 1))]
               else o.events == p.events
    ensures Handle(acc, flags, data, a).events == [] ==> Handle(acc, flags, data, a).acc != []
  {
    hide Wrap64;
  }

  // Only the start of a message raises no event.
  lemma {:induction false} QuietIsProgress(acc: seq<byte>, s: seq<byte>)
    requires s != [] && Decode(acc, s).events == [] && Decode(acc, s).rest == []
    ensures Decode(acc, s).acc != []
    decreases |s|
  {
    hide Parse, Payload, Handle, Front;
    var Lengths(h, n) := Parse(s).value;
    var tail := s[h + n..];
    HandleFront(acc, s[0], Payload(s), Front(tail), 0);
    var o := Handle(acc, s[0], Payload(s), Front(tail));
    assert o.events + Decode(o.acc, tail).events == [];
    if tail != [] { QuietIsProgress(o.acc, tail); } else { NothingDecoded(o.acc); }
  }

  lemma NothingDecoded(acc: seq<byte>)
    ensures Decode(acc, []) == Stream([], acc, [])
  {
  }

  lemma AmendNothing(d: Stream, t: seq<byte>)
    requires d.events == []
    ensures Amended(d, t) == []
  {
  }

  // Amending the events of a frame and of what follows it.
  lemma AmendMore(o: Outcome, p: Outcome, d: Stream, tail: seq<byte>, t: seq<byte>)
    requires d.events == [] && d.rest == [] && tail != [] ==> d.acc != []
    requires tail == [] ==> d == Stream([], o.acc, [])
    requires tail != [] ==> o == p
    requires var n := |o.events| - 1;
             if n >= 0 && o.events[n].Stray?
             then o.acc == [] && p.events == o.events[..n] + [Stray(Front(tail + t), Wrap64(0 - 1))]
                  && o.events[n] == Stray(Front(tail), Wrap64(0 - 1))
             else o.events == p.events
    requires EndsStray(d) ==> d.events[|d.events| - 1] == Stray(0, Wrap64(0 - 1))
    ensures Amended(Prepend(o.events, d), t) == p.events + Amended(d, t)
    ensures var e := Prepend(o.events, d); EndsStray(e) ==> e.events[|e.events| - 1] == Stray(0, Wrap64(0 - 1))
  {
    hide Wrap64;
    if tail == [] {
      assert tail + t == t && o.events + [] == o.events && p.events + [] == p.events;
    } else if d.events == [] {
      assert o.events + [] == o.events;
    } else {
      var n := |d.events| - 1;
      var whole := o.events + d.events;
      assert whole[..|whole| - 1] == o.events + d.events[..n] && whole[|whole| - 1] == d.events[n];
    }
  }

  lemma NothingApart(acc: seq<byte>, s: seq<byte>, t: seq<byte>)
    requires Parse(s) == None
    ensures var d := Decode(acc, s);
            !EndsStray(d) && Decode(acc, s + t) == Prepend(Amended(d, t), Decode(d.acc, d.rest + t))
  {
    hide Parse, Payload, Handle, Wrap64, Front, Amended;
    AmendNothing(Decode(acc, s), t);
    assert [] + Decode(acc, s + t).events == Decode(acc, s + t).events;
  }

  lemma {:induction false} DecodeApart(acc: seq<byte>, s: seq<byte>, t: seq<byte>)
    ensures var d := Decode(acc, s);
            Decode(acc, s + t) == Prepend(Amended(d, t), Decode(d.acc, d.rest + t))
    ensures var d := Decode(acc, s); EndsStray(d) ==> d.events[|d.events| - 1] == Stray(0, Wrap64(0 - 1))
    decreases |s|
  {
    hide Parse, Payload, Handle, Wrap64, Front, Amended, Decode;
    match Parse(s)
    case None => NothingApart(acc, s, t);
    case Some(Lengths(h, n)) =>
      var tail := s[h + n..];
      var o, p := Handle(acc, s[0], Payload(s), Front(tail)), Handle(acc, s[0], Payload(s), Front(tail + t));
      DecodeFirst(acc, s, t);
      DecodeApart(o.acc, tail, t);
      var d := Decode(o.acc, tail);
      FrameApart(acc, s[0], Payload(s), tail, t);
      PrependTwice(p.events, Amended(d, t), Decode(d.acc, d.rest + t));
  }

  lemma PrependTwice(a: seq<Event>, b: seq<Event>, s: Stream)
    ensures Prepend(a, Prepend(b, s)) == Prepend(a + b, s)
  {
    ConcatAssociates(a, b, s.events);
  }

  // The first of the frames, before and after more has arrived.
  lemma DecodeFirst(acc: seq<byte>, s: seq<byte>, t: seq<byte>)
    requires Parse(s).Some?
    ensures var Lengths(h, n) := Parse(s).value; var tail := s[h + n..];
            var o := Handle(acc, s[0], Payload(s), Front(tail));
            var p := Handle(acc, s[0], Payload(s), Front(tail + t));
            && o.acc == p.acc
            && Decode(acc, s) == Prepend(o.events, Decode(o.acc, tail))
            && Decode(acc, s + t) == Prepend(p.events, Decode(o.acc, tail + t))
  {
    hide Parse, Payload, Handle, Front;
    var Lengths(h, n) := Parse(s).value;
    ParseStable(s, t);
    assert (s + t)[0] == s[0] && (s + t)[h + n..] == s[h + n..] + t;
    HandleFront(acc, s[0], Payload(s), Front(s[h + n..]), Front(s[h + n..] + t));
  }

  lemma FrontMore(s: seq<byte>, t: seq<byte>)
    ensures Front(s + t) == Front(if s == [] then t else s)
  {
  }

  lemma FrameApart(acc: seq<byte>, flags: byte, data: seq<byte>, tail: seq<byte>, t: seq<byte>)
    requires var d := Decode(Handle(acc, flags, data, Front(tail)).acc, tail);
             EndsStray(d) ==> d.events[|d.events| - 1] == Stray(0, Wrap64(0 - 1))
    ensures var o := Handle(acc, flags, data, Front(tail)); var p := Handle(acc, flags, data, Front(tail + t));
            var d := Decode(o.acc, tail); var e := Prepend(o.events, d);
            && Amended(e, t) == p.events + Amended(d, t)
            && (EndsStray(e) ==> e.events[|e.events| - 1] == Stray(0, Wrap64(0 - 1)))
  {
    hide Handle, Wrap64, Amended, Decode, Front;
    FrontMore(tail, t);
    var o, p := Handle(acc, flags, data, Front(tail)), Handle(acc, flags, data, Front(tail + t));
    var d := Decode(o.acc, tail);
    HandleFront(acc, flags, data, Front(tail), Front(tail + t));
    if tail == [] {
      NothingDecoded(o.acc);
    } else if d.events == [] && d.rest == [] {
      QuietIsProgress(o.acc, tail);
    }
    AmendMore(o, p, d, tail, t);
  }

  // Handling a prefix and then the rest is handling it all at once exactly when the cut does not come
  // right behind a stray frame with a byte other than zero to follow.
  lemma DecodeSplit(acc: seq<byte>, s: seq<byte>, t: seq<byte>)
    ensures var d := Decode(acc, s);
            Decode(acc, s + t) == Prepend(d.events, Decode(d.acc, d.rest + t)) <==> !(EndsStray(d) && Front(t) != 0)
  {
    DecodeApart(acc, s, t);
    var d := Decode(acc, s);
    var more := Decode(d.acc, d.rest + t);
    hide Decode, Front, Wrap64;
    if EndsStray(d) {
      var n := |d.events| - 1;
      assert (Amended(d, t) + more.events)[n] == Stray(Front(t), Wrap64(0 - 1));
      assert (d.events + more.events)[n] == d.events[n] == Stray(0, Wrap64(0 - 1));
      if Front(t) == 0 { assert Amended(d, t) == d.events; }
    }
  }

  // An empty final continuation followed by an empty text message, at once and with a cut between.
  lemma CutShows()
    ensures Decode([], [128, 0, 129, 0]).events
            == [Control(128, []), Stray(129, Wrap64(0 - 1)), Message(129, [])]
    ensures Decode([], [128, 0]) == Stream([Control(128, []), Stray(0, Wrap64(0 - 1))], [], [])
    ensures Decode([], [129, 0]) == Stream([Message(129, [])], [], [])
  {
    hide Wrap64, Decode, Frame, Handle;
    EmptyFrame([], 129);
    EmptyFrame([], 128);
    EmptyFrame([129, 0], 128);
    NothingDecoded([]);
    assert [129, 0] + [] == [129, 0] && [128, 0] + [] == [128, 0] && [128, 0] + [129, 0] == [128, 0, 129, 0];
    var message := [Message(129, [])];
    assert message + [] == message;
    assert Decode([], [129, 0]) == Stream(message, [], []);
  }

  lemma EmptyFrame(rest: seq<byte>, flags: byte)
    requires flags == 128 || flags == 129
    ensures var o := if flags == 129 then [Message(129, [])] else [Control(128, []), Stray(Front(rest), Wrap64(0 - 1))];
            Decode([], [flags, 0] + rest) == Prepend(o, Decode([], rest))
  {
    hide Wrap64, Decode, Front, Frame, Handle;
    FrameOfNothing(flags, Front(rest));
    DecodeFrame([], Wire(flags, Fragment([], None)), rest);
  }

  lemma FrameOfNothing(flags: byte, front: byte)
    requires flags == 128 || flags == 129
    ensures Frame(flags, [], None) == [flags, 0]
    ensures Handle([], flags, [], front)
            == Outcome(if flags == 129 then [Message(129, [])] else [Control(128, []), Stray(front, Wrap64(0 - 1))], [])
  {
    hide Wrap64;
  }

  // One short frame, byte by byte: which of the operations 0, 1, 2, 8, 9 and 10 it is, what is raised and
  // answered for it and in which order, and what is left of the message in progress.
  lemma OneFrame(acc: seq<byte>, flags: byte, data: seq<byte>)
    requires |data| < 126
    ensures var d := Decode(acc, [flags, |data|] + data); var op, more := flags % 16, flags < 128;
            && d.rest == []
            && d.acc == (if op == 0 then if more then acc + data else [] else if more then acc + [flags] + data else acc)
            && d.events == match op
                           case 0 =>
                             [Control(flags, data)] + (if more then [] else if acc + data == [] then [Stray(0, TWO_64 - 1)]
                                                       else [Message((acc + data)[0], (acc + data)[1..])])
                           case 1 => if more then [] else [Message(flags, data)]
                           case 2 => if more then [] else [Message(flags, data)]
                           case 8 => [Control(flags, data), Reply(8, data)]
                           case 9 => [Reply(10, data), Control(flags, data)]
                           case 10 => [Control(flags, data)]
                           case _ => [Failure(op)]
  {
    ShortFrame(flags, data);
    DecodeFrame(acc, Wire(flags, Fragment(data, None)), []);
    var o := Handle(acc, flags, data, Front([]));
    assert Wrap64(0 - 1) == TWO_64 - 1;
    hide Decode, Frame, Parse, Wrap64;
    var f := [flags, |data|] + data;
    assert f + [] == f && Frame(flags, data, None) == f;
    NothingDecoded(o.acc);
    assert o.events + [] == o.events && Report(flags, data) + [] == Report(flags, data);
  }

  lemma ShortFrame(flags: byte, data: seq<byte>)
    requires |data| < 126
    ensures Frame(flags, data, None) == [flags, |data|] + data
  {
  }

  /// Legal streams of frames.

  datatype Fragment = Fragment(payload: seq<byte>, mask: Option<Mask>)
  // A ping or pong frame.
  datatype Signal = Signal(op: byte, body: Fragment)
  // Control frames, then the next fragment of the message in progress.
  datatype Part = Part(signals: seq<Signal>, body: Fragment)
  // What may come next on a connection: a control frame, or a text or binary message sent as one
  // or more fragments with control frames between them.
  datatype Unit = Lone(signal: Signal) | Data(op: byte, first: Fragment, more: seq<Part>)

  predicate LegalFragment(f: Fragment) {
    |f.payload| <= GIB
  }

  predicate LegalSignal(s: Signal) {
    (s.op == PING || s.op == PONG) && LegalFragment(s.body)
  }

  predicate LegalPart(p: Part) {
    LegalFragment(p.body) && forall k :: 0 <= k < |p.signals| ==> LegalSignal(p.signals[k])
  }

  predicate LegalUnit(u: Unit) {
    match u
    case Lone(s) => LegalSignal(s)
    case Data(op, first, more) =>
      && (op == TEXT || op == BINARY) && LegalFragment(first)
      && forall k :: 0 <= k < |more| ==> LegalPart(more[k])
  }

  // A frame as sent: its first byte, then the fragment.
  datatype Wire = Wire(flags: byte, body: Fragment)

  predicate LegalWires(ws: seq<Wire>) {
    forall k :: 0 <= k < |ws| ==> LegalFragment(ws[k].body)
  }

  function SignalWires(ss: seq<Signal>): seq<Wire>
    requires forall k :: 0 <= k < |ss| ==> LegalSignal(ss[k])
  {
    if ss == [] then []
    else
      assert LegalSignal(ss[0]);
      [Wire(128 + ss[0].op, ss[0].body)] + SignalWires(ss[1..])
  }

  // The continuation fragments; the last one carries the final bit.
  function PartWires(parts: seq<Part>): seq<Wire>
    requires forall k :: 0 <= k < |parts| ==> LegalPart(parts[k])
  {
    if parts == [] then []
    else
      assert LegalPart(parts[0]);
      SignalWires(parts[0].signals) + [Wire(if |parts| == 1 then 128 else 0, parts[0].body)] + PartWires(parts[1..])
  }

  function UnitWires(u: Unit): seq<Wire>
    requires LegalUnit(u)
  {
    match u
    case Lone(s) => SignalWires([s])
    case Data(op, first, more) => [Wire(op + (if more == [] then 128 else 0), first)] + PartWires(more)
  }

  function UnitsWires(us: seq<Unit>): seq<Wire>
    requires forall k :: 0 <= k < |us| ==> LegalUnit(us[k])
  {
    if us == [] then [] else UnitWires(us[0]) + UnitsWires(us[1..])
  }

  function WiresBytes(ws: seq<Wire>): seq<byte> {
    if ws == [] then [] else Frame(ws[0].flags, ws[0].body.payload, ws[0].body.mask) + WiresBytes(ws[1..])
  }

  /// What the receiver of such a stream must be told.

  datatype Text = Text(op: nat, data: seq<byte>)

  function PartsData(parts: seq<Part>): seq<byte> {
    if parts == [] then [] else parts[0].body.payload + PartsData(parts[1..])
  }

  function SignalTexts(ss: seq<Signal>): seq<Text> {
    if ss == [] then [] else [Text(ss[0].op, ss[0].body.payload)] + SignalTexts(ss[1..])
  }

  function PartsSignals(parts: seq<Part>): seq<Text> {
    if parts == [] then [] else SignalTexts(parts[0].signals) + PartsSignals(parts[1..])
  }

  function UnitMessages(u: Unit): seq<Text> {
    match u
    case Lone(_) => []
    case Data(op, first, more) => [Text(op, first.payload + PartsData(more))]
  }

  function UnitSignals(u: Unit): seq<Text> {
    match u
    case Lone(s) => SignalTexts([s])
    case Data(_, _, more) => PartsSignals(more)
  }

  function UnitsMessages(us: seq<Unit>): seq<Text> {
    if us == [] then [] else UnitMessages(us[0]) + UnitsMessages(us[1..])
  }

  function UnitsSignals(us: seq<Unit>): seq<Text> {
    if us == [] then [] else UnitSignals(us[0]) + UnitsSignals(us[1..])
  }

  // The messages among some events, and the control frames proper.
  function Messages(events: seq<Event>): seq<Text> {
    if events == [] then [] else MessageOf(events[0]) + Messages(events[1..])
  }

  function MessageOf(e: Event): seq<Text> {
    if e.Message? then [Text(e.flags % 16, e.data)] else []
  }

  function Signals(events: seq<Event>): seq<Text> {
    if events == [] then [] else SignalOf(events[0]) + Signals(events[1..])
  }

  function SignalOf(e: Event): seq<Text> {
    if e.Control? && e.flags % 16 != CONTINUE then [Text(e.flags % 16, e.data)] else []
  }

  lemma {:induction false} MessagesConcat(a: seq<Event>, b: seq<Event>)
    ensures Messages(a + b) == Messages(a) + Messages(b)
    decreases |a|
  {
    hide MessageOf;
    if a == [] {
      assert a + b == b;
    } else {
      assert (a + b)[1..] == a[1..] + b && (a + b)[0] == a[0];
      MessagesConcat(a[1..], b);
      ConcatAssociates(MessageOf(a[0]), Messages(a[1..]), Messages(b));
    }
  }

  lemma {:induction false} SignalsConcat(a: seq<Event>, b: seq<Event>)
    ensures Signals(a + b) == Signals(a) + Signals(b)
    decreases |a|
  {
    hide SignalOf;
    if a == [] {
      assert a + b == b;
    } else {
      assert (a + b)[1..] == a[1..] + b && (a + b)[0] == a[0];
      SignalsConcat(a[1..], b);
      ConcatAssociates(SignalOf(a[0]), Signals(a[1..]), Signals(b));
    }
  }

  /// Decoding a stream of whole frames is handling the frames one by one.

  // `front` is the byte that follows them.
  function HandleAll(acc: seq<byte>, ws: seq<Wire>, front: byte): Outcome
    decreases |ws|
  {
    if ws == [] then Outcome([], acc)
    else
      var o := Handle(acc, ws[0].flags, ws[0].body.payload, Behind(ws[1..], front));
      Then(o, HandleAll(o.acc, ws[1..], front))
  }

  function Behind(ws: seq<Wire>, front: byte): byte {
    if ws == [] then front else ws[0].flags
  }

  function Then(o: Outcome, p: Outcome): Outcome {
    Outcome(o.events + p.events, p.acc)
  }

  lemma {:induction false} HandleConcat(acc: seq<byte>, a: seq<Wire>, b: seq<Wire>, front: byte)
    ensures var o := HandleAll(acc, a, Behind(b, front));
            HandleAll(acc, a + b, front) == Then(o, HandleAll(o.acc, b, front))
    decreases |a|
  {
    hide Handle;
    if a == [] {
      assert a + b == b;
      assert [] + HandleAll(acc, b, front).events == HandleAll(acc, b, front).events;
    } else {
      assert (a + b)[1..] == a[1..] + b && (a + b)[0] == a[0];
      var o := Handle(acc, a[0].flags, a[0].body.payload, Behind(a[1..], Behind(b, front)));
      HandleConcat(o.acc, a[1..], b, front);
      var p := HandleAll(o.acc, a[1..], Behind(b, front));
      ConcatAssociates(o.events, p.events, HandleAll(p.acc, b, front).events);
    }
  }

  lemma DecodeFrame(acc: seq<byte>, w: Wire, rest: seq<byte>)
    requires LegalFragment(w.body)
    ensures var o := Handle(acc, w.flags, w.body.payload, Front(rest));
            Decode(acc, Frame(w.flags, w.body.payload, w.body.mask) + rest) == Prepend(o.events, Decode(o.acc, rest))
  {
    hide Parse, Payload, Frame, Handle;
    ParseFrame(w.flags, w.body.payload, w.body.mask, rest);
  }

  lemma FrontOfWires(ws: seq<Wire>, rest: seq<byte>)
    ensures Front(WiresBytes(ws) + rest) == Behind(ws, Front(rest))
  {
    if ws == [] {
      assert WiresBytes(ws) + rest == rest;
    } else {
      var f := Frame(ws[0].flags, ws[0].body.payload, ws[0].body.mask);
      HeaderParts(ws[0].flags, |ws[0].body.payload|, ws[0].body.mask);
      assert f != [] && f[0] == ws[0].flags;
      assert (WiresBytes(ws) + rest)[0] == f[0];
    }
  }

  lemma {:induction false} DecodeWires(acc: seq<byte>, ws: seq<Wire>, rest: seq<byte>)
    requires LegalWires(ws)
    ensures var o := HandleAll(acc, ws, Front(rest));
            Decode(acc, WiresBytes(ws) + rest) == Prepend(o.events, Decode(o.acc, rest))
    decreases |ws|
  {
    hide Decode, Handle, Frame, Front, Behind;
    if ws == [] {
      assert WiresBytes(ws) + rest == rest;
      assert [] + Decode(acc, rest).events == Decode(acc, rest).events;
    } else {
      var tail := WiresBytes(ws[1..]) + rest;
      var frame := Frame(ws[0].flags, ws[0].body.payload, ws[0].body.mask);
      assert WiresBytes(ws) + rest == frame + tail;
      DecodeFrame(acc, ws[0], tail);
      FrontOfWires(ws[1..], rest);
      var o := Handle(acc, ws[0].flags, ws[0].body.payload, Front(tail));
      DecodeWires(o.acc, ws[1..], rest);
      var p := HandleAll(o.acc, ws[1..], Front(rest));
      ConcatAssociates(o.events, p.events, Decode(p.acc, rest).events);
    }
  }

  /// Handling the frames of a legal stream.

  // Whatever follows, handling these frames tells the receiver these messages and control frames, and
  // leaves `after` as the message in progress.
  predicate Tells(acc: seq<byte>, ws: seq<Wire>, messages: seq<Text>, signals: seq<Text>, after: seq<byte>) {
    forall front: byte :: TellsThese(HandleAll(acc, ws, front), messages, signals, after)
  }

  predicate TellsThese(o: Outcome, messages: seq<Text>, signals: seq<Text>, after: seq<byte>) {
    Messages(o.events) == messages && Signals(o.events) == signals && NoStray(o.events) && o.acc == after
  }

  predicate NoStray(events: seq<Event>) {
    forall k :: 0 <= k < |events| ==> !events[k].Stray?
  }

  lemma TellsThen(acc: seq<byte>, a: seq<Wire>, m1: seq<Text>, s1: seq<Text>, mid: seq<byte>,
                  b: seq<Wire>, m2: seq<Text>, s2: seq<Text>, after: seq<byte>)
    requires Tells(acc, a, m1, s1, mid) && Tells(mid, b, m2, s2, after)
    ensures Tells(acc, a + b, m1 + m2, s1 + s2, after)
  {
    hide HandleAll, Messages, Signals, Behind;
    forall front: byte
      ensures TellsThese(HandleAll(acc, a + b, front), m1 + m2, s1 + s2, after)
    {
      HandleConcat(acc, a, b, front);
      var o, p := HandleAll(acc, a, Behind(b, front)), HandleAll(mid, b, front);
      assert TellsThese(o, m1, s1, mid) && TellsThese(p, m2, s2, after);
      MessagesConcat(o.events, p.events);
      SignalsConcat(o.events, p.events);
    }
  }

  lemma OneTells(acc: seq<byte>, w: Wire, o: Outcome)
    requires (forall front: byte :: Handle(acc, w.flags, w.body.payload, front) == o) && NoStray(o.events)
    ensures Tells(acc, [w], Messages(o.events), Signals(o.events), o.acc)
  {
    hide Handle, Messages, Signals;
    forall front: byte
      ensures TellsThese(HandleAll(acc, [w], front), Messages(o.events), Signals(o.events), o.acc)
    {
      assert [w][1..] == [] && o.events + [] == o.events;
      assert HandleAll(acc, [w], front) == Then(o, HandleAll(o.acc, [w][1..], front)) == o;
    }
  }

  lemma EventsOfOne(e: Event)
    ensures Messages([e]) == if e.Message? then [Text(e.flags % 16, e.data)] else []
    ensures Signals([e]) == if e.Control? && e.flags % 16 != CONTINUE then [Text(e.flags % 16, e.data)] else []
  {
    assert [e][1..] == [];
  }

  lemma EventsOfTwo(d: Event, e: Event)
    ensures Messages([d, e]) == Messages([d]) + Messages([e])
    ensures Signals([d, e]) == Signals([d]) + Signals([e])
  {
    MessagesConcat([d], [e]);
    SignalsConcat([d], [e]);
  }

  lemma SignalTells(acc: seq<byte>, s: Signal)
    requires LegalSignal(s)
    ensures Tells(acc, [Wire(128 + s.op, s.body)], [], [Text(s.op, s.body.payload)], acc)
  {
    var o := Handle(acc, 128 + s.op, s.body.payload, 0);
    OneTells(acc, Wire(128 + s.op, s.body), o);
    hide Tells;
    var control := Control(128 + s.op, s.body.payload);
    EventsOfOne(control);
    EventsOfTwo(Reply(PONG, s.body.payload), control);
  }

  // Control frames between fragments do not disturb the message in progress.
  lemma {:induction false} SignalsTell(acc: seq<byte>, ss: seq<Signal>)
    requires forall k :: 0 <= k < |ss| ==> LegalSignal(ss[k])
    ensures Tells(acc, SignalWires(ss), [], SignalTexts(ss), acc)
    decreases |ss|
  {
    if ss != [] {
      SignalTells(acc, ss[0]);
      SignalsTell(acc, ss[1..]);
      TellsThen(acc, [Wire(128 + ss[0].op, ss[0].body)], [], [Text(ss[0].op, ss[0].body.payload)], acc,
                SignalWires(ss[1..]), [], SignalTexts(ss[1..]), acc);
    }
  }

  lemma FragmentTells(acc: seq<byte>, last: bool, f: Fragment)
    requires acc != []
    ensures var whole := acc + f.payload;
            Tells(acc, [Wire(if last then 128 else 0, f)],
                  if last then [Text(acc[0] % 16, whole[1..])] else [], [], if last then [] else whole)
  {
    var flags: byte := if last then 128 else 0;
    var whole := acc + f.payload;
    var o := Handle(acc, flags, f.payload, 0);
    OneTells(acc, Wire(flags, f), o);
    hide Tells;
    EventsOfOne(Control(flags, f.payload));
    EventsOfTwo(Control(flags, f.payload), Message(whole[0], whole[1..]));
    assert last ==> o.events == [Control(flags, f.payload), Message(whole[0], whole[1..])];
  }

  // The remaining fragments complete the message in progress.
  lemma {:induction false} PartsTell(acc: seq<byte>, parts: seq<Part>)
    requires acc != [] && parts != []
    requires forall k :: 0 <= k < |parts| ==> LegalPart(parts[k])
    ensures Tells(acc, PartWires(parts), [Text(acc[0] % 16, acc[1..] + PartsData(parts))], PartsSignals(parts), [])
    decreases |parts|
  {
    var p, more := parts[0], parts[1..];
    assert LegalPart(p);
    var last := |parts| == 1;
    var frame := [Wire(if last then 128 else 0, p.body)];
    var whole := acc + p.body.payload;
    assert whole[1..] == acc[1..] + p.body.payload;
    SignalsTell(acc, p.signals);
    FragmentTells(acc, last, p.body);
    hide Tells;
    var ws, texts := SignalWires(p.signals) + frame, SignalTexts(p.signals);
    TellsThen(acc, SignalWires(p.signals), [], texts, acc,
              frame, if last then [Text(acc[0] % 16, whole[1..])] else [], [], if last then [] else whole);
    assert texts + [] == texts;
    if last {
      assert more == [];
      assert PartWires(parts) == ws && PartsData(parts) == p.body.payload && PartsSignals(parts) == texts;
    } else {
      PartsTell(whole, more);
      var text := [Text(whole[0] % 16, whole[1..] + PartsData(more))];
      TellsThen(acc, ws, [], texts, whole, PartWires(more), text, PartsSignals(more), []);
      ConcatAssociates(acc[1..], p.body.payload, PartsData(more));
    }
  }

  lemma UnitTells(u: Unit)
    requires LegalUnit(u)
    ensures Tells([], UnitWires(u), UnitMessages(u), UnitSignals(u), [])
  {
    match u
    case Lone(s) =>
      SignalsTell([], [s]);
    case Data(op, first, more) =>
      FirstTells(op, more == [], first);
      hide Tells;
      var frame := [Wire(op + (if more == [] then 128 else 0), first)];
      if more == [] {
        assert frame + PartWires(more) == frame;
        assert first.payload + PartsData(more) == first.payload;
      } else {
        var acc := [op] + first.payload;
        PartsTell(acc, more);
        TellsThen([], frame, [], [], acc, PartWires(more), [Text(acc[0] % 16, acc[1..] + PartsData(more))],
                  PartsSignals(more), []);
      }
  }

  lemma NothingTold()
    ensures Messages([]) == [] && Signals([]) == []
  {
  }

  lemma FirstTells(op: byte, alone: bool, f: Fragment)
    requires op == TEXT || op == BINARY
    ensures Tells([], [Wire(op + (if alone then 128 else 0), f)],
                  if alone then [Text(op, f.payload)] else [], [], if alone then [] else [op] + f.payload)
  {
    hide Tells, Wrap64, Messages, Signals;
    var flags: byte := op + if alone then 128 else 0;
    var o := Handle([], flags, f.payload, 0);
    OneTells([], Wire(flags, f), o);
    NothingTold();
    EventsOfOne(Message(flags, f.payload));
    assert [] + [flags] + f.payload == [flags] + f.payload;
    assert o == if alone then Outcome([Message(flags, f.payload)], []) else Outcome([], [op] + f.payload);
  }

  lemma {:induction false} UnitsTell(us: seq<Unit>)
    requires forall k :: 0 <= k < |us| ==> LegalUnit(us[k])
    ensures Tells([], UnitsWires(us), UnitsMessages(us), UnitsSignals(us), [])
    decreases |us|
  {
    if us != [] {
      UnitTells(us[0]);
      UnitsTell(us[1..]);
      TellsThen([], UnitWires(us[0]), UnitMessages(us[0]), UnitSignals(us[0]), [],
                UnitsWires(us[1..]), UnitsMessages(us[1..]), UnitsSignals(us[1..]), []);
    }
  }

  // Decoding a legal stream: the text and binary messages, each the concatenation of its unmasked
  // fragments, and the ping and pong frames, each in order; nothing is left over or in progress.
  lemma DecodeLegal(us: seq<Unit>)
    requires forall k :: 0 <= k < |us| ==> LegalUnit(us[k])
    ensures var d := Decode([], WiresBytes(UnitsWires(us)));
            && Messages(d.events) == UnitsMessages(us) && Signals(d.events) == UnitsSignals(us) && NoStray(d.events)
            && d.acc == [] && d.rest == []
  {
    UnitsTell(us);
    LegalUnitsWires(us);
    var ws := UnitsWires(us);
    DecodeWires([], ws, []);
    assert WiresBytes(ws) + [] == WiresBytes(ws);
    var o := HandleAll([], ws, 0);
    assert Front([]) == 0 && TellsThese(o, UnitsMessages(us), UnitsSignals(us), []);
    assert Decode(o.acc, []) == Stream([], o.acc, []);
    assert o.events + [] == o.events;
  }

  lemma {:induction false} LegalUnitsWires(us: seq<Unit>)
    requires forall k :: 0 <= k < |us| ==> LegalUnit(us[k])
    ensures LegalWires(UnitsWires(us))
    decreases |us|
  {
    if us != [] {
      assert LegalUnit(us[0]);
      match us[0] {
        case Lone(s) => LegalSignalWires([s]);
        case Data(_, _, more) => LegalPartWires(more);
      }
      LegalUnitsWires(us[1..]);
    }
  }

  lemma {:induction false} LegalPartWires(parts: seq<Part>)
    requires forall k :: 0 <= k < |parts| ==> LegalPart(parts[k])
    ensures LegalWires(PartWires(parts))
    decreases |parts|
  {
    if parts != [] {
      assert LegalPart(parts[0]);
      LegalSignalWires(parts[0].signals);
      LegalPartWires(parts[1..]);
    }
  }

  lemma {:induction false} LegalSignalWires(ss: seq<Signal>)
    requires forall k :: 0 <= k < |ss| ==> LegalSignal(ss[k])
    ensures LegalWires(SignalWires(ss))
    decreases |ss|
  {
    if ss != [] {
      assert LegalSignal(ss[0]);
      LegalSignalWires(ss[1..]);
    }
  }
}
