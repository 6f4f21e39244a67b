/** WebSocket frames (section 5.2 of RFC 6455): mkhdr and mg_ws_mask build them, ws_process takes
    one from the front of a buffer and unmasks its payload in place. */
module WsFrame {
  import opened Bytes
  import opened IoBuf

  const GIB := 1024 * 1024 * 1024

  datatype Option<T> = None | Some(value: T)
  type Mask = s: seq<byte> | |s| == 4 witness [0, 0, 0, 0]

  // struct ws_msg, without the flags byte, which is the first byte of the frame.
  datatype Lengths = Lengths(header: nat, data: nat)

  function MaskLen(s: seq<byte>): nat
    requires |s| >= 2
  {
    if s[1] >= 128 then 4 else 0
  }

  // The lengths ws_process reads off the front of s; both 0 while the header is not all there.
  function Measure(s: seq<byte>): Lengths {
    if |s| < 2 then Lengths(0, 0) else
    var n := s[1] % 128;
    var m := MaskLen(s);
    if n < 126 && |s| >= m then Lengths(2 + m, n)
    else if n == 126 && |s| >= 4 + m then Lengths(4 + m, BigEndian(s[2..4]))
    else if |s| >= 10 + m then Lengths(10 + m, BigEndian(s[2..10]))
    else Lengths(0, 0)
  }

  // What ws_process takes from the front of s; None when it returns 0.
  function Parse(s: seq<byte>): (r: Option<Lengths>)
    ensures r.Some? ==> 2 <= r.value.header && r.value.header + r.value.data <= |s|
    ensures r.Some? ==> MaskLen(s) <= r.value.header - 2
  {
    var l := Measure(s);
    if l.header == 0 || l.data > GIB || l.header + l.data > |s| then None else Some(l)
  }

  function XorMask(data: seq<byte>, mask: Mask): (r: seq<byte>)
    ensures |r| == |data|
  {
    seq(|data|, i requires 0 <= i < |data| => Xor(data[i], mask[i % 4]))
  }

  // Byte i of the data meets byte i mod 4 of the mask, bit for bit.
  lemma MaskedByte(data: seq<byte>, mask: Mask, i: nat, k: nat)
    requires i < |data| && k < 8
    ensures Bit(XorMask(data, mask)[i], k) == 1 <==> Bit(data[i], k) != Bit(mask[i % 4], k)
  {
    XorIs(data[i], mask[i % 4], k);
  }

  lemma XorMaskTwice(data: seq<byte>, mask: Mask)
    ensures XorMask(XorMask(data, mask), mask) == data
  {
    forall i | 0 <= i < |data| ensures XorMask(XorMask(data, mask), mask)[i] == data[i] {
      XorTwice(data[i], mask[i % 4]);
    }
  }

  // The payload of the frame at the front of s.
  function Payload(s: seq<byte>): (r: seq<byte>)
    requires Parse(s).Some?
    ensures |r| == Parse(s).value.data
  {
    var Lengths(h, n) := Parse(s).value;
    if s[1] >= 128 then XorMask(s[h..h + n], s[h - 4..h]) else s[h..h + n]
  }

  lemma MeasureStable(s: seq<byte>, t: seq<byte>)
    requires Measure(s).header > 0
    ensures Measure(s + t) == Measure(s) && |s| >= 2 && MaskLen(s + t) == MaskLen(s)
  {
    hide BigEndian;
    var u := s + t;
    assert u[1] == s[1];
    if |s| >= 4 { assert u[2..4] == s[2..4]; }
    if |s| >= 10 { assert u[2..10] == s[2..10]; }
  }

  // A frame once complete stays the same however much follows it.
  lemma ParseStable(s: seq<byte>, t: seq<byte>)
    requires Parse(s).Some?
    ensures Parse(s + t) == Parse(s) && Payload(s + t) == Payload(s)
  {
    MeasureStable(s, t);
    var Lengths(h, n) := Parse(s).value;
    var u := s + t;
    hide Measure, XorMask;
    assert u[h..h + n] == s[h..h + n];
    assert MaskLen(s) == 4 ==> u[h - 4..h] == s[h - 4..h];
  }

  /// Building frames.

  // The length field: one byte, or a marker and two or eight more.
  function LengthField(n: nat): seq<byte> {
    if n < 126 then [n] else if n < 65536 then [126] + BigEndianBytes(n, 2) else [127] + BigEndianBytes(n, 8)
  }

  function WithMaskFlag(field: seq<byte>): seq<byte>
    requires field != []
  {
    field[0 := if field[0] < 128 then field[0] + 128 else field[0]]
  }

  // The header for a payload of n bytes, and the whole frame.
  function Header(flags: byte, n: nat, mask: Option<Mask>): seq<byte> {
    match mask
    case None => [flags] + LengthField(n)
    case Some(m) => [flags] + WithMaskFlag(LengthField(n)) + m
  }

  function Frame(flags: byte, payload: seq<byte>, mask: Option<Mask>): seq<byte> {
    Header(flags, |payload|, mask) + if mask.Some? then XorMask(payload, mask.value) else payload
  }

  lemma Marked(a: byte, tail: seq<byte>)
    requires a < 128
    ensures WithMaskFlag([a] + tail) == [a + 128] + tail
  {
  }

  lemma FieldIs(n: nat, a: byte, tail: seq<byte>)
    requires a == if n < 126 then n else if n < 65536 then 126 else 127
    requires tail == if n < 126 then [] else if n < 65536 then BigEndianBytes(n, 2) else BigEndianBytes(n, 8)
    ensures LengthField(n) == [a] + tail
  {
    hide BigEndianBytes;
  }

  lemma TwoAhead(x: byte, y: byte, tail: seq<byte>, m: seq<byte>)
    ensures [x] + ([y] + tail) + m == [x, y] + tail + m
    ensures m == [] ==> [x] + ([y] + tail) == [x, y] + tail + m
  {
    assert [x] + ([y] + tail) == [x, y] + tail;
  }

  lemma HeaderShape(flags: byte, n: nat, mask: Option<Mask>)
    ensures var marker: byte := (if n < 126 then n else if n < 65536 then 126 else 127) + (if mask.Some? then 128 else 0);
            var tail := if n < 126 then [] else if n < 65536 then BigEndianBytes(n, 2) else BigEndianBytes(n, 8);
            Header(flags, n, mask) == [flags, marker] + tail + (if mask.Some? then mask.value else [])
  {
    hide BigEndianBytes, WithMaskFlag;
    var a: byte := if n < 126 then n else if n < 65536 then 126 else 127;
    var tail: seq<byte> := if n < 126 then [] else if n < 65536 then BigEndianBytes(n, 2) else BigEndianBytes(n, 8);
    FieldIs(n, a, tail);
    match mask
    case None => TwoAhead(flags, a, tail, []);
    case Some(m) =>
      Marked(a, tail);
      TwoAhead(flags, a + 128, tail, m);
  }

  // The marker byte after the flags, and the bytes of a two- or eight-byte length behind it.
  lemma HeaderParts(flags: byte, n: nat, mask: Option<Mask>)
    ensures var s := Header(flags, n, mask); var m := if mask.Some? then 4 else 0;
            var field := if n < 126 then 0 else if n < 65536 then 2 else 8;
            && |s| == 2 + field + m && s[0] == flags
            && s[1] == (if n < 126 then n else if n < 65536 then 126 else 127) + (if mask.Some? then 128 else 0)
            && s[2..2 + field] == (if field == 0 then [] else BigEndianBytes(n, field))
            && (mask.Some? ==> s[2 + field..] == mask.value)
  {
    hide *;
    var tail := if n < 126 then [] else if n < 65536 then BigEndianBytes(n, 2) else BigEndianBytes(n, 8);
    var marker := (if n < 126 then n else if n < 65536 then 126 else 127) + (if mask.Some? then 128 else 0);
    HeaderShape(flags, n, mask);
    ConcatParts([flags, marker], tail, if mask.Some? then mask.value else []);
  }

  // What ws_process measures once the whole header, and perhaps more, has arrived.
  lemma MeasureHeader(flags: byte, n: nat, mask: Option<Mask>, rest: seq<byte>)
    requires n < TWO_64
    ensures Measure(Header(flags, n, mask) + rest) == Lengths(|Header(flags, n, mask)|, n)
  {
    var h := Header(flags, n, mask);
    var s := h + rest;
    HeaderParts(flags, n, mask);
    hide Header;
    assert s[1] == h[1];
    if n >= 126 {
      var field := if n < 65536 then 2 else 8;
      assert s[2..2 + field] == h[2..2 + field];
      assert Power256(2) == 65536 && Power256(8) == TWO_64;
      BigEndianRoundTrip(n, field);
    }
  }

  lemma FrameSplits(flags: byte, payload: seq<byte>, mask: Option<Mask>)
    requires |payload| < TWO_64
    ensures Frame(flags, payload, mask)
            == Header(flags, |payload|, mask) + (if mask.Some? then XorMask(payload, mask.value) else payload)
  {
  }

  // ws_process recovers any frame of up to 1 GiB exactly, whatever follows it ...
  lemma ParseFrame(flags: byte, payload: seq<byte>, mask: Option<Mask>, rest: seq<byte>)
    requires |payload| <= 0x4000_0000
    ensures var f := Frame(flags, payload, mask); var s := f + rest;
            && Parse(s) == Some(Lengths(|Header(flags, |payload|, mask)|, |payload|))
            && s[0] == flags && Payload(s) == payload
            && |f| == |Header(flags, |payload|, mask)| + |payload| && s[|f|..] == rest
  {
    hide Header, Measure, Frame, XorMask;
    var h := Header(flags, |payload|, mask);
    var body := if mask.Some? then XorMask(payload, mask.value) else payload;
    var s := Frame(flags, payload, mask) + rest;
    FrameSplits(flags, payload, mask);
    ConcatAssociates(h, body, rest);
    MeasureHeader(flags, |payload|, mask, body + rest);
    HeaderParts(flags, |payload|, mask);
    assert s[0] == h[0] && s[1] == h[1];
    assert s == h + body + rest;
    ConcatParts(h, body, rest);
    if mask.Some? {
      assert s[|h| - 4..|h|] == h[|h| - 4..];
      XorMaskTwice(payload, mask.value);
    }
  }

  // ... and refuses every strict prefix of it, and every frame that announces more than 1 GiB.
  lemma PrefixRefused(flags: byte, payload: seq<byte>, mask: Option<Mask>, k: nat)
    requires |payload| < TWO_64 && k < |Frame(flags, payload, mask)|
    ensures Parse(Frame(flags, payload, mask)[..k]) == None
  {
    hide Frame, XorMask, Header, Measure, BigEndianBytes;
    var h := Header(flags, |payload|, mask);
    var f := Frame(flags, payload, mask);
    var body := if mask.Some? then XorMask(payload, mask.value) else payload;
    FrameSplits(flags, payload, mask);
    HeaderParts(flags, |payload|, mask);
    if k >= |h| {
      var part := body[..k - |h|];
      assert f[..k] == h + part;
      MeasureHeader(flags, |payload|, mask, part);
    } else if k >= 2 {
      assert f[..k][1] == h[1];
      PartialHeader(h, |payload|, mask, f[..k]);
    } else {
      TooShort(f[..k]);
    }
  }

  lemma TooShort(s: seq<byte>)
    requires |s| < 2
    ensures Parse(s) == None
  {
  }

  lemma PartialHeader(h: seq<byte>, n: nat, mask: Option<Mask>, s: seq<byte>)
    requires |h| == (if n < 126 then 2 else if n < 65536 then 4 else 10) + (if mask.Some? then 4 else 0)
    requires 2 <= |s| < |h| && s[1] == h[1]
    requires h[1] == (if n < 126 then n else if n < 65536 then 126 else 127) + (if mask.Some? then 128 else 0)
    ensures Parse(s) == None
  {
    hide BigEndian;
  }

  lemma OversizeRefused(flags: byte, payload: seq<byte>, mask: Option<Mask>, rest: seq<byte>)
    requires 0x4000_0000 < |payload| < TWO_64
    ensures Parse(Frame(flags, payload, mask) + rest) == None
  {
    var h := Header(flags, |payload|, mask);
    var body := if mask.Some? then XorMask(payload, mask.value) else payload;
    assert Frame(flags, payload, mask) + rest == h + (body + rest);
    MeasureHeader(flags, |payload|, mask, body + rest);
  }

  /// Frames of section 5.7 of RFC 6455.

  const HELLO: seq<byte> := [0x48, 0x65, 0x6c, 0x6c, 0x6f]

  lemma HelloPlain(rest: seq<byte>)
    ensures var s := [0x81, 0x05] + HELLO + rest; Parse(s) == Some(Lengths(2, 5)) && Payload(s) == HELLO
    ensures Frame(0x81, HELLO, None) == [0x81, 0x05] + HELLO
  {
    var s := [0x81, 0x05] + HELLO + rest;
    assert s[1] == 5 && s[2..7] == HELLO;
  }

  lemma HelloMasked(rest: seq<byte>)
    ensures var s := [0x81, 0x85, 0x37, 0xfa, 0x21, 0x3d, 0x7f, 0x9f, 0x4d, 0x51, 0x58] + rest;
            Parse(s) == Some(Lengths(6, 5)) && Payload(s) == HELLO
  {
    hide XorMask;
    var mask: Mask := [0x37, 0xfa, 0x21, 0x3d];
    var data: seq<byte> := [0x7f, 0x9f, 0x4d, 0x51, 0x58];
    var s := [0x81, 0x85] + mask + data + rest;
    assert s[1] == 0x85 && s[2..6] == mask && s[6..11] == data;
    assert [0x81, 0x85, 0x37, 0xfa, 0x21, 0x3d, 0x7f, 0x9f, 0x4d, 0x51, 0x58] + rest == s;
    HelloUnmasked();
  }

  lemma HelloUnmasked()
    ensures XorMask([0x7f, 0x9f, 0x4d, 0x51, 0x58], [0x37, 0xfa, 0x21, 0x3d]) == HELLO
  {
    hide Xor;
    XorByte(0x7f, 0x37, 0x48);
    XorByte(0x9f, 0xfa, 0x65);
    XorByte(0x4d, 0x21, 0x6c);
    XorByte(0x51, 0x3d, 0x6c);
    XorByte(0x58, 0x37, 0x6f);
  }

  lemma XorByte(a: byte, b: byte, c: byte)
    requires c % 16 == (a + b) % 2 + 2 * ((a / 2 + b / 2) % 2) + 4 * ((a / 4 + b / 4) % 2) + 8 * ((a / 8 + b / 8) % 2)
    requires var x, y := a / 16, b / 16;
             c / 16 == (x + y) % 2 + 2 * ((x / 2 + y / 2) % 2) + 4 * ((x / 4 + y / 4) % 2) + 8 * ((x / 8 + y / 8) % 2)
    ensures Xor(a, b) == c
  {
    hide XorBits, Xor;
    XorOf(a, b);
    XorFour(a, b, 4);
    XorFour(a / 16, b / 16, 0);
  }

  lemma XorOf(a: byte, b: byte)
    ensures Xor(a, b) == XorBits(a, b, 8) && forall x: nat, y: nat :: XorBits(x, y, 0) == 0
  {
  }

  // Lengths of two and eight bytes, in network order.
  lemma LongHeaders(flags: byte, rest: seq<byte>)
    ensures Measure([flags, 0x7e, 0x01, 0x00] + rest) == Lengths(4, 256)
    ensures Measure([flags, 0x7f, 0, 0, 0, 0, 0, 1, 0, 0] + rest) == Lengths(10, 65536)
    ensures Header(flags, 256, None) == [flags, 0x7e, 0x01, 0x00]
    ensures Header(flags, 65536, None) == [flags, 0x7f, 0, 0, 0, 0, 0, 1, 0, 0]
  {
    hide BigEndian, BigEndianBytes;
    var a, b := [flags, 0x7e, 0x01, 0x00] + rest, [flags, 0x7f, 0, 0, 0, 0, 0, 1, 0, 0] + rest;
    assert a[2..4] == [1, 0] && b[2..10] == [0, 0, 0, 0, 0, 1, 0, 0];
    BigEndianFour([1, 0, 0, 0]);
    assert [1 as byte, 0, 0, 0][..2] == [1, 0];
    var e: seq<byte> := [0, 0, 0, 0, 0, 1, 0, 0];
    BigEndianEight(e);
    assert e[..4] == [0, 0, 0, 0] && e[4..] == [0, 1, 0, 0];
    BigEndianFour([0, 0, 0, 0]);
    BigEndianFour([0, 1, 0, 0]);
    LongBytes();
  }

  lemma LongBytes()
    ensures BigEndianBytes(256, 2) == [1, 0] && BigEndianBytes(65536, 8) == [0, 0, 0, 0, 0, 1, 0, 0]
  {
    assert BigEndianBytes(1, 1) == [1];
    assert BigEndianBytes(0, 0) == [] && BigEndianBytes(0, 1) == [0] && BigEndianBytes(0, 2) == [0, 0];
    assert BigEndianBytes(0, 3) == [0, 0, 0] && BigEndianBytes(0, 4) == [0, 0, 0, 0];
    assert BigEndianBytes(0, 5) == [0, 0, 0, 0, 0] && BigEndianBytes(1, 6) == [0, 0, 0, 0, 0, 1];
    assert BigEndianBytes(256, 7) == [0, 0, 0, 0, 0, 1, 0];
  }
}
