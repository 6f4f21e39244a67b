/** JSON string escapes (section 7 of RFC 8259): qcpy writes them, mg_pass_string finds where they
    end, and mg_json_unescape undoes them. */
module JsonString {
  import opened Bytes
  import opened JsonScan
  import JsonDoc
  import JsonLookup
  import HttpChunk

  datatype Option<T> = None | Some(value: T)

  // The letter that stands for c behind a backslash, if c needs one: mg_escape.
  function Letter(c: char): Option<char> {
    if c == '\U{8}' then Some('b') else if c == '\U{C}' then Some('f') else if c == '\n' then Some('n')
    else if c == '\r' then Some('r') else if c == '\t' then Some('t')
    else if c == '\\' || c == '"' then Some(c) else None
  }

  // json_esc(c, 0)
  function Unletter(c: char): Option<char> {
    if c == 'b' then Some('\U{8}') else if c == 'f' then Some('\U{C}') else if c == 'n' then Some('\n')
    else if c == 'r' then Some('\r') else if c == 't' then Some('\t')
    else if c == '\\' || c == '"' then Some(c) else None
  }

  function EscapeChar(c: char): string {
    match Letter(c) case Some(l) => ['\\', l] case None => [c]
  }

  // What qcpy emits for the characters of s before its first zero byte.
  function Escape(s: string): string {
    if s == "" || s[0] == '\0' then "" else EscapeChar(s[0]) + Escape(s[1..])
  }

  // The byte a pair of hex digits stands for.
  function HexPair(a: char, b: char): char {
    (HttpChunk.Unhex([a as int % 256, b as int % 256]) % 256) as char
  }

  // mg_json_unescape with room for any result; None when it gives up.
  function Unescape(s: string): Option<string> {
    if s == "" then Some("")
    else if s[0] == '\\' && |s| > 5 && s[1] == 'u' then
      if s[2] != '0' || s[3] != '0' then None else Before(HexPair(s[4], s[5]), Unescape(s[6..]))
    else if s[0] == '\\' && |s| > 1 then
      match Unletter(s[1]) case None => None case Some(c) => Before(c, Unescape(s[2..]))
    else Before(s[0], Unescape(s[1..]))
  }

  function Before(c: char, rest: Option<string>): Option<string> {
    match rest case None => None case Some(t) => Some([c] + t)
  }

  // Escaped text can stand between quotes: a scan from behind the opening quote stops exactly at
  // the closing one, and unescaping gives the original back.
  lemma {:induction false} EscapeRoundTrip(s: string)
    requires '\0' !in s
    ensures JsonDoc.GoodRaw(Escape(s)) && Unescape(Escape(s)) == Some(s)
    decreases |s|
  {
    if s != "" {
      assert s[0] in s;
      EscapeRoundTrip(s[1..]);
      assert [s[0]] + s[1..] == s;
      EscapedFirst(s[0], Escape(s[1..]));
    }
  }

  lemma EscapedFirst(c: char, rest: string)
    requires c != '\0' && JsonDoc.GoodRaw(rest)
    ensures JsonDoc.GoodRaw(EscapeChar(c) + rest) && Unescape(EscapeChar(c) + rest) == Before(c, Unescape(rest))
  {
    hide HexPair;
    var e := EscapeChar(c) + rest;
    match Letter(c)
    case Some(l) => assert e[0] == '\\' && e[1] == l && e[2..] == rest;
    case None => assert e[0] == c && e[1..] == rest;
  }

  lemma EscapeScans(s: string, tail: string)
    requires '\0' !in s
    ensures PassString(Escape(s) + "\"" + tail) == |Escape(s)|
  {
    EscapeRoundTrip(s);
    JsonLookup.PassRaw(Escape(s), tail);
  }

  /// The escapes themselves.

  const PLAIN: string := "\U{8}\U{C}\n\r\t\\\""
  const LETTERS: string := "bfnrt\\\""

  // The k-th of these characters is written as a backslash and the k-th letter and read back from it, no
  // other is escaped, and no other letter may stand behind a backslash.
  lemma Escapes(c: char, t: string)
    ensures forall k :: 0 <= k < 7 && c == PLAIN[k] ==>
              EscapeChar(c) == ['\\', LETTERS[k]] && Unescape(['\\', LETTERS[k]] + t) == Before(c, Unescape(t))
    ensures c !in PLAIN ==> EscapeChar(c) == [c]
    ensures c !in LETTERS && c != 'u' ==> Unescape(['\\', c] + t) == None
    ensures c != '\\' ==> Unescape([c] + t) == Before(c, Unescape(t))
  {
    hide Unescape, Unletter, Letter;
    Paired(c);
    if c != '\\' { Plainly(c, t); }
    forall k | 0 <= k < 7 && c == PLAIN[k]
      ensures Unescape(['\\', LETTERS[k]] + t) == Before(c, Unescape(t))
    {
      Behind(LETTERS[k], t);
    }
    if c != 'u' { Behind(c, t); }
  }

  lemma Paired(c: char)
    ensures forall k :: 0 <= k < 7 && c == PLAIN[k] ==>
              Letter(c) == Some(LETTERS[k]) && Unletter(LETTERS[k]) == Some(c) && LETTERS[k] != 'u'
    ensures c !in PLAIN ==> Letter(c) == None
    ensures c !in LETTERS ==> Unletter(c) == None
  {
  }

  lemma Behind(l: char, t: string)
    requires l != 'u'
    ensures Unescape(['\\', l] + t) == match Unletter(l) case None => None case Some(c) => Before(c, Unescape(t))
  {
    hide Unletter, HexPair;
    var s := ['\\', l] + t;
    assert s[0] == '\\' && s[1] == l && s[2..] == t;
  }

  lemma Plainly(c: char, t: string)
    requires c != '\\'
    ensures Unescape([c] + t) == Before(c, Unescape(t))
  {
    hide Unletter, HexPair;
    assert ([c] + t)[0] == c && ([c] + t)[1..] == t;
  }

  // A byte in hexadecimal, in digits of either case; no other code is taken.
  lemma UnicodeEscape(p: char, q: char, a: char, b: char, t: string, n: nat)
    requires HttpChunk.Sizes([a as int % 256, b as int % 256], n) && n < 256
    ensures Unescape("\\u" + [p, q, a, b] + t) == if p == '0' && q == '0' then Before(n as char, Unescape(t)) else None
  {
    hide HexPair, Unletter;
    var s := "\\u" + [p, q, a, b] + t;
    PairIs(a, b, n);
    assert s[0] == '\\' && s[1] == 'u' && s[2] == p && s[3] == q && s[4] == a && s[5] == b && s[6..] == t;
  }

  lemma PairIs(a: char, b: char, n: nat)
    requires HttpChunk.Sizes([a as int % 256, b as int % 256], n) && n < 256
    ensures HexPair(a, b) == n as char
  {
    hide HttpChunk.Unhex, HttpChunk.Sizes;
    HttpChunk.UnhexSize([a as int % 256, b as int % 256], n);
  }

  // qcpy: what it emits, and how many characters that is.
  method QuoteCopy(buf: string) returns (out: string, n: nat)
    ensures out == Escape(buf) && n == |out|
  {
    out := "";
    var i, extra := 0, 0;
    assert out + Escape(buf[i..]) == Escape(buf);
    while i < |buf| && buf[i] != '\0'
      invariant 0 <= i <= |buf| && Escape(buf) == out + Escape(buf[i..]) && |out| == i + extra
    {
      ghost var was := out;
      assert buf[i..][1..] == buf[i + 1..];
      ConcatAssociates(was, EscapeChar(buf[i]), Escape(buf[i + 1..]));
      match Letter(buf[i]) {
        case Some(l) =>
          out, extra := out + ['\\', l], extra + 1;
        case None =>
          out := out + [buf[i]];
      }
      assert out == was + EscapeChar(buf[i]);
      i := i + 1;
    }
    n := i + extra;
  }

  // mg_json_unescape into a buffer of to.Length bytes: succeeds exactly when every escape is one it
  // knows and the result fits with its terminating zero.
  method UnescapeInto(s: string, to: array<char>) returns (ok: bool)
    modifies to
    ensures ok <==> Unescape(s).Some? && |Unescape(s).value| < to.Length
    ensures ok ==> var t := Unescape(s).value; to[..|t|] == t && to[|t|] == '\0'
  {
    hide HexPair;
    var n := to.Length;
    var i, j := 0, 0;
    assert s[0..] == s && forall t: string :: to[..0] + t == t;
    while i < |s| && j < n
      invariant 0 <= i <= |s| && 0 <= j <= n
      invariant Unescape(s) == Joined(to[..j], Unescape(s[i..]))
    {
      ghost var rest, done := s[i..], to[..j];
      var c: char, used := s[i], 1;
      if s[i] == '\\' && i + 5 < |s| && s[i + 1] == 'u' {
        if s[i + 2] != '0' || s[i + 3] != '0' { return false; }
        c, used := HexPair(s[i + 4], s[i + 5]), 6;
      } else if s[i] == '\\' && i + 1 < |s| {
        if Unletter(s[i + 1]).None? { return false; }
        c, used := Unletter(s[i + 1]).value, 2;
      }
      assert rest[used..] == s[i + used..];
      assert Unescape(rest) == Before(c, Unescape(s[i + used..]));
      to[j] := c;
      assert to[..j + 1] == done + [c];
      JoinedBefore(done, c, Unescape(s[i + used..]));
      i, j := i + used, j + 1;
    }
    if j >= n {
      JoinedLength(to[..j], Unescape(s[i..]));
      return false;
    }
    assert s[i..] == "";
    to[j] := '\0';
    return true;
  }

  function Joined(done: string, rest: Option<string>): Option<string> {
    match rest case None => None case Some(t) => Some(done + t)
  }

  lemma JoinedBefore(done: string, c: char, rest: Option<string>)
    ensures Joined(done, Before(c, rest)) == Joined(done + [c], rest)
  {
    if rest.Some? { assert done + ([c] + rest.value) == done + [c] + rest.value; }
  }

  lemma JoinedLength(done: string, rest: Option<string>)
    ensures Joined(done, rest).Some? ==> |Joined(done, rest).value| >= |done|
  {
  }

  // For every string without a zero byte: what was quoted and copied comes back.
  method QuoteAndBack(s: string, to: array<char>) returns (ok: bool)
    requires '\0' !in s && |s| < to.Length
    modifies to
    ensures ok && to[..|s|] == s && to[|s|] == '\0'
  {
    EscapeRoundTrip(s);
    var out, _ := QuoteCopy(s);
    ok := UnescapeInto(out, to);
  }
}
