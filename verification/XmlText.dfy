/** XML character data: the printer's escapes, the scan to an end tag, and decoding a string inside
    its own buffer. Strings end before their first zero byte. */
module XmlText {
  import opened Bytes

  datatype Option<T> = None | Some(value: T)

  datatype Flags = Flags(entities: bool, newlines: bool)

  // What a pointer to place k reads; behind the end there is a zero byte.
  function At(s: string, k: nat): char {
    if k < |s| then s[k] else '\0'
  }

  // strncmp of a pattern without zero bytes
  predicate Starts(s: string, k: nat, pattern: string) {
    k + |pattern| <= |s| && s[k..k + |pattern|] == pattern
  }

  /// The five entities.

  function Pattern(c: char): Option<string> {
    if c == '"' then Some("quot") else if c == '&' then Some("amp") else if c == '\'' then Some("apos")
    else if c == '<' then Some("lt") else if c == '>' then Some("gt") else None
  }

  const ENTITIES: string := ['"', '&', '\'', '<', '>']

  // The first entity in the table whose pattern and semicolon stand behind the ampersand at i.
  function Entity(s: string, i: nat, k: nat): Option<char>
    requires k <= |ENTITIES|
    decreases |ENTITIES| - k
  {
    if k == |ENTITIES| then None else
      var p := Pattern(ENTITIES[k]).value;
      if Starts(s, i + 1, p) && At(s, i + 1 + |p|) == ';' then Some(ENTITIES[k]) else Entity(s, i, k + 1)
  }

  /// Numeric references.

  // ConvertUTF32ToUTF8
  function Utf8(u: nat): (r: string)
    ensures |r| <= 4 && (u < 0x80 ==> |r| == 1)
  {
    if u < 0x80 then [Byte(u)]
    else if u < 0x800 then [Byte(0xC0 + u / 0x40), Byte(0x80 + u % 0x40)]
    else if u < 0x1_0000 then [Byte(0xE0 + u / 0x1000), Byte(0x80 + u / 0x40 % 0x40), Byte(0x80 + u % 0x40)]
    else if u < 0x20_0000 then
      [Byte(0xF0 + u / 0x4_0000), Byte(0x80 + u / 0x1000 % 0x40), Byte(0x80 + u / 0x40 % 0x40), Byte(0x80 + u % 0x40)]
    else ""
  }

  function Byte(x: nat): char {
    (x % 256) as char
  }

  function Digit(c: char, base: nat): Option<nat> {
    if '0' <= c <= '9' then Some(c as int - '0' as int)
    else if base == 16 && 'a' <= c <= 'f' then Some(c as int - 'a' as int + 10)
    else if base == 16 && 'A' <= c <= 'F' then Some(c as int - 'A' as int + 10)
    else None
  }

  // Digits from q backwards to the nearest stop, the low ones first, in 32-bit unsigned arithmetic.
  function ReadBack(s: string, q: nat, stop: char, base: nat, mult: nat, ucs: nat, ghost lo: nat): Option<nat>
    requires lo <= q < |s| && s[lo] == stop
    decreases q
  {
    if s[q] == stop then Some(ucs) else
      match Digit(s[q], base)
      case None => None
      case Some(d) =>
        ReadBack(s, q - 1, stop, base, mult * base % TWO_32, Wrap64(ucs + mult * d % TWO_32), lo)
  }

  // strchr for a semicolon
  function Semicolon(s: string, k: nat): (r: Option<nat>)
    ensures r.Some? ==> k <= r.value < |s| && s[r.value] == ';'
    decreases |s| - k
  {
    if At(s, k) == '\0' then None else if s[k] == ';' then Some(k) else Semicolon(s, k + 1)
  }

  // GetCharacterRef, for the ampersand at i before a '#': where to go on, and what to write.
  function CharacterRef(s: string, i: nat): (r: Option<(nat, string)>)
    requires i < |s| && At(s, i + 1) == '#'
    ensures r.Some? ==> i < r.value.0 <= |s| && i + |r.value.1| <= r.value.0
  {
    if At(s, i + 2) == '\0' then Some((i + 1, ""))
    else
      var hex := s[i + 2] == 'x';
      var from := if hex then i + 3 else i + 2;
      if At(s, from) == '\0' then None else
        match Semicolon(s, from)
        case None => None
        case Some(semi) =>
          match ReadBack(s, semi - 1, if hex then 'x' else '#', if hex then 16 else 10, 1, 0, from - 1)
          case None => None
          case Some(ucs) => Some((semi + 1, Utf8(ucs)))
  }

  /// Decoding.

  // Where the read pointer goes, and what is written; None skips a character of the output unwritten.
  datatype Move = Move(next: nat, emit: Option<string>)

  function Step(s: string, f: Flags, i: nat): (m: Move)
    requires i < |s|
    ensures i < m.next <= |s|
    ensures i + (match m.emit case None => 1 case Some(e) => |e|) <= m.next
  {
    if f.newlines && s[i] == '\r' then Move(if At(s, i + 1) == '\n' then i + 2 else i + 1, Some("\n"))
    else if f.newlines && s[i] == '\n' then Move(if At(s, i + 1) == '\r' then i + 2 else i + 1, Some("\n"))
    else if f.entities && s[i] == '&' then
      if At(s, i + 1) == '#' then
        match CharacterRef(s, i)
        case None => Move(i + 1, Some(['&']))
        case Some(r) => Move(r.0, Some(r.1))
      else
        match Entity(s, i, 0)
        case None => Move(i + 1, None)
        case Some(c) => Move(i + |Pattern(c).value| + 2, Some([c]))
    else Move(i + 1, Some([s[i]]))
  }

  // The string decoded so far is at most as long as what has been read, so a skipped character still
  // is what stood there before.
  function Decoded(s: string, f: Flags, i: nat, out: string): string
    requires |out| <= i <= |s|
    decreases |s| - i
  {
    if i == |s| then out else
      var m := Step(s, f, i);
      Decoded(s, f, m.next, out + match m.emit case None => [s[|out|]] case Some(e) => e)
  }

  function Decode(s: string, f: Flags): string {
    Decoded(s, f, 0, "")
  }

  lemma {:induction false} DecodedKeeps(s: string, f: Flags, i: nat, out: string)
    requires |out| <= i <= |s|
    ensures var r := Decoded(s, f, i, out); |out| <= |r| <= |s| && r[..|out|] == out
    decreases |s| - i
  {
    if i < |s| {
      var m := Step(s, f, i);
      hide Step;
      var e := match m.emit case None => [s[|out|]] case Some(e) => e;
      DecodedKeeps(s, f, m.next, out + e);
      assert Decoded(s, f, m.next, out + e)[..|out + e|][..|out|] == out;
    }
  }

  // Decoding never makes a string longer.
  lemma DecodeShrinks(s: string, f: Flags)
    ensures |Decode(s, f)| <= |s|
  {
    DecodedKeeps(s, f, 0, "");
  }

  /// Escaping.

  // Attribute values need all five entities, text all but the quotes.
  predicate Special(c: char, attribute: bool) {
    c == '&' || c == '<' || c == '>' || (attribute && (c == '"' || c == '\''))
  }

  function EscapeChar(c: char, attribute: bool): (r: string)
    ensures r != ""
  {
    if Special(c, attribute) then ['&'] + Pattern(c).value + [';'] else [c]
  }

  // PrintString
  function Escape(s: string, attribute: bool): string {
    if s == "" then "" else EscapeChar(s[0], attribute) + Escape(s[1..], attribute)
  }

  // Section 2.11 of XML, and a line feed before a carriage return too: one line feed each.
  function Newlines(s: string): string {
    if s == "" then ""
    else if s[0] == '\r' then ['\n'] + Newlines(if At(s, 1) == '\n' then s[2..] else s[1..])
    else if s[0] == '\n' then ['\n'] + Newlines(if At(s, 1) == '\r' then s[2..] else s[1..])
    else [s[0]] + Newlines(s[1..])
  }

  lemma {:induction false} NoReturns(s: string)
    ensures '\r' !in s ==> Newlines(s) == s
    decreases |s|
  {
    if s != "" && '\r' !in s {
      NoReturns(s[1..]);
      assert [s[0]] + s[1..] == s;
    }
  }

  lemma {:induction false} EscapeConcat(a: string, b: string, attribute: bool)
    ensures Escape(a + b, attribute) == Escape(a, attribute) + Escape(b, attribute)
    decreases |a|
  {
    if a == "" {
      assert a + b == b;
    } else {
      assert (a + b)[1..] == a[1..] + b;
      EscapeConcat(a[1..], b, attribute);
      ConcatAssociates(EscapeChar(a[0], attribute), Escape(a[1..], attribute), Escape(b, attribute));
    }
  }

  // No character that would end the text is left: of the escaped ones only ampersands appear.
  lemma {:induction false} EscapeHides(s: string, attribute: bool, c: char)
    requires Special(c, attribute) && c != '&'
    ensures c !in Escape(s, attribute)
    decreases |s|
  {
    if s != "" { EscapeHides(s[1..], attribute, c); }
  }

  lemma {:induction false} EscapeNoZero(s: string, attribute: bool)
    requires '\0' !in s
    ensures '\0' !in Escape(s, attribute)
    decreases |s|
  {
    if s != "" { EscapeNoZero(s[1..], attribute); }
  }

  // A line feed or carriage return comes first in the escaped string just when it does in the string.
  lemma FirstOfEscape(s: string, attribute: bool, c: char)
    requires c == '\r' || c == '\n'
    ensures At(Escape(s, attribute), 0) == c <==> At(s, 0) == c
  {
  }

  // What stands at i is what stands behind i.
  lemma Behind(s: string, i: nat, e: string)
    requires i <= |s| && s[i..] == e
    ensures |s| == i + |e| && (forall k: nat :: At(s, i + k) == At(e, k))
    ensures forall k: nat :: k <= |e| ==> s[i + k..] == e[k..]
  {
  }

  const BOTH := Flags(true, true)

  // Reading an escape gives the character.
  lemma StepOfSpecial(s: string, i: nat, c: char, rest: string)
    requires Pattern(c).Some? && i <= |s| && s[i..] == ['&'] + Pattern(c).value + [';'] + rest
    ensures Step(s, BOTH, i) == Move(i + |Pattern(c).value| + 2, Some([c])) && s[i + |Pattern(c).value| + 2..] == rest
  {
    var p := Pattern(c).value;
    var e := ['&'] + p + [';'] + rest;
    Behind(s, i, e);
    assert e[1..1 + |p|] == p && e[1 + |p|] == ';' && e[2 + |p|..] == rest;
    SliceOfTail(s, i, 1, 1 + |p|);
    EntityFound(s, i, c);
  }

  lemma EntityFound(s: string, i: nat, c: char)
    requires Pattern(c).Some? && Starts(s, i + 1, Pattern(c).value) && At(s, i + 1 + |Pattern(c).value|) == ';'
    ensures Entity(s, i, 0) == Some(c) && At(s, i + 1) != '#'
  {
    assert s[i + 1] == s[i + 1..i + 1 + |Pattern(c).value|][0];
    assert s[i + 2] == s[i + 1..i + 1 + |Pattern(c).value|][1];
  }

  // How many characters of the string the first character of its normal form stands for.
  function Used(u: string): (n: nat)
    requires u != ""
    ensures 1 <= n <= |u|
  {
    if (u[0] == '\r' && At(u, 1) == '\n') || (u[0] == '\n' && At(u, 1) == '\r') then 2 else 1
  }

  function Shown(u: string): char
    requires u != ""
  {
    if u[0] == '\r' then '\n' else u[0]
  }

  // One step of the decoder on escaped text.
  lemma StepOfEscape(s: string, i: nat, u: string, attribute: bool)
    requires u != "" && i <= |s| && s[i..] == Escape(u, attribute)
    ensures i < |s| && Step(s, BOTH, i).emit == Some([Shown(u)])
    ensures s[Step(s, BOTH, i).next..] == Escape(u[Used(u)..], attribute)
  {
    var c, e := u[0], Escape(u[1..], attribute);
    assert s[i..] == EscapeChar(c, attribute) + e;
    if Special(c, attribute) {
      StepOfSpecial(s, i, c, e);
    } else {
      Behind(s, i, [c] + e);
      FirstOfEscape(u[1..], attribute, '\n');
      FirstOfEscape(u[1..], attribute, '\r');
      assert ([c] + e)[1..] == e && s[i + 1..] == e;
      assert At(s, i + 1) == At([c] + e, 1) == At(e, 0) && At(u, 1) == At(u[1..], 0);
      if Used(u) == 2 {
        assert u[1..][1..] == u[2..];
        assert e == [u[1]] + Escape(u[2..], attribute);
        assert s[i + 2..] == e[1..] == Escape(u[2..], attribute);
      }
    }
  }

  // Decoding goes through an escaped string as through the string itself.
  lemma {:induction false} DecodeEscapeFrom(s: string, i: nat, out: string, u: string, attribute: bool)
    requires |out| <= i <= |s| && s[i..] == Escape(u, attribute)
    ensures Decoded(s, BOTH, i, out) == out + Newlines(u)
    decreases |u|
  {
    if u == "" {
      assert i == |s| && out + "" == out;
    } else {
      StepOfEscape(s, i, u, attribute);
      var m, c, rest := Step(s, BOTH, i), Shown(u), u[Used(u)..];
      assert Newlines(u) == [c] + Newlines(rest);
      hide Step, Escape, Newlines, Shown, Used;
      DecodeEscapeFrom(s, m.next, out + [c], rest, attribute);
      ConcatAssociates(out, [c], Newlines(rest));
    }
  }

  // Escaped and decoded, every string comes back with its line ends normalized; without a carriage
  // return, unchanged.
  lemma DecodeEscape(u: string, attribute: bool)
    ensures Decode(Escape(u, attribute), BOTH) == Newlines(u)
    ensures '\r' !in u ==> Decode(Escape(u, attribute), BOTH) == u
  {
    DecodeEscapeFrom(Escape(u, attribute), 0, "", u, attribute);
    NoReturns(u);
  }

  // The five entities (XML 1.0, section 4.6): in attributes all five are written, in text the quotes stay.
  lemma FiveEntities()
    ensures Escape("<>&\"'", true) == "&lt;&gt;&amp;&quot;&apos;" && Escape("<>&\"'", false) == "&lt;&gt;&amp;\"'"
    ensures Decode("&lt;&gt;&amp;&quot;&apos;", BOTH) == "<>&\"'"
    ensures forall c: char, attribute: bool :: c !in "<>&\"'" ==> EscapeChar(c, attribute) == [c]
  {
    var s := "<>&\"'";
    EntityTexts();
    EscapeFive(true);
    EscapeFive(false);
    hide Escape, Decode, EscapeChar;
    assert "&lt;" + ("&gt;" + ("&amp;" + ("&quot;" + ("&apos;" + "")))) == "&lt;&gt;&amp;&quot;&apos;";
    assert "&lt;" + ("&gt;" + ("&amp;" + ("\"" + ("'" + "")))) == "&lt;&gt;&amp;\"'";
    DecodeEscape(s, true);
  }

  lemma EntityTexts()
    ensures forall c: char, attribute: bool :: c !in "<>&\"'" ==> EscapeChar(c, attribute) == [c]
    ensures forall a :: EscapeChar('<', a) == "&lt;" && EscapeChar('>', a) == "&gt;" && EscapeChar('&', a) == "&amp;"
    ensures EscapeChar('"', true) == "&quot;" && EscapeChar('\'', true) == "&apos;"
    ensures EscapeChar('"', false) == "\"" && EscapeChar('\'', false) == "'"
  {
  }

  lemma EscapeFive(a: bool)
    ensures Escape("<>&\"'", a)
            == EscapeChar('<', a) + (EscapeChar('>', a) + (EscapeChar('&', a) + (EscapeChar('"', a) + (EscapeChar('\'', a) + ""))))
  {
    hide EscapeChar;
    var s, s1, s2, s3, s4 := "<>&\"'", ">&\"'", "&\"'", "\"'", "'";
    assert s[1..] == s1 && s1[1..] == s2 && s2[1..] == s3 && s3[1..] == s4 && s4[1..] == "";
    assert Escape(s4, a) == EscapeChar('\'', a) + "" && Escape(s3, a) == EscapeChar('"', a) + Escape(s4, a);
    assert Escape(s2, a) == EscapeChar('&', a) + Escape(s3, a) && Escape(s1, a) == EscapeChar('>', a) + Escape(s2, a);
    assert Escape(s, a) == EscapeChar('<', a) + Escape(s1, a);
  }

  lemma {:induction false} NoReturnLeft(s: string)
    ensures '\r' !in Newlines(s)
    decreases |s|
  {
    if s != "" { NoReturnLeft(s[Used(s)..]); }
  }

  // Every line end becomes a line feed: two characters, in either order, are one line end.
  lemma LineEnds(t: string)
    requires t == "" || (t[0] != '\r' && t[0] != '\n')
    ensures Newlines("\r\n" + t) == Newlines("\n\r" + t) == Newlines("\r" + t) == Newlines("\n" + t) == "\n" + Newlines(t)
    ensures Newlines("\n\n" + t) == Newlines("\r\r" + t) == "\n" + ("\n" + Newlines(t))
  {
    assert ("\r" + t)[1..] == t && ("\n" + t)[1..] == t && ("\r\n" + t)[2..] == t && ("\n\r" + t)[2..] == t;
    assert ("\r\r" + t)[1..] == "\r" + t && ("\n\n" + t)[1..] == "\n" + t;
  }

  // Without flags nothing is decoded, and with the one for entities alone only ampersands are looked at.
  lemma {:induction false} NothingDecoded(s: string, f: Flags, i: nat)
    requires !f.newlines && (f.entities ==> '&' !in s) && i <= |s|
    ensures Decoded(s, f, i, s[..i]) == s
    decreases |s| - i
  {
    if i < |s| {
      assert s[..i] + [s[i]] == s[..i + 1] && s[i] in s;
      NothingDecoded(s, f, i + 1);
    } else {
      assert s[..i] == s;
    }
  }

  /// Ampersands that begin neither a reference nor one of the five entities.

  predicate Stray(s: string, f: Flags, i: nat) {
    i < |s| && f.entities && s[i] == '&' && At(s, i + 1) != '#' && Entity(s, i, 0) == None
  }

  // The same decoder writing such an ampersand instead of skipping a character of the output.
  function IntendedFrom(s: string, f: Flags, i: nat, out: string): string
    requires |out| <= i <= |s|
    decreases |s| - i
  {
    if i == |s| then out else
      var m := Step(s, f, i);
      IntendedFrom(s, f, m.next, out + match m.emit case None => "&" case Some(e) => e)
  }

  function Intended(s: string, f: Flags): string {
    IntendedFrom(s, f, 0, "")
  }

  function Width(m: Move): nat {
    match m.emit case None => 1 case Some(e) => |e|
  }

  // How far the output has got, from w at place `from`, when the decoder comes to place i, if it does.
  function PlaceFrom(s: string, f: Flags, from: nat, w: nat, i: nat): (r: Option<nat>)
    requires w <= from <= |s|
    ensures r.Some? ==> r.value <= i
    decreases |s| - from
  {
    if from == i then Some(w) else if from == |s| then None else
      var m := Step(s, f, from);
      PlaceFrom(s, f, m.next, w + Width(m), i)
  }

  function Place(s: string, f: Flags, i: nat): (r: Option<nat>)
    ensures r.Some? ==> r.value <= i
  {
    PlaceFrom(s, f, 0, 0, i)
  }

  // An ampersand stands wherever one of them would be written.
  predicate AmpersandsStandFrom(s: string, f: Flags, from: nat, w: nat)
    requires w <= from <= |s|
  {
    forall i :: from <= i < |s| ==> StandsAt(s, f, from, w, i)
  }

  predicate StandsAt(s: string, f: Flags, from: nat, w: nat, i: nat)
    requires w <= from <= |s|
  {
    var place := PlaceFrom(s, f, from, w, i);
    Stray(s, f, i) && place.Some? ==> s[place.value] == '&'
  }

  predicate AmpersandsStand(s: string, f: Flags) {
    AmpersandsStandFrom(s, f, 0, 0)
  }

  lemma SkippedIsStray(s: string, f: Flags, i: nat)
    requires i < |s|
    ensures Step(s, f, i).emit == None <==> Stray(s, f, i)
    ensures Stray(s, f, i) ==> Step(s, f, i).next == i + 1
  {
  }

  // One step of the condition.
  lemma StandStep(s: string, f: Flags, from: nat, w: nat)
    requires w <= from < |s|
    ensures var m := Step(s, f, from);
            AmpersandsStandFrom(s, f, from, w)
            <==> (m.emit == None ==> s[w] == '&') && AmpersandsStandFrom(s, f, m.next, w + Width(m))
  {
    hide Step, Stray, StandsAt;
    var m := Step(s, f, from);
    var on := w + Width(m);
    StandsAtStep(s, f, from, w, from);
    if AmpersandsStandFrom(s, f, from, w) {
      assert StandsAt(s, f, from, w, from);
      forall i | m.next <= i < |s|
        ensures StandsAt(s, f, m.next, on, i)
      {
        StandsAtStep(s, f, from, w, i);
        assert StandsAt(s, f, from, w, i);
      }
      assert AmpersandsStandFrom(s, f, m.next, on);
    } else {
      var i :| from <= i < |s| && !StandsAt(s, f, from, w, i);
      StandsAtStep(s, f, from, w, i);
    }
  }

  lemma StandsAtStep(s: string, f: Flags, from: nat, w: nat, i: nat)
    requires w <= from < |s|
    ensures var m := Step(s, f, from);
            && (i == from ==> (StandsAt(s, f, from, w, i) <==> (m.emit == None ==> s[w] == '&')))
            && (from < i < m.next ==> StandsAt(s, f, from, w, i))
            && (i >= m.next ==> StandsAt(s, f, from, w, i) == StandsAt(s, f, m.next, w + Width(m), i))
  {
    hide Step, Stray;
    SkippedIsStray(s, f, from);
    var m := Step(s, f, from);
    if i < m.next { NotBack(s, f, m.next, w + Width(m), i); }
  }

  lemma {:induction false} NotBack(s: string, f: Flags, from: nat, w: nat, i: nat)
    requires w <= from <= |s| && i < from
    ensures PlaceFrom(s, f, from, w, i) == None
    decreases |s| - from
  {
    if from < |s| {
      var m := Step(s, f, from);
      NotBack(s, f, m.next, w + Width(m), i);
    }
  }

  lemma {:induction false} UnknownEntityFrom(s: string, f: Flags, i: nat, a: string, b: string)
    requires |a| == |b| <= i <= |s|
    ensures Decoded(s, f, i, a) == IntendedFrom(s, f, i, b) <==> a == b && AmpersandsStandFrom(s, f, i, |a|)
    decreases |s| - i
  {
    hide Step, AmpersandsStandFrom;
    if i == |s| {
      NothingStands(s, f, |a|);
    } else {
      var m := Step(s, f, i);
      var x := match m.emit case None => [s[|a|]] case Some(e) => e;
      var y := match m.emit case None => "&" case Some(e) => e;
      UnknownEntityFrom(s, f, m.next, a + x, b + y);
      StandStep(s, f, i, |a|);
      SameEnds(a, b, x, y);
    }
  }

  lemma NothingStands(s: string, f: Flags, w: nat)
    requires w <= |s|
    ensures AmpersandsStandFrom(s, f, |s|, w)
  {
  }

  lemma SameEnds(a: string, b: string, x: string, y: string)
    requires |a| == |b| && |x| == |y|
    ensures a + x == b + y <==> a == b && x == y
  {
    if a + x == b + y {
      assert a == (a + x)[..|a|] == (b + y)[..|b|] == b;
      assert x == (a + x)[|a|..] == (b + y)[|b|..] == y;
    }
  }

  // Such ampersands survive if and only if, for each of them, an ampersand stands where it would be
  // written, that is, as many characters further ahead as decoding has saved so far.
  lemma UnknownEntity(s: string, f: Flags)
    ensures Decode(s, f) == Intended(s, f) <==> AmpersandsStand(s, f)
  {
    UnknownEntityFrom(s, f, 0, "", "");
  }

  // So they do when nothing before them has become shorter.
  lemma NothingSaved(s: string, f: Flags)
    requires forall i :: 0 <= i < |s| && Stray(s, f, i) && Place(s, f, i).Some? ==> Place(s, f, i).value == i
    ensures Decode(s, f) == Intended(s, f)
  {
    UnknownEntity(s, f);
  }

  // So text with one after an escape is garbled.
  lemma UnknownEntityGarbled()
    ensures Decode("&lt;&x", BOTH) == "<lx"
  {
    var s := "&lt;&x";
    assert s[1..3] == "lt";
    EntityFound(s, 0, '<');
    assert Step(s, BOTH, 0) == Move(4, Some("<"));
    assert Entity(s, 4, 0) == None;
    assert Step(s, BOTH, 4) == Move(5, None) && Step(s, BOTH, 5) == Move(6, Some("x"));
    assert Decoded(s, BOTH, 6, "<lx") == "<lx";
    assert "<l" + "x" == "<lx" && "<" + [s[1]] == "<l" && "" + "<" == "<";
    assert Decoded(s, BOTH, 5, "<l") == "<lx" && Decoded(s, BOTH, 4, "<") == "<lx";
  }

  /// In the buffer.

  // A step reads only from its place on.

  lemma {:induction false} ReadBackLocal(s: string, t: string, q: nat, stop: char, base: nat, mult: nat, ucs: nat, lo: nat)
    requires |s| == |t| && lo <= q < |s| && s[lo] == stop && s[lo..] == t[lo..]
    ensures t[lo] == stop && ReadBack(s, q, stop, base, mult, ucs, lo) == ReadBack(t, q, stop, base, mult, ucs, lo)
    decreases q
  {
    assert s[q] == s[lo..][q - lo] == t[q] && t[lo] == s[lo..][0];
    if s[q] != stop {
      match Digit(s[q], base)
      case None =>
      case Some(d) => ReadBackLocal(s, t, q - 1, stop, base, mult * base % TWO_32, Wrap64(ucs + mult * d % TWO_32), lo);
    }
  }

  lemma {:induction false} SemicolonLocal(s: string, t: string, k: nat)
    requires |s| == |t| && k <= |s| && s[k..] == t[k..]
    ensures Semicolon(s, k) == Semicolon(t, k)
    decreases |s| - k
  {
    if k < |s| {
      assert s[k] == s[k..][0] == t[k];
      assert s[k + 1..] == s[k..][1..] == t[k + 1..];
      SemicolonLocal(s, t, k + 1);
    }
  }

  lemma AtLocal(s: string, t: string, i: nat, k: nat)
    requires |s| == |t| && i <= |s| && s[i..] == t[i..] && i <= k
    ensures At(s, k) == At(t, k) && (k <= |s| ==> s[k..] == t[k..])
  {
    if k < |s| { assert s[k] == s[i..][k - i] == t[k]; }
    if k <= |s| { assert s[k..] == s[i..][k - i..] == t[k..]; }
  }

  lemma CharacterRefLocal(s: string, t: string, i: nat)
    requires |s| == |t| && i < |s| && s[i..] == t[i..] && At(s, i + 1) == '#'
    ensures At(t, i + 1) == '#' && CharacterRef(s, i) == CharacterRef(t, i)
  {
    AtLocal(s, t, i, i + 1);
    AtLocal(s, t, i, i + 2);
    if At(s, i + 2) != '\0' {
      var hex := s[i + 2] == 'x';
      var from := if hex then i + 3 else i + 2;
      AtLocal(s, t, i, from);
      AtLocal(s, t, i, from - 1);
      if At(s, from) != '\0' {
        SemicolonLocal(s, t, from);
        match Semicolon(s, from)
        case None =>
        case Some(semi) =>
          ReadBackLocal(s, t, semi - 1, if hex then 'x' else '#', if hex then 16 else 10, 1, 0, from - 1);
      }
    }
  }

  lemma {:induction false} EntityLocal(s: string, t: string, i: nat, k: nat)
    requires |s| == |t| && i < |s| && s[i..] == t[i..] && k <= |ENTITIES|
    ensures Entity(s, i, k) == Entity(t, i, k)
    decreases |ENTITIES| - k
  {
    if k < |ENTITIES| {
      var p := Pattern(ENTITIES[k]).value;
      AtLocal(s, t, i, i + 1);
      AtLocal(s, t, i, i + 1 + |p|);
      if i + 1 + |p| <= |s| {
        assert s[i + 1..i + 1 + |p|] == s[i + 1..][..|p|] && t[i + 1..i + 1 + |p|] == t[i + 1..][..|p|];
      }
      EntityLocal(s, t, i, k + 1);
    }
  }

  lemma StepLocal(s: string, t: string, f: Flags, i: nat)
    requires |s| == |t| && i < |s| && s[i..] == t[i..]
    ensures Step(s, f, i) == Step(t, f, i)
  {
    AtLocal(s, t, i, i);
    AtLocal(s, t, i, i + 1);
    EntityLocal(s, t, i, 0);
    if At(s, i + 1) == '#' { CharacterRefLocal(s, t, i); }
    hide CharacterRef, Entity;
  }

  // What one turn of the loop in GetStr reads: where the read pointer goes and what to write.
  method ReadStep(buf: array<char>, start: nat, end: nat, f: Flags, at: nat) returns (p: nat, emit: Option<string>)
    requires start <= at < end < buf.Length && buf[end] == '\0'
    ensures start <= p && Move(p - start, emit) == Step(buf[start..end], f, at - start)
  {
    var t := buf[start..end];
    assert buf[at + 1] == At(t, at - start + 1) && buf[at] == t[at - start];
    hide CharacterRef, Entity;
    p, emit := at + 1, None;
    if f.newlines && buf[at] == '\r' {
      if buf[at + 1] == '\n' { p := at + 2; }
      emit := Some("\n");
    } else if f.newlines && buf[at] == '\n' {
      if buf[at + 1] == '\r' { p := at + 2; }
      emit := Some("\n");
    } else if f.entities && buf[at] == '&' {
      if buf[at + 1] == '#' {
        match CharacterRef(t, at - start) {
          case None => emit := Some([buf[at]]);
          case Some(r) => p, emit := start + r.0, Some(r.1);
        }
      } else {
        match Entity(t, at - start, 0) {
          case None =>
          case Some(c) => p, emit := at + |Pattern(c).value| + 2, Some([c]);
        }
      }
    } else {
      emit := Some([buf[at]]);
    }
  }

  // What it writes: nothing moves the write pointer by one character all the same.
  method WriteStep(buf: array<char>, to: nat, emit: Option<string>) returns (q: nat)
    requires to + (match emit case None => 1 case Some(e) => |e|) <= buf.Length
    modifies buf
    ensures q == to + match emit case None => 1 case Some(e) => |e|
    ensures buf[..to] == old(buf[..to]) && buf[q..] == old(buf[q..])
    ensures buf[to..q] == match emit case None => [old(buf[to])] case Some(e) => e
  {
    match emit {
      case None => q := to + 1;
      case Some(e) =>
        forall k | 0 <= k < |e| {
          buf[to + k] := e[k];
        }
        q := to + |e|;
    }
  }

  // Only the part written so far differs from the buffer as it was; the end has its zero byte.
  ghost predicate Kept(was: string, now: string, start: nat, end: nat, q: nat) {
    && start <= q <= end < |was| && |now| == |was|
    && now[..start] == was[..start] && now[end + 1..] == was[end + 1..] && now[end] == '\0'
    && now[q..end] == was[q..end]
  }

  // What has been read up to p is decoded in front of q.
  ghost predicate Decoding(was: string, now: string, start: nat, end: nat, f: Flags, p: nat, q: nat) {
    && Kept(was, now, start, end, q) && q <= p <= end
    && Decode(was[start..end], f) == Decoded(was[start..end], f, p - start, now[start..q])
  }

  function Written(now: string, q: nat, emit: Option<string>): string
    requires q < |now|
  {
    match emit case None => [now[q]] case Some(e) => e
  }

  // The read pointer still sees the original, and so does the write pointer.
  lemma DecodingAhead(was: string, now: string, start: nat, end: nat, f: Flags, p: nat, q: nat, m: Move)
    requires Kept(was, now, start, end, q) && q <= p < end && m == Step(now[start..end], f, p - start)
    ensures var s, out := was[start..end], now[start..q]; var e := Written(now, q, m.emit);
            && |out + e| <= m.next <= |s|
            && Decoded(s, f, p - start, out) == Decoded(s, f, m.next, out + e)
  {
    hide Step, Decoded;
    SameAhead(was, now, start, end, p, q);
    StepLocal(was[start..end], now[start..end], f, p - start);
    DecodedStep(was[start..end], f, p - start, now[start..q]);
    hide Kept;
  }

  // One step of the loop, on the buffer's content.
  lemma DecodingStep(was: string, now: string, next: string, start: nat, end: nat, f: Flags, p: nat, q: nat, m: Move,
                     q': nat)
    requires Decoding(was, now, start, end, f, p, q) && p < end && |next| == |now|
    requires m == Step(now[start..end], f, p - start)
    requires q' == q + |Written(now, q, m.emit)| <= |now|
    requires next[..q] == now[..q] && next[q..q'] == Written(now, q, m.emit) && next[q'..] == now[q'..]
    ensures Decoding(was, next, start, end, f, start + m.next, q')
  {
    hide Decode, Decoded, Step, Written, At;
    assert start <= q <= p && end < |now| == |was|;
    hide Kept;
    DecodingAhead(was, now, start, end, f, p, q, m);
    KeptOn(was, now, next, start, end, q, q');
  }

  lemma SameAhead(was: string, now: string, start: nat, end: nat, p: nat, q: nat)
    requires Kept(was, now, start, end, q) && q <= p < end
    ensures |now| == |was| && start <= q && now[start..end][p - start..] == was[start..end][p - start..] && now[q] == was[start..end][q - start]
  {
    assert now[start..end][p - start..] == now[q..end][p - q..] && was[start..end][p - start..] == was[q..end][p - q..];
    assert now[q] == now[q..end][0] && was[q] == was[q..end][0];
  }

  lemma DecodedStep(s: string, f: Flags, i: nat, out: string)
    requires |out| <= i < |s|
    ensures var m := Step(s, f, i);
            var e := match m.emit case None => [s[|out|]] case Some(e) => e;
            |out + e| <= m.next && Decoded(s, f, i, out) == Decoded(s, f, m.next, out + e)
  {
    hide Step;
  }

  lemma KeptOn(was: string, now: string, next: string, start: nat, end: nat, q: nat, q': nat)
    requires Kept(was, now, start, end, q) && q <= q' <= end && |next| == |now|
    requires next[..q] == now[..q] && next[q'..] == now[q'..]
    ensures Kept(was, next, start, end, q') && next[start..q'] == now[start..q] + next[q..q']
  {
    assert next[..start] == next[..q][..start] && now[..start] == now[..q][..start];
    assert next[end + 1..] == next[q'..][end + 1 - q'..] && now[end + 1..] == now[q'..][end + 1 - q'..];
    assert next[end] == next[q'..][end - q'] && now[end] == now[q'..][end - q'];
    assert next[q'..end] == next[q'..][..end - q'] == now[q'..][..end - q'] == now[q'..end] == now[q..end][q' - q..];
    assert was[q'..end] == was[q..end][q' - q..];
    assert next[start..q] == next[..q][start..] == now[..q][start..] == now[start..q];
  }

  // One turn of the loop.
  method Turn(buf: array<char>, start: nat, end: nat, f: Flags, p: nat, q: nat, ghost was: string)
    returns (p': nat, q': nat)
    requires Decoding(was, buf[..], start, end, f, p, q) && p < end
    modifies buf
    ensures p < p' && Decoding(was, buf[..], start, end, f, p', q')
  {
    hide Decoding, Kept, Step, Decode, Decoded, At;
    DecodingBounds(was, buf[..], start, end, f, p, q);
    ghost var now := buf[..];
    assert buf[start..end] == now[start..end];
    var emit;
    p', emit := ReadStep(buf, start, end, f, p);
    q' := WriteStep(buf, q, emit);
    DecodingStep(was, now, buf[..], start, end, f, p, q, Move(p' - start, emit), q');
  }

  // GetStr: decodes buf[start..end] where it is, and ends it with a zero byte. Whatever the text, the
  // write pointer stays at or behind the read pointer.
  method GetStr(buf: array<char>, start: nat, end: nat, f: Flags) returns (q: nat)
    requires start <= end < buf.Length
    modifies buf
    ensures start <= q <= end && buf[start..q] == Decode(old(buf[start..end]), f) && buf[q] == '\0'
    ensures buf[..start] == old(buf[..start]) && buf[end + 1..] == old(buf[end + 1..])
  {
    ghost var was := buf[..];
    buf[end] := '\0';
    DecodingBegins(was, buf[..], start, end, f);
    hide Decoding, Step, Decode, Kept;
    var p := start;
    q := start;
    while p < end
      invariant p <= end && Decoding(was, buf[..], start, end, f, p, q)
      decreases end - p
    {
      p, q := Turn(buf, start, end, f, p, q, was);
      DecodingBounds(was, buf[..], start, end, f, p, q);
    }
    DecodingBounds(was, buf[..], start, end, f, p, q);
    DecodingEnds(was, buf[..], start, end, f, q);
    ghost var now := buf[..];
    buf[q] := '\0';
    assert buf[start..q] == now[start..q] && buf[..start] == now[..start] && buf[end + 1..] == now[end + 1..];
    assert was[start..end] == old(buf[start..end]) && was[..start] == old(buf[..start]) && was[end + 1..] == old(buf[end + 1..]);
  }

  lemma DecodingBegins(was: string, now: string, start: nat, end: nat, f: Flags)
    requires start <= end < |was| && now == was[end := '\0']
    ensures Decoding(was, now, start, end, f, start, start)
  {
    assert now[start..start] == "";
  }

  lemma DecodingEnds(was: string, now: string, start: nat, end: nat, f: Flags, q: nat)
    requires Decoding(was, now, start, end, f, end, q)
    ensures now[start..q] == Decode(was[start..end], f)
    ensures now[..start] == was[..start] && now[end + 1..] == was[end + 1..]
  {
    hide Decode;
  }

  lemma DecodingBounds(was: string, now: string, start: nat, end: nat, f: Flags, p: nat, q: nat)
    requires Decoding(was, now, start, end, f, p, q)
    ensures start <= q <= p <= end < |now| && now[end] == '\0'
  {
  }

  lemma PrintStep(out: string, s: string, p: nat, q: nat, attribute: bool)
    requires p <= q < |s| && out + s[p..q] == Escape(s[..q], attribute)
    ensures Escape(s[..q + 1], attribute)
            == if Special(s[q], attribute) then out + s[p..q] + (['&'] + Pattern(s[q]).value + [';']) + s[q + 1..q + 1]
               else out + s[p..q + 1]
  {
    var c := s[q];
    assert Escape([c], attribute) == EscapeChar(c, attribute) by {
      assert [c][1..] == "" && Escape("", attribute) == "" && EscapeChar(c, attribute) + "" == EscapeChar(c, attribute);
    }
    EscapeConcat(s[..q], [c], attribute);
    hide Escape, Pattern;
    assert s[..q + 1] == s[..q] + [c] && s[p..q + 1] == s[p..q] + [c];
    ConcatAssociates(out, s[p..q], [c]);
  }

  // PrintString: runs of plain characters are written in one piece.
  method PrintString(s: string, restricted: bool) returns (out: string)
    ensures out == Escape(s, !restricted)
  {
    out := "";
    var p, q := 0, 0;
    while q < |s|
      invariant p <= q <= |s| && out + s[p..q] == Escape(s[..q], !restricted)
    {
      hide Escape;
      PrintStep(out, s, p, q, !restricted);
      if Special(s[q], !restricted) {
        out := out + s[p..q];
        out := out + (['&'] + Pattern(s[q]).value + [';']);
        p := q + 1;
      }
      q := q + 1;
    }
    assert s[..|s|] == s;
    out := out + s[p..];
  }
}
