/** The loops of mg_json_get, mg_pass_string and mg_atod over a C string, proved to compute what
    JsonScan specifies. */
module JsonGet {
  import opened Bytes
  import opened JsonScan
  import opened JsonDoc
  import opened JsonLookup

  // mg_pass_string on the characters of s from offset `from`.
  method ScanString(s: string, from: nat) returns (n: int)
    requires from <= |s|
    ensures n == PassString(s[from..])
  {
    var i := from;
    while i < |s|
      invariant from <= i <= |s|
      invariant PassString(s[from..]) == Shift(i - from, PassString(s[i..]))
    {
      ghost var rest := s[i..];
      assert rest[1..] == s[i + 1..];
      if s[i] == '\\' && i + 1 < |s| && Escapable(s[i + 1]) {
        assert rest[2..] == s[i + 2..];
        i := i + 1;
      } else if s[i] == '\0' {
        return INVALID;
      } else if s[i] == '"' {
        return i - from;
      }
      i := i + 1;
    }
    return INVALID;
  }

  // The digits of a number from offset `from` on.
  method ScanDigits(s: string, from: nat) returns (i: nat)
    requires from <= |s|
    ensures i == from + Digits(s[from..]) && i <= |s|
  {
    i := from;
    while i < |s| && Digit(s[i])
      invariant from <= i <= |s|
      invariant from + Digits(s[from..]) == i + Digits(s[i..])
    {
      assert s[i..][1..] == s[i + 1..];
      i := i + 1;
    }
  }

  // mg_atod from offset `from` on, as far as the length of the number goes.
  method ScanNumber(s: string, from: nat) returns (numlen: nat)
    requires from <= |s|
    ensures numlen == NumberLength(s[from..])
  {
    hide Digits, ExponentDigits, Fraction, Exponent, NumberLength;
    ghost var t := s[from..];
    var i := from;
    if i < |s| && (s[i] == '-' || s[i] == '+') { i := i + 1; }
    ghost var a := i;
    i := ScanDigits(s, i);
    ghost var b := i;
    i := ScanFraction(s, i);
    ghost var c := i;
    i := ScanExponent(s, i);
    numlen := i - from;
    assert t[a - from..] == s[a..] && t[b - from..] == s[b..] && t[c - from..] == s[c..];
    NumberLengthIs(t, a - from, b - a, c - b, i - c);
  }

  method ScanFraction(s: string, from: nat) returns (i: nat)
    requires from <= |s|
    ensures i == from + Fraction(s[from..]) && i <= |s|
  {
    i := from;
    if i < |s| && s[i] == '.' {
      assert s[i..][1..] == s[i + 1..];
      i := ScanDigits(s, i + 1);
    }
  }

  method ScanExponent(s: string, from: nat) returns (i: nat)
    requires from <= |s|
    ensures i == from + Exponent(s[from..]) && i <= |s|
  {
    hide ExponentDigits;
    if from == |s| || (s[from] != 'e' && s[from] != 'E') { return from; }
    i := from + 1;
    ghost var t := s[i..];
    assert s[from..][1..] == t;
    if i < |s| && s[i] == '-' { i := i + 1; }
    if i < |s| && s[i] == '+' { i := i + 1; }
    assert i == from + 1 + ExponentSign(t) && s[from..][1 + ExponentSign(t)..] == s[i..];
    i := ScanExponentDigits(s, i);
  }

  method ScanExponentDigits(s: string, from: nat) returns (i: nat)
    requires from <= |s|
    ensures i == from + ExponentDigits(s[from..], 0) && i <= |s|
  {
    i := from;
    var exp := 0;
    while i < |s| && Digit(s[i]) && exp < 308
      invariant from <= i <= |s|
      invariant from + ExponentDigits(s[from..], 0) == i + ExponentDigits(s[i..], exp)
    {
      assert s[i..][1..] == s[i + 1..];
      exp := exp * 10 + Value(s[i]);
      i := i + 1;
    }
  }

  // One turn of the switch: what the character at offset i leads to.
  method Turn(json: string, i: nat, m: Machine) returns (r: Result)
    requires i < |json|
    ensures r == Step(m, json[i..])
  {
    ghost var t := json[i..];
    var c := json[i];
    assert t[0] == c && t[1..] == json[i + 1..];
    if m.want == WantValue && (c == '-' || Digit(c)) {
      var numlen := ScanNumber(json, i);
      hide NumberLength;
      r := EndValue(Marked(m), numlen);
    } else if m.want == WantValue && c == '"' {
      var n := ScanString(json, i + 1);
      hide PassString;
      r := if n < 0 then Return(Error(n)) else EndValue(Marked(m), n + 2);
    } else if m.want == WantKey && c == '"' {
      var n := ScanString(json, i + 1);
      hide PassString;
      if n < 0 {
        r := Return(Error(n));
      } else if Depth(m) < m.ed || (Depth(m) == m.ed && m.prev != '.') {
        r := Return(Error(NOT_FOUND));
      } else {
        SliceOfTail(json, i, 1, 1 + n);
        r := Go(PassKey(m, json[i + 1..i + 1 + n]).(want := WantColon), n + 2);
      }
    } else {
      r := Step(m, json[i..]);
    }
  }

  // mg_json_get: the offset of the value and its length, or a negative code.
  method Find(json: string, path: string) returns (offset: int, toklen: int)
    ensures match Get(json, path)
            case Found(at, n) => offset == at && toklen == n
            case Error(code) => offset == code && toklen == 0
  {
    if path == "" || path[0] != '$' { return INVALID, 0; }
    hide Step, Run;
    var m := Start(path);
    assert json[0..] == json;
    while m.i < |json|
      invariant m.i <= |json| && Get(json, path) == Run(m, json[m.i..])
      decreases |json| - m.i
    {
      ghost var t := json[m.i..];
      RunOnce(m, t);
      if Space(json[m.i]) {
        assert t[1..] == json[m.i + 1..];
        m := m.(i := m.i + 1);
        continue;
      }
      var r := Turn(json, m.i, m);
      match r {
        case Return(Found(at, n)) => return at, n;
        case Return(Error(code)) => return code, 0;
        case Go(next, n) =>
          assert t[n..] == json[m.i + n..];
          m := next.(i := m.i + n);
      }
    }
    RunOut(m);
    return NOT_FOUND, 0;
  }

  lemma RunOnce(m: Machine, t: string)
    requires t != ""
    ensures Run(m, t) ==
            if Space(t[0]) then Run(m.(i := m.i + 1), t[1..])
            else match Step(m, t)
              case Return(a) => a
              case Go(next, n) => Run(next.(i := m.i + n), t[n..])
  {
    hide Step;
  }

  lemma RunOut(m: Machine)
    ensures Run(m, "") == Error(NOT_FOUND)
  {
  }

  // The whole of it on a document: the span of the value the path names.
  method FindValueOf(ghost before: string, ghost v: Json, ghost after: string, ghost items: seq<Item>,
                     json: string, path: string)
    returns (offset: int, toklen: int)
    requires json == before + Text(v) + after && path == "$" + PathText(items)
    requires Blank(before) && Blank(after) && Formed(v) && Nesting(v) <= 30 && GoodPath(items)
    requires Locate(v, |before|, items).Some?
    ensures var place := Locate(v, |before|, items).value;
            offset == place.at && toklen == |Text(place.v)| <==> LegibleTo(v, items)
  {
    GetRefinesLookup(before, v, after, items);
    offset, toklen := Find(json, path);
  }
}
