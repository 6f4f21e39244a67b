/** The 20-character device identifiers: ten characters of domain, then a ten-digit code that begins
    with the device type (Annex D.1 of GB/T 28181). */
module GbCode {
  import opened Bytes

  /// Decimal numbers.

  predicate IsDigit(c: char) {
    '0' <= c <= '9'
  }

  predicate AllDigits(s: string) {
    forall i :: 0 <= i < |s| ==> IsDigit(s[i])
  }

  function DigitValue(c: char): nat
    requires IsDigit(c)
  {
    c as int - '0' as int
  }

  function Value(s: string): nat
    requires AllDigits(s)
  {
    if s == "" then 0 else 10 * Value(s[..|s| - 1]) + DigitValue(s[|s| - 1])
  }

  function Power10(k: nat): nat {
    if k == 0 then 1 else 10 * Power10(k - 1)
  }

  // std::to_string
  function Digits(n: nat): (s: string)
    ensures s != "" && AllDigits(s)
  {
    var d := (n % 10 + '0' as int) as char;
    if n < 10 then [d] else Digits(n / 10) + [d]
  }

  lemma {:induction false} ValueBound(s: string)
    requires AllDigits(s)
    ensures Value(s) < Power10(|s|)
    ensures s != "" && s[0] != '0' ==> Power10(|s| - 1) <= Value(s)
    decreases |s|
  {
    if s != "" {
      ValueBound(s[..|s| - 1]);
      if |s| == 1 { assert Value(s[..0]) == 0; }
    }
  }

  lemma {:induction false} ValueOfDigits(n: nat)
    ensures Value(Digits(n)) == n
  {
    var s := Digits(n);
    var d := (n % 10 + '0' as int) as char;
    assert DigitValue(d) == n % 10;
    if n < 10 {
      assert s == [d] && s[..0] == "";
    } else {
      ValueOfDigits(n / 10);
      assert s[..|s| - 1] == Digits(n / 10) && s[|s| - 1] == d;
    }
  }

  // Without leading zeros, a number is written in one way.
  lemma {:induction false} DigitsOfValue(s: string)
    requires AllDigits(s) && s != "" && s[0] != '0'
    ensures Digits(Value(s)) == s
    decreases |s|
  {
    var n := |s| - 1;
    var rest, d := s[..n], DigitValue(s[n]);
    assert s == rest + [s[n]];
    if n == 0 {
      assert Value(rest) == 0;
    } else {
      DigitsOfValue(rest);
      ValueBound(rest);
      assert Power10(n - 1) >= 1 by { PowerPositive(n - 1); }
      assert Value(s) == 10 * Value(rest) + d;
      assert Value(s) / 10 == Value(rest) && Value(s) % 10 == d;
    }
  }

  lemma {:induction false} PowerPositive(k: nat)
    ensures Power10(k) >= 1
  {
    if k > 0 { PowerPositive(k - 1); }
  }

  lemma {:induction false} ValueConcat(a: string, b: string)
    requires AllDigits(a) && AllDigits(b)
    ensures AllDigits(a + b) && Value(a + b) == Value(a) * Power10(|b|) + Value(b)
    decreases |b|
  {
    if b == "" {
      assert a + b == a;
    } else {
      var c, n := b[..|b| - 1], |b| - 1;
      ValueConcat(a, c);
      assert (a + b)[..|a + b| - 1] == a + c && (a + b)[|a + b| - 1] == b[n];
      assert Value(a + b) == 10 * (Value(a) * Power10(n) + Value(c)) + DigitValue(b[n]);
      assert Value(a) * Power10(|b|) == 10 * (Value(a) * Power10(n)) by { Scale(Value(a), Power10(n)); }
    }
  }

  lemma Scale(a: nat, p: nat)
    ensures a * (10 * p) == 10 * (a * p)
  {
  }

  /// Reading numbers: String2Ull and String2Int, which give 0 for what std::stoull and std::stoi refuse.

  predicate IsSpace(c: char) {
    c == ' ' || '\U{9}' <= c <= '\U{D}'
  }

  function SkipSpaces(s: string): (r: string)
    ensures |r| <= |s| && (|r| == |s| ==> r == s)
  {
    if s != "" && IsSpace(s[0]) then SkipSpaces(s[1..]) else s
  }

  function DigitPrefix(s: string): (r: string)
    ensures AllDigits(r) && |r| <= |s| && (|r| == |s| ==> r == s)
  {
    if s != "" && IsDigit(s[0]) then [s[0]] + DigitPrefix(s[1..]) else ""
  }

  predicate Signed(s: string) {
    s != "" && (s[0] == '+' || s[0] == '-')
  }

  // The digits a number is read from.
  function Magnitude(s: string): (r: string)
    ensures AllDigits(r) && |r| <= |s| && (|r| == |s| ==> r == s)
  {
    var t := SkipSpaces(s);
    DigitPrefix(if Signed(t) then t[1..] else t)
  }

  predicate Negative(s: string) {
    var t := SkipSpaces(s);
    Signed(t) && t[0] == '-'
  }

  function StringToUll(s: string): nat {
    var d := Magnitude(s);
    if d == "" || Value(d) >= TWO_64 then 0
    else if Negative(s) then Wrap64(0 - (Value(d) as int)) else Value(d)
  }

  function StringToInt(s: string): int {
    var d := Magnitude(s);
    if d == "" then 0
    else if Negative(s) then (if Value(d) > 0x8000_0000 then 0 else 0 - (Value(d) as int))
    else if Value(d) > 0x7FFF_FFFF then 0 else Value(d)
  }

  lemma MagnitudeOfDigits(s: string)
    requires AllDigits(s) && s != ""
    ensures Magnitude(s) == s && !Negative(s)
  {
    assert IsDigit(s[0]);
    PrefixOfDigits(s);
  }

  lemma {:induction false} PrefixOfDigits(s: string)
    requires AllDigits(s)
    ensures DigitPrefix(s) == s
    decreases |s|
  {
    if s != "" {
      assert IsDigit(s[0]);
      PrefixOfDigits(s[1..]);
      assert [s[0]] + s[1..] == s;
    }
  }

  const DECIMAL: string := "0123456789"

  // One digit, and one digit more.
  lemma DigitStands(s: string, d: nat)
    requires AllDigits(s) && d < 10
    ensures Digits(d) == [DECIMAL[d]] && Value([DECIMAL[d]]) == d
    ensures AllDigits(s + [DECIMAL[d]]) && Value(s + [DECIMAL[d]]) == 10 * Value(s) + d
  {
    assert DECIMAL[d] as int == '0' as int + d;
    assert (s + [DECIMAL[d]])[..|s|] == s && [DECIMAL[d]][..0] == "";
  }

  // What is read: the digits behind white space and a sign, whatever follows them; nothing that does not fit
  // the type.
  lemma NumberRead(w: string, sign: string, ds: string, t: string)
    requires (forall i :: 0 <= i < |w| ==> w[i] in " \t\n\U{B}\U{C}\r") && (sign == "" || sign == "+" || sign == "-")
    requires ds != "" && AllDigits(ds) && (t == "" || t[0] !in DECIMAL)
    ensures var s, v: int := w + (sign + (ds + t)), Value(ds);
            && StringToUll(s) == (if v >= TWO_64 then 0 else if sign == "-" && v > 0 then TWO_64 - v else v)
            && StringToInt(s) == (if sign == "-" then if v > 0x8000_0000 then 0 else 0 - v else if v > 0x7FFF_FFFF then 0 else v)
  {
    hide Value, Magnitude, Negative, AllDigits, Wrap64;
    MagnitudeRead(w, sign, ds, t);
    if Value(ds) < TWO_64 { MinusWraps(Value(ds)); }
  }

  lemma MinusWraps(v: nat)
    requires v < TWO_64
    ensures Wrap64(0 - (v as int)) == if v == 0 then 0 else TWO_64 - v
  {
  }

  lemma MagnitudeRead(w: string, sign: string, ds: string, t: string)
    requires (forall i :: 0 <= i < |w| ==> w[i] in " \t\n\U{B}\U{C}\r") && (sign == "" || sign == "+" || sign == "-")
    requires ds != "" && AllDigits(ds) && (t == "" || t[0] !in DECIMAL)
    ensures var s := w + (sign + (ds + t)); Magnitude(s) == ds && (Negative(s) <==> sign == "-")
  {
    var u := sign + (ds + t);
    assert IsDigit(ds[0]) && u != "" && !IsSpace(u[0]);
    PassSpaces(w, u);
    if sign == "" { assert u == ds + t; } else { assert u[1..] == ds + t; }
    PrefixEnds(ds, t);
    hide SkipSpaces, DigitPrefix, AllDigits;
  }

  // Without digits there, the number is 0.
  lemma NothingRead(w: string, sign: string, t: string)
    requires (forall i :: 0 <= i < |w| ==> w[i] in " \t\n\U{B}\U{C}\r") && (sign == "" || sign == "+" || sign == "-")
    requires t != "" ==> t[0] !in DECIMAL && (sign != "" || t[0] !in " \t\n\U{B}\U{C}\r+-")
    ensures StringToUll(w + (sign + t)) == 0 && StringToInt(w + (sign + t)) == 0
  {
    var u := sign + t;
    if sign == "" { assert u == t; } else { assert u[1..] == t; }
    if t != "" { NoDigit(t[0]); }
    PassSpaces(w, u);
    PrefixEnds("", t);
    assert "" + t == t;
    hide SkipSpaces, DigitPrefix;
  }

  lemma NoDigit(c: char)
    ensures IsDigit(c) <==> c in DECIMAL
  {
    if IsDigit(c) { assert DECIMAL[c as int - '0' as int] == c; }
  }

  lemma {:induction false} PassSpaces(w: string, u: string)
    requires forall i :: 0 <= i < |w| ==> w[i] in " \t\n\U{B}\U{C}\r"
    requires u == "" || !IsSpace(u[0])
    ensures SkipSpaces(w + u) == u
    decreases |w|
  {
    if w == "" {
      assert w + u == u;
    } else {
      assert w[0] in " \t\n\U{B}\U{C}\r" && IsSpace(w[0]);
      assert (w + u)[0] == w[0] && (w + u)[1..] == w[1..] + u;
      PassSpaces(w[1..], u);
    }
  }

  lemma {:induction false} PrefixEnds(ds: string, t: string)
    requires AllDigits(ds) && (t == "" || t[0] !in DECIMAL)
    ensures DigitPrefix(ds + t) == ds
    decreases |ds|
  {
    if ds == "" {
      assert ds + t == t;
      if t != "" { NoDigit(t[0]); }
    } else {
      assert IsDigit(ds[0]) && (ds + t)[0] == ds[0] && (ds + t)[1..] == ds[1..] + t;
      PrefixEnds(ds[1..], t);
      assert [ds[0]] + ds[1..] == ds;
    }
  }

  /// Codes.

  const BAND: nat := 10_000_000

  // The code and the type in an identifier.

  function CodeOf(gbid: string): nat
    requires |gbid| == 20
  {
    StringToUll(gbid[10..20])
  }

  function TypeOf(gbid: string): int
    requires |gbid| == 20
  {
    StringToInt(gbid[10..13])
  }

  predicate TenDigits(c: nat) {
    1_000_000_000 <= c < 10_000_000_000
  }

  lemma PowersOfTen()
    ensures Power10(3) == 1000 && Power10(7) == BAND && Power10(9) == 1_000_000_000 && Power10(10) == 10_000_000_000
  {
    assert Power10(3) == 10 * Power10(2) == 100 * Power10(1) == 1000;
    assert Power10(5) == 10 * Power10(4) == 100 * Power10(3);
    assert Power10(7) == 10 * Power10(6) == 100 * Power10(5);
    assert Power10(9) == 10 * Power10(8) == 100 * Power10(7);
    assert Power10(10) == 10 * Power10(9);
  }

  lemma {:induction false} MorePower(a: nat, b: nat)
    requires a <= b
    ensures Power10(a) <= Power10(b)
    decreases b - a
  {
    if a < b { MorePower(a + 1, b); PowerPositive(a); }
  }

  lemma {:induction false} DigitsNonzero(n: nat)
    requires n > 0
    ensures Digits(n)[0] != '0'
  {
    if n >= 10 { DigitsNonzero(n / 10); }
  }

  // A code of ten digits has ten digits.
  lemma TenDigitsAre(c: nat)
    requires TenDigits(c)
    ensures |Digits(c)| == 10 && Digits(c)[0] != '0' && Value(Digits(c)) == c
  {
    hide Digits, Value;
    PowersOfTen();
    ValueOfDigits(c);
    DigitsNonzero(c);
    ValueBound(Digits(c));
    var k := |Digits(c)|;
    if k < 10 { MorePower(k, 9); }
    if k > 10 { MorePower(10, k - 1); }
  }

  // The type is the code's first three digits.
  lemma LeadingThree(s: string)
    requires AllDigits(s) && |s| == 10
    ensures AllDigits(s[..3]) && Value(s[..3]) == Value(s) / BAND && Value(s[..3]) < 1000
  {
    hide Value;
    PowersOfTen();
    var a, b := s[..3], s[3..];
    assert s == a + b;
    ValueConcat(a, b);
    ValueBound(a);
    ValueBound(b);
    assert Value(s) == Value(a) * BAND + Value(b) && Value(b) < BAND;
  }

  // The only ten characters read as a ten-digit code and its type are its digits.
  lemma CodeExact(s: string, c: nat)
    requires |s| == 10 && TenDigits(c)
    ensures s == Digits(c) <==> StringToUll(s) == c && StringToInt(s[..3]) == c / BAND
    ensures StringToUll(s) == c ==> s == Digits(c)
  {
    TenDigitsAre(c);
    if s == Digits(c) {
      assert AllDigits(s) && Value(s) == c;
      MagnitudeOfDigits(s);
      LeadingThree(s);
      MagnitudeOfDigits(s[..3]);
      hide *;
      Readings(s, c);
    }
    if StringToUll(s) == c { CodeIsRead(s, c); }
  }

  lemma Readings(s: string, c: nat)
    requires |s| == 10 && TenDigits(c) && AllDigits(s) && Value(s) == c
    requires Magnitude(s) == s && !Negative(s) && Magnitude(s[..3]) == s[..3] && !Negative(s[..3])
    requires Value(s[..3]) == c / BAND && Value(s[..3]) < 1000
    ensures StringToUll(s) == c && StringToInt(s[..3]) == c / BAND
  {
    hide Value, Magnitude, Negative, Wrap64;
  }

  lemma CodeIsRead(s: string, c: nat)
    requires |s| == 10 && TenDigits(c) && StringToUll(s) == c
    ensures s == Digits(c)
  {
    hide Value, Magnitude, Negative, Digits;
    var m := Magnitude(s);
    PowersOfTen();
    ValueBound(m);
    MorePower(|m|, 10);
    if Negative(s) { WrapNegative(Value(m)); }
    assert Value(m) == c;
    if |m| < 10 { MorePower(|m|, 9); }
    assert m == s;
    if s[0] == '0' { LeadingZero(s); }
    DigitsOfValue(s);
  }

  lemma WrapNegative(v: nat)
    requires v < 10_000_000_000
    ensures Wrap64(0 - (v as int)) == if v == 0 then 0 else TWO_64 - v
  {
    if v > 0 { assert Wrap64(0 - (v as int)) == Wrap64(TWO_64 - v); }
  }

  lemma LeadingZero(s: string)
    requires AllDigits(s) && |s| == 10 && s[0] == '0'
    ensures Value(s) < 1_000_000_000
  {
    PowersOfTen();
    assert s == s[..1] + s[1..];
    ValueConcat(s[..1], s[1..]);
    ValueBound(s[1..]);
    assert Value(s[..1]) == 0 by { assert s[..1][..0] == "" && Value("") == 0; }
    hide Value;
  }
}
