/** What a numeric character reference stands for: the UTF-8 form of its number (section 3 of
    RFC 3629). */
module XmlReference {
  import opened Bytes
  import opened XmlText

  predicate DigitsIn(ds: string, base: nat) {
    forall i :: 0 <= i < |ds| ==> Digit(ds[i], base).Some?
  }

  function Number(ds: string, base: nat): nat
    requires DigitsIn(ds, base)
  {
    if ds == "" then 0 else Times(base, Number(ds[..|ds| - 1], base)) + Digit(ds[|ds| - 1], base).value
  }

  function Times(a: nat, b: nat): nat {
    a * b
  }

  /// The number some digits stand for, in ten or sixteen digits of either case.

  const LOWER: string := "0123456789abcdef"
  const UPPER: string := "0123456789ABCDEF"

  predicate DigitFor(c: char, base: nat, d: nat) {
    d < base <= 16 && (c == LOWER[d] || c == UPPER[d])
  }

  predicate StandsFor(ds: string, base: nat, n: nat) {
    if ds == "" then n == 0
    else base > 0 && DigitFor(ds[|ds| - 1], base, n % base) && StandsFor(ds[..|ds| - 1], base, n / base)
  }

  // Those are the digits the parser knows, and no others.
  lemma DigitIs(c: char, base: nat, d: nat)
    requires base == 10 || base == 16
    ensures DigitFor(c, base, d) <==> Digit(c, base) == Some(d)
  {
    if d < 16 { DigitAt(d); }
    if Digit(c, base) == Some(d) { DigitBack(c, base, d); }
  }

  lemma DigitAt(d: nat)
    requires d < 16
    ensures LOWER[d] as int == (if d < 10 then '0' as int + d else 'a' as int + (d - 10))
    ensures UPPER[d] as int == (if d < 10 then '0' as int + d else 'A' as int + (d - 10))
  {
  }

  lemma DigitBack(c: char, base: nat, d: nat)
    requires (base == 10 || base == 16) && Digit(c, base) == Some(d)
    ensures d < base && (c as int == (if d < 10 then '0' as int + d else 'a' as int + (d - 10))
                         || c as int == (if d < 10 then '0' as int + d else 'A' as int + (d - 10)))
  {
  }

  lemma {:induction false} NumberIs(ds: string, base: nat, n: nat)
    requires (base == 10 || base == 16) && StandsFor(ds, base, n)
    ensures DigitsIn(ds, base) && Number(ds, base) == n
    decreases |ds|
  {
    hide Times;
    if ds != "" {
      var front, last := ds[..|ds| - 1], ds[|ds| - 1];
      NumberIs(front, base, n / base);
      DigitIs(last, base, n % base);
      hide Digit, DigitFor;
      assert forall i :: 0 <= i < |ds| - 1 ==> ds[i] == front[i];
      Divided(n, base);
    }
  }

  lemma Divided(n: nat, base: nat)
    requires base == 10 || base == 16
    ensures n == Times(base, n / base) + n % base
  {
  }

  function Word(n: nat): nat {
    n % TWO_32
  }

  lemma WordIs(n: nat)
    requires n < TWO_32
    ensures Word(n) == n
  {
  }

  // Only zeros are left: whatever the multiplier has become, they add nothing.
  lemma {:induction false} ReadZeros(s: string, q: nat, stop: char, base: nat, mult: nat, ucs: nat, lo: nat)
    requires lo <= q < |s| && s[lo] == stop && stop !in s[lo + 1..q + 1] && ucs < TWO_32
    requires DigitsIn(s[lo + 1..q + 1], base) && base > 0 && Number(s[lo + 1..q + 1], base) == 0
    ensures ReadBack(s, q, stop, base, mult, ucs, lo) == Some(ucs)
    decreases q
  {
    if q > lo {
      LastDigit(s, q, stop, base, lo);
      NoProduct(base, Number(s[lo + 1..q], base));
      ReadZeros(s, q - 1, stop, base, mult * base % TWO_32, ucs, lo);
    }
  }

  lemma NoProduct(a: nat, b: nat)
    requires a > 0
    ensures Times(a, b) == 0 <==> b == 0
  {
  }

  // The digit at q is not the stop, and what is before it has the other digits.
  lemma LastDigit(s: string, q: nat, stop: char, base: nat, lo: nat)
    requires lo < q < |s| && s[lo] == stop && stop !in s[lo + 1..q + 1] && DigitsIn(s[lo + 1..q + 1], base)
    ensures s[q] != stop && Digit(s[q], base).Some? && stop !in s[lo + 1..q] && DigitsIn(s[lo + 1..q], base)
    ensures Number(s[lo + 1..q + 1], base) == Times(base, Number(s[lo + 1..q], base)) + Digit(s[q], base).value
  {
    var ds := s[lo + 1..q + 1];
    assert ds[|ds| - 1] == s[q] && ds[..|ds| - 1] == s[lo + 1..q];
    assert forall i :: 0 <= i < |s[lo + 1..q]| ==> s[lo + 1..q][i] == ds[i];
  }

  // Reading backwards in 32 bits is reading the number, when that fits.
  lemma {:induction false} ReadNumber(s: string, q: nat, stop: char, base: nat, mult: nat, ucs: nat, lo: nat)
    requires lo <= q < |s| && s[lo] == stop && stop !in s[lo + 1..q + 1] && base > 0
    requires DigitsIn(s[lo + 1..q + 1], base) && ucs + Times(mult, Number(s[lo + 1..q + 1], base)) < TWO_32
    ensures ReadBack(s, q, stop, base, mult, ucs, lo) == Some(ucs + Times(mult, Number(s[lo + 1..q + 1], base)))
    decreases q
  {
    if q > lo {
      hide ReadBack, Number, Digit, DigitsIn, Times, Word;
      LastDigit(s, q, stop, base, lo);
      var rest, d := Number(s[lo + 1..q], base), Digit(s[q], base).value;
      Distribute(mult, base, rest, d);
      ReadBackStep(s, q, stop, base, mult, ucs, lo);
      if rest == 0 {
        ReadZeros(s, q - 1, stop, base, Word(Times(mult, base)), ucs + Times(mult, d), lo);
      } else {
        WordIs(Times(mult, base));
        ReadNumber(s, q - 1, stop, base, Times(mult, base), ucs + Times(mult, d), lo);
      }
    } else {
      assert s[lo + 1..q + 1] == "" && Number("", base) == 0;
    }
  }

  lemma ReadBackStep(s: string, q: nat, stop: char, base: nat, mult: nat, ucs: nat, lo: nat)
    requires lo < q < |s| && s[lo] == stop && s[q] != stop && Digit(s[q], base).Some?
    requires ucs + Times(mult, Digit(s[q], base).value) < TWO_32
    ensures ReadBack(s, q, stop, base, mult, ucs, lo)
            == ReadBack(s, q - 1, stop, base, Word(Times(mult, base)), ucs + Times(mult, Digit(s[q], base).value), lo)
  {
    hide Digit;
    var p := mult * Digit(s[q], base).value;
    assert p % TWO_32 == p && Wrap64(ucs + p) == ucs + p;
  }

  lemma Distribute(m: nat, b: nat, r: nat, d: nat)
    ensures Times(m, Times(b, r) + d) == Times(Times(m, b), r) + Times(m, d)
    ensures if r == 0 then Times(Times(m, b), r) == 0 else Times(m, b) <= Times(Times(m, b), r)
  {
    assert m * (b * r + d) == m * (b * r) + m * d && m * (b * r) == (m * b) * r;
    if r > 0 { AtLeast(m * b, r); }
  }

  lemma AtLeast(a: nat, r: nat)
    requires r > 0
    ensures a <= a * r
  {
  }

  // Hexadecimal digits in front of the last eight are multiplied away: of a larger number the rest modulo
  // 2^32 is read.
  lemma {:induction false} HexBack(s: string, q: nat, k: nat, ucs: nat, lo: nat)
    requires lo <= q < |s| && s[lo] == 'x' && 'x' !in s[lo + 1..q + 1] && DigitsIn(s[lo + 1..q + 1], 16)
    requires k <= 8 && ucs < Sixteens(k)
    ensures ReadBack(s, q, 'x', 16, Mult(k), ucs, lo)
            == Some(Word(ucs + Times(Sixteens(k), Number(s[lo + 1..q + 1], 16))))
    decreases q
  {
    hide ReadBack, Number, Digit, DigitsIn, Times, Sixteens, Mult, Word;
    if q == lo {
      NothingLeft(s, q, Mult(k), ucs);
      NothingRead(k, ucs);
    } else {
      LastDigit(s, q, 'x', 16, lo);
      var d, rest := Digit(s[q], 16).value, Number(s[lo + 1..q], 16);
      DigitBack(s[q], 16, d);
      OneDigitMore(k, ucs, d, rest);
      ReadBackStep(s, q, 'x', 16, Mult(k), ucs, lo);
      HexBack(s, q - 1, if k < 8 then k + 1 else 8, ucs + Times(Mult(k), d), lo);
    }
  }

  function Sixteens(k: nat): nat {
    if k == 0 then 1 else 16 * Sixteens(k - 1)
  }

  // The multiplier k digits from the right.
  function Mult(k: nat): nat {
    if k < 8 then Sixteens(k) else 0
  }

  lemma SixteensAre(k: nat)
    requires k <= 8
    ensures Sixteens(8) == TWO_32 && 0 < Sixteens(k) <= TWO_32 && (k < 8 ==> Sixteens(k + 1) == 16 * Sixteens(k))
    ensures k < 8 ==> Sixteens(k + 1) <= TWO_32
  {
    assert Sixteens(4) == 0x1_0000 && Sixteens(5) == 0x10_0000 && Sixteens(6) == 0x100_0000 && Sixteens(7) == 0x1000_0000;
  }

  lemma NothingLeft(s: string, q: nat, mult: nat, ucs: nat)
    requires q < |s| && s[q] == 'x'
    ensures ReadBack(s, q, 'x', 16, mult, ucs, q) == Some(ucs) && s[q + 1..q + 1] == ""
    ensures DigitsIn("", 16) && Number("", 16) == 0
  {
  }

  lemma NothingRead(k: nat, ucs: nat)
    requires k <= 8 && ucs < Sixteens(k)
    ensures Word(ucs + Times(Sixteens(k), 0)) == ucs
  {
    SixteensAre(k);
    hide Sixteens;
  }

  lemma OneDigitMore(k: nat, ucs: nat, d: nat, rest: nat)
    requires k <= 8 && ucs < Sixteens(k) && d < 16
    ensures var now := ucs + Times(Mult(k), d); var next := if k < 8 then k + 1 else 8;
            && now < Sixteens(next) <= TWO_32 && Word(Times(Mult(k), 16)) == Mult(next)
            && Word(now + Times(Sixteens(next), rest)) == Word(ucs + Times(Sixteens(k), Times(16, rest) + d))
  {
    SixteensAre(k);
    var p := Sixteens(k);
    hide Sixteens;
    if k < 8 {
      Distribute(p, 16, rest, d);
      Within(p, ucs, d);
      assert Times(p, 16) == 16 * p;
      if k == 7 { assert 16 * p == TWO_32; }
    } else {
      Wrapped(ucs, 16 * rest + d, rest);
    }
  }

  lemma Within(p: nat, ucs: nat, d: nat)
    requires ucs < p && d < 16
    ensures ucs + Times(p, d) < 16 * p
  {
    assert p * d <= p * 15;
  }

  lemma Wrapped(ucs: nat, a: nat, b: nat)
    requires ucs < TWO_32
    ensures Word(ucs + Times(TWO_32, a)) == Word(ucs + Times(TWO_32, b)) && Times(0, a) == 0
  {
  }

  // Where the parts of a reference stand.
  lemma ReferencePlaces(s: string, i: nat, head: string, ds: string, x: string, from: nat, semi: nat)
    requires i <= |s| && s[i..] == head + ds + ";" + x && |head| >= 2
    requires from == i + |head| && semi == from + |ds|
    ensures semi < |s| && s[from..semi] == ds && s[semi] == ';'
    ensures s[i] == head[0] && s[i + 1] == head[1] && s[from - 1] == head[|head| - 1]
  {
    var e := head + ds + ";" + x;
    SliceOfTail(s, i, |head|, |head| + |ds|);
    assert e[|head|..|head| + |ds|] == ds && e[|head| + |ds|] == ';';
    assert s[i + |head| + |ds|] == s[i..][|head| + |ds|];
    assert s[i] == e[0] && s[i + 1] == s[i..][1] == e[1] && s[from - 1] == s[i..][|head| - 1] == e[|head| - 1];
  }

  lemma ReferenceRead(s: string, i: nat, hex: bool, from: nat, semi: nat, n: nat)
    requires i + 1 < from < semi < |s| && s[i + 1] == '#' && from == (if hex then i + 3 else i + 2)
    requires hex == (s[i + 2] == 'x') && s[i + 2] != '\0' && s[from] != '\0' && Semicolon(s, from) == Some(semi)
    requires s[from - 1] == (if hex then 'x' else '#')
    requires ReadBack(s, semi - 1, if hex then 'x' else '#', if hex then 16 else 10, 1, 0, from - 1) == Some(n)
    ensures CharacterRef(s, i) == Some((semi + 1, Utf8(n)))
  {
    hide Utf8, Digit;
  }

  // "&#", digits and a semicolon.
  lemma DecimalIs(s: string, i: nat, ds: string, x: string)
    requires i <= |s| && s[i..] == "&#" + ds + ";" + x
    requires ds != "" && DigitsIn(ds, 10) && Number(ds, 10) < TWO_32
    ensures i < |s| && At(s, i + 1) == '#' && CharacterRef(s, i) == Some((i + 3 + |ds|, Utf8(Number(ds, 10))))
  {
    hide Utf8, DigitsIn, Times, Digit, CharacterRef, Number, ReadBack, Semicolon;
    var from, semi := i + 2, i + 2 + |ds|;
    ReferencePlaces(s, i, "&#", ds, x, from, semi);
    DigitsAre(s, from, semi, ds, 10);
    DecimalBack(s, from, semi, ds);
    ReferenceRead(s, i, false, from, semi, Number(ds, 10));
  }

  // "&#x", digits and a semicolon.
  lemma HexIs(s: string, i: nat, ds: string, x: string)
    requires i <= |s| && s[i..] == "&#x" + ds + ";" + x
    requires ds != "" && DigitsIn(ds, 16)
    ensures i < |s| && At(s, i + 1) == '#' && CharacterRef(s, i) == Some((i + 4 + |ds|, Utf8(Word(Number(ds, 16)))))
  {
    hide Utf8, DigitsIn, Times, Digit, CharacterRef, Number, ReadBack, Word, Sixteens, Mult, Semicolon;
    var from, semi := i + 3, i + 3 + |ds|;
    ReferencePlaces(s, i, "&#x", ds, x, from, semi);
    DigitsAre(s, from, semi, ds, 16);
    HexadecimalBack(s, from, semi, ds);
    ReferenceRead(s, i, true, from, semi, Word(Number(ds, 16)));
  }

  lemma HexadecimalBack(s: string, from: nat, semi: nat, ds: string)
    requires 0 < from < semi < |s| && s[from..semi] == ds && s[from - 1] == 'x' && 'x' !in ds && DigitsIn(ds, 16)
    ensures ReadBack(s, semi - 1, 'x', 16, 1, 0, from - 1) == Some(Word(Number(ds, 16)))
  {
    hide Number, ReadBack, Digit, DigitsIn, Word;
    assert s[from - 1 + 1..semi - 1 + 1] == ds;
    assert Mult(0) == Sixteens(0) == 1 && 0 + Times(1, Number(ds, 16)) == Number(ds, 16);
    hide Mult, Sixteens, Times;
    HexBack(s, semi - 1, 0, 0, from - 1);
  }

  lemma DigitsAre(s: string, from: nat, semi: nat, ds: string, base: nat)
    requires from < semi < |s| && s[from..semi] == ds && s[semi] == ';' && DigitsIn(ds, base)
    ensures Semicolon(s, from) == Some(semi) && s[from] != 'x' && s[from] != '\0' && 'x' !in ds && '#' !in ds
  {
    hide Semicolon, Digit;
    NotDigits(ds, base);
    FindSemicolon(s, from, semi);
    assert s[from] == s[from..semi][0];
  }

  lemma DecimalBack(s: string, from: nat, semi: nat, ds: string)
    requires 0 < from < semi < |s| && s[from..semi] == ds && s[from - 1] == '#' && '#' !in ds
    requires DigitsIn(ds, 10) && Number(ds, 10) < TWO_32
    ensures ReadBack(s, semi - 1, '#', 10, 1, 0, from - 1) == Some(Number(ds, 10))
  {
    hide Number, ReadBack, Digit, DigitsIn;
    assert s[from - 1 + 1..semi - 1 + 1] == ds;
    assert 0 + Times(1, Number(ds, 10)) == Number(ds, 10);
    hide Times;
    ReadNumber(s, semi - 1, '#', 10, 1, 0, from - 1);
  }

  lemma NotDigits(ds: string, base: nat)
    requires DigitsIn(ds, base)
    ensures 'x' !in ds && '#' !in ds && ';' !in ds && '\0' !in ds
  {
    forall k | 0 <= k < |ds|
      ensures ds[k] != 'x' && ds[k] != '#' && ds[k] != ';' && ds[k] != '\0'
    {
      assert Digit(ds[k], base).Some?;
    }
  }

  lemma {:induction false} FindSemicolon(s: string, k: nat, semi: nat)
    requires k <= semi < |s| && s[semi] == ';' && ';' !in s[k..semi] && '\0' !in s[k..semi]
    ensures Semicolon(s, k) == Some(semi)
    decreases semi - k
  {
    if k < semi {
      assert s[k] == s[k..semi][0] && s[k + 1..semi] == s[k..semi][1..];
      FindSemicolon(s, k + 1, semi);
    }
  }

  // A text that is one reference decodes to its character's UTF-8 form; of a hexadecimal number that is too
  // large for a word, to that of the rest modulo 2^32.
  lemma ReferenceDecodes(hex: bool, ds: string, n: nat)
    requires ds != "" && StandsFor(ds, if hex then 16 else 10, n) && (hex || n < TWO_32)
    ensures Decode((if hex then "&#x" else "&#") + ds + ";", BOTH) == Utf8(Word(n))
  {
    hide CharacterRef, Utf8, Number, Entity, StandsFor, Word, DigitsIn;
    var head := if hex then "&#x" else "&#";
    var s := head + ds + ";";
    assert s[0..] == head + ds + ";" + "";
    NumberIs(ds, if hex then 16 else 10, n);
    if hex {
      HexIs(s, 0, ds, "");
    } else {
      DecimalIs(s, 0, ds, "");
      WordIs(n);
    }
    var u := Utf8(Word(n));
    assert s[0] == '&' && Step(s, BOTH, 0) == Move(|s|, Some(u));
    hide Step;
    assert "" + u == u && Decoded(s, BOTH, |s|, u) == u;
  }

  // What is no reference: with no semicolon behind it the ampersand stays, "&#" at the very end loses it, and
  // without any digits the reference is to the character zero.
  lemma NoReference(s: string, i: nat)
    requires i < |s| && s[i] == '&' && At(s, i + 1) == '#' && '\0' !in s
    ensures i + 2 < |s| && ';' !in s[i + 2..] ==> Step(s, BOTH, i) == Move(i + 1, Some("&"))
    ensures i + 2 == |s| ==> Step(s, BOTH, i) == Move(i + 1, Some(""))
    ensures i + 2 < |s| && s[i + 2] == ';' ==> Step(s, BOTH, i) == Move(i + 3, Some("\0"))
  {
    if i + 2 < |s| && ';' !in s[i + 2..] {
      assert forall k :: i + 2 <= k < |s| ==> s[k] != ';' && s[k] == s[i + 2..][k - i - 2];
      NoSemicolon(s, i + 2);
      NoSemicolon(s, i + 3);
    }
    hide Semicolon, Entity;
  }

  // Nor is it one when a character that is no digit stands before the semicolon.
  lemma NoDigit(s: string, i: nat, semi: nat)
    requires i + 3 < semi < |s| && s[i] == '&' && s[i + 1] == '#' && s[semi] == ';' && '\0' !in s
    requires ';' !in s[i + 2..semi] && s[semi - 1] !in "0123456789abcdefABCDEFx#"
    ensures Step(s, BOTH, i) == Move(i + 1, Some("&"))
  {
    assert s[i + 2] == s[i + 2..semi][0] && s[i + 3] == s[i + 2..semi][1] && s[i + 3..semi] == s[i + 2..semi][1..];
    FindSemicolon(s, i + 2, semi);
    FindSemicolon(s, i + 3, semi);
    var base := if s[i + 2] == 'x' then 16 else 10;
    if d :| Digit(s[semi - 1], base) == Some(d) { DigitBack(s[semi - 1], base, d); }
    hide Semicolon, Entity;
  }

  lemma {:induction false} NoSemicolon(s: string, k: nat)
    requires forall j :: k <= j < |s| ==> s[j] != ';'
    ensures Semicolon(s, k) == None
    decreases |s| - k
  {
    if k < |s| { NoSemicolon(s, k + 1); }
  }

  /// UTF-8, section 3 of RFC 3629, read back.

  // A byte that continues a character, and its six bits.
  predicate Continues(c: char) {
    0x80 <= c as int < 0xC0
  }

  function Low(c: char): nat {
    c as int % 0x40
  }

  // The number some bytes encode, in the shortest form.
  function FromUtf8(s: string): Option<nat> {
    if |s| == 1 then if s[0] as int < 0x80 then Some(s[0] as int) else None
    else if exists k :: 0 < k < |s| && !Continues(s[k]) then None
    else if |s| == 2 && 0xC2 <= s[0] as int < 0xE0 then Some(s[0] as int % 0x20 * 0x40 + Low(s[1]))
    else if |s| == 3 && 0xE0 <= s[0] as int < 0xF0 then
      Shortest(0x800, s[0] as int % 0x10 * 0x1000 + Low(s[1]) * 0x40 + Low(s[2]))
    else if |s| == 4 && 0xF0 <= s[0] as int < 0xF8 then
      Shortest(0x1_0000, s[0] as int % 8 * 0x4_0000 + Low(s[1]) * 0x1000 + Low(s[2]) * 0x40 + Low(s[3]))
    else None
  }

  function Shortest(least: nat, n: nat): Option<nat> {
    if n < least then None else Some(n)
  }

  lemma ByteIs(x: nat)
    requires x < 256
    ensures Byte(x) as int == x
  {
  }

  lemma TwoBytes(u: nat)
    requires 0x80 <= u < 0x800
    ensures FromUtf8(Utf8(u)) == Some(u)
  {
    ByteIs(0xC0 + u / 0x40);
    ByteIs(0x80 + u % 0x40);
    hide Byte;
  }

  lemma ThreeBytes(u: nat)
    requires 0x800 <= u < 0x1_0000
    ensures FromUtf8(Utf8(u)) == Some(u)
  {
    var a := u / 0x40;
    assert u / 0x1000 == a / 0x40;
    ByteIs(0xE0 + u / 0x1000);
    ByteIs(0x80 + a % 0x40);
    ByteIs(0x80 + u % 0x40);
    var s := Utf8(u);
    assert s == [Byte(0xE0 + u / 0x1000), Byte(0x80 + a % 0x40), Byte(0x80 + u % 0x40)];
    hide Byte, Utf8, FromUtf8;
    assert s[0] as int % 0x10 == a / 0x40 && Low(s[1]) == a % 0x40 && Low(s[2]) == u % 0x40;
    hide Low;
    ReadThree(s);
  }

  lemma ReadThree(s: string)
    requires |s| == 3 && 0xE0 <= s[0] as int < 0xF0 && Continues(s[1]) && Continues(s[2])
    ensures FromUtf8(s) == Shortest(0x800, s[0] as int % 0x10 * 0x1000 + Low(s[1]) * 0x40 + Low(s[2]))
  {
    hide Low;
  }

  lemma FourBytes(u: nat)
    requires 0x1_0000 <= u < 0x20_0000
    ensures FromUtf8(Utf8(u)) == Some(u)
  {
    var a, b := u / 0x40, u / 0x1000;
    FourParts(u, a, b);
    var s := Utf8(u);
    assert s == [Byte(0xF0 + b / 0x40), Byte(0x80 + b % 0x40), Byte(0x80 + a % 0x40), Byte(0x80 + u % 0x40)];
    hide Byte, Utf8, FromUtf8;
    assert s[0] as int % 8 == b / 0x40;
    assert Low(s[1]) == b % 0x40 && Low(s[2]) == a % 0x40 && Low(s[3]) == u % 0x40;
    hide Low;
    ReadFour(s);
  }

  lemma FourParts(u: nat, a: nat, b: nat)
    requires 0x1_0000 <= u < 0x20_0000 && a == u / 0x40 && b == u / 0x1000
    ensures b == a / 0x40 && u / 0x4_0000 == b / 0x40
    ensures u == (b / 0x40) * 0x4_0000 + b % 0x40 * 0x1000 + a % 0x40 * 0x40 + u % 0x40
    ensures Byte(0xF0 + b / 0x40) as int == 0xF0 + b / 0x40 && Byte(0x80 + b % 0x40) as int == 0x80 + b % 0x40
    ensures Byte(0x80 + a % 0x40) as int == 0x80 + a % 0x40 && Byte(0x80 + u % 0x40) as int == 0x80 + u % 0x40
  {
    assert b == a / 0x40 && u / 0x4_0000 == b / 0x40;
    ByteIs(0xF0 + b / 0x40);
    ByteIs(0x80 + b % 0x40);
    ByteIs(0x80 + a % 0x40);
    ByteIs(0x80 + u % 0x40);
    hide Byte;
  }

  lemma ReadFour(s: string)
    requires |s| == 4 && 0xF0 <= s[0] as int < 0xF8 && Continues(s[1]) && Continues(s[2]) && Continues(s[3])
    ensures FromUtf8(s)
            == Shortest(0x1_0000, s[0] as int % 8 * 0x4_0000 + Low(s[1]) * 0x1000 + Low(s[2]) * 0x40 + Low(s[3]))
  {
    hide Low;
  }

  // Every number below 2^21 survives; a larger one leaves nothing.
  lemma Utf8RoundTrip(u: nat)
    ensures if u < 0x20_0000 then FromUtf8(Utf8(u)) == Some(u) else Utf8(u) == ""
  {
    if u < 0x80 {
      ByteIs(u);
    } else if u < 0x800 {
      TwoBytes(u);
    } else if u < 0x1_0000 {
      ThreeBytes(u);
    } else if u < 0x20_0000 {
      FourBytes(u);
    }
  }

  // The letter A, and the examples of RFC 3629 (section 7): not equal, Alpha, the Hangul "han" and a stump
  // of tree.
  lemma Utf8Vectors()
    ensures Utf8(0x41) == "A" && Utf8(0x2262) == [0xE2 as char, 0x89 as char, 0xA2 as char]
    ensures Utf8(0x391) == [0xCE as char, 0x91 as char] && Utf8(0xD55C) == [0xED as char, 0x95 as char, 0x9C as char]
    ensures Utf8(0x2_33B4) == [0xF0 as char, 0xA3 as char, 0x8E as char, 0xB4 as char]
  {
  }
}
