/** mg_json_get finds what a path names: the span of the value that lookup in the document's tree gives. */
module JsonLookup {
  import opened Bytes
  import opened JsonScan
  import opened JsonDoc

  /// Tokens.

  lemma {:induction false} PassRaw(raw: string, tail: string)
    requires GoodRaw(raw)
    ensures PassString(raw + "\"" + tail) == |raw|
    decreases |raw|
  {
    var s := raw + "\"" + tail;
    if raw == "" {
      assert s[0] == '"';
    } else if raw[0] == '\\' {
      assert s[0] == '\\' && s[1] == raw[1];
      assert s[2..] == raw[2..] + "\"" + tail;
      PassRaw(raw[2..], tail);
      if !Escapable(raw[1]) {
        assert s[1..][0] == raw[1] && s[1..][1..] == s[2..];
      }
    } else {
      assert s[0] == raw[0] && s[1..] == raw[1..] + "\"" + tail;
      PassRaw(raw[1..], tail);
    }
  }

  // What may follow a value.
  predicate Ends(tail: string) {
    tail == "" || Space(tail[0]) || tail[0] == ',' || tail[0] == ']' || tail[0] == '}'
  }

  predicate NoDigit(t: string) {
    t == "" || !Digit(t[0])
  }

  lemma {:induction false} DigitsExact(ds: string, t: string)
    requires forall k :: 0 <= k < |ds| ==> Digit(ds[k])
    requires NoDigit(t)
    ensures Digits(ds + t) == |ds|
    decreases |ds|
  {
    if ds == "" {
      assert ds + t == t;
    } else {
      assert (ds + t)[1..] == ds[1..] + t;
      DigitsExact(ds[1..], t);
    }
  }

  lemma {:induction false} ExponentDigitsExact(ds: string, t: string, exp: int)
    requires (forall k :: 0 <= k < |ds| ==> Digit(ds[k])) && NoDigit(t)
    ensures ExponentDigits(ds + t, exp) <= |ds|
    ensures ExponentDigits(ds + t, exp) == |ds| <==> ExponentSmall(ds, exp)
    decreases |ds|
  {
    if ds == "" {
      assert ds + t == t;
    } else {
      assert (ds + t)[1..] == ds[1..] + t && (ds + t)[0] == ds[0];
      ExponentDigitsExact(ds[1..], t, exp * 10 + Value(ds[0]));
    }
  }

  lemma EndsNumber(tail: string)
    requires Ends(tail)
    ensures NoDigit(tail) && (tail != "" ==> tail[0] != '.' && tail[0] != 'e' && tail[0] != 'E')
  {
  }

  lemma ExponentExact(n: Number, tail: string)
    requires FormedNumber(n) && Ends(tail)
    ensures var e, text := Exponent(ExponentText(n) + tail), ExponentText(n);
            && e <= |text| && (e == |text| <==> LegibleNumber(n)) && (e < |text| ==> Digit(text[e]))
    ensures NoDigit(ExponentText(n) + tail)
    ensures ExponentText(n) + tail != "" ==> (ExponentText(n) + tail)[0] != '.'
  {
    EndsNumber(tail);
    hide Ends;
    if n.exponent.Some? {
      var (e, sign, digits) := n.exponent.value;
      var s := ExponentText(n) + tail;
      var t := digits + tail;
      assert s[0] == e;
      SignExact(sign, t);
      assert s[1..] == sign + t && s[1 + |sign|..] == t;
      ExponentDigitsExact(digits, tail, 0);
    } else {
      assert ExponentText(n) + tail == tail;
    }
  }

  lemma SignExact(sign: string, t: string)
    requires sign == "" || sign == "-" || sign == "+"
    requires t != "" && Digit(t[0])
    ensures ExponentSign(sign + t) == |sign|
  {
    assert sign == "" ==> sign + t == t;
  }

  lemma FractionExact(n: Number, t: string)
    requires FormedNumber(n) && NoDigit(t) && (t != "" ==> t[0] != '.')
    ensures Fraction(FractionText(n) + t) == |FractionText(n)| && NoDigit(FractionText(n) + t)
  {
    if n.fraction.Some? {
      assert (FractionText(n) + t)[1..] == n.fraction.value + t;
      DigitsExact(n.fraction.value, t);
    } else {
      assert FractionText(n) + t == t;
    }
  }

  // The number scan takes exactly the characters of a number, whatever ends it, if and only if its
  // exponent's digits do not go on once their value has reached 308; otherwise it stops at a digit.
  lemma NumberExact(n: Number, tail: string)
    requires FormedNumber(n) && Ends(tail)
    ensures var k, text := NumberLength(NumberText(n) + tail), NumberText(n);
            && k <= |text| && (k == |text| <==> LegibleNumber(n)) && (k < |text| ==> Digit(text[k]))
    ensures NumberText(n) != "" && (NumberText(n)[0] == '-' || Digit(NumberText(n)[0]))
  {
    hide FractionText, ExponentText, NumberText, Digits, Fraction, Exponent, NumberLength;
    var a := if n.minus then "-" else "";
    var t3 := ExponentText(n) + tail;
    var t2 := FractionText(n) + t3;
    var t1 := n.whole + t2;
    var s := NumberText(n) + tail;
    ExponentExact(n, tail);
    FractionExact(n, t3);
    DigitsExact(n.whole, t2);
    NumberTextParts(n, tail);
    assert Digit(n.whole[0]) && Signed(s) == |a|;
    var c := |a| + |n.whole| + |FractionText(n)|;
    var e := Exponent(t3);
    NumberLengthIs(s, |a|, |n.whole|, |FractionText(n)|, e);
    assert e < |ExponentText(n)| ==> t3[e] == s[c..][e] == s[c + e] == NumberText(n)[c + e];
  }

  lemma NumberLengthIs(s: string, a: nat, w: nat, f: nat, e: nat)
    requires a + w + f <= |s| && Signed(s) == a && Digits(s[a..]) == w
    requires Fraction(s[a + w..]) == f && Exponent(s[a + w + f..]) == e
    ensures NumberLength(s) == a + w + f + e
  {
    hide Digits, Fraction, Exponent;
  }

  lemma NumberTextParts(n: Number, tail: string)
    requires FormedNumber(n)
    ensures var s := NumberText(n) + tail; var a := if n.minus then 1 else 0;
            var b := a + |n.whole|; var c := b + |FractionText(n)|; var d := c + |ExponentText(n)|;
            var t3 := ExponentText(n) + tail; var t2 := FractionText(n) + t3; var t1 := n.whole + t2;
            && |NumberText(n)| == d && NumberText(n) != ""
            && s[0] == NumberText(n)[0] == (if n.minus then '-' else n.whole[0])
            && s[a..] == t1 && s[b..] == t2 && s[c..] == t3
  {
    hide FractionText, ExponentText;
    var a := if n.minus then "-" else "";
    var t3 := ExponentText(n) + tail;
    var t2 := FractionText(n) + t3;
    var t1 := n.whole + t2;
    var s := NumberText(n) + tail;
    ConcatAssociates(a, n.whole + (FractionText(n) + ExponentText(n)), tail);
    ConcatAssociates(n.whole, FractionText(n) + ExponentText(n), tail);
    ConcatAssociates(FractionText(n), ExponentText(n), tail);
    ConcatTails(a, n.whole, FractionText(n), t3);
  }

  // The machine as it stands at the start of a value.
  function Marked(m: Machine): Machine {
    if Depth(m) == m.ed then m.(j := m.i) else m
  }

  // How far the scan of a scalar goes.
  function ScanLength(a: Scalar, tail: string): nat {
    if a.Num? then NumberLength(NumberText(a.n) + tail) else |ScalarText(a)|
  }

  lemma AtomStep(m: Machine, a: Scalar, tail: string)
    requires m.want == WantValue && FormedScalar(a) && Ends(tail)
    ensures var t := ScalarText(a) + tail; var k := ScanLength(a, tail);
            && t != "" && !Space(t[0]) && Step(m, t) == EndValue(Marked(m), k)
            && k <= |ScalarText(a)| && (k == |ScalarText(a)| <==> LegibleScalar(a))
            && (k < |ScalarText(a)| ==> k > 0 && Digit(ScalarText(a)[k]))
    ensures ScalarText(a) != "" && !Space(ScalarText(a)[0])
  {
    hide PassString, NumberLength, NumberText, EndValue, Quoted, GoodRaw, Ends;
    var t := ScalarText(a) + tail;
    match a
    case True => assert t[..4] == "true";
    case Null => assert t[..4] == "null";
    case False => assert t[..5] == "false";
    case Num(n) =>
      NumberExact(n, tail);
      assert t[0] == NumberText(n)[0];
      StepNumber(m, t);
    case Str(raw) =>
      StepString(m, raw, tail);
  }

  lemma StepString(m: Machine, raw: string, tail: string)
    requires m.want == WantValue && GoodRaw(raw)
    ensures Quoted(raw) != "" && !Space(Quoted(raw)[0])
    ensures Step(m, Quoted(raw) + tail) == EndValue(Marked(m), |Quoted(raw)|)
  {
    hide EndValue, PassString, GoodRaw;
    var t := Quoted(raw) + tail;
    PassRaw(raw, tail);
    assert t[0] == '"' && t[1..] == raw + "\"" + tail;
  }

  lemma StepNumber(m: Machine, t: string)
    requires m.want == WantValue && t != "" && (t[0] == '-' || Digit(t[0]))
    ensures Step(m, t) == EndValue(Marked(m), NumberLength(t)) && NumberLength(t) > 0
  {
    hide EndValue, PassString;
    assert t[Signed(t)..] == if t[0] == '-' then t[1..] else t;
  }

  /// Moving along the text.

  lemma {:induction false} SkipBlank(m: Machine, ws: string, t: string)
    requires Blank(ws)
    ensures Run(m, ws + t) == Run(m.(i := m.i + |ws|), t)
    decreases |ws|
  {
    hide Step;
    if ws == "" {
      assert ws + t == t;
      assert m.(i := m.i + 0) == m;
    } else {
      assert (ws + t)[0] == ws[0] && (ws + t)[1..] == ws[1..] + t;
      SkipBlank(m.(i := m.i + 1), ws[1..], t);
    }
  }

  // One step over the text `a`, in front of t.
  lemma Take(m: Machine, a: string, t: string, next: Machine)
    requires a != "" && !Space(a[0]) && Step(m, a + t) == Go(next, |a|)
    ensures Run(m, a + t) == Run(next.(i := m.i + |a|), t)
  {
    hide Step;
    assert (a + t)[|a|..] == t;
  }

  lemma TakeLast(m: Machine, a: string, t: string, answer: Answer)
    requires a != "" && !Space(a[0]) && Step(m, a + t) == Return(answer)
    ensures Run(m, a + t) == answer
  {
    hide Step;
  }

  /// Values the path does not lead to.

  // No value that starts here is the one, nor does the path go on into it.
  predicate Quiet(m: Machine) {
    || Depth(m) > m.ed
    || (Depth(m) == m.ed && (m.ci != m.ei || (m.path != "" && m.path[0] != '.' && m.path[0] != '[')))
  }

  // The machine behind a value of n characters that was of no interest.
  function Behind(m: Machine, n: nat): Machine {
    Count(Marked(m)).(i := m.i + n, want := WantComma)
  }

  // What passing over comes to when a number in it cannot be read to the end.
  const STUCK := Error(INVALID)

  // The machine inside a bracket that is of no interest.
  function Inside(m: Machine, bracket: char, want: Expect): Machine {
    Marked(m).(i := m.i + 1, nesting := m.nesting + [bracket], want := want)
  }

  // A bracket here is not one the path goes on into.
  predicate StaysOutside(m: Machine) {
    || Depth(m) > m.ed
    || (Depth(m) == m.ed && (m.ci != m.ei || m.path == "" || (m.path[0] != '.' && m.path[0] != '[')))
  }

  lemma OpenQuiet(m: Machine, bracket: char, t: string)
    requires m.want == WantValue && StaysOutside(m) && Depth(m) < MAX_DEPTH && (bracket == '[' || bracket == '{')
    ensures Run(m, [bracket] + t) == Run(Inside(m, bracket, if bracket == '[' then WantValue else WantKey), t)
  {
    var next := Inside(m, bracket, if bracket == '[' then WantValue else WantKey).(i := m.i);
    assert Step(m, [bracket] + t) == Go(next, 1);
    Take(m, [bracket], t, next);
  }

  predicate ReadyToClose(m: Machine, bracket: char) {
    && m.nesting != "" && m.nesting[|m.nesting| - 1] == bracket && Depth(m) > m.ed
    && match bracket case '[' => m.want == WantValue || m.want == WantComma
                     case '{' => m.want == WantKey || m.want == WantComma
                     case _ => false
  }

  function Closing(bracket: char): string {
    if bracket == '[' then "]" else "}"
  }

  lemma CloseStep(m: Machine, bracket: char, t: string)
    requires ReadyToClose(m, bracket)
    ensures Step(m, Closing(bracket) + t) == EndValue(Pop(m), 1)
  {
  }

  lemma CloseQuiet(m: Machine, bracket: char, t: string)
    requires ReadyToClose(m, bracket) && Quiet(Pop(m))
    ensures Run(m, Closing(bracket) + t) == Run(Count(Pop(m)).(i := m.i + 1, want := WantComma), t)
  {
    CloseStep(m, bracket, t);
    hide Step;
    Take(m, Closing(bracket), t, Count(Pop(m)).(want := WantComma));
  }

  // A digit where a comma or a closing bracket is expected.
  lemma DigitStops(m: Machine, t: string)
    requires m.want == WantComma && t != "" && Digit(t[0])
    ensures Run(m, t) == STUCK
  {
  }

  lemma SkipAtom(m: Machine, a: Scalar, tail: string)
    requires m.want == WantValue && Quiet(m) && FormedScalar(a) && Ends(tail)
    ensures Run(m, ScalarText(a) + tail)
            == if LegibleScalar(a) then Run(Behind(m, |ScalarText(a)|), tail) else STUCK
  {
    hide Step, ScalarText, FormedScalar, LegibleScalar, Ends, ScanLength, Run;
    AtomStep(m, a, tail);
    var text, k := ScalarText(a), ScanLength(a, tail);
    var next := Count(Marked(m)).(want := WantComma);
    QuietEnds(m, k);
    assert text + tail == text[..k] + (text[k..] + tail);
    Take(m, text[..k], text[k..] + tail, next);
    if LegibleScalar(a) {
      assert text[k..] + tail == tail;
    } else {
      DigitStops(next.(i := m.i + k), text[k..] + tail);
    }
  }

  lemma QuietEnds(m: Machine, k: nat)
    requires Quiet(m)
    ensures EndValue(Marked(m), k) == Go(Count(Marked(m)).(want := WantComma), k)
  {
  }

  lemma {:induction false} SkipValue(m: Machine, v: Json, tail: string)
    requires m.want == WantValue && Quiet(m) && Formed(v) && Ends(tail)
    requires Depth(m) + Nesting(v) <= MAX_DEPTH
    ensures Run(m, Text(v) + tail) == if Legible(v) then Run(Behind(m, |Text(v)|), tail) else STUCK
    decreases v, 2
  {
    hide Run, Quiet, Ends, Behind;
    match v
    case Atom(a) => SkipAtom(m, a, tail);
    case EmptyArray(gap) => SkipBrackets(m, '[', gap, tail);
    case EmptyObject(gap) => SkipBrackets(m, '{', gap, tail);
    case Array(es) => SkipArray(m, es, tail);
    case Object(ms) => SkipObject(m, ms, tail);
  }

  lemma {:induction false} SkipArray(m: Machine, es: Elems, tail: string)
    requires m.want == WantValue && Quiet(m) && FormedElems(es) && Depth(m) + 1 + NestingElems(es) <= MAX_DEPTH
    ensures Run(m, Text(Array(es)) + tail)
            == if LegibleElems(es) then Run(Behind(m, |Text(Array(es))|), tail) else STUCK
    decreases es, 2
  {
    hide Run, Step, ElemsText, Behind, Quiet, StaysOutside;
    QuietOutside(m);
    InsideQuiet(m, '[', WantValue);
    var inner := ElemsText(es);
    ConcatAssociates("[", inner + "]", tail);
    ConcatAssociates(inner, "]", tail);
    OpenQuiet(m, '[', inner + ("]" + tail));
    SkipElems(Inside(m, '[', WantValue), es, tail);
    EndBrackets(m, '[', |inner|, tail);
  }

  lemma {:induction false} SkipObject(m: Machine, ms: Members, tail: string)
    requires m.want == WantValue && Quiet(m) && FormedMembers(ms) && Depth(m) + 1 + NestingMembers(ms) <= MAX_DEPTH
    ensures Run(m, Text(Object(ms)) + tail)
            == if LegibleMembers(ms) then Run(Behind(m, |Text(Object(ms))|), tail) else STUCK
    decreases ms, 2
  {
    hide Run, Step, MembersText, Behind, Quiet, StaysOutside;
    QuietOutside(m);
    InsideQuiet(m, '{', WantKey);
    var inner := MembersText(ms);
    ConcatAssociates("{", inner + "}", tail);
    ConcatAssociates(inner, "}", tail);
    OpenQuiet(m, '{', inner + ("}" + tail));
    SkipMembers(Inside(m, '{', WantKey), ms, tail);
    EndBrackets(m, '{', |inner|, tail);
  }

  lemma QuietOutside(m: Machine)
    requires Quiet(m)
    ensures StaysOutside(m)
  {
  }

  lemma InsideQuiet(m: Machine, bracket: char, want: Expect)
    requires StaysOutside(m)
    ensures var n := Inside(m, bracket, want);
            n.nesting != "" && n.nesting[|n.nesting| - 1] == bracket && Depth(n) == Depth(m) + 1 && Depth(n) > n.ed
  {
  }

  // From behind the last thing inside a bracket to behind the bracket.
  lemma EndBrackets(m: Machine, bracket: char, n: nat, tail: string)
    requires m.want == WantValue && Quiet(m) && (bracket == '[' || bracket == '{')
    ensures Run(Inside(m, bracket, WantComma).(i := m.i + 1 + n), Closing(bracket) + tail) == Run(Behind(m, n + 2), tail)
  {
    hide Run, Step;
    var m2 := Inside(m, bracket, WantComma).(i := m.i + 1 + n);
    assert Pop(m2).nesting == m.nesting;
    CloseQuiet(m2, bracket, tail);
    assert Count(Pop(m2)).(i := m2.i + 1, want := WantComma) == Behind(m, n + 2);
  }

  lemma SkipBrackets(m: Machine, bracket: char, gap: string, tail: string)
    requires m.want == WantValue && Quiet(m) && Depth(m) < MAX_DEPTH && Blank(gap) && (bracket == '[' || bracket == '{')
    ensures Run(m, [bracket] + (gap + Closing(bracket)) + tail) == Run(Behind(m, |gap| + 2), tail)
  {
    hide Run, Step;
    var rest := Closing(bracket) + tail;
    ConcatAssociates([bracket], gap + Closing(bracket), tail);
    ConcatAssociates(gap, Closing(bracket), tail);
    OpenQuiet(m, bracket, gap + rest);
    var m1 := Inside(m, bracket, if bracket == '[' then WantValue else WantKey);
    SkipBlank(m1, gap, rest);
    var m2 := m1.(i := m1.i + |gap|);
    assert Pop(m2).nesting == m.nesting;
    CloseQuiet(m2, bracket, tail);
    assert Count(Pop(m2)).(i := m2.i + 1, want := WantComma) == Behind(m, |gap| + 2);
  }

  // All elements of an array that is of no interest.
  lemma {:induction false} SkipElems(m: Machine, es: Elems, tail: string)
    requires m.want == WantValue && Depth(m) > m.ed && FormedElems(es)
    requires m.nesting != "" && m.nesting[|m.nesting| - 1] == '[' && Depth(m) + NestingElems(es) <= MAX_DEPTH
    ensures Run(m, ElemsText(es) + ("]" + tail))
            == if LegibleElems(es) then Run(m.(i := m.i + |ElemsText(es)|, want := WantComma), "]" + tail) else STUCK
    decreases es, 1
  {
    hide Run, Step;
    var rest := MoreElems(es) + ("]" + tail);
    ElemsTextParts(es, "]" + tail);
    SkipElem(m, es, rest);
    var m1 := m.(i := m.i + |es.before| + |Text(es.v)| + |es.after|, want := WantComma);
    if es.Elem? && Legible(es.v) {
      var more := ElemsText(es.more) + ("]" + tail);
      ConcatAssociates(",", ElemsText(es.more), "]" + tail);
      CommaStep(m1, '[', more);
      SkipElems(m1.(i := m1.i + 1, want := WantValue), es.more, tail);
    } else if es.LastElem? {
      assert rest == "]" + tail;
    }
  }

  lemma ElemsTextParts(es: Elems, t: string)
    ensures ElemsText(es) + t == es.before + (Text(es.v) + (es.after + (MoreElems(es) + t)))
  {
    hide Text, MoreElems;
    ConcatAssociates(es.before, Text(es.v) + (es.after + MoreElems(es)), t);
    ConcatAssociates(Text(es.v), es.after + MoreElems(es), t);
    ConcatAssociates(es.after, MoreElems(es), t);
  }

  // One element and the space around it.
  lemma {:induction false} SkipElem(m: Machine, es: Elems, rest: string)
    requires m.want == WantValue && Quiet(m) && Blank(es.before) && Formed(es.v) && Blank(es.after) && Ends(rest)
    requires Depth(m) + Nesting(es.v) <= MAX_DEPTH
    ensures var at := m.(i := m.i + |es.before|);
            Run(m, es.before + (Text(es.v) + (es.after + rest)))
            == if Legible(es.v)
               then Run(Behind(at, |Text(es.v)|).(i := m.i + |es.before| + |Text(es.v)| + |es.after|), rest)
               else STUCK
    decreases es, 0
  {
    hide Run;
    var at := m.(i := m.i + |es.before|);
    SkipBlank(m, es.before, Text(es.v) + (es.after + rest));
    assert Ends(es.after + rest);
    SkipValue(at, es.v, es.after + rest);
    SkipBlank(Behind(at, |Text(es.v)|), es.after, rest);
  }

  lemma CommaStep(m: Machine, bracket: char, t: string)
    requires m.want == WantComma && m.nesting != "" && m.nesting[|m.nesting| - 1] == bracket
    requires bracket == '[' || bracket == '{'
    ensures Run(m, "," + t) == Run(m.(i := m.i + 1, want := if bracket == '{' then WantKey else WantValue), t)
  {
    var next := m.(want := if bracket == '{' then WantKey else WantValue);
    assert Step(m, "," + t) == Go(next, 1);
    hide Step;
    Take(m, ",", t, next);
  }

  // A member up to its value, when the path does not name its key.
  predicate KeyPassedOver(m: Machine, key: string) {
    Depth(m) > m.ed || (Depth(m) == m.ed && m.prev == '.' && !KeyMatches(m.path, key))
  }

  predicate GoodKey(ms: Members) {
    Blank(ms.before) && PlainKey(ms.key) && Blank(ms.gap) && Blank(ms.lead)
  }

  // From the opening quote of a key to the value.
  lemma KeyRun(m: Machine, ms: Members, next: Machine, t: string)
    requires m.want == WantKey && GoodKey(ms) && next == PassKey(m, ms.key)
    requires Depth(m) > m.ed || (Depth(m) == m.ed && m.prev == '.')
    ensures Run(m, KeyText(ms) + t) == Run(next.(i := m.i + |KeyText(ms)|, want := WantValue), t)
  {
    var quoted := Quoted(ms.key);
    var t3 := ms.lead + t;
    var t2 := ":" + t3;
    var t1 := ms.gap + t2;
    KeyTextParts(ms, t);
    hide Run, Step, PassKey, KeyText, GoodRaw;
    SkipBlank(m, ms.before, quoted + t1);
    var m1 := m.(i := m.i + |ms.before|);
    KeyStep(m1, ms.key, t1);
    PassKeyMoved(m, m1.i, ms.key);
    Take(m1, quoted, t1, next.(i := m1.i, want := WantColon));
    var m3 := next.(i := m1.i + |quoted|, want := WantColon);
    SkipBlank(m3, ms.gap, t2);
    ColonStep(m3.(i := m3.i + |ms.gap|), t3);
    SkipBlank(m3.(i := m3.i + |ms.gap| + 1, want := WantValue), ms.lead, t);
  }

  lemma KeyTextParts(ms: Members, t: string)
    ensures KeyText(ms) + t == ms.before + (Quoted(ms.key) + (ms.gap + (":" + (ms.lead + t))))
    ensures |KeyText(ms)| == |ms.before| + |Quoted(ms.key)| + |ms.gap| + 1 + |ms.lead|
  {
    var quoted := Quoted(ms.key);
    hide Quoted;
    ConcatAssociates(ms.before, quoted + (ms.gap + (":" + ms.lead)), t);
    ConcatAssociates(quoted, ms.gap + (":" + ms.lead), t);
    ConcatAssociates(ms.gap, ":" + ms.lead, t);
    ConcatAssociates(":", ms.lead, t);
  }

  lemma PassKeyMoved(m: Machine, i: nat, key: string)
    ensures PassKey(m.(i := i), key) == PassKey(m, key).(i := i)
  {
  }

  lemma KeyStep(m: Machine, key: string, t: string)
    requires m.want == WantKey && GoodRaw(key)
    requires Depth(m) > m.ed || (Depth(m) == m.ed && m.prev == '.')
    ensures Step(m, Quoted(key) + t) == Go(PassKey(m, key).(want := WantColon), |key| + 2)
  {
    hide PassString, GoodRaw;
    var s := "\"" + key + "\"" + t;
    assert s[0] == '"' && s[1..] == key + "\"" + t;
    PassRaw(key, t);
    assert s[1..1 + |key|] == key;
  }

  lemma ColonStep(m: Machine, t: string)
    requires m.want == WantColon
    ensures Run(m, ":" + t) == Run(m.(i := m.i + 1, want := WantValue), t)
  {
    Take(m, ":", t, m.(want := WantValue));
  }

  // All members of an object that is of no interest.
  lemma {:induction false} SkipMembers(m: Machine, ms: Members, tail: string)
    requires m.want == WantKey && Depth(m) > m.ed && FormedMembers(ms)
    requires m.nesting != "" && m.nesting[|m.nesting| - 1] == '{' && Depth(m) + NestingMembers(ms) <= MAX_DEPTH
    ensures Run(m, MembersText(ms) + ("}" + tail))
            == if LegibleMembers(ms) then Run(m.(i := m.i + |MembersText(ms)|, want := WantComma), "}" + tail) else STUCK
    decreases ms, 1
  {
    hide Run;
    var rest := MoreMembers(ms) + ("}" + tail);
    MembersTextParts(ms, "}" + tail);
    SkipMember(m, ms, rest);
    var m1 := m.(i := m.i + |KeyText(ms)| + |Text(ms.v)| + |ms.after|, want := WantComma);
    if ms.Member? && Legible(ms.v) {
      var more := MembersText(ms.more) + ("}" + tail);
      ConcatAssociates(",", MembersText(ms.more), "}" + tail);
      CommaStep(m1, '{', more);
      SkipMembers(m1.(i := m1.i + 1, want := WantKey), ms.more, tail);
    } else if ms.LastMember? {
      assert rest == "}" + tail;
    }
  }

  lemma MembersTextParts(ms: Members, t: string)
    ensures MembersText(ms) + t == KeyText(ms) + (Text(ms.v) + (ms.after + (MoreMembers(ms) + t)))
  {
    hide Text, KeyText, MoreMembers;
    ConcatAssociates(KeyText(ms), Text(ms.v) + (ms.after + MoreMembers(ms)), t);
    ConcatAssociates(Text(ms.v), ms.after + MoreMembers(ms), t);
    ConcatAssociates(ms.after, MoreMembers(ms), t);
  }

  // One member that the path does not lead into.
  lemma {:induction false} SkipMember(m: Machine, ms: Members, rest: string)
    requires m.want == WantKey && GoodKey(ms) && Formed(ms.v) && Blank(ms.after) && Ends(rest)
    requires KeyPassedOver(m, ms.key) && Quiet(m)
    requires Depth(m) + Nesting(ms.v) <= MAX_DEPTH
    ensures var at := m.(i := m.i + |KeyText(ms)|, want := WantValue);
            Run(m, KeyText(ms) + (Text(ms.v) + (ms.after + rest)))
            == if Legible(ms.v)
               then Run(Behind(at, |Text(ms.v)|).(i := m.i + |KeyText(ms)| + |Text(ms.v)| + |ms.after|), rest)
               else STUCK
    decreases ms, 0
  {
    hide Run;
    KeyRun(m, ms, m, Text(ms.v) + (ms.after + rest));
    var at := m.(i := m.i + |KeyText(ms)|, want := WantValue);
    assert Ends(ms.after + rest);
    SkipValue(at, ms.v, ms.after + rest);
    SkipBlank(Behind(at, |Text(ms.v)|), ms.after, rest);
  }

  /// The value the path leads to.

  // The machine is at the start of a value the path has led to, with `items` of the path to go.
  predicate At(m: Machine, items: seq<Item>) {
    m.want == WantValue && Depth(m) == m.ed && m.ci == m.ei && m.path == PathText(items) && GoodPath(items)
  }

  lemma {:induction false} DecimalIndex(n: nat, t: string, prev: char) returns (last: char)
    ensures PathIndex(Decimal(n) + t, 0, prev) == PathIndex(t, n, last)
    decreases n
  {
    var d := ('0' as int + n % 10) as char;
    last := d;
    var high := if n < 10 then "" else Decimal(n / 10);
    var s := [d] + t;
    assert Decimal(n) + t == high + s;
    assert s[1..] == t && Value(d) == n % 10 && d != ']';
    if n < 10 {
      assert high + s == s;
    } else {
      var _ := DecimalIndex(n / 10, s, prev);
    }
  }

  lemma IndexText(n: nat, items: seq<Item>)
    ensures PathText([Index(n)] + items)[1..] == Decimal(n) + ("]" + PathText(items))
    ensures PathIndex(PathText([Index(n)] + items)[1..], 0, '[') == (n, ']', PathText(items))
  {
    var rest := "]" + PathText(items);
    assert ([Index(n)] + items)[1..] == items;
    assert PathText([Index(n)] + items) == "[" + (Decimal(n) + rest);
    var last := DecimalIndex(n, rest, '[');
    assert rest[1..] == PathText(items);
  }

  lemma KeyTextOfPath(key: string, items: seq<Item>)
    ensures PathText([Key(key)] + items) == "." + (key + PathText(items))
  {
    assert ([Key(key)] + items)[1..] == items;
  }

  // Keys without dots and brackets match the path exactly when they are the path's key.
  lemma KeyMatchesExactly(key: string, other: string, items: seq<Item>)
    requires PlainKey(key) && PlainKey(other) && key != ""
    ensures KeyMatches(key + PathText(items), other) <==> key == other
  {
    var path := key + PathText(items);
    assert PathText(items) == "" || PathText(items)[0] == '.' || PathText(items)[0] == '[';
    assert |path| > |key| ==> path[|key|] == PathText(items)[0];
    hide PathText, GoodRaw;
    if |other| < |key| {
      assert path[|other|] == key[|other|] && key[|other|] in key;
    } else if |other| == |key| {
      assert path[..|key|] == key;
    } else if |other| <= |path| {
      assert path[..|other|][|key|] == path[|key|];
      assert other[|key|] in other;
    }
  }

  // The end of a container that is the value itself.
  lemma EndFound(m: Machine, bracket: char, n: nat, tail: string)
    requires At(m, []) && (bracket == '[' || bracket == '{')
    ensures Run(Inside(m, bracket, WantComma).(i := m.i + 1 + n), Closing(bracket) + tail) == Found(m.i, n + 2)
  {
    var m2 := Inside(m, bracket, WantComma).(i := m.i + 1 + n);
    CloseStep(m2, bracket, tail);
    assert Pop(m2).nesting == m.nesting;
    hide Step;
    TakeLast(m2, Closing(bracket), tail, Found(m.i, n + 2));
  }

  lemma FindBrackets(m: Machine, bracket: char, gap: string, tail: string)
    requires At(m, []) && Depth(m) < MAX_DEPTH && Blank(gap) && (bracket == '[' || bracket == '{')
    ensures Run(m, [bracket] + (gap + Closing(bracket)) + tail) == Found(m.i, |gap| + 2)
  {
    var rest := Closing(bracket) + tail;
    ConcatAssociates([bracket], gap + Closing(bracket), tail);
    ConcatAssociates(gap, Closing(bracket), tail);
    OpenQuiet(m, bracket, gap + rest);
    var m1 := Inside(m, bracket, if bracket == '[' then WantValue else WantKey);
    hide Run;
    SkipBlank(m1, gap, rest);
    var m2 := m1.(i := m1.i + |gap|);
    CloseStep(m2, bracket, tail);
    assert Pop(m2).nesting == m.nesting;
    hide Step;
    TakeLast(m2, Closing(bracket), tail, Found(m.i, |gap| + 2));
  }

  lemma FindAtom(m: Machine, a: Scalar, tail: string)
    requires At(m, []) && FormedScalar(a) && Ends(tail)
    ensures Run(m, ScalarText(a) + tail) == Found(m.i, ScanLength(a, tail))
    ensures ScanLength(a, tail) <= |ScalarText(a)|
    ensures ScanLength(a, tail) == |ScalarText(a)| <==> LegibleScalar(a)
  {
    hide Step, ScalarText, FormedScalar, LegibleScalar, ScanLength;
    AtomStep(m, a, tail);
    TakeLast(m, ScalarText(a), tail, Found(m.i, ScanLength(a, tail)));
  }

  // The answer on a value at `at` of n characters, when a number on the way or in it, or it itself,
  // cannot be read to the end.
  predicate Missed(answer: Answer, at: nat, n: nat) {
    answer == STUCK || (answer.Found? && answer.offset == at && answer.toklen < n)
  }

  // The path ends here: the value is the one.
  lemma FindHere(m: Machine, v: Json, tail: string)
    requires At(m, []) && Formed(v) && Ends(tail) && Depth(m) + Nesting(v) <= MAX_DEPTH
    ensures var answer := Run(m, Text(v) + tail);
            if Legible(v) then answer == Found(m.i, |Text(v)|) else Missed(answer, m.i, |Text(v)|)
  {
    match v
    case Atom(a) => FindAtom(m, a, tail);
    case EmptyArray(gap) => FindBrackets(m, '[', gap, tail);
    case EmptyObject(gap) => FindBrackets(m, '{', gap, tail);
    case Array(es) =>
      var inner := ElemsText(es);
      ConcatAssociates("[", inner + "]", tail);
      ConcatAssociates(inner, "]", tail);
      FindArray(m, es, tail);
    case Object(ms) =>
      var inner := MembersText(ms);
      ConcatAssociates("{", inner + "}", tail);
      ConcatAssociates(inner, "}", tail);
      FindObject(m, ms, tail);
  }

  lemma HereStaysOutside(m: Machine)
    requires At(m, [])
    ensures StaysOutside(m) && m.want == WantValue && Depth(m) == m.ed
  {
  }

  lemma FindArray(m: Machine, es: Elems, tail: string)
    requires At(m, []) && FormedElems(es) && Depth(m) + 1 + NestingElems(es) <= MAX_DEPTH
    ensures Run(m, "[" + (ElemsText(es) + ("]" + tail)))
            == if LegibleElems(es) then Found(m.i, |ElemsText(es)| + 2) else STUCK
  {
    hide Run, Step, ElemsText, StaysOutside, FormedElems, NestingElems, LegibleElems, At, Ends;
    HereStaysOutside(m);
    InsideQuiet(m, '[', WantValue);
    OpenQuiet(m, '[', ElemsText(es) + ("]" + tail));
    SkipElems(Inside(m, '[', WantValue), es, tail);
    EndFound(m, '[', |ElemsText(es)|, tail);
  }

  lemma FindObject(m: Machine, ms: Members, tail: string)
    requires At(m, []) && FormedMembers(ms) && Depth(m) + 1 + NestingMembers(ms) <= MAX_DEPTH
    ensures Run(m, "{" + (MembersText(ms) + ("}" + tail)))
            == if LegibleMembers(ms) then Found(m.i, |MembersText(ms)| + 2) else STUCK
  {
    hide Run, Step, MembersText, StaysOutside, FormedMembers, NestingMembers, LegibleMembers, At, Ends;
    HereStaysOutside(m);
    InsideQuiet(m, '{', WantKey);
    OpenQuiet(m, '{', MembersText(ms) + ("}" + tail));
    SkipMembers(Inside(m, '{', WantKey), ms, tail);
    EndFound(m, '{', |MembersText(ms)|, tail);
  }

  // Into an object: the machine behind the brace, looking for the key.
  lemma EnterObject(m: Machine, key: string, items: seq<Item>, t: string)
    requires At(m, [Key(key)] + items) && Depth(m) < MAX_DEPTH
    ensures Run(m, "{" + t) == Run(m.(i := m.i + 1, j := m.i, nesting := m.nesting + "{", ed := m.ed + 1, prev := '.',
                                      path := key + PathText(items), ci := -1, ei := -1, want := WantKey), t)
  {
    KeyTextOfPath(key, items);
    var next := m.(j := m.i, nesting := m.nesting + "{", ed := m.ed + 1, prev := '.',
                   path := key + PathText(items), ci := -1, ei := -1, want := WantKey);
    assert m.path[1..] == next.path;
    assert Step(m, "{" + t) == Go(next, 1);
    hide Step;
    Take(m, "{", t, next);
  }

  // Into an array: the machine behind the bracket, counting elements.
  lemma EnterArray(m: Machine, n: nat, items: seq<Item>, t: string)
    requires At(m, [Index(n)] + items) && Depth(m) < MAX_DEPTH
    ensures Run(m, "[" + t) == Run(m.(i := m.i + 1, j := m.i, nesting := m.nesting + "[", ed := m.ed + 1, prev := ']',
                                      path := PathText(items), ci := 0, ei := n), t)
  {
    IndexText(n, items);
    var next := m.(j := m.i, nesting := m.nesting + "[", ed := m.ed + 1, prev := ']',
                   path := PathText(items), ci := 0, ei := n);
    hide PathIndex, Decimal;
    assert m.path[0] == '[';
    assert Step(m, "[" + t) == Go(next, 1);
    hide Step;
    Take(m, "[", t, next);
  }

  lemma {:induction false} FindValue(m: Machine, v: Json, items: seq<Item>, tail: string)
    requires At(m, items) && Formed(v) && Ends(tail) && Depth(m) + Nesting(v) <= MAX_DEPTH
    requires Locate(v, m.i, items).Some?
    ensures var place := Locate(v, m.i, items).value; var answer := Run(m, Text(v) + tail);
            if LegibleTo(v, items) then answer == Found(place.at, |Text(place.v)|)
            else Missed(answer, place.at, |Text(place.v)|)
    decreases v, 2
  {
    hide Run, Step, PathText;
    if items == [] {
      FindHere(m, v, tail);
    } else {
      var rest := items[1..];
      assert items == [items[0]] + rest;
      match items[0]
      case Key(key) =>
        var inner := MembersText(v.members);
        ConcatAssociates("{", inner + "}", tail);
        ConcatAssociates(inner, "}", tail);
        EnterObject(m, key, rest, inner + ("}" + tail));
        FindMember(m.(i := m.i + 1, j := m.i, nesting := m.nesting + "{", ed := m.ed + 1, prev := '.',
                      path := key + PathText(rest), ci := -1, ei := -1, want := WantKey),
                   v.members, key, rest, tail);
      case Index(n) =>
        var inner := ElemsText(v.elems);
        ConcatAssociates("[", inner + "]", tail);
        ConcatAssociates(inner, "]", tail);
        EnterArray(m, n, rest, inner + ("]" + tail));
        FindElem(m.(i := m.i + 1, j := m.i, nesting := m.nesting + "[", ed := m.ed + 1, prev := ']',
                    path := PathText(rest), ci := 0, ei := n), v.elems, n, rest, tail);
    }
  }

  lemma {:induction false} FindElem(m: Machine, es: Elems, n: nat, items: seq<Item>, tail: string)
    requires m.want == WantValue && Depth(m) == m.ed && m.ei == m.ci + n && 0 <= m.ci
    requires m.path == PathText(items) && GoodPath(items)
    requires m.nesting != "" && m.nesting[|m.nesting| - 1] == '['
    requires FormedElems(es) && Depth(m) + NestingElems(es) <= MAX_DEPTH
    requires LocateElem(es, m.i, n, items).Some?
    ensures var place := LocateElem(es, m.i, n, items).value; var answer := Run(m, ElemsText(es) + ("]" + tail));
            if LegibleToElem(es, n, items) then answer == Found(place.at, |Text(place.v)|)
            else Missed(answer, place.at, |Text(place.v)|)
    decreases es, 1
  {
    hide Run, Step, PathText, Text;
    var rest := MoreElems(es) + ("]" + tail);
    ElemsTextParts(es, "]" + tail);
    assert Ends(rest) && Ends(es.after + rest);
    if n == 0 {
      SkipBlank(m, es.before, Text(es.v) + (es.after + rest));
      FindValue(m.(i := m.i + |es.before|), es.v, items, es.after + rest);
    } else {
      SkipElem(m, es, rest);
      if !Legible(es.v) { return; }
      var m1 := Behind(m.(i := m.i + |es.before|), |Text(es.v)|).(i := m.i + |es.before| + |Text(es.v)| + |es.after|);
      var more := ElemsText(es.more) + ("]" + tail);
      ConcatAssociates(",", ElemsText(es.more), "]" + tail);
      CommaStep(m1, '[', more);
      FindElem(m1.(i := m1.i + 1, want := WantValue), es.more, n - 1, items, tail);
    }
  }

  lemma {:induction false} FindMember(m: Machine, ms: Members, key: string, items: seq<Item>, tail: string)
    requires m.want == WantKey && Depth(m) == m.ed && m.ci == m.ei == -1 && m.prev == '.'
    requires m.path == key + PathText(items) && GoodPath(items) && PlainKey(key) && key != ""
    requires m.nesting != "" && m.nesting[|m.nesting| - 1] == '{'
    requires FormedMembers(ms) && Depth(m) + NestingMembers(ms) <= MAX_DEPTH
    requires LocateMember(ms, m.i, key, items).Some?
    ensures var place := LocateMember(ms, m.i, key, items).value; var answer := Run(m, MembersText(ms) + ("}" + tail));
            if LegibleToMember(ms, key, items) then answer == Found(place.at, |Text(place.v)|)
            else Missed(answer, place.at, |Text(place.v)|)
    decreases ms, 1
  {
    hide Run, Step, PathText, Text, KeyText, KeyMatches, GoodRaw;
    var rest := MoreMembers(ms) + ("}" + tail);
    MembersTextParts(ms, "}" + tail);
    assert Ends(rest) && Ends(ms.after + rest);
    if ms.key == key {
      NamedKey(m, ms, items, Text(ms.v) + (ms.after + rest));
      FindValue(m.(i := m.i + |KeyText(ms)|, prev := key[|key| - 1], path := PathText(items), want := WantValue),
                ms.v, items, ms.after + rest);
    } else {
      OtherKey(m, ms.key, key, items);
      SkipMember(m, ms, rest);
      if !Legible(ms.v) { return; }
      var m1 := Behind(m.(i := m.i + |KeyText(ms)|, want := WantValue), |Text(ms.v)|)
                  .(i := m.i + |KeyText(ms)| + |Text(ms.v)| + |ms.after|);
      var more := MembersText(ms.more) + ("}" + tail);
      ConcatAssociates(",", MembersText(ms.more), "}" + tail);
      CommaStep(m1, '{', more);
      FindMember(m1.(i := m1.i + 1, want := WantKey), ms.more, key, items, tail);
    }
  }

  lemma OtherKey(m: Machine, other: string, key: string, items: seq<Item>)
    requires Depth(m) == m.ed && m.prev == '.' && m.path == key + PathText(items)
    requires PlainKey(key) && PlainKey(other) && key != "" && key != other
    ensures KeyPassedOver(m, other) && Quiet(m)
  {
    KeyMatchesExactly(key, other, items);
    assert m.path[0] == key[0] && key[0] in key;
  }

  lemma NamedKey(m: Machine, ms: Members, items: seq<Item>, t: string)
    requires m.want == WantKey && Depth(m) == m.ed && m.prev == '.' && GoodKey(ms) && ms.key != ""
    requires m.path == ms.key + PathText(items)
    ensures Run(m, KeyText(ms) + t)
            == Run(m.(i := m.i + |KeyText(ms)|, prev := ms.key[|ms.key| - 1], path := PathText(items), want := WantValue), t)
  {
    KeyMatchesExactly(ms.key, ms.key, items);
    assert m.path[|ms.key|..] == PathText(items);
    hide Run, KeyText, KeyMatches, PathText, GoodRaw;
    KeyRun(m, ms, m.(prev := ms.key[|ms.key| - 1], path := PathText(items)), t);
  }

  // For every well-formed document of nesting up to 30, with any white space anywhere, and every
  // path that exists in it: the offset and length returned are the span of the value it names if and
  // only if all numbers up to the end of that value can be read to the end.
  lemma GetRefinesLookup(before: string, v: Json, after: string, items: seq<Item>)
    requires Blank(before) && Blank(after) && Formed(v) && Nesting(v) <= 30 && GoodPath(items)
    requires Locate(v, |before|, items).Some?
    ensures var place := Locate(v, |before|, items).value; var answer := Get(before + Text(v) + after, "$" + PathText(items));
            && (answer == Found(place.at, |Text(place.v)|) <==> LegibleTo(v, items))
            && (!LegibleTo(v, items) ==> Missed(answer, place.at, |Text(place.v)|))
  {
    var path := "$" + PathText(items);
    assert path[1..] == PathText(items);
    hide Run, Text, PathText;
    ConcatAssociates(before, Text(v), after);
    SkipBlank(Start(path), before, Text(v) + after);
    FindValue(Start(path).(i := |before|), v, items, after);
  }

  // Behind a number that cannot be read to the end nothing is found: in [1e3080,2], for one, the digit
  // that is left of the number stops the search for the 2.
  lemma NumberInTheWay(es: Elems, n: nat, items: seq<Item>)
    requires n > 0 && FormedElems(es) && !Legible(es.v) && NestingElems(es) < MAX_DEPTH && GoodPath([Index(n)] + items)
    ensures Get("[" + (ElemsText(es) + "]"), "$" + PathText([Index(n)] + items)) == STUCK
  {
    hide Run, PathText, Text, Legible, FormedElems, NestingElems;
    InTheWayParts(es);
    var path := "$" + PathText([Index(n)] + items);
    assert path[1..] == PathText([Index(n)] + items);
    assert "" + "[" == "[" && "]" + "" == "]";
    var rest := MoreElems(es) + "]";
    EnterArray(Start(path), n, items, ElemsText(es) + "]");
    ElemsTextParts(es, "]");
    var m := Machine(1, 0, "[", 1, ']', PathText(items), 0, n, WantValue);
    SkipElem(m, es, rest);
  }

  lemma InTheWayParts(es: Elems)
    requires FormedElems(es)
    ensures Blank(es.before) && Formed(es.v) && Blank(es.after) && Nesting(es.v) <= NestingElems(es)
    ensures Ends(MoreElems(es) + "]")
  {
  }

  lemma ExponentTooLong()
    ensures Get("[1e3080,2]", "$[1]") == STUCK
  {
    hide Run, Step, Locate, ElemsText, NestingElems, FormedElems, Legible, PathText;
    var es := LongFirst();
    PathOne();
    NumberInTheWay(es, 1, []);
    assert "[" + ("1e3080,2" + "]") == "[1e3080,2]";
  }

  lemma PathOne()
    ensures "$" + PathText([Index(1)] + []) == "$[1]"
  {
    assert ([Index(1)] + [])[1..] == [];
  }

  lemma LongFirst() returns (es: Elems)
    ensures ElemsText(es) == "1e3080,2" && FormedElems(es) && !Legible(es.v) && NestingElems(es) == 0
  {
    var long, two := Number(false, "1", None, Some(('e', "", "3080"))), Number(false, "2", None, None);
    var last := LastElem("", Atom(Num(two)), "");
    es := Elem("", Atom(Num(long)), "", last);
    assert NumberText(long) == "1e3080" && NumberText(two) == "2" by { LongText(); }
    assert !ExponentSmall("0", 308) && !ExponentSmall("80", 30) && !ExponentSmall("080", 3) && !ExponentSmall("3080", 0);
    hide NumberText;
    assert ElemsText(last) == "2";
  }

  lemma LongText()
    ensures NumberText(Number(false, "1", None, Some(('e', "", "3080")))) == "1e3080"
    ensures NumberText(Number(false, "2", None, None)) == "2"
  {
  }
}
