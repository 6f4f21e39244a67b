/** Whole documents and malformed ones: how deep a document may nest, and where the search refuses a character. */
module JsonDepth {
  import opened Bytes
  import opened JsonScan
  import opened JsonDoc
  import opened JsonLookup

  /// Documents that nest too deep, from the first bracket that does.

  lemma {:induction false} DeepValue(m: Machine, v: Json, tail: string)
    requires m.want == WantValue && StaysOutside(m) && Formed(v) && Legible(v)
    requires Depth(m) <= 30 < Depth(m) + Nesting(v)
    ensures Run(m, Text(v) + tail) == Error(-1)
    decreases v, 1
  {
    hide Run, Step, StaysOutside, ElemsText, MembersText;
    match v
    case EmptyArray(gap) =>
      ConcatAssociates("[", gap + "]", tail);
      OneTooMany(m, '[', gap + "]" + tail);
    case EmptyObject(gap) =>
      ConcatAssociates("{", gap + "}", tail);
      OneTooMany(m, '{', gap + "}" + tail);
    case Array(es) =>
      var inner := ElemsText(es);
      ConcatAssociates("[", inner + "]", tail);
      ConcatAssociates(inner, "]", tail);
      if Depth(m) == 30 {
        OneTooMany(m, '[', inner + ("]" + tail));
      } else {
        OpenQuiet(m, '[', inner + ("]" + tail));
        InsideQuiet(m, '[', WantValue);
        DeepElems(Inside(m, '[', WantValue), es, tail);
      }
    case Object(ms) =>
      var inner := MembersText(ms);
      ConcatAssociates("{", inner + "}", tail);
      ConcatAssociates(inner, "}", tail);
      if Depth(m) == 30 {
        OneTooMany(m, '{', inner + ("}" + tail));
      } else {
        OpenQuiet(m, '{', inner + ("}" + tail));
        InsideQuiet(m, '{', WantKey);
        DeepMembers(Inside(m, '{', WantKey), ms, tail);
      }
  }

  // The 31st bracket.
  lemma OneTooMany(m: Machine, bracket: char, t: string)
    requires m.want == WantValue && Depth(m) == 30 && (bracket == '[' || bracket == '{')
    ensures Run(m, [bracket] + t) == Error(-1)
  {
    var s := [bracket] + t;
    assert Step(m, s) == Return(Error(TOO_DEEP));
    hide Step;
  }

  lemma {:induction false} DeepElems(m: Machine, es: Elems, tail: string)
    requires m.want == WantValue && Depth(m) > m.ed && FormedElems(es) && LegibleElems(es)
    requires m.nesting != "" && m.nesting[|m.nesting| - 1] == '[' && Depth(m) <= 30 < Depth(m) + NestingElems(es)
    ensures Run(m, ElemsText(es) + ("]" + tail)) == Error(-1)
    decreases es, 0
  {
    hide Run, Step;
    var rest := MoreElems(es) + ("]" + tail);
    ElemsTextParts(es, "]" + tail);
    if Depth(m) + Nesting(es.v) > 30 {
      SkipBlank(m, es.before, Text(es.v) + (es.after + rest));
      DeepValue(m.(i := m.i + |es.before|), es.v, es.after + rest);
    } else {
      SkipElem(m, es, rest);
      var m1 := m.(i := m.i + |es.before| + |Text(es.v)| + |es.after|, want := WantComma);
      var more := ElemsText(es.more) + ("]" + tail);
      ConcatAssociates(",", ElemsText(es.more), "]" + tail);
      CommaStep(m1, '[', more);
      DeepElems(m1.(i := m1.i + 1, want := WantValue), es.more, tail);
    }
  }

  lemma {:induction false} DeepMembers(m: Machine, ms: Members, tail: string)
    requires m.want == WantKey && Depth(m) > m.ed && FormedMembers(ms) && LegibleMembers(ms)
    requires m.nesting != "" && m.nesting[|m.nesting| - 1] == '{' && Depth(m) <= 30 < Depth(m) + NestingMembers(ms)
    ensures Run(m, MembersText(ms) + ("}" + tail)) == Error(-1)
    decreases ms, 0
  {
    hide Run, Step;
    var rest := MoreMembers(ms) + ("}" + tail);
    MembersTextParts(ms, "}" + tail);
    if Depth(m) + Nesting(ms.v) > 30 {
      KeyRun(m, ms, m, Text(ms.v) + (ms.after + rest));
      DeepValue(m.(i := m.i + |KeyText(ms)|, want := WantValue), ms.v, ms.after + rest);
    } else {
      SkipMember(m, ms, rest);
      var m1 := m.(i := m.i + |KeyText(ms)| + |Text(ms.v)| + |ms.after|, want := WantComma);
      var more := MembersText(ms.more) + ("}" + tail);
      ConcatAssociates(",", MembersText(ms.more), "}" + tail);
      CommaStep(m1, '{', more);
      DeepMembers(m1.(i := m1.i + 1, want := WantKey), ms.more, tail);
    }
  }

  // A document whose numbers can be read is found whole, when it nests up to 30, and is too deep otherwise.
  lemma WholeDocument(before: string, v: Json, after: string)
    requires Blank(before) && Blank(after) && Formed(v) && Legible(v)
    ensures Get(before + Text(v) + after, "$") == if Nesting(v) <= 30 then Found(|before|, |Text(v)|) else Error(-1)
  {
    hide Run, Text, Nesting, Formed, Legible;
    if Nesting(v) <= 30 {
      assert PathText([]) == "" && "$" + "" == "$";
      GetRefinesLookup(before, v, after, []);
    } else {
      ConcatAssociates(before, Text(v), after);
      SkipBlank(Start("$"), before, Text(v) + after);
      DeepValue(Start("$").(i := |before|), v, after);
    }
  }

  /// The longest exponent that is read to its end: one digit more, as in 1e3080, and the 2 is not found.

  const LONGEST := Number(false, "1", None, Some(('e', "", "3079")))
  const LONG_FIRST := Elem("", Atom(Num(LONGEST)), "", LastElem("", Atom(Num(Number(false, "2", None, None))), ""))

  lemma ExponentShortEnough()
    ensures Get("[1e3079,2]", "$[1]") == Found(8, 1)
  {
    LongestIs();
    LongestPlace();
    PathOne();
    hide Run, Text, Locate, LegibleTo, Formed, Nesting, PathText;
    assert "[1e3079,2]" == "" + "[1e3079,2]" + "";
    assert [Index(1)] + [] == [Index(1)];
    GetRefinesLookup("", Array(LONG_FIRST), "", [Index(1)]);
  }

  lemma LongestIs()
    ensures Formed(Array(LONG_FIRST)) && Nesting(Array(LONG_FIRST)) == 1 && LegibleTo(Array(LONG_FIRST), [Index(1)])
  {
    assert ExponentSmall("", 3079) && ExponentSmall("9", 307) && ExponentSmall("79", 30) && ExponentSmall("079", 3);
    assert ExponentSmall("3079", 0);
    assert FormedNumber(LONGEST) && LegibleNumber(LONGEST);
  }

  lemma LongestPlace()
    ensures Text(Array(LONG_FIRST)) == "[1e3079,2]"
    ensures Locate(Array(LONG_FIRST), 0, [Index(1)]) == Some(Place(8, Atom(Num(Number(false, "2", None, None)))))
    ensures Text(Atom(Num(Number(false, "2", None, None)))) == "2"
  {
    assert NumberText(LONGEST) == "1e3079" && NumberText(Number(false, "2", None, None)) == "2";
    hide NumberText;
    var last := LONG_FIRST.more;
    assert ElemsText(last) == "2" && MoreElems(LONG_FIRST) == ",2";
    assert ElemsText(LONG_FIRST) == "1e3079,2";
    assert [Index(1)][1..] == [];
  }

  /// Malformed documents.

  // The characters that may come next.
  function Allowed(want: Expect): string {
    match want
    case WantValue => "{[]tfn-0123456789\""
    case WantKey => "\"}"
    case WantColon => ":"
    case WantComma => ",]}"
  }

  // White space is passed over wherever the search stands; any other character that may not come next ends it.
  lemma Refused(m: Machine, c: char, t: string)
    requires c !in Allowed(m.want)
    ensures Run(m, [c] + t) == if c in " \t\n\r" then Run(m.(i := m.i + 1), t) else Error(-2)
  {
    var s := [c] + t;
    assert s[0] == c && s[1..] == t;
    assert Space(c) <==> c in " \t\n\r";
    StepRefused(m, c, t);
    hide Step, Space, Allowed;
  }

  lemma StepRefused(m: Machine, c: char, t: string)
    requires c !in Allowed(m.want)
    ensures Step(m, [c] + t) == Return(Error(-2))
  {
    hide PassString, NumberLength, OpenObject, OpenArray, Close, EndValue, Digit, PassKey;
    DigitsAre(c);
  }

  lemma DigitsAre(c: char)
    ensures Digit(c) <==> c in "0123456789"
  {
    var ds := "0123456789";
    if Digit(c) {
      var d := (c as int) - ('0' as int);
      assert ds[d] as int == '0' as int + d;
    }
  }

  // Words cut short, a string without its end, brackets that do not match, text that ends too early, and a
  // path that does not begin with a dollar sign.
  lemma Broken(m: Machine, t: string, path: string)
    ensures m.want == WantValue && t != "" && t[0] in "tfn" && !("true" <= t || "false" <= t || "null" <= t) ==>
              Run(m, t) == Error(-2)
    ensures m.want == WantComma && m.nesting != "" && Depth(m) != m.ed && t != ""
            && t[0] == (if m.nesting[|m.nesting| - 1] == '[' then '}' else ']') && m.nesting[|m.nesting| - 1] in "[{" ==>
              Run(m, t) == Error(-2)
    ensures m.want == WantValue && t != "" && t[0] == '"' && '"' !in t[1..] ==> Run(m, t) == Error(-2)
    ensures t == "" ==> Run(m, t) == Error(-3)
    ensures path == "" || path[0] != '$' ==> Get(t, path) == Error(-2)
  {
    if m.want == WantValue && t != "" && t[0] == '"' && '"' !in t[1..] { NoEnd(t[1..]); }
    hide PassString;
  }

  lemma {:induction false} NoEnd(s: string)
    requires '"' !in s
    ensures PassString(s) == -2
    decreases |s|
  {
    if s != "" {
      NoEnd(s[1..]);
      if |s| > 1 { NoEnd(s[2..]); }
    }
  }
}
