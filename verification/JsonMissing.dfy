/** mg_json_get on paths that name nothing: it says so if only the last item may be an index. */
module JsonMissing {
  import opened Bytes
  import opened JsonScan
  import opened JsonDoc
  import opened JsonLookup

  const NOTHING := Error(NOT_FOUND)

  // The search ends: not found, or, only where some number cannot be read to its end, invalid.
  predicate Gone(answer: Answer, legible: bool) {
    answer == NOTHING || (answer == STUCK && !legible)
  }

  // No index but perhaps the last item.
  predicate LastOnly(items: seq<Item>) {
    forall k :: 0 <= k < |items| - 1 ==> items[k].Key?
  }

  /// Paths of keys that end in a key or an index.

  predicate Braces(nesting: string) {
    forall k :: 0 <= k < |nesting| ==> nesting[k] == '{'
  }

  // No more of the path can be passed.
  predicate Lost(m: Machine) {
    && m.want == WantComma && Braces(m.nesting)
    && (Depth(m) < m.ed || (Depth(m) == m.ed && m.path != "" && m.prev != '.' && m.ci == m.ei))
  }

  lemma LostKey(m: Machine, ms: Members, t: string)
    requires Lost(m) && m.nesting != "" && GoodKey(ms)
    ensures Run(m, "," + (KeyText(ms) + t)) == NOTHING
  {
    hide Run, KeyText, GoodRaw;
    CommaStep(m, '{', KeyText(ms) + t);
    KeyTextParts(ms, t);
    var t1 := ms.gap + (":" + (ms.lead + t));
    var m1 := m.(i := m.i + 1, want := WantKey);
    SkipBlank(m1, ms.before, Quoted(ms.key) + t1);
    KeyNotFound(m1.(i := m1.i + |ms.before|), ms.key, t1);
  }

  lemma KeyNotFound(m: Machine, key: string, t: string)
    requires m.want == WantKey && GoodRaw(key) && (Depth(m) < m.ed || (Depth(m) == m.ed && m.prev != '.'))
    ensures Run(m, Quoted(key) + t) == NOTHING
  {
    hide PassString, GoodRaw, Run;
    var s := Quoted(key) + t;
    assert s[0] == '"' && s[1..] == key + "\"" + t;
    PassRaw(key, t);
    TakeLast(m, Quoted(key), t, NOTHING);
  }

  // Leaving a container the path has led into, although nothing in it was the value: with no index, or
  // one that has been counted up to, the walk goes on behind it.
  lemma LeaveUnnoticed(m: Machine, bracket: char, t: string)
    requires m.nesting != "" && m.nesting[|m.nesting| - 1] == bracket && (bracket == '[' || bracket == '{')
    requires Depth(m) <= m.ed && (Depth(m) == m.ed ==> m.ci == m.ei)
    requires m.want == WantComma || (bracket == '[' && m.want == WantValue) || (bracket == '{' && m.want == WantKey)
    ensures var next := Pop(m).(i := m.i + 1, j := if bracket == '[' && m.want == WantValue then Marked(m).j else m.j,
                                want := WantComma);
            Run(m, Closing(bracket) + t) == Run(next, t)
  {
    hide Run, PassString, NumberLength, PathIndex;
    var next := Pop(m).(j := if bracket == '[' && m.want == WantValue then Marked(m).j else m.j, want := WantComma);
    assert Step(m, Closing(bracket) + t) == Go(next, 1);
    Take(m, Closing(bracket), t, next);
  }

  lemma LostClose(m: Machine, t: string) returns (next: Machine)
    requires Lost(m) && m.nesting != ""
    ensures next.nesting == m.nesting[..|m.nesting| - 1] && Lost(next) && Run(m, "}" + t) == Run(next, t)
  {
    hide Run;
    LeaveUnnoticed(m, '{', t);
    next := Pop(m).(i := m.i + 1, want := WantComma);
  }

  lemma LostBlank(m: Machine, ws: string, t: string)
    requires Lost(m) && Blank(ws)
    ensures Lost(m.(i := m.i + |ws|)) && Run(m, ws + t) == Run(m.(i := m.i + |ws|), t)
  {
    SkipBlank(m, ws, t);
  }

  // A value the path would go on into, were it of the other kind.
  predicate Other(m: Machine, v: Json) {
    && m.want == WantValue && Depth(m) == m.ed && m.path != ""
    && (v.Object? || v.EmptyObject? ==> m.path[0] != '.') && (v.Array? || v.EmptyArray? ==> m.path[0] != '[')
  }

  lemma OpenOther(m: Machine, bracket: char, t: string)
    requires m.want == WantValue && Depth(m) == m.ed < MAX_DEPTH && (bracket == '[' || bracket == '{')
    requires m.path != "" && m.path[0] != (if bracket == '[' then '[' else '.')
    ensures Run(m, [bracket] + t) == Run(Inside(m, bracket, if bracket == '[' then WantValue else WantKey), t)
  {
    var next := Inside(m, bracket, if bracket == '[' then WantValue else WantKey).(i := m.i);
    assert Step(m, [bracket] + t) == Go(next, 1);
    Take(m, [bracket], t, next);
  }

  lemma CloseOther(m: Machine, bracket: char, n: nat, want: Expect, tail: string)
    requires m.want == WantValue && Depth(m) == m.ed && m.path != "" && (bracket == '[' || bracket == '{')
    requires want == WantComma || want == (if bracket == '[' then WantValue else WantKey)
    ensures Run(Inside(m, bracket, want).(i := m.i + 1 + n), Closing(bracket) + tail) == Run(Behind(m, n + 2), tail)
  {
    hide Step, Run;
    var m2 := Inside(m, bracket, want).(i := m.i + 1 + n);
    CloseStep(m2, bracket, tail);
    assert Pop(m2).nesting == m.nesting;
    Take(m2, Closing(bracket), tail, Count(Pop(m2)).(want := WantComma));
    assert Count(Pop(m2)).(i := m2.i + 1, want := WantComma) == Behind(m, n + 2);
  }

  // It is passed over, if it can be read.
  lemma PassOther(m: Machine, v: Json, tail: string)
    requires Other(m, v) && Formed(v) && Ends(tail) && Depth(m) + Nesting(v) <= MAX_DEPTH
    ensures Run(m, Text(v) + tail) == if Legible(v) then Run(Behind(m, |Text(v)|), tail) else STUCK
  {
    hide Run, Step, Behind, Ends, ElemsText, MembersText, ScalarText, FormedScalar, LegibleScalar;
    match v
    case Atom(a) => PassAtom(m, a, tail);
    case EmptyArray(gap) => PassEmpty(m, '[', gap, tail);
    case EmptyObject(gap) => PassEmpty(m, '{', gap, tail);
    case Array(es) =>
      var inner := ElemsText(es);
      ConcatAssociates("[", inner + "]", tail);
      ConcatAssociates(inner, "]", tail);
      OpenOther(m, '[', inner + ("]" + tail));
      SkipElems(Inside(m, '[', WantValue), es, tail);
      CloseOther(m, '[', |inner|, WantComma, tail);
    case Object(ms) =>
      var inner := MembersText(ms);
      ConcatAssociates("{", inner + "}", tail);
      ConcatAssociates(inner, "}", tail);
      OpenOther(m, '{', inner + ("}" + tail));
      SkipMembers(Inside(m, '{', WantKey), ms, tail);
      CloseOther(m, '{', |inner|, WantComma, tail);
  }

  lemma PassAtom(m: Machine, a: Scalar, tail: string)
    requires m.want == WantValue && Depth(m) == m.ed && m.path != "" && FormedScalar(a) && Ends(tail)
    ensures Run(m, ScalarText(a) + tail)
            == if LegibleScalar(a) then Run(Behind(m, |ScalarText(a)|), tail) else STUCK
  {
    hide Step, ScalarText, FormedScalar, LegibleScalar, Ends, ScanLength, Run;
    AtomStep(m, a, tail);
    var text, k := ScalarText(a), ScanLength(a, tail);
    var next := Count(Marked(m)).(want := WantComma);
    assert text + tail == text[..k] + (text[k..] + tail);
    Take(m, text[..k], text[k..] + tail, next);
    if LegibleScalar(a) {
      assert text[k..] + tail == tail;
    } else {
      DigitStops(next.(i := m.i + k), text[k..] + tail);
    }
  }

  lemma PassEmpty(m: Machine, bracket: char, gap: string, tail: string)
    requires m.want == WantValue && Depth(m) == m.ed < MAX_DEPTH && Blank(gap) && (bracket == '[' || bracket == '{')
    requires m.path != "" && m.path[0] != (if bracket == '[' then '[' else '.')
    ensures Run(m, [bracket] + (gap + Closing(bracket)) + tail) == Run(Behind(m, |gap| + 2), tail)
  {
    hide Run, Behind;
    var rest := Closing(bracket) + tail;
    ConcatAssociates([bracket], gap + Closing(bracket), tail);
    ConcatAssociates(gap, Closing(bracket), tail);
    OpenOther(m, bracket, gap + rest);
    var want := if bracket == '[' then WantValue else WantKey;
    SkipBlank(Inside(m, bracket, want), gap, rest);
    CloseOther(m, bracket, |gap|, want, tail);
  }

  // The machine at a value that keys have led to, or at the start.
  predicate AtKeys(m: Machine, items: seq<Item>) {
    At(m, items) && LastOnly(items) && Braces(m.nesting) && m.ci == -1 && m.prev != '.'
  }

  lemma PathStarts(items: seq<Item>)
    requires items != []
    ensures PathText(items) != "" && PathText(items)[0] == if items[0].Key? then '.' else '['
  {
  }

  // A value in which the rest of the path names nothing: the search ends, or goes on lost behind it.
  lemma {:induction false} MissValue(m: Machine, v: Json, items: seq<Item>, tail: string)
    returns (lost: bool, next: Machine)
    requires AtKeys(m, items) && Formed(v) && Ends(tail) && Depth(m) + Nesting(v) <= MAX_DEPTH
    requires Locate(v, m.i, items).None?
    ensures if lost then Lost(next) && next.nesting == m.nesting && Run(m, Text(v) + tail) == Run(next, tail)
            else Gone(Run(m, Text(v) + tail), Legible(v))
    decreases v, 2
  {
    hide Run, Step, PathText, Ends, Legible, FormedElems, FormedMembers, LegibleElems, LegibleMembers;
    PathStarts(items);
    var rest := items[1..];
    assert items == [items[0]] + rest;
    if items[0].Key? && (v.Object? || v.EmptyObject?) {
      lost, next := MissInObject(m, v, items[0].key, rest, tail);
    } else if items[0].Index? && (v.Array? || v.EmptyArray?) {
      lost, next := MissInArray(m, v, items[0].n, rest, tail);
    } else {
      PassOther(m, v, tail);
      lost, next := Legible(v), Behind(m, |Text(v)|);
    }
  }

  function InObject(m: Machine, key: string, items: seq<Item>): Machine {
    m.(i := m.i + 1, j := m.i, nesting := m.nesting + "{", ed := m.ed + 1, prev := '.', path := key + PathText(items),
       ci := -1, ei := -1, want := WantKey)
  }

  function InArray(m: Machine, n: nat, items: seq<Item>): Machine {
    m.(i := m.i + 1, j := m.i, nesting := m.nesting + "[", ed := m.ed + 1, prev := ']', path := PathText(items),
       ci := 0, ei := n)
  }

  lemma {:induction false} MissInObject(m: Machine, v: Json, key: string, items: seq<Item>, tail: string)
    returns (lost: bool, next: Machine)
    requires AtKeys(m, [Key(key)] + items) && Formed(v) && Depth(m) + Nesting(v) <= MAX_DEPTH
    requires (v.Object? && LocateMember(v.members, m.i + 1, key, items).None?) || v.EmptyObject?
    ensures if lost then Lost(next) && next.nesting == m.nesting && Run(m, Text(v) + tail) == Run(next, tail)
            else Gone(Run(m, Text(v) + tail), Legible(v))
    decreases v, 1
  {
    hide Run, Step, PathText, MembersText, FormedMembers, LegibleMembers, NestingMembers, LocateMember;
    assert ([Key(key)] + items)[1..] == items && ([Key(key)] + items)[0] == Key(key);
    GoodRest(Key(key), items);
    var m1 := InObject(m, key, items);
    assert m1.nesting[..|m1.nesting| - 1] == m.nesting;
    match v
    case EmptyObject(gap) =>
      ConcatAssociates("{", gap + "}", tail);
      ConcatAssociates(gap, "}", tail);
      EnterObject(m, key, items, gap + ("}" + tail));
      SkipBlank(m1, gap, "}" + tail);
      LeaveUnnoticed(m1.(i := m1.i + |gap|), '{', tail);
      lost, next := true, Pop(m1).(i := m1.i + |gap| + 1, want := WantComma);
    case Object(ms) =>
      var inner := MembersText(ms);
      ConcatAssociates("{", inner + "}", tail);
      ConcatAssociates(inner, "}", tail);
      EnterObject(m, key, items, inner + ("}" + tail));
      lost, next := MissMember(m1, ms, key, items, tail);
  }

  lemma GoodRest(item: Item, items: seq<Item>)
    requires GoodPath([item] + items) && LastOnly([item] + items)
    ensures GoodPath(items) && LastOnly(items) && (item.Key? ==> PlainKey(item.key) && item.key != "")
    ensures item.Index? ==> items == []
  {
    var all := [item] + items;
    assert all[0] == item;
    forall k | 0 <= k < |items|
      ensures items[k] == all[k + 1]
    {
    }
  }

  // All members of the object the path has led into.
  lemma {:induction false} MissMember(m: Machine, ms: Members, key: string, items: seq<Item>, tail: string)
    returns (lost: bool, next: Machine)
    requires m.want == WantKey && Depth(m) == m.ed && m.ci == m.ei == -1 && m.prev == '.'
    requires m.path == key + PathText(items) && GoodPath(items) && LastOnly(items) && PlainKey(key) && key != ""
    requires m.nesting != "" && Braces(m.nesting)
    requires FormedMembers(ms) && Depth(m) + NestingMembers(ms) <= MAX_DEPTH
    requires LocateMember(ms, m.i, key, items).None?
    ensures var answer := Run(m, MembersText(ms) + ("}" + tail));
            if lost then Lost(next) && next.nesting == m.nesting[..|m.nesting| - 1] && answer == Run(next, tail)
            else Gone(answer, LegibleMembers(ms))
    decreases ms, 1
  {
    hide Run, Step, PathText, Text, KeyText, KeyMatches, GoodRaw;
    var rest := MoreMembers(ms) + ("}" + tail);
    MembersTextParts(ms, "}" + tail);
    assert Ends(rest) && Ends(ms.after + rest);
    if ms.key == key {
      NamedKey(m, ms, items, Text(ms.v) + (ms.after + rest));
      var at := m.(i := m.i + |KeyText(ms)|, prev := key[|key| - 1], path := PathText(items), want := WantValue);
      assert key[|key| - 1] in key;
      lost, next := MissValue(at, ms.v, items, ms.after + rest);
      if lost { lost, next := LostMember(next, ms, tail); }
    } else {
      OtherKey(m, ms.key, key, items);
      SkipMember(m, ms, rest);
      var m1 := Behind(m.(i := m.i + |KeyText(ms)|, want := WantValue), |Text(ms.v)|)
                  .(i := m.i + |KeyText(ms)| + |Text(ms.v)| + |ms.after|);
      if !Legible(ms.v) {
        lost, next := false, m1;
      } else if ms.Member? {
        var more := MembersText(ms.more) + ("}" + tail);
        ConcatAssociates(",", MembersText(ms.more), "}" + tail);
        CommaStep(m1, '{', more);
        lost, next := MissMember(m1.(i := m1.i + 1, want := WantKey), ms.more, key, items, tail);
      } else {
        assert rest == "}" + tail;
        LeaveUnnoticed(m1, '{', tail);
        lost, next := true, Pop(m1).(i := m1.i + 1, want := WantComma);
      }
    }
  }

  // Lost behind a member's value: at the next key the search ends; without one it leaves the object.
  lemma LostMember(m: Machine, ms: Members, tail: string) returns (lost: bool, next: Machine)
    requires Lost(m) && m.nesting != "" && FormedMembers(ms)
    ensures var answer := Run(m, ms.after + (MoreMembers(ms) + ("}" + tail)));
            if lost then Lost(next) && next.nesting == m.nesting[..|m.nesting| - 1] && answer == Run(next, tail)
            else answer == NOTHING
  {
    hide Run, Lost, Text, KeyText;
    LostBlank(m, ms.after, MoreMembers(ms) + ("}" + tail));
    next := m.(i := m.i + |ms.after|);
    if ms.Member? {
      lost := false;
      ConcatAssociates(",", MembersText(ms.more), "}" + tail);
      MembersTextParts(ms.more, "}" + tail);
      LostKey(next, ms.more, Text(ms.more.v) + (ms.more.after + (MoreMembers(ms.more) + ("}" + tail))));
    } else {
      lost := true;
      assert MoreMembers(ms) + ("}" + tail) == "}" + tail;
      next := LostClose(next, tail);
    }
  }

  lemma MissInArray(m: Machine, v: Json, n: nat, items: seq<Item>, tail: string) returns (lost: bool, next: Machine)
    requires AtKeys(m, [Index(n)] + items) && Formed(v) && Depth(m) + Nesting(v) <= MAX_DEPTH
    requires (v.Array? && LocateElem(v.elems, m.i + 1, n, items).None?) || v.EmptyArray?
    ensures if lost then Lost(next) && next.nesting == m.nesting && Run(m, Text(v) + tail) == Run(next, tail)
            else Gone(Run(m, Text(v) + tail), Legible(v))
  {
    hide Run, Step, PathText, ElemsText, FormedElems, LegibleElems, NestingElems, LocateElem;
    assert ([Index(n)] + items)[1..] == items && ([Index(n)] + items)[0] == Index(n);
    GoodRest(Index(n), items);
    var m1 := InArray(m, n, items);
    assert m1.nesting[..|m1.nesting| - 1] == m.nesting;
    match v
    case EmptyArray(gap) =>
      ConcatAssociates("[", gap + "]", tail);
      ConcatAssociates(gap, "]", tail);
      EnterArray(m, n, items, gap + ("]" + tail));
      SkipBlank(m1, gap, "]" + tail);
      lost, next := MissEnd(m1.(i := m1.i + |gap|), tail);
    case Array(es) =>
      var inner := ElemsText(es);
      ConcatAssociates("[", inner + "]", tail);
      ConcatAssociates(inner, "]", tail);
      EnterArray(m, n, items, inner + ("]" + tail));
      lost, next := MissElem(m1, es, n, tail);
  }

  // The end of the array the path has led into.
  lemma MissEnd(m: Machine, tail: string) returns (lost: bool, next: Machine)
    requires (m.want == WantComma || m.want == WantValue) && Depth(m) == m.ed
    requires m.nesting != "" && m.nesting[|m.nesting| - 1] == '[' && Braces(m.nesting[..|m.nesting| - 1])
    ensures var answer := Run(m, "]" + tail);
            if lost then Lost(next) && next.nesting == m.nesting[..|m.nesting| - 1] && answer == Run(next, tail)
            else answer == NOTHING
  {
    hide Run;
    lost := m.ci == m.ei;
    next := Pop(m).(i := m.i + 1, j := if m.want == WantValue then Marked(m).j else m.j, want := WantComma);
    if lost {
      LeaveUnnoticed(m, '[', tail);
    } else {
      TakeLast(m, "]", tail, NOTHING);
    }
  }

  // All elements of the array the path has led into, for an index that is the last item.
  lemma {:induction false} MissElem(m: Machine, es: Elems, n: nat, tail: string) returns (lost: bool, next: Machine)
    requires m.want == WantValue && Depth(m) == m.ed && m.ei == m.ci + n && 0 <= m.ci
    requires m.nesting != "" && m.nesting[|m.nesting| - 1] == '[' && Braces(m.nesting[..|m.nesting| - 1])
    requires FormedElems(es) && Depth(m) + NestingElems(es) <= MAX_DEPTH
    requires LocateElem(es, m.i, n, []).None?
    ensures var answer := Run(m, ElemsText(es) + ("]" + tail));
            if lost then Lost(next) && next.nesting == m.nesting[..|m.nesting| - 1] && answer == Run(next, tail)
            else Gone(answer, LegibleElems(es))
    decreases es
  {
    hide Run, Step, Text;
    assert n > 0 by { LocatesHere(es.v, m.i + |es.before|); }
    var rest := MoreElems(es) + ("]" + tail);
    ElemsTextParts(es, "]" + tail);
    assert Ends(rest);
    SkipElem(m, es, rest);
    var m1 := Behind(m.(i := m.i + |es.before|), |Text(es.v)|).(i := m.i + |es.before| + |Text(es.v)| + |es.after|);
    if !Legible(es.v) {
      lost, next := false, m1;
    } else if es.Elem? {
      var more := ElemsText(es.more) + ("]" + tail);
      ConcatAssociates(",", ElemsText(es.more), "]" + tail);
      CommaStep(m1, '[', more);
      lost, next := MissElem(m1.(i := m1.i + 1, want := WantValue), es.more, n - 1, tail);
    } else {
      assert rest == "]" + tail;
      lost, next := MissEnd(m1, tail);
    }
  }

  lemma LocatesHere(v: Json, at: nat)
    ensures Locate(v, at, []) == Some(Place(at, v))
  {
  }

  // For every well-formed document and every path whose only index, if any, is its last item: where it
  // names nothing nothing is found, and the answer says so unless a number stops the search.
  lemma MissingIsNotFound(before: string, v: Json, after: string, items: seq<Item>)
    requires Blank(before) && Blank(after) && Formed(v) && Nesting(v) <= MAX_DEPTH
    requires GoodPath(items) && LastOnly(items) && Locate(v, |before|, items).None?
    ensures Gone(Get(before + Text(v) + after, "$" + PathText(items)), Legible(v))
  {
    hide Run, Text, PathText, Locate, Formed, Legible, Nesting, GoodPath, LastOnly;
    var path := "$" + PathText(items);
    assert path[1..] == PathText(items);
    ConcatAssociates(before, Text(v), after);
    SkipBlank(Start(path), before, Text(v) + after);
    var lost, next := MissValue(Start(path).(i := |before|), v, items, after);
    if lost {
      assert after + "" == after;
      LostBlank(next, after, "");
      RunOut(next.(i := next.i + |after|));
    }
  }

  lemma RunOut(m: Machine)
    ensures Run(m, "") == NOTHING
  {
  }

  /// Paths with an index before the last item: a document in which a value is found elsewhere.

  // Just enough of a document for a path to exist in it.
  function Sample(items: seq<Item>): Json {
    if items == [] then Atom(Null)
    else match items[0]
      case Key(k) => Object(OneMember(k, Sample(items[1..])))
      case Index(n) => Array(Filled(n, LastElem("", Sample(items[1..]), "")))
  }

  function OneMember(key: string, v: Json): Members {
    LastMember("", key, "", "", v, "")
  }

  // n nulls in front of some elements.
  function Filled(n: nat, es: Elems): Elems {
    if n == 0 then es else Elem("", Atom(Null), "", Filled(n - 1, es))
  }

  // A container in which the item names nothing, and which the walk leaves without noticing ...
  function Decoy(item: Item): Json {
    match item
    case Key(_) => EmptyObject("")
    case Index(n) => if n == 0 then EmptyArray("") else Array(Filled(n - 1, LastElem("", Atom(Null), "")))
  }

  // ... and one to follow it, in which the walk goes on as if it were the same.
  function Bait(item: Item, items: seq<Item>): Json {
    match item
    case Key(k) => Object(OneMember(k, Sample(items)))
    case Index(_) => Array(LastElem("", Sample(items), ""))
  }

  function Trap(n: nat, item: Item, items: seq<Item>): Json {
    Array(Filled(n, Elem("", Decoy(item), "", LastElem("", Bait(item, items), ""))))
  }

  function Misleading(items: seq<Item>): Json
    requires !LastOnly(items)
  {
    if items[0].Key? then Object(OneMember(items[0].key, Misleading(items[1..])))
    else Trap(items[0].n, items[1], items[2..])
  }

  predicate Sound(v: Json) {
    Formed(v) && Legible(v)
  }

  lemma {:induction false} FilledGood(n: nat, es: Elems)
    requires FormedElems(es) && LegibleElems(es)
    ensures FormedElems(Filled(n, es)) && LegibleElems(Filled(n, es))
    ensures NestingElems(Filled(n, es)) == NestingElems(es)
    decreases n
  {
    if n > 0 { FilledGood(n - 1, es); }
  }

  lemma {:induction false} SampleGood(items: seq<Item>)
    requires GoodPath(items)
    ensures Sound(Sample(items)) && Nesting(Sample(items)) == |items|
    decreases |items|
  {
    if items != [] {
      GoodTail(items);
      SampleGood(items[1..]);
      if items[0].Index? { FilledGood(items[0].n, LastElem("", Sample(items[1..]), "")); }
    }
  }

  lemma GoodTail(items: seq<Item>)
    requires GoodPath(items) && items != []
    ensures GoodPath(items[1..]) && (items[0].Key? ==> PlainKey(items[0].key) && items[0].key != "")
  {
  }

  lemma {:induction false} SampleLocates(items: seq<Item>, at: nat)
    ensures Locate(Sample(items), at, items).Some? && LegibleTo(Sample(items), items)
    decreases |items|
  {
    if items != [] {
      var rest := items[1..];
      match items[0]
      case Key(k) =>
        SampleLocates(rest, at + 1 + |KeyText(OneMember(k, Sample(rest)))|);
      case Index(n) =>
        FilledLocates(n, LastElem("", Sample(rest), ""), at + 1, 0, rest);
        SampleLocates(rest, ElemPlace(n, at + 1));
    }
  }

  // The place behind n nulls and commas.
  function ElemPlace(n: nat, at: nat): nat {
    at + 5 * n
  }

  lemma {:induction false} FilledLocates(n: nat, es: Elems, at: nat, k: nat, items: seq<Item>)
    ensures LocateElem(Filled(n, es), at, n + k, items) == LocateElem(es, ElemPlace(n, at), k, items)
    ensures LegibleToElem(Filled(n, es), n + k, items) == LegibleToElem(es, k, items)
    decreases n
  {
    if n > 0 { FilledLocates(n - 1, es, at + 5, k, items); }
  }

  lemma DecoyGood(item: Item)
    ensures Sound(Decoy(item)) && Nesting(Decoy(item)) == 1
  {
    if item.Index? && item.n > 0 { FilledGood(item.n - 1, LastElem("", Atom(Null), "")); }
  }

  // In the decoy the item names nothing.
  lemma DecoyLacks(item: Item, items: seq<Item>, at: nat)
    ensures Locate(Decoy(item), at, [item] + items).None?
  {
    assert ([item] + items)[0] == item;
    if item.Index? && item.n > 0 {
      FilledLocates(item.n - 1, LastElem("", Atom(Null), ""), at + 1, 1, ([item] + items)[1..]);
    }
  }

  lemma BaitGood(item: Item, items: seq<Item>)
    requires GoodPath(items) && (item.Key? ==> PlainKey(item.key))
    ensures Sound(Bait(item, items)) && Nesting(Bait(item, items)) == 1 + |items|
  {
    SampleGood(items);
  }

  lemma {:induction false} MisleadingGood(items: seq<Item>)
    requires GoodPath(items) && !LastOnly(items)
    ensures Sound(Misleading(items)) && Nesting(Misleading(items)) <= |items|
    decreases |items|
  {
    GoodTail(items);
    if items[0].Key? {
      MisleadingGood(items[1..]);
    } else {
      var item, rest := items[1], items[2..];
      GoodTail(items[1..]);
      assert items[1..][1..] == rest && items[1..][0] == item;
      BaitGood(item, rest);
      DecoyGood(item);
      FilledGood(items[0].n, Elem("", Decoy(item), "", LastElem("", Bait(item, rest), "")));
    }
  }

  lemma {:induction false} MisleadingLacks(items: seq<Item>, at: nat)
    requires !LastOnly(items)
    ensures Locate(Misleading(items), at, items).None?
    decreases |items|
  {
    if items[0].Key? {
      MisleadingLacks(items[1..], at + 1 + |KeyText(OneMember(items[0].key, Misleading(items[1..])))|);
    } else {
      var n, item, rest := items[0].n, items[1], items[2..];
      FilledLocates(n, Elem("", Decoy(item), "", LastElem("", Bait(item, rest), "")), at + 1, 0, items[1..]);
      assert items[1..] == [item] + rest;
      DecoyLacks(item, rest, ElemPlace(n, at + 1));
    }
  }

  // The walk into a container of another value, as if it were the one it has left.
  lemma ReturnUnnoticed(m: Machine, bracket: char, t: string)
    requires m.want == WantValue && Depth(m) < m.ed && Depth(m) < MAX_DEPTH && (bracket == '[' || bracket == '{')
    ensures Run(m, [bracket] + t)
            == Run(m.(i := m.i + 1, nesting := m.nesting + [bracket],
                      want := if bracket == '[' then WantValue else WantKey), t)
  {
    var next := m.(nesting := m.nesting + [bracket], want := if bracket == '[' then WantValue else WantKey);
    assert Step(m, [bracket] + t) == Go(next, 1);
    hide Step;
    Take(m, [bracket], t, next);
  }

  predicate Counting(m: Machine) {
    && m.want == WantValue && Depth(m) == m.ed <= MAX_DEPTH && 0 <= m.ci
    && m.nesting != "" && m.nesting[|m.nesting| - 1] == '['
  }

  // Past the nulls in front.
  lemma {:induction false} PassFilled(m: Machine, n: nat, es: Elems, t: string) returns (next: Machine)
    requires Counting(m) && m.ei >= m.ci + n
    ensures next == m.(i := next.i, j := next.j, ci := m.ci + n) && Counting(next)
    ensures Run(m, ElemsText(Filled(n, es)) + t) == Run(next, ElemsText(es) + t)
    decreases n
  {
    hide Run;
    next := m;
    if n > 0 {
      var all, more := Filled(n, es), Filled(n - 1, es);
      ElemsTextParts(all, t);
      ConcatAssociates(",", ElemsText(more), t);
      var rest := "," + (ElemsText(more) + t);
      SkipElem(m, all, rest);
      var m1 := Behind(m, 4);
      CommaStep(m1, '[', ElemsText(more) + t);
      next := PassFilled(m1.(i := m1.i + 1, want := WantValue), n - 1, es, t);
    }
  }

  // All of n nulls, when the index is n.
  lemma PassAllNulls(m: Machine, n: nat, t: string) returns (next: Machine)
    requires Counting(m) && n > 0 && m.ei == m.ci + n
    ensures next == m.(i := next.i, j := next.j, ci := m.ei, want := WantComma)
    ensures Run(m, ElemsText(Filled(n - 1, LastElem("", Atom(Null), ""))) + ("]" + t)) == Run(next, "]" + t)
  {
    hide Run;
    var last := LastElem("", Atom(Null), "");
    var m1 := PassFilled(m, n - 1, last, "]" + t);
    ElemsTextParts(last, "]" + t);
    assert MoreElems(last) + ("]" + t) == "]" + t;
    SkipElem(m1, last, "]" + t);
    next := Behind(m1, 4);
  }

  // The machine behind a decoy: it still looks for what comes after its item.
  predicate Deceived(m: Machine, was: Machine, item: Item, items: seq<Item>) {
    && m.want == WantComma && m.nesting == was.nesting && m.ed == was.ed + 1
    && match item
       case Key(k) => m.prev == '.' && m.path == k + PathText(items) && m.ci == m.ei == -1
       case Index(n) => m.path == PathText(items) && m.ci == m.ei == n
  }

  lemma PassDecoy(m: Machine, item: Item, items: seq<Item>, t: string) returns (next: Machine)
    requires At(m, [item] + items) && Depth(m) < MAX_DEPTH
    ensures Deceived(next, m, item, items) && Run(m, Text(Decoy(item)) + t) == Run(next, t)
  {
    hide Run, PathText, ElemsText;
    match item
    case Key(k) =>
      assert Text(Decoy(item)) + t == "{" + ("}" + t);
      EnterObject(m, k, items, "}" + t);
      var m1 := InObject(m, k, items);
      LeaveUnnoticed(m1, '{', t);
      next := Pop(m1).(i := m1.i + 1, want := WantComma);
    case Index(n) =>
      var m1 := InArray(m, n, items);
      if n == 0 {
        assert Text(Decoy(item)) + t == "[" + ("]" + t);
        EnterArray(m, n, items, "]" + t);
      } else {
        var inner := ElemsText(Filled(n - 1, LastElem("", Atom(Null), "")));
        ConcatAssociates("[", inner + "]", t);
        ConcatAssociates(inner, "]", t);
        EnterArray(m, n, items, inner + ("]" + t));
        m1 := PassAllNulls(m1, n, t);
      }
      LeaveUnnoticed(m1, '[', t);
      next := Pop(m1).(i := m1.i + 1, j := if m1.want == WantValue then Marked(m1).j else m1.j, want := WantComma);
  }

  // The rest of the path is found in a sample of it.
  lemma SampleFound(m: Machine, items: seq<Item>, tail: string)
    requires At(m, items) && Ends(tail) && Depth(m) + |items| <= MAX_DEPTH
    ensures Run(m, Text(Sample(items)) + tail).Found?
  {
    hide Run, PathText, Text, Sample, Ends;
    SampleGood(items);
    SampleLocates(items, m.i);
    FindValue(m, Sample(items), items, tail);
  }

  lemma TakeBait(m: Machine, was: Machine, item: Item, items: seq<Item>, tail: string)
    requires m.want == WantValue && Deceived(m.(want := WantComma), was, item, items) && Depth(m) == was.ed
    requires GoodPath([item] + items) && Ends(tail) && Depth(m) + 1 + |items| <= MAX_DEPTH
    ensures Run(m, Text(Bait(item, items)) + tail).Found?
  {
    hide Run, PathText, Sample, KeyText, ElemsText, MembersText;
    GoodTail([item] + items);
    assert ([item] + items)[1..] == items && ([item] + items)[0] == item;
    match item
    case Key(k) =>
      var ms := OneMember(k, Sample(items));
      var inner := MembersText(ms);
      ConcatAssociates("{", inner + "}", tail);
      ConcatAssociates(inner, "}", tail);
      ReturnUnnoticed(m, '{', inner + ("}" + tail));
      var m1 := m.(i := m.i + 1, nesting := m.nesting + "{", want := WantKey);
      MembersTextParts(ms, "}" + tail);
      assert "" + ("" + ("}" + tail)) == "}" + tail;
      NamedKey(m1, ms, items, Text(Sample(items)) + ("}" + tail));
      SampleFound(m1.(i := m1.i + |KeyText(ms)|, prev := k[|k| - 1], path := PathText(items), want := WantValue),
                  items, "}" + tail);
    case Index(n) =>
      var es := LastElem("", Sample(items), "");
      var inner := ElemsText(es);
      ConcatAssociates("[", inner + "]", tail);
      ConcatAssociates(inner, "]", tail);
      ReturnUnnoticed(m, '[', inner + ("]" + tail));
      var m1 := m.(i := m.i + 1, nesting := m.nesting + "[");
      ElemsTextParts(es, "]" + tail);
      assert "" + ("" + ("]" + tail)) == "]" + tail;
      assert "" + (Text(Sample(items)) + ("]" + tail)) == Text(Sample(items)) + ("]" + tail);
      SampleFound(m1, items, "]" + tail);
  }

  lemma TrapFound(m: Machine, n: nat, item: Item, items: seq<Item>, tail: string)
    requires At(m, [Index(n)] + ([item] + items)) && Depth(m) + 2 + |items| <= MAX_DEPTH
    ensures Run(m, Text(Trap(n, item, items)) + tail).Found?
  {
    hide Run, PathText, ElemsText, Decoy, Bait;
    var all := [Index(n)] + ([item] + items);
    assert all[1..] == [item] + items;
    GoodTail(all);
    var last := LastElem("", Bait(item, items), "");
    var es := Elem("", Decoy(item), "", last);
    var inner := ElemsText(Filled(n, es));
    ConcatAssociates("[", inner + "]", tail);
    ConcatAssociates(inner, "]", tail);
    EnterArray(m, n, [item] + items, inner + ("]" + tail));
    var m2 := PassFilled(InArray(m, n, [item] + items), n, es, "]" + tail);
    var end := ElemsText(last) + ("]" + tail);
    ElemsTextParts(es, "]" + tail);
    ConcatAssociates(",", ElemsText(last), "]" + tail);
    assert "" + ("," + end) == "," + end && "" + (Text(Decoy(item)) + ("," + end)) == Text(Decoy(item)) + ("," + end);
    var m3 := PassDecoy(m2, item, items, "," + end);
    CommaStep(m3, '[', end);
    ElemsTextParts(last, "]" + tail);
    var bait := Text(Bait(item, items)) + ("]" + tail);
    assert "" + ("" + ("]" + tail)) == "]" + tail && "" + bait == bait;
    TakeBait(m3.(i := m3.i + 1, want := WantValue), m2, item, items, "]" + tail);
  }

  lemma {:induction false} MisleadingFound(m: Machine, items: seq<Item>, tail: string)
    requires At(m, items) && !LastOnly(items) && Depth(m) + |items| <= MAX_DEPTH
    ensures Run(m, Text(Misleading(items)) + tail).Found?
    decreases |items|
  {
    hide Run, PathText, KeyText, MembersText, Trap;
    GoodTail(items);
    var rest := items[1..];
    assert items == [items[0]] + rest;
    match items[0]
    case Key(k) =>
      var v := Misleading(rest);
      var ms := OneMember(k, v);
      var inner := MembersText(ms);
      ConcatAssociates("{", inner + "}", tail);
      ConcatAssociates(inner, "}", tail);
      EnterObject(m, k, rest, inner + ("}" + tail));
      MembersTextParts(ms, "}" + tail);
      assert "" + ("" + ("}" + tail)) == "}" + tail;
      var m1 := InObject(m, k, rest);
      NamedKey(m1, ms, rest, Text(v) + ("}" + tail));
      MisleadingFound(m1.(i := m1.i + |KeyText(ms)|, prev := k[|k| - 1], path := PathText(rest), want := WantValue),
                      rest, "}" + tail);
    case Index(n) =>
      assert rest == [items[1]] + items[2..];
      TrapFound(m, n, items[1], items[2..], tail);
  }

  // Something is found only if it exists, and, with numbers that can be read to their ends, if it does.
  predicate FoundRight(before: string, v: Json, after: string, items: seq<Item>) {
    Blank(before) && Blank(after) && Formed(v) && Nesting(v) <= 30 ==>
      var found, there := Get(before + Text(v) + after, "$" + PathText(items)).Found?, Locate(v, |before|, items).Some?;
      (found ==> there) && (Legible(v) && there ==> found)
  }

  /// Paths longer than documents nest: nothing exists and nothing is found.

  // What is left of the path: a key that is looked for here, if any, and items.
  predicate OnPath(m: Machine, key: string, items: seq<Item>) {
    && GoodPath(items) && m.ed + |items| > MAX_DEPTH
    && if key == "" then m.path == PathText(items) && m.prev != '.'
       else PlainKey(key) && m.path == key + PathText(items) && m.prev == '.'
  }

  ghost predicate Far(m: Machine) {
    exists key: string, items: seq<Item> :: OnPath(m, key, items)
  }

  lemma FarNotArrived(m: Machine)
    requires Far(m) && Depth(m) <= MAX_DEPTH
    ensures !Arrived(m)
  {
    var key, items :| OnPath(m, key, items);
    if items != [] { PathStarts(items); }
    hide PathText;
  }

  lemma FarStays(m: Machine, next: Machine)
    requires Far(m) && next.ed == m.ed && next.prev == m.prev && next.path == m.path
    ensures Far(next)
  {
    var key, items :| OnPath(m, key, items);
    assert OnPath(next, key, items);
  }

  lemma EndFar(m: Machine, n: nat)
    requires Far(m) && Depth(m) <= MAX_DEPTH
    ensures EndValue(m, n) == Go(Count(m).(want := WantComma), n) && Far(Count(m).(want := WantComma))
  {
    FarNotArrived(m);
    FarStays(m, Count(m).(want := WantComma));
  }

  lemma OpenFar(m: Machine, bracket: char, t: string) returns (next: Machine)
    requires m.want == WantValue && Far(m) && Depth(m) < MAX_DEPTH && (bracket == '[' || bracket == '{')
    ensures next.nesting == m.nesting + [bracket] && next.want == (if bracket == '[' then WantValue else WantKey)
    ensures Far(next) && Run(m, [bracket] + t) == Run(next, t)
  {
    hide Run, PathText, Decimal, PathIndex, GoodRaw;
    var key, items :| OnPath(m, key, items);
    var went := Marked(m);
    var step := Step(m, [bracket] + t);
    if Depth(m) == m.ed && m.ci == m.ei && Next(m.path) == (if bracket == '[' then '[' else '.') {
      PathGoesOn(m, key, items);
      PathStarts(items);
      GoodTail(items);
      assert items == [items[0]] + items[1..];
      next := EnterFar(m, bracket, items);
    } else {
      next := Inside(m, bracket, if bracket == '[' then WantValue else WantKey).(i := m.i);
      FarStays(m, next);
    }
    assert Step(m, [bracket] + t) == Go(next, 1);
    Take(m, [bracket], t, next);
    FarStays(next, next.(i := m.i + 1));
    next := next.(i := m.i + 1);
  }

  // A dot or bracket comes next only where no key is looked for, and items are left.
  lemma PathGoesOn(m: Machine, key: string, items: seq<Item>)
    requires OnPath(m, key, items)
    ensures m.path != "" && (m.path[0] == '.' || m.path[0] == '[') ==> key == "" && items != []
  {
    assert key != "" ==> m.path[0] == key[0] && key[0] in key;
  }

  lemma EnterFar(m: Machine, bracket: char, items: seq<Item>) returns (next: Machine)
    requires OnPath(m, "", items) && items != [] && (bracket == (if items[0].Key? then '{' else '['))
    requires Depth(m) == m.ed < MAX_DEPTH && m.ci == m.ei
    ensures Far(next) && next.nesting == m.nesting + [bracket]
    ensures next.want == if bracket == '[' then m.want else WantKey
    ensures (if bracket == '{' then OpenObject(Marked(m)) else OpenArray(Marked(m))) == Go(next, 1)
  {
    hide Decimal, PathIndex, GoodRaw;
    var rest := items[1..];
    assert items == [items[0]] + rest;
    GoodTail(items);
    PathStarts(items);
    match items[0]
    case Key(k) =>
      KeyTextOfPath(k, rest);
      hide PathText;
      next := OpenObject(Marked(m)).next;
      assert OnPath(next, k, rest);
    case Index(n) =>
      IndexText(n, rest);
      hide PathText;
      next := OpenArray(Marked(m)).next;
      assert OnPath(next, "", rest);
  }

  // A closing bracket, inside which nothing was found.
  lemma CloseFar(m: Machine, bracket: char, t: string) returns (on: bool, next: Machine)
    requires Far(m) && m.nesting != "" && m.nesting[|m.nesting| - 1] == bracket && Depth(m) <= MAX_DEPTH
    requires bracket == '[' || bracket == '{'
    requires m.want == WantComma || m.want == (if bracket == '[' then WantValue else WantKey)
    ensures var answer := Run(m, Closing(bracket) + t);
            if on then Far(next) && next.want == WantComma && next.nesting == m.nesting[..|m.nesting| - 1] && answer == Run(next, t)
            else answer.Error?
  {
    hide Run;
    var was := if m.want == WantValue then Marked(m) else m;
    on := !(Depth(m) == m.ed && m.ci != m.ei);
    next := Count(Pop(was)).(i := m.i + 1, want := WantComma);
    if on {
      FarStays(m, Pop(was));
      EndFar(Pop(was), 1);
      FarStays(m, next);
      Take(m, Closing(bracket), t, next.(i := m.i));
    } else {
      TakeLast(m, Closing(bracket), t, NOTHING);
    }
  }

  lemma KeyFar(m: Machine, ms: Members, t: string) returns (on: bool, next: Machine)
    requires m.want == WantKey && Far(m) && GoodKey(ms)
    ensures var answer := Run(m, KeyText(ms) + t);
            if on then Far(next) && next.want == WantValue && next.nesting == m.nesting && answer == Run(next, t)
            else answer.Error?
  {
    hide Run, KeyText, GoodRaw, KeyMatches, PathText;
    on := Depth(m) > m.ed || (Depth(m) == m.ed && m.prev == '.');
    next := PassKey(m, ms.key).(i := m.i + |KeyText(ms)|, want := WantValue);
    if on {
      KeyRun(m, ms, PassKey(m, ms.key), t);
      var key, items :| OnPath(m, key, items);
      if Depth(m) == m.ed && m.prev == '.' && KeyMatches(m.path, ms.key) {
        KeyMatchesExactly(key, ms.key, items);
        assert key[|key| - 1] in key && m.path[|key|..] == PathText(items);
        assert OnPath(next, "", items);
      } else {
        FarStays(m, next);
      }
    } else {
      KeyTextParts(ms, t);
      var t1 := ms.gap + (":" + (ms.lead + t));
      SkipBlank(m, ms.before, Quoted(ms.key) + t1);
      KeyNotFound(m.(i := m.i + |ms.before|), ms.key, t1);
    }
  }

  lemma BlankFar(m: Machine, ws: string, t: string)
    requires Far(m) && Blank(ws)
    ensures Far(m.(i := m.i + |ws|)) && Run(m, ws + t) == Run(m.(i := m.i + |ws|), t)
  {
    SkipBlank(m, ws, t);
    FarStays(m, m.(i := m.i + |ws|));
  }

  lemma AtomFar(m: Machine, a: Scalar, tail: string) returns (next: Machine)
    requires m.want == WantValue && Far(m) && FormedScalar(a) && Ends(tail) && Depth(m) <= MAX_DEPTH
    ensures Far(next) && next.want == WantComma && next.nesting == m.nesting
    ensures Run(m, ScalarText(a) + tail) == if LegibleScalar(a) then Run(next, tail) else STUCK
  {
    hide Step, ScalarText, FormedScalar, LegibleScalar, Ends, ScanLength, Run, EndValue;
    AtomStep(m, a, tail);
    var text, k := ScalarText(a), ScanLength(a, tail);
    FarStays(m, Marked(m));
    EndFar(Marked(m), k);
    next := Count(Marked(m)).(want := WantComma);
    assert text + tail == text[..k] + (text[k..] + tail);
    Take(m, text[..k], text[k..] + tail, next);
    FarStays(next, next.(i := m.i + k));
    next := next.(i := m.i + k);
    if LegibleScalar(a) {
      assert text[k..] + tail == tail;
    } else {
      DigitStops(next, text[k..] + tail);
    }
  }

  // Walking over a value: an error, or on behind it.
  lemma {:induction false} WalkValue(m: Machine, v: Json, tail: string) returns (on: bool, next: Machine)
    requires m.want == WantValue && Far(m) && Formed(v) && Ends(tail) && Depth(m) + Nesting(v) <= MAX_DEPTH
    ensures var answer := Run(m, Text(v) + tail);
            if on then Far(next) && next.want == WantComma && next.nesting == m.nesting && answer == Run(next, tail)
            else answer.Error?
    decreases v, 2
  {
    hide Run, Far, ScalarText, ElemsText, MembersText, FormedScalar, LegibleScalar;
    match v
    case Atom(a) =>
      on := LegibleScalar(a);
      next := AtomFar(m, a, tail);
    case EmptyArray(gap) =>
      ConcatAssociates("[", gap + "]", tail);
      ConcatAssociates(gap, "]", tail);
      next := OpenFar(m, '[', gap + ("]" + tail));
      BlankFar(next, gap, "]" + tail);
      on, next := CloseFar(next.(i := next.i + |gap|), '[', tail);
    case EmptyObject(gap) =>
      ConcatAssociates("{", gap + "}", tail);
      ConcatAssociates(gap, "}", tail);
      next := OpenFar(m, '{', gap + ("}" + tail));
      BlankFar(next, gap, "}" + tail);
      on, next := CloseFar(next.(i := next.i + |gap|), '{', tail);
    case Array(es) =>
      var inner := ElemsText(es);
      ConcatAssociates("[", inner + "]", tail);
      ConcatAssociates(inner, "]", tail);
      next := OpenFar(m, '[', inner + ("]" + tail));
      on, next := WalkElems(next, es, tail);
    case Object(ms) =>
      var inner := MembersText(ms);
      ConcatAssociates("{", inner + "}", tail);
      ConcatAssociates(inner, "}", tail);
      next := OpenFar(m, '{', inner + ("}" + tail));
      on, next := WalkMembers(next, ms, tail);
  }

  // From the first element to behind the bracket.
  lemma {:induction false} WalkElems(m: Machine, es: Elems, tail: string) returns (on: bool, next: Machine)
    requires m.want == WantValue && Far(m) && FormedElems(es)
    requires m.nesting != "" && m.nesting[|m.nesting| - 1] == '[' && Depth(m) + NestingElems(es) <= MAX_DEPTH
    ensures var answer := Run(m, ElemsText(es) + ("]" + tail));
            if on then Far(next) && next.want == WantComma && next.nesting == m.nesting[..|m.nesting| - 1] && answer == Run(next, tail)
            else answer.Error?
    decreases es, 1
  {
    hide Run, Far, Text;
    var rest := MoreElems(es) + ("]" + tail);
    ElemsTextParts(es, "]" + tail);
    assert Ends(rest) && Ends(es.after + rest);
    BlankFar(m, es.before, Text(es.v) + (es.after + rest));
    on, next := WalkValue(m.(i := m.i + |es.before|), es.v, es.after + rest);
    if on {
      BlankFar(next, es.after, rest);
      next := next.(i := next.i + |es.after|);
      if es.Elem? {
        ConcatAssociates(",", ElemsText(es.more), "]" + tail);
        next := CommaFar(next, '[', ElemsText(es.more) + ("]" + tail));
        on, next := WalkElems(next, es.more, tail);
      } else {
        assert rest == "]" + tail;
        on, next := CloseFar(next, '[', tail);
      }
    }
  }

  lemma CommaFar(m: Machine, bracket: char, t: string) returns (next: Machine)
    requires m.want == WantComma && Far(m) && m.nesting != "" && m.nesting[|m.nesting| - 1] == bracket
    requires bracket == '[' || bracket == '{'
    ensures Far(next) && next.want == (if bracket == '{' then WantKey else WantValue) && next.nesting == m.nesting
    ensures Run(m, "," + t) == Run(next, t)
  {
    CommaStep(m, bracket, t);
    next := m.(i := m.i + 1, want := if bracket == '{' then WantKey else WantValue);
    FarStays(m, next);
  }

  lemma {:induction false} WalkMembers(m: Machine, ms: Members, tail: string) returns (on: bool, next: Machine)
    requires m.want == WantKey && Far(m) && FormedMembers(ms)
    requires m.nesting != "" && m.nesting[|m.nesting| - 1] == '{' && Depth(m) + NestingMembers(ms) <= MAX_DEPTH
    ensures var answer := Run(m, MembersText(ms) + ("}" + tail));
            if on then Far(next) && next.want == WantComma && next.nesting == m.nesting[..|m.nesting| - 1] && answer == Run(next, tail)
            else answer.Error?
    decreases ms, 1
  {
    hide Run, Far, Text, KeyText;
    var rest := MoreMembers(ms) + ("}" + tail);
    MembersTextParts(ms, "}" + tail);
    assert Ends(rest) && Ends(ms.after + rest);
    on, next := KeyFar(m, ms, Text(ms.v) + (ms.after + rest));
    if on { on, next := WalkValue(next, ms.v, ms.after + rest); }
    if on {
      BlankFar(next, ms.after, rest);
      next := next.(i := next.i + |ms.after|);
      if ms.Member? {
        ConcatAssociates(",", MembersText(ms.more), "}" + tail);
        next := CommaFar(next, '{', MembersText(ms.more) + ("}" + tail));
        on, next := WalkMembers(next, ms.more, tail);
      } else {
        assert rest == "}" + tail;
        on, next := CloseFar(next, '{', tail);
      }
    }
  }

  // A path that exists is no longer than the document nests.
  lemma {:induction false} PathIsShort(v: Json, at: nat, items: seq<Item>)
    ensures Locate(v, at, items).Some? ==> |items| <= Nesting(v)
    decreases v, 1
  {
    if items != [] {
      match items[0]
      case Key(k) => if v.Object? { PathIsShortMembers(v.members, at + 1, k, items[1..]); }
      case Index(n) => if v.Array? { PathIsShortElems(v.elems, at + 1, n, items[1..]); }
    }
  }

  lemma {:induction false} PathIsShortElems(es: Elems, at: nat, n: nat, items: seq<Item>)
    ensures LocateElem(es, at, n, items).Some? ==> |items| <= NestingElems(es)
    decreases es, 0
  {
    var start := at + |es.before|;
    PathIsShort(es.v, start, items);
    if n > 0 && es.Elem? { PathIsShortElems(es.more, start + |Text(es.v)| + |es.after| + 1, n - 1, items); }
  }

  lemma {:induction false} PathIsShortMembers(ms: Members, at: nat, key: string, items: seq<Item>)
    ensures LocateMember(ms, at, key, items).Some? ==> |items| <= NestingMembers(ms)
    decreases ms, 0
  {
    var start := at + |KeyText(ms)|;
    PathIsShort(ms.v, start, items);
    if ms.Member? { PathIsShortMembers(ms.more, start + |Text(ms.v)| + |ms.after| + 1, key, items); }
  }

  lemma LongPathFoundRight(before: string, v: Json, after: string, items: seq<Item>)
    requires GoodPath(items) && |items| > MAX_DEPTH
    ensures FoundRight(before, v, after, items)
  {
    hide Run, Text, PathText, Locate, Formed, Legible, GoodPath, Nesting;
    PathIsShort(v, |before|, items);
    if Blank(before) && Blank(after) && Formed(v) && Nesting(v) <= MAX_DEPTH {
      var path := "$" + PathText(items);
      var m := Start(path);
      assert path[1..] == PathText(items);
      assert OnPath(m, "", items);
      ConcatAssociates(before, Text(v), after);
      BlankFar(m, before, Text(v) + after);
      var on, next := WalkValue(m.(i := |before|), v, after);
      if on {
        assert after + "" == after;
        BlankFar(next, after, "");
        RunOut(next.(i := next.i + |after|));
      }
    }
  }

  lemma LastOnlyFoundRight(before: string, v: Json, after: string, items: seq<Item>)
    requires GoodPath(items) && LastOnly(items)
    ensures FoundRight(before, v, after, items)
  {
    hide Run, Text, PathText, Locate, Formed, Legible, LastOnly, GoodPath, Nesting;
    if Blank(before) && Blank(after) && Formed(v) && Nesting(v) <= MAX_DEPTH {
      if Locate(v, |before|, items).Some? {
        if Legible(v) { LegibleAll(v, items); }
        GetRefinesLookup(before, v, after, items);
      } else {
        MissingIsNotFound(before, v, after, items);
      }
    }
  }

  lemma {:induction false} LegibleAll(v: Json, items: seq<Item>)
    requires Legible(v)
    ensures LegibleTo(v, items)
    decreases v, 1
  {
    if items != [] {
      match items[0]
      case Key(k) => if v.Object? { LegibleAllMembers(v.members, k, items[1..]); }
      case Index(n) => if v.Array? { LegibleAllElems(v.elems, n, items[1..]); }
    }
  }

  lemma {:induction false} LegibleAllElems(es: Elems, n: nat, items: seq<Item>)
    requires LegibleElems(es)
    ensures LegibleToElem(es, n, items)
    decreases es, 0
  {
    if n == 0 { LegibleAll(es.v, items); } else if es.Elem? { LegibleAllElems(es.more, n - 1, items); }
  }

  lemma {:induction false} LegibleAllMembers(ms: Members, key: string, items: seq<Item>)
    requires LegibleMembers(ms)
    ensures LegibleToMember(ms, key, items)
    decreases ms, 0
  {
    if ms.key == key { LegibleAll(ms.v, items); } else if ms.Member? { LegibleAllMembers(ms.more, key, items); }
  }

  // With an index before the last item there is a document in which a path that does not exist is found.
  lemma EarlyIndexFoundWrong(items: seq<Item>)
    requires GoodPath(items) && !LastOnly(items) && |items| <= MAX_DEPTH
    ensures !FoundRight("", Misleading(items), "", items)
  {
    hide Run, Text, PathText, Misleading, Locate, LastOnly, GoodPath;
    MisleadingGood(items);
    MisleadingLacks(items, 0);
    var path := "$" + PathText(items);
    assert path[1..] == PathText(items);
    var m := Start(path);
    MisleadingFound(m, items, "");
    assert "" + Text(Misleading(items)) == Text(Misleading(items)) == Text(Misleading(items)) + "";
  }

  // In every well-formed document a path finds something only if it exists there, and does so if the numbers
  // can be read, if and only if no index stands before its last item, or it is longer than any document the
  // search takes can nest.
  lemma ExactPaths(items: seq<Item>)
    requires GoodPath(items)
    ensures (forall before, v, after :: FoundRight(before, v, after, items))
            <==> LastOnly(items) || |items| > 30
  {
    hide FoundRight, LastOnly, GoodPath;
    if LastOnly(items) || |items| > MAX_DEPTH {
      forall before, v, after
        ensures FoundRight(before, v, after, items)
      {
        if LastOnly(items) {
          LastOnlyFoundRight(before, v, after, items);
        } else {
          LongPathFoundRight(before, v, after, items);
        }
      }
    } else {
      EarlyIndexFoundWrong(items);
    }
  }

  /// The two shapes of such documents.

  function OneDigit(d: char): Scalar {
    Num(Number(false, [d], None, None))
  }

  lemma NoItems()
    ensures PathText([]) == ""
  {
  }

  lemma PlainA()
    ensures PlainKey("a")
  {
  }

  lemma OneDigitText(d: char)
    requires Digit(d)
    ensures ScalarText(OneDigit(d)) == [d] && FormedScalar(OneDigit(d)) && LegibleScalar(OneDigit(d))
  {
  }

  // So a path that does not exist can be found all the same. An index one past the end of an array
  // finds the first element of the next array: in [[5],[8,9]], for one, $[0][1] finds the 8 ...
  lemma MissingIndexFound(d: char, e: char, rest: string)
    requires Digit(d) && Digit(e) && Ends(rest)
    ensures Get("[" + ("[" + ([d] + ("]" + ("," + ("[" + ([e] + rest)))))), "$" + PathText([Index(0)] + [Index(1)]))
            == Found(6, 1)
  {
    hide Run, PathText, ScalarText, FormedScalar, LegibleScalar, OneDigit;
    OneDigitText(d);
    OneDigitText(e);
    NoItems();
    assert [Index(1)] + [] == [Index(1)] && "" + "[" == "[" && "[" + "[" == "[[";
    var t6 := [e] + rest;
    var t4 := "," + ("[" + t6);
    var t3 := "]" + t4;
    var path := "$" + PathText([Index(0)] + [Index(1)]);
    assert path[1..] == PathText([Index(0)] + [Index(1)]);
    var m1 := Machine(1, 0, "[", 1, ']', PathText([Index(1)]), 0, 0, WantValue);
    EnterArray(Start(path), 0, [Index(1)], "[" + ([d] + t3));
    var m2 := Machine(2, 1, "[[", 2, ']', "", 0, 1, WantValue);
    EnterArray(m1, 1, [], [d] + t3);
    SkipAtom(m2, OneDigit(d), t3);
    var m3 := Machine(3, 2, "[[", 2, ']', "", 1, 1, WantComma);
    assert Behind(m2, 1) == m3;
    LeaveUnnoticed(m3, '[', t4);
    var m4 := m3.(i := 4, nesting := "[");
    assert Pop(m3).nesting == "[";
    CommaStep(m4, '[', "[" + t6);
    var m5 := m4.(i := 5, want := WantValue);
    ReturnUnnoticed(m5, '[', t6);
    FindAtom(m5.(i := 6, nesting := "[["), OneDigit(e), rest);
  }

  lemma MemberA(d: char) returns (member: Members)
    requires Digit(d)
    ensures member.key == "a" && KeyText(member) == "\"a\":" && GoodKey(member)
  {
    OneDigitText(d);
    member := LastMember("", "a", "", "", Atom(OneDigit(d)), "");
  }

  // ... and a key that an object lacks is found in the next object: in [{},{"a":2}], for one,
  // $[0].a finds the 2.
  lemma MissingKeyFound(d: char, rest: string)
    requires Digit(d) && Ends(rest)
    ensures Get("[" + ("{" + ("}" + ("," + ("{" + ("\"a\":" + ([d] + rest)))))), "$" + PathText([Index(0)] + [Key("a")]))
            == Found(9, 1)
  {
    hide Run, PathText, GoodRaw;
    NextObjectSearched(d, rest);
    NoItems();
    PlainA();
    assert [Key("a")] + [] == [Key("a")] && "a" + "" == "a" && "" + "[" == "[";
    var t5 := "\"a\":" + ([d] + rest);
    var t3 := "," + ("{" + t5);
    var path := "$" + PathText([Index(0)] + [Key("a")]);
    assert path[1..] == PathText([Index(0)] + [Key("a")]);
    var m1 := Machine(1, 0, "[", 1, ']', PathText([Key("a")]), 0, 0, WantValue);
    EnterArray(Start(path), 0, [Key("a")], "{" + ("}" + t3));
    var m2 := Machine(2, 1, "[" + "{", 2, '.', "a", -1, -1, WantKey);
    EnterObject(m1, "a", [], "}" + t3);
    LeaveUnnoticed(m2, '{', t3);
    assert Pop(m2).nesting == "[";
    CommaStep(m2.(i := 3, nesting := "[", want := WantComma), '[', "{" + t5);
  }

  lemma NextObjectSearched(d: char, rest: string)
    requires Digit(d) && Ends(rest)
    ensures Run(Machine(4, 1, "[", 2, '.', "a", -1, -1, WantValue), "{" + ("\"a\":" + ([d] + rest))) == Found(9, 1)
  {
    hide Run, PathText, ScalarText, KeyText, GoodKey, GoodRaw, FormedScalar, LegibleScalar, OneDigit;
    var m4 := Machine(4, 1, "[", 2, '.', "a", -1, -1, WantValue);
    OneDigitText(d);
    NoItems();
    PlainA();
    assert "a" + "" == "a";
    var member := MemberA(d);
    ReturnUnnoticed(m4, '{', KeyText(member) + ([d] + rest));
    var m5 := m4.(i := 5, nesting := "[" + "{", want := WantKey);
    NamedKey(m5, member, [], [d] + rest);
    FindAtom(m5.(i := 9, prev := 'a', path := "", want := WantValue), OneDigit(d), rest);
  }
}
