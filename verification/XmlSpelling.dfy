/** Documents however they are written: any white space and quotes in tags, entities and references in text. */
module XmlSpelling {
  import opened Bytes
  import opened XmlText
  import opened XmlReference
  import opened XmlPrinter
  import opened XmlParser
  import opened XmlRoundTrip

  /// Characters: as themselves, by name, or by number.

  datatype Spelling =
    | Itself(c: char)
    | Named(c: char)
    | Decimal(ds: string, n: nat)
    | Hexadecimal(ds: string, n: nat)

  predicate SpellsWell(p: Spelling) {
    match p
    case Itself(c) => c != '&' && c != '\r'
    case Named(c) => Pattern(c).Some?
    case Decimal(ds, n) => ds != "" && StandsFor(ds, 10, n) && n < TWO_32
    case Hexadecimal(ds, n) => ds != "" && StandsFor(ds, 16, n)
  }

  function Spelled(p: Spelling): string {
    match p
    case Itself(c) => [c]
    case Named(c) => "&" + (if Pattern(c).Some? then Pattern(c).value else "") + ";"
    case Decimal(ds, _) => "&#" + ds + ";"
    case Hexadecimal(ds, _) => "&#x" + ds + ";"
  }

  function Stands(p: Spelling): string
    requires SpellsWell(p)
  {
    match p
    case Itself(c) => [c]
    case Named(c) => [c]
    case Decimal(_, n) => Utf8(n)
    case Hexadecimal(_, n) => Utf8(Word(n))
  }

  predicate AllWell(ps: seq<Spelling>) {
    forall k :: 0 <= k < |ps| ==> SpellsWell(ps[k])
  }

  function SpelledAll(ps: seq<Spelling>): string {
    if ps == [] then "" else Spelled(ps[0]) + SpelledAll(ps[1..])
  }

  function StandsAll(ps: seq<Spelling>): string
    requires AllWell(ps)
  {
    if ps == [] then "" else Stands(ps[0]) + StandsAll(ps[1..])
  }

  lemma {:induction false} NoReturnSpelled(ps: seq<Spelling>)
    requires AllWell(ps)
    ensures At(SpelledAll(ps), 0) != '\r'
    decreases |ps|
  {
    if ps != [] {
      assert Spelled(ps[0]) != "" && SpelledAll(ps)[0] == Spelled(ps[0])[0];
    }
  }

  // One step of the decoder takes one character, however it is spelled.
  lemma StepOfSpelling(s: string, i: nat, p: Spelling, x: string)
    requires i <= |s| && s[i..] == Spelled(p) + x && SpellsWell(p) && At(x, 0) != '\r'
    ensures i < |s| && Step(s, BOTH, i) == Move(i + |Spelled(p)|, Some(Stands(p)))
  {
    Behind(s, i, Spelled(p) + x);
    assert At(s, i + 0) == At(Spelled(p) + x, 0);
    match p
    case Itself(c) =>
      assert At(s, i + 1) == At([c] + x, 1) == At(x, 0);
    case Named(c) =>
      assert "&" + Pattern(c).value + ";" + x == ['&'] + Pattern(c).value + [';'] + x;
      StepOfSpecial(s, i, c, x);
    case Decimal(ds, n) =>
      NumberIs(ds, 10, n);
      DecimalIs(s, i, ds, x);
      hide CharacterRef, Utf8, Number, Entity, DigitsIn, StandsFor, Word;
    case Hexadecimal(ds, n) =>
      NumberIs(ds, 16, n);
      HexIs(s, i, ds, x);
      hide CharacterRef, Utf8, Number, Entity, DigitsIn, StandsFor, Word;
  }

  lemma {:induction false} DecodeSpelledFrom(s: string, i: nat, out: string, ps: seq<Spelling>)
    requires |out| <= i <= |s| && s[i..] == SpelledAll(ps) && AllWell(ps)
    ensures Decoded(s, BOTH, i, out) == out + StandsAll(ps)
    decreases |ps|
  {
    hide Step, Spelled, Stands, SpellsWell;
    if ps == [] {
      assert i == |s| && out + "" == out;
    } else {
      var rest := SpelledAll(ps[1..]);
      NoReturnSpelled(ps[1..]);
      StepOfSpelling(s, i, ps[0], rest);
      var n := i + |Spelled(ps[0])|;
      Behind(s, i, Spelled(ps[0]) + rest);
      assert s[n..] == rest;
      DecodeSpelledFrom(s, n, out + Stands(ps[0]), ps[1..]);
      ConcatAssociates(out, Stands(ps[0]), StandsAll(ps[1..]));
    }
  }

  // Text decodes to the characters it spells.
  lemma DecodeSpelled(ps: seq<Spelling>)
    requires AllWell(ps)
    ensures Decode(SpelledAll(ps), BOTH) == StandsAll(ps)
  {
    assert SpelledAll(ps)[0..] == SpelledAll(ps) && "" + StandsAll(ps) == StandsAll(ps);
    DecodeSpelledFrom(SpelledAll(ps), 0, "", ps);
  }

  /// Tags and documents.

  // An attribute: white space, a name, an equals sign with white space around it, and a quoted value.
  datatype Spelt = Spelt(before: string, name: string, left: string, right: string, quote: char, raw: string)

  // What stands between two pieces of markup, and the second of them.
  datatype Item = Item(gap: string, mark: Mark)

  datatype Mark =
    | Other(node: Node)
    | Tag(lead: string, name: string, attributes: seq<Spelt>, behind: string, inner: Inner)

  // The end tag: white space, its name, and white space again.
  datatype Inner = Closed | Open(items: seq<Item>, last: string, close: string, end: string, closing: string)

  function AttributeSpelt(a: Spelt): string {
    a.before + (a.name + (a.left + ("=" + (a.right + ([a.quote] + (a.raw + [a.quote]))))))
  }

  function AttributesSpelt(attributes: seq<Spelt>): string {
    if attributes == [] then "" else AttributeSpelt(attributes[0]) + AttributesSpelt(attributes[1..])
  }

  function ItemsSpelt(items: seq<Item>): string
    decreases items
  {
    if items == [] then "" else items[0].gap + (MarkSpelt(items[0].mark) + ItemsSpelt(items[1..]))
  }

  function MarkSpelt(m: Mark): string
    decreases m
  {
    match m
    case Other(node) => if node.Element? || node.Text? then "" else Head(node) + (node.value + Tail(node))
    case Tag(lead, name, attributes, behind, inner) =>
      "<" + (lead + (name + (AttributesSpelt(attributes) + (behind + InnerSpelt(inner)))))
  }

  function InnerSpelt(inner: Inner): string
    decreases inner
  {
    match inner
    case Closed => "/>"
    case Open(items, last, close, end, closing) =>
      ">" + (ItemsSpelt(items) + (last + ("<" + (close + ("/" + (end + (closing + ">")))))))
  }

  ghost predicate WellSpelt(g: Grammar, a: Spelt) {
    && Blank(g, a.before) && ValidName(g, a.name) && Blank(g, a.left) && Blank(g, a.right)
    && (a.quote == '"' || a.quote == '\'') && a.quote !in a.raw
  }

  // The first attribute is parted from the name; a quote parts the others.
  ghost predicate AttributesWell(g: Grammar, attributes: seq<Spelt>) {
    && (forall k :: 0 <= k < |attributes| ==> WellSpelt(g, attributes[k]))
    && (attributes != [] ==> attributes[0].before != "")
  }

  ghost predicate ItemsWell(g: Grammar, items: seq<Item>)
    decreases items
  {
    items == [] || ('<' !in items[0].gap && MarkWell(g, items[0].mark) && ItemsWell(g, items[1..]))
  }

  ghost predicate MarkWell(g: Grammar, m: Mark)
    decreases m
  {
    match m
    case Other(node) => !node.Element? && !node.Text? && Printable(g, node)
    case Tag(lead, name, attributes, behind, inner) =>
      && Blank(g, lead) && ValidName(g, name) && AttributesWell(g, attributes) && Blank(g, behind)
      && InnerWell(g, inner)
  }

  ghost predicate InnerWell(g: Grammar, inner: Inner)
    decreases inner
  {
    match inner
    case Closed => true
    case Open(items, last, close, end, closing) =>
      ItemsWell(g, items) && '<' !in last && Blank(g, close) && ValidName(g, end) && Blank(g, closing)
  }

  /// What it means.

  function Value(a: Spelt): Attribute {
    Attribute(a.name, Decode(a.raw, BOTH))
  }

  function Values(attributes: seq<Spelt>): seq<Attribute> {
    if attributes == [] then [] else [Value(attributes[0])] + Values(attributes[1..])
  }

  function TextOf(g: Grammar, gap: string): seq<Node> {
    if Blank(g, gap) then [] else [Text(Decode(gap, BOTH))]
  }

  function Meaning(g: Grammar, items: seq<Item>): seq<Node>
    decreases items
  {
    if items == [] then [] else TextOf(g, items[0].gap) + ([MarkMeaning(g, items[0].mark)] + Meaning(g, items[1..]))
  }

  function MarkMeaning(g: Grammar, m: Mark): Node
    decreases m
  {
    match m
    case Other(node) =>
      (match node
       case CData(v) => CData(Newlines(v))
       case Comment(v) => Comment(Newlines(v))
       case Declaration(v) => Declaration(Newlines(v))
       case Unknown(v) => Unknown(Newlines(v))
       case _ => node)
    case Tag(_, name, attributes, _, inner) => Element(name, Values(attributes), InnerMeaning(g, inner))
  }

  function InnerMeaning(g: Grammar, inner: Inner): seq<Node>
    decreases inner
  {
    match inner
    case Closed => []
    case Open(items, last, _, _, _) => Meaning(g, items) + TextOf(g, last)
  }

  /// When the parser takes it: names of attributes differ, end tags have the names of their start tags, it is
  /// not nested too deep, and declarations come first.

  predicate Distinct(attributes: seq<Spelt>) {
    forall i, j :: 0 <= i < j < |attributes| ==> attributes[i].name != attributes[j].name
  }

  predicate Acceptable(g: Grammar, items: seq<Item>, mayDeclare: bool, depth: nat)
    decreases items
  {
    items == []
    || (var may := mayDeclare && Blank(g, items[0].gap);
        && MarkAcceptable(g, items[0].mark, may, depth)
        && Acceptable(g, items[1..], may && items[0].mark.Other? && items[0].mark.node.Declaration?, depth))
  }

  predicate MarkAcceptable(g: Grammar, m: Mark, mayDeclare: bool, depth: nat)
    decreases m
  {
    match m
    case Other(node) => node.Declaration? ==> mayDeclare
    case Tag(_, name, attributes, _, inner) => Distinct(attributes) && InnerAcceptable(g, name, inner, depth)
  }

  predicate InnerAcceptable(g: Grammar, name: string, inner: Inner, depth: nat)
    decreases inner
  {
    match inner
    case Closed => true
    case Open(items, _, _, end, _) =>
      end == name && depth + 1 != g.maxDepth && Acceptable(g, items, false, depth + 1)
  }

  /// Attributes.

  lemma BlankNoName(g: Grammar, w: string, x: string)
    requires Lawful(g) && Blank(g, w) && (x == "" || !g.nameChar(x[0]))
    ensures var s := w + x; s == "" || !g.nameChar(s[0])
  {
    if w == "" {
      assert w + x == x;
    } else {
      assert g.white(w[0]) && (w + x)[0] == w[0];
    }
  }

  // One attribute, its name at the front.
  lemma AttributeRead(g: Grammar, a: Spelt, x: string)
    requires Lawful(g) && WellSpelt(g, a)
    ensures var s := a.name + (a.left + ("=" + (a.right + ([a.quote] + (a.raw + ([a.quote] + x))))));
            ParseAttribute(g, s) == GotAttribute(Value(a), x)
  {
    var v := [a.quote] + (a.raw + ([a.quote] + x));
    var t := "=" + (a.right + v);
    var s := a.name + (a.left + t);
    Markup(g, '=');
    Markup(g, a.quote);
    BlankNoName(g, a.left, t);
    NameIs(g, a.name, a.left + t);
    SkipBlank(g, a.left, t);
    SkipBlank(g, a.right, v);
    CharacterAbsent(a.raw, a.quote);
    hide NameLength, Decode, ValidName, Blank, Contains;
    assert s[|a.name|..] == a.left + t && Skip(g, t) == t && t[1..] == a.right + v && Skip(g, v) == v;
    assert v[1..] == a.raw + ([a.quote] + x) && [v[0]] == [a.quote];
    TextIs(a.raw, [a.quote], x, BOTH);
  }

  lemma AttributeJoins(a: Spelt, y: string)
    ensures AttributeSpelt(a) + y
            == a.before + (a.name + (a.left + ("=" + (a.right + ([a.quote] + (a.raw + ([a.quote] + y)))))))
  {
    var q := [a.quote];
    ConcatAssociates(a.raw, q, y);
    ConcatAssociates(q, a.raw + q, y);
    ConcatAssociates(a.right, q + (a.raw + q), y);
    ConcatAssociates("=", a.right + (q + (a.raw + q)), y);
    ConcatAssociates(a.left, "=" + (a.right + (q + (a.raw + q))), y);
    ConcatAssociates(a.name, a.left + ("=" + (a.right + (q + (a.raw + q)))), y);
    ConcatAssociates(a.before, a.name + (a.left + ("=" + (a.right + (q + (a.raw + q))))), y);
  }

  // It is added, or refused when its name is there already.
  lemma AttributeTaken(g: Grammar, a: Spelt, done: seq<Attribute>, y: string)
    requires Lawful(g) && WellSpelt(g, a)
    ensures ParseAttributes(g, AttributeSpelt(a) + y, done)
            == if Has(done, a.name) then BadAttributes else ParseAttributes(g, y, done + [Value(a)])
  {
    var s := a.name + (a.left + ("=" + (a.right + ([a.quote] + (a.raw + ([a.quote] + y))))));
    AttributeJoins(a, y);
    SkipBlank(g, a.before, s);
    assert s[0] == a.name[0];
    AttributeRead(g, a, y);
    hide AttributeSpelt, ParseAttribute, Value, Blank;
  }

  // All of them, or a refusal for a name that is repeated.
  lemma {:induction false} AttributesRead(g: Grammar, attributes: seq<Spelt>, done: seq<Attribute>, x: string)
    requires Lawful(g) && forall k :: 0 <= k < |attributes| ==> WellSpelt(g, attributes[k])
    ensures ParseAttributes(g, AttributesSpelt(attributes) + x, done)
            == if Distinct(attributes) && (forall k :: 0 <= k < |attributes| ==> !Has(done, attributes[k].name))
               then ParseAttributes(g, x, done + Values(attributes)) else BadAttributes
    decreases |attributes|
  {
    hide ParseAttributes, AttributeSpelt, WellSpelt, Has, Distinct;
    if attributes == [] {
      assert "" + x == x && done + [] == done && Distinct(attributes) by { NoneRepeated(attributes); }
    } else {
      var a, rest := attributes[0], attributes[1..];
      ConcatAssociates(AttributeSpelt(a), AttributesSpelt(rest), x);
      AttributeTaken(g, a, done, AttributesSpelt(rest) + x);
      AttributesRead(g, rest, done + [Value(a)], x);
      ConcatAssociates(done, [Value(a)], Values(rest));
      RepeatedOrNot(attributes, done);
    }
  }

  lemma NoneRepeated(attributes: seq<Spelt>)
    requires attributes == []
    ensures Distinct(attributes)
  {
  }

  lemma RepeatedOrNot(attributes: seq<Spelt>, done: seq<Attribute>)
    requires attributes != []
    ensures var a, rest := attributes[0], attributes[1..];
            Distinct(attributes) && (forall k :: 0 <= k < |attributes| ==> !Has(done, attributes[k].name))
            <==> !Has(done, a.name) && Distinct(rest)
                 && forall k :: 0 <= k < |rest| ==> !Has(done + [Value(a)], rest[k].name)
  {
    var a, rest := attributes[0], attributes[1..];
    forall k | 0 <= k < |rest|
      ensures rest[k] == attributes[k + 1]
      ensures Has(done + [Value(a)], rest[k].name) <==> Has(done, rest[k].name) || rest[k].name == a.name
    {
      HasMore(done, Value(a), rest[k].name);
    }
    hide Has;
    if Distinct(attributes) && (forall k :: 0 <= k < |attributes| ==> !Has(done, attributes[k].name)) {
      forall k | 0 <= k < |rest|
        ensures !Has(done + [Value(a)], rest[k].name)
      {
        assert rest[k] == attributes[k + 1];
      }
    }
    if !Has(done, a.name) && Distinct(rest) && forall k :: 0 <= k < |rest| ==> !Has(done + [Value(a)], rest[k].name) {
      forall i, j | 0 <= i < j < |attributes|
        ensures attributes[i].name != attributes[j].name
      {
        assert attributes[j] == rest[j - 1];
        if i > 0 { assert attributes[i] == rest[i - 1]; }
      }
      forall k | 0 <= k < |attributes|
        ensures !Has(done, attributes[k].name)
      {
        if k > 0 { assert attributes[k] == rest[k - 1]; }
      }
    }
  }

  lemma HasMore(done: seq<Attribute>, b: Attribute, name: string)
    ensures Has(done + [b], name) <==> Has(done, name) || name == b.name
  {
    var all := done + [b];
    assert forall i :: 0 <= i < |done| ==> all[i] == done[i];
    assert all[|done|] == b;
  }

  /// Tags.

  // What stands behind a name does not go on with it.
  lemma SpeltStops(g: Grammar, attributes: seq<Spelt>, y: string)
    requires Lawful(g) && AttributesWell(g, attributes) && y != "" && !g.nameChar(y[0])
    ensures var s := AttributesSpelt(attributes) + y; s != "" && !g.nameChar(s[0])
  {
    if attributes != [] {
      var a := attributes[0];
      assert WellSpelt(g, a) && g.white(a.before[0]);
      assert AttributeSpelt(a)[0] == a.before[0];
      assert AttributesSpelt(attributes)[0] == a.before[0];
    } else {
      assert "" + y == y;
    }
  }

  // A start tag, up to its end.
  lemma StartTagRead(g: Grammar, lead: string, name: string, attributes: seq<Spelt>, y: string)
    requires Lawful(g) && Blank(g, lead) && ValidName(g, name) && AttributesWell(g, attributes)
    requires y != "" && !g.nameChar(y[0])
    ensures ParseTag(g, lead + (name + (AttributesSpelt(attributes) + y)))
            == if !Distinct(attributes) then BadTag else
                 match ParseAttributes(g, y, Values(attributes))
                 case BadAttributes => BadTag
                 case GotAttributes(a, closed, rest) => if closed then ClosedTag(name, a, rest) else OpenTag(name, a, rest)
  {
    var z := AttributesSpelt(attributes) + y;
    Markup(g, '/');
    SkipBlank(g, lead, name + z);
    NameIsNoWhite(g, name, z);
    SpeltStops(g, attributes, y);
    NameIs(g, name, z);
    AttributesRead(g, attributes, [], y);
    assert [] + Values(attributes) == Values(attributes);
    assert forall k :: 0 <= k < |attributes| ==> !Has([], attributes[k].name);
    hide ParseAttributes, AttributesSpelt, Values, NameLength, Distinct, Has, WellSpelt, Blank, ValidName;
  }

  // With white space before the end of the tag.
  lemma TagRead(g: Grammar, lead: string, name: string, attributes: seq<Spelt>, behind: string, x: string)
    requires Lawful(g) && Blank(g, lead) && ValidName(g, name) && AttributesWell(g, attributes) && Blank(g, behind)
    ensures ParseTag(g, lead + (name + (AttributesSpelt(attributes) + (behind + (">" + x)))))
            == if Distinct(attributes) then OpenTag(name, Values(attributes), x) else BadTag
    ensures ParseTag(g, lead + (name + (AttributesSpelt(attributes) + (behind + ("/>" + x)))))
            == if Distinct(attributes) then ClosedTag(name, Values(attributes), x) else BadTag
  {
    hide Blank, ValidName, AttributesWell, AttributesSpelt, Values, Distinct, ParseTag, Lawful;
    EndBehindBlank(g, behind, ">" + x, Values(attributes));
    EndBehindBlank(g, behind, "/>" + x, Values(attributes));
    TagEnds(g, Values(attributes), x);
    StartTagRead(g, lead, name, attributes, behind + (">" + x));
    StartTagRead(g, lead, name, attributes, behind + ("/>" + x));
  }

  lemma EndBehindBlank(g: Grammar, behind: string, y: string, done: seq<Attribute>)
    requires Lawful(g) && Blank(g, behind) && y != "" && (y[0] == '>' || y[0] == '/')
    ensures ParseAttributes(g, behind + y, done) == ParseAttributes(g, y, done)
    ensures var s := behind + y; s != "" && !g.nameChar(s[0])
  {
    Markup(g, '>');
    Markup(g, '/');
    BlankNoName(g, behind, y);
    SkipBlank(g, behind, y);
    hide ParseAttribute, Blank, Lawful;
  }

  lemma EndTagRead(g: Grammar, close: string, name: string, closing: string, x: string)
    requires Lawful(g) && Blank(g, close) && ValidName(g, name) && Blank(g, closing)
    ensures ParseTag(g, close + ("/" + (name + (closing + (">" + x))))) == EndTag(name, x)
  {
    var y := closing + (">" + x);
    var u := name + y;
    Markup(g, '/');
    SkipBlank(g, close, "/" + u);
    EndBehindBlank(g, closing, ">" + x, []);
    NameIs(g, name, y);
    TagEnds(g, [], x);
    assert ("/" + u)[1..] == u && Skip(g, "/" + u) == "/" + u;
    hide ParseAttributes, NameLength, Blank, ValidName;
  }

  // A '<' behind which no other markup begins is a tag.
  lemma TagAhead(g: Grammar, y: string)
    requires Lawful(g) && y != "" && y[0] != '?' && y[0] != '!'
    ensures var t := "<" + y;
            && Skip(g, t) == t && t != "" && t[0] == '<' && t[1..] == y
            && !Starts(t, 0, "<?") && !Starts(t, 0, "<!--") && !Starts(t, 0, "<![CDATA[") && !Starts(t, 0, "<!")
  {
    var t := "<" + y;
    Markup(g, '<');
    assert t[1] == y[0];
    HeadDiffers(t, "<?", 1);
    HeadDiffers(t, "<!--", 1);
    HeadDiffers(t, "<![CDATA[", 1);
    HeadDiffers(t, "<!", 1);
  }

  lemma NoOtherMarkup(g: Grammar, w: string, x: string)
    requires Lawful(g) && Blank(g, w) && x != "" && (x[0] == '/' || g.nameChar(x[0]))
    ensures var y := w + x; y != "" && y[0] != '?' && y[0] != '!'
  {
    Markup(g, '?');
    Markup(g, '!');
    if w != "" { assert g.white(w[0]) && (w + x)[0] == w[0]; } else { assert w + x == x; }
  }

  /// Text between markup.

  lemma {:induction false} NotBlank(g: Grammar, gap: string, x: string)
    requires Lawful(g) && '<' !in gap && !Blank(g, gap)
    ensures var t := Skip(g, gap + x); t != "" && t[0] != '<'
    decreases |gap|
  {
    var s := gap + x;
    if g.white(gap[0]) {
      assert s[0] == gap[0] && s[1..] == gap[1..] + x;
      assert !Blank(g, gap[1..]) by {
        var i :| 0 <= i < |gap| && !g.white(gap[i]);
        assert gap[1..][i - 1] == gap[i];
      }
      NotBlank(g, gap[1..], x);
    } else {
      assert s[0] == gap[0];
    }
  }

  lemma GapRead(g: Grammar, gap: string, x: string, done: seq<Node>, depth: nat, top: bool)
    requires Lawful(g) && '<' !in gap && MarkupNext(x)
    ensures ParseNodes(g, gap + x, done, depth, top) == ParseNodes(g, x, done + TextOf(g, gap), depth, top)
  {
    if Blank(g, gap) {
      EndLeads(g, x);
      BlankAhead(g, gap, x, done, depth, top);
      assert done + [] == done;
    } else {
      var s := gap + x;
      NotBlank(g, gap, x);
      NotMarkup(Skip(g, s));
      CharacterAbsent(gap, '<');
      assert x == "<" + x[1..];
      FindsEnd(gap, "<", x[1..]);
      assert s[..|gap|] == gap && s[|gap|..] == x;
      hide Skip, Decode, Find, Starts, ParseText, ParseTag, ParseDeep, Lawful, Blank, Contains;
    }
  }

  // Text with nothing behind it.
  lemma LastRead(g: Grammar, last: string, done: seq<Node>, depth: nat, top: bool)
    requires Lawful(g) && '<' !in last
    ensures ParseNodes(g, last, done, depth, top) == if Blank(g, last) then Ended(done) else Failed
  {
    assert last + "" == last;
    if Blank(g, last) {
      SkipBlank(g, last, "");
    } else {
      NotBlank(g, last, "");
      NotMarkup(Skip(g, last));
      FindsNone(last);
      hide Skip, Find, Starts, ParseText, ParseTag, ParseDeep, Lawful, Blank;
    }
  }

  lemma {:induction false} FindsNone(s: string)
    requires '<' !in s
    ensures Find(s, "<") == None
    decreases |s|
  {
    if s != "" {
      assert s[0..1] == [s[0]];
      FindsNone(s[1..]);
    }
  }

  /// Trees.

  // What the parser makes of a piece of markup.
  ghost function MarkTaken(g: Grammar, m: Mark, x: string, done: seq<Node>, depth: nat, top: bool): Nodes
    requires Lawful(g)
  {
    if MarkAcceptable(g, m, MayDeclare(done, top), depth)
    then ParseNodes(g, x, done + [MarkMeaning(g, m)], depth, top) else Failed
  }

  ghost function ItemsTaken(g: Grammar, items: seq<Item>, x: string, done: seq<Node>, depth: nat, top: bool): Nodes
    requires Lawful(g)
  {
    if Acceptable(g, items, MayDeclare(done, top), depth)
    then ParseNodes(g, x, done + Meaning(g, items), depth, top) else Failed
  }

  lemma {:induction false} ItemsRead(g: Grammar, items: seq<Item>, x: string, done: seq<Node>, depth: nat, top: bool)
    requires Lawful(g) && ItemsWell(g, items)
    ensures ParseNodes(g, ItemsSpelt(items) + x, done, depth, top) == ItemsTaken(g, items, x, done, depth, top)
    decreases items
  {
    hide ItemsSpelt, MarkSpelt, ItemsTaken, MarkMeaning, MarkAcceptable, TextOf, ParseNodes, Lawful, MarkWell, ItemsWell,
         MayDeclare;
    if items == [] {
      NoItems(g, x, done, depth, top);
    } else {
      var gap, m, rest := items[0].gap, items[0].mark, items[1..];
      FirstItem(g, items, x, done, depth, top);
      MarkNext(g, m, ItemsSpelt(rest) + x);
      GapRead(g, gap, MarkSpelt(m) + (ItemsSpelt(rest) + x), done, depth, top);
      MarkRead(g, m, ItemsSpelt(rest) + x, done + TextOf(g, gap), depth, top);
      ItemsRead(g, rest, x, done + TextOf(g, gap) + [MarkMeaning(g, m)], depth, top);
    }
  }

  lemma NoItems(g: Grammar, x: string, done: seq<Node>, depth: nat, top: bool)
    requires Lawful(g)
    ensures ParseNodes(g, ItemsSpelt([]) + x, done, depth, top) == ItemsTaken(g, [], x, done, depth, top)
  {
    hide ParseNodes;
    assert ItemsSpelt([]) + x == x && done + Meaning(g, []) == done;
  }

  // The first item: how it is written, and how what it means goes together with the rest.
  lemma FirstItem(g: Grammar, items: seq<Item>, x: string, done: seq<Node>, depth: nat, top: bool)
    requires Lawful(g) && ItemsWell(g, items) && items != []
    ensures var gap, m, rest := items[0].gap, items[0].mark, items[1..];
            var now := done + TextOf(g, gap);
            && '<' !in gap && MarkWell(g, m) && ItemsWell(g, rest)
            && ItemsSpelt(items) + x == gap + (MarkSpelt(m) + (ItemsSpelt(rest) + x))
            && ItemsTaken(g, items, x, done, depth, top)
               == if MarkAcceptable(g, m, MayDeclare(now, top), depth)
                  then ItemsTaken(g, rest, x, now + [MarkMeaning(g, m)], depth, top) else Failed
  {
    var gap, m, rest := items[0].gap, items[0].mark, items[1..];
    var now := done + TextOf(g, gap);
    assert ItemsSpelt(items) == gap + (MarkSpelt(m) + ItemsSpelt(rest));
    assert Meaning(g, items) == TextOf(g, gap) + ([MarkMeaning(g, m)] + Meaning(g, rest));
    DeclareStill(g, gap, m, done, top);
    hide ItemsSpelt, MarkSpelt, Meaning, MarkMeaning, MarkWell, ItemsWell, ParseNodes, TextOf, MayDeclare, Blank;
    ConcatAssociates(gap, MarkSpelt(m) + ItemsSpelt(rest), x);
    ConcatAssociates(MarkSpelt(m), ItemsSpelt(rest), x);
    ConcatAssociates(done, TextOf(g, gap), [MarkMeaning(g, m)] + Meaning(g, rest));
    ConcatAssociates(now, [MarkMeaning(g, m)], Meaning(g, rest));
  }

  lemma DeclareStill(g: Grammar, gap: string, m: Mark, done: seq<Node>, top: bool)
    ensures var now := done + TextOf(g, gap);
            && MayDeclare(now, top) == (MayDeclare(done, top) && Blank(g, gap))
            && (MarkAcceptable(g, m, MayDeclare(now, top), 0) || !m.Other? ==>
                  MayDeclare(now + [MarkMeaning(g, m)], top)
                  == (MayDeclare(now, top) && m.Other? && m.node.Declaration?))
  {
    hide Blank, Decode, Newlines;
    assert done + [] == done;
    var node := MarkMeaning(g, m);
    assert node.Declaration? <==> m.Other? && m.node.Declaration?;
    hide MarkMeaning;
  }

  lemma MarkNext(g: Grammar, m: Mark, x: string)
    requires MarkWell(g, m)
    ensures MarkupNext(MarkSpelt(m) + x)
  {
    hide AttributesSpelt, InnerSpelt, Printable, InnerWell, AttributesWell;
    match m
    case Other(node) => assert |Head(node)| > 1 && Head(node)[0] == '<';
    case Tag(lead, name, attributes, behind, inner) => assert name != "";
  }

  lemma {:induction false} MarkRead(g: Grammar, m: Mark, x: string, done: seq<Node>, depth: nat, top: bool)
    requires Lawful(g) && MarkWell(g, m)
    ensures ParseNodes(g, MarkSpelt(m) + x, done, depth, top) == MarkTaken(g, m, x, done, depth, top)
    decreases m
  {
    if m.Other? {
      OtherRead(g, m.node, x, done, depth, top);
    } else if m.inner.Closed? {
      ClosedRead(g, m, x, done, depth, top);
    } else {
      InnerRead(g, m.inner, x, depth);
      OpenRead(g, m, x, done, depth, top);
    }
  }

  lemma OtherRead(g: Grammar, node: Node, x: string, done: seq<Node>, depth: nat, top: bool)
    requires Lawful(g) && !node.Element? && !node.Text? && Printable(g, node)
    ensures ParseNodes(g, MarkSpelt(Other(node)) + x, done, depth, top) == MarkTaken(g, Other(node), x, done, depth, top)
  {
    hide ParseNodes, Lawful, Newlines, Printable, MayDeclare;
    var s := Head(node) + (node.value + (Tail(node) + x));
    MarkupIs(g, node, "", x, done, depth, top);
    assert Blank(g, "") && "" + s == s;
    assert MarkMeaning(g, Other(node)) == NormalNode(g, node);
    assert MarkSpelt(Other(node)) == Head(node) + (node.value + Tail(node));
    ConcatAssociates(Head(node), node.value + Tail(node), x);
    ConcatAssociates(node.value, Tail(node), x);
  }

  // A tag behind its '<', and all that follows.
  function TagSpelt(m: Mark, x: string): string
    requires m.Tag?
  {
    m.lead + (m.name + (AttributesSpelt(m.attributes) + (m.behind + (InnerSpelt(m.inner) + x))))
  }

  lemma TagJoins(g: Grammar, m: Mark, x: string)
    requires Lawful(g) && MarkWell(g, m) && m.Tag?
    ensures var y := TagSpelt(m, x);
            MarkSpelt(m) + x == "<" + y && y != "" && y[0] != '?' && y[0] != '!'
  {
    var a, i := AttributesSpelt(m.attributes), InnerSpelt(m.inner);
    assert MarkSpelt(m) == "<" + (m.lead + (m.name + (a + (m.behind + i))));
    assert Blank(g, m.lead) && ValidName(g, m.name) && m.name != "" && g.nameChar(m.name[0]);
    hide MarkSpelt, AttributesSpelt, InnerSpelt, Lawful, Blank, MarkWell, ValidName;
    ConcatAssociates("<", m.lead + (m.name + (a + (m.behind + i))), x);
    ConcatAssociates(m.lead, m.name + (a + (m.behind + i)), x);
    ConcatAssociates(m.name, a + (m.behind + i), x);
    ConcatAssociates(a, m.behind + i, x);
    ConcatAssociates(m.behind, i, x);
    NoOtherMarkup(g, m.lead, m.name + (a + (m.behind + (i + x))));
  }

  lemma ClosedRead(g: Grammar, m: Mark, x: string, done: seq<Node>, depth: nat, top: bool)
    requires Lawful(g) && MarkWell(g, m) && m.Tag? && m.inner.Closed?
    ensures ParseNodes(g, MarkSpelt(m) + x, done, depth, top) == MarkTaken(g, m, x, done, depth, top)
  {
    var y := TagSpelt(m, x);
    TagJoins(g, m, x);
    TagAhead(g, y);
    TagRead(g, m.lead, m.name, m.attributes, m.behind, x);
    assert InnerSpelt(m.inner) == "/>" && InnerMeaning(g, m.inner) == [] && InnerAcceptable(g, m.name, m.inner, depth);
    hide MarkSpelt, AttributesSpelt, InnerSpelt, Lawful, Blank, MarkWell, ParseTag, ParseDeep, ParseText, Find, Skip, Starts,
         Distinct, Values;
  }

  // What stands behind the '>' of a start tag.
  function Content(inner: Inner, x: string): string
    requires inner.Open?
  {
    ItemsSpelt(inner.items)
    + (inner.last + ("<" + (inner.close + ("/" + (inner.end + (inner.closing + (">" + x)))))))
  }

  lemma ContentJoins(inner: Inner, x: string)
    requires inner.Open?
    ensures Content(inner, x) != "" && InnerSpelt(inner) + x == ">" + Content(inner, x)
  {
    var i, l, c, name, d := ItemsSpelt(inner.items), inner.last, inner.close, inner.end, inner.closing;
    assert InnerSpelt(inner) == ">" + (i + (l + ("<" + (c + ("/" + (name + (d + ">")))))));
    assert Content(inner, x) == i + (l + ("<" + (c + ("/" + (name + (d + (">" + x)))))));
    hide *;
    ConcatAssociates(">", i + (l + ("<" + (c + ("/" + (name + (d + ">")))))), x);
    ConcatAssociates(i, l + ("<" + (c + ("/" + (name + (d + ">"))))), x);
    ConcatAssociates(l, "<" + (c + ("/" + (name + (d + ">")))), x);
    ConcatAssociates("<", c + ("/" + (name + (d + ">"))), x);
    ConcatAssociates(c, "/" + (name + (d + ">")), x);
    ConcatAssociates("/", name + (d + ">"), x);
    ConcatAssociates(name, d + ">", x);
    ConcatAssociates(d, ">", x);
  }

  lemma OpenRead(g: Grammar, m: Mark, x: string, done: seq<Node>, depth: nat, top: bool)
    requires Lawful(g) && MarkWell(g, m) && m.Tag? && m.inner.Open?
    requires ParseDeep(g, Content(m.inner, x), depth + 1, false) == InnerTaken(g, m.inner, x, depth)
    ensures ParseNodes(g, MarkSpelt(m) + x, done, depth, top) == MarkTaken(g, m, x, done, depth, top)
  {
    hide *;
    TagJoins(g, m, x);
    ContentJoins(m.inner, x);
    OpenTaken(g, m, x, done, depth, top);
    OpenStep(g, m, TagSpelt(m, x), Content(m.inner, x), done, depth, top);
  }

  // A start tag and what comes back from one level down.
  ghost function AfterStart(g: Grammar, m: Mark, inside: Nodes, done: seq<Node>, depth: nat, top: bool): Nodes
    requires Lawful(g) && m.Tag?
  {
    if !Distinct(m.attributes) || !inside.Returned? || inside.name != m.name then Failed
    else ParseNodes(g, inside.rest, done + [Element(m.name, Values(m.attributes), inside.nodes)], depth, top)
  }

  lemma OpenStep(g: Grammar, m: Mark, y: string, r: string, done: seq<Node>, depth: nat, top: bool)
    requires Lawful(g) && m.Tag? && Blank(g, m.lead) && ValidName(g, m.name) && AttributesWell(g, m.attributes)
    requires Blank(g, m.behind) && y != "" && y[0] != '?' && y[0] != '!'
    requires y == m.lead + (m.name + (AttributesSpelt(m.attributes) + (m.behind + (">" + r))))
    ensures ParseNodes(g, "<" + y, done, depth, top)
            == AfterStart(g, m, ParseDeep(g, r, depth + 1, false), done, depth, top)
  {
    TagAhead(g, y);
    TagRead(g, m.lead, m.name, m.attributes, m.behind, r);
    assert r == "" ==> !ParseDeep(g, r, depth + 1, false).Returned?;
    hide Lawful, Blank, ParseTag, ParseDeep, ParseText, Find, Skip, Starts, Distinct, Values, AttributesWell, ValidName,
         AttributesSpelt, WellSpelt;
  }

  lemma OpenTaken(g: Grammar, m: Mark, x: string, done: seq<Node>, depth: nat, top: bool)
    requires Lawful(g) && MarkWell(g, m) && m.Tag? && m.inner.Open?
    ensures Blank(g, m.lead) && ValidName(g, m.name) && AttributesWell(g, m.attributes) && Blank(g, m.behind)
    ensures InnerWell(g, m.inner)
    ensures TagSpelt(m, x) == m.lead + (m.name + (AttributesSpelt(m.attributes) + (m.behind + (InnerSpelt(m.inner) + x))))
    ensures MarkTaken(g, m, x, done, depth, top) == AfterStart(g, m, InnerTaken(g, m.inner, x, depth), done, depth, top)
  {
    hide Blank, ValidName, AttributesWell, InnerSpelt, AttributesSpelt, Lawful, ParseNodes, Values, Distinct, Acceptable,
         InnerWell, InnerMeaning;
    var may := MayDeclare(done, top);
    assert MarkMeaning(g, m) == Element(m.name, Values(m.attributes), InnerMeaning(g, m.inner));
    assert MarkAcceptable(g, m, may, depth)
        <==> Distinct(m.attributes) && m.inner.end == m.name && InnerTaken(g, m.inner, x, depth).Returned?;
  }

  ghost function InnerTaken(g: Grammar, inner: Inner, x: string, depth: nat): Nodes
    requires inner.Open?
  {
    if depth + 1 != g.maxDepth && Acceptable(g, inner.items, false, depth + 1)
    then Returned(InnerMeaning(g, inner), inner.end, x) else Failed
  }

  // The parser goes one level down for the content, and comes back with the end tag's name.
  lemma {:induction false} InnerRead(g: Grammar, inner: Inner, x: string, depth: nat)
    requires Lawful(g) && inner.Open? && InnerWell(g, inner)
    ensures ParseDeep(g, Content(inner, x), depth + 1, false) == InnerTaken(g, inner, x, depth)
    decreases inner
  {
    hide *;
    var tail := "<" + (inner.close + ("/" + (inner.end + (inner.closing + (">" + x)))));
    InnerParts(g, inner, x, depth);
    ParseDeepIs(g, Content(inner, x), depth + 1);
    ItemsRead(g, inner.items, inner.last + tail, [], depth + 1, false);
    GapRead(g, inner.last, tail, Meaning(g, inner.items), depth + 1, false);
    EndRead(g, inner, x, Meaning(g, inner.items) + TextOf(g, inner.last), depth + 1, false);
  }

  lemma InnerParts(g: Grammar, inner: Inner, x: string, depth: nat)
    requires Lawful(g) && inner.Open? && InnerWell(g, inner)
    ensures var tail := "<" + (inner.close + ("/" + (inner.end + (inner.closing + (">" + x)))));
            && ItemsWell(g, inner.items) && '<' !in inner.last && MarkupNext(tail)
            && Content(inner, x) == ItemsSpelt(inner.items) + (inner.last + tail)
            && InnerTaken(g, inner, x, depth)
               == (if depth + 1 != g.maxDepth && Acceptable(g, inner.items, false, depth + 1)
                   then Returned(Meaning(g, inner.items) + TextOf(g, inner.last), inner.end, x) else Failed)
            && ItemsTaken(g, inner.items, inner.last + tail, [], depth + 1, false)
               == if Acceptable(g, inner.items, false, depth + 1)
                  then ParseNodes(g, inner.last + tail, Meaning(g, inner.items), depth + 1, false) else Failed
  {
    hide ItemsWell, Blank, ItemsSpelt, Meaning, Acceptable, ParseNodes, TextOf, Lawful;
    assert [] + Meaning(g, inner.items) == Meaning(g, inner.items);
  }

  lemma EndRead(g: Grammar, inner: Inner, x: string, done: seq<Node>, depth: nat, top: bool)
    requires Lawful(g) && inner.Open? && InnerWell(g, inner)
    ensures ParseNodes(g, "<" + (inner.close + ("/" + (inner.end + (inner.closing + (">" + x))))), done, depth, top)
            == Returned(done, inner.end, x)
  {
    var y := inner.close + ("/" + (inner.end + (inner.closing + (">" + x))));
    NoOtherMarkup(g, inner.close, "/" + (inner.end + (inner.closing + (">" + x))));
    TagAhead(g, y);
    EndTagRead(g, inner.close, inner.end, inner.closing, x);
    hide Skip, Starts, ParseTag, ParseDeep, ParseText, Find, Lawful, Blank;
  }

  /// Documents.

  // White space, perhaps the byte order mark, and markup with text between.
  function DocumentSpelt(lead: string, mark: bool, items: seq<Item>, last: string): string {
    lead + ((if mark then [0xEF as char, 0xBB as char, 0xBF as char] else "") + (ItemsSpelt(items) + last))
  }

  // However it is written, a document is read as what it means, unless a name of an attribute is repeated, an
  // end tag has another name, it is nested too deep, a declaration is not first, or text follows its last markup.
  lemma DocumentRead(g: Grammar, lead: string, mark: bool, items: seq<Item>, last: string)
    requires Lawful(g) && Blank(g, lead) && items != [] && ItemsWell(g, items) && Blank(g, items[0].gap)
    requires '<' !in last && (mark ==> !g.white(BOM[0]))
    ensures Parse(g, DocumentSpelt(lead, mark, items, last))
            == if Blank(g, last) && g.maxDepth != 1 && Acceptable(g, items, true, 1) then Some(Meaning(g, items)) else None
  {
    hide ItemsSpelt, Meaning, Acceptable, ItemsWell, ParseNodes, Lawful, Blank, Skip, Starts;
    BodyRead(g, items, last);
    DocumentStarts(g, lead, mark, items, last);
  }

  lemma BodyRead(g: Grammar, items: seq<Item>, last: string)
    requires Lawful(g) && items != [] && ItemsWell(g, items) && '<' !in last
    ensures ParseNodes(g, ItemsSpelt(items) + last, [], 1, true)
            == if !Acceptable(g, items, true, 1) then Failed
               else if Blank(g, last) then Ended(Meaning(g, items)) else Failed
  {
    hide ItemsSpelt, Meaning, Acceptable, ItemsWell, ParseNodes, Lawful, Blank;
    assert [] + Meaning(g, items) == Meaning(g, items);
    ItemsRead(g, items, last, [], 1, true);
    LastRead(g, last, Meaning(g, items), 1, true);
  }

  // Leading white space and the mark are passed over, and so is white space before the first markup.
  lemma DocumentStarts(g: Grammar, lead: string, mark: bool, items: seq<Item>, last: string)
    requires Lawful(g) && Blank(g, lead) && items != [] && ItemsWell(g, items) && Blank(g, items[0].gap)
    requires mark ==> !g.white(BOM[0])
    ensures var s, t := ItemsSpelt(items) + last, Skip(g, DocumentSpelt(lead, mark, items, last));
            && s != "" && Skip(g, s) != "" && Starts(t, 0, BOM) == mark
            && (if mark then t[3..] == s else t == Skip(g, s))
            && ParseNodes(g, Skip(g, s), [], 1, true) == ParseNodes(g, s, [], 1, true)
  {
    var s := ItemsSpelt(items) + last;
    var gap, m := items[0].gap, MarkSpelt(items[0].mark) + (ItemsSpelt(items[1..]) + last);
    FirstItem(g, items, last, [], 1, true);
    MarkNext(g, items[0].mark, ItemsSpelt(items[1..]) + last);
    Markup(g, '<');
    SkipBlank(g, gap, m);
    EndLeads(g, m);
    BlankAhead(g, gap, m, [], 1, true);
    assert Skip(g, s) == m;
    if mark {
      SkipBlank(g, lead, BOM + s);
      assert (BOM + s)[0] == BOM[0] && (BOM + s)[0..3] == BOM && (BOM + s)[3..] == s;
    } else {
      assert "" + s == s;
      SkipBlank(g, lead, s);
      HeadDiffers(m, BOM, 0);
    }
  }

  /// A message body with single quotes, and one that repeats a name.

  function Num(twice: bool): seq<Spelt> {
    [Spelt(" ", "Num", "", "", '\'', "2")] + if twice then [Spelt(" ", "Num", " ", " ", '"', "&lt;3")] else []
  }

  function DeviceList(twice: bool): Mark {
    Tag("", "DeviceList", Num(twice), "", Closed)
  }

  lemma DeviceListRead(g: Grammar, twice: bool)
    requires Lawful(g) && ValidName(g, "DeviceList") && ValidName(g, "Num") && g.maxDepth != 1
    ensures Parse(g, "<DeviceList Num='2'" + (if twice then " Num = \"&lt;3\"" else "") + "/>\n")
            == if twice then None else Some([Element("DeviceList", [Attribute("Num", "2")], [])])
  {
    hide *;
    var items := [Item("", DeviceList(twice))];
    SpaceIsBlank(g);
    DeviceListWell(g, twice);
    DeviceListMeans(g, twice);
    DeviceListText(twice);
    DocumentRead(g, "", false, items, "\n");
  }

  lemma DeviceListWell(g: Grammar, twice: bool)
    requires Lawful(g) && ValidName(g, "DeviceList") && ValidName(g, "Num")
    ensures ItemsWell(g, [Item("", DeviceList(twice))])
  {
    hide Lawful, ValidName;
    SpaceIsBlank(g);
    var items := [Item("", DeviceList(twice))];
    assert AttributesWell(g, Num(twice)) && InnerWell(g, Closed) && MarkWell(g, DeviceList(twice));
    assert ItemsWell(g, items[1..]);
  }

  lemma DeviceListMeans(g: Grammar, twice: bool)
    requires g.maxDepth != 1
    ensures var items := [Item("", DeviceList(twice))];
            && Acceptable(g, items, true, 1) == !twice
            && (!twice ==> Meaning(g, items) == [Element("DeviceList", [Attribute("Num", "2")], [])])
  {
    hide Decode;
    var items := [Item("", DeviceList(twice))];
    DecodeSpelled([Itself('2')]);
    assert SpelledAll([Itself('2')]) == "2" && StandsAll([Itself('2')]) == "2";
    assert Acceptable(g, items[1..], false, 1) && Meaning(g, items[1..]) == [];
    assert MarkAcceptable(g, DeviceList(twice), true, 1) == Distinct(Num(twice));
    if twice { assert Num(true)[0].name == Num(true)[1].name; }
    assert Num(false) == [Spelt(" ", "Num", "", "", '\'', "2")] && Values(Num(false)[1..]) == [];
    assert Values(Num(false)) == [Attribute("Num", "2")] && TextOf(g, "") == [];
    assert MarkMeaning(g, DeviceList(false)) == Element("DeviceList", Values(Num(false)), []);
  }

  lemma DeviceListText(twice: bool)
    ensures DocumentSpelt("", false, [Item("", DeviceList(twice))], "\n")
            == "<DeviceList Num='2'" + (if twice then " Num = \"&lt;3\"" else "") + "/>\n"
  {
    var items, m := [Item("", DeviceList(twice))], MarkSpelt(DeviceList(twice));
    hide MarkSpelt, AttributesSpelt;
    NumText(twice);
    PlainTag("DeviceList", Num(twice));
    assert ItemsSpelt(items[1..]) == "" && ItemsSpelt(items) == "" + (m + "") == m;
    assert "<" + "DeviceList" == "<DeviceList";
    assert "<DeviceList" + (" Num='2'" + (if twice then " Num = \"&lt;3\"" else ""))
        == "<DeviceList Num='2'" + (if twice then " Num = \"&lt;3\"" else "");
    assert DocumentSpelt("", false, items, "\n") == m + "\n";
    assert "/>" + "\n" == "/>\n";
  }

  lemma PlainTag(name: string, attributes: seq<Spelt>)
    ensures MarkSpelt(Tag("", name, attributes, "", Closed)) == "<" + name + AttributesSpelt(attributes) + "/>"
  {
    hide AttributesSpelt;
    var a := AttributesSpelt(attributes);
    assert MarkSpelt(Tag("", name, attributes, "", Closed)) == "<" + ("" + (name + (a + ("" + "/>"))));
  }

  lemma NumText(twice: bool)
    ensures AttributesSpelt(Num(twice)) == " Num='2'" + (if twice then " Num = \"&lt;3\"" else "")
  {
    var a, b := Num(twice)[0], Spelt(" ", "Num", " ", " ", '"', "&lt;3");
    assert AttributeSpelt(a) == " Num='2'" && AttributeSpelt(b) == " Num = \"&lt;3\"";
    hide AttributeSpelt;
    assert Num(twice)[1..] == if twice then [b] else [];
    assert AttributesSpelt([b]) == AttributeSpelt(b) + AttributesSpelt([]) == AttributeSpelt(b);
  }
}
