/** Parsing what the printer has written. */
module XmlRoundTrip {
  import opened Bytes
  import opened XmlText
  import opened XmlPrinter
  import opened XmlParser

  /// Which trees can be written: nothing in a value may end it.

  predicate Contains(s: string, tag: string) {
    exists k :: 0 <= k <= |s| && Starts(s, k, tag)
  }

  ghost predicate ValidName(g: Grammar, name: string) {
    name != "" && g.nameStart(name[0]) && forall i :: 0 < i < |name| ==> g.nameChar(name[i])
  }

  ghost predicate PrintableAttributes(g: Grammar, attributes: seq<Attribute>) {
    && (forall i :: 0 <= i < |attributes| ==> ValidName(g, attributes[i].name))
    && (forall i, j :: 0 <= i < j < |attributes| ==> attributes[i].name != attributes[j].name)
  }

  ghost predicate Printable(g: Grammar, node: Node)
    decreases node
  {
    match node
    case Element(name, attributes, children) =>
      ValidName(g, name) && PrintableAttributes(g, attributes) && PrintableAll(g, children)
    case Text(_) => true
    case CData(value) => !Contains(value, "]]>")
    case Comment(value) => !Contains(value, "-->")
    case Declaration(value) => !Contains(value, "?>")
    case Unknown(value) => '>' !in value && !Starts(value, 0, "--") && !Starts(value, 0, "[CDATA[")
  }

  ghost predicate PrintableAll(g: Grammar, nodes: seq<Node>)
    decreases nodes
  {
    nodes == [] || (Printable(g, nodes[0]) && PrintableAll(g, nodes[1..]))
  }

  /// What comes back.

  predicate Blank(g: Grammar, s: string) {
    forall i :: 0 <= i < |s| ==> g.white(s[i])
  }

  // Texts side by side become one.

  function RunLength(nodes: seq<Node>): (n: nat)
    ensures n <= |nodes| && (n > 0 <==> nodes != [] && nodes[0].Text?)
  {
    if nodes != [] && nodes[0].Text? then 1 + RunLength(nodes[1..]) else 0
  }

  function RunText(nodes: seq<Node>): string {
    if nodes != [] && nodes[0].Text? then nodes[0].value + RunText(nodes[1..]) else ""
  }

  function NormalAttributes(attributes: seq<Attribute>): seq<Attribute> {
    if attributes == [] then []
    else [Attribute(attributes[0].name, Newlines(attributes[0].value))] + NormalAttributes(attributes[1..])
  }

  // Blank text between markup is dropped, and every line end becomes a line feed.
  ghost function Normal(g: Grammar, nodes: seq<Node>): seq<Node>
    decreases nodes
  {
    if nodes == [] then []
    else if nodes[0].Text? then
      (if Blank(g, RunText(nodes)) then [] else [Text(Newlines(RunText(nodes)))]) + Normal(g, nodes[RunLength(nodes)..])
    else [NormalNode(g, nodes[0])] + Normal(g, nodes[1..])
  }

  ghost function NormalNode(g: Grammar, node: Node): Node
    decreases node
  {
    match node
    case Element(name, attributes, children) => Element(name, NormalAttributes(attributes), Normal(g, children))
    case Text(value) => Text(Newlines(value))
    case CData(value) => CData(Newlines(value))
    case Comment(value) => Comment(Newlines(value))
    case Declaration(value) => Declaration(Newlines(value))
    case Unknown(value) => Unknown(Newlines(value))
  }

  /// Which trees the parser takes: not nested too deep, with declarations only at the top and first.

  predicate Accepted(g: Grammar, nodes: seq<Node>, mayDeclare: bool, depth: nat)
    decreases nodes
  {
    nodes == [] || (AcceptedNode(g, nodes[0], mayDeclare, depth)
                    && Accepted(g, nodes[1..], mayDeclare && nodes[0].Declaration?, depth))
  }

  predicate AcceptedNode(g: Grammar, node: Node, mayDeclare: bool, depth: nat)
    decreases node
  {
    match node
    case Element(_, _, children) =>
      children == [] || (depth + 1 != g.maxDepth && Accepted(g, children, false, depth + 1))
    case Declaration(_) => mayDeclare
    case Text(_) => true
    case CData(_) => true
    case Comment(_) => true
    case Unknown(_) => true
  }

  /// Characters.

  lemma Markup(g: Grammar, c: char)
    requires Lawful(g)
    requires c == '<' || c == '>' || c == '/' || c == '=' || c == '"' || c == '\'' || c == '&' || c == '?' || c == '!'
    ensures !g.white(c) && !g.nameChar(c) && !g.nameStart(c)
  {
    assert c in "<>/=\"'&?!\0";
  }

  lemma {:induction false} SkipBlank(g: Grammar, w: string, x: string)
    requires Blank(g, w)
    ensures Skip(g, w + x) == Skip(g, x)
    decreases |w|
  {
    if w == "" {
      assert w + x == x;
    } else {
      assert g.white(w[0]);
      assert (w + x)[0] == w[0] && (w + x)[1..] == w[1..] + x;
      SkipBlank(g, w[1..], x);
    }
  }

  lemma SpaceIsBlank(g: Grammar)
    requires Lawful(g)
    ensures Blank(g, "") && Blank(g, " ") && Blank(g, "\n")
  {
  }

  lemma BlankConcat(g: Grammar, a: string, b: string)
    requires Blank(g, a) && Blank(g, b)
    ensures Blank(g, a + b)
  {
    forall i | 0 <= i < |a + b|
      ensures g.white((a + b)[i])
    {
      if i < |a| { assert g.white(a[i]); } else { assert g.white(b[i - |a|]); }
    }
  }

  lemma {:induction false} SpacesBlank(g: Grammar, n: nat)
    requires Lawful(g)
    ensures Blank(g, Spaces(n))
  {
    if n > 0 {
      SpacesBlank(g, n - 1);
      assert Blank(g, "    ");
      BlankConcat(g, "    ", Spaces(n - 1));
    }
  }

  lemma IndentBlank(g: Grammar, compact: bool, p: Pos)
    requires Lawful(g)
    ensures Blank(g, Indent(compact, p))
  {
    SpaceIsBlank(g);
    SpacesBlank(g, p.depth);
    BlankConcat(g, "\n", Spaces(p.depth));
  }

  lemma OutdentBlank(g: Grammar, compact: bool, p: Pos)
    requires Lawful(g) && p.depth > 0
    ensures Blank(g, Outdent(compact, p)) && Blank(g, LineEnd(compact, p))
  {
    SpaceIsBlank(g);
    SpacesBlank(g, p.depth - 1);
    BlankConcat(g, "\n", Spaces(p.depth - 1));
  }

  /// Names.

  lemma {:induction false} NameEnds(g: Grammar, name: string, x: string)
    requires (forall i :: 0 <= i < |name| ==> g.nameChar(name[i])) && (x == "" || !g.nameChar(x[0]))
    ensures NameEnd(g, name + x) == |name|
    decreases |name|
  {
    if name == "" {
      assert name + x == x;
    } else {
      assert g.nameChar(name[0]);
      assert (name + x)[0] == name[0] && (name + x)[1..] == name[1..] + x;
      forall i | 0 <= i < |name[1..]|
        ensures g.nameChar(name[1..][i])
      {
        assert g.nameChar(name[i + 1]);
      }
      NameEnds(g, name[1..], x);
    }
  }

  lemma NameIs(g: Grammar, name: string, x: string)
    requires ValidName(g, name) && (x == "" || !g.nameChar(x[0]))
    ensures NameLength(g, name + x) == |name| && (name + x)[..|name|] == name && (name + x)[|name|..] == x
  {
    var rest := name[1..];
    forall i | 0 <= i < |rest|
      ensures g.nameChar(rest[i])
    {
      assert g.nameChar(name[i + 1]);
    }
    NameEnds(g, rest, x);
    assert (name + x)[1..] == rest + x;
  }

  /// End tags of text.

  // A tag whose last character is found nowhere else in it cannot begin inside the text before it.
  predicate Distinctive(tag: string) {
    tag != "" && forall i :: 0 <= i < |tag| - 1 ==> tag[i] != tag[|tag| - 1]
  }

  lemma {:induction false} FindsEnd(v: string, tag: string, x: string)
    requires Distinctive(tag) && !Contains(v, tag)
    ensures Find(v + (tag + x), tag) == Some(|v|)
    decreases |v|
  {
    var s := v + (tag + x);
    if v == "" {
      assert s == tag + x && s[0..|tag|] == tag;
    } else {
      assert s[1..] == v[1..] + (tag + x);
      assert !Contains(v[1..], tag) by {
        if Contains(v[1..], tag) {
          var k :| 0 <= k <= |v[1..]| && Starts(v[1..], k, tag);
          assert v[k + 1..k + 1 + |tag|] == v[1..][k..k + |tag|];
          assert Starts(v, k + 1, tag);
        }
      }
      assert !Starts(s, 0, tag) by { NotInside(v, tag, x); }
      FindsEnd(v[1..], tag, x);
    }
  }

  lemma NotInside(v: string, tag: string, x: string)
    requires Distinctive(tag) && !Contains(v, tag) && v != ""
    ensures !Starts(v + (tag + x), 0, tag)
  {
    var s, last := v + (tag + x), |tag| - 1;
    if |tag| <= |v| {
      assert s[0..|tag|] == v[0..|tag|];
      assert !Starts(v, 0, tag);
    } else {
      assert s[last] == tag[last - |v|];
      assert s[0..|tag|][last] == s[last];
    }
  }

  lemma TextIs(v: string, tag: string, x: string, f: Flags)
    requires Distinctive(tag) && !Contains(v, tag)
    ensures ParseText(v + (tag + x), tag, f) == GotText(Decode(v, f), x)
  {
    FindsEnd(v, tag, x);
    var s := v + (tag + x);
    assert s[..|v|] == v && s[|v| + |tag|..] == x;
  }

  lemma CharacterAbsent(v: string, c: char)
    requires c !in v
    ensures !Contains(v, [c]) && Distinctive([c])
  {
    forall k | 0 <= k <= |v|
      ensures !Starts(v, k, [c])
    {
      if k + 1 <= |v| { assert v[k..k + 1] == [v[k]]; }
    }
  }

  lemma Tags()
    ensures Distinctive("]]>") && Distinctive("-->") && Distinctive("?>")
  {
  }

  // Without entities, decoding is only about line ends.
  lemma {:induction false} DecodeLinesFrom(s: string, i: nat, out: string)
    requires |out| <= i <= |s|
    ensures Decoded(s, LINES, i, out) == out + Newlines(s[i..])
    decreases |s| - i
  {
    if i == |s| {
      assert s[i..] == "" && out + "" == out;
    } else {
      var u, m := s[i..], Step(s, LINES, i);
      assert u[0] == s[i] && At(u, 1) == At(s, i + 1) && u[1..] == s[i + 1..];
      assert |u| > 1 ==> u[2..] == s[i + 2..];
      assert m.emit == Some([Shown(u)]) && m.next == i + Used(u) && u[Used(u)..] == s[m.next..];
      DecodeLinesFrom(s, m.next, out + [Shown(u)]);
      ConcatAssociates(out, [Shown(u)], Newlines(s[m.next..]));
    }
  }

  lemma DecodeLines(s: string)
    ensures Decode(s, LINES) == Newlines(s)
  {
    DecodeLinesFrom(s, 0, "");
    assert s[0..] == s && "" + Newlines(s) == Newlines(s);
  }

  /// Tags.

  function AttributeTail(a: Attribute, x: string): string {
    "=" + ("\"" + (Escape(a.value, true) + ("\"" + x)))
  }

  lemma AttributeIs(g: Grammar, a: Attribute, x: string)
    requires Lawful(g) && ValidName(g, a.name)
    ensures ParseAttribute(g, a.name + AttributeTail(a, x)) == GotAttribute(Attribute(a.name, Newlines(a.value)), x)
  {
    var e := Escape(a.value, true);
    var v := "\"" + (e + ("\"" + x));
    assert AttributeTail(a, x) == "=" + v;
    Markup(g, '=');
    Markup(g, '"');
    NameIs(g, a.name, "=" + v);
    EscapeHides(a.value, true, '"');
    CharacterAbsent(e, '"');
    DecodeEscape(a.value, true);
    hide NameLength, Escape, Decode, ValidName;
    var s := a.name + ("=" + v);
    assert Skip(g, s[|a.name|..]) == "=" + v && ("=" + v)[1..] == v && Skip(g, v) == v;
    assert v[1..] == e + ("\"" + x) && [v[0]] == "\"";
    TextIs(e, "\"", x, BOTH);
  }

  lemma AttributeTextIs(a: Attribute, x: string)
    ensures AttributeText(a) + x == " " + (a.name + AttributeTail(a, x))
  {
    var n, e := a.name, Escape(a.value, true);
    hide Escape;
    assert AttributeText(a) == " " + n + "=\"" + e + "\"" && "=\"" == "=" + "\"";
    JoinAttribute(" ", n, "=", "\"", e, "\"", x);
  }

  lemma JoinAttribute(a: string, b: string, c: string, d: string, e: string, f: string, x: string)
    ensures a + b + (c + d) + e + f + x == a + (b + (c + (d + (e + (f + x)))))
  {
  }

  // What may stand behind the attributes: the end of the tag.
  ghost predicate EndsTag(g: Grammar, x: string) {
    x != "" && (x[0] == '>' || x[0] == '/')
  }

  lemma AttributeFirst(g: Grammar, a: Attribute, done: seq<Attribute>, y: string)
    requires Lawful(g) && ValidName(g, a.name) && !Has(done, a.name)
    ensures ParseAttributes(g, AttributeText(a) + y, done)
            == ParseAttributes(g, y, done + [Attribute(a.name, Newlines(a.value))])
  {
    var s := a.name + AttributeTail(a, y);
    AttributeTextIs(a, y);
    assert s[0] == a.name[0];
    SpaceIsBlank(g);
    SkipBlank(g, " ", s);
    AttributeIs(g, a, y);
    hide AttributeText, AttributeTail, ParseAttribute, Newlines;
  }

  lemma {:induction false} AttributesAre(g: Grammar, attributes: seq<Attribute>, done: seq<Attribute>, x: string)
    requires Lawful(g) && PrintableAttributes(g, attributes)
    requires forall i :: 0 <= i < |attributes| ==> !Has(done, attributes[i].name)
    ensures ParseAttributes(g, Attributes(attributes) + x, done) == ParseAttributes(g, x, done + NormalAttributes(attributes))
    decreases |attributes|
  {
    if attributes == [] {
      assert "" + x == x && done + [] == done;
    } else {
      var a, rest := attributes[0], attributes[1..];
      var b := Attribute(a.name, Newlines(a.value));
      hide ParseAttributes, AttributeText, Newlines, ValidName;
      ConcatAssociates(AttributeText(a), Attributes(rest), x);
      AttributeFirst(g, a, done, Attributes(rest) + x);
      StillNew(g, attributes, done, b);
      AttributesAre(g, rest, done + [b], x);
      ConcatAssociates(done, [b], NormalAttributes(rest));
    }
  }

  lemma StillNew(g: Grammar, attributes: seq<Attribute>, done: seq<Attribute>, b: Attribute)
    requires attributes != [] && PrintableAttributes(g, attributes) && b.name == attributes[0].name
    requires forall i :: 0 <= i < |attributes| ==> !Has(done, attributes[i].name)
    ensures var rest := attributes[1..];
            PrintableAttributes(g, rest) && forall i :: 0 <= i < |rest| ==> !Has(done + [b], rest[i].name)
  {
    hide ValidName;
    var rest := attributes[1..];
    assert forall i :: 0 <= i < |rest| ==> rest[i] == attributes[i + 1];
    forall i | 0 <= i < |rest|
      ensures !Has(done + [b], rest[i].name)
    {
      assert rest[i] == attributes[i + 1] && !Has(done, rest[i].name);
    }
  }

  lemma TagEnds(g: Grammar, done: seq<Attribute>, x: string)
    requires Lawful(g)
    ensures ParseAttributes(g, ">" + x, done) == GotAttributes(done, false, x)
    ensures ParseAttributes(g, "/>" + x, done) == GotAttributes(done, true, x)
  {
    Markup(g, '>');
    Markup(g, '/');
    assert (">" + x)[1..] == x && ("/>" + x)[2..] == x && At("/>" + x, 1) == '>';
  }

  // What stands behind a name does not go on with it.
  lemma NameStops(g: Grammar, attributes: seq<Attribute>, x: string)
    requires Lawful(g) && EndsTag(g, x)
    ensures var y := Attributes(attributes) + x; y != "" && !g.nameChar(y[0])
  {
    Markup(g, '>');
    Markup(g, '/');
    if attributes != [] {
      var a := attributes[0];
      AttributeTextIs(a, Attributes(attributes[1..]) + x);
      ConcatAssociates(AttributeText(a), Attributes(attributes[1..]), x);
    }
  }

  lemma NameIsNoWhite(g: Grammar, name: string, x: string)
    requires Lawful(g) && ValidName(g, name)
    ensures Skip(g, name + x) == name + x && (name + x)[0] == name[0] && g.nameChar(name[0])
  {
  }

  lemma TagIs(g: Grammar, name: string, attributes: seq<Attribute>, x: string)
    requires Lawful(g) && ValidName(g, name) && PrintableAttributes(g, attributes)
    ensures ParseTag(g, name + (Attributes(attributes) + (">" + x))) == OpenTag(name, NormalAttributes(attributes), x)
    ensures ParseTag(g, name + (Attributes(attributes) + ("/>" + x))) == ClosedTag(name, NormalAttributes(attributes), x)
  {
    TagIsFor(g, name, attributes, ">" + x);
    TagIsFor(g, name, attributes, "/>" + x);
    TagEnds(g, NormalAttributes(attributes), x);
  }

  lemma TagIsFor(g: Grammar, name: string, attributes: seq<Attribute>, x: string)
    requires Lawful(g) && ValidName(g, name) && PrintableAttributes(g, attributes) && EndsTag(g, x)
    ensures ParseTag(g, name + (Attributes(attributes) + x))
            == match ParseAttributes(g, x, NormalAttributes(attributes))
               case BadAttributes => BadTag
               case GotAttributes(a, closed, rest) => if closed then ClosedTag(name, a, rest) else OpenTag(name, a, rest)
  {
    var y := Attributes(attributes) + x;
    Markup(g, '/');
    NameIsNoWhite(g, name, y);
    NameStops(g, attributes, x);
    NameIs(g, name, y);
    AttributesAre(g, attributes, [], x);
    assert [] + NormalAttributes(attributes) == NormalAttributes(attributes);
    hide ParseAttributes, Attributes, NormalAttributes, NameLength;
  }

  lemma EndTagIs(g: Grammar, name: string, x: string)
    requires Lawful(g) && ValidName(g, name)
    ensures ParseTag(g, "/" + (name + (">" + x))) == EndTag(name, x)
  {
    var u := name + (">" + x);
    Markup(g, '/');
    Markup(g, '>');
    NameIs(g, name, ">" + x);
    TagEnds(g, [], x);
    assert ("/" + u)[1..] == u;
    hide ParseAttributes, NameLength;
  }

  /// Nodes.

  // At the end, or before markup: white space in front of that does not count.
  ghost predicate Leads(g: Grammar, x: string) {
    Skip(g, x) == "" || Skip(g, x)[0] == '<'
  }

  lemma BlankAhead(g: Grammar, w: string, x: string, done: seq<Node>, depth: nat, top: bool)
    requires Lawful(g) && Blank(g, w) && Leads(g, x)
    ensures Leads(g, w + x) && ParseNodes(g, w + x, done, depth, top) == ParseNodes(g, x, done, depth, top)
  {
    SkipBlank(g, w, x);
    hide Skip, Lawful, ParseText, ParseTag, ParseDeep, Find;
  }

  function Head(node: Node): string
    requires !node.Element? && !node.Text?
  {
    match node case CData(_) => "<![CDATA[" case Comment(_) => "<!--" case Declaration(_) => "<?" case Unknown(_) => "<!"
  }

  function Tail(node: Node): string
    requires !node.Element? && !node.Text?
  {
    match node case CData(_) => "]]>" case Comment(_) => "-->" case Declaration(_) => "?>" case Unknown(_) => ">"
  }

  // Which of the headers a text begins with.
  lemma HeadIs(node: Node, x: string)
    requires !node.Element? && !node.Text?
    requires node.Unknown? ==> '>' !in node.value && !Starts(node.value, 0, "--") && !Starts(node.value, 0, "[CDATA[")
    ensures var s := Head(node) + (node.value + (Tail(node) + x));
            && s[0] == '<' && s[|Head(node)|..] == node.value + (Tail(node) + x) && Starts(s, 0, Head(node))
            && (node.Declaration? <==> Starts(s, 0, "<?"))
            && (node.Comment? <==> Starts(s, 0, "<!--"))
            && (node.CData? <==> Starts(s, 0, "<![CDATA["))
  {
    var h, v := Head(node), node.value;
    var s := h + (v + (Tail(node) + x));
    assert s[0..|h|] == h;
    match node
    case Declaration(_) =>
      assert s[1] == '?';
      HeadDiffers(s, "<!--", 1);
      HeadDiffers(s, "<![CDATA[", 1);
    case Comment(_) =>
      assert s[1] == '!' && s[2] == '-';
      HeadDiffers(s, "<?", 1);
      HeadDiffers(s, "<![CDATA[", 2);
    case CData(_) =>
      assert s[1] == '!' && s[2] == '[';
      HeadDiffers(s, "<?", 1);
      HeadDiffers(s, "<!--", 2);
    case Unknown(_) =>
      assert s[1] == '!';
      HeadDiffers(s, "<?", 1);
      UnknownHead(v, x, "--");
      UnknownHead(v, x, "[CDATA[");
      assert "<!" + "--" == "<!--" && "<!" + "[CDATA[" == "<![CDATA[";
  }

  lemma HeadDiffers(s: string, h: string, i: nat)
    requires i < |h| <= |s| ==> s[i] != h[i]
    requires i < |h|
    ensures !Starts(s, 0, h)
  {
    if |h| <= |s| { assert s[0..|h|][i] == s[i]; }
  }

  lemma UnknownHead(v: string, x: string, h: string)
    requires '>' !in v && '>' !in h && !Starts(v, 0, h)
    ensures !Starts("<!" + (v + (">" + x)), 0, "<!" + h)
  {
    var s := "<!" + (v + (">" + x));
    if 2 + |h| <= |s| {
      assert s[0..2 + |h|][2..] == s[2..2 + |h|] == (v + (">" + x))[0..|h|];
      assert ("<!" + h)[2..] == h;
      if |h| <= |v| {
        assert (v + (">" + x))[0..|h|] == v[0..|h|];
      } else {
        assert (v + (">" + x))[0..|h|][|v|] == '>';
      }
    }
  }

  lemma MarkupIs(g: Grammar, node: Node, w: string, x: string, done: seq<Node>, depth: nat, top: bool)
    requires Lawful(g) && Blank(g, w) && !node.Element? && !node.Text? && Printable(g, node)
    ensures ParseNodes(g, w + (Head(node) + (node.value + (Tail(node) + x))), done, depth, top)
            == if node.Declaration? && !MayDeclare(done, top) then Failed
               else ParseNodes(g, x, done + [NormalNode(g, node)], depth, top)
  {
    var s := Head(node) + (node.value + (Tail(node) + x));
    SkipBlank(g, w, s);
    HeadIs(node, x);
    Markup(g, '<');
    Tags();
    if node.Unknown? { CharacterAbsent(node.value, '>'); }
    TextIs(node.value, Tail(node), x, LINES);
    DecodeLines(node.value);
    assert |Head(node)| == (match node case CData(_) => 9 case Comment(_) => 4 case Declaration(_) => 2 case Unknown(_) => 2);
    assert Starts(s, 0, "<!") <== node.Unknown?;
    hide Skip, Starts, Decode, Newlines, Contains, Find, ParseText, ParseTag, ParseDeep, Lawful;
  }

  /// Text.

  // A run of texts is written as one, and the rest goes on as after the last of them.
  lemma TextNodePrints(compact: bool, p: Pos, node: Node)
    requires !p.justOpened && node.Text?
    ensures After(compact, p, node) == p.(textDepth := p.depth - 1)
    ensures Print(compact, p, node) == Escape(node.value, false)
  {
    hide PrintAll, AfterAll, Escape;
    assert "" + Escape(node.value, false) == Escape(node.value, false);
  }

  lemma FirstPrints(compact: bool, p: Pos, nodes: seq<Node>)
    requires nodes != []
    ensures var q := After(compact, p, nodes[0]);
            && PrintAll(compact, p, nodes) == Print(compact, p, nodes[0]) + PrintAll(compact, q, nodes[1..])
            && AfterAll(compact, p, nodes) == AfterAll(compact, q, nodes[1..])
  {
    hide Print, After;
  }

  lemma {:induction false} RunPrints(compact: bool, p: Pos, nodes: seq<Node>)
    requires !p.justOpened && RunLength(nodes) > 0
    ensures var q := p.(textDepth := p.depth - 1); var rest := nodes[RunLength(nodes)..];
            && PrintAll(compact, p, nodes) == Escape(RunText(nodes), false) + PrintAll(compact, q, rest)
            && AfterAll(compact, p, nodes) == AfterAll(compact, q, rest)
    decreases |nodes|
  {
    hide Print, After, Escape, PrintAll, AfterAll;
    FirstPrints(compact, p, nodes);
    var q, v, rest := p.(textDepth := p.depth - 1), nodes[0].value, nodes[1..];
    TextNodePrints(compact, p, nodes[0]);
    EscapeConcat(v, RunText(rest), false);
    if RunLength(rest) > 0 {
      RunPrints(compact, q, rest);
      assert rest[RunLength(rest)..] == nodes[RunLength(nodes)..];
      ConcatAssociates(Escape(v, false), Escape(RunText(rest), false), PrintAll(compact, q, rest[RunLength(rest)..]));
    } else {
      assert RunText(nodes) == v + "" == v;
      assert nodes[RunLength(nodes)..] == rest;
    }
  }

  // Blank text is written as it is; other text shows something that is not markup.
  lemma {:induction false} BlankText(g: Grammar, v: string, x: string)
    requires Lawful(g)
    ensures Blank(g, v) ==> Blank(g, Escape(v, false))
    ensures !Blank(g, v) ==> var t := Skip(g, Escape(v, false) + x); t != "" && t[0] != '<'
    decreases |v|
  {
    Markup(g, '&');
    Markup(g, '<');
    Markup(g, '>');
    if v != "" {
      var c, e := v[0], Escape(v[1..], false);
      ConcatAssociates(EscapeChar(c, false), e, x);
      var s := Escape(v, false) + x;
      assert s == EscapeChar(c, false) + (e + x);
      BlankText(g, v[1..], x);
      assert Blank(g, v) <==> g.white(c) && Blank(g, v[1..]) by {
        if g.white(c) && Blank(g, v[1..]) {
          forall i | 0 <= i < |v|
            ensures g.white(v[i])
          {
            if i > 0 { assert v[i] == v[1..][i - 1]; }
          }
        }
        if Blank(g, v) { assert g.white(v[0]) && forall i :: 0 <= i < |v[1..]| ==> v[1..][i] == v[i + 1]; }
      }
      if g.white(c) {
        assert !Special(c, false) && EscapeChar(c, false) == [c];
        if Blank(g, v[1..]) {
          assert Blank(g, [c]);
          BlankConcat(g, [c], e);
        }
        assert s[0] == c && s[1..] == e + x;
      } else {
        assert s[0] == EscapeChar(c, false)[0] && !g.white(s[0]) && s[0] != '<';
      }
    }
  }

  // What follows text: markup, in one piece with it.
  ghost predicate MarkupNext(x: string) {
    |x| > 1 && x[0] == '<'
  }

  lemma TextNodeIs(g: Grammar, v: string, x: string, done: seq<Node>, depth: nat, top: bool)
    requires Lawful(g) && MarkupNext(x)
    ensures ParseNodes(g, Escape(v, false) + x, done, depth, top)
            == ParseNodes(g, x, done + (if Blank(g, v) then [] else [Text(Newlines(v))]), depth, top)
  {
    var e := Escape(v, false);
    Markup(g, '<');
    BlankText(g, v, x);
    if Blank(g, v) {
      BlankAhead(g, e, x, done, depth, top);
      assert done + [] == done;
    } else {
      EscapeHides(v, false, '<');
      CharacterAbsent(e, '<');
      assert x == "<" + x[1..];
      FindsEnd(e, "<", x[1..]);
      DecodeEscape(v, false);
      var s := e + x;
      assert s[..|e|] == e && s[|e|..] == x;
      NotMarkup(Skip(g, s));
      hide Skip, Escape, Decode, Newlines, Find, Starts, ParseText, ParseTag, ParseDeep, Lawful, Blank, Contains;
    }
  }

  lemma NotMarkup(t: string)
    requires t != "" && t[0] != '<'
    ensures !Starts(t, 0, "<?") && !Starts(t, 0, "<!--") && !Starts(t, 0, "<![CDATA[") && !Starts(t, 0, "<!")
  {
    HeadDiffers(t, "<?", 0);
    HeadDiffers(t, "<!--", 0);
    HeadDiffers(t, "<![CDATA[", 0);
    HeadDiffers(t, "<!", 0);
  }

  /// Trees.

  // Inside an element, the first line has begun.
  predicate Entered(compact: bool, p: Pos) {
    p.depth > 0 ==> compact || !p.first
  }

  predicate NoTexts(nodes: seq<Node>) {
    forall i :: 0 <= i < |nodes| ==> !nodes[i].Text?
  }

  lemma {:induction false} AcceptedRun(g: Grammar, nodes: seq<Node>, depth: nat)
    ensures Accepted(g, nodes, false, depth) == Accepted(g, nodes[RunLength(nodes)..], false, depth)
    ensures PrintableAll(g, nodes) ==> PrintableAll(g, nodes[RunLength(nodes)..])
    decreases |nodes|
  {
    if RunLength(nodes) > 0 {
      AcceptedRun(g, nodes[1..], depth);
      assert nodes[1..][RunLength(nodes[1..])..] == nodes[RunLength(nodes)..];
    } else {
      assert nodes[0..] == nodes;
    }
  }

  lemma {:induction false} RunIsMaximal(nodes: seq<Node>)
    ensures var rest := nodes[RunLength(nodes)..]; rest == [] || !rest[0].Text?
    ensures RunLength(nodes) > 0 ==> nodes[RunLength(nodes) - 1].Text?
    decreases |nodes|
  {
    if RunLength(nodes) > 0 {
      RunIsMaximal(nodes[1..]);
      assert nodes[1..][RunLength(nodes[1..])..] == nodes[RunLength(nodes)..];
    }
  }

  // Everything but text is written as its indentation and a piece of markup.
  lemma PrintsMarkup(compact: bool, p: Pos, node: Node) returns (w: string, m: string)
    requires !p.justOpened && !node.Text?
    ensures Print(compact, p, node) == w + m && MarkupNext(m) && (w == Indent(compact, p) || w == "")
  {
    w := if node.CData? then "" else Indent(compact, p);
    match node
    case Element(name, attributes, children) =>
      var inside := Opened(compact, p);
      var a, k, e, l := Attributes(attributes), PrintAll(compact, inside, children),
                        XmlPrinter.EndTag(compact, AfterAll(compact, inside, children), name), LineEnd(compact, inside);
      assert |e| > 1;
      m := "<" + (name + (a + (k + (e + l))));
      assert Print(compact, p, node) == w + "<" + name + a + k + e + l;
      hide *;
      JoinElement(w, "<", name, a, k, e, l);
    case CData(value) =>
      m := "<![CDATA[" + value + "]]>";
      assert |m| > 1 && m[0] == '<';
    case Comment(value) =>
      m := "<!--" + value + "-->";
      ConcatAssociates(w, "<!--", value);
      ConcatAssociates(w, "<!--" + value, "-->");
    case Declaration(value) =>
      m := "<?" + value + "?>";
      ConcatAssociates(w, "<?", value);
      ConcatAssociates(w, "<?" + value, "?>");
    case Unknown(value) =>
      m := "<!" + value + ">";
      ConcatAssociates(w, "<!", value);
      ConcatAssociates(w, "<!" + value, ">");
  }

  lemma JoinElement(a: string, b: string, c: string, d: string, e: string, f: string, h: string)
    ensures a + b + c + d + e + f + h == a + (b + (c + (d + (e + (f + h)))))
  {
  }

  // Behind a text comes markup at once, with nothing in between.
  lemma TextThenMarkup(compact: bool, p: Pos, nodes: seq<Node>, w: string, tail: string)
    requires !p.justOpened && p.textDepth >= 0 && (compact || !p.first)
    requires if nodes == [] then w == "" else !nodes[0].Text?
    requires MarkupNext(tail)
    ensures MarkupNext(PrintAll(compact, p, nodes) + (w + tail))
  {
    if nodes == [] {
      assert "" + ("" + tail) == tail;
    } else {
      var w', m := PrintsMarkup(compact, p, nodes[0]);
      assert w' == "" && w' + m == m;
    }
  }

  // At the top nothing but markup and white space is written.
  lemma TopLeads(g: Grammar, compact: bool, p: Pos, nodes: seq<Node>, w: string, tail: string)
    requires Lawful(g) && !p.justOpened && NoTexts(nodes) && Blank(g, w) && (tail == "" || MarkupNext(tail))
    ensures Leads(g, PrintAll(compact, p, nodes) + (w + tail))
  {
    Markup(g, '<');
    if nodes == [] {
      assert "" + (w + tail) == w + tail;
      SkipBlank(g, w, tail);
    } else {
      var w', m := PrintsMarkup(compact, p, nodes[0]);
      IndentBlank(g, compact, p);
      var more := PrintAll(compact, After(compact, p, nodes[0]), nodes[1..]) + (w + tail);
      ConcatAssociates(w' + m, PrintAll(compact, After(compact, p, nodes[0]), nodes[1..]), w + tail);
      ConcatAssociates(w', m, more);
      SkipBlank(g, w', m + more);
    }
  }

  // Where nodes are printed and what stands behind them, w and the end tag or the end of the text.
  ghost predicate Ready(g: Grammar, compact: bool, p: Pos, nodes: seq<Node>, w: string, tail: string) {
    && Entered(compact, p) && PrintableAll(g, nodes) && Blank(g, w)
    && (nodes != [] && nodes[|nodes| - 1].Text? ==> w == "")
    && if p.depth == 0 then NoTexts(nodes) && (tail == "" || MarkupNext(tail)) else MarkupNext(tail)
  }

  // What the parser makes of them: their normal form, and it goes on behind them; or it fails, when
  // one of them is not acceptable.
  ghost function Taken(g: Grammar, nodes: seq<Node>, tail: string, done: seq<Node>, depth: nat): Nodes
    requires Lawful(g)
  {
    if Accepted(g, nodes, MayDeclare(done, depth == 0), depth + 1)
    then ParseNodes(g, tail, done + Normal(g, nodes), depth + 1, depth == 0) else Failed
  }

  // Printed inside an element or at the top, then parsed from where the parser stands there.
  lemma {:induction false} ParsesAll(g: Grammar, compact: bool, p: Pos, nodes: seq<Node>, w: string, tail: string,
                                     done: seq<Node>)
    requires Lawful(g) && !p.justOpened && Ready(g, compact, p, nodes, w, tail)
    ensures ParseNodes(g, PrintAll(compact, p, nodes) + (w + tail), done, p.depth + 1, p.depth == 0)
            == Taken(g, nodes, tail, done, p.depth)
    decreases nodes, 1
  {
    hide PrintAll, Taken, ParseNodes, Accepted, Normal, AfterAll, Lawful;
    if nodes == [] {
      ParsesEnd(g, compact, p, w, tail, done);
    } else if nodes[0].Text? {
      TextIsInside(g, compact, p, nodes, w, tail);
      ParsesTexts(g, compact, p, nodes, w, tail, done);
    } else {
      ParsesFirst(g, compact, p, nodes, w, tail, done);
    }
  }

  lemma TextIsInside(g: Grammar, compact: bool, p: Pos, nodes: seq<Node>, w: string, tail: string)
    requires Ready(g, compact, p, nodes, w, tail) && nodes != [] && nodes[0].Text?
    ensures p.depth > 0
  {
  }

  lemma ParsesEnd(g: Grammar, compact: bool, p: Pos, w: string, tail: string, done: seq<Node>)
    requires Lawful(g) && !p.justOpened && Ready(g, compact, p, [], w, tail)
    ensures ParseNodes(g, PrintAll(compact, p, []) + (w + tail), done, p.depth + 1, p.depth == 0)
            == Taken(g, [], tail, done, p.depth)
  {
    hide ParseNodes;
    assert done + [] == done;
    assert PrintAll(compact, p, []) + (w + tail) == w + tail;
    EndLeads(g, tail);
    BlankAhead(g, w, tail, done, p.depth + 1, p.depth == 0);
    assert Taken(g, [], tail, done, p.depth) == ParseNodes(g, tail, done, p.depth + 1, p.depth == 0);
  }

  lemma EndLeads(g: Grammar, tail: string)
    requires Lawful(g) && (tail == "" || MarkupNext(tail))
    ensures Leads(g, tail)
  {
    Markup(g, '<');
  }

  lemma TakenText(g: Grammar, nodes: seq<Node>, tail: string, done: seq<Node>, depth: nat)
    requires Lawful(g) && depth > 0 && nodes != [] && nodes[0].Text?
    ensures var v := RunText(nodes);
            Taken(g, nodes, tail, done, depth)
            == Taken(g, nodes[RunLength(nodes)..], tail, done + (if Blank(g, v) then [] else [Text(Newlines(v))]), depth)
  {
    var v := RunText(nodes);
    var t := if Blank(g, v) then [] else [Text(Newlines(v))];
    var rest := nodes[RunLength(nodes)..];
    AcceptedRun(g, nodes, depth + 1);
    assert Normal(g, nodes) == t + Normal(g, rest);
    hide Normal, Accepted, ParseNodes, RunText, RunLength;
    ConcatAssociates(done, t, Normal(g, rest));
  }

  // Behind a run of texts.
  lemma ReadyAfterText(g: Grammar, compact: bool, p: Pos, nodes: seq<Node>, w: string, tail: string)
    requires Lawful(g) && !p.justOpened && Ready(g, compact, p, nodes, w, tail) && nodes != [] && nodes[0].Text?
    ensures var q, rest := p.(textDepth := p.depth - 1), nodes[RunLength(nodes)..];
            && Ready(g, compact, q, rest, w, tail) && MarkupNext(PrintAll(compact, q, rest) + (w + tail))
  {
    var q, rest := p.(textDepth := p.depth - 1), nodes[RunLength(nodes)..];
    assert p.depth > 0;
    RunIsMaximal(nodes);
    AcceptedRun(g, nodes, p.depth + 1);
    assert rest != [] ==> rest[|rest| - 1] == nodes[|nodes| - 1];
    hide PrintAll, RunLength, PrintableAll, Accepted;
    TextThenMarkup(compact, q, rest, w, tail);
  }

  lemma {:induction false} ParsesTexts(g: Grammar, compact: bool, p: Pos, nodes: seq<Node>, w: string, tail: string,
                                       done: seq<Node>)
    requires Lawful(g) && !p.justOpened && Ready(g, compact, p, nodes, w, tail) && p.depth > 0 && nodes != [] && nodes[0].Text?
    ensures ParseNodes(g, PrintAll(compact, p, nodes) + (w + tail), done, p.depth + 1, p.depth == 0)
            == Taken(g, nodes, tail, done, p.depth)
    decreases nodes, 0
  {
    hide *;
    var v, rest, q := RunText(nodes), nodes[RunLength(nodes)..], p.(textDepth := p.depth - 1);
    var more := PrintAll(compact, q, rest) + (w + tail);
    ghost var t := if Blank(g, v) then [] else [Text(Newlines(v))];
    RunPrints(compact, p, nodes);
    ReadyAfterText(g, compact, p, nodes, w, tail);
    TakenText(g, nodes, tail, done, p.depth);
    ConcatAssociates(Escape(v, false), PrintAll(compact, q, rest), w + tail);
    TextNodeIs(g, v, more, done, p.depth + 1, false);
    ParsesAll(g, compact, q, rest, w, tail, done + t);
  }

  lemma PrintAllStep(compact: bool, p: Pos, nodes: seq<Node>)
    requires nodes != []
    ensures PrintAll(compact, p, nodes)
            == Print(compact, p, nodes[0]) + PrintAll(compact, After(compact, p, nodes[0]), nodes[1..])
  {
  }

  lemma TakenNode(g: Grammar, nodes: seq<Node>, tail: string, done: seq<Node>, depth: nat)
    requires Lawful(g) && nodes != [] && !nodes[0].Text?
    ensures Taken(g, nodes, tail, done, depth)
            == if AcceptedNode(g, nodes[0], MayDeclare(done, depth == 0), depth + 1)
               then Taken(g, nodes[1..], tail, done + [NormalNode(g, nodes[0])], depth) else Failed
  {
    var n, rest := NormalNode(g, nodes[0]), nodes[1..];
    assert n.Declaration? == nodes[0].Declaration?;
    assert MayDeclare(done + [n], depth == 0) == (MayDeclare(done, depth == 0) && nodes[0].Declaration?)
      || !AcceptedNode(g, nodes[0], MayDeclare(done, depth == 0), depth + 1) by { hide AcceptedNode, NormalNode; }
    assert Normal(g, nodes) == [n] + Normal(g, rest);
    hide AcceptedNode, MayDeclare, ParseNodes, NormalNode, Normal;
    ConcatAssociates(done, [n], Normal(g, rest));
  }

  // Behind a node that is not text.
  lemma ReadyAfterNode(g: Grammar, compact: bool, p: Pos, nodes: seq<Node>, w: string, tail: string)
    requires Lawful(g) && !p.justOpened && Ready(g, compact, p, nodes, w, tail) && nodes != [] && !nodes[0].Text?
    ensures var q := After(compact, p, nodes[0]);
            && Printable(g, nodes[0]) && Ready(g, compact, q, nodes[1..], w, tail)
            && (p.depth == 0 ==> Leads(g, PrintAll(compact, q, nodes[1..]) + (w + tail)))
  {
    var q, rest := After(compact, p, nodes[0]), nodes[1..];
    assert rest != [] ==> rest[|rest| - 1] == nodes[|nodes| - 1];
    hide Print, PrintAll, Printable, Lawful, After, Leads;
    if p.depth == 0 { TopLeads(g, compact, q, rest, w, tail); }
  }

  lemma {:induction false} ParsesFirst(g: Grammar, compact: bool, p: Pos, nodes: seq<Node>, w: string, tail: string,
                                       done: seq<Node>)
    requires Lawful(g) && !p.justOpened && Ready(g, compact, p, nodes, w, tail) && nodes != [] && !nodes[0].Text?
    ensures ParseNodes(g, PrintAll(compact, p, nodes) + (w + tail), done, p.depth + 1, p.depth == 0)
            == Taken(g, nodes, tail, done, p.depth)
    decreases nodes, 0
  {
    hide *;
    var node, rest, q := nodes[0], nodes[1..], After(compact, p, nodes[0]);
    var n, x := NormalNode(g, node), PrintAll(compact, q, rest) + (w + tail);
    PrintAllStep(compact, p, nodes);
    ReadyAfterNode(g, compact, p, nodes, w, tail);
    ConcatAssociates(Print(compact, p, node), PrintAll(compact, q, rest), w + tail);
    ParsesNode(g, compact, p, node, x, done);
    TakenNode(g, nodes, tail, done, p.depth);
    ParsesAll(g, compact, q, rest, w, tail, done + [n]);
  }

  lemma {:induction false} ParsesNode(g: Grammar, compact: bool, p: Pos, node: Node, x: string, done: seq<Node>)
    requires Lawful(g) && !p.justOpened && Printable(g, node) && !node.Text? && (p.depth == 0 ==> Leads(g, x))
    ensures ParseNodes(g, Print(compact, p, node) + x, done, p.depth + 1, p.depth == 0)
            == if AcceptedNode(g, node, MayDeclare(done, p.depth == 0), p.depth + 1)
               then ParseNodes(g, x, done + [NormalNode(g, node)], p.depth + 1, p.depth == 0) else Failed
    decreases node, 3
  {
    if node.Element? {
      ParsesElement(g, compact, p, node, x, done);
    } else {
      var w := if node.CData? then "" else Indent(compact, p);
      IndentBlank(g, compact, p);
      assert Print(compact, p, node) == w + Head(node) + node.value + Tail(node);
      hide Indent;
      JoinFour(w, Head(node), node.value, Tail(node), x);
      assert Print(compact, p, node) + x == w + (Head(node) + (node.value + (Tail(node) + x)));
      MarkupIs(g, node, w, x, done, p.depth + 1, p.depth == 0);
    }
  }

  // The first child seals its parent's tag.
  lemma SealFirst(compact: bool, p: Pos, nodes: seq<Node>)
    requires p.justOpened && nodes != []
    ensures PrintAll(compact, p, nodes) == ">" + PrintAll(compact, Sealed(p), nodes)
    ensures AfterAll(compact, p, nodes) == AfterAll(compact, Sealed(p), nodes)
  {
    hide Print, After, Sealed;
    var node := nodes[0];
    var b := Print(compact, Sealed(p), node);
    SealNode(compact, p, node);
    ConcatAssociates(">", b, PrintAll(compact, After(compact, p, node), nodes[1..]));
  }

  // After text, no line break comes before the end tag.
  lemma {:induction false} LastText(compact: bool, p: Pos, nodes: seq<Node>)
    requires p.depth > 0 && nodes != [] && nodes[|nodes| - 1].Text?
    ensures Outdent(compact, AfterAll(compact, p, nodes)) == ""
    decreases |nodes|
  {
    if |nodes| == 1 {
      assert AfterAll(compact, p, nodes) == After(compact, p, nodes[0]);
    } else {
      LastText(compact, After(compact, p, nodes[0]), nodes[1..]);
    }
  }

  // A start tag, read where nodes may stand.
  lemma ElementOpens(g: Grammar, name: string, attributes: seq<Attribute>, w: string, r: string, done: seq<Node>,
                     depth: nat, top: bool)
    requires Lawful(g) && ValidName(g, name) && PrintableAttributes(g, attributes) && Blank(g, w)
    ensures ParseNodes(g, w + ("<" + (name + (Attributes(attributes) + ("/>" + r)))), done, depth, top)
            == ParseNodes(g, r, done + [Element(name, NormalAttributes(attributes), [])], depth, top)
    ensures r != "" ==>
              ParseNodes(g, w + ("<" + (name + (Attributes(attributes) + (">" + r)))), done, depth, top)
              == match ParseDeep(g, r, depth + 1, false)
                 case Failed => Failed
                 case Ended(_) => Failed
                 case Returned(children, end, rest) =>
                   if end != name then Failed
                   else ParseNodes(g, rest, done + [Element(name, NormalAttributes(attributes), children)], depth, top)
  {
    TagIs(g, name, attributes, r);
    TagOpens(g, name, Attributes(attributes) + ("/>" + r), w);
    TagOpens(g, name, Attributes(attributes) + (">" + r), w);
    hide Skip, Starts, Attributes, NormalAttributes, ParseTag, ParseDeep, ParseText, Find, Lawful, Blank;
  }

  lemma TagOpens(g: Grammar, name: string, y: string, w: string)
    requires Lawful(g) && ValidName(g, name) && Blank(g, w)
    ensures var t := "<" + (name + y);
            && Skip(g, w + t) == t && t != "" && t[0] == '<' && t[1..] == name + y
            && !Starts(t, 0, "<?") && !Starts(t, 0, "<!--") && !Starts(t, 0, "<![CDATA[") && !Starts(t, 0, "<!")
  {
    var t := "<" + (name + y);
    Markup(g, '<');
    Markup(g, '?');
    Markup(g, '!');
    SkipBlank(g, w, t);
    assert t[1] == name[0] && t[1] != '?' && t[1] != '!';
    HeadDiffers(t, "<?", 1);
    HeadDiffers(t, "<!--", 1);
    HeadDiffers(t, "<![CDATA[", 1);
    HeadDiffers(t, "<!", 1);
  }

  lemma ElementCloses(g: Grammar, name: string, x: string, done: seq<Node>, depth: nat, top: bool)
    requires Lawful(g) && ValidName(g, name)
    ensures ParseNodes(g, "</" + (name + (">" + x)), done, depth, top) == Returned(done, name, x)
  {
    var t := "</" + (name + (">" + x));
    Markup(g, '<');
    EndTagIs(g, name, x);
    assert t[1] == '/' && t[1..] == "/" + (name + (">" + x)) && Skip(g, t) == t;
    HeadDiffers(t, "<?", 1);
    HeadDiffers(t, "<!--", 1);
    HeadDiffers(t, "<![CDATA[", 1);
    HeadDiffers(t, "<!", 1);
    hide Skip, Starts, ParseTag, ParseDeep, ParseText, Find, Lawful;
  }

  lemma {:induction false} ParsesElement(g: Grammar, compact: bool, p: Pos, node: Node, x: string, done: seq<Node>)
    requires Lawful(g) && !p.justOpened && Printable(g, node) && node.Element? && (p.depth == 0 ==> Leads(g, x))
    ensures ParseNodes(g, Print(compact, p, node) + x, done, p.depth + 1, p.depth == 0)
            == if AcceptedNode(g, node, false, p.depth + 1)
               then ParseNodes(g, x, done + [NormalNode(g, node)], p.depth + 1, p.depth == 0) else Failed
    decreases node, 2
  {
    hide *;
    LineEndAhead(g, compact, p, x, done + [NormalNode(g, node)]);
    ElementParts(g, node, p.depth + 1);
    if node.children == [] {
      IndentBlank(g, compact, p);
      PrintsEmpty(compact, p, node, x);
      ElementOpens(g, node.name, node.attributes, Indent(compact, p), LineEnd(compact, Inside(compact, p)) + x, done,
                   p.depth + 1, p.depth == 0);
    } else {
      ParsesChildren(g, compact, p, node, x, done);
    }
  }

  lemma LineEndAhead(g: Grammar, compact: bool, p: Pos, x: string, done: seq<Node>)
    requires Lawful(g) && (p.depth == 0 ==> Leads(g, x))
    ensures ParseNodes(g, LineEnd(compact, Inside(compact, p)) + x, done, p.depth + 1, p.depth == 0)
            == ParseNodes(g, x, done, p.depth + 1, p.depth == 0)
  {
    var l := LineEnd(compact, Inside(compact, p));
    OutdentBlank(g, compact, Inside(compact, p));
    assert p.depth > 0 ==> l == "";
    hide *;
    if p.depth == 0 {
      BlankAhead(g, l, x, done, p.depth + 1, true);
    } else {
      assert l + x == x;
    }
  }

  lemma ElementParts(g: Grammar, node: Node, depth: nat)
    requires Printable(g, node) && node.Element?
    ensures ValidName(g, node.name) && PrintableAttributes(g, node.attributes)
    ensures NormalNode(g, node) == Element(node.name, NormalAttributes(node.attributes), Normal(g, node.children))
    ensures Normal(g, []) == []
    ensures AcceptedNode(g, node, false, depth)
            <==> node.children == [] || (depth + 1 != g.maxDepth && Accepted(g, node.children, false, depth + 1))
  {
    hide ValidName, PrintableAttributes, PrintableAll, NormalAttributes, Accepted;
  }

  lemma PrintsEmpty(compact: bool, p: Pos, node: Node, x: string)
    requires !p.justOpened && node.Element? && node.children == []
    ensures Print(compact, p, node) + x
            == Indent(compact, p) + ("<" + (node.name + (Attributes(node.attributes) + ("/>" + (LineEnd(compact, Inside(compact, p)) + x)))))
  {
    var w, n, a, l := Indent(compact, p), node.name, Attributes(node.attributes), LineEnd(compact, Inside(compact, p));
    assert Print(compact, p, node) == "" + (w + "<" + n + a + "" + "/>" + l);
    hide *;
    assert "" + (w + "<" + n + a + "" + "/>" + l) == w + "<" + n + a + "/>" + l;
    JoinFive(w, "<", n, a, "/>", l, x);
  }

  lemma JoinFive(a: string, b: string, c: string, d: string, e: string, f: string, x: string)
    ensures a + b + c + d + e + f + x == a + (b + (c + (d + (e + (f + x)))))
  {
  }

  // Where the content is printed.
  function Inside(compact: bool, p: Pos): (q: Pos)
    ensures q.depth == p.depth + 1 && !q.justOpened
  {
    Sealed(Opened(compact, p))
  }

  // The content, its closing and what follows, of an element with children.
  function Content(compact: bool, p: Pos, node: Node, x: string): string
    requires node.Element?
  {
    var inside := Inside(compact, p);
    var o := Outdent(compact, AfterAll(compact, inside, node.children));
    PrintAll(compact, inside, node.children) + (o + ("</" + (node.name + (">" + (LineEnd(compact, inside) + x)))))
  }

  lemma PrintsChildren(compact: bool, p: Pos, node: Node, x: string)
    requires !p.justOpened && node.Element? && node.children != []
    ensures Print(compact, p, node) + x
            == Indent(compact, p) + ("<" + (node.name + (Attributes(node.attributes) + (">" + Content(compact, p, node, x)))))
  {
    var inside := Opened(compact, p);
    SealFirst(compact, inside, node.children);
    var after := AfterAll(compact, inside, node.children);
    var w, n, a, k, l := Indent(compact, p), node.name, Attributes(node.attributes),
                         PrintAll(compact, Inside(compact, p), node.children), LineEnd(compact, inside);
    var o := Outdent(compact, after);
    assert XmlPrinter.EndTag(compact, after, n) == o + "</" + n + ">";
    assert Print(compact, p, node) == "" + (w + "<" + n + a + (">" + k) + (o + "</" + n + ">") + l);
    assert Content(compact, p, node, x) == k + (o + ("</" + (n + (">" + (l + x)))));
    hide *;
    JoinAll(w, n, a, k, o, l, x);
  }

  lemma JoinAll(w: string, n: string, a: string, k: string, o: string, l: string, x: string)
    ensures "" + (w + "<" + n + a + (">" + k) + (o + "</" + n + ">") + l) + x
            == w + ("<" + (n + (a + (">" + (k + (o + ("</" + (n + (">" + (l + x))))))))))
  {
    JoinFive(w, "<", n, a, ">" + k, o + "</" + n + ">" + l, x);
    assert "" + (w + "<" + n + a + (">" + k) + (o + "</" + n + ">") + l) + x
        == w + "<" + n + a + (">" + k) + (o + "</" + n + ">" + l) + x;
    JoinFour(o, "</", n, ">" + l, x);
    assert o + "</" + n + ">" + l == o + "</" + n + (">" + l);
    assert (">" + l) + x == ">" + (l + x);
    ConcatAssociates(">", k, o + ("</" + (n + (">" + (l + x)))));
  }

  lemma {:induction false} ParsesChildren(g: Grammar, compact: bool, p: Pos, node: Node, x: string, done: seq<Node>)
    requires Lawful(g) && !p.justOpened && Printable(g, node) && node.Element? && node.children != []
    ensures ParseNodes(g, Print(compact, p, node) + x, done, p.depth + 1, p.depth == 0)
            == if AcceptedNode(g, node, false, p.depth + 1)
               then ParseNodes(g, LineEnd(compact, Inside(compact, p)) + x, done + [NormalNode(g, node)], p.depth + 1, p.depth == 0)
               else Failed
    decreases node, 1
  {
    hide *;
    ElementParts(g, node, p.depth + 1);
    IndentBlank(g, compact, p);
    PrintsChildren(compact, p, node, x);
    ParsesContent(g, compact, p, node, x);
    ElementOpens(g, node.name, node.attributes, Indent(compact, p), Content(compact, p, node, x), done, p.depth + 1, p.depth == 0);
  }

  // The parser goes one level down for the content, and comes back with the end tag's name.
  lemma {:induction false} ParsesContent(g: Grammar, compact: bool, p: Pos, node: Node, x: string)
    requires Lawful(g) && Printable(g, node) && node.Element? && node.children != []
    ensures Content(compact, p, node, x) != ""
    ensures ParseDeep(g, Content(compact, p, node, x), p.depth + 2, false)
            == if p.depth + 2 != g.maxDepth && Accepted(g, node.children, false, p.depth + 2)
               then Returned(Normal(g, node.children), node.name, LineEnd(compact, Inside(compact, p)) + x)
               else Failed
    decreases node, 0
  {
    hide *;
    var inside, kids := Inside(compact, p), node.children;
    var o := Outdent(compact, AfterAll(compact, inside, kids));
    var y, r := LineEnd(compact, inside) + x, Content(compact, p, node, x);
    var tail := "</" + (node.name + (">" + y));
    ContentReady(g, compact, p, node, x);
    ParsesAll(g, compact, inside, kids, o, tail, []);
    TakenContent(g, kids, node.name, y, p.depth + 1);
    ParseDeepIs(g, r, p.depth + 2);
  }

  lemma ParseDeepIs(g: Grammar, s: string, depth: nat)
    requires Lawful(g)
    ensures ParseDeep(g, s, depth, false) == if depth == g.maxDepth then Failed else ParseNodes(g, s, [], depth, false)
  {
    hide ParseNodes;
  }

  lemma TakenContent(g: Grammar, kids: seq<Node>, name: string, y: string, depth: nat)
    requires Lawful(g) && ValidName(g, name) && depth > 0
    ensures Taken(g, kids, "</" + (name + (">" + y)), [], depth)
            == if Accepted(g, kids, false, depth + 1) then Returned(Normal(g, kids), name, y) else Failed
  {
    hide Accepted, Normal, ParseNodes, Lawful, ValidName;
    assert [] + Normal(g, kids) == Normal(g, kids);
    ElementCloses(g, name, y, Normal(g, kids), depth + 1, false);
  }

  lemma ContentReady(g: Grammar, compact: bool, p: Pos, node: Node, x: string)
    requires Lawful(g) && Printable(g, node) && node.Element? && node.children != []
    ensures var inside := Inside(compact, p); var o := Outdent(compact, AfterAll(compact, inside, node.children));
            var tail := "</" + (node.name + (">" + (LineEnd(compact, inside) + x)));
            && ValidName(g, node.name) && Content(compact, p, node, x) == PrintAll(compact, inside, node.children) + (o + tail)
            && Content(compact, p, node, x) != "" && Ready(g, compact, inside, node.children, o, tail)
  {
    var inside, kids := Inside(compact, p), node.children;
    var after := AfterAll(compact, inside, kids);
    OutdentBlank(g, compact, after);
    if kids[|kids| - 1].Text? { LastText(compact, inside, kids); }
    assert MarkupNext("</" + (node.name + (">" + (LineEnd(compact, inside) + x))));
    hide PrintAll, AfterAll, Outdent, LineEnd, Blank, Lawful;
  }

  lemma JoinFour(a: string, b: string, c: string, d: string, x: string)
    ensures a + b + c + d + x == a + (b + (c + (d + x)))
  {
  }

  /// Documents.

  function PrintDocument(compact: bool, nodes: seq<Node>): string {
    PrintAll(compact, START, nodes)
  }

  // Parsing what the printer writes for a document gives its normal form, exactly when it is not nested
  // too deep and its declarations come first.
  lemma ParsePrinted(g: Grammar, compact: bool, nodes: seq<Node>)
    requires Lawful(g) && nodes != [] && PrintableAll(g, nodes) && NoTexts(nodes)
    ensures Parse(g, PrintDocument(compact, nodes))
            == if g.maxDepth != 1 && Accepted(g, nodes, true, 1) then Some(Normal(g, nodes)) else None
  {
    hide PrintAll, Normal, Accepted, NoTexts, PrintableAll, ParseNodes, Lawful, Skip, Starts;
    var s := PrintDocument(compact, nodes);
    FirstIsMarkup(g, compact, nodes);
    StartIsReady(g, compact, nodes);
    ParsesAll(g, compact, START, nodes, "", "", []);
    assert s + ("" + "") == s && [] + Normal(g, nodes) == Normal(g, nodes);
    HeadDiffers(s, BOM, 0);
    NothingParses(g, Normal(g, nodes));
  }

  lemma StartIsReady(g: Grammar, compact: bool, nodes: seq<Node>)
    requires Lawful(g) && PrintableAll(g, nodes) && NoTexts(nodes)
    ensures !START.justOpened && START.depth == 0 && Ready(g, compact, START, nodes, "", "")
  {
    hide PrintableAll;
    SpaceIsBlank(g);
  }

  lemma NothingParses(g: Grammar, done: seq<Node>)
    requires Lawful(g)
    ensures ParseNodes(g, "", done, 1, true) == Ended(done)
  {
  }

  lemma FirstIsMarkup(g: Grammar, compact: bool, nodes: seq<Node>)
    requires Lawful(g) && nodes != [] && NoTexts(nodes)
    ensures var s := PrintDocument(compact, nodes); s != "" && s[0] == '<' && Skip(g, s) == s
  {
    Markup(g, '<');
    var w, m := PrintsMarkup(compact, START, nodes[0]);
    assert Indent(compact, START) == "" && w + m == m;
  }

  // XMLDocument::Accept with a fresh printer.
  method Write(compact: bool, nodes: seq<Node>) returns (text: string)
    ensures text == PrintDocument(compact, nodes)
  {
    hide *;
    var printer := new Printer(compact);
    printer.VisitAll(nodes);
    text := printer.buffer;
    DocumentPrints(compact, nodes);
  }

  lemma DocumentPrints(compact: bool, nodes: seq<Node>)
    ensures "" + PrintAll(compact, START, nodes) == PrintDocument(compact, nodes)
  {
  }

  /// Trees that come back unchanged: no carriage return, no blank text, no two texts side by side.

  ghost predicate Plain(g: Grammar, nodes: seq<Node>)
    decreases nodes
  {
    nodes == [] ||
    (PlainNode(g, nodes[0]) && Plain(g, nodes[1..]) && (nodes[0].Text? && |nodes| > 1 ==> !nodes[1].Text?))
  }

  ghost predicate PlainNode(g: Grammar, node: Node)
    decreases node
  {
    match node
    case Element(_, attributes, children) =>
      (forall i :: 0 <= i < |attributes| ==> '\r' !in attributes[i].value) && Plain(g, children)
    case Text(value) => '\r' !in value && !Blank(g, value)
    case CData(value) => '\r' !in value
    case Comment(value) => '\r' !in value
    case Declaration(value) => '\r' !in value
    case Unknown(value) => '\r' !in value
  }

  lemma {:induction false} PlainIsNormal(g: Grammar, nodes: seq<Node>)
    requires Plain(g, nodes)
    ensures Normal(g, nodes) == nodes
    decreases nodes
  {
    if nodes != [] {
      var node, rest := nodes[0], nodes[1..];
      PlainIsNormal(g, rest);
      assert [node] + rest == nodes;
      if node.Text? {
        assert RunLength(rest) == 0 && RunText(rest) == "";
        assert RunText(nodes) == node.value + "" == node.value && nodes[RunLength(nodes)..] == rest;
        NoReturns(node.value);
      } else {
        PlainNodeIsNormal(g, node);
      }
    }
  }

  lemma {:induction false} PlainNodeIsNormal(g: Grammar, node: Node)
    requires PlainNode(g, node) && !node.Text?
    ensures NormalNode(g, node) == node
    decreases node
  {
    if node.Element? {
      PlainAttributes(node.attributes);
      PlainIsNormal(g, node.children);
    } else {
      NoReturns(node.value);
    }
  }

  lemma {:induction false} PlainAttributes(attributes: seq<Attribute>)
    requires forall i :: 0 <= i < |attributes| ==> '\r' !in attributes[i].value
    ensures NormalAttributes(attributes) == attributes
    decreases |attributes|
  {
    if attributes != [] {
      NoReturns(attributes[0].value);
      PlainAttributes(attributes[1..]);
      assert [attributes[0]] + attributes[1..] == attributes;
    }
  }

  // The law the messages rely on: written and read, a document is the same tree.
  lemma RoundTrip(g: Grammar, compact: bool, nodes: seq<Node>)
    requires Lawful(g) && nodes != [] && PrintableAll(g, nodes) && NoTexts(nodes) && Plain(g, nodes)
    ensures Parse(g, PrintDocument(compact, nodes)) == Some(nodes) <==> g.maxDepth != 1 && Accepted(g, nodes, true, 1)
  {
    ParsePrinted(g, compact, nodes);
    PlainIsNormal(g, nodes);
  }
}
