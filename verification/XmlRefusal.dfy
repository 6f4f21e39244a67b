/** Documents that are cut short or malformed, and what the parser makes of an end tag at the top. */
module XmlRefusal {
  import opened Bytes
  import opened XmlText
  import opened XmlPrinter
  import opened XmlParser
  import opened XmlRoundTrip
  import opened XmlSpelling

  // An end tag at the top ends the document, whatever comes behind it: the nodes before it are kept.
  lemma StrayEnd(g: Grammar, lead: string, mark: bool, items: seq<Item>, inner: Inner, x: string)
    requires Lawful(g) && Blank(g, lead) && items != [] && ItemsWell(g, items) && Blank(g, items[0].gap)
    requires inner.Open? && InnerWell(g, inner) && (mark ==> !g.white(BOM[0]))
    ensures Parse(g, DocumentSpelt(lead, mark, items, inner.last + EndSpelt(inner, x)))
            == if g.maxDepth != 1 && Acceptable(g, items, true, 1)
               then Some(Meaning(g, items) + TextOf(g, inner.last)) else None
  {
    hide ItemsSpelt, Meaning, Acceptable, ItemsWell, ParseNodes, Lawful, Blank, Skip, Starts, InnerWell, TextOf, EndSpelt;
    var tail := EndSpelt(inner, x);
    LastWell(g, inner, x);
    ItemsRead(g, items, inner.last + tail, [], 1, true);
    assert [] + Meaning(g, items) == Meaning(g, items);
    GapRead(g, inner.last, tail, Meaning(g, items), 1, true);
    EndIs(g, inner, x, Meaning(g, items) + TextOf(g, inner.last));
    DocumentStarts(g, lead, mark, items, inner.last + tail);
  }

  function EndSpelt(inner: Inner, x: string): string
    requires inner.Open?
  {
    "<" + (inner.close + ("/" + (inner.end + (inner.closing + (">" + x)))))
  }

  lemma LastWell(g: Grammar, inner: Inner, x: string)
    requires inner.Open? && InnerWell(g, inner)
    ensures '<' !in inner.last && MarkupNext(EndSpelt(inner, x))
  {
  }

  lemma EndIs(g: Grammar, inner: Inner, x: string, done: seq<Node>)
    requires Lawful(g) && inner.Open? && InnerWell(g, inner)
    ensures ParseNodes(g, EndSpelt(inner, x), done, 1, true) == Returned(done, inner.end, x)
  {
    hide ParseNodes;
    EndRead(g, inner, x, done, 1, true);
  }

  // An element that is not ended is refused, wherever the text is cut between two pieces of its markup.
  lemma Unended(g: Grammar, m: Mark, done: seq<Node>, depth: nat, top: bool)
    requires Lawful(g) && MarkWell(g, m) && m.Tag? && m.inner.Open?
    ensures var r := ItemsSpelt(m.inner.items) + m.inner.last;
            ParseNodes(g, "<" + (m.lead + (m.name + (AttributesSpelt(m.attributes) + (m.behind + (">" + r))))),
                       done, depth, top) == Failed
  {
    hide *;
    var items, last := m.inner.items, m.inner.last;
    var r := ItemsSpelt(items) + last;
    var y := m.lead + (m.name + (AttributesSpelt(m.attributes) + (m.behind + (">" + r))));
    UnendedParts(g, m, y);
    ParseDeepIs(g, r, depth + 1);
    ItemsRead(g, items, last, [], depth + 1, false);
    ItemsEnd(g, items, last, depth + 1);
    OpenStep(g, m, y, r, done, depth, top);
    NoReturn(g, m, ParseDeep(g, r, depth + 1, false), done, depth, top);
  }

  lemma UnendedParts(g: Grammar, m: Mark, y: string)
    requires Lawful(g) && MarkWell(g, m) && m.Tag? && m.inner.Open?
    requires exists z :: y == m.lead + (m.name + z)
    ensures Blank(g, m.lead) && ValidName(g, m.name) && AttributesWell(g, m.attributes) && Blank(g, m.behind)
    ensures ItemsWell(g, m.inner.items) && '<' !in m.inner.last
    ensures y != "" && y[0] != '?' && y[0] != '!'
  {
    var z :| y == m.lead + (m.name + z);
    assert ValidName(g, m.name) && g.nameChar(m.name[0]) && (m.name + z)[0] == m.name[0];
    NoOtherMarkup(g, m.lead, m.name + z);
  }

  lemma ItemsEnd(g: Grammar, items: seq<Item>, last: string, depth: nat)
    requires Lawful(g) && '<' !in last
    ensures !ItemsTaken(g, items, last, [], depth, false).Returned?
  {
    hide ParseNodes, Acceptable, Meaning, Lawful;
    LastRead(g, last, [] + Meaning(g, items), depth, false);
  }

  lemma NoReturn(g: Grammar, m: Mark, inside: Nodes, done: seq<Node>, depth: nat, top: bool)
    requires Lawful(g) && m.Tag? && !inside.Returned?
    ensures AfterStart(g, m, inside, done, depth, top) == Failed
  {
    hide ParseNodes;
  }

  // Markup of the other kinds whose end is missing.
  lemma NoTail(g: Grammar, node: Node, done: seq<Node>, depth: nat, top: bool)
    requires Lawful(g) && !node.Element? && !node.Text? && !Contains(node.value, Tail(node))
    requires node.Unknown? ==> !Starts(node.value, 0, "--") && !Starts(node.value, 0, "[CDATA[")
    ensures ParseNodes(g, Head(node) + node.value, done, depth, top) == Failed
  {
    var h, v := Head(node), node.value;
    var s := h + v;
    Markup(g, '<');
    HeadAlone(node);
    FindsNot(v, Tail(node));
    assert s[|h|..] == v && Skip(g, s) == s;
    assert |h| == (match node case CData(_) => 9 case Comment(_) => 4 case Declaration(_) => 2 case Unknown(_) => 2);
    hide Skip, Starts, Contains, Find, ParseTag, ParseDeep, Lawful;
  }

  lemma HeadAlone(node: Node)
    requires !node.Element? && !node.Text?
    requires node.Unknown? ==> !Starts(node.value, 0, "--") && !Starts(node.value, 0, "[CDATA[")
    ensures var s := Head(node) + node.value;
            && s[0] == '<' && Starts(s, 0, Head(node)) && (node.Unknown? ==> Starts(s, 0, "<!"))
            && (node.Declaration? <==> Starts(s, 0, "<?"))
            && (node.Comment? <==> Starts(s, 0, "<!--"))
            && (node.CData? <==> Starts(s, 0, "<![CDATA["))
  {
    var h, v := Head(node), node.value;
    var s := h + v;
    assert s[0..|h|] == h;
    match node
    case Declaration(_) =>
      assert s[1] == '?';
      HeadDiffers(s, "<!--", 1);
      HeadDiffers(s, "<![CDATA[", 1);
    case Comment(_) =>
      assert s[1] == '!' && s[2] == '-';
      HeadDiffers(s, "<?", 1);
      HeadDiffers(s, "<![CDATA[", 2);
    case CData(_) =>
      assert s[1] == '!' && s[2] == '[';
      HeadDiffers(s, "<?", 1);
      HeadDiffers(s, "<!--", 2);
    case Unknown(_) =>
      assert s[1] == '!';
      HeadDiffers(s, "<?", 1);
      HeadBehind(v, "--");
      HeadBehind(v, "[CDATA[");
      assert "<!" + "--" == "<!--" && "<!" + "[CDATA[" == "<![CDATA[";
  }

  lemma HeadBehind(v: string, h: string)
    requires !Starts(v, 0, h)
    ensures !Starts("<!" + v, 0, "<!" + h)
  {
    var s := "<!" + v;
    if 2 + |h| <= |s| {
      assert s[0..2 + |h|][2..] == v[0..|h|] && ("<!" + h)[2..] == h;
    }
  }

  lemma {:induction false} FindsNot(v: string, tag: string)
    requires tag != "" && !Contains(v, tag)
    ensures Find(v, tag) == None
    decreases |v|
  {
    if v != "" {
      assert !Starts(v, 0, tag);
      if k :| 0 <= k <= |v[1..]| && Starts(v[1..], k, tag) {
        assert v[k + 1..k + 1 + |tag|] == v[1..][k..k + |tag|];
        assert Starts(v, k + 1, tag);
      }
      FindsNot(v[1..], tag);
    }
  }

  // An attribute without an equals sign, without a quote, or without the second quote.
  lemma NoValue(g: Grammar, name: string, left: string, right: string, c: char, x: string)
    requires Lawful(g) && ValidName(g, name) && Blank(g, left) && Blank(g, right) && !g.white(c)
    ensures c != '=' && (left != "" || !g.nameChar(c)) ==> ParseAttribute(g, name + (left + ([c] + x))) == NoAttribute
    ensures c != '"' && c != '\'' ==> ParseAttribute(g, name + (left + ("=" + (right + ([c] + x))))) == NoAttribute
    ensures c !in x ==> ParseAttribute(g, name + (left + ("=" + (right + ([c] + x))))) == NoAttribute
  {
    var v := [c] + x;
    var t := "=" + (right + v);
    Markup(g, '=');
    hide ValidName, NameLength, Find, Contains, Starts;
    BlankNoName(g, left, t);
    NameIs(g, name, left + t);
    SkipBlank(g, left, t);
    SkipBlank(g, right, v);
    assert (name + (left + t))[|name|..] == left + t && Skip(g, t) == t && t[1..] == right + v && Skip(g, v) == v;
    assert v[0] == c && v[1..] == x;
    if c !in x {
      CharacterAbsent(x, c);
      FindsNot(x, [c]);
    }
    if left != "" || !g.nameChar(c) {
      if left == "" { assert left + v == v; } else { assert g.white(left[0]) && (left + v)[0] == left[0]; }
      NameIs(g, name, left + v);
      SkipBlank(g, left, v);
      assert (name + (left + v))[|name|..] == left + v;
    }
  }

  // Behind the attributes, anything that does not end the tag.
  lemma NoTagEnd(g: Grammar, behind: string, c: char, x: string, done: seq<Attribute>)
    requires Lawful(g) && Blank(g, behind) && !g.white(c) && !g.nameStart(c) && c != '>' && (c == '/' ==> At(x, 0) != '>')
    ensures ParseAttributes(g, behind + ([c] + x), done) == BadAttributes
    ensures ParseAttributes(g, behind, done) == BadAttributes
  {
    assert behind + "" == behind;
    SkipBlank(g, behind, "");
    SkipBlank(g, behind, [c] + x);
    assert ([c] + x)[0] == c && At([c] + x, 1) == At(x, 0);
  }

  // A tag without a name.
  lemma NoName(g: Grammar, lead: string, c: char, x: string)
    requires Lawful(g) && Blank(g, lead) && !g.white(c) && !g.nameStart(c)
    ensures c != '/' || x == "" || !g.nameStart(x[0]) ==> ParseTag(g, lead + ([c] + x)) == BadTag
  {
    SkipBlank(g, lead, [c] + x);
    assert ([c] + x)[0] == c && ([c] + x)[1..] == x;
  }
}
