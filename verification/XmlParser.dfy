/** The recursive parser, as functions from the text still to be read. Texts hold no zero byte: the
    end of the text is what the parser sees as one. */
module XmlParser {
  import opened XmlText
  import opened XmlPrinter

  // The tests on characters and the depth limit, which the parser takes from its header.
  datatype Grammar = Grammar(white: char -> bool, nameStart: char -> bool, nameChar: char -> bool, maxDepth: nat)

  // What the parser needs of them: markup is not white space, and neither is part of a name.
  ghost predicate Lawful(g: Grammar) {
    && g.white(' ') && g.white('\n')
    && (forall c :: c in "<>/=\"'&?!\0" ==> !g.white(c) && !g.nameChar(c))
    && (forall c :: g.nameStart(c) ==> g.nameChar(c))
    && (forall c :: g.nameChar(c) ==> !g.white(c))
  }

  // SkipWhiteSpace
  function Skip(g: Grammar, s: string): (r: string)
    ensures |r| <= |s| && (r == "" || !g.white(r[0]))
    ensures s != "" && !g.white(s[0]) ==> r == s
  {
    if s != "" && g.white(s[0]) then Skip(g, s[1..]) else s
  }

  // The loop in ParseName.
  function NameEnd(g: Grammar, s: string): (n: nat)
    ensures n <= |s|
  {
    if s != "" && g.nameChar(s[0]) then 1 + NameEnd(g, s[1..]) else 0
  }

  // ParseName: how long the name is; no name has length zero.
  function NameLength(g: Grammar, s: string): (n: nat)
    ensures n <= |s|
  {
    if s == "" || !g.nameStart(s[0]) then 0 else 1 + NameEnd(g, s[1..])
  }

  // Where ParseText finds the end tag.
  function Find(s: string, tag: string): (k: Option<nat>)
    requires tag != ""
    ensures k.Some? ==> k.value + |tag| <= |s|
  {
    if s == "" then None
    else if Starts(s, 0, tag) then Some(0)
    else match Find(s[1..], tag) case None => None case Some(k) => Some(k + 1)
  }

  datatype TextResult = NoText | GotText(value: string, rest: string)

  // ParseText, with the value as GetStr will give it.
  function ParseText(s: string, tag: string, f: Flags): (r: TextResult)
    requires tag != ""
    ensures r.GotText? ==> |r.rest| < |s|
  {
    match Find(s, tag)
    case None => NoText
    case Some(k) => GotText(Decode(s[..k], f), s[k + |tag|..])
  }

  const LINES := Flags(false, true)

  datatype AttributeResult = NoAttribute | GotAttribute(attribute: Attribute, rest: string)

  // XMLAttribute::ParseDeep
  function ParseAttribute(g: Grammar, s: string): (r: AttributeResult)
    ensures r.GotAttribute? ==> |r.rest| < |s|
  {
    var n := NameLength(g, s);
    var t := Skip(g, s[n..]);
    if n == 0 || n == |s| || At(t, 0) != '=' then NoAttribute else
      var v := Skip(g, t[1..]);
      if At(v, 0) != '"' && At(v, 0) != '\'' then NoAttribute else
        match ParseText(v[1..], [v[0]], BOTH)
        case NoText => NoAttribute
        case GotText(value, rest) => GotAttribute(Attribute(s[..n], value), rest)
  }

  predicate Has(attributes: seq<Attribute>, name: string) {
    exists i :: 0 <= i < |attributes| && attributes[i].name == name
  }

  datatype AttributesResult = BadAttributes | GotAttributes(attributes: seq<Attribute>, closed: bool, rest: string)

  // ParseAttributes, up to the end of the tag.
  function ParseAttributes(g: Grammar, s: string, done: seq<Attribute>): (r: AttributesResult)
    ensures r.GotAttributes? ==> |r.rest| < |s|
    decreases |s|
  {
    var t := Skip(g, s);
    if t == "" then BadAttributes
    else if g.nameStart(t[0]) then
      match ParseAttribute(g, t)
      case NoAttribute => BadAttributes
      case GotAttribute(a, rest) =>
        if Has(done, a.name) then BadAttributes else ParseAttributes(g, rest, done + [a])
    else if t[0] == '>' then GotAttributes(done, false, t[1..])
    else if t[0] == '/' && At(t, 1) == '>' then GotAttributes(done, true, t[2..])
    else BadAttributes
  }

  // A start, end or empty-element tag, from behind its '<'.
  datatype TagResult =
    | BadTag
    | OpenTag(name: string, attributes: seq<Attribute>, rest: string)
    | ClosedTag(name: string, attributes: seq<Attribute>, rest: string)
    | EndTag(name: string, rest: string)

  // XMLElement::ParseDeep as far as its tag.
  function ParseTag(g: Grammar, s: string): (r: TagResult)
    ensures !r.BadTag? ==> |r.rest| < |s|
  {
    var t := Skip(g, s);
    var closing := At(t, 0) == '/';
    var u := if closing then t[1..] else t;
    var n := NameLength(g, u);
    if n == 0 then BadTag else
      match ParseAttributes(g, u[n..], [])
      case BadAttributes => BadTag
      case GotAttributes(attributes, closed, rest) =>
        if closed then ClosedTag(u[..n], attributes, rest)
        else if closing then EndTag(u[..n], rest)
        else OpenTag(u[..n], attributes, rest)
  }

  // Failed: an error is set. Ended: the text is at its end. Returned: an end tag has been read.
  datatype Nodes = Failed | Ended(nodes: seq<Node>) | Returned(nodes: seq<Node>, name: string, rest: string)

  // Whether a declaration may come next: at the top, with nothing but declarations so far.
  predicate MayDeclare(done: seq<Node>, top: bool) {
    top && (done == [] || (done[0].Declaration? && done[|done| - 1].Declaration?))
  }

  // XMLNode::ParseDeep
  function ParseDeep(g: Grammar, s: string, depth: nat, top: bool): (r: Nodes)
    requires Lawful(g)
    ensures r.Returned? ==> |r.rest| < |s|
    decreases |s|, 1
  {
    if depth == g.maxDepth then Failed else ParseNodes(g, s, [], depth, top)
  }

  // Its loop, with the nodes inserted so far.
  function ParseNodes(g: Grammar, s: string, done: seq<Node>, depth: nat, top: bool): (r: Nodes)
    requires Lawful(g)
    ensures r.Returned? ==> |r.rest| < |s|
    decreases |s|, 0
  {
    var t := Skip(g, s);
    if t == "" then Ended(done)
    else if Starts(t, 0, "<?") then
      match ParseText(t[2..], "?>", LINES)
      case NoText => Failed
      case GotText(v, rest) =>
        if MayDeclare(done, top) then ParseNodes(g, rest, done + [Declaration(v)], depth, top) else Failed
    else if Starts(t, 0, "<!--") then
      match ParseText(t[4..], "-->", LINES)
      case NoText => Failed
      case GotText(v, rest) => ParseNodes(g, rest, done + [Comment(v)], depth, top)
    else if Starts(t, 0, "<![CDATA[") then
      match ParseText(t[9..], "]]>", LINES)
      case NoText => Failed
      case GotText(v, rest) => ParseNodes(g, rest, done + [CData(v)], depth, top)
    else if Starts(t, 0, "<!") then
      match ParseText(t[2..], ">", LINES)
      case NoText => Failed
      case GotText(v, rest) => ParseNodes(g, rest, done + [Unknown(v)], depth, top)
    else if t[0] == '<' then
      match ParseTag(g, t[1..])
      case BadTag => Failed
      case EndTag(name, rest) => Returned(done, name, rest)
      case ClosedTag(name, attributes, rest) => ParseNodes(g, rest, done + [Element(name, attributes, [])], depth, top)
      case OpenTag(name, attributes, rest) =>
        if rest == "" then Failed else
          match ParseDeep(g, rest, depth + 1, false)
          case Failed => Failed
          case Ended(_) => Failed
          case Returned(children, end, rest) =>
            if end != name then Failed
            else ParseNodes(g, rest, done + [Element(name, attributes, children)], depth, top)
    else
      match Find(s, "<")
      case None => Failed
      case Some(k) =>
        TextIsThere(g, s);
        if k + 1 == |s| then Failed else ParseNodes(g, s[k..], done + [Text(Decode(s[..k], BOTH))], depth, top)
  }

  // Text that begins with white space or anything but '<' has a first character before its end.
  lemma TextIsThere(g: Grammar, s: string)
    requires Lawful(g) && s != "" && Skip(g, s) != "" && Skip(g, s)[0] != '<'
    ensures Find(s, "<").Some? ==> Find(s, "<").value > 0
  {
    assert '<' in "<>/=\"'&?!\0";
    assert s[0] != '<' && s[0..1] == [s[0]];
  }

  // XMLDocument::Parse: the nodes of the document, unless an error was set. An end tag at the top ends
  // the document.
  function Parse(g: Grammar, s: string): Option<seq<Node>>
    requires Lawful(g)
  {
    var t := Skip(g, s);
    var u := if Starts(t, 0, BOM) then t[3..] else t;
    if u == "" then None else
      match ParseDeep(g, u, 1, true)
      case Failed => None
      case Ended(nodes) => Some(nodes)
      case Returned(nodes, _, _) => Some(nodes)
  }

  const BOM: string := [0xEF as char, 0xBB as char, 0xBF as char]
}
