/** Document trees and the printer: what it writes for a tree, and its state between the calls that
    visit a node. */
module XmlPrinter {
  import opened Bytes
  import opened XmlText

  datatype Attribute = Attribute(name: string, value: string)

  datatype Node =
    | Element(name: string, attributes: seq<Attribute>, children: seq<Node>)
    | Text(value: string)
    | CData(value: string)
    | Comment(value: string)
    | Declaration(value: string)
    | Unknown(value: string)

  // The fields _elementJustOpened, _firstElement, _depth and _textDepth.
  datatype Pos = Pos(justOpened: bool, first: bool, depth: nat, textDepth: int)

  const START := Pos(false, true, 0, -1)

  /// What each call writes.

  function Spaces(n: nat): string {
    if n == 0 then "" else "    " + Spaces(n - 1)
  }

  function Seal(p: Pos): string {
    if p.justOpened then ">" else ""
  }

  function Sealed(p: Pos): Pos {
    p.(justOpened := false)
  }

  // The line break and indentation before anything but character data.
  function Indent(compact: bool, p: Pos): string {
    if compact then ""
    else if p.first then Spaces(p.depth)
    else if p.textDepth < 0 then "\n" + Spaces(p.depth)
    else ""
  }

  // PrepareForNewNode
  function Prepared(compact: bool, p: Pos): Pos {
    Pos(false, p.first && compact, p.depth, p.textDepth)
  }

  function Attributes(attributes: seq<Attribute>): string {
    if attributes == [] then "" else AttributeText(attributes[0]) + Attributes(attributes[1..])
  }

  // PushAttribute
  function AttributeText(a: Attribute): string {
    " " + a.name + "=\"" + Escape(a.value, true) + "\""
  }

  // What CloseElement puts between the content and the end tag, and behind the tag.

  function Outdent(compact: bool, p: Pos): string
    requires p.depth > 0
  {
    if p.textDepth < 0 && !compact then "\n" + Spaces(p.depth - 1) else ""
  }

  function EndTag(compact: bool, p: Pos, name: string): string
    requires p.depth > 0
  {
    if p.justOpened then "/>" else Outdent(compact, p) + "</" + name + ">"
  }

  function LineEnd(compact: bool, p: Pos): string
    requires p.depth > 0
  {
    if p.depth == 1 && !compact then "\n" else ""
  }

  function Closed(p: Pos): Pos
    requires p.depth > 0
  {
    Pos(false, p.first, p.depth - 1, if p.textDepth == p.depth - 1 then -1 else p.textDepth)
  }

  /// What a traversal writes.

  function Print(compact: bool, p: Pos, node: Node): string
    decreases node
  {
    Seal(p) +
    match node
    case Element(name, attributes, children) =>
      var inside := Opened(compact, p);
      Indent(compact, p) + "<" + name + Attributes(attributes) + PrintAll(compact, inside, children)
      + EndTag(compact, AfterAll(compact, inside, children), name) + LineEnd(compact, inside)
    case Text(value) => Escape(value, false)
    case CData(value) => "<![CDATA[" + value + "]]>"
    case Comment(value) => Indent(compact, p) + "<!--" + value + "-->"
    case Declaration(value) => Indent(compact, p) + "<?" + value + "?>"
    case Unknown(value) => Indent(compact, p) + "<!" + value + ">"
  }

  function Opened(compact: bool, p: Pos): Pos {
    Prepared(compact, p).(justOpened := true, depth := p.depth + 1)
  }

  function After(compact: bool, p: Pos, node: Node): (q: Pos)
    ensures q.depth == p.depth && !q.justOpened && (!p.first ==> !q.first)
    decreases node
  {
    match node
    case Element(_, _, children) => Closed(AfterAll(compact, Opened(compact, p), children))
    case Text(_) => Sealed(p).(textDepth := p.depth - 1)
    case CData(_) => Sealed(p).(textDepth := p.depth - 1)
    case Comment(_) => Prepared(compact, p)
    case Declaration(_) => Prepared(compact, p)
    case Unknown(_) => Prepared(compact, p)
  }

  function PrintAll(compact: bool, p: Pos, nodes: seq<Node>): string
    decreases nodes
  {
    if nodes == [] then "" else Print(compact, p, nodes[0]) + PrintAll(compact, After(compact, p, nodes[0]), nodes[1..])
  }

  function AfterAll(compact: bool, p: Pos, nodes: seq<Node>): (q: Pos)
    ensures q.depth == p.depth && (q.justOpened <==> p.justOpened && nodes == []) && (!p.first ==> !q.first)
    decreases nodes
  {
    if nodes == [] then p else AfterAll(compact, After(compact, p, nodes[0]), nodes[1..])
  }

  /// The class.

  class Printer {
    var elementJustOpened: bool
    var firstElement: bool
    var depth: nat
    var textDepth: int
    const compactMode: bool
    var stack: seq<string>
    var buffer: string

    ghost function View(): Pos
      reads this
    {
      Pos(elementJustOpened, firstElement, depth, textDepth)
    }

    // Element names are pushed and popped with the depth.
    ghost predicate Valid()
      reads this
    {
      |stack| == depth
    }

    constructor (compact: bool)
      ensures Valid() && View() == START && compactMode == compact && buffer == "" && stack == []
    {
      elementJustOpened, firstElement, depth, textDepth := false, true, 0, -1;
      compactMode, stack, buffer := compact, [], "";
    }

    method PrintSpace(n: nat)
      modifies this`buffer
      ensures buffer == old(buffer) + Spaces(n)
    {
      ghost var was := buffer;
      for i := 0 to n
        invariant buffer == was + Spaces(i)
      {
        SpacesSnoc(i);
        buffer := buffer + "    ";
      }
    }

    method SealElementIfJustOpened()
      modifies this`buffer, this`elementJustOpened
      ensures buffer == old(buffer) + Seal(old(View())) && View() == Sealed(old(View()))
    {
      if elementJustOpened {
        elementJustOpened := false;
        buffer := buffer + ">";
      }
    }

    method PrepareForNewNode()
      modifies this`buffer, this`elementJustOpened, this`firstElement
      ensures View() == Prepared(compactMode, old(View()))
      ensures buffer == old(buffer) + (Seal(old(View())) + Indent(compactMode, old(View())))
    {
      ghost var was, p := buffer, View();
      SealElementIfJustOpened();
      if compactMode { return; }
      if firstElement {
        PrintSpace(depth);
      } else if textDepth < 0 {
        buffer := buffer + "\n";
        PrintSpace(depth);
      }
      firstElement := false;
    }

    method OpenElement(name: string)
      requires Valid()
      modifies this
      ensures Valid() && stack == old(stack) + [name] && View() == Opened(compactMode, old(View()))
      ensures buffer == old(buffer) + (Seal(old(View())) + Indent(compactMode, old(View())) + "<" + name)
    {
      PrepareForNewNode();
      stack := stack + [name];
      buffer := buffer + "<";
      buffer := buffer + name;
      elementJustOpened := true;
      depth := depth + 1;
    }

    method PushAttribute(a: Attribute)
      modifies this`buffer
      ensures buffer == old(buffer) + AttributeText(a)
    {
      buffer := buffer + " ";
      buffer := buffer + a.name;
      buffer := buffer + "=\"";
      var value := PrintString(a.value, false);
      buffer := buffer + value;
      buffer := buffer + "\"";
    }

    method PushAttributes(attributes: seq<Attribute>)
      modifies this`buffer
      ensures buffer == old(buffer) + Attributes(attributes)
    {
      ghost var was := buffer;
      for i := 0 to |attributes|
        invariant buffer + Attributes(attributes[i..]) == was + Attributes(attributes)
      {
        ghost var rest := attributes[i..];
        assert rest[0] == attributes[i] && rest[1..] == attributes[i + 1..];
        PushAttribute(attributes[i]);
      }
    }

    method WriteOutdent()
      modifies this`buffer
      ensures buffer == old(buffer) + if textDepth < 0 && !compactMode then "\n" + Spaces(depth) else ""
    {
      ghost var was := buffer;
      if textDepth < 0 && !compactMode {
        buffer := buffer + "\n";
        PrintSpace(depth);
        ConcatAssociates(was, "\n", Spaces(depth));
      }
    }

    method CloseElement()
      requires Valid() && depth > 0
      modifies this
      ensures Valid() && stack == old(stack[..|stack| - 1]) && View() == Closed(old(View()))
      ensures buffer == old(buffer) + (EndTag(compactMode, old(View()), old(stack[|stack| - 1]))
                                       + LineEnd(compactMode, old(View())))
    {
      ghost var p, was := View(), buffer;
      depth := depth - 1;
      var name := stack[|stack| - 1];
      stack := stack[..|stack| - 1];
      if elementJustOpened {
        buffer := buffer + "/>";
      } else {
        WriteOutdent();
        ghost var o := Outdent(compactMode, p);
        assert buffer == was + o;
        hide Outdent, Spaces;
        buffer := buffer + "</";
        buffer := buffer + name;
        buffer := buffer + ">";
        JoinFour(was, o, "</", name, ">");
      }
      ghost var e, l := EndTag(compactMode, p, name), LineEnd(compactMode, p);
      assert buffer == was + e;
      if textDepth == depth { textDepth := -1; }
      if depth == 0 && !compactMode {
        buffer := buffer + "\n";
      }
      elementJustOpened := false;
      assert buffer == was + e + l;
      hide EndTag, LineEnd;
      ConcatAssociates(was, e, l);
    }

    method PushText(text: string, cdata: bool)
      modifies this`buffer, this`elementJustOpened, this`textDepth
      ensures var node := if cdata then CData(text) else Text(text);
              buffer == old(buffer) + Print(compactMode, old(View()), node) && View() == After(compactMode, old(View()), node)
    {
      ghost var p, was := View(), buffer;
      textDepth := depth - 1;
      SealElementIfJustOpened();
      TextPrints(compactMode, p, text, was);
      hide Print, After, Escape;
      if cdata {
        buffer := buffer + "<![CDATA[";
        buffer := buffer + text;
        buffer := buffer + "]]>";
      } else {
        var escaped := PrintString(text, true);
        buffer := buffer + escaped;
      }
    }

    // PushComment, PushDeclaration and PushUnknown.
    method PushMarkup(node: Node)
      requires node.Comment? || node.Declaration? || node.Unknown?
      modifies this`buffer, this`elementJustOpened, this`firstElement
      ensures buffer == old(buffer) + Print(compactMode, old(View()), node) && View() == After(compactMode, old(View()), node)
    {
      ghost var p, was := View(), buffer;
      PrepareForNewNode();
      MarkupPrints(compactMode, p, node, was);
      hide Print, After;
      buffer := buffer + (if node.Comment? then "<!--" else if node.Declaration? then "<?" else "<!");
      buffer := buffer + node.value;
      buffer := buffer + (if node.Comment? then "-->" else if node.Declaration? then "?>" else ">");
    }

    // Accept: the node, its children and its end, with the names on the stack as they were.
    method Visit(node: Node)
      requires Valid()
      modifies this
      ensures Valid() && stack == old(stack) && View() == After(compactMode, old(View()), node)
      ensures buffer == old(buffer) + Print(compactMode, old(View()), node)
      decreases node
    {
      match node {
        case Element(name, attributes, children) =>
          ghost var p, was := View(), buffer;
          OpenElement(name);
          PushAttributes(attributes);
          VisitAll(children);
          CloseElement();
          assert stack == old(stack);
          PrintElement(compactMode, p, node, was);
        case Text(value) => PushText(value, false);
        case CData(value) => PushText(value, true);
        case Comment(_) => PushMarkup(node);
        case Declaration(_) => PushMarkup(node);
        case Unknown(_) => PushMarkup(node);
      }
    }

    method VisitAll(nodes: seq<Node>)
      requires Valid()
      modifies this
      ensures Valid() && stack == old(stack) && View() == AfterAll(compactMode, old(View()), nodes)
      ensures buffer == old(buffer) + PrintAll(compactMode, old(View()), nodes)
      decreases nodes
    {
      ghost var p, was := View(), buffer;
      for i := 0 to |nodes|
        invariant Valid() && stack == old(stack)
        invariant AfterAll(compactMode, View(), nodes[i..]) == AfterAll(compactMode, p, nodes)
        invariant buffer + PrintAll(compactMode, View(), nodes[i..]) == was + PrintAll(compactMode, p, nodes)
      {
        ghost var rest := nodes[i..];
        assert rest[0] == nodes[i] && rest[1..] == nodes[i + 1..];
        ghost var q, now := View(), buffer;
        hide After, Print;
        Visit(nodes[i]);
        ConcatAssociates(now, Print(compactMode, q, nodes[i]), PrintAll(compactMode, View(), nodes[i + 1..]));
      }
    }
  }

  lemma {:induction false} SpacesSnoc(n: nat)
    ensures Spaces(n + 1) == Spaces(n) + "    "
  {
    if n > 0 { SpacesSnoc(n - 1); }
  }

  // The closing bracket of the start tag comes first, and changes nothing else.
  lemma SealNode(compact: bool, p: Pos, node: Node)
    requires p.justOpened
    ensures After(compact, p, node) == After(compact, Sealed(p), node)
    ensures Print(compact, p, node) == ">" + Print(compact, Sealed(p), node)
  {
    hide PrintAll, AfterAll, Attributes, EndTag, LineEnd, Indent, Escape;
    SealedSame(compact, p);
    var inside := Opened(compact, p);
    var body :=
      match node
      case Element(name, attributes, children) =>
        Indent(compact, p) + "<" + name + Attributes(attributes) + PrintAll(compact, inside, children)
        + EndTag(compact, AfterAll(compact, inside, children), name) + LineEnd(compact, inside)
      case Text(value) => Escape(value, false)
      case CData(value) => "<![CDATA[" + value + "]]>"
      case Comment(value) => Indent(compact, p) + "<!--" + value + "-->"
      case Declaration(value) => Indent(compact, p) + "<?" + value + "?>"
      case Unknown(value) => Indent(compact, p) + "<!" + value + ">";
    assert "" + body == body;
  }

  lemma SealedSame(compact: bool, p: Pos)
    ensures Indent(compact, p) == Indent(compact, Sealed(p)) && Opened(compact, p) == Opened(compact, Sealed(p))
    ensures Prepared(compact, p) == Prepared(compact, Sealed(p)) && Sealed(Sealed(p)) == Sealed(p)
  {
  }

  lemma TextPrints(compact: bool, p: Pos, text: string, was: string)
    ensures was + Seal(p) + "<![CDATA[" + text + "]]>" == was + Print(compact, p, CData(text))
    ensures was + Seal(p) + Escape(text, false) == was + Print(compact, p, Text(text))
    ensures After(compact, p, CData(text)) == After(compact, p, Text(text)) == Sealed(p).(textDepth := p.depth - 1)
  {
    var s, e := Seal(p), Escape(text, false);
    assert Print(compact, p, CData(text)) == s + ("<![CDATA[" + text + "]]>");
    assert Print(compact, p, Text(text)) == s + e;
    assert After(compact, p, CData(text)) == After(compact, p, Text(text)) == Sealed(p).(textDepth := p.depth - 1);
    hide *;
    JoinThree(was, s, "<![CDATA[", text, "]]>");
    ConcatAssociates(was, s, e);
  }

  lemma MarkupPrints(compact: bool, p: Pos, node: Node, was: string)
    requires node.Comment? || node.Declaration? || node.Unknown?
    ensures was + (Seal(p) + Indent(compact, p)) + (if node.Comment? then "<!--" else if node.Declaration? then "<?" else "<!")
            + node.value + (if node.Comment? then "-->" else if node.Declaration? then "?>" else ">")
            == was + Print(compact, p, node)
    ensures After(compact, p, node) == Prepared(compact, p)
  {
    var s, i := Seal(p), Indent(compact, p);
    var a, b := if node.Comment? then "<!--" else if node.Declaration? then "<?" else "<!",
                if node.Comment? then "-->" else if node.Declaration? then "?>" else ">";
    assert Print(compact, p, node) == s + (i + a + node.value + b);
    assert After(compact, p, node) == Prepared(compact, p);
    hide *;
    JoinMarkup(was, s, i, a, node.value, b);
  }

  lemma JoinThree(w: string, s: string, a: string, b: string, c: string)
    ensures w + s + a + b + c == w + (s + (a + b + c))
  {
  }

  lemma JoinMarkup(w: string, s: string, i: string, a: string, b: string, c: string)
    ensures w + (s + i) + a + b + c == w + (s + (i + a + b + c))
  {
  }

  lemma JoinFour(w: string, a: string, b: string, c: string, d: string)
    ensures w + a + b + c + d == w + (a + b + c + d)
  {
  }

  lemma JoinSix(w: string, a: string, b: string, c: string, d: string, e: string, f: string)
    ensures w + (a + b) + c + d + (e + f) == w + (a + (b + c + d + e + f))
  {
  }

  // The pieces of an element, in the order in which they are written.
  lemma PrintElement(compact: bool, p: Pos, node: Node, was: string)
    requires node.Element?
    ensures var inside := Opened(compact, p);
            was + (Seal(p) + Indent(compact, p) + "<" + node.name) + Attributes(node.attributes)
            + PrintAll(compact, inside, node.children)
            + (EndTag(compact, AfterAll(compact, inside, node.children), node.name)
               + LineEnd(compact, AfterAll(compact, inside, node.children)))
            == was + Print(compact, p, node)
  {
    var inside := Opened(compact, p);
    var after := AfterAll(compact, inside, node.children);
    var s, i, n, a, k := Seal(p), Indent(compact, p), node.name, Attributes(node.attributes), PrintAll(compact, inside, node.children);
    var e, l := EndTag(compact, after, n), LineEnd(compact, inside);
    assert LineEnd(compact, after) == l;
    assert Print(compact, p, node) == s + (i + "<" + n + a + k + e + l);
    hide *;
    assert s + i + "<" + n == s + (i + "<" + n);
    JoinSix(was, s, i + "<" + n, a, k, e, l);
  }

  /// The layout, for a tree with an attribute, an element with text in it, a comment and an empty element.

  const B := Element("b", [], [Text("t")])
  const SAMPLE := Element("a", [Attribute("x", "1<2")], [B, Comment("c"), Element("e", [], [])])

  lemma Layout(compact: bool)
    ensures Print(compact, START, SAMPLE)
            == (if compact then "<a x=\"1&lt;2\"" + "><b>t</b>" + "<!--c-->" + "<e/>" + "</a>"
                else "<a x=\"1&lt;2\"" + ">\n    <b>t</b>" + "\n    <!--c-->" + "\n    <e/>" + "\n</a>\n")
  {
    hide Print, PrintAll, AfterAll, EndTag, LineEnd, Opened;
    var inside, children := Opened(compact, START), SAMPLE.children;
    var head, end := "<a x=\"1&lt;2\"", if compact then "</a>" else "\n</a>\n";
    PrintSample(compact);
    PrintChildren(compact);
    SampleEnds(compact);
    ConcatAssociates(head + PrintAll(compact, inside, children),
                     EndTag(compact, AfterAll(compact, inside, children), "a"), LineEnd(compact, inside));
    if compact {
      SampleJoins(head, "><b>t</b>", "<!--c-->", "<e/>", end);
    } else {
      SampleJoins(head, ">\n    <b>t</b>", "\n    <!--c-->", "\n    <e/>", end);
    }
  }

  lemma SampleEnds(compact: bool)
    ensures EndTag(compact, Pos(false, compact, 1, -1), "a") + LineEnd(compact, Opened(compact, START))
            == if compact then "</a>" else "\n</a>\n"
  {
  }

  lemma PrintChildren(compact: bool)
    ensures var inside, children := Opened(compact, START), SAMPLE.children;
            && AfterAll(compact, inside, children) == Pos(false, compact, 1, -1)
            && PrintAll(compact, inside, children)
               == if compact then "><b>t</b>" + ("<!--c-->" + ("<e/>" + ""))
                  else ">\n    <b>t</b>" + ("\n    <!--c-->" + ("\n    <e/>" + ""))
  {
    hide Print, PrintAll, After, AfterAll, Escape;
    var inside, next, children := Opened(compact, START), Pos(false, compact, 1, -1), SAMPLE.children;
    assert inside == Pos(true, compact, 1, -1);
    PrintB(compact);
    PrintRest(compact, next);
    PrintFirst(compact, inside, children);
    PrintFirst(compact, next, children[1..]);
    PrintFirst(compact, next, children[2..]);
    PrintFirst(compact, next, children[3..]);
    assert children[1..][1..] == children[2..] && children[2..][1..] == children[3..] == [];
    assert ">" + (if compact then "" else "\n    ") + "<b>t</b>" == if compact then "><b>t</b>" else ">\n    <b>t</b>";
    assert (if compact then "" else "\n    ") + "<!--c-->" == if compact then "<!--c-->" else "\n    <!--c-->";
    assert (if compact then "" else "\n    ") + "<e/>" == if compact then "<e/>" else "\n    <e/>";
  }

  lemma SampleJoins(head: string, b: string, c: string, e: string, end: string)
    ensures head + (b + (c + (e + ""))) + end == head + b + c + e + end
  {
  }

  lemma PrintFirst(compact: bool, p: Pos, nodes: seq<Node>)
    ensures if nodes == [] then PrintAll(compact, p, nodes) == "" && AfterAll(compact, p, nodes) == p
            else var q := After(compact, p, nodes[0]);
                 && PrintAll(compact, p, nodes) == Print(compact, p, nodes[0]) + PrintAll(compact, q, nodes[1..])
                 && AfterAll(compact, p, nodes) == AfterAll(compact, q, nodes[1..])
  {
    hide Print, After;
  }

  lemma PrintB(compact: bool)
    ensures var p, q := Pos(true, compact, 1, -1), Pos(false, compact, 1, -1);
            && Print(compact, p, B) == ">" + (if compact then "" else "\n    ") + "<b>t</b>"
            && After(compact, p, B) == q
  {
    hide PrintAll, AfterAll, EndTag, LineEnd;
    var p := Pos(true, compact, 1, -1);
    var inside, after := Pos(true, compact, 2, -1), Pos(false, compact, 2, 1);
    TextOfB(compact, inside, after);
    assert Opened(compact, p) == inside && Closed(after) == Pos(false, compact, 1, -1) && Attributes([]) == "";
    var indent := Indent(compact, p);
    assert Spaces(1) == "    " + Spaces(0) && indent == if compact then "" else "\n    ";
    assert Print(compact, p, B) == ">" + (indent + "<" + "b" + "" + (">t" + "") + "</b>" + "");
  }

  lemma TextOfB(compact: bool, inside: Pos, after: Pos)
    requires inside == Pos(true, compact, 2, -1) && after == Pos(false, compact, 2, 1)
    ensures PrintAll(compact, inside, [Text("t")]) == ">t" + "" && AfterAll(compact, inside, [Text("t")]) == after
    ensures EndTag(compact, after, "b") == "</b>" && LineEnd(compact, inside) == ""
  {
    assert Escape("t", false) == EscapeChar('t', false) + Escape("", false) == "t";
    assert Print(compact, inside, Text("t")) == ">" + "t" && After(compact, inside, Text("t")) == after;
    assert [Text("t")][1..] == [];
    assert EndTag(compact, after, "b") == "" + "</" + "b" + ">";
  }

  lemma PrintRest(compact: bool, p: Pos)
    requires p == Pos(false, compact, 1, -1)
    ensures var indent := if compact then "" else "\n    "; var e := Element("e", [], []);
            && Print(compact, p, Comment("c")) == indent + "<!--c-->" && After(compact, p, Comment("c")) == p
            && Print(compact, p, e) == indent + "<e/>" && After(compact, p, e) == p
  {
    assert Spaces(1) == "    " + Spaces(0);
    var inside := Opened(compact, p);
    assert PrintAll(compact, inside, []) == "" && AfterAll(compact, inside, []) == inside;
    assert EndTag(compact, inside, "e") == "/>" && LineEnd(compact, inside) == "" && Attributes([]) == "";
    assert Closed(inside) == p;
  }

  lemma PrintSample(compact: bool)
    ensures var inside, children := Opened(compact, START), SAMPLE.children;
            Print(compact, START, SAMPLE)
            == "<a x=\"1&lt;2\"" + PrintAll(compact, inside, children)
               + EndTag(compact, AfterAll(compact, inside, children), "a") + LineEnd(compact, inside)
  {
    hide PrintAll, AfterAll, EndTag, LineEnd, Attributes, Opened;
    SampleAttributes();
    assert Seal(START) == "" && Indent(compact, START) == "";
    assert "" + "<" + "a" + " x=\"1&lt;2\"" == "<a x=\"1&lt;2\"";
  }

  lemma SampleAttributes()
    ensures Attributes(SAMPLE.attributes) == " x=\"1&lt;2\""
  {
    assert Escape("2", true) == "2" + Escape("", true) == "2";
    assert Escape("<2", true) == "&lt;" + Escape("2", true) && Escape("1<2", true) == "1" + Escape("<2", true);
    hide Escape;
    assert SAMPLE.attributes[1..] == [];
    assert AttributeText(SAMPLE.attributes[0]) == " x=\"1&lt;2\"";
    assert Attributes(SAMPLE.attributes) == " x=\"1&lt;2\"" + "";
  }

  // Behind a declaration, the root begins a new line.
  lemma RootLayout(compact: bool)
    ensures PrintAll(compact, START, [Declaration("d"), Element("e", [], [])])
            == "<?d?>" + if compact then "<e/>" else "\n<e/>\n"
  {
    hide PrintAll, After, AfterAll;
    var nodes, p := [Declaration("d"), Element("e", [], [])], Pos(false, compact, 0, -1);
    var inside := Pos(true, compact, 1, -1);
    PrintFirst(compact, START, nodes);
    PrintFirst(compact, p, nodes[1..]);
    PrintFirst(compact, After(compact, p, nodes[1]), nodes[1..][1..]);
    PrintFirst(compact, inside, []);
    AfterDeclaration(compact, p);
    assert Spaces(0) == "" && Indent(compact, START) == "" && Indent(compact, p) == if compact then "" else "\n";
    assert Print(compact, START, nodes[0]) == "" + ("" + "<?" + "d" + "?>");
    assert Opened(compact, p) == inside && EndTag(compact, inside, "e") == "/>" && Attributes([]) == "";
    assert Print(compact, p, nodes[1])
        == "" + (Indent(compact, p) + "<" + "e" + "" + "" + "/>" + if compact then "" else "\n");
  }

  lemma AfterDeclaration(compact: bool, p: Pos)
    requires p == Pos(false, compact, 0, -1)
    ensures After(compact, START, Declaration("d")) == p
  {
  }
}
