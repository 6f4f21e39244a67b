/** The parser as it moves through its text: loops over a read pointer, the nesting depth and the
    error flag. */
module XmlReader {
  import opened Bytes
  import opened XmlText
  import opened XmlPrinter
  import opened XmlParser
  import XmlRoundTrip

  // What one turn of the loop in XMLNode::ParseDeep does: one more node, or the end of the loop.
  datatype Turn = Next(node: Node) | Stop(result: Nodes)

  // The loop goes on from the text that is left, or has its result.
  ghost predicate Follows(g: Grammar, s: string, done: seq<Node>, depth: nat, top: bool, t: Turn, left: string)
    requires Lawful(g)
  {
    match t
    case Next(node) => ParseNodes(g, s, done, depth, top) == ParseNodes(g, left, done + [node], depth, top)
    case Stop(r) => ParseNodes(g, s, done, depth, top) == r && (r.Returned? ==> r.rest == left)
  }

  lemma Further(s: string, p: nat, n: nat)
    requires p + n <= |s|
    ensures s[p..][n..] == s[p + n..] && At(s[p..], n) == At(s, p + n)
  {
  }

  class Reader {
    const g: Grammar
    const text: string
    // _parsingDepth, and whether an error is set.
    var depth: nat
    var error: bool

    constructor (grammar: Grammar, input: string)
      ensures g == grammar && text == input && depth == 0 && !error
    {
      g, text, depth, error := grammar, input, 0, false;
    }

    method SkipWhiteSpace(p: nat) returns (q: nat)
      requires p <= |text|
      ensures p <= q <= |text| && text[q..] == Skip(g, text[p..])
    {
      q := p;
      while q < |text| && g.white(text[q])
        invariant p <= q <= |text| && Skip(g, text[q..]) == Skip(g, text[p..])
      {
        Further(text, q, 1);
        q := q + 1;
      }
    }

    // StrPair::ParseName: the place behind the name, which is p when there is none.
    method ParseName(p: nat) returns (q: nat)
      requires p <= |text|
      ensures p <= q <= |text| && q - p == NameLength(g, text[p..])
    {
      q := p;
      if q == |text| || !g.nameStart(text[q]) { return; }
      Further(text, q, 1);
      q := q + 1;
      while q < |text| && g.nameChar(text[q])
        invariant p < q <= |text| && NameEnd(g, text[p..][1..]) == q - p - 1 + NameEnd(g, text[q..])
      {
        Further(text, q, 1);
        q := q + 1;
      }
    }

    // The loop in StrPair::ParseText: the place of the end tag, or of the end of the text.
    method FindEnd(p: nat, tag: string) returns (q: nat)
      requires p <= |text| && tag != ""
      ensures p <= q <= |text|
      ensures Find(text[p..], tag) == if q < |text| then Some(q - p) else None
    {
      q := p;
      while q < |text|
        invariant p <= q <= |text|
        invariant Find(text[p..], tag) == match Find(text[q..], tag) case None => None case Some(k) => Some(q - p + k)
      {
        Further(text, q, 1);
        StartsHere(text, q, tag);
        hide Starts;
        if text[q] == tag[0] && Starts(text, q, tag) { return; }
        q := q + 1;
      }
    }

    // StrPair::ParseText, and what GetStr makes of the string.
    method ReadText(p: nat, tag: string, f: Flags) returns (found: bool, value: string, q: nat)
      requires p <= |text| && tag != ""
      ensures q <= |text|
      ensures ParseText(text[p..], tag, f) == if found then GotText(value, text[q..]) else NoText
    {
      hide Decode, Find;
      q := FindEnd(p, tag);
      if q == |text| { return false, "", q; }
      Further(text, p, q - p + |tag|);
      assert text[p..][..q - p] == text[p..q];
      return true, Decode(text[p..q], f), q + |tag|;
    }

    // XMLAttribute::ParseDeep
    method ReadAttribute(p: nat) returns (found: bool, a: Attribute, q: nat)
      requires p <= |text|
      ensures q <= |text|
      ensures ParseAttribute(g, text[p..]) == if found then GotAttribute(a, text[q..]) else NoAttribute
    {
      hide Skip, NameLength, ParseText;
      a := Attribute("", "");
      var e := ParseName(p);
      Further(text, p, e - p);
      if e == p || e == |text| { return false, a, p; }
      assert text[p..][..e - p] == text[p..e];
      var r := SkipWhiteSpace(e);
      if r == |text| || text[r] != '=' { return false, a, p; }
      Further(text, r, 1);
      r := SkipWhiteSpace(r + 1);
      if r == |text| || (text[r] != '"' && text[r] != '\'') { return false, a, p; }
      Further(text, r, 1);
      var value;
      found, value, q := ReadText(r + 1, [text[r]], BOTH);
      a := Attribute(text[p..e], value);
    }

    // Attribute: whether there is one of that name.
    method HasAttribute(attributes: seq<Attribute>, name: string) returns (has: bool)
      ensures has == Has(attributes, name)
    {
      for i := 0 to |attributes|
        invariant forall j :: 0 <= j < i ==> attributes[j].name != name
      {
        if attributes[i].name == name { return true; }
      }
      return false;
    }

    method ReadAttributes(p: nat) returns (good: bool, attributes: seq<Attribute>, closed: bool, q: nat)
      requires p <= |text|
      ensures q <= |text|
      ensures ParseAttributes(g, text[p..], []) == if good then GotAttributes(attributes, closed, text[q..]) else BadAttributes
    {
      hide Skip, ParseAttribute, Has;
      attributes, closed, q := [], false, p;
      while true
        invariant q <= |text|
        invariant ParseAttributes(g, text[p..], []) == ParseAttributes(g, text[q..], attributes)
        decreases |text| - q
      {
        ghost var was := q;
        q := SkipWhiteSpace(q);
        if q == |text| { return false, [], false, q; }
        if g.nameStart(text[q]) {
          ghost var here := q;
          var found, a, r := ReadAttribute(q);
          if !found { return false, [], false, q; }
          assert |text[r..]| < |text[here..]|;
          var has := HasAttribute(attributes, a.name);
          if has { return false, [], false, q; }
          attributes := attributes + [a];
          q := r;
        } else if text[q] == '>' {
          Further(text, q, 1);
          return true, attributes, false, q + 1;
        } else if text[q] == '/' && q + 1 < |text| && text[q + 1] == '>' {
          Further(text, q, 1);
          Further(text, q, 2);
          return true, attributes, true, q + 2;
        } else {
          Further(text, q, 1);
          return false, [], false, q;
        }
      }
    }

    // XMLElement::ParseDeep as far as its tag.
    method ReadTag(p: nat) returns (r: TagResult, q: nat)
      requires p <= |text|
      ensures p <= q <= |text| && r == ParseTag(g, text[p..]) && (!r.BadTag? ==> r.rest == text[q..])
    {
      hide Skip, NameLength, ParseAttributes;
      var s := SkipWhiteSpace(p);
      var closing := s < |text| && text[s] == '/';
      if closing {
        Further(text, s, 1);
        s := s + 1;
      }
      var e := ParseName(s);
      Further(text, s, e - s);
      if e == s { return BadTag, p; }
      assert text[s..][..e - s] == text[s..e];
      var good, attributes, closed, k := ReadAttributes(e);
      if !good { return BadTag, p; }
      assert |text[k..]| < |text[e..]|;
      q := k;
      var name, rest := text[s..e], text[k..];
      if closed { r := ClosedTag(name, attributes, rest); }
      else if closing { r := EndTag(name, rest); }
      else { r := OpenTag(name, attributes, rest); }
    }

    // One turn of the loop in XMLNode::ParseDeep: Identify, and then the node's own ParseDeep.
    method ReadNode(p: nat, done: seq<Node>, top: bool) returns (t: Turn, q: nat)
      requires Lawful(g) && p <= |text| && !error
      modifies this`depth, this`error
      ensures depth == old(depth) && (error <==> t.Stop? && t.result.Failed?) && p <= q <= |text|
      ensures Follows(g, text[p..], done, depth, top, t, text[q..])
      ensures t.Next? || t.result.Returned? ==> p < q
      decreases |text| - p, 1
    {
      hide Skip, ParseText, ParseTag, Find, Decode, Lawful, XmlParser.ParseDeep, MayDeclare, Starts;
      ghost var s := text[p..];
      var b := SkipWhiteSpace(p);
      Heads(text, b);
      if b == |text| {
        return Stop(Ended(done)), b;
      } else if Starts(text, b, "<?") {
        t, q := ReadMarkup(p, b + 2, "?>", v => Declaration(v));
        if t.Next? && !MayDeclare(done, top) {
          error := true;
          t := Stop(Failed);
        }
      } else if Starts(text, b, "<!--") {
        t, q := ReadMarkup(p, b + 4, "-->", v => Comment(v));
      } else if Starts(text, b, "<![CDATA[") {
        t, q := ReadMarkup(p, b + 9, "]]>", v => CData(v));
      } else if Starts(text, b, "<!") {
        t, q := ReadMarkup(p, b + 2, ">", v => Unknown(v));
      } else if text[b] == '<' {
        Further(text, b, 1);
        t, q := ReadElement(b, done);
      } else {
        TextIsThere(g, s);
        t, q := ReadPlainText(p);
        Further(text, p, q - p);
        assert s[..q - p] == text[p..q];
      }
    }

    // A declaration, comment, CDATA section or unknown markup, from behind its header to its end tag.
    method ReadMarkup(ghost p: nat, from: nat, tag: string, make: string -> Node) returns (t: Turn, q: nat)
      requires p < from <= |text| && tag != "" && !error
      modifies this`error
      ensures p < q <= |text| && (error <==> t.Stop?)
      ensures match ParseText(text[from..], tag, LINES)
              case NoText => t == Stop(Failed)
              case GotText(v, rest) => t == Next(make(v)) && rest == text[q..]
    {
      hide ParseText;
      var found, value;
      found, value, q := ReadText(from, tag, LINES);
      if found {
        t := Next(make(value));
        LaterTail(text, from, q, tag);
      } else {
        error := true;
        t, q := Stop(Failed), from;
      }
    }

    // XMLText::ParseDeep, for what is not a CDATA section.
    method ReadPlainText(p: nat) returns (t: Turn, q: nat)
      requires p < |text| && !error
      modifies this`error
      ensures p <= q <= |text| && (error <==> t.Stop?)
      ensures match Find(text[p..], "<")
              case None => t == Stop(Failed)
              case Some(k) =>
                if p + k + 1 == |text| then t == Stop(Failed)
                else q == p + k && t == Next(Text(Decode(text[p..q], BOTH)))
    {
      hide Find, Decode;
      var found, value;
      found, value, q := ReadText(p, "<", BOTH);
      TextFound(text, p, q, value, found);
      if found && q < |text| {
        q := q - 1;
        t := Next(Text(value));
      } else {
        error := true;
        t, q := Stop(Failed), p;
      }
    }

    // XMLElement::ParseDeep, and what XMLNode::ParseDeep does with the end tag that comes back.
    method ReadElement(b: nat, done: seq<Node>) returns (t: Turn, q: nat)
      requires Lawful(g) && b < |text| && !error
      modifies this`depth, this`error
      ensures depth == old(depth) && (error <==> t.Stop? && t.result.Failed?) && b < q <= |text|
      ensures match ParseTag(g, text[b + 1..])
              case BadTag => t == Stop(Failed)
              case EndTag(name, rest) => t == Stop(Returned(done, name, rest)) && rest == text[q..]
              case ClosedTag(name, attributes, rest) => t == Next(Element(name, attributes, [])) && rest == text[q..]
              case OpenTag(name, attributes, rest) =>
                if rest == "" then t == Stop(Failed) else
                  match XmlParser.ParseDeep(g, rest, depth + 1, false)
                  case Failed => t == Stop(Failed)
                  case Ended(_) => t == Stop(Failed)
                  case Returned(children, end, rest) =>
                    if end != name then t == Stop(Failed)
                    else t == Next(Element(name, attributes, children)) && rest == text[q..]
      decreases |text| - b, 0
    {
      hide ParseTag, XmlParser.ParseDeep, Lawful;
      var r;
      r, q := ReadTag(b + 1);
      match r {
        case BadTag =>
          error := true;
          t := Stop(Failed);
        case EndTag(name, rest) => t := Stop(Returned(done, name, rest));
        case ClosedTag(name, attributes, rest) => t := Next(Element(name, attributes, []));
        case OpenTag(name, attributes, rest) =>
          t := Stop(Failed);
          if rest == "" {
            error := true;
          } else {
            var inner, k := ParseDeep(q, false);
            if inner.Returned? && inner.name == name {
              t, q := Next(Element(name, attributes, inner.nodes)), k;
            } else {
              error := true;
            }
          }
      }
    }

    // XMLNode::ParseDeep, one level further down.
    method ParseDeep(p: nat, top: bool) returns (r: Nodes, q: nat)
      requires Lawful(g) && p <= |text| && !error
      modifies this`depth, this`error
      ensures depth == old(depth) && (error <==> r.Failed?) && p <= q <= |text|
      ensures r == XmlParser.ParseDeep(g, text[p..], depth + 1, top) && (r.Returned? ==> r.rest == text[q..])
      decreases |text| - p, 2
    {
      hide ParseNodes, Lawful;
      depth := depth + 1;
      q := p;
      if depth == g.maxDepth {
        error := true;
        depth := depth - 1;
        return Failed, q;
      }
      var done := [];
      while true
        invariant p <= q <= |text| && !error && depth == old(depth) + 1
        invariant ParseNodes(g, text[p..], [], depth, top) == ParseNodes(g, text[q..], done, depth, top)
        decreases |text| - q
      {
        var t, k := ReadNode(q, done, top);
        match t {
          case Next(node) => done, q := done + [node], k;
          case Stop(result) =>
            depth := depth - 1;
            return result, k;
        }
      }
    }

    // XMLDocument::Parse: the error flag says whether the nodes count.
    method Parse() returns (nodes: seq<Node>)
      requires Lawful(g) && !error && depth == 0
      modifies this`depth, this`error
      ensures XmlParser.Parse(g, text) == if error then None else Some(nodes)
    {
      hide XmlParser.ParseDeep, Lawful, Skip;
      assert text[0..] == text;
      var p := SkipWhiteSpace(0);
      StartsAt(text, p, BOM);
      if Starts(text, p, BOM) {
        Further(text, p, 3);
        p := p + 3;
      }
      if p == |text| {
        error := true;
        return [];
      }
      var r, _ := ParseDeep(p, true);
      nodes := if r.Failed? then [] else r.nodes;
    }
  }

  // There and back through the two classes.
  method WriteAndRead(g: Grammar, compact: bool, nodes: seq<Node>) returns (good: bool, back: seq<Node>)
    requires Lawful(g) && nodes != [] && XmlRoundTrip.PrintableAll(g, nodes) && XmlRoundTrip.NoTexts(nodes)
    ensures good <==> g.maxDepth != 1 && XmlRoundTrip.Accepted(g, nodes, true, 1)
    ensures good ==> back == XmlRoundTrip.Normal(g, nodes)
  {
    hide *;
    XmlRoundTrip.ParsePrinted(g, compact, nodes);
    var text := XmlRoundTrip.Write(compact, nodes);
    var reader := new Reader(g, text);
    back := reader.Parse();
    good := !reader.error;
  }

  // Headers at place b.
  lemma Heads(s: string, b: nat)
    requires b <= |s|
    ensures var t := s[b..];
            && (Starts(s, b, "<?") <==> Starts(t, 0, "<?")) && (Starts(s, b, "<!--") <==> Starts(t, 0, "<!--"))
            && (Starts(s, b, "<![CDATA[") <==> Starts(t, 0, "<![CDATA[")) && (Starts(s, b, "<!") <==> Starts(t, 0, "<!"))
    ensures var t := s[b..];
            && (Starts(s, b, "<!") || Starts(s, b, "<?") ==> b + 2 <= |s| && t[2..] == s[b + 2..])
            && (Starts(s, b, "<!--") ==> b + 4 <= |s| && t[4..] == s[b + 4..])
            && (Starts(s, b, "<![CDATA[") ==> b + 9 <= |s| && t[9..] == s[b + 9..])
  {
    StartsAt(s, b, "<?");
    StartsAt(s, b, "<!");
    StartsAt(s, b, "<!--");
    StartsAt(s, b, "<![CDATA[");
    if b + 2 <= |s| { Further(s, b, 2); }
    if b + 4 <= |s| { Further(s, b, 4); }
    if b + 9 <= |s| { Further(s, b, 9); }
  }

  lemma StartsAt(s: string, b: nat, h: string)
    requires b <= |s|
    ensures Starts(s, b, h) <==> Starts(s[b..], 0, h)
    ensures Starts(s, b, h) ==> b + |h| <= |s|
  {
    if b + |h| <= |s| { assert s[b..][0..|h|] == s[b..b + |h|]; }
  }

  // A tail that is shorter begins later.
  lemma LaterTail(s: string, p: nat, q: nat, tag: string)
    requires p <= |s| && q <= |s| && |s[q..]| < |s[p..]|
    ensures p < q
  {
  }

  // Text up to the next markup.
  lemma TextFound(s: string, p: nat, q: nat, value: string, found: bool)
    requires p <= |s| && q <= |s| && ParseText(s[p..], "<", BOTH) == if found then GotText(value, s[q..]) else NoText
    ensures found <==> Find(s[p..], "<").Some?
    ensures found ==> q == p + Find(s[p..], "<").value + 1 && value == Decode(s[p..q - 1], BOTH)
  {
    hide Find, Decode;
    match Find(s[p..], "<")
    case None =>
    case Some(k) =>
      assert s[p..][..k] == s[p..p + k];
      assert |s[q..]| == |s[p..][k + 1..]|;
  }

  lemma StartsHere(s: string, q: nat, tag: string)
    requires q < |s| && tag != ""
    ensures Starts(s, q, tag) <==> Starts(s[q..], 0, tag)
    ensures Starts(s, q, tag) ==> s[q] == tag[0]
  {
    if q + |tag| <= |s| {
      assert s[q..q + |tag|] == s[q..][0..|tag|];
      assert s[q..q + |tag|][0] == s[q];
    }
  }
}
