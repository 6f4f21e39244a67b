/** The document tree in memory: parent pointers and doubly linked siblings, changed in place by
    unlinking, inserting, moving and deleting nodes. */
module XmlTree {
  import opened Bytes

  class Node {
    var parent: Node?
    var first: Node?
    var last: Node?
    var prev: Node?
    var next: Node?
    // The children in order, and a number that grows from parent to child.
    ghost var kids: seq<Node>
    ghost var level: nat

    ghost function View(): Links
      reads this
    {
      Links(parent, first, last, prev, next, kids, level)
    }

    constructor ()
      ensures View() == Links(null, null, null, null, null, [], 0)
    {
      parent, first, last, prev, next, kids, level := null, null, null, null, null, [], 0;
    }

    method Unlink(child: Node, ghost nodes: set<Node>)
      requires this in nodes && child in nodes && Good(ShapeOf(nodes)) && child.parent == this
      modifies nodes
      ensures ShapeOf(nodes) == Unlinked(old(ShapeOf(nodes)), child)
    {
      hide Good, Without, Unlinked;
      ghost var h := ShapeOf(nodes);
      Neighbours(h, child);
      UnlinkedLinks(h, child, this);
      ghost var h' := Unlinked(h, child);
      ghost var rest := Without(kids, child);
      UnlinkEnds(child);
      if child.prev != null { child.prev.next := child.next; }
      if child.next != null { child.next.prev := child.prev; }
      child.next := null;
      child.prev := null;
      child.parent := null;
      kids := rest;
      forall n | n in nodes
        ensures n in h' && n.View() == h'[n]
      {
        UnlinkedLinks(h, child, n);
      }
    }

    // The start of that: the first and last child.
    method UnlinkEnds(child: Node)
      modifies this`first, this`last
      ensures first == if old(first) == child then child.next else old(first)
      ensures last == if old(last) == child then child.prev else old(last)
    {
      if child == first { first := first.next; }
      if child == last { last := last.prev; }
    }

    method InsertChildPreamble(insertThis: Node, ghost nodes: set<Node>)
      requires insertThis in nodes && Good(ShapeOf(nodes))
      modifies nodes
      ensures ShapeOf(nodes) == Detached(old(ShapeOf(nodes)), insertThis)
    {
      hide Good, Unlinked;
      ghost var h := ShapeOf(nodes);
      if insertThis.parent != null {
        ghost var i := Place(h, insertThis);
        insertThis.parent.Unlink(insertThis, nodes);
      }
    }

    // The end of InsertEndChild.
    method LinkEnd(addThis: Node, ghost nodes: set<Node>)
      requires this in nodes && addThis in nodes && Good(ShapeOf(nodes)) && addThis.parent == null
      modifies nodes
      ensures ShapeOf(nodes) == EndLinked(old(ShapeOf(nodes)), this, addThis)
    {
      hide Good, InsertAt, EndLinked;
      ghost var h := ShapeOf(nodes);
      OwnEnds(h, this, addThis);
      if last != null {
        last.next := addThis;
        addThis.prev := last;
        last := addThis;
        addThis.next := null;
      } else {
        first, last := addThis, addThis;
        addThis.prev := null;
        addThis.next := null;
      }
      addThis.parent := this;
      kids := InsertAt(kids, |kids|, addThis);
      EndLinkedAt(h, this, addThis, this);
      forall n | n in nodes
        ensures n.View() == EndLinked(h, this, addThis)[n]
      {
        EndLinkedAt(h, this, addThis, n);
      }
    }

    // The end of InsertFirstChild.
    method LinkFirst(addThis: Node, ghost nodes: set<Node>)
      requires this in nodes && addThis in nodes && Good(ShapeOf(nodes)) && addThis.parent == null
      modifies nodes
      ensures ShapeOf(nodes) == FirstLinked(old(ShapeOf(nodes)), this, addThis)
    {
      hide Good, InsertAt, FirstLinked;
      ghost var h := ShapeOf(nodes);
      OwnEnds(h, this, addThis);
      if first != null {
        first.prev := addThis;
        addThis.next := first;
        first := addThis;
        addThis.prev := null;
      } else {
        first, last := addThis, addThis;
        addThis.prev := null;
        addThis.next := null;
      }
      addThis.parent := this;
      kids := InsertAt(kids, 0, addThis);
      FirstLinkedAt(h, this, addThis, this);
      forall n | n in nodes
        ensures n.View() == FirstLinked(h, this, addThis)[n]
      {
        FirstLinkedAt(h, this, addThis, n);
      }
    }

    // The middle of InsertAfterChild, when there is a node behind afterThis.
    method LinkAfter(afterThis: Node, addThis: Node, ghost k: nat, ghost nodes: set<Node>)
      requires this in nodes && addThis in nodes && Good(ShapeOf(nodes)) && addThis.parent == null
      requires 0 < k < |kids| && kids[k - 1] == afterThis
      modifies nodes
      ensures ShapeOf(nodes) == AfterLinked(old(ShapeOf(nodes)), this, addThis, k)
    {
      hide Good, InsertAt, AfterLinked;
      ghost var h := ShapeOf(nodes);
      KidAt(h, this, k - 1);
      KidAt(h, this, k);
      addThis.prev := afterThis;
      addThis.next := afterThis.next;
      afterThis.next.prev := addThis;
      afterThis.next := addThis;
      addThis.parent := this;
      kids := InsertAt(kids, k, addThis);
      AfterLinkedAt(h, this, addThis, k, this);
      forall n | n in nodes
        ensures n.View() == AfterLinked(h, this, addThis, k)[n]
      {
        AfterLinkedAt(h, this, addThis, k, n);
      }
    }

    // Takes a subtree down to a level below this.
    ghost method Lower(x: Node, drop: nat, nodes: set<Node>)
      requires Good(ShapeOf(nodes))
      modifies nodes
      ensures ShapeOf(nodes) == Raised(old(ShapeOf(nodes)), x, drop)
    {
      var h := ShapeOf(nodes);
      hide Good, Over;
      forall n | n in nodes && Over(h, x, n) {
        n.level := n.level + drop;
      }
    }

    // A node can be linked below itself: what comes out then is a cycle, and no tree.
    method InsertEndChild(addThis: Node, ghost nodes: set<Node>)
      requires this in nodes && addThis in nodes && Good(ShapeOf(nodes))
      modifies nodes
      ensures Good(ShapeOf(nodes)) <==> !old(Over(ShapeOf(nodes), addThis, this))
      ensures Good(ShapeOf(nodes)) ==>
                forall n :: n in nodes ==>
                  && n.kids == Without(old(n.kids), addThis) + (if n == this then [addThis] else [])
                  && n.parent == (if n == addThis then this else old(n.parent))
    {
      hide ShapeOf, Good, Over, InsertAt, Detached, Raised, Inserted, Moved, EndLinked;
      ghost var h := ShapeOf(nodes);
      Fields(nodes, h);
      ghost var below := Over(h, addThis, this);
      ghost var k := |Without(kids, addThis)|;
      DetachedSpec(h, addThis);
      InsertChildPreamble(addThis, nodes);
      Fields(nodes, Detached(h, addThis));
      if !below {
        MovedSpec(h, this, addThis, k);
        MovedSteps(h, this, addThis, k);
        Lower(addThis, level + 1, nodes);
        EndLinkedIs(ShapeOf(nodes), this, addThis);
      }
      ghost var g := ShapeOf(nodes);
      Fields(nodes, g);
      LinkEnd(addThis, nodes);
      if below {
        LinkedReparents(g, this, addThis);
        BelowItself(h, g, EndLinked(g, this, addThis), this, addThis);
      } else {
        InsertEnds(Without(h[this].kids, addThis), addThis);
        Fields(nodes, Moved(h, this, addThis, k));
      }
    }

    method InsertFirstChild(addThis: Node, ghost nodes: set<Node>)
      requires this in nodes && addThis in nodes && Good(ShapeOf(nodes))
      modifies nodes
      ensures Good(ShapeOf(nodes)) <==> !old(Over(ShapeOf(nodes), addThis, this))
      ensures Good(ShapeOf(nodes)) ==>
                forall n :: n in nodes ==>
                  && n.kids == (if n == this then [addThis] else []) + Without(old(n.kids), addThis)
                  && n.parent == (if n == addThis then this else old(n.parent))
    {
      hide ShapeOf, Good, Over, InsertAt, Detached, Raised, Inserted, Moved, FirstLinked;
      ghost var h := ShapeOf(nodes);
      Fields(nodes, h);
      ghost var below := Over(h, addThis, this);
      DetachedSpec(h, addThis);
      InsertChildPreamble(addThis, nodes);
      Fields(nodes, Detached(h, addThis));
      if !below {
        MovedSpec(h, this, addThis, 0);
        MovedSteps(h, this, addThis, 0);
        Lower(addThis, level + 1, nodes);
        FirstLinkedIs(ShapeOf(nodes), this, addThis);
      }
      ghost var g := ShapeOf(nodes);
      Fields(nodes, g);
      LinkFirst(addThis, nodes);
      if below {
        LinkedReparents(g, this, addThis);
        BelowItself(h, g, FirstLinked(g, this, addThis), this, addThis);
      } else {
        InsertEnds(Without(h[this].kids, addThis), addThis);
        Fields(nodes, Moved(h, this, addThis, 0));
      }
    }

    // The rest of that, when there is a node behind afterThis, which stands at i among the other children.
    method MoveAfter(afterThis: Node, addThis: Node, ghost i: nat, ghost h: Shape, ghost nodes: set<Node>)
      returns (fault: bool)
      requires this in nodes && afterThis in nodes && addThis in nodes && h == ShapeOf(nodes) && Good(h)
      requires i < |Without(h[this].kids, addThis)| && Without(h[this].kids, addThis)[i] == afterThis
      requires afterThis in Detached(h, addThis)
      requires Detached(h, addThis)[afterThis].next == null <==> i + 1 == |Without(h[this].kids, addThis)|
      modifies nodes
      ensures fault <==> i + 1 == |Without(h[this].kids, addThis)|
      ensures !fault ==> (Good(ShapeOf(nodes)) <==> !Over(h, addThis, this))
      ensures !fault && Good(ShapeOf(nodes)) ==>
                forall n :: n in nodes ==>
                  && n.kids == (if n == this then InsertAt(Without(h[this].kids, addThis), i + 1, addThis)
                                else Without(h[n].kids, addThis))
                  && n.parent == (if n == addThis then this else h[n].parent)
    {
      hide Good, Linked, Attached, Over, Without, InsertAt, Detached, Raised, Inserted, Moved, AfterLinked;
      ghost var below := Over(h, addThis, this);
      DetachedSpec(h, addThis);
      InsertChildPreamble(addThis, nodes);
      Fields(nodes, Detached(h, addThis));
      if afterThis.next == null { return true; }
      if !below {
        MovedSpec(h, this, addThis, i + 1);
        MovedSteps(h, this, addThis, i + 1);
        Lower(addThis, level + 1, nodes);
        Fields(nodes, Raised(Detached(h, addThis), addThis, Detached(h, addThis)[this].level + 1));
        AfterLinkedIs(ShapeOf(nodes), this, addThis, i + 1);
      }
      ghost var g := ShapeOf(nodes);
      LinkAfter(afterThis, addThis, i + 1, nodes);
      if below {
        AfterReparents(g, this, addThis, i + 1);
        BelowItself(h, g, AfterLinked(g, this, addThis, i + 1), this, addThis);
      } else {
        Fields(nodes, Moved(h, this, addThis, i + 1));
      }
      fault := false;
    }

    // Returns addThis, or null and changes nothing when afterThis is not a child of this. There is one
    // fault: a last child moved behind the sibling it already follows is unlinked, and then the link
    // behind that sibling is followed although it is null.
    method InsertAfterChild(afterThis: Node, addThis: Node, ghost nodes: set<Node>) returns (r: Node?, fault: bool)
      requires this in nodes && afterThis in nodes && addThis in nodes && Good(ShapeOf(nodes))
      modifies nodes
      ensures r == if old(afterThis.parent) == this && !fault then addThis else null
      ensures fault <==> old(afterThis.parent == this && afterThis.next == addThis && addThis.next == null)
      ensures !fault ==> (Good(ShapeOf(nodes)) <==> old(afterThis.parent != this || !Over(ShapeOf(nodes), addThis, this)))
      ensures old(afterThis.parent) != this || afterThis == addThis ==> forall n :: n in nodes ==> n.View() == old(n.View())
      ensures old(afterThis.parent) == this && afterThis != addThis && !fault && Good(ShapeOf(nodes)) ==>
                forall n :: n in nodes ==>
                  && n.kids == (if n == this then AfterIn(Without(old(kids), addThis), afterThis, addThis)
                                else Without(old(n.kids), addThis))
                  && n.parent == (if n == addThis then this else old(n.parent))
    {
      hide Good, Linked, Attached, Over, Without, InsertAt, AfterIn, Detached, Raised, Inserted, Moved;
      ghost var h := ShapeOf(nodes);
      fault := false;
      if afterThis.parent != this { return null, false; }
      KidNotOver(h, afterThis);
      KidUnder(h, this, addThis);
      ghost var i := SecondPlace(h, this, afterThis, addThis);
      if afterThis == addThis { return addThis, false; }
      ghost var s := Without(h[this].kids, addThis);
      AfterAt(s, afterThis, addThis, i);
      if afterThis.next == null {
        InsertEndChild(addThis, nodes);
        InsertEnds(s, addThis);
        return addThis, false;
      }
      fault := MoveAfter(afterThis, addThis, i, h, nodes);
      r := if fault then null else addThis;
    }

    // DeleteChild; `left` are the nodes that still exist afterwards.
    method DeleteChild(node: Node, ghost nodes: set<Node>, ghost top: nat) returns (ghost left: set<Node>)
      requires this in nodes && node in nodes && Good(ShapeOf(nodes)) && node.parent == this && Under(nodes, top)
      modifies nodes
      ensures left == nodes - Subtree(old(ShapeOf(nodes)), node)
      ensures Good(ShapeOf(left)) && Kept(old(ShapeOf(nodes)), ShapeOf(left), node)
      decreases top - node.level, 2
    {
      hide Good, Linked, Attached, Detached, Subtree, Kept, Unlinked;
      ghost var h := ShapeOf(nodes);
      DetachedSpec(h, node);
      DetachedSubtree(h, node);
      InsertChildPreamble(node, nodes);
      Fields(nodes, Detached(h, node));
      left := DeleteNode(node, nodes, top);
      KeptTwice(h, Detached(h, node), ShapeOf(left), node);
    }

    // DeleteNode, with the destructor it calls.
    static method DeleteNode(node: Node, ghost nodes: set<Node>, ghost top: nat) returns (ghost left: set<Node>)
      requires node in nodes && Good(ShapeOf(nodes)) && Under(nodes, top)
      modifies nodes
      ensures left == nodes - Subtree(old(ShapeOf(nodes)), node)
      ensures Good(ShapeOf(left)) && Kept(old(ShapeOf(nodes)), ShapeOf(left), node)
      decreases top - node.level, 1
    {
      hide Good, Linked, Attached, Subtree, Kept, Pruned, Unlinked;
      ghost var h := ShapeOf(nodes);
      left := node.DeleteChildren(nodes, top);
      ghost var g := ShapeOf(left);
      Fields(left, g);
      PrunedParent(h, g, node);
      if node.parent != null {
        node.parent.Unlink(node, left);
      }
      PrunedAway(h, g, node);
      assert ShapeOf(left) == Detached(g, node);
      left := left - {node};
      assert ShapeOf(left) == Detached(g, node) - {node};
    }

    // Child after child, as long as there is a first.
    method DeleteChildren(ghost nodes: set<Node>, ghost top: nat) returns (ghost left: set<Node>)
      requires this in nodes && Good(ShapeOf(nodes)) && Under(nodes, top)
      modifies nodes
      ensures this in left && left <= nodes && Pruned(old(ShapeOf(nodes)), ShapeOf(left), this) && kids == []
      decreases top - level, 0
    {
      hide Good, Linked, Attached, Subtree, Kept, Pruned;
      ghost var h := ShapeOf(nodes);
      left := nodes;
      PrunedStart(h, this);
      while first != null
        invariant this in left && left <= nodes && Pruned(h, ShapeOf(left), this)
        decreases |left|
      {
        ghost var g, was := ShapeOf(left), left;
        Fields(left, g);
        PrunedFirst(h, g, this, top);
        left := DeleteChild(first, left, top);
        Fields(left, ShapeOf(left));
        assert g.Keys == was && ShapeOf(left).Keys == left;
        PrunedMore(h, g, ShapeOf(left), this);
      }
      Fields(left, ShapeOf(left));
      PrunedEnd(h, ShapeOf(left), this);
      first, last := null, null;
    }
  }

  // What the fields hold when the shape is known.
  lemma Fields(nodes: set<Node>, h: Shape)
    requires ShapeOf(nodes) == h
    ensures h.Keys == nodes && forall n :: n in nodes ==> n in h && n.View() == h[n]
  {
  }

  ghost function ShapeOf(nodes: set<Node>): Shape
    reads nodes
  {
    map n | n in nodes :: n.View()
  }

  /// Sequences without repetition.

  ghost predicate Distinct(s: seq<Node>) {
    forall i, j :: 0 <= i < j < |s| ==> s[i] != s[j]
  }

  ghost function Without(s: seq<Node>, x: Node): seq<Node> {
    if s == [] then [] else if s[0] == x then s[1..] else [s[0]] + Without(s[1..], x)
  }

  lemma {:induction false} WithoutAbsent(s: seq<Node>, x: Node)
    requires x !in s
    ensures Without(s, x) == s
    decreases |s|
  {
    if s != [] {
      WithoutAbsent(s[1..], x);
      assert [s[0]] + s[1..] == s;
    }
  }

  lemma {:induction false} WithoutAt(s: seq<Node>, x: Node, i: nat)
    requires Distinct(s) && i < |s| && s[i] == x
    ensures Without(s, x) == s[..i] + s[i + 1..]
    decreases |s|
  {
    if i > 0 {
      assert s[0] != s[i];
      WithoutAt(s[1..], x, i - 1);
      assert Without(s, x) == [s[0]] + Without(s[1..], x);
      hide Without, Distinct;
      var a, b := s[1..i], s[i + 1..];
      assert s[1..][..i - 1] == a && s[1..][i..] == b;
      assert [s[0]] + a == s[..i];
      ConcatAssociates([s[0]], a, b);
    } else {
      assert s[..0] + s[1..] == s[1..];
    }
  }

  lemma WithoutKeeps(s: seq<Node>, x: Node)
    requires Distinct(s)
    ensures Distinct(Without(s, x)) && x !in Without(s, x)
    ensures forall y :: y in Without(s, x) <==> y in s && y != x
  {
    if x in s {
      var i :| 0 <= i < |s| && s[i] == x;
      WithoutAt(s, x, i);
      var t := s[..i] + s[i + 1..];
      forall y | y in s && y != x
        ensures y in t
      {
        var j :| 0 <= j < |s| && s[j] == y;
        assert t[if j < i then j else j - 1] == y;
      }
    } else {
      WithoutAbsent(s, x);
    }
  }

  /// The shape of a tree: what every node's fields hold.

  datatype Links = Links(parent: Node?, first: Node?, last: Node?, prev: Node?, next: Node?, kids: seq<Node>, level: nat)

  type Shape = map<Node, Links>

  ghost function Before(s: seq<Node>, i: nat): Node?
    requires i < |s|
  {
    if i == 0 then null else s[i - 1]
  }

  ghost function Behind(s: seq<Node>, i: nat): Node?
    requires i < |s|
  {
    if i + 1 == |s| then null else s[i + 1]
  }

  // The children in s are doubly linked in that order, and know their parent.
  ghost predicate LinkedKids(h: Shape, n: Node, s: seq<Node>) {
    forall i {:trigger s[i]} :: 0 <= i < |s| ==>
      s[i] in h && h[s[i]].parent == n && h[s[i]].prev == Before(s, i) && h[s[i]].next == Behind(s, i)
  }

  ghost predicate Linked(h: Shape, n: Node)
    requires n in h
  {
    var s := h[n].kids;
    && Distinct(s)
    && h[n].first == (if s == [] then null else s[0])
    && h[n].last == (if s == [] then null else s[|s| - 1])
    && LinkedKids(h, n, s)
  }

  // A node is one of its parent's children, on a lower level; without a parent it has no siblings.
  ghost predicate Attached(h: Shape, n: Node)
    requires n in h
  {
    var p := h[n].parent;
    if p == null then h[n].prev == null && h[n].next == null
    else p in h && n in h[p].kids && h[p].level < h[n].level
  }

  ghost predicate Good(h: Shape) {
    forall n {:trigger Linked(h, n)} {:trigger Attached(h, n)} :: n in h ==> Linked(h, n) && Attached(h, n)
  }

  lemma GoodAt(h: Shape, n: Node)
    requires Good(h) && n in h
    ensures Linked(h, n) && Attached(h, n)
  {
    hide Linked, Attached;
  }

  // What linking says of one child, and of the first and last.
  lemma KidAt(h: Shape, n: Node, i: nat)
    requires Good(h) && n in h && i < |h[n].kids|
    ensures var s := h[n].kids; var k := s[i];
            && k in h && k != n && h[k].parent == n && h[k].prev == Before(s, i) && h[k].next == Behind(s, i)
            && h[n].first == s[0] && h[n].last == s[|s| - 1] && Distinct(s)
  {
    hide Before, Behind, Good;
    GoodAt(h, n);
    var k := h[n].kids[i];
    assert k in h;
    GoodAt(h, k);
  }

  // a is n or above it.
  ghost predicate Over(h: Shape, a: Node, n: Node)
    requires Good(h) && n in h
    decreases h[n].level
  {
    GoodAt(h, n);
    n == a || (h[n].parent != null && Over(h, a, h[n].parent))
  }

  /// Unlinking.

  ghost function Unlinked(h: Shape, x: Node): Shape
    requires x in h
  {
    var p, a, b := h[x].parent, h[x].prev, h[x].next;
    map n | n in h :: if n == x then h[n].(parent := null, prev := null, next := null)
                      else if n == p then h[n].(kids := Without(h[n].kids, x),
                                                first := if h[n].first == x then b else h[n].first,
                                                last := if h[n].last == x then a else h[n].last)
                      else if n == a then h[n].(next := b)
                      else if n == b then h[n].(prev := a)
                      else h[n]
  }

  // The place of a child among its parent's children.
  lemma Place(h: Shape, x: Node) returns (i: nat)
    requires Good(h) && x in h && h[x].parent != null
    ensures var p := h[x].parent; p in h && p != x && i < |h[p].kids| && h[p].kids[i] == x
    ensures h[x].prev == Before(h[h[x].parent].kids, i) && h[x].next == Behind(h[h[x].parent].kids, i)
  {
    hide Good, Before, Behind, Linked;
    GoodAt(h, x);
    var p := h[x].parent;
    i :| 0 <= i < |h[p].kids| && h[p].kids[i] == x;
    KidAt(h, p, i);
  }

  // A node's neighbours have the same parent.
  lemma Neighbours(h: Shape, x: Node)
    requires Good(h) && x in h && h[x].parent != null
    ensures var p, a, b := h[x].parent, h[x].prev, h[x].next;
            && p in h && p != x
            && (a != null ==> a in h && h[a].parent == p && a != x && a != p && h[a].next == x)
            && (b != null ==> b in h && h[b].parent == p && b != x && b != p && h[b].prev == x)
            && (a != null ==> a != b)
  {
    hide Good, Linked;
    var p, a, b := h[x].parent, h[x].prev, h[x].next;
    var i := Place(h, x);
    var s := h[p].kids;
    KidAt(h, p, i);
    if a != null {
      assert a == s[i - 1] && s[i - 1] != s[i];
      KidAt(h, p, i - 1);
    }
    if b != null {
      assert b == s[i + 1] && s[i] != s[i + 1];
      KidAt(h, p, i + 1);
      if a != null { assert s[i - 1] != s[i + 1]; }
    }
  }

  lemma UnlinkedGood(h: Shape, x: Node)
    requires Good(h) && x in h && h[x].parent != null
    ensures Good(Unlinked(h, x))
  {
    hide Linked, Attached;
    forall n | n in h
      ensures Linked(Unlinked(h, x), n) && Attached(Unlinked(h, x), n)
    {
      hide Good, Unlinked;
      UnlinkedAttached(h, x, n);
      if n == h[x].parent {
        UnlinkedFrom(h, x);
      } else {
        UnlinkedElsewhere(h, x, n);
      }
    }
  }

  // Every field of every node afterwards.
  lemma UnlinkedAt(h: Shape, x: Node, n: Node)
    requires Good(h) && x in h && h[x].parent != null && n in h
    ensures var h' := Unlinked(h, x); var l, l' := h[n], h'[n];
            && h'.Keys == h.Keys && l'.level == l.level && l'.kids == (if n == h[x].parent then Without(l.kids, x) else l.kids)
            && l'.parent == (if n == x then null else l.parent)
            && (n != h[x].parent ==> l'.first == l.first && l'.last == l.last)
            && (n != x && n != h[x].next ==> l'.prev == l.prev) && (n != x && n == h[x].next ==> l'.prev == h[x].prev)
            && (n != x && n != h[x].prev ==> l'.next == l.next) && (n != x && n == h[x].prev ==> l'.next == h[x].next)
            && (n == x ==> l'.prev == null && l'.next == null)
  {
    hide Good, Without, Before, Behind;
    Neighbours(h, x);
    var i := Place(h, x);
  }

  lemma UnlinkedLinks(h: Shape, x: Node, n: Node)
    requires Good(h) && x in h && h[x].parent != null && n in h
    ensures var g, p, a, b, l := Unlinked(h, x), h[x].parent, h[x].prev, h[x].next, h[n];
            && g.Keys == h.Keys
            && g[n] == Links(if n == x then null else l.parent, if n == p && l.first == x then b else l.first,
                             if n == p && l.last == x then a else l.last,
                             if n == x then null else if n == b then a else l.prev,
                             if n == x then null else if n == a then b else l.next,
                             if n == p then Without(l.kids, x) else l.kids, l.level)
  {
    hide Good, Without;
    Neighbours(h, x);
  }

  lemma UnlinkedAttached(h: Shape, x: Node, n: Node)
    requires Good(h) && x in h && h[x].parent != null && n in h
    ensures Attached(Unlinked(h, x), n)
  {
    hide Good, Linked, Unlinked, Before, Behind, Without, Distinct;
    var p, q := h[x].parent, h[n].parent;
    Neighbours(h, x);
    var i := Place(h, x);
    GoodAt(h, n);
    KidAt(h, p, i);
    WithoutKeeps(h[p].kids, x);
    UnlinkedAt(h, x, n);
    if q != null { UnlinkedAt(h, x, q); }
  }

  lemma UnlinkedElsewhere(h: Shape, x: Node, n: Node)
    requires Good(h) && x in h && h[x].parent != null && n in h && n != h[x].parent
    ensures Linked(Unlinked(h, x), n)
  {
    hide Before, Behind, Unlinked, Good, Distinct;
    var s, h' := h[n].kids, Unlinked(h, x);
    Neighbours(h, x);
    GoodAt(h, n);
    UnlinkedAt(h, x, n);
    forall i | 0 <= i < |s|
      ensures s[i] in h' && h'[s[i]].parent == n && h'[s[i]].prev == Before(s, i) && h'[s[i]].next == Behind(s, i)
    {
      hide Linked;
      KidAt(h, n, i);
      UnlinkedAt(h, x, s[i]);
    }
  }

  lemma SkipNeighbours(s: seq<Node>, i: nat, j: nat)
    requires i < |s| && j < |s| - 1
    ensures var t, k := s[..i] + s[i + 1..], if j < i then j else j + 1;
            && t[j] == s[k] && Before(t, j) == (if j == i then Before(s, i) else Before(s, k))
            && Behind(t, j) == (if j + 1 == i then Behind(s, i) else Behind(s, k))
  {
  }

  lemma NextTo(s: seq<Node>, i: nat, k: nat)
    requires Distinct(s) && i < |s| && k < |s|
    ensures Behind(s, i) == s[k] <==> k == i + 1
    ensures Before(s, i) == s[k] <==> k + 1 == i
    ensures s[i] == s[k] <==> i == k
  {
    if k + 1 != i && i > 0 { assert s[i - 1] != s[k]; }
    if k != i + 1 && i + 1 < |s| { assert s[i + 1] != s[k]; }
  }

  lemma UnlinkedFrom(h: Shape, x: Node)
    requires Good(h) && x in h && h[x].parent != null
    ensures h[x].parent in Unlinked(h, x) && Linked(Unlinked(h, x), h[x].parent)
  {
    hide Before, Behind, Unlinked, Good, Without, Distinct;
    var p := h[x].parent;
    var i := Place(h, x);
    var s, h' := h[p].kids, Unlinked(h, x);
    var t := s[..i] + s[i + 1..];
    KidAt(h, p, i);
    WithoutAt(s, x, i);
    WithoutKeeps(s, x);
    UnlinkedAt(h, x, p);
    forall j | 0 <= j < |t|
      ensures t[j] in h' && h'[t[j]].parent == p && h'[t[j]].prev == Before(t, j) && h'[t[j]].next == Behind(t, j)
    {
      hide Linked;
      var k := if j < i then j else j + 1;
      SkipNeighbours(s, i, j);
      KidAt(h, p, k);
      KidAt(h, p, i);
      NextTo(s, i, k);
      UnlinkedAt(h, x, s[k]);
    }
    FirstAndLast(h, x, i);
  }

  lemma UnlinkedEnds(h: Shape, x: Node)
    requires x in h && h[x].parent != null && h[x].parent in h && h[x].parent != x
    ensures var h', l := Unlinked(h, x), h[h[x].parent];
            && h[x].parent in h'
            && h'[h[x].parent].first == (if l.first == x then h[x].next else l.first)
            && h'[h[x].parent].last == (if l.last == x then h[x].prev else l.last)
  {
    hide Without;
  }

  lemma FirstAndLast(h: Shape, x: Node, i: nat)
    requires Good(h) && x in h && h[x].parent != null && h[x].parent in h
    requires i < |h[h[x].parent].kids| && h[h[x].parent].kids[i] == x
    ensures var p := h[x].parent; var s, h' := h[p].kids, Unlinked(h, x); var t := s[..i] + s[i + 1..];
            && p in h'
            && h'[p].first == (if t == [] then null else t[0])
            && h'[p].last == (if t == [] then null else t[|t| - 1])
  {
    hide Good, Linked, Attached, Without, Distinct, Unlinked;
    var p := h[x].parent;
    var s := h[p].kids;
    KidAt(h, p, i);
    UnlinkedEnds(h, x);
    NextTo(s, i, 0);
    NextTo(s, i, |s| - 1);
    var t := s[..i] + s[i + 1..];
    assert t != [] ==> t[0] == (if i == 0 then s[1] else s[0]);
    assert t != [] ==> t[|t| - 1] == (if i == |s| - 1 then s[i - 1] else s[|s| - 1]);
  }

  /// Inserting.

  ghost function InsertAt(s: seq<Node>, k: nat, x: Node): seq<Node>
    requires k <= |s|
  {
    s[..k] + [x] + s[k..]
  }

  // The new neighbours of a node inserted at place k.

  ghost function Above(s: seq<Node>, k: nat): Node?
    requires k <= |s|
  {
    if k == 0 then null else s[k - 1]
  }

  ghost function Below(s: seq<Node>, k: nat): Node?
    requires k <= |s|
  {
    if k == |s| then null else s[k]
  }

  ghost function Inserted(h: Shape, p: Node, x: Node, k: nat): Shape
    requires p in h && k <= |h[p].kids|
  {
    var s := h[p].kids;
    var a, b := Above(s, k), Below(s, k);
    map n | n in h :: if n == x then h[n].(parent := p, prev := a, next := b)
                      else if n == p then h[n].(kids := InsertAt(s, k, x),
                                                first := if k == 0 then x else h[n].first,
                                                last := if k == |s| then x else h[n].last)
                      else if n == a then h[n].(next := x)
                      else if n == b then h[n].(prev := x)
                      else h[n]
  }

  ghost predicate CanInsert(h: Shape, p: Node, x: Node, k: nat) {
    && p in h && x in h && k <= |h[p].kids|
    && h[x].parent == null && p != x && h[p].level < h[x].level
  }

  lemma NewNeighbours(h: Shape, p: Node, x: Node, k: nat)
    requires Good(h) && CanInsert(h, p, x, k)
    ensures x !in h[p].kids && Distinct(h[p].kids)
    ensures var a, b := Above(h[p].kids, k), Below(h[p].kids, k);
            && (a != null ==> a in h && a != x && a != p && h[a].parent == p)
            && (b != null ==> b in h && b != x && b != p && h[b].parent == p)
            && (a != null ==> a != b)
  {
    hide Good, Linked;
    var s := h[p].kids;
    GoodAt(h, p);
    if k > 0 { KidAt(h, p, k - 1); }
    if k < |s| { KidAt(h, p, k); }
    if 0 < k < |s| { assert s[k - 1] != s[k]; }
    NoKid(h, p, x);
    assert s == [] ==> Distinct(s);
  }

  lemma NoKid(h: Shape, n: Node, x: Node)
    requires Good(h) && x in h && n in h && h[x].parent != n
    ensures x !in h[n].kids
  {
    hide Good;
    if x in h[n].kids {
      var i :| 0 <= i < |h[n].kids| && h[n].kids[i] == x;
      KidAt(h, n, i);
    }
  }

  // Every field of every node afterwards.
  lemma InsertedField(h: Shape, p: Node, x: Node, k: nat, n: Node)
    requires Good(h) && CanInsert(h, p, x, k) && n in h
    ensures var h' := Inserted(h, p, x, k); var l, l', s := h[n], h'[n], h[p].kids;
            && h'.Keys == h.Keys && l'.level == l.level && l'.kids == (if n == p then InsertAt(s, k, x) else l.kids)
            && l'.parent == (if n == x then p else l.parent)
            && l'.first == (if n == p && k == 0 then x else l.first)
            && l'.last == (if n == p && k == |s| then x else l.last)
            && l'.prev == (if n == x then Above(s, k) else if n == Below(s, k) then x else l.prev)
            && l'.next == (if n == x then Below(s, k) else if n == Above(s, k) then x else l.next)
  {
    hide Good, Above, Below, InsertAt;
    NewNeighbours(h, p, x, k);
  }

  lemma InsertedGood(h: Shape, p: Node, x: Node, k: nat)
    requires Good(h) && CanInsert(h, p, x, k)
    ensures Good(Inserted(h, p, x, k))
  {
    hide Linked, Attached;
    forall n | n in h
      ensures Linked(Inserted(h, p, x, k), n) && Attached(Inserted(h, p, x, k), n)
    {
      hide Good, Inserted, CanInsert;
      InsertedAttached(h, p, x, k, n);
      if n == p {
        InsertedInto(h, p, x, k);
      } else {
        InsertedElsewhere(h, p, x, k, n);
      }
    }
  }

  lemma InsertedAttached(h: Shape, p: Node, x: Node, k: nat, n: Node)
    requires Good(h) && CanInsert(h, p, x, k) && n in h
    ensures Attached(Inserted(h, p, x, k), n)
  {
    hide Good, Linked, Inserted, Above, Below, Distinct;
    var q := h[n].parent;
    NewNeighbours(h, p, x, k);
    GoodAt(h, n);
    InsertedField(h, p, x, k, n);
    InsertedField(h, p, x, k, p);
    if q != null { InsertedField(h, p, x, k, q); }
    assert forall y :: y in h[p].kids || y == x ==> y in InsertAt(h[p].kids, k, x) by {
      InsertMembers(h[p].kids, k, x);
    }
    hide InsertAt;
    assert n != x && q == null ==> n != Above(h[p].kids, k) && n != Below(h[p].kids, k);
  }

  lemma InsertMembers(s: seq<Node>, k: nat, x: Node)
    requires k <= |s|
    ensures forall y :: y in InsertAt(s, k, x) <==> y in s || y == x
  {
    assert s == s[..k] + s[k..];
  }

  lemma InsertedElsewhere(h: Shape, p: Node, x: Node, k: nat, n: Node)
    requires Good(h) && CanInsert(h, p, x, k) && n in h && n != p
    ensures Linked(Inserted(h, p, x, k), n)
  {
    hide Good, Inserted, Above, Below, Before, Behind, Distinct, InsertAt;
    var s, h' := h[n].kids, Inserted(h, p, x, k);
    NewNeighbours(h, p, x, k);
    GoodAt(h, n);
    InsertedField(h, p, x, k, n);
    forall i | 0 <= i < |s|
      ensures s[i] in h' && h'[s[i]].parent == n && h'[s[i]].prev == Before(s, i) && h'[s[i]].next == Behind(s, i)
    {
      hide Linked;
      KidAt(h, n, i);
      InsertedField(h, p, x, k, s[i]);
    }
  }

  lemma InsertNeighbours(s: seq<Node>, k: nat, x: Node, j: nat)
    requires k <= |s| && j <= |s| && Distinct(s) && x !in s
    ensures var t := InsertAt(s, k, x);
            && |t| == |s| + 1
            && (j == k ==> t[j] == x && Before(t, j) == Above(s, k) && Behind(t, j) == Below(s, k))
            && (j != k ==> var i := if j < k then j else j - 1;
                           && t[j] == s[i] && s[i] != x
                           && Before(t, j) == (if s[i] == Below(s, k) then x else Before(s, i))
                           && Behind(t, j) == (if s[i] == Above(s, k) then x else Behind(s, i)))
  {
    if j != k {
      var i := if j < k then j else j - 1;
      if k > 0 && i != k - 1 { assert s[i] != s[k - 1]; }
      if k < |s| && i != k { assert s[i] != s[k]; }
    }
    hide Distinct;
  }

  lemma InsertedInto(h: Shape, p: Node, x: Node, k: nat)
    requires Good(h) && CanInsert(h, p, x, k)
    ensures Linked(Inserted(h, p, x, k), p)
  {
    hide Good, Inserted, Above, Below, Before, Behind, Distinct;
    var s, h' := h[p].kids, Inserted(h, p, x, k);
    var t := InsertAt(s, k, x);
    NewNeighbours(h, p, x, k);
    InsertedField(h, p, x, k, p);
    GoodAt(h, p);
    InsertDistinct(s, k, x);
    forall j | 0 <= j < |t|
      ensures t[j] in h' && h'[t[j]].parent == p && h'[t[j]].prev == Before(t, j) && h'[t[j]].next == Behind(t, j)
    {
      hide Linked, InsertAt;
      InsertNeighbours(s, k, x, j);
      InsertedField(h, p, x, k, t[j]);
      if j != k { KidAt(h, p, if j < k then j else j - 1); }
    }
    assert t[0] == (if k == 0 then x else s[0]) && t[|t| - 1] == (if k == |s| then x else s[|s| - 1]);
  }

  lemma InsertDistinct(s: seq<Node>, k: nat, x: Node)
    requires k <= |s| && Distinct(s) && x !in s
    ensures Distinct(InsertAt(s, k, x))
  {
    var t := InsertAt(s, k, x);
    forall i, j | 0 <= i < j < |t|
      ensures t[i] != t[j]
    {
      assert t[i] == if i < k then s[i] else if i == k then x else s[i - 1];
      assert t[j] == if j < k then s[j] else if j == k then x else s[j - 1];
    }
  }

  /// What the assignments do, whatever node is linked where.

  ghost function EndLinked(h: Shape, p: Node, x: Node): Shape
    requires p in h
  {
    var l := h[p].last;
    map n | n in h :: Links(if n == x then p else h[n].parent,
                            if n == p && l == null then x else h[n].first,
                            if n == p then x else h[n].last,
                            if n == x then l else h[n].prev,
                            if n == x then null else if n == l then x else h[n].next,
                            if n == p then InsertAt(h[n].kids, |h[n].kids|, x) else h[n].kids,
                            h[n].level)
  }

  ghost function FirstLinked(h: Shape, p: Node, x: Node): Shape
    requires p in h
  {
    var f := h[p].first;
    map n | n in h :: Links(if n == x then p else h[n].parent,
                            if n == p then x else h[n].first,
                            if n == p && f == null then x else h[n].last,
                            if n == x then null else if n == f then x else h[n].prev,
                            if n == x then f else h[n].next,
                            if n == p then InsertAt(h[n].kids, 0, x) else h[n].kids,
                            h[n].level)
  }

  ghost function AfterLinked(h: Shape, p: Node, x: Node, k: nat): Shape
    requires p in h && 0 < k < |h[p].kids|
  {
    var a, b := h[p].kids[k - 1], h[p].kids[k];
    map n | n in h :: Links(if n == x then p else h[n].parent, h[n].first, h[n].last,
                            if n == x then a else if n == b then x else h[n].prev,
                            if n == x then b else if n == a then x else h[n].next,
                            if n == p then InsertAt(h[n].kids, k, x) else h[n].kids,
                            h[n].level)
  }

  lemma EndLinkedAt(h: Shape, p: Node, x: Node, n: Node)
    requires p in h && n in h
    ensures var g, l := EndLinked(h, p, x), h[p].last;
            && g.Keys == h.Keys
            && g[n] == Links(if n == x then p else h[n].parent, if n == p && l == null then x else h[n].first,
                             if n == p then x else h[n].last, if n == x then l else h[n].prev,
                             if n == x then null else if n == l then x else h[n].next,
                             if n == p then InsertAt(h[n].kids, |h[n].kids|, x) else h[n].kids, h[n].level)
  {
    hide InsertAt;
  }

  lemma FirstLinkedAt(h: Shape, p: Node, x: Node, n: Node)
    requires p in h && n in h
    ensures var g, f := FirstLinked(h, p, x), h[p].first;
            && g.Keys == h.Keys
            && g[n] == Links(if n == x then p else h[n].parent, if n == p then x else h[n].first,
                             if n == p && f == null then x else h[n].last,
                             if n == x then null else if n == f then x else h[n].prev, if n == x then f else h[n].next,
                             if n == p then InsertAt(h[n].kids, 0, x) else h[n].kids, h[n].level)
  {
    hide InsertAt;
  }

  lemma AfterLinkedAt(h: Shape, p: Node, x: Node, k: nat, n: Node)
    requires p in h && n in h && 0 < k < |h[p].kids|
    ensures var g, a, b := AfterLinked(h, p, x, k), h[p].kids[k - 1], h[p].kids[k];
            && g.Keys == h.Keys
            && g[n] == Links(if n == x then p else h[n].parent, h[n].first, h[n].last,
                             if n == x then a else if n == b then x else h[n].prev,
                             if n == x then b else if n == a then x else h[n].next,
                             if n == p then InsertAt(h[n].kids, k, x) else h[n].kids, h[n].level)
  {
    hide InsertAt;
  }

  // A node without a parent is not the first or last child of any.
  lemma OwnEnds(h: Shape, p: Node, x: Node)
    requires Good(h) && p in h && x in h && h[x].parent == null
    ensures h[p].first != x && h[p].last != x && (h[p].first == null <==> h[p].last == null)
    ensures h[p].last != null ==> h[p].last in h && h[p].last != p
    ensures h[p].first != null ==> h[p].first in h && h[p].first != p
  {
    hide Good;
    GoodAt(h, p);
    if h[p].kids != [] {
      KidAt(h, p, 0);
      KidAt(h, p, |h[p].kids| - 1);
    }
  }

  lemma EndLinkedIs(h: Shape, p: Node, x: Node)
    requires Good(h) && p in h && CanInsert(h, p, x, |h[p].kids|)
    ensures EndLinked(h, p, x) == Inserted(h, p, x, |h[p].kids|)
  {
    hide Good, InsertAt, Inserted;
    var k := |h[p].kids|;
    EndsOf(h, p);
    InsertedField(h, p, x, k, p);
    forall n | n in h
      ensures EndLinked(h, p, x)[n] == Inserted(h, p, x, k)[n]
    {
      InsertedField(h, p, x, k, n);
    }
  }

  lemma FirstLinkedIs(h: Shape, p: Node, x: Node)
    requires Good(h) && p in h && CanInsert(h, p, x, 0)
    ensures FirstLinked(h, p, x) == Inserted(h, p, x, 0)
  {
    hide Good, InsertAt, Inserted;
    EndsOf(h, p);
    InsertedField(h, p, x, 0, p);
    forall n | n in h
      ensures FirstLinked(h, p, x)[n] == Inserted(h, p, x, 0)[n]
    {
      InsertedField(h, p, x, 0, n);
    }
  }

  lemma AfterLinkedIs(h: Shape, p: Node, x: Node, k: nat)
    requires Good(h) && CanInsert(h, p, x, k) && 0 < k < |h[p].kids|
    ensures AfterLinked(h, p, x, k) == Inserted(h, p, x, k)
  {
    hide Good, InsertAt, Inserted;
    InsertedField(h, p, x, k, p);
    forall n | n in h
      ensures AfterLinked(h, p, x, k)[n] == Inserted(h, p, x, k)[n]
    {
      InsertedField(h, p, x, k, n);
    }
  }

  lemma EndsOf(h: Shape, p: Node)
    requires Good(h) && p in h
    ensures h[p].last == Above(h[p].kids, |h[p].kids|) && h[p].first == Below(h[p].kids, 0)
  {
    hide Good, LinkedKids;
    GoodAt(h, p);
  }

  // p is x's parent now, and all others have the parents they had.
  ghost predicate Reparented(h: Shape, g: Shape, p: Node, x: Node) {
    g.Keys == h.Keys && x in g && g[x].parent == p && forall n :: n in h && n != x ==> g[n].parent == h[n].parent
  }

  lemma LinkedReparents(h: Shape, p: Node, x: Node)
    requires p in h && x in h
    ensures Reparented(h, EndLinked(h, p, x), p, x) && Reparented(h, FirstLinked(h, p, x), p, x)
  {
  }

  lemma AfterReparents(h: Shape, p: Node, x: Node, k: nat)
    requires p in h && x in h && 0 < k < |h[p].kids|
    ensures Reparented(h, AfterLinked(h, p, x, k), p, x)
  {
  }

  // Whatever else it holds, a shape in which a node hangs below itself is no tree.
  lemma BelowItself(h: Shape, d: Shape, g: Shape, p: Node, x: Node)
    requires Good(h) && p in h && x in h && Over(h, x, p)
    requires d.Keys == h.Keys && (forall n :: n in h && n != x ==> d[n].parent == h[n].parent) && Reparented(d, g, p, x)
    ensures !Good(g)
  {
    hide Good, Over, Linked;
    if Good(g) {
      LevelsGrow(h, g, x, p);
      GoodAt(g, x);
    }
  }

  lemma {:induction false} LevelsGrow(h: Shape, g: Shape, x: Node, n: Node)
    requires Good(h) && Good(g) && g.Keys == h.Keys && x in h && n in h && Over(h, x, n)
    requires forall m :: m in h && m != x ==> g[m].parent == h[m].parent
    ensures g[x].level <= g[n].level
    decreases h[n].level
  {
    hide Good, Over, Linked;
    GoodAt(h, n);
    GoodAt(g, n);
    OverUp(h, x, n);
    if n != x { LevelsGrow(h, g, x, h[n].parent); }
  }

  // A node is not below its children.
  lemma KidNotOver(h: Shape, c: Node)
    requires Good(h) && c in h && h[c].parent != null
    ensures h[c].parent in h && !Over(h, c, h[c].parent)
  {
    hide Good, Over, Linked;
    GoodAt(h, c);
    if Over(h, c, h[c].parent) {
      LevelsGrow(h, h, c, h[c].parent);
    }
  }

  lemma KidUnder(h: Shape, p: Node, x: Node)
    requires Good(h) && p in h && x in h
    ensures h[x].parent == p ==> !Over(h, x, p)
  {
    if h[x].parent == p { KidNotOver(h, x); }
  }

  // A node can get p for its parent in a well-formed tree, with all other parents as they are, if and
  // only if p is not below it.
  lemma CanMove(h: Shape, p: Node, x: Node)
    requires Good(h) && p in h && x in h
    ensures (exists g: Shape :: Good(g) && Reparented(h, g, p, x)) <==> !Over(h, x, p)
  {
    hide Good, Over, Moved, Detached, Without;
    if Over(h, x, p) {
      forall g: Shape | Reparented(h, g, p, x)
        ensures !Good(g)
      {
        BelowItself(h, h, g, p, x);
      }
    } else {
      MovedSpec(h, p, x, 0);
      assert Reparented(h, Moved(h, p, x, 0), p, x);
    }
  }

  /// Moving.

  // A node without a parent takes its subtree to a lower level.
  ghost function Raised(h: Shape, x: Node, drop: nat): Shape
    requires Good(h)
  {
    map n | n in h :: if Over(h, x, n) then h[n].(level := h[n].level + drop) else h[n]
  }

  lemma RaisedAt(h: Shape, x: Node, drop: nat, n: Node)
    requires Good(h) && n in h
    ensures var h' := Raised(h, x, drop);
            h'.Keys == h.Keys && h'[n] == h[n].(level := if Over(h, x, n) then h[n].level + drop else h[n].level)
  {
    hide Good, Over;
  }

  lemma OverUp(h: Shape, a: Node, n: Node)
    requires Good(h) && n in h
    ensures h[n].parent != null ==> h[n].parent in h && (Over(h, a, n) <==> n == a || Over(h, a, h[n].parent))
    ensures h[n].parent == null ==> (Over(h, a, n) <==> n == a)
  {
    hide Good, Linked;
    GoodAt(h, n);
  }

  lemma RaisedGood(h: Shape, x: Node, drop: nat)
    requires Good(h) && x in h && h[x].parent == null
    ensures Good(Raised(h, x, drop))
  {
    hide Linked, Attached;
    forall n | n in h
      ensures Linked(Raised(h, x, drop), n) && Attached(Raised(h, x, drop), n)
    {
      hide Good, Raised;
      RaisedAttached(h, x, drop, n);
      RaisedLinked(h, x, drop, n);
    }
  }

  lemma RaisedAttached(h: Shape, x: Node, drop: nat, n: Node)
    requires Good(h) && x in h && h[x].parent == null && n in h
    ensures Attached(Raised(h, x, drop), n)
  {
    hide Good, Linked, Raised, Over;
    GoodAt(h, n);
    OverUp(h, x, n);
    RaisedAt(h, x, drop, n);
    if h[n].parent != null { RaisedAt(h, x, drop, h[n].parent); }
  }

  lemma RaisedLinked(h: Shape, x: Node, drop: nat, n: Node)
    requires Good(h) && n in h
    ensures Linked(Raised(h, x, drop), n)
  {
    hide Good, Raised, Over, Before, Behind, Distinct;
    var s, h' := h[n].kids, Raised(h, x, drop);
    GoodAt(h, n);
    RaisedAt(h, x, drop, n);
    forall i | 0 <= i < |s|
      ensures s[i] in h' && h'[s[i]].parent == n && h'[s[i]].prev == Before(s, i) && h'[s[i]].next == Behind(s, i)
    {
      hide Linked;
      KidAt(h, n, i);
      RaisedAt(h, x, drop, s[i]);
    }
  }

  ghost function Detached(h: Shape, x: Node): Shape
    requires x in h
  {
    if h[x].parent == null then h else Unlinked(h, x)
  }

  // Detached, a node is nobody's child, and everything else is as it was.
  lemma DetachedSpec(h: Shape, x: Node)
    requires Good(h) && x in h
    ensures var h' := Detached(h, x);
            && Good(h') && h'.Keys == h.Keys && h'[x].parent == null
            && forall n :: n in h ==> h'[n].kids == Without(h[n].kids, x) && h'[n].level == h[n].level
                                      && (n != x ==> h'[n].parent == h[n].parent)
  {
    hide Good, Unlinked, Without;
    var h' := Detached(h, x);
    if h[x].parent != null {
      UnlinkedGood(h, x);
      UnlinkedAt(h, x, x);
    }
    forall n | n in h
      ensures h'[n].kids == Without(h[n].kids, x) && h'[n].level == h[n].level && (n != x ==> h'[n].parent == h[n].parent)
    {
      if h[x].parent != null { UnlinkedAt(h, x, n); }
      if n != h[x].parent {
        NoKid(h, n, x);
        WithoutAbsent(h[n].kids, x);
      }
    }
  }

  // Detaching puts no node below x that was not there.
  lemma {:induction false} DetachedOver(h: Shape, x: Node, n: Node)
    requires Good(h) && x in h && n in h && !Over(h, x, n)
    ensures var h' := Detached(h, x); Good(h') && n in h' && !Over(h', x, n)
    decreases h[n].level
  {
    hide Good, Linked, Detached, Over;
    DetachedSpec(h, x);
    OverUp(h, x, n);
    OverUp(Detached(h, x), x, n);
    GoodAt(h, n);
    assert n != x && Detached(h, x)[n].parent == h[n].parent;
    if h[n].parent != null { DetachedOver(h, x, h[n].parent); }
  }

  // x out of its place and in at place k of p.
  ghost function Moved(h: Shape, p: Node, x: Node, k: nat): Shape
    requires p in h && x in h && Good(h) && Good(Detached(h, x)) && p in Detached(h, x)
    requires k <= |Detached(h, x)[p].kids|
  {
    RaisedAt(Detached(h, x), x, Detached(h, x)[p].level + 1, p);
    Inserted(Raised(Detached(h, x), x, Detached(h, x)[p].level + 1), p, x, k)
  }

  // Moving is what it is on sequences, for every node's children at once, and keeps the tree well formed.
  lemma MovedSpec(h: Shape, p: Node, x: Node, k: nat)
    requires Good(h) && p in h && x in h && !Over(h, x, p) && k <= |Without(h[p].kids, x)|
    ensures Good(Detached(h, x)) && Detached(h, x).Keys == h.Keys && Detached(h, x)[p].kids == Without(h[p].kids, x)
    ensures var h' := Moved(h, p, x, k);
            && Good(h') && h'.Keys == h.Keys
            && forall n :: n in h ==>
                 && h'[n].kids == (if n == p then InsertAt(Without(h[p].kids, x), k, x) else Without(h[n].kids, x))
                 && h'[n].parent == (if n == x then p else h[n].parent)
  {
    hide Good, Detached, Over, Without, InsertAt, Raised, Inserted, Moved;
    MovedSteps(h, p, x, k);
    DetachedSpec(h, x);
    var h1 := Detached(h, x);
    var drop := h1[p].level + 1;
    var h2 := Raised(h1, x, drop);
    InsertedGood(h2, p, x, k);
    RaisedAt(h1, x, drop, p);
    var h' := Moved(h, p, x, k);
    InsertedField(h2, p, x, k, p);
    forall n | n in h
      ensures h'[n].kids == (if n == p then InsertAt(Without(h[p].kids, x), k, x) else Without(h[n].kids, x))
      ensures h'[n].parent == (if n == x then p else h[n].parent)
    {
      RaisedAt(h1, x, drop, n);
      InsertedField(h2, p, x, k, n);
    }
  }

  lemma MovedSteps(h: Shape, p: Node, x: Node, k: nat)
    requires Good(h) && p in h && x in h && !Over(h, x, p) && k <= |Without(h[p].kids, x)|
    ensures Good(Detached(h, x)) && p in Detached(h, x) && k <= |Detached(h, x)[p].kids|
    ensures var h1 := Detached(h, x); var h2 := Raised(h1, x, h1[p].level + 1);
            Good(h2) && CanInsert(h2, p, x, k) && h2[p].kids == h1[p].kids == Without(h[p].kids, x)
            && Moved(h, p, x, k) == Inserted(h2, p, x, k)
  {
    hide Good, Detached, Over, Without, InsertAt;
    DetachedSpec(h, x);
    DetachedOver(h, x, p);
    var h1 := Detached(h, x);
    var drop := h1[p].level + 1;
    RaisedGood(h1, x, drop);
    RaisedAt(h1, x, drop, p);
    RaisedAt(h1, x, drop, x);
    OverUp(h1, x, x);
    OverUp(h1, x, p);
    hide Raised;
  }

  lemma InsertEnds(s: seq<Node>, x: Node)
    ensures InsertAt(s, |s|, x) == s + [x] && InsertAt(s, 0, x) == [x] + s
  {
  }

  ghost function AfterIn(s: seq<Node>, a: Node, x: Node): seq<Node> {
    if s == [] then [] else if s[0] == a then [a, x] + s[1..] else [s[0]] + AfterIn(s[1..], a, x)
  }

  lemma {:induction false} AfterAt(s: seq<Node>, a: Node, x: Node, i: nat)
    requires Distinct(s) && (a in s ==> i < |s| && s[i] == a)
    ensures a in s ==> AfterIn(s, a, x) == InsertAt(s, i + 1, x)
    decreases |s|
  {
    if a in s {
      if i == 0 {
        assert s[..1] == [a];
      } else {
        assert s[0] != s[i] && s[i] == s[1..][i - 1];
        AfterAt(s[1..], a, x, i - 1);
        assert AfterIn(s, a, x) == [s[0]] + InsertAt(s[1..], i, x);
        hide AfterIn, Distinct;
        InsertBehindFirst(s[0], s[1..], i, x);
        assert [s[0]] + s[1..] == s;
      }
    }
  }

  lemma InsertBehindFirst(y: Node, s: seq<Node>, i: nat, x: Node)
    requires i <= |s|
    ensures [y] + InsertAt(s, i, x) == InsertAt([y] + s, i + 1, x)
  {
    assert ([y] + s)[..i + 1] == [y] + s[..i] && ([y] + s)[i + 1..] == s[i..];
  }

  // Where a child stands once another node is taken out, and what is behind it then.
  lemma SecondPlace(h: Shape, p: Node, a: Node, x: Node) returns (i: nat)
    requires Good(h) && p in h && a in h && x in h && h[a].parent == p
    ensures Distinct(Without(h[p].kids, x))
    ensures a != x ==> i < |Without(h[p].kids, x)| && Without(h[p].kids, x)[i] == a
    ensures a != x ==> a in Detached(h, x)
                       && Detached(h, x)[a].next == (if h[a].next == x then h[x].next else h[a].next)
                       && (Detached(h, x)[a].next == null <==> i + 1 == |Without(h[p].kids, x)|)
  {
    hide Good, Over, Detached, Unlinked;
    i := 0;
    var j := Place(h, a);
    KidAt(h, p, j);
    WithoutKeeps(h[p].kids, x);
    if a != x {
      DetachedSpec(h, x);
      i := Place(Detached(h, x), a);
      DetachedNext(h, x, a);
    }
  }

  lemma DetachedNext(h: Shape, x: Node, a: Node)
    requires Good(h) && x in h && a in h && a != x && h[a].parent != null
    ensures a in Detached(h, x) && Detached(h, x)[a].next == (if h[a].next == x then h[x].next else h[a].next)
  {
    hide Good, Unlinked;
    Neighbours(h, a);
    if h[x].parent != null {
      Neighbours(h, x);
      UnlinkedAt(h, x, a);
    }
  }

  /// Deleting.

  ghost predicate Under(nodes: set<Node>, top: nat)
    reads nodes
  {
    forall n :: n in nodes ==> n.level <= top
  }

  ghost function Subtree(h: Shape, x: Node): set<Node>
    requires Good(h)
  {
    set n | n in h && Over(h, x, n)
  }

  // What remains has lost only x.
  ghost predicate Kept(h: Shape, g: Shape, x: Node) {
    forall n :: n in g ==> n in h && g[n].kids == Without(h[n].kids, x) && g[n].level == h[n].level
                           && (n != x ==> g[n].parent == h[n].parent)
  }

  // Some of the nodes below x are gone, and nothing else.
  ghost predicate Pruned(h: Shape, g: Shape, x: Node) {
    && Good(h) && Good(g) && x in g && x in h
    && (forall n :: n in g ==> n in h && g[n].level == h[n].level && g[n].parent == h[n].parent
                               && (n != x ==> g[n].kids == h[n].kids))
    && (forall n :: n in h && n !in g ==> n != x && Over(h, x, n))
  }

  // Being above depends on the parents below alone.
  lemma {:induction false} OverSame(h: Shape, g: Shape, a: Node, n: Node)
    requires Good(h) && Good(g) && n in g && n in h
    requires forall m :: m in g ==> m in h && (m != a ==> g[m].parent == h[m].parent)
    ensures Over(g, a, n) == Over(h, a, n)
    decreases g[n].level
  {
    hide Good, Linked, Over;
    OverUp(h, a, n);
    OverUp(g, a, n);
    if n != a && g[n].parent != null {
      GoodAt(g, n);
      OverSame(h, g, a, g[n].parent);
    }
  }

  lemma {:induction false} OverLevel(h: Shape, a: Node, n: Node)
    requires Good(h) && a in h && n in h && Over(h, a, n)
    ensures h[a].level <= h[n].level
    decreases h[n].level
  {
    hide Good, Linked, Over;
    OverUp(h, a, n);
    if n != a {
      GoodAt(h, n);
      OverLevel(h, a, h[n].parent);
    }
  }

  lemma {:induction false} OverTransitive(h: Shape, a: Node, b: Node, n: Node)
    requires Good(h) && b in h && n in h && Over(h, a, b) && Over(h, b, n)
    ensures Over(h, a, n)
    decreases h[n].level
  {
    hide Good, Linked, Over;
    OverUp(h, a, n);
    OverUp(h, b, n);
    if n != b {
      GoodAt(h, n);
      OverTransitive(h, a, b, h[n].parent);
    }
  }

  // Whatever is below x is below one of its children.
  lemma {:induction false} OverKid(h: Shape, x: Node, n: Node)
    requires Good(h) && x in h && n in h && Over(h, x, n) && n != x
    ensures h[x].kids != []
    decreases h[n].level
  {
    hide Good, Linked, Over;
    OverUp(h, x, n);
    GoodAt(h, n);
    if h[n].parent != x { OverKid(h, x, h[n].parent); }
  }

  lemma DetachedSubtree(h: Shape, x: Node)
    requires Good(h) && x in h
    ensures var h' := Detached(h, x);
            Good(h') && Subtree(h', x) == Subtree(h, x) && Kept(h, h', x)
  {
    hide Good, Detached, Over;
    DetachedSpec(h, x);
    var h' := Detached(h, x);
    forall n | n in h
      ensures Over(h', x, n) == Over(h, x, n)
    {
      OverSame(h, h', x, n);
    }
  }

  lemma KeptTwice(h: Shape, h': Shape, g: Shape, x: Node)
    requires Good(h) && Kept(h, h', x) && Kept(h', g, x)
    ensures Kept(h, g, x)
  {
    hide Good, Linked, Without;
    forall n | n in g
      ensures Without(Without(h[n].kids, x), x) == Without(h[n].kids, x)
    {
      GoodAt(h, n);
      assert Distinct(h[n].kids) by { KidsDistinct(h, n); }
      WithoutKeeps(h[n].kids, x);
      WithoutAbsent(Without(h[n].kids, x), x);
    }
  }

  lemma KidsDistinct(h: Shape, n: Node)
    requires Good(h) && n in h
    ensures Distinct(h[n].kids)
  {
    hide Good;
    GoodAt(h, n);
  }

  lemma PrunedStart(h: Shape, x: Node)
    requires Good(h) && x in h
    ensures Pruned(h, h, x)
  {
    hide Good;
  }

  // The first child, before it is deleted.
  lemma PrunedFirst(h: Shape, g: Shape, x: Node, top: nat)
    requires Pruned(h, g, x) && g[x].first != null && (forall n :: n in h ==> h[n].level <= top)
    ensures x in h && Good(g) && var c := g[x].first;
            c in g && g[c].parent == x && c != x && h[x].level == g[x].level < g[c].level && (forall n :: n in g ==> g[n].level <= top)
  {
    hide Good, Over;
    KidsFirst(g, x);
    KidAt(g, x, 0);
    GoodAt(g, g[x].first);
  }

  lemma KidsFirst(h: Shape, x: Node)
    requires Good(h) && x in h
    ensures h[x].first == (if h[x].kids == [] then null else h[x].kids[0])
  {
    hide Good;
    GoodAt(h, x);
  }

  // One child less.
  lemma PrunedMore(h: Shape, g: Shape, g': Shape, x: Node)
    requires Pruned(h, g, x) && g[x].first != null && g[x].first in g && g[g[x].first].parent == x
    requires Good(g') && Kept(g, g', g[x].first) && g'.Keys == g.Keys - Subtree(g, g[x].first)
    ensures Pruned(h, g', x) && x in g' && |g'.Keys| < |g.Keys|
  {
    hide Good, Over, Without;
    var c := g[x].first;
    GoodAt(g, c);
    OverUp(g, c, c);
    assert c in Subtree(g, c) && c !in g';
    if Over(g, c, x) { OverLevel(g, c, x); }
    assert x in g';
    forall n | n in g'
      ensures n in h && g'[n].level == h[n].level && g'[n].parent == h[n].parent && (n != x ==> g'[n].kids == h[n].kids)
    {
      if n != x {
        NoKid(g, n, c);
        WithoutAbsent(g[n].kids, c);
      }
    }
    forall n | n in h && n !in g'
      ensures n != x && Over(h, x, n)
    {
      if n in g {
        OverUp(g, x, c);
        OverUp(g, x, x);
        OverTransitive(g, x, c, n);
        OverSame(h, g, x, n);
      }
    }
    assert g'.Keys < g.Keys;
    Smaller(g'.Keys, g.Keys);
  }

  lemma {:induction false} Smaller(a: set<Node>, b: set<Node>)
    requires a < b
    ensures |a| < |b|
  {
    var c := b - a;
    assert b == a + c && c != {};
  }

  // No child is left, and so nothing below.
  lemma PrunedEnd(h: Shape, g: Shape, x: Node)
    requires Pruned(h, g, x) && g[x].first == null
    ensures g[x].kids == [] && g[x].last == null && forall n :: n in g && n != x ==> !Over(h, x, n)
  {
    hide Good, Over;
    KidsFirst(g, x);
    KidsLast(g, x);
    forall n | n in g && n != x
      ensures !Over(h, x, n)
    {
      OverSame(h, g, x, n);
      if Over(g, x, n) { OverKid(g, x, n); }
    }
  }

  lemma KidsLast(h: Shape, x: Node)
    requires Good(h) && x in h
    ensures h[x].kids == [] ==> h[x].last == null
  {
    hide Good;
    GoodAt(h, x);
  }

  lemma PrunedParent(h: Shape, g: Shape, x: Node)
    requires Pruned(h, g, x)
    ensures Good(g) && x in g && (g[x].parent != null ==> g[x].parent in g)
  {
    hide Good, Linked, Over;
    GoodAt(g, x);
  }

  // With its subtree gone, x goes too.
  lemma PrunedAway(h: Shape, g: Shape, x: Node)
    requires Pruned(h, g, x) && g[x].kids == []
    ensures var g' := Detached(g, x) - {x};
            Good(h) && g'.Keys == h.Keys - Subtree(h, x) && Good(g') && Kept(h, g', x)
  {
    hide Good, Linked, Attached, Over, Detached;
    KidsFirst(g, x);
    PrunedEnd(h, g, x);
    DetachedSpec(g, x);
    OverUp(h, x, x);
    LoneRemoved(Detached(g, x), x);
  }

  lemma LoneRemoved(h: Shape, x: Node)
    requires Good(h) && x in h && h[x].parent == null && h[x].kids == []
    ensures Good(h - {x})
  {
    hide Linked, Attached;
    var g := h - {x};
    forall n | n in g
      ensures Linked(g, n) && Attached(g, n)
    {
      hide Good;
      LoneRemovedAt(h, x, n);
    }
  }

  lemma LoneRemovedAt(h: Shape, x: Node, n: Node)
    requires Good(h) && x in h && h[x].parent == null && h[x].kids == [] && n in h && n != x
    ensures Linked(h - {x}, n) && Attached(h - {x}, n)
  {
    hide Good, Before, Behind, Distinct;
    var g := h - {x};
    GoodAt(h, n);
    NoKid(h, n, x);
    forall i | 0 <= i < |h[n].kids|
      ensures var k := h[n].kids[i]; k in g && g[k] == h[k]
    {
    }
  }
}
