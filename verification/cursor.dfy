/** The pull cursor both Reader generations extend (PHP's XMLReader), as a
    sequence of node records and a position. Position `|nodes|` is the state
    after the last node, where the node type is NONE and the depth 0.

    `Tree` and `TreeNodes` describe the node sequence a well-formed document
    fragment produces, so that properties of the decoders can be stated for
    every document. */
module Cursor {
  import opened Wrappers
  import opened Php

  /** XMLReader node types. `OtherNode` stands for the kinds no decoder here
      looks at (processing instructions, doctypes, entity references). */
  datatype NodeType =
    | NoneNode | ElementNode | TextNode | CDataNode | CommentNode
    | WhitespaceNode | SignificantWhitespaceNode | EndElementNode | OtherNode

  datatype Attribute = Attribute(ns: string, local: string, value: string)

  /** What the cursor shows on one node: `nodeType`, `namespaceURI`,
      `localName`, `value`, `depth`, `isEmptyElement` and the attributes that
      `moveToNextAttribute` walks through. */
  datatype Node = Node(
    kind: NodeType,
    ns: string,
    local: string,
    value: string,
    depth: nat,
    isEmpty: bool,
    attributes: seq<Attribute>)

  /** What the cursor reports past the end of input. */
  const NONE := Node(NoneNode, "", "", "", 0, false, [])

  /** The node under the cursor. */
  function At(nodes: seq<Node>, pos: nat): (n: Node)
    ensures pos >= |nodes| ==> n == NONE
  {
    if pos < |nodes| then nodes[pos] else NONE
  }

  /** `read()`: one node forward; past the end nothing moves. */
  function ReadPos(nodes: seq<Node>, pos: nat): (p: nat)
    requires pos <= |nodes|
    ensures p <= |nodes|
    ensures pos < |nodes| ==> p == pos + 1
    ensures pos == |nodes| ==> p == pos
  {
    if pos < |nodes| then pos + 1 else pos
  }

  /** The first position from `j` on whose depth is at most `d`; if it holds
      the end tag at depth `d`, the position after it. */
  function SkipSubtree(nodes: seq<Node>, j: nat, d: nat): (p: nat)
    requires j <= |nodes|
    ensures j <= p <= |nodes|
    ensures forall i :: j <= i < p - 1 ==> nodes[i].depth > d
    ensures p > j && nodes[p - 1].depth <= d ==> nodes[p - 1].kind == EndElementNode && nodes[p - 1].depth == d
    ensures p < |nodes| && (p == j || nodes[p - 1].depth > d) ==> nodes[p].depth <= d
    decreases |nodes| - j
  {
    if j == |nodes| then j
    else if nodes[j].depth <= d then
      if nodes[j].kind == EndElementNode && nodes[j].depth == d then j + 1 else j
    else SkipSubtree(nodes, j + 1, d)
  }

  /** `next()`: past the whole subtree of a non-empty element, otherwise the
      same as `read()`. */
  function NextPos(nodes: seq<Node>, pos: nat): (p: nat)
    requires pos <= |nodes|
    ensures p <= |nodes|
    ensures pos < |nodes| ==> p > pos
  {
    var n := At(nodes, pos);
    if n.kind == ElementNode && !n.isEmpty then SkipSubtree(nodes, pos + 1, n.depth)
    else ReadPos(nodes, pos)
  }

  /** A fragment of a document. `paired` marks an element written with a
      separate end tag, as in `<a></a>`; an element without children that
      is not paired is written self-closing, `<a/>`. Every node kind the
      cursor reports inside an element has a leaf: `SigWhitespace` is blank
      text XMLReader reports as significant whitespace, and `Other` a
      processing instruction, entity reference or any other kind. */
  datatype Tree =
    | Elem(ns: string, local: string, attributes: seq<Attribute>, children: seq<Tree>, paired: bool)
    | Text(text: string)
    | CData(text: string)
    | Whitespace(text: string)
    | SigWhitespace(text: string)
    | Comment(text: string)
    | Other(text: string)

  /** An element the cursor reports as a start tag and an end tag: one
      with children, or one written `<a></a>`. */
  predicate Open(t: Tree) {
    t.Elem? && (t.children != [] || t.paired)
  }

  /** The nodes a fragment at depth `d` produces. A self-closing element is
      reported as one node whose `isEmptyElement` is set. */
  function TreeNodes(t: Tree, d: nat): (r: seq<Node>)
    ensures |r| >= 1 && r[0].depth == d
    ensures r[0].kind == ElementNode <==> t.Elem?
    ensures r[0].kind != EndElementNode && r[0].kind != NoneNode
  {
    match t
    case Elem(ns, local, attrs, kids, paired) =>
      if kids == [] && !paired then [Node(ElementNode, ns, local, "", d, true, attrs)]
      else
        [Node(ElementNode, ns, local, "", d, false, attrs)]
        + ForestNodes(kids, d + 1)
        + [Node(EndElementNode, ns, local, "", d, false, [])]
    case Text(s) => [Node(TextNode, "", "", s, d, false, [])]
    case CData(s) => [Node(CDataNode, "", "", s, d, false, [])]
    case Whitespace(s) => [Node(WhitespaceNode, "", "", s, d, false, [])]
    case SigWhitespace(s) => [Node(SignificantWhitespaceNode, "", "", s, d, false, [])]
    case Comment(s) => [Node(CommentNode, "", "", s, d, false, [])]
    case Other(s) => [Node(OtherNode, "", "", s, d, false, [])]
  }

  /** The nodes of consecutive siblings at depth `d`. */
  function ForestNodes(f: seq<Tree>, d: nat): seq<Node> {
    if f == [] then [] else TreeNodes(f[0], d) + ForestNodes(f[1..], d)
  }

  /** Every node of a fragment at depth `d` is at depth `d` or below. */
  lemma {:induction false} TreeDepths(t: Tree, d: nat)
    ensures forall i :: 0 <= i < |TreeNodes(t, d)| ==> TreeNodes(t, d)[i].depth >= d
    decreases t, 1
  {
    if Open(t) {
      ForestDepths(t.children, d + 1);
      var start := [Node(ElementNode, t.ns, t.local, "", d, false, t.attributes)];
      var body := ForestNodes(t.children, d + 1);
      var end := [Node(EndElementNode, t.ns, t.local, "", d, false, [])];
      assert TreeNodes(t, d) == start + body + end;
    }
  }

  lemma {:induction false} ForestDepths(f: seq<Tree>, d: nat)
    ensures forall i :: 0 <= i < |ForestNodes(f, d)| ==> ForestNodes(f, d)[i].depth >= d
    decreases f, 2
  {
    if f != [] {
      TreeDepths(f[0], d);
      ForestDepths(f[1..], d);
    }
  }

  /** The number of nodes a fragment produces. */
  function Span(t: Tree): (n: nat)
    ensures n >= 1
    decreases t, 1
  {
    if Open(t) then ForestSpan(t.children) + 2 else 1
  }

  function ForestSpan(f: seq<Tree>): nat
    decreases f, 0
  {
    if f == [] then 0 else Span(f[0]) + ForestSpan(f[1..])
  }

  /** The first node of a fragment: its start tag (self-closing unless the
      element is `Open`) or its only node. */
  function First(t: Tree, d: nat): (n: Node)
    ensures n.kind == ElementNode <==> t.Elem?
    ensures n.kind != EndElementNode && n.kind != NoneNode && n.depth == d
  {
    match t
    case Elem(ns, local, attrs, kids, paired) => Node(ElementNode, ns, local, "", d, kids == [] && !paired, attrs)
    case Text(s) => Node(TextNode, "", "", s, d, false, [])
    case CData(s) => Node(CDataNode, "", "", s, d, false, [])
    case Whitespace(s) => Node(WhitespaceNode, "", "", s, d, false, [])
    case SigWhitespace(s) => Node(SignificantWhitespaceNode, "", "", s, d, false, [])
    case Comment(s) => Node(CommentNode, "", "", s, d, false, [])
    case Other(s) => Node(OtherNode, "", "", s, d, false, [])
  }

  /** The end tag of an element. */
  function Closing(t: Tree, d: nat): Node
    requires t.Elem?
  {
    Node(EndElementNode, t.ns, t.local, "", d, false, [])
  }

  /** Fragment `t` at depth `d` lies in `nodes` from position `p` on: the
      same node sequence as `TreeNodes(t, d)`, stated node by node. */
  predicate TreeAt(nodes: seq<Node>, p: nat, t: Tree, d: nat)
    decreases t, 1
  {
    p < |nodes| && nodes[p] == First(t, d)
    && (Open(t) ==>
          ForestAt(nodes, p + 1, t.children, d + 1)
          && p + 1 + ForestSpan(t.children) < |nodes|
          && nodes[p + 1 + ForestSpan(t.children)] == Closing(t, d))
  }

  /** Consecutive siblings `f` at depth `d` lie in `nodes` from `p` on. */
  predicate ForestAt(nodes: seq<Node>, p: nat, f: seq<Tree>, d: nat)
    decreases f, 0
  {
    if f == [] then p <= |nodes|
    else TreeAt(nodes, p, f[0], d) && ForestAt(nodes, p + Span(f[0]), f[1..], d)
  }

  /** A placed fragment fits in the nodes. */
  lemma {:induction false} TreeAtBound(nodes: seq<Node>, p: nat, t: Tree, d: nat)
    requires TreeAt(nodes, p, t, d)
    ensures p + Span(t) <= |nodes|
  {
  }

  lemma {:induction false} ForestAtBound(nodes: seq<Node>, p: nat, f: seq<Tree>, d: nat)
    requires ForestAt(nodes, p, f, d)
    ensures p + ForestSpan(f) <= |nodes|
    decreases |f|
  {
    if f != [] {
      TreeAtBound(nodes, p, f[0], d);
      ForestAtBound(nodes, p + Span(f[0]), f[1..], d);
    }
  }

  /** `Span` counts the nodes `TreeNodes` produces. */
  lemma {:induction false} SpanCounts(t: Tree, d: nat)
    ensures |TreeNodes(t, d)| == Span(t) && TreeNodes(t, d)[0] == First(t, d)
    decreases t, 1
  {
    if Open(t) {
      ForestSpanCounts(t.children, d + 1);
    }
  }

  lemma {:induction false} ForestSpanCounts(f: seq<Tree>, d: nat)
    ensures |ForestNodes(f, d)| == ForestSpan(f)
    decreases f, 2
  {
    if f != [] {
      SpanCounts(f[0], d);
      ForestSpanCounts(f[1..], d);
    }
  }

  /** A fragment's node sequence, wherever it occurs in the input, is that
      fragment at that place. */
  lemma {:induction false} TreeAtWithin(a: seq<Node>, t: Tree, d: nat, b: seq<Node>)
    ensures TreeAt(a + TreeNodes(t, d) + b, |a|, t, d)
    decreases t, 1
  {
    SpanCounts(t, d);
    var nodes := a + TreeNodes(t, d) + b;
    assert nodes[|a|] == TreeNodes(t, d)[0];
    if Open(t) {
      var body := ForestNodes(t.children, d + 1);
      var end := [Closing(t, d)];
      ForestSpanCounts(t.children, d + 1);
      assert nodes == (a + [First(t, d)]) + body + (end + b);
      ForestAtWithin(a + [First(t, d)], t.children, d + 1, end + b);
      assert nodes[|a| + 1 + |body|] == Closing(t, d);
    }
  }

  lemma {:induction false} ForestAtWithin(a: seq<Node>, f: seq<Tree>, d: nat, b: seq<Node>)
    ensures ForestAt(a + ForestNodes(f, d) + b, |a|, f, d)
    decreases f, 2
  {
    if f != [] {
      var head := TreeNodes(f[0], d);
      var rest := ForestNodes(f[1..], d);
      SpanCounts(f[0], d);
      assert a + ForestNodes(f, d) + b == a + head + (rest + b) == (a + head) + rest + b;
      TreeAtWithin(a, f[0], d, rest + b);
      ForestAtWithin(a + head, f[1..], d, b);
    }
  }

  /** Conversely, the nodes a fragment occupies are its node sequence. */
  lemma {:induction false} TreeAtSlice(nodes: seq<Node>, p: nat, t: Tree, d: nat)
    requires TreeAt(nodes, p, t, d)
    ensures p + Span(t) <= |nodes| && nodes[p..p + Span(t)] == TreeNodes(t, d)
    decreases t, 1
  {
    TreeAtBound(nodes, p, t, d);
    if Open(t) {
      var k := p + 1 + ForestSpan(t.children);
      ForestAtSlice(nodes, p + 1, t.children, d + 1);
      assert nodes[p..k + 1] == [nodes[p]] + nodes[p + 1..k] + [nodes[k]];
    } else {
      assert nodes[p..p + 1] == [nodes[p]];
    }
  }

  lemma {:induction false} ForestAtSlice(nodes: seq<Node>, p: nat, f: seq<Tree>, d: nat)
    requires ForestAt(nodes, p, f, d)
    ensures p + ForestSpan(f) <= |nodes| && nodes[p..p + ForestSpan(f)] == ForestNodes(f, d)
    decreases f, 2
  {
    ForestAtBound(nodes, p, f, d);
    if f != [] {
      var t, rest := f[0], f[1..];
      var k := p + Span(t);
      var e := k + ForestSpan(rest);
      assert e == p + ForestSpan(f);
      assert ForestNodes(f, d) == TreeNodes(t, d) + ForestNodes(rest, d);
      TreeAtSlice(nodes, p, t, d);
      ForestAtSlice(nodes, k, rest, d);
      assert nodes[p..e] == nodes[p..k] + nodes[k..e];
    }
  }

  /** Skipping over nodes deeper than `d` up to an end tag at depth `d`. */
  lemma {:induction false} SkipTo(nodes: seq<Node>, j: nat, d: nat, k: nat)
    requires j <= k < |nodes|
    requires forall i :: j <= i < k ==> nodes[i].depth > d
    requires nodes[k].kind == EndElementNode && nodes[k].depth == d
    ensures SkipSubtree(nodes, j, d) == k + 1
    decreases k - j
  {
    if j < k {
      SkipTo(nodes, j + 1, d, k);
    }
  }

  /** `next()` on an element of a fragment moves to the node after the
      fragment. */
  lemma NextOverTree(nodes: seq<Node>, p: nat, t: Tree, d: nat)
    requires t.Elem? && TreeAt(nodes, p, t, d)
    ensures NextPos(nodes, p) == p + Span(t)
  {
    if Open(t) {
      var k := p + 1 + ForestSpan(t.children);
      ForestAtSlice(nodes, p + 1, t.children, d + 1);
      var body := nodes[p + 1..k];
      ForestDepths(t.children, d + 1);
      forall i | p + 1 <= i < k
        ensures nodes[i].depth > d
      {
        assert nodes[i] == body[i - p - 1];
      }
      SkipTo(nodes, p + 1, d, k);
    }
  }

  /** The `Eater` element class of the test suite: `next()`, then `read()`
      until one end tag has gone by, then one more `read()`. It swallows the
      rest of the enclosing element. Past the end of input `read()` never
      reaches an end tag, so the loop there runs forever. */
  function EatLoop(nodes: seq<Node>, pos: nat, count: nat): (r: Result<nat>)
    requires pos <= |nodes|
    ensures r.Ok? ==> pos <= r.value <= |nodes|
    ensures r.Ok? && count > 0 ==> pos < r.value && At(nodes, r.value).kind == EndElementNode
    ensures r.Err? ==> r == Err(NeverTerminates)
    decreases |nodes| - pos
  {
    if count == 0 then Ok(pos)
    else if pos == |nodes| then Err(NeverTerminates)
    else EatLoop(nodes, pos + 1, if At(nodes, pos + 1).kind == EndElementNode then count - 1 else count)
  }

  function Eat(nodes: seq<Node>, pos: nat): (r: Result<nat>)
    requires pos <= |nodes|
    ensures r.Ok? ==> pos < r.value <= |nodes|
  {
    var start := NextPos(nodes, pos);
    if start == |nodes| then Err(NeverTerminates)
    else
      match EatLoop(nodes, start, 1)
      case Err(e) => Err(e)
      case Ok(p) => Ok(ReadPos(nodes, p))
  }

  /** The cursor object: fixed input, moving position. */
  class NodeCursor {
    const nodes: seq<Node>
    var pos: nat

    predicate Valid()
      reads this
    {
      pos <= |nodes|
    }

    function Current(): Node
      reads this
    {
      At(nodes, pos)
    }

    /** A fresh cursor on its first node, which is where the first `read()`
        of the skip-to-root loops puts it. */
    constructor (input: seq<Node>)
      ensures nodes == input && pos == 0 && Valid()
    {
      nodes, pos := input, 0;
    }

    /** `read()`: true when the cursor is now on a node. */
    method Read() returns (ok: bool)
      requires Valid()
      modifies this
      ensures Valid() && pos == ReadPos(nodes, old(pos))
      ensures ok <==> pos < |nodes|
    {
      if pos < |nodes| {
        pos := pos + 1;
      }
      ok := pos < |nodes|;
    }

    /** `next()`: true when the cursor is now on a node. */
    method Next() returns (ok: bool)
      requires Valid()
      modifies this
      ensures Valid() && pos == NextPos(nodes, old(pos))
      ensures ok <==> pos < |nodes|
    {
      var n := Current();
      if n.kind == ElementNode && !n.isEmpty {
        var j := pos + 1;
        while j < |nodes| && nodes[j].depth > n.depth
          invariant pos < j <= |nodes|
          invariant SkipSubtree(nodes, j, n.depth) == SkipSubtree(nodes, pos + 1, n.depth)
          decreases |nodes| - j
        {
          j := j + 1;
        }
        if j < |nodes| && nodes[j].kind == EndElementNode && nodes[j].depth == n.depth {
          j := j + 1;
        }
        pos := j;
      } else if pos < |nodes| {
        pos := pos + 1;
      }
      ok := pos < |nodes|;
    }
  }

  /** `Eater::deserializeXml` run on a cursor. The counting loop is bounded
      by the end of input, where the source would go on forever. */
  method EatElement(c: NodeCursor) returns (r: Result<nat>)
    requires c.Valid()
    modifies c
    ensures c.Valid()
    ensures r == Eat(c.nodes, old(c.pos))
    ensures r.Ok? ==> c.pos == r.value
  {
    var _ := c.Next();
    if c.pos == |c.nodes| {
      return Err(NeverTerminates);
    }
    var count: nat := 1;
    while count > 0 && c.pos < |c.nodes|
      invariant c.Valid()
      invariant EatLoop(c.nodes, c.pos, count) == EatLoop(c.nodes, NextPos(c.nodes, old(c.pos)), 1)
      decreases |c.nodes| - c.pos
    {
      var _ := c.Read();
      if c.Current().kind == EndElementNode {
        count := count - 1;
      }
    }
    if count > 0 {
      return Err(NeverTerminates);
    }
    var _ := c.Read();
    return Ok(c.pos);
  }
}
