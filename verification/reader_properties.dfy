/** What the current Reader does on well-formed input: generic decoding of
    any document tree, `namespaceAware` on any tree, `readText`, `parse`,
    attribute handling, and the guard against handlers that read too far. */
module ReaderProperties {
  import opened Wrappers
  import opened Php
  import opened Clark
  import opened Cursor
  import opened ContextStack
  import opened Reader

  // ---------------------------------------------------------------------
  // Attributes

  /** Attribute `i` is the last one kept under key `k`. */
  predicate LastUnder(attrs: seq<Attribute>, k: string, i: int) {
    0 <= i < |attrs| && !Declaration(attrs[i]) && AttributeKey(attrs[i]) == k
    && forall j :: i < j < |attrs| ==> Declaration(attrs[j]) || AttributeKey(attrs[j]) != k
  }

  /** Each key holds the value of the last attribute stored under it
      (namespaced ones under their Clark name, the rest under their local
      name). */
  lemma {:induction false} AttributesLastWins(attrs: seq<Attribute>, k: string, i: int)
    requires LastUnder(attrs, k, i)
    ensures Get(AttributesOf(attrs), k) == Some(attrs[i].value)
    decreases |attrs|
  {
    var n := |attrs|;
    var init := attrs[..n - 1];
    var a := attrs[n - 1];
    if i == n - 1 {
      PutGet(AttributesOf(init), k, a.value, k);
    } else {
      assert LastUnder(init, k, i) by {
        forall j | i < j < |init| ensures Declaration(init[j]) || AttributeKey(init[j]) != k {
          assert init[j] == attrs[j];
        }
      }
      AttributesLastWins(init, k, i);
      if !Declaration(a) {
        PutGet(AttributesOf(init), AttributeKey(a), a.value, k);
      }
    }
  }

  /** A key under which no attribute is kept is absent: in particular
      `xmlns` declarations never appear. */
  lemma {:induction false} AttributesAbsent(attrs: seq<Attribute>, k: string)
    requires forall j :: 0 <= j < |attrs| ==> Declaration(attrs[j]) || AttributeKey(attrs[j]) != k
    ensures Get(AttributesOf(attrs), k).None?
    decreases |attrs|
  {
    if attrs != [] {
      var n := |attrs|;
      var init := attrs[..n - 1];
      var a := attrs[n - 1];
      assert forall j :: 0 <= j < |init| ==> init[j] == attrs[j];
      AttributesAbsent(init, k);
      if !Declaration(a) {
        PutGet(AttributesOf(init), AttributeKey(a), a.value, k);
      }
    }
  }

  /** The key of an attribute: Clark notation when it has a namespace, the
      bare local name when it has none. */
  lemma AttributeKeyForm(a: Attribute)
    ensures Truthy(a.ns) && Truthy(a.local) ==> AttributeKey(a) == Format(QName(a.ns, a.local))
    ensures !Truthy(a.ns) ==> AttributeKey(a) == a.local
  {
  }

  // ---------------------------------------------------------------------
  // Generic decoding

  /** No element of the tree has a handler, and every element has a local
      name (which XML requires). */
  predicate Generic(t: Tree, em: map<string, Handler>)
    decreases t, 1
  {
    t.Elem? ==>
      Truthy(t.local) && Format(QName(t.ns, t.local)) !in em && AllGeneric(t.children, em)
  }

  /** Every tree of a sibling list is `Generic`. */
  predicate AllGeneric(f: seq<Tree>, em: map<string, Handler>)
    decreases f, 0
  {
    f == [] || (Generic(f[0], em) && AllGeneric(f[1..], em))
  }

  /** The record generic decoding gives for an element, defined on the tree
      instead of the node stream. */
  function GenericRecord(t: Tree): Record
    requires t.Elem?
    decreases t
  {
    Record(Some(Format(QName(t.ns, t.local))), GenericValue(t.children), AttributesOf(t.attributes))
  }

  /** The value of an element with these children: null when it has none,
      the list of child records when any child is an element, otherwise the
      text and CDATA joined, or null when there is none. */
  function GenericValue(kids: seq<Tree>): Value
    decreases kids, 1
  {
    if kids == [] then Null else Combine(ChildRecords(kids), ChildText(None, kids))
  }

  function ChildRecords(kids: seq<Tree>): seq<Record>
    decreases kids, 0
  {
    if kids == [] then []
    else (if kids[0].Elem? then [GenericRecord(kids[0])] else []) + ChildRecords(kids[1..])
  }

  function ChildText(acc: Option<string>, kids: seq<Tree>): Option<string>
    decreases |kids|
  {
    if kids == [] then acc
    else ChildText(LeafText(acc, kids[0]), kids[1..])
  }

  /** The text gathered after a child that is not an element: text and
      CDATA are appended, anything else leaves it alone. */
  function LeafText(acc: Option<string>, c: Tree): Option<string> {
    if c.Text? || c.CData? then Append(acc, c.text) else acc
  }

  /** One round of the `parseInnerTree` loop on a start tag: the child
      record is appended and the loop goes on where the child left off. */
  lemma LoopOnElement(nodes: seq<Node>, st: RState, elements: seq<Record>, text: Option<string>, s: Step<Record>)
    requires st.pos <= |nodes| && At(nodes, st.pos).kind == ElementNode
    requires CurrentElement(nodes, st) == Ok(s)
    ensures s.state.pos <= |nodes|
    ensures InnerLoop(nodes, st, elements, text) == InnerLoop(nodes, s.state, elements + [s.value], text)
  {
  }

  /** One round of the loop on any other node but an end tag. */
  lemma LoopOnOther(nodes: seq<Node>, st: RState, elements: seq<Record>, text: Option<string>)
    requires st.pos < |nodes|
    requires nodes[st.pos].kind != ElementNode && nodes[st.pos].kind != EndElementNode && nodes[st.pos].kind != NoneNode
    ensures InnerLoop(nodes, st, elements, text)
         == InnerLoop(nodes, st.(pos := st.pos + 1), elements,
              if nodes[st.pos].kind == TextNode || nodes[st.pos].kind == CDataNode
              then Append(text, nodes[st.pos].value) else text)
  {
  }

  /** The same round, on the one node of a fragment that is not an element. */
  lemma LoopOverLeaf(nodes: seq<Node>, p: nat, ctx: Context<Handler>, t: Tree, d: nat, elements: seq<Record>, text: Option<string>,
                      r: Result<Step<Value>>)
    requires !t.Elem? && TreeAt(nodes, p, t, d)
    requires LoopGives(nodes, RState(p + Span(t), ctx), elements, LeafText(text, t), r)
    ensures LoopGives(nodes, RState(p, ctx), elements, text, r)
  {
    LoopOnOther(nodes, RState(p, ctx), elements, text);
  }

  /** The same round, on a whole fragment that is an element without
      handlers: its record is appended and the loop goes on after it. */
  lemma ElementInLoop(nodes: seq<Node>, p: nat, t: Tree, d: nat, ctx: Context<Handler>,
                      elements: seq<Record>, text: Option<string>)
    requires t.Elem? && Generic(t, ctx.current.elementMap)
    requires TreeAt(nodes, p, t, d)
    ensures LoopStep(nodes, RState(p, ctx), elements, text, RState(p + Span(t), ctx), elements + [GenericRecord(t)], text)
    decreases Span(t), 4
  {
    DecodeElement(nodes, p, t, d, ctx);
    LoopOnElement(nodes, RState(p, ctx), elements, text, Step(GenericRecord(t), RState(p + Span(t), ctx)));
  }

  /** The loop at the end of input: the premature-end `ParseException`. */
  lemma LoopHitsEnd(nodes: seq<Node>, st: RState, elements: seq<Record>, text: Option<string>)
    requires st.pos == |nodes|
    ensures InnerLoop(nodes, st, elements, text) == Err(ParseError(PREMATURE_END))
  {
  }

  /** One round of the `parseInnerTree` loop leads from state `st` with the
      children and text gathered so far to state `st'`: the loop gives the
      same result from either. */
  predicate LoopStep(nodes: seq<Node>, st: RState, elements: seq<Record>, text: Option<string>,
                     st': RState, elements': seq<Record>, text': Option<string>) {
    st.pos <= |nodes| && st'.pos <= |nodes|
    && InnerLoop(nodes, st, elements, text) == InnerLoop(nodes, st', elements', text')
  }

  /** The loop on an end tag: it stops just past it. */
  lemma LoopOnEnd(nodes: seq<Node>, st: RState, elements: seq<Record>, text: Option<string>)
    requires st.pos <= |nodes| && At(nodes, st.pos).kind == EndElementNode
    ensures InnerLoop(nodes, st, elements, text) == Ok(Step(Combine(elements, text), st.(pos := st.pos + 1)))
  {
  }

  /** `parseInnerTree` on a start tag that is not self-closing and not the
      last node: the loop runs inside the entered context, which is left
      afterwards. */
  lemma InnerTreeOpen(nodes: seq<Node>, st: RState, m: Option<map<string, Handler>>, v: Value, q: nat)
    requires st.pos + 1 < |nodes| && nodes[st.pos].kind == ElementNode && !nodes[st.pos].isEmpty
    requires LoopGives(nodes, RState(st.pos + 1, Enter(st.ctx, m)), [], None, Ok(Step(v, RState(q, Enter(st.ctx, m)))))
    requires Leave(Enter(st.ctx, m), m) == st.ctx
    ensures TreeGives(nodes, st, m, Ok(Step(v, RState(q, st.ctx))))
  {
  }

  /** `parseInnerTree($map)`, started in state `st`, gives `r`. */
  predicate TreeGives(nodes: seq<Node>, st: RState, m: Option<map<string, Handler>>, r: Result<Step<Value>>) {
    st.pos <= |nodes| && InnerTree(nodes, st, m) == r
  }

  /** Generic decoding of an element: `parseCurrentElement` on the nodes of
      any tree without handlers yields the tree's record and moves the
      cursor just past the tree, leaving the context as it was. */
  lemma DecodeElement(nodes: seq<Node>, p: nat, t: Tree, d: nat, ctx: Context<Handler>)
    requires t.Elem? && Generic(t, ctx.current.elementMap)
    requires TreeAt(nodes, p, t, d)
    ensures CurrentElement(nodes, RState(p, ctx))
         == Ok(Step(GenericRecord(t), RState(p + Span(t), ctx)))
    decreases Span(t), 3
  {
    var st := RState(p, ctx);
    var n := At(nodes, p);
    assert n.kind == ElementNode && n.ns == t.ns && n.local == t.local && n.attributes == t.attributes;
    assert ClarkOf(n) == Some(Format(QName(t.ns, t.local)));
    CurrentElementIs(nodes, st, None);
    InnerTreeDecodes(nodes, p, t, d, ctx, None);
  }

  /** `parseInnerTree($map)` on the nodes of an element whose children have
      no handlers in the map in force inside it: the generic value of the
      children, the cursor just past the element and the caller's context
      given back. */
  lemma {:induction false} InnerTreeDecodes(nodes: seq<Node>, p: nat, t: Tree, d: nat, ctx: Context<Handler>,
                                            m: Option<map<string, Handler>>)
    requires t.Elem? && AllGeneric(t.children, Enter(ctx, m).current.elementMap)
    requires TreeAt(nodes, p, t, d)
    ensures TreeGives(nodes, RState(p, ctx), m, Ok(Step(GenericValue(t.children), RState(p + Span(t), ctx))))
    decreases Span(t), 2
  {
    if Open(t) {
      InnerTreeOfChildren(nodes, p, t, d, ctx, m);
    }
  }

  /** The same on an element with an end tag: the loop over its children
      runs inside the entered context. */
  lemma {:induction false} InnerTreeOfChildren(nodes: seq<Node>, p: nat, t: Tree, d: nat, ctx: Context<Handler>,
                                               m: Option<map<string, Handler>>)
    requires Open(t) && AllGeneric(t.children, Enter(ctx, m).current.elementMap)
    requires TreeAt(nodes, p, t, d)
    ensures TreeGives(nodes, RState(p, ctx), m, Ok(Step(GenericValue(t.children), RState(p + Span(t), ctx))))
    decreases Span(t), 1
  {
    ChildrenLoop(nodes, p, t, d, Enter(ctx, m));
    LeaveEnter(ctx, m);
    InnerTreeOpen(nodes, RState(p, ctx), m, GenericValue(t.children), p + Span(t));
  }

  /** The loop over the children of an element without handlers, inside
      the context `inner`: their generic value, and the cursor just past the
      element's end tag. */
  lemma {:induction false} ChildrenLoop(nodes: seq<Node>, p: nat, t: Tree, d: nat, inner: Context<Handler>)
    requires Open(t) && AllGeneric(t.children, inner.current.elementMap)
    requires TreeAt(nodes, p, t, d)
    ensures p + 1 < |nodes| && nodes[p].kind == ElementNode && !nodes[p].isEmpty
    ensures LoopGives(nodes, RState(p + 1, inner), [], None, Ok(Step(GenericValue(t.children), RState(p + Span(t), inner))))
    decreases Span(t), 0
  {
    ChildrenPlaced(nodes, p, t, d, inner.current.elementMap);
    DecodeChildren(nodes, p + 1, t.children, d, inner, [], None);
    ChildrenOutcomeWhole(p, t, d, inner);
  }


  /** The outcome of the loop over all the children of an element, from the
      node after its start tag, inside the entered context. */
  lemma ChildrenOutcomeWhole(p: nat, t: Tree, d: nat, c: Context<Handler>)
    requires Open(t)
    ensures ChildrenOutcome(p + 1, t.children, d, c, [], None)
         == Ok(Step(GenericValue(t.children), RState(p + Span(t), c)))
  {
    assert [] + ChildRecords(t.children) == ChildRecords(t.children);
  }

  /** Leaving a context gives back the one that was entered from. */
  lemma LeaveEnter(ctx: Context<Handler>, m: Option<map<string, Handler>>)
    ensures Leave(Enter(ctx, m), m) == ctx
  {
  }

  /** `parseCurrentElement` is the record around the dispatched value. */
  lemma CurrentElementIs(nodes: seq<Node>, st: RState, h: Option<Handler>)
    requires st.pos <= |nodes|
    requires h == HandlerFor(st.ctx.current.elementMap, ClarkOf(At(nodes, st.pos)))
    ensures CurrentElement(nodes, st)
         == match Dispatch(nodes, st, h)
            case Err(e) => Err(e)
            case Ok(s) => Ok(Step(Record(ClarkOf(At(nodes, st.pos)), s.value, AttributesOf(At(nodes, st.pos).attributes)), s.state))
  {
  }

  /** A sibling list without handlers lies at `p`, tree after tree, and the
      parent's end tag follows it. */
  predicate Siblings(nodes: seq<Node>, p: nat, f: seq<Tree>, d: nat, em: map<string, Handler>)
    decreases |f|
  {
    if f == [] then At(nodes, p).kind == EndElementNode
    else Generic(f[0], em) && TreeAt(nodes, p, f[0], d)
         && Siblings(nodes, p + Span(f[0]), f[1..], d, em)
  }

  /** The children of a placed element without handlers are such a list. */
  lemma {:induction false} SiblingsIntro(nodes: seq<Node>, p: nat, f: seq<Tree>, d: nat, em: map<string, Handler>)
    requires AllGeneric(f, em) && ForestAt(nodes, p, f, d)
    requires At(nodes, p + ForestSpan(f)).kind == EndElementNode
    ensures Siblings(nodes, p, f, d, em)
    decreases |f|
  {
    if f != [] {
      SiblingsIntro(nodes, p + Span(f[0]), f[1..], d, em);
    }
  }

  /** The first tree of a sibling list and where the rest begins. */
  lemma SiblingsHead(nodes: seq<Node>, p: nat, f: seq<Tree>, d: nat, em: map<string, Handler>)
    requires f != [] && Siblings(nodes, p, f, d, em)
    ensures Generic(f[0], em) && TreeAt(nodes, p, f[0], d)
    ensures Siblings(nodes, p + Span(f[0]), f[1..], d, em)
    ensures ForestSpan(f) == Span(f[0]) + ForestSpan(f[1..])
  {
  }

  /** The end tag closing a sibling list lies within the nodes. */
  lemma {:induction false} SiblingsBound(nodes: seq<Node>, p: nat, f: seq<Tree>, d: nat, em: map<string, Handler>)
    requires Siblings(nodes, p, f, d, em)
    ensures p + ForestSpan(f) < |nodes|
    decreases |f|
  {
    if f != [] {
      SiblingsBound(nodes, p + Span(f[0]), f[1..], d, em);
    }
  }

  /** The children of a placed element with an end tag, without handlers:
      a sibling list after the start tag. */
  lemma ChildrenPlaced(nodes: seq<Node>, p: nat, t: Tree, d: nat, em: map<string, Handler>)
    requires Open(t) && AllGeneric(t.children, em)
    requires TreeAt(nodes, p, t, d)
    ensures p + Span(t) <= |nodes| && Span(t) == ForestSpan(t.children) + 2
    ensures p < |nodes| && nodes[p].kind == ElementNode && !nodes[p].isEmpty
    ensures Siblings(nodes, p + 1, t.children, d + 1, em)
  {
    TreeAtBound(nodes, p, t, d);
    SiblingsIntro(nodes, p + 1, t.children, d + 1, em);
  }

  /** The loop of `parseInnerTree`, started in state `st` with the children
      and text gathered so far, gives `r`. */
  predicate LoopGives(nodes: seq<Node>, st: RState, elements: seq<Record>, text: Option<string>, r: Result<Step<Value>>) {
    st.pos <= |nodes| && InnerLoop(nodes, st, elements, text) == r
  }

  /** A round of the loop that leads to a state whose outcome is known has
      that outcome too. */
  lemma LoopGoesOn(nodes: seq<Node>, st: RState, elements: seq<Record>, text: Option<string>,
                   st': RState, elements': seq<Record>, text': Option<string>, r: Result<Step<Value>>)
    requires LoopStep(nodes, st, elements, text, st', elements', text') && LoopGives(nodes, st', elements', text', r)
    ensures LoopGives(nodes, st, elements, text, r)
  {
  }

  /** The loop's result on a sibling list followed by the parent's end tag. */
  function ChildrenOutcome(p: nat, f: seq<Tree>, d: nat, ctx: Context<Handler>,
                           elements: seq<Record>, text: Option<string>): Result<Step<Value>>
  {
    Ok(Step(Combine(elements + ChildRecords(f), ChildText(text, f)), RState(p + ForestSpan(f) + 1, ctx)))
  }

  /** The outcome on an empty list: the parent's end tag closes the loop. */
  lemma ChildrenOutcomeEnd(p: nat, d: nat, ctx: Context<Handler>, elements: seq<Record>, text: Option<string>)
    ensures ChildrenOutcome(p, [], d, ctx, elements, text) == Ok(Step(Combine(elements, text), RState(p + 1, ctx)))
  {
    assert elements + ChildRecords([]) == elements;
  }

  /** The outcome is unchanged by moving the first tree of the list, an
      element, into the records gathered so far. */
  lemma ChildrenOutcomeRecord(p: nat, f: seq<Tree>, d: nat, ctx: Context<Handler>,
                              elements: seq<Record>, text: Option<string>)
    requires f != [] && f[0].Elem?
    ensures ChildrenOutcome(p + Span(f[0]), f[1..], d, ctx, elements + [GenericRecord(f[0])], text)
         == ChildrenOutcome(p, f, d, ctx, elements, text)
  {
    assert elements + ChildRecords(f) == (elements + [GenericRecord(f[0])]) + ChildRecords(f[1..]);
  }

  /** The outcome is unchanged by moving the first tree of the list, any
      other tree, into the text gathered so far. */
  lemma ChildrenOutcomeSkip(p: nat, f: seq<Tree>, d: nat, ctx: Context<Handler>,
                            elements: seq<Record>, text: Option<string>)
    requires f != [] && !f[0].Elem?
    ensures ChildrenOutcome(p + Span(f[0]), f[1..], d, ctx, elements,
                            LeafText(text, f[0]))
         == ChildrenOutcome(p, f, d, ctx, elements, text)
  {
    assert ChildRecords(f) == ChildRecords(f[1..]);
  }

  /** The loop of `parseInnerTree` over the nodes of a sibling list and the
      parent's end tag: child records are appended in document order, text
      and CDATA are appended to the text, everything else is stepped over. */
  lemma {:induction false} DecodeChildren(nodes: seq<Node>, p: nat, f: seq<Tree>, d: nat, ctx: Context<Handler>,
                                          elements: seq<Record>, text: Option<string>)
    requires Siblings(nodes, p, f, d + 1, ctx.current.elementMap)
    ensures LoopGives(nodes, RState(p, ctx), elements, text, ChildrenOutcome(p, f, d, ctx, elements, text))
    decreases ForestSpan(f), 6
  {
    if f == [] {
      LoopOnEnd(nodes, RState(p, ctx), elements, text);
      ChildrenOutcomeEnd(p, d, ctx, elements, text);
    } else {
      if f[0].Elem? {
        ChildrenFromElement(nodes, p, f, d, ctx, elements, text);
      } else {
        ChildrenFromLeaf(nodes, p, f, d, ctx, elements, text);
      }
    }
  }

  /** The loop on a sibling list whose first tree is an element. */
  lemma {:induction false} ChildrenFromElement(nodes: seq<Node>, p: nat, f: seq<Tree>, d: nat, ctx: Context<Handler>,
                                               elements: seq<Record>, text: Option<string>)
    requires f != [] && f[0].Elem?
    requires Siblings(nodes, p, f, d + 1, ctx.current.elementMap)
    ensures LoopGives(nodes, RState(p, ctx), elements, text, ChildrenOutcome(p, f, d, ctx, elements, text))
    decreases ForestSpan(f), 5
  {
    SiblingsHead(nodes, p, f, d + 1, ctx.current.elementMap);
    ElementInLoop(nodes, p, f[0], d + 1, ctx, elements, text);
    ChildrenAfterElement(nodes, p, f, d, ctx, elements, text);
    LoopGoesOn(nodes, RState(p, ctx), elements, text,
               RState(p + Span(f[0]), ctx), elements + [GenericRecord(f[0])], text,
               ChildrenOutcome(p, f, d, ctx, elements, text));
  }

  /** The loop on a sibling list whose first tree is a single node. */
  lemma {:induction false} ChildrenFromLeaf(nodes: seq<Node>, p: nat, f: seq<Tree>, d: nat, ctx: Context<Handler>,
                                            elements: seq<Record>, text: Option<string>)
    requires f != [] && !f[0].Elem?
    requires Siblings(nodes, p, f, d + 1, ctx.current.elementMap)
    ensures LoopGives(nodes, RState(p, ctx), elements, text, ChildrenOutcome(p, f, d, ctx, elements, text))
    decreases ForestSpan(f), 5
  {
    var t, r := f[0], ChildrenOutcome(p, f, d, ctx, elements, text);
    SiblingsHead(nodes, p, f, d + 1, ctx.current.elementMap);
    ChildrenAfterLeaf(nodes, p, f, d, ctx, elements, text);
    LoopOverLeaf(nodes, p, ctx, t, d + 1, elements, text, r);
  }

  /** The loop from the second tree of a sibling list on, once the first
      tree, an element, has been decoded: the outcome on the whole list. */
  lemma {:induction false} ChildrenAfterElement(nodes: seq<Node>, p: nat, f: seq<Tree>, d: nat, ctx: Context<Handler>,
                                                elements: seq<Record>, text: Option<string>)
    requires f != [] && f[0].Elem?
    requires Siblings(nodes, p, f, d + 1, ctx.current.elementMap)
    ensures LoopGives(nodes, RState(p + Span(f[0]), ctx), elements + [GenericRecord(f[0])], text,
                      ChildrenOutcome(p, f, d, ctx, elements, text))
    decreases ForestSpan(f), 4
  {
    SiblingsHead(nodes, p, f, d + 1, ctx.current.elementMap);
    DecodeChildren(nodes, p + Span(f[0]), f[1..], d, ctx, elements + [GenericRecord(f[0])], text);
    ChildrenOutcomeRecord(p, f, d, ctx, elements, text);
  }

  /** The same once the first tree, a single node, has been read past. */
  lemma {:induction false} ChildrenAfterLeaf(nodes: seq<Node>, p: nat, f: seq<Tree>, d: nat, ctx: Context<Handler>,
                                             elements: seq<Record>, text: Option<string>)
    requires f != [] && !f[0].Elem?
    requires Siblings(nodes, p, f, d + 1, ctx.current.elementMap)
    ensures LoopGives(nodes, RState(p + Span(f[0]), ctx), elements, LeafText(text, f[0]),
                      ChildrenOutcome(p, f, d, ctx, elements, text))
    decreases ForestSpan(f), 4
  {
    SiblingsHead(nodes, p, f, d + 1, ctx.current.elementMap);
    DecodeChildren(nodes, p + Span(f[0]), f[1..], d, ctx, elements, LeafText(text, f[0]));
    ChildrenOutcomeSkip(p, f, d, ctx, elements, text);
  }

  /** With an element map given, `parseInnerTree($map)` decodes the subtree
      under that map and gives the caller's context back afterwards. */
  lemma InnerTreeWithMap(nodes: seq<Node>, p: nat, t: Tree, d: nat, ctx: Context<Handler>, em: map<string, Handler>)
    requires t.Elem?
    requires AllGeneric(t.children, em)
    requires TreeAt(nodes, p, t, d)
    ensures InnerTree(nodes, RState(p, ctx), Some(em))
         == Ok(Step(GenericValue(t.children), RState(p + Span(t), ctx)))
  {
    InnerTreeDecodes(nodes, p, t, d, ctx, Some(em));
  }


  /** The early `return false` of `parseInnerTree`: when the input ends right
      after a start tag the pushed context is never popped. */
  lemma UnclosedElementKeepsPush(nodes: seq<Node>, st: RState, em: map<string, Handler>)
    requires st.pos + 1 == |nodes|
    requires nodes[st.pos].kind == ElementNode && !nodes[st.pos].isEmpty
    ensures InnerTree(nodes, st, Some(em)) == Ok(Step(False, RState(|nodes|, st.ctx.Push().(current := st.ctx.current.(elementMap := em)))))
    ensures |InnerTree(nodes, st, Some(em)).value.state.ctx.saved| == |st.ctx.saved| + 1
  {
  }

  // ---------------------------------------------------------------------
  // namespaceAware

  /** The key namespaceAware gives a child element. */
  function ChildKey(c: Tree, namespace: string): string
    requires c.Elem?
  {
    if c.ns == namespace then c.local else Format(QName(c.ns, c.local))
  }

  /** What one tree adds to the map namespaceAware builds: an element child
      is written under its key, overwriting an earlier one. */
  function NamespacedStep(namespace: string, c: Tree, acc: seq<Entry<Value>>): seq<Entry<Value>> {
    if c.Elem? then Put(acc, ChildKey(c, namespace), GenericRecord(c).value) else acc
  }

  /** The map namespaceAware builds from a sibling list, as a fold over the
      trees. */
  function NamespacedEntries(namespace: string, kids: seq<Tree>, acc: seq<Entry<Value>>): seq<Entry<Value>> {
    if kids == [] then acc
    else NamespacedEntries(namespace, kids[1..], NamespacedStep(namespace, kids[0], acc))
  }

  /** `namespaceAware` on any element whose children have no handlers,
      other than one written as an empty pair `<a></a>` (see
      `NamespaceAwareReadsPastEmptyPair`): the children keyed by local name
      (in the given namespace) or Clark name (otherwise), and the cursor just
      past the element. */
  lemma NamespaceAwareTree(nodes: seq<Node>, p: nat, t: Tree, d: nat, ctx: Context<Handler>, namespace: string)
    requires t.Elem? && (t.paired ==> t.children != [])
    requires AllGeneric(t.children, ctx.current.elementMap)
    requires TreeAt(nodes, p, t, d)
    ensures NamespaceAware(nodes, RState(p, ctx), namespace)
         == Ok(Step(NamespacedEntries(namespace, t.children, []), RState(p + Span(t), ctx)))
  {
    if t.children != [] {
      NamespaceAwareOfChildren(nodes, p, t, d, ctx, namespace);
    }
  }

  /** The same on an element with children: the loop runs over them. */
  lemma NamespaceAwareOfChildren(nodes: seq<Node>, p: nat, t: Tree, d: nat, ctx: Context<Handler>, namespace: string)
    requires t.Elem? && t.children != []
    requires AllGeneric(t.children, ctx.current.elementMap)
    requires TreeAt(nodes, p, t, d)
    ensures NamespaceAware(nodes, RState(p, ctx), namespace)
         == Ok(Step(NamespacedEntries(namespace, t.children, []), RState(p + Span(t), ctx)))
  {
    NamespaceChildrenLoop(nodes, p, t, d, ctx, namespace);
    NamespaceAwareOpen(nodes, RState(p, ctx), namespace,
                       Ok(Step(NamespacedEntries(namespace, t.children, []), RState(p + Span(t), ctx))));
  }

  /** The do-while loop of `namespaceAware` over the children of an element
      without handlers. */
  lemma NamespaceChildrenLoop(nodes: seq<Node>, p: nat, t: Tree, d: nat, ctx: Context<Handler>, namespace: string)
    requires t.Elem? && t.children != []
    requires AllGeneric(t.children, ctx.current.elementMap)
    requires TreeAt(nodes, p, t, d)
    ensures p < |nodes| && !nodes[p].isEmpty
    ensures NamespaceLoopGives(nodes, RState(p + 1, ctx), namespace, [],
                               Ok(Step(NamespacedEntries(namespace, t.children, []), RState(p + Span(t), ctx))))
  {
    ChildrenPlaced(nodes, p, t, d, ctx.current.elementMap);
    NamespaceChildren(nodes, p + 1, t.children, d, ctx, namespace, []);
    NamespaceOutcomeWhole(p, t, d, ctx, namespace);
  }

  /** The outcome of the loop over all the children of an element. */
  lemma NamespaceOutcomeWhole(p: nat, t: Tree, d: nat, ctx: Context<Handler>, namespace: string)
    requires t.Elem? && t.children != []
    ensures NamespaceOutcome(p + 1, t.children, d, ctx, namespace, [])
         == Ok(Step(NamespacedEntries(namespace, t.children, []), RState(p + Span(t), ctx)))
  {
  }

  /** `namespaceAware` on a start tag that is not self-closing: the result
      of the loop from the next node on. */
  lemma NamespaceAwareOpen(nodes: seq<Node>, st: RState, namespace: string, r: Result<Step<seq<Entry<Value>>>>)
    requires st.pos < |nodes| && !nodes[st.pos].isEmpty
    requires NamespaceLoopGives(nodes, st.(pos := st.pos + 1), namespace, [], r)
    ensures NamespaceAware(nodes, st, namespace) == r
  {
  }

  /** The loop body of `namespaceAware` on an element: its value goes in
      under the element's key. */
  lemma NamespaceBodyOnElement(nodes: seq<Node>, st: RState, namespace: string, values: seq<Entry<Value>>, s: Step<Record>)
    requires st.pos < |nodes| && nodes[st.pos].kind == ElementNode
    requires CurrentElement(nodes, st) == Ok(s)
    ensures NamespaceBody(nodes, st, namespace, values)
         == Ok(Step(Put(values, NamespacedKey(nodes[st.pos], namespace), s.value.value), s.state))
  {
  }

  /** The loop body on any other node: read past it. */
  lemma NamespaceBodyOnOther(nodes: seq<Node>, st: RState, namespace: string, values: seq<Entry<Value>>)
    requires st.pos < |nodes| && nodes[st.pos].kind != ElementNode
    ensures NamespaceBody(nodes, st, namespace, values) == Ok(Step(values, st.(pos := st.pos + 1)))
  {
  }

  /** One round of the do-while that ends on an end tag. */
  lemma NamespaceRoundEnds(nodes: seq<Node>, st: RState, namespace: string, values: seq<Entry<Value>>,
                           b: Step<seq<Entry<Value>>>)
    requires BodyGives(nodes, st, namespace, values, Ok(b))
    requires At(nodes, b.state.pos).kind == EndElementNode
    ensures NamespaceLoopGives(nodes, st, namespace, values, Ok(Step(b.value, b.state.(pos := b.state.pos + 1))))
  {
  }

  /** One round of the do-while that goes on with the next one. */
  lemma NamespaceRoundGoesOn(nodes: seq<Node>, st: RState, namespace: string, values: seq<Entry<Value>>,
                             b: Step<seq<Entry<Value>>>, r: Result<Step<seq<Entry<Value>>>>)
    requires BodyGives(nodes, st, namespace, values, Ok(b))
    requires At(nodes, b.state.pos).kind != EndElementNode
    requires NamespaceLoopGives(nodes, b.state, namespace, b.value, r)
    ensures NamespaceLoopGives(nodes, st, namespace, values, r)
  {
  }

  /** The body of that loop, run on a node with the map gathered so far,
      gives `r`. */
  predicate BodyGives(nodes: seq<Node>, st: RState, namespace: string, values: seq<Entry<Value>>,
                      r: Result<Step<seq<Entry<Value>>>>) {
    st.pos < |nodes| && NamespaceBody(nodes, st, namespace, values) == r
  }

  /** The loop of `namespaceAware`, started in state `st` with the map
      gathered so far, gives `r`. */
  predicate NamespaceLoopGives(nodes: seq<Node>, st: RState, namespace: string, values: seq<Entry<Value>>,
                               r: Result<Step<seq<Entry<Value>>>>) {
    st.pos <= |nodes| && NamespaceLoop(nodes, st, namespace, values) == r
  }

  /** The loop's result on a sibling list followed by the parent's end tag. */
  function NamespaceOutcome(p: nat, f: seq<Tree>, d: nat, ctx: Context<Handler>, namespace: string,
                            acc: seq<Entry<Value>>): Result<Step<seq<Entry<Value>>>>
  {
    Ok(Step(NamespacedEntries(namespace, f, acc), RState(p + ForestSpan(f) + 1, ctx)))
  }

  /** The key of an element node is the key of its tree. */
  lemma KeyOfTree(n: Node, t: Tree, namespace: string)
    requires t.Elem? && Truthy(t.local) && n.ns == t.ns && n.local == t.local
    ensures NamespacedKey(n, namespace) == ChildKey(t, namespace)
  {
  }

  /** The loop body on the first tree of a sibling list. */
  lemma NamespaceHead(nodes: seq<Node>, p: nat, f: seq<Tree>, d: nat, ctx: Context<Handler>,
                      namespace: string, acc: seq<Entry<Value>>)
    requires f != [] && Siblings(nodes, p, f, d + 1, ctx.current.elementMap)
    ensures BodyGives(nodes, RState(p, ctx), namespace, acc,
                      Ok(Step(NamespacedStep(namespace, f[0], acc), RState(p + Span(f[0]), ctx))))
  {
    SiblingsHead(nodes, p, f, d + 1, ctx.current.elementMap);
    if f[0].Elem? {
      NamespaceBodyOnTree(nodes, p, f[0], d + 1, ctx, namespace, acc);
    } else {
      NamespaceBodyOnLeaf(nodes, p, f[0], d + 1, ctx, namespace, acc);
    }
  }

  /** The loop body on an element without handlers: its generic value goes
      in under its key, and the cursor moves past it. */
  lemma NamespaceBodyOnTree(nodes: seq<Node>, p: nat, t: Tree, d: nat, ctx: Context<Handler>,
                            namespace: string, acc: seq<Entry<Value>>)
    requires t.Elem? && Generic(t, ctx.current.elementMap)
    requires TreeAt(nodes, p, t, d)
    ensures BodyGives(nodes, RState(p, ctx), namespace, acc,
                      Ok(Step(Put(acc, ChildKey(t, namespace), GenericRecord(t).value), RState(p + Span(t), ctx))))
  {
    KeyOfTree(nodes[p], t, namespace);
    DecodeElement(nodes, p, t, d, ctx);
    NamespaceBodyOnElement(nodes, RState(p, ctx), namespace, acc,
                           Step(GenericRecord(t), RState(p + Span(t), ctx)));
  }

  /** The loop body on a fragment that is a single node: the map is kept
      and the cursor moves past it. */
  lemma NamespaceBodyOnLeaf(nodes: seq<Node>, p: nat, t: Tree, d: nat, ctx: Context<Handler>,
                            namespace: string, acc: seq<Entry<Value>>)
    requires !t.Elem? && TreeAt(nodes, p, t, d)
    ensures BodyGives(nodes, RState(p, ctx), namespace, acc, Ok(Step(acc, RState(p + Span(t), ctx))))
  {
    NamespaceBodyOnOther(nodes, RState(p, ctx), namespace, acc);
  }

  /** The loop over a non-empty sibling list followed by the parent's end
      tag: each element child is stored under its key in document order. */
  lemma {:induction false} NamespaceChildren(nodes: seq<Node>, p: nat, f: seq<Tree>, d: nat, ctx: Context<Handler>,
                                             namespace: string, acc: seq<Entry<Value>>)
    requires f != []
    requires Siblings(nodes, p, f, d + 1, ctx.current.elementMap)
    ensures NamespaceLoopGives(nodes, RState(p, ctx), namespace, acc, NamespaceOutcome(p, f, d, ctx, namespace, acc))
    decreases |f|, 1
  {
    var q, acc' := p + Span(f[0]), NamespacedStep(namespace, f[0], acc);
    var b := Step(acc', RState(q, ctx));
    NamespaceHead(nodes, p, f, d, ctx, namespace, acc);
    if |f| == 1 {
      SiblingsHead(nodes, p, f, d + 1, ctx.current.elementMap);
      NamespaceLast(nodes, p, f, d, ctx, namespace, acc, ctx.current.elementMap);
      NamespaceRoundEnds(nodes, RState(p, ctx), namespace, acc, b);
    } else {
      NamespaceTail(nodes, p, f, d, ctx, namespace, acc);
      NamespaceRoundGoesOn(nodes, RState(p, ctx), namespace, acc, b, NamespaceOutcome(p, f, d, ctx, namespace, acc));
    }
  }


  /** The last tree of the list: the parent's end tag follows it. */
  lemma NamespaceLast(nodes: seq<Node>, p: nat, f: seq<Tree>, d: nat, ctx: Context<Handler>,
                      namespace: string, acc: seq<Entry<Value>>, em: map<string, Handler>)
    requires |f| == 1
    requires Siblings(nodes, p + Span(f[0]), f[1..], d + 1, em)
    ensures At(nodes, p + Span(f[0])).kind == EndElementNode
    ensures NamespaceOutcome(p, f, d, ctx, namespace, acc)
         == Ok(Step(NamespacedStep(namespace, f[0], acc), RState(p + Span(f[0]) + 1, ctx)))
  {
    assert f[1..] == [];
    assert ForestSpan(f) == Span(f[0]) + ForestSpan([]);
    assert NamespacedEntries(namespace, f, acc) == NamespacedEntries(namespace, [], NamespacedStep(namespace, f[0], acc));
  }

  /** A tree followed by more siblings: the loop goes on with the rest. */
  lemma {:induction false} NamespaceTail(nodes: seq<Node>, p: nat, f: seq<Tree>, d: nat, ctx: Context<Handler>,
                                         namespace: string, acc: seq<Entry<Value>>)
    requires |f| > 1
    requires Siblings(nodes, p, f, d + 1, ctx.current.elementMap)
    ensures At(nodes, p + Span(f[0])).kind != EndElementNode
    ensures NamespaceLoopGives(nodes, RState(p + Span(f[0]), ctx), namespace,
                               NamespacedStep(namespace, f[0], acc), NamespaceOutcome(p, f, d, ctx, namespace, acc))
    decreases |f|, 0
  {
    var q, rest, acc' := p + Span(f[0]), f[1..], NamespacedStep(namespace, f[0], acc);
    SiblingsHead(nodes, p, f, d + 1, ctx.current.elementMap);
    NextNotEnd(nodes, q, rest, d + 1, ctx.current.elementMap);
    NamespaceChildren(nodes, q, rest, d, ctx, namespace, acc');
    NamespaceOutcomeStep(p, f, d, ctx, namespace, acc);
  }

  /** A non-empty sibling list starts with a node that is no end tag. */
  lemma NextNotEnd(nodes: seq<Node>, p: nat, f: seq<Tree>, d: nat, em: map<string, Handler>)
    requires f != [] && Siblings(nodes, p, f, d, em)
    ensures At(nodes, p).kind != EndElementNode
  {
  }

  /** The outcome is unchanged by folding the first tree into the map. */
  lemma NamespaceOutcomeStep(p: nat, f: seq<Tree>, d: nat, ctx: Context<Handler>, namespace: string, acc: seq<Entry<Value>>)
    requires f != []
    ensures NamespaceOutcome(p + Span(f[0]), f[1..], d, ctx, namespace, NamespacedStep(namespace, f[0], acc))
         == NamespaceOutcome(p, f, d, ctx, namespace, acc)
  {
  }

  /** Folding a concatenation is folding the halves in turn. */
  lemma {:induction false} NamespacedEntriesAppend(namespace: string, a: seq<Tree>, b: seq<Tree>, acc: seq<Entry<Value>>)
    ensures NamespacedEntries(namespace, a + b, acc) == NamespacedEntries(namespace, b, NamespacedEntries(namespace, a, acc))
    decreases |a|
  {
    if a != [] {
      assert (a + b)[1..] == a[1..] + b;
      var acc' := NamespacedStep(namespace, a[0], acc);
      NamespacedEntriesAppend(namespace, a[1..], b, acc');
    } else {
      assert a + b == b;
    }
  }

  /** Children that do not use key `k` leave its entry alone. */
  lemma {:induction false} NamespacedEntriesKeep(namespace: string, kids: seq<Tree>, acc: seq<Entry<Value>>, k: string)
    requires forall c :: c in kids && c.Elem? ==> ChildKey(c, namespace) != k
    ensures Get(NamespacedEntries(namespace, kids, acc), k) == Get(acc, k)
    decreases |kids|
  {
    if kids != [] {
      var acc' := NamespacedStep(namespace, kids[0], acc);
      if kids[0].Elem? {
        PutGet(acc, ChildKey(kids[0], namespace), GenericRecord(kids[0]).value, k);
      }
      assert forall c :: c in kids[1..] ==> c in kids;
      NamespacedEntriesKeep(namespace, kids[1..], acc', k);
    }
  }

  /** Last write wins: when two children share a key, the later one's value
      is the one kept. */
  lemma NamespacedLastWins(namespace: string, before: seq<Tree>, c: Tree, after: seq<Tree>, k: string)
    requires c.Elem? && ChildKey(c, namespace) == k
    requires forall x :: x in after && x.Elem? ==> ChildKey(x, namespace) != k
    ensures Get(NamespacedEntries(namespace, before + [c] + after, []), k) == Some(GenericRecord(c).value)
  {
    NamespacedEntriesAppend(namespace, before + [c], after, []);
    NamespacedEntriesAppend(namespace, before, [c], []);
    var mid := NamespacedEntries(namespace, before, []);
    assert NamespacedEntries(namespace, [c], mid) == Put(mid, k, GenericRecord(c).value);
    PutGet(mid, k, GenericRecord(c).value, k);
    NamespacedEntriesKeep(namespace, after, Put(mid, k, GenericRecord(c).value), k);
  }

  /** `<root><a></a><b/></root>` */
  const EMPTY_PAIR := [
    Node(ElementNode, "", "root", "", 0, false, []),
    Node(ElementNode, "", "a", "", 1, false, []),
    Node(EndElementNode, "", "a", "", 1, false, []),
    Node(ElementNode, "", "b", "", 1, true, []),
    Node(EndElementNode, "", "root", "", 0, false, [])]

  /** A context mapping `{}a` to `namespaceAware` for the empty namespace. */
  const NAMESPACED_A: Context<Handler> := Context(Frame(map["{}a" := ParseNamespaced("")], None, []), [])

  /** In `<root><a></a><b/></root>`, with `namespaceAware` mapped to `a`: an
      element written with a separate end tag but no content makes the
      do-while loop test the node after its end tag, so `a` takes its
      sibling `b` and the root's end tag. */
  lemma NamespaceAwareReadsPastEmptyPair()
    ensures NamespaceAware(EMPTY_PAIR, RState(1, NAMESPACED_A), "") == Ok(Step([Entry("b", Null)], RState(5, NAMESPACED_A)))
  {
    var nodes, ctx, em := EMPTY_PAIR, NAMESPACED_A, NAMESPACED_A.current.elementMap;
    assert Format(QName("", "b")) == "{}b";
    assert HandlerFor(em, ClarkOf(nodes[3])) == None;
    assert CurrentElement(nodes, RState(3, ctx)) == Ok(Step(Record(ClarkOf(nodes[3]), Null, []), RState(4, ctx)));
    var entries := [Entry("b", Null)];
    assert NamespaceBody(nodes, RState(3, ctx), "", []) == Ok(Step(entries, RState(4, ctx)));
    assert NamespaceLoop(nodes, RState(3, ctx), "", []) == Ok(Step(entries, RState(5, ctx)));
    assert NamespaceBody(nodes, RState(2, ctx), "", []) == Ok(Step([], RState(3, ctx)));
    assert NamespaceLoop(nodes, RState(2, ctx), "", []) == Ok(Step(entries, RState(5, ctx)));
  }

  /** The root's own loop of the same document then hits the end of input. */
  lemma EmptyPairEndsPrematurely()
    ensures ParseDocument(EMPTY_PAIR, RState(0, NAMESPACED_A), []) == Err(ParseError(PREMATURE_END))
  {
    var nodes, ctx, em := EMPTY_PAIR, NAMESPACED_A, NAMESPACED_A.current.elementMap;
    var entries := [Entry("b", Null)];
    NamespaceAwareReadsPastEmptyPair();
    assert Format(QName("", "a")) == "{}a" && Format(QName("", "root")) == "{}root";
    assert HandlerFor(em, ClarkOf(nodes[1])) == Some(ParseNamespaced(""));
    assert CurrentElement(nodes, RState(1, ctx)) == Ok(Step(Record(ClarkOf(nodes[1]), Keyed(entries), []), RState(5, ctx)));
    assert InnerLoop(nodes, RState(1, ctx), [], None) == Err(ParseError(PREMATURE_END));
    assert HandlerFor(em, ClarkOf(nodes[0])) == None;
    assert SkipToElement(nodes, 0) == 0;
  }

  /** `namespaceAware` as its own comment intends ("if there's no children,
      we don't do anything"): the loop tests for the end tag before its
      body, so an element written `<a></a>` gives an empty map and the
      cursor moves just past its end tag. */
  function NamespaceAwareChecked(nodes: seq<Node>, st: RState, namespace: string): (r: Result<Step<seq<Entry<Value>>>>)
    requires st.pos <= |nodes|
    ensures Progress(nodes, st, r)
  {
    var n := At(nodes, st.pos);
    if n.isEmpty then Ok(Step([], st.(pos := NextPos(nodes, st.pos))))
    else if st.pos == |nodes| then Err(NeverTerminates)
    else if At(nodes, st.pos + 1).kind == EndElementNode then Ok(Step([], st.(pos := st.pos + 2)))
    else NamespaceLoop(nodes, st.(pos := st.pos + 1), namespace, [])
  }

  /** The checked version decodes every element whose children have no
      handlers, the empty pair included: the children keyed as
      `namespaceAware` keys them, and the cursor just past the element. */
  lemma NamespaceAwareCheckedTree(nodes: seq<Node>, p: nat, t: Tree, d: nat, ctx: Context<Handler>, namespace: string)
    requires t.Elem?
    requires AllGeneric(t.children, ctx.current.elementMap)
    requires TreeAt(nodes, p, t, d)
    ensures NamespaceAwareChecked(nodes, RState(p, ctx), namespace)
         == Ok(Step(NamespacedEntries(namespace, t.children, []), RState(p + Span(t), ctx)))
  {
    if t.children != [] {
      assert TreeAt(nodes, p + 1, t.children[0], d + 1);
      NamespaceAwareOfChildren(nodes, p, t, d, ctx, namespace);
    } else if !t.paired {
      NamespaceAwareTree(nodes, p, t, d, ctx, namespace);
    }
  }

  /** On `<root><a></a><b/></root>` the checked version leaves `a` empty
      and stops on `b`, where the version as written took `b` in. */
  lemma EmptyPairChecked()
    ensures NamespaceAwareChecked(EMPTY_PAIR, RState(1, NAMESPACED_A), "") == Ok(Step([], RState(3, NAMESPACED_A)))
  {
  }

  // ---------------------------------------------------------------------
  // readText

  /** The text `readText` keeps from one node. */
  function KeptText(n: Node): string {
    if n.kind == TextNode || n.kind == CDataNode || n.kind == WhitespaceNode then n.value else ""
  }

  function NodesText(ns: seq<Node>): string {
    if ns == [] then "" else KeptText(ns[0]) + NodesText(ns[1..])
  }

  /** The text, CDATA and whitespace of a tree, in document order;
      significant whitespace is not among the kinds `readText` keeps. */
  function TreeText(t: Tree): string {
    match t
    case Elem(_, _, _, kids, _) => ForestText(kids)
    case Text(s) => s
    case CData(s) => s
    case Whitespace(s) => s
    case SigWhitespace(_) => ""
    case Comment(_) => ""
    case Other(_) => ""
  }

  function ForestText(f: seq<Tree>): string {
    if f == [] then "" else TreeText(f[0]) + ForestText(f[1..])
  }

  lemma {:induction false} NodesTextAppend(a: seq<Node>, b: seq<Node>)
    ensures NodesText(a + b) == NodesText(a) + NodesText(b)
    decreases |a|
  {
    if a != [] {
      assert (a + b)[1..] == a[1..] + b;
      NodesTextAppend(a[1..], b);
    } else {
      assert a + b == b;
    }
  }

  lemma {:induction false} TreeNodesText(t: Tree, d: nat)
    ensures NodesText(TreeNodes(t, d)) == TreeText(t)
    decreases t, 1
  {
    if Open(t) {
      var start := [Node(ElementNode, t.ns, t.local, "", d, false, t.attributes)];
      var body := ForestNodes(t.children, d + 1);
      var end := [Node(EndElementNode, t.ns, t.local, "", d, false, [])];
      assert TreeNodes(t, d) == start + (body + end);
      NodesTextAppend(start, body + end);
      NodesTextAppend(body, end);
      ForestNodesText(t.children, d + 1);
    }
  }

  lemma {:induction false} ForestNodesText(f: seq<Tree>, d: nat)
    ensures NodesText(ForestNodes(f, d)) == ForestText(f)
    decreases f, 2
  {
    if f != [] {
      NodesTextAppend(TreeNodes(f[0], d), ForestNodes(f[1..], d));
      TreeNodesText(f[0], d);
      ForestNodesText(f[1..], d);
    }
  }

  /** The `readText` loop over nodes that are all off the starting depth, up
      to one that is on it. */
  lemma {:induction false} ReadTextRange(nodes: seq<Node>, pos: nat, depth: nat, acc: string, k: nat)
    requires pos < k < |nodes|
    requires forall i :: pos < i < k ==> nodes[i].depth != depth
    requires nodes[k].depth == depth
    ensures ReadTextLoop(nodes, pos, depth, acc) == (acc + NodesText(nodes[pos + 1..k]), k)
    decreases k - pos
  {
    if pos + 1 == k {
      assert nodes[pos + 1..k] == [];
      assert acc + "" == acc;
    } else {
      var p := pos + 1;
      ReadTextRange(nodes, p, depth, acc + KeptText(nodes[p]), k);
      assert ReadTextLoop(nodes, pos, depth, acc) == ReadTextLoop(nodes, p, depth, acc + KeptText(nodes[p]));
      assert nodes[p..k][1..] == nodes[p + 1..k];
      assert NodesText(nodes[p..k]) == KeptText(nodes[p]) + NodesText(nodes[p + 1..k]);
      assert nodes[pos + 1..k] == nodes[p..k];
      assert (acc + KeptText(nodes[p])) + NodesText(nodes[p + 1..k]) == acc + (KeptText(nodes[p]) + NodesText(nodes[p + 1..k]));
    }
  }

  /** `readText` on an element with an end tag returns all the text below it,
      CDATA and whitespace included, and stops on the element's end tag. */
  lemma ReadTextTree(nodes: seq<Node>, p: nat, t: Tree, d: nat)
    requires Open(t)
    requires TreeAt(nodes, p, t, d)
    ensures ReadTextOf(nodes, p) == (TreeText(t), p + Span(t) - 1)
  {
    var k := p + 1 + ForestSpan(t.children);
    ForestAtSlice(nodes, p + 1, t.children, d + 1);
    var body := nodes[p + 1..k];
    ForestDepths(t.children, d + 1);
    forall i | p < i < k ensures nodes[i].depth != d {
      assert nodes[i] == body[i - p - 1];
    }
    ReadTextRange(nodes, p, d, "", k);
    ForestNodesText(t.children, d + 1);
    assert "" + ForestText(t.children) == ForestText(t.children);
  }

  // ---------------------------------------------------------------------
  // parse

  /** `parse()` on a document of a root tree without handlers, after any
      prolog of non-element nodes: the root's record, the cursor just past
      the root. */
  lemma ParseGeneric(prolog: seq<Node>, root: Tree, epilog: seq<Node>, ctx: Context<Handler>)
    requires forall i :: 0 <= i < |prolog| ==> prolog[i].kind != ElementNode
    requires root.Elem? && Generic(root, ctx.current.elementMap)
    ensures ParseDocument(prolog + TreeNodes(root, 0) + epilog, RState(0, ctx), [])
         == Ok(Step(GenericRecord(root), RState(|prolog| + |TreeNodes(root, 0)|, ctx)))
  {
    var nodes := prolog + TreeNodes(root, 0) + epilog;
    var k := |prolog|;
    TreeAtWithin(prolog, root, 0, epilog);
    SpanCounts(root, 0);
    forall i | 0 <= i < k ensures nodes[i] == prolog[i] { }
    assert SkipToElement(nodes, 0) == k;
    DecodeElement(nodes, k, root, 0, ctx);
  }

  /** Whatever the decoding gives, errors reported by libxml turn `parse()`
      into one `LibXMLException` carrying all of them. */
  lemma ParseReportsLibxmlErrors(nodes: seq<Node>, st: RState, errors: seq<string>)
    requires st.pos <= |nodes| && errors != []
    requires CurrentElement(nodes, st.(pos := SkipToElement(nodes, st.pos))).Ok?
    ensures ParseDocument(nodes, st, errors) == Err(LibXmlError(errors))
  {
  }

  // ---------------------------------------------------------------------
  // Handlers that read too far

  /** The broken element class of the test suite: mapped to `elem1` in
      `<root>␤<elem1/>␤</root>`, the Eater swallows the root's end tag; the
      root's loop then reaches the end of input and raises the
      premature-end `ParseException` instead of looping. */
  lemma EaterHitsPrematureEnd()
    ensures
      var ns := "http://sabredav.org/ns";
      var nodes := [
        Node(ElementNode, ns, "root", "", 0, false, []),
        Node(SignificantWhitespaceNode, "", "", "\n", 1, false, []),
        Node(ElementNode, ns, "elem1", "", 1, true, []),
        Node(SignificantWhitespaceNode, "", "", "\n", 1, false, []),
        Node(EndElementNode, ns, "root", "", 0, false, [])];
      var ctx := Context(Frame(map[Format(QName(ns, "elem1")) := Eater], None, []), []);
      ParseDocument(nodes, RState(0, ctx), []) == Err(ParseError(PREMATURE_END))
  {
    var ns := "http://sabredav.org/ns";
    var nodes := [
        Node(ElementNode, ns, "root", "", 0, false, []),
        Node(SignificantWhitespaceNode, "", "", "\n", 1, false, []),
        Node(ElementNode, ns, "elem1", "", 1, true, []),
        Node(SignificantWhitespaceNode, "", "", "\n", 1, false, []),
        Node(EndElementNode, ns, "root", "", 0, false, [])];
    var em := map[Format(QName(ns, "elem1")) := Eater];
    var ctx := Context(Frame(em, None, []), []);
    assert Format(QName(ns, "root"))[|ns| + 2] == 'r' && Format(QName(ns, "elem1"))[|ns| + 2] == 'e';
    assert HandlerFor(em, ClarkOf(nodes[2])) == Some(Eater);
    assert EatLoop(nodes, 3, 1) == Ok(4);
    assert Eat(nodes, 2) == Ok(5);
    var s := Step(Record(ClarkOf(nodes[2]), Null, []), RState(5, ctx));
    assert CurrentElement(nodes, RState(2, ctx)) == Ok(s);
    LoopOnElement(nodes, RState(2, ctx), [], None, s);
    LoopHitsEnd(nodes, RState(5, ctx), [s.value], None);
    LoopOnOther(nodes, RState(1, ctx), [], None);
    assert HandlerFor(em, ClarkOf(nodes[0])) == None;
    assert SkipToElement(nodes, 0) == 0;
  }

  /** The dispatch of `parseCurrentElement`: a name that is not mapped is
      decoded generically; a mapped value that is neither a deserializer
      class nor a callable raises `LogicException` naming its type. */
  lemma DispatchRules(nodes: seq<Node>, st: RState)
    requires st.pos <= |nodes|
    ensures var name := ClarkOf(At(nodes, st.pos));
      var key := name.GetOr("");
      && (key !in st.ctx.current.elementMap ==>
            CurrentElement(nodes, st) == (match InnerTree(nodes, st, None)
              case Err(e) => Err(e)
              case Ok(s) => Ok(Step(Record(name, s.value, AttributesOf(At(nodes, st.pos).attributes)), s.state))))
      && (key in st.ctx.current.elementMap && st.ctx.current.elementMap[key].Unusable? ==>
            CurrentElement(nodes, st) == Err(LogicError(NOT_A_DESERIALIZER + st.ctx.current.elementMap[key].typeName)))
  {
  }

  // ---------------------------------------------------------------------
  // Outcomes on any input

  /** `parseInnerTree` on a self-closing element: null, the cursor one node
      on, and the context as it was even when a map is given. */
  lemma EmptyElementIsNull(nodes: seq<Node>, st: RState, m: Option<map<string, Handler>>)
    requires st.pos < |nodes| && nodes[st.pos].kind == ElementNode && nodes[st.pos].isEmpty
    ensures InnerTree(nodes, st, m) == Ok(Step(Null, RState(st.pos + 1, st.ctx)))
  {
  }

  /** The loop of `parseInnerTree` never gives `false`: its value is the
      child list, the text or null. */
  lemma {:induction false} InnerLoopNeverFalse(nodes: seq<Node>, st: RState, elements: seq<Record>, text: Option<string>)
    requires st.pos <= |nodes|
    ensures InnerLoop(nodes, st, elements, text).Ok? ==> InnerLoop(nodes, st, elements, text).value.value != False
    decreases |nodes| - st.pos
  {
    var n := At(nodes, st.pos);
    if n.kind == ElementNode {
      var c := CurrentElement(nodes, st);
      if c.Ok? {
        InnerLoopNeverFalse(nodes, c.value.state, elements + [c.value.value], text);
      }
    } else if n.kind != NoneNode && n.kind != EndElementNode {
      var text' := if n.kind == TextNode || n.kind == CDataNode then Append(text, n.value) else text;
      InnerLoopNeverFalse(nodes, st.(pos := st.pos + 1), elements, text');
    }
  }

  /** `parseInnerTree` gives `false` exactly when the cursor is not on a
      self-closing element and the `read()` past the current node reaches
      the end of input. */
  lemma InnerTreeFalse(nodes: seq<Node>, st: RState, m: Option<map<string, Handler>>)
    requires st.pos <= |nodes|
    ensures var r := InnerTree(nodes, st, m);
      (r.Ok? && r.value.value == False)
      <==> !(At(nodes, st.pos).kind == ElementNode && At(nodes, st.pos).isEmpty) && ReadPos(nodes, st.pos) == |nodes|
  {
    var p := ReadPos(nodes, st.pos);
    if p < |nodes| {
      InnerLoopNeverFalse(nodes, RState(p, Enter(st.ctx, m)), [], None);
    }
  }

  /** `namespaceAware` on a self-closing element: an empty map and the
      cursor one node on; on a start tag with nothing after it the
      do-while loop never finds an end tag. */
  lemma NamespaceAwareEdges(nodes: seq<Node>, st: RState, namespace: string)
    requires st.pos < |nodes|
    ensures nodes[st.pos].isEmpty ==> NamespaceAware(nodes, st, namespace) == Ok(Step([], RState(st.pos + 1, st.ctx)))
    ensures !nodes[st.pos].isEmpty && st.pos + 1 == |nodes| ==> NamespaceAware(nodes, st, namespace) == Err(NeverTerminates)
  {
  }

  /** The map `namespaceAware` builds has each key once. */
  lemma {:induction false} NamespaceLoopUnique(nodes: seq<Node>, st: RState, namespace: string, values: seq<Entry<Value>>)
    requires st.pos <= |nodes| && UniqueKeys(values)
    ensures var r := NamespaceLoop(nodes, st, namespace, values);
      r.Ok? ==> UniqueKeys(r.value.value)
    decreases |nodes| - st.pos
  {
    if st.pos < |nodes| {
      var b := NamespaceBody(nodes, st, namespace, values);
      if b.Ok? {
        var n := nodes[st.pos];
        if n.kind == ElementNode {
          var c := CurrentElement(nodes, st);
          PutUnique(values, NamespacedKey(n, namespace), c.value.value.value);
        }
        if At(nodes, b.value.state.pos).kind != EndElementNode {
          NamespaceLoopUnique(nodes, b.value.state, namespace, b.value.value);
        }
      }
    }
  }

  lemma NamespaceAwareUnique(nodes: seq<Node>, st: RState, namespace: string)
    requires st.pos <= |nodes|
    ensures var r := NamespaceAware(nodes, st, namespace);
      r.Ok? ==> UniqueKeys(r.value.value)
  {
    if st.pos < |nodes| && !nodes[st.pos].isEmpty {
      NamespaceLoopUnique(nodes, st.(pos := st.pos + 1), namespace, []);
    }
  }

  /** Every record `parseCurrentElement` returns carries the element's Clark
      name and its attribute array, each key once. */
  lemma RecordShape(nodes: seq<Node>, st: RState)
    requires st.pos <= |nodes|
    ensures var r := CurrentElement(nodes, st);
      r.Ok? ==> r.value.value.name == ClarkOf(At(nodes, st.pos))
                && r.value.value.attributes == AttributesOf(At(nodes, st.pos).attributes)
                && UniqueKeys(r.value.value.attributes)
  {
    AttributesUnique(At(nodes, st.pos).attributes);
  }
}
