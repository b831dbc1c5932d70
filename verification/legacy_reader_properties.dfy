/** Properties of the first-generation reader, `Sabre\XML\Reader`, and how
    it differs from the current one: the Clark name of an element without a
    namespace, the `isset` dispatch, the skip loop of `parse()`, and two
    inputs on which `parseSubTree` loses or misplaces child elements. */
module LegacyReaderProperties {
  import opened Wrappers
  import opened Php
  import opened Clark
  import opened Cursor
  import opened ContextStack
  import opened LegacyReader
  import Reader

  // ---------------------------------------------------------------------
  // Names and attributes

  /** The two generations name an element the same way when it has both a
      namespace and a local name. Without a namespace the first generation
      gives null where the current one gives `{}local`; without a local name
      it is the other way round. */
  lemma ClarkGenerations(n: Node)
    ensures Truthy(n.ns) && Truthy(n.local) ==> LegacyClarkOf(n) == Reader.ClarkOf(n)
    ensures !Truthy(n.ns) && Truthy(n.local) ==> LegacyClarkOf(n) == None && Reader.ClarkOf(n) == Some("{" + n.ns + "}" + n.local)
    ensures Truthy(n.ns) && !Truthy(n.local) ==> LegacyClarkOf(n) == Some("{" + n.ns + "}" + n.local) && Reader.ClarkOf(n) == None
  {
  }

  /** On attributes with a local name (every well-formed one: an XML name is
      never empty and never starts with a digit) both generations build the
      same array. */
  lemma {:induction false} AttributesAgree(attrs: seq<Attribute>)
    requires forall i :: 0 <= i < |attrs| ==> Truthy(attrs[i].local)
    ensures LegacyAttributesOf(attrs) == Reader.AttributesOf(attrs)
    decreases |attrs|
  {
    if attrs != [] {
      var init := attrs[..|attrs| - 1];
      assert forall i :: 0 <= i < |init| ==> init[i] == attrs[i];
      AttributesAgree(init);
      var a := attrs[|attrs| - 1];
      assert LegacyAttributeKey(a) == Reader.AttributeKey(a);
    }
  }

  // ---------------------------------------------------------------------
  // Dispatch

  /** `isset` is false for a key mapped to null: such an element is decoded
      as if it had no entry at all, with `parseSubTree`. */
  lemma NullEntryIsGeneric(nodes: seq<Node>, em: map<string, Option<LHandler>>, pos: nat)
    requires pos <= |nodes|
    requires LegacyClarkOf(At(nodes, pos)).GetOr("") in em && em[LegacyClarkOf(At(nodes, pos)).GetOr("")] == None
    ensures LegacyCurrentElement(nodes, em, pos)
         == match LegacySubTree(nodes, em, pos)
            case Err(e) => Err(e)
            case Ok(s) => Ok(LStep(LRecord(LegacyClarkOf(At(nodes, pos)), s.value, LegacyAttributesOf(At(nodes, pos).attributes)), s.pos))
  {
  }

  // ---------------------------------------------------------------------
  // parse()

  /** Without an element ahead, the skip loop of `parse()` never ends. */
  lemma {:induction false} LegacyParseNeverEnds(nodes: seq<Node>, em: map<string, Option<LHandler>>, pos: nat)
    requires pos <= |nodes|
    requires forall i :: pos <= i < |nodes| ==> nodes[i].kind != ElementNode
    ensures LegacyParse(nodes, em, pos) == Err(NeverTerminates)
    decreases |nodes| - pos
  {
    if pos < |nodes| {
      LegacyParseNeverEnds(nodes, em, pos + 1);
    }
  }

  /** Otherwise `parse()` gives the one-element list holding the record of
      the first element. */
  lemma {:induction false} LegacyParseFirstElement(nodes: seq<Node>, em: map<string, Option<LHandler>>, pos: nat, p: nat)
    requires pos <= p < |nodes| && nodes[p].kind == ElementNode
    requires forall i :: pos <= i < p ==> nodes[i].kind != ElementNode
    ensures LegacyParse(nodes, em, pos)
         == match LegacyCurrentElement(nodes, em, p)
            case Err(e) => Err(e)
            case Ok(s) => Ok(LStep([s.value], s.pos))
    ensures LegacyParse(nodes, em, pos).Ok? ==> |LegacyParse(nodes, em, pos).value.value| == 1
    decreases p - pos
  {
    if pos < p {
      LegacyParseFirstElement(nodes, em, pos + 1, p);
    }
  }

  // ---------------------------------------------------------------------
  // parseSubTree()

  /** Child records are never dropped once gathered: the value is the list
      of records, starting with those gathered so far, and any text is
      discarded. */
  lemma {:induction false} SubLoopKeepsElements(nodes: seq<Node>, em: map<string, Option<LHandler>>, pos: nat, prev: nat,
                                                elements: seq<LRecord>, text: Option<string>)
    requires pos <= |nodes| && elements != []
    ensures var r := LegacySubLoop(nodes, em, pos, prev, elements, text);
            r.Ok? ==> r.value.value.LRecords? && elements <= r.value.value.items
    decreases |nodes| - pos
  {
    var n := At(nodes, pos);
    if n.kind == ElementNode {
      match LegacyCurrentElement(nodes, em, pos)
      case Err(_) =>
      case Ok(s) =>
        if s.pos < |nodes| && nodes[s.pos].depth > prev {
          SubLoopKeepsElements(nodes, em, s.pos, prev, elements + [s.value], text);
        }
    } else {
      var q := if n.kind == TextNode then ReadPos(nodes, ReadPos(nodes, pos)) else ReadPos(nodes, pos);
      if q < |nodes| && nodes[q].depth > prev {
        SubLoopKeepsElements(nodes, em, q, prev, elements, if n.kind == TextNode then Some(text.GetOr("") + n.value) else text);
      }
    }
  }

  /** A self-closing element is not treated specially: when it is the last
      child of its parent, the loop reads the parent's end tag, then the
      node after it, and one more node when that is an end tag too. */
  lemma SelfClosingLastChild(nodes: seq<Node>, em: map<string, Option<LHandler>>, pos: nat)
    requires pos + 1 < |nodes| && nodes[pos].kind == ElementNode && nodes[pos].isEmpty
    requires nodes[pos + 1].kind == EndElementNode
    requires pos + 2 < |nodes| ==> nodes[pos + 2].depth <= nodes[pos].depth
    ensures LegacySubTree(nodes, em, pos)
         == Ok(LStep(LNull, if At(nodes, pos + 2).kind == EndElementNode then pos + 3 else pos + 2))
  {
  }

  // ---------------------------------------------------------------------
  // Two inputs the first generation decodes wrongly

  /** `<a>x<b/></a>` */
  const TEXT_THEN_CHILD := [
    Node(ElementNode, "", "a", "", 0, false, []),
    Node(TextNode, "", "", "x", 1, false, []),
    Node(ElementNode, "", "b", "", 1, true, []),
    Node(EndElementNode, "", "a", "", 0, false, [])]

  /** `<r><a/><b/></r>` */
  const EMPTY_SIBLINGS := [
    Node(ElementNode, "", "r", "", 0, false, []),
    Node(ElementNode, "", "a", "", 1, true, []),
    Node(ElementNode, "", "b", "", 1, true, []),
    Node(EndElementNode, "", "r", "", 0, false, [])]

  /** The context a fresh reader starts with. */
  const FRESH: Context<Reader.Handler> := Context(Frame(map[], None, []), [])

  /** `<a>x<b/></a>`: the fall-through from the TEXT case reads twice, so
      the child `b` right after the text is never seen and the element
      decodes to the string "x". */
  lemma TextHidesNextElement()
    ensures LegacyParse(TEXT_THEN_CHILD, map[], 0) == Ok(LStep([LRecord(None, LStr("x"), [])], 4))
  {
    var nodes := TEXT_THEN_CHILD;
    assert "" + "x" == "x";
    assert LegacySubLoop(nodes, map[], 1, 0, [], None) == Ok(LStep(LStr("x"), 4));
    assert LegacySkip(nodes, 0) == Ok(0);
  }

  /** The current reader gives `<a>x<b/></a>` the list holding `b`'s
      record. */
  lemma TextBeforeChildKept()
    ensures Reader.ParseDocument(TEXT_THEN_CHILD, Reader.RState(0, FRESH), [])
         == Ok(Reader.Step(Reader.Record(Some("{}a"), Reader.Records([Reader.Record(Some("{}b"), Reader.Null, [])]), []),
                           Reader.RState(4, FRESH)))
  {
    var nodes, ctx := TEXT_THEN_CHILD, FRESH;
    assert Reader.SkipToElement(nodes, 0) == 0;
    var b := Reader.Record(Some("{}b"), Reader.Null, []);
    assert Format(QName("", "b")) == "{}b" && Format(QName("", "a")) == "{}a";
    assert NextPos(nodes, 2) == 3;
    assert Reader.InnerTree(nodes, Reader.RState(2, ctx), None) == Ok(Reader.Step(Reader.Null, Reader.RState(3, ctx)));
    assert Reader.CurrentElement(nodes, Reader.RState(2, ctx)) == Ok(Reader.Step(b, Reader.RState(3, ctx)));
    assert Reader.InnerLoop(nodes, Reader.RState(3, ctx), [b], Some("x")) == Ok(Reader.Step(Reader.Records([b]), Reader.RState(4, ctx)));
    assert [] + [b] == [b];
    assert Reader.InnerLoop(nodes, Reader.RState(2, ctx), [], Some("x")) == Ok(Reader.Step(Reader.Records([b]), Reader.RState(4, ctx)));
    assert Reader.InnerLoop(nodes, Reader.RState(1, ctx), [], None) == Ok(Reader.Step(Reader.Records([b]), Reader.RState(4, ctx)));
  }

  /** `<r><a/><b/></r>`: with no check for a self-closing element, `a`'s
      loop goes on into its sibling `b`, which becomes `a`'s child, and `b`
      reads past the end tag of `r`. */
  lemma EmptySiblingsNest()
    ensures LegacyParse(EMPTY_SIBLINGS, map[], 0)
         == Ok(LStep([LRecord(None, LRecords([LRecord(None, LRecords([LRecord(None, LNull, [])]), [])]), [])], 4))
  {
    var nodes := EMPTY_SIBLINGS;
    var lb := LRecord(None, LNull, []);
    var la := LRecord(None, LRecords([lb]), []);
    assert LegacySubLoop(nodes, map[], 3, 1, [], None) == Ok(LStep(LNull, 4));
    assert LegacyCurrentElement(nodes, map[], 2) == Ok(LStep(lb, 4));
    assert [] + [lb] == [lb] && [] + [la] == [la];
    assert LegacySubLoop(nodes, map[], 2, 1, [], None) == Ok(LStep(LRecords([lb]), 4));
    assert LegacyCurrentElement(nodes, map[], 1) == Ok(LStep(la, 4));
    assert LegacySubLoop(nodes, map[], 1, 0, [], None) == Ok(LStep(LRecords([la]), 4));
    assert LegacySkip(nodes, 0) == Ok(0);
  }

  /** The current reader gives `<r><a/><b/></r>` the two children `a` and
      `b`, both null. */
  lemma EmptySiblingsApart()
    ensures Reader.ParseDocument(EMPTY_SIBLINGS, Reader.RState(0, FRESH), [])
         == Ok(Reader.Step(Reader.Record(Some("{}r"),
                             Reader.Records([Reader.Record(Some("{}a"), Reader.Null, []), Reader.Record(Some("{}b"), Reader.Null, [])]), []),
                           Reader.RState(4, FRESH)))
  {
    var nodes, ctx := EMPTY_SIBLINGS, FRESH;
    assert Reader.SkipToElement(nodes, 0) == 0;
    var a := Reader.Record(Some("{}a"), Reader.Null, []);
    var b := Reader.Record(Some("{}b"), Reader.Null, []);
    assert Format(QName("", "a")) == "{}a" && Format(QName("", "b")) == "{}b" && Format(QName("", "r")) == "{}r";
    assert NextPos(nodes, 1) == 2 && NextPos(nodes, 2) == 3;
    assert [] + [a] == [a] && [a] + [b] == [a, b];
    assert Reader.CurrentElement(nodes, Reader.RState(1, ctx)) == Ok(Reader.Step(a, Reader.RState(2, ctx)));
    assert Reader.CurrentElement(nodes, Reader.RState(2, ctx)) == Ok(Reader.Step(b, Reader.RState(3, ctx)));
    assert Reader.InnerLoop(nodes, Reader.RState(3, ctx), [a, b], None) == Ok(Reader.Step(Reader.Records([a, b]), Reader.RState(4, ctx)));
    assert Reader.InnerLoop(nodes, Reader.RState(2, ctx), [a], None) == Ok(Reader.Step(Reader.Records([a, b]), Reader.RState(4, ctx)));
    assert Reader.InnerLoop(nodes, Reader.RState(1, ctx), [], None) == Ok(Reader.Step(Reader.Records([a, b]), Reader.RState(4, ctx)));
  }
}
