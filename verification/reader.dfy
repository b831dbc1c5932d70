/** The current `Sabre\Xml\Reader`: a recursive-descent decoder over the
    node cursor, dispatching each element to the handler its Clark name is
    mapped to in `elementMap`, and `Deserializer\namespaceAware`, which takes
    part in the same recursion.

    Every operation is first defined as a function of the cursor state
    (`RState`), then implemented on the `Reader` object and proved equal to
    that function. A thrown exception is an `Err`; an input on which the
    source would loop forever is `Err(NeverTerminates)`. */
module Reader {
  import opened Wrappers
  import opened Php
  import opened Clark
  import opened Cursor
  import opened ContextStack

  /** The namespace `xmlns` attributes belong to, which section 3 of
      Namespaces in XML 1.0 fixes. */
  const XMLNS_NAMESPACE := "http://www.w3.org/2000/xmlns/"

  const PREMATURE_END := "We hit the end of the document prematurely. This likely means that some parser \"eats\" too many elements. Do not attempt to continue parsing."

  const NOT_A_DESERIALIZER := "Could not use this type as a deserializer: "

  /** What `elementMap` can map a Clark name to. */
  datatype Handler =
    | ParseTree(elementMap: Option<map<string, Handler>>)  // a deserializer returning `$reader->parseInnerTree($elementMap)`
    | ParseNamespaced(namespace: string)                  // `fn($r) => namespaceAware($r, $namespace)`
    | Eater                                               // the test suite's over-consuming element class
    | Unusable(typeName: string)                          // neither a deserializer class nor a callable; `gettype` plus detail

  /** The values the decoder produces. */
  datatype Value =
    | Null
    | False                            // `parseInnerTree` when the input ends right after the start tag
    | Str(s: string)
    | Records(items: seq<Record>)      // the list of child records
    | Keyed(entries: seq<Entry<Value>>)  // a string-keyed PHP array

  /** The `['name' => …, 'value' => …, 'attributes' => …]` array. */
  datatype Record = Record(name: Option<string>, value: Value, attributes: seq<Entry<string>>)

  /** Cursor position and context stack. */
  datatype RState = RState(pos: nat, ctx: Context<Handler>)

  /** A result together with the state after it. */
  datatype Step<T> = Step(value: T, state: RState)

  /** `getClark()`: the Clark name of the node, or null when it has no local
      name. */
  function ClarkOf(n: Node): (r: Option<string>)
    ensures r.Some? <==> Truthy(n.local)
  {
    if !Truthy(n.local) then None else Some(Format(QName(n.ns, n.local)))
  }

  /** The name `getClark()` gives is the one `parseClarkNotation` reads back,
      for every name the regular expression can give back. */
  lemma ClarkOfRoundTrip(n: Node)
    requires Truthy(n.local) && Parsable(QName(n.ns, n.local))
    ensures ClarkOf(n).Some? && ParseClarkNotation(ClarkOf(n).value) == Ok(QName(n.ns, n.local))
  {
    RoundTrip(QName(n.ns, n.local));
  }

  /** The array key an attribute is stored under: its Clark name when it has a
      namespace, its local name otherwise. A null Clark name becomes the key "". */
  function AttributeKey(a: Attribute): string {
    if Truthy(a.ns) then ClarkOf(Node(NoneNode, a.ns, a.local, a.value, 0, false, [])).GetOr("")
    else a.local
  }

  /** Namespace declarations are not reported as attributes. */
  predicate Declaration(a: Attribute) {
    Truthy(a.ns) && a.ns == XMLNS_NAMESPACE
  }

  /** `parseAttributes()`: the attributes in document order written into a
      PHP array, declarations left out. */
  function AttributesOf(attrs: seq<Attribute>): seq<Entry<string>>
  {
    if attrs == [] then []
    else
      var acc := AttributesOf(attrs[..|attrs| - 1]);
      var a := attrs[|attrs| - 1];
      if Declaration(a) then acc else Put(acc, AttributeKey(a), a.value)
  }

  /** The attribute array has each key once. */
  lemma {:induction false} AttributesUnique(attrs: seq<Attribute>)
    ensures UniqueKeys(AttributesOf(attrs))
    decreases |attrs|
  {
    if attrs != [] {
      var init := attrs[..|attrs| - 1];
      AttributesUnique(init);
      var a := attrs[|attrs| - 1];
      if !Declaration(a) {
        PutUnique(AttributesOf(init), AttributeKey(a), a.value);
      }
    }
  }

  /** `$text .= $value` with `$text` starting out null. */
  function Append(text: Option<string>, s: string): Option<string> {
    Some(text.GetOr("") + s)
  }

  /** `$elements ? $elements : $text` */
  function Combine(elements: seq<Record>, text: Option<string>): (v: Value)
    ensures elements != [] ==> v == Records(elements)
    ensures elements == [] && text.None? ==> v == Null
    ensures elements == [] && text.Some? ==> v == Str(text.value)
  {
    if elements != [] then Records(elements)
    else match text
      case None => Null
      case Some(s) => Str(s)
  }

  /** The handler `parseCurrentElement` uses: `array_key_exists` on the
      name, a null name looking up the key "". */
  function HandlerFor(elementMap: map<string, Handler>, name: Option<string>): (h: Option<Handler>)
    ensures name.Some? ==> (h.Some? <==> name.value in elementMap)
    ensures name.None? ==> (h.Some? <==> "" in elementMap)
    ensures h.Some? ==> h.value in elementMap.Values
  {
    var key := name.GetOr("");
    if key in elementMap then Some(elementMap[key]) else None
  }

  /** The context inside `parseInnerTree($elementMap)`: pushed and replaced
      when a map is given. */
  function Enter(ctx: Context<Handler>, m: Option<map<string, Handler>>): (c: Context<Handler>)
    ensures m.Some? ==> |c.saved| == |ctx.saved| + 1 && c.saved[..|ctx.saved|] == ctx.saved
  {
    match m
    case None => ctx
    case Some(em) => ctx.Push().(current := ctx.current.(elementMap := em))
  }

  function Leave(ctx: Context<Handler>, m: Option<map<string, Handler>>): Context<Handler>
    requires m.Some? ==> |ctx.saved| > 0
  {
    if m.None? then ctx else ctx.Pop()
  }

  /** What every decoding step guarantees: the cursor never moves back,
      moves forward from any node, and, unless the input has run out, the
      context is as it was. */
  predicate Progress<T>(nodes: seq<Node>, st: RState, r: Result<Step<T>>) {
    r.Ok? ==>
      st.pos <= r.value.state.pos <= |nodes|
      && (st.pos < |nodes| ==> st.pos < r.value.state.pos)
      && (r.value.state.pos < |nodes| ==> r.value.state.ctx == st.ctx)
  }

  /** `parseCurrentElement()`: name, attributes, and the value the mapped
      handler (or the generic decoder) produces. */
  function CurrentElement(nodes: seq<Node>, st: RState): (r: Result<Step<Record>>)
    requires st.pos <= |nodes|
    ensures Progress(nodes, st, r)
    decreases |nodes| - st.pos, 3
  {
    var n := At(nodes, st.pos);
    var name := ClarkOf(n);
    match Dispatch(nodes, st, HandlerFor(st.ctx.current.elementMap, name))
    case Err(e) => Err(e)
    case Ok(s) => Ok(Step(Record(name, s.value, AttributesOf(n.attributes)), s.state))
  }

  /** The value of an element for a given handler; no handler means the
      generic decoding `parseInnerTree()`. */
  function Dispatch(nodes: seq<Node>, st: RState, h: Option<Handler>): (r: Result<Step<Value>>)
    requires st.pos <= |nodes|
    ensures Progress(nodes, st, r)
    ensures h.Some? && h.value.Unusable? ==> r == Err(LogicError(NOT_A_DESERIALIZER + h.value.typeName))
    ensures h.Some? && h.value.ParseNamespaced? && r.Ok? ==> r.value.value.Keyed?
    ensures h.Some? && h.value.Eater? && r.Ok? ==> r.value.value == Null
    decreases |nodes| - st.pos, 2
  {
    match h
    case None => InnerTree(nodes, st, None)
    case Some(ParseTree(m)) => InnerTree(nodes, st, m)
    case Some(ParseNamespaced(ns)) =>
      (match NamespaceAware(nodes, st, ns)
       case Err(e) => Err(e)
       case Ok(s) => Ok(Step(Keyed(s.value), s.state)))
    case Some(Eater) =>
      (match Eat(nodes, st.pos)
       case Err(e) => Err(e)
       case Ok(p) => Ok(Step(Null, st.(pos := p))))
    case Some(Unusable(t)) => Err(LogicError(NOT_A_DESERIALIZER + t))
  }

  /** `parseInnerTree($elementMap)`. */
  function InnerTree(nodes: seq<Node>, st: RState, m: Option<map<string, Handler>>): (r: Result<Step<Value>>)
    requires st.pos <= |nodes|
    ensures Progress(nodes, st, r)
    decreases |nodes| - st.pos, 1
  {
    var n := At(nodes, st.pos);
    if n.kind == ElementNode && n.isEmpty then Ok(Step(Null, st.(pos := NextPos(nodes, st.pos))))
    else
      var inner := Enter(st.ctx, m);
      var p := ReadPos(nodes, st.pos);
      if p == |nodes| then Ok(Step(False, RState(p, inner)))
      else
        match InnerLoop(nodes, RState(p, inner), [], None)
        case Err(e) => Err(e)
        case Ok(s) => Ok(Step(s.value, RState(s.state.pos, Leave(s.state.ctx, m))))
  }

  /** The `while (true)` loop of `parseInnerTree`, from the current node on,
      with the children and the text gathered so far. */
  function InnerLoop(nodes: seq<Node>, st: RState, elements: seq<Record>, text: Option<string>): (r: Result<Step<Value>>)
    requires st.pos <= |nodes|
    ensures r.Ok? ==> st.pos < r.value.state.pos <= |nodes| && r.value.state.ctx == st.ctx
    decreases |nodes| - st.pos, 4
  {
    var n := At(nodes, st.pos);
    if n.kind == NoneNode then Err(ParseError(PREMATURE_END))
    else if n.kind == ElementNode then
      match CurrentElement(nodes, st)
      case Err(e) => Err(e)
      case Ok(s) => InnerLoop(nodes, s.state, elements + [s.value], text)
    else if n.kind == EndElementNode then Ok(Step(Combine(elements, text), st.(pos := st.pos + 1)))
    else
      var text' := if n.kind == TextNode || n.kind == CDataNode then Append(text, n.value) else text;
      InnerLoop(nodes, st.(pos := st.pos + 1), elements, text')
  }

  /** The key `namespaceAware` stores a child under: the local name when the
      child is in the given namespace, its Clark name otherwise. */
  function NamespacedKey(n: Node, namespace: string): string {
    if n.ns == namespace then n.local else ClarkOf(n).GetOr("")
  }

  /** `Deserializer\namespaceAware($reader, $namespace)`. */
  function NamespaceAware(nodes: seq<Node>, st: RState, namespace: string): (r: Result<Step<seq<Entry<Value>>>>)
    requires st.pos <= |nodes|
    ensures Progress(nodes, st, r)
    decreases |nodes| - st.pos, 1
  {
    var n := At(nodes, st.pos);
    if n.isEmpty then Ok(Step([], st.(pos := NextPos(nodes, st.pos))))
    else if st.pos == |nodes| then Err(NeverTerminates)
    else NamespaceLoop(nodes, st.(pos := st.pos + 1), namespace, [])
  }

  /** The do-while loop of `namespaceAware`: the body runs before the test
      for an end tag. At the end of input neither branch moves the cursor
      onto an end tag, so the loop never ends. */
  function NamespaceLoop(nodes: seq<Node>, st: RState, namespace: string, values: seq<Entry<Value>>)
    : (r: Result<Step<seq<Entry<Value>>>>)
    requires st.pos <= |nodes|
    ensures r.Ok? ==> st.pos < r.value.state.pos <= |nodes| && r.value.state.ctx == st.ctx
    decreases |nodes| - st.pos, 5
  {
    if st.pos == |nodes| then Err(NeverTerminates)
    else
      match NamespaceBody(nodes, st, namespace, values)
      case Err(e) => Err(e)
      case Ok(b) =>
        if At(nodes, b.state.pos).kind == EndElementNode then Ok(Step(b.value, b.state.(pos := b.state.pos + 1)))
        else NamespaceLoop(nodes, b.state, namespace, b.value)
  }

  /** The body of that loop on a node: an element is decoded and stored
      under its key; any other node is read past. */
  function NamespaceBody(nodes: seq<Node>, st: RState, namespace: string, values: seq<Entry<Value>>)
    : (r: Result<Step<seq<Entry<Value>>>>)
    requires st.pos < |nodes|
    ensures Progress(nodes, st, r)
    decreases |nodes| - st.pos, 4
  {
    var n := nodes[st.pos];
    if n.kind == ElementNode then
      match CurrentElement(nodes, st)
      case Err(e) => Err(e)
      case Ok(s) => Ok(Step(Put(values, NamespacedKey(n, namespace), s.value.value), s.state))
    else Ok(Step(values, st.(pos := st.pos + 1)))
  }

  /** The loop of `readText()`: read until the depth is back at `depth` or
      the input ends, keeping TEXT, CDATA and WHITESPACE values. */
  function ReadTextLoop(nodes: seq<Node>, pos: nat, depth: nat, acc: string): (r: (string, nat))
    requires pos <= |nodes|
    ensures pos <= r.1 <= |nodes|
    ensures acc <= r.0
    decreases |nodes| - pos
  {
    var p := ReadPos(nodes, pos);
    if p == |nodes| || nodes[p].depth == depth then (acc, p)
    else
      var n := nodes[p];
      var kept := if n.kind == TextNode || n.kind == CDataNode || n.kind == WhitespaceNode then n.value else "";
      ReadTextLoop(nodes, p, depth, acc + kept)
  }

  /** `readText()`: the text and the position it stops at. */
  function ReadTextOf(nodes: seq<Node>, pos: nat): (r: (string, nat))
    requires pos <= |nodes|
    ensures pos <= r.1 <= |nodes|
  {
    ReadTextLoop(nodes, pos, At(nodes, pos).depth, "")
  }

  /** The skip loop of `parse()`: on to the first element, or to the end. */
  function SkipToElement(nodes: seq<Node>, pos: nat): (p: nat)
    requires pos <= |nodes|
    ensures pos <= p <= |nodes|
    ensures p < |nodes| ==> nodes[p].kind == ElementNode
    ensures forall i :: pos <= i < p ==> nodes[i].kind != ElementNode
    decreases |nodes| - pos
  {
    if pos == |nodes| || nodes[pos].kind == ElementNode then pos
    else SkipToElement(nodes, pos + 1)
  }

  /** `parse()`: the root record, unless libxml reported errors while
      reading, which become one `LibXMLException`. */
  function ParseDocument(nodes: seq<Node>, st: RState, libxmlErrors: seq<string>): (r: Result<Step<Record>>)
    requires st.pos <= |nodes|
    ensures libxmlErrors != [] ==> r.Err?
    ensures libxmlErrors == [] ==> r == CurrentElement(nodes, st.(pos := SkipToElement(nodes, st.pos)))
  {
    match CurrentElement(nodes, st.(pos := SkipToElement(nodes, st.pos)))
    case Err(e) => Err(e)
    case Ok(s) => if libxmlErrors != [] then Err(LibXmlError(libxmlErrors)) else Ok(s)
  }

  /** A method's outcome paired with the state it left, in the form the
      functions above return. */
  function Done<T>(r: Result<T>, st: RState): Result<Step<T>> {
    match r
    case Ok(v) => Ok(Step(v, st))
    case Err(e) => Err(e)
  }

  /** The Reader object: an XMLReader cursor with the context stack. */
  class Reader {
    const cursor: NodeCursor
    const context: ContextStack<Handler>
    /** The errors libxml collects while it tokenizes this input. */
    const libxmlErrors: seq<string>

    function State(): RState
      reads this, cursor, context
    {
      RState(cursor.pos, context.State())
    }

    constructor (input: seq<Node>, errors: seq<string>)
      ensures fresh(cursor) && fresh(context) && cursor.Valid()
      ensures cursor.nodes == input && libxmlErrors == errors
      ensures State() == RState(0, Context(Frame(map[], None, []), []))
    {
      cursor := new NodeCursor(input);
      context := new ContextStack();
      libxmlErrors := errors;
    }

    method GetClark() returns (name: Option<string>)
      requires cursor.Valid()
      ensures name == ClarkOf(cursor.Current())
    {
      var n := cursor.Current();
      if !Truthy(n.local) {
        return None;
      }
      return Some("{" + n.ns + "}" + n.local);
    }

    /** `parseAttributes()`: walks the attributes of the current node; the
        cursor ends where it started. */
    method ParseAttributes() returns (attributes: seq<Entry<string>>)
      requires cursor.Valid()
      ensures attributes == AttributesOf(cursor.Current().attributes)
    {
      var attrs := cursor.Current().attributes;
      attributes := [];
      var i := 0;
      while i < |attrs|
        invariant 0 <= i <= |attrs|
        invariant attributes == AttributesOf(attrs[..i])
      {
        var a := attrs[i];
        assert attrs[..i + 1][..i] == attrs[..i];
        if Truthy(a.ns) {
          if a.ns != XMLNS_NAMESPACE {
            var key := if Truthy(a.local) then "{" + a.ns + "}" + a.local else "";
            attributes := Put(attributes, key, a.value);
          }
        } else {
          attributes := Put(attributes, a.local, a.value);
        }
        i := i + 1;
      }
      assert attrs[..|attrs|] == attrs;
    }

    /** `parseCurrentElement()` */
    method ParseCurrentElement() returns (r: Result<Record>)
      requires cursor.Valid()
      modifies cursor, context
      ensures cursor.Valid()
      ensures Done(r, State()) == CurrentElement(cursor.nodes, old(State()))
      decreases |cursor.nodes| - cursor.pos, 3
    {
      var name := GetClark();
      var attributes := [];
      if cursor.Current().attributes != [] {
        attributes := ParseAttributes();
      }
      var key := name.GetOr("");
      var value: Result<Value>;
      if key in context.elementMap {
        var handler := context.elementMap[key];
        match handler {
          case ParseTree(m) =>
            value := ParseInnerTree(m);
          case ParseNamespaced(ns) =>
            var v := NamespaceAwareOn(this, ns);
            value := if v.Ok? then Ok(Keyed(v.value)) else Err(v.error);
          case Eater =>
            var p := EatElement(cursor);
            value := if p.Ok? then Ok(Null) else Err(p.error);
          case Unusable(t) =>
            value := Err(LogicError(NOT_A_DESERIALIZER + t));
        }
      } else {
        value := ParseInnerTree(None);
      }
      if value.Err? {
        return Err(value.error);
      }
      return Ok(Record(name, value.value, attributes));
    }

    /** `parseInnerTree($elementMap)` */
    method ParseInnerTree(m: Option<map<string, Handler>>) returns (r: Result<Value>)
      requires cursor.Valid()
      modifies cursor, context
      ensures cursor.Valid()
      ensures Done(r, State()) == InnerTree(cursor.nodes, old(State()), m)
      decreases |cursor.nodes| - cursor.pos, 1
    {
      var n := cursor.Current();
      if n.kind == ElementNode && n.isEmpty {
        var _ := cursor.Next();
        return Ok(Null);
      }
      if m.Some? {
        context.PushContext();
        context.elementMap := m.value;
      }
      var ok := cursor.Read();
      if !ok {
        return Ok(False);
      }
      ghost var inner := context.State();
      r := ParseChildren();
      if r.Err? {
        return;
      }
      assert context.State() == inner;
      if m.Some? {
        context.PopContext();
      }
    }

    /** The `while (true)` loop of `parseInnerTree`: children are decoded in
        turn, text and CDATA are gathered, the end tag is read past. */
    method ParseChildren() returns (r: Result<Value>)
      requires cursor.Valid()
      modifies cursor, context
      ensures cursor.Valid()
      ensures Done(r, State()) == InnerLoop(cursor.nodes, old(State()), [], None)
      decreases |cursor.nodes| - cursor.pos, 4
    {
      var elements: seq<Record> := [];
      var text: Option<string> := None;
      while true
        invariant cursor.Valid() && old(cursor.pos) <= cursor.pos
        invariant InnerLoop(cursor.nodes, State(), elements, text) == InnerLoop(cursor.nodes, old(State()), [], None)
        decreases |cursor.nodes| - cursor.pos
      {
        ghost var st := State();
        var node := cursor.Current();
        if node.kind == ElementNode {
          var rec := ParseCurrentElement();
          if rec.Err? {
            return Err(rec.error);
          }
          assert CurrentElement(cursor.nodes, st) == Ok(Step(rec.value, State()));
          assert InnerLoop(cursor.nodes, st, elements, text)
              == InnerLoop(cursor.nodes, State(), elements + [rec.value], text);
          elements := elements + [rec.value];
        } else if node.kind == EndElementNode {
          var _ := cursor.Read();
          break;
        } else if node.kind == NoneNode {
          return Err(ParseError(PREMATURE_END));
        } else {
          if node.kind == TextNode || node.kind == CDataNode {
            text := Append(text, node.value);
          }
          var _ := cursor.Read();
          assert State() == st.(pos := st.pos + 1);
        }
      }
      return Ok(Combine(elements, text));
    }

    /** `readText()` */
    method ReadText() returns (text: string)
      requires cursor.Valid()
      modifies cursor
      ensures cursor.Valid()
      ensures (text, cursor.pos) == ReadTextOf(cursor.nodes, old(cursor.pos))
    {
      text := "";
      var depth := cursor.Current().depth;
      while true
        invariant cursor.Valid()
        invariant ReadTextLoop(cursor.nodes, cursor.pos, depth, text) == ReadTextOf(cursor.nodes, old(cursor.pos))
        decreases |cursor.nodes| - cursor.pos
      {
        var ok := cursor.Read();
        if !ok || cursor.Current().depth == depth {
          break;
        }
        var n := cursor.Current();
        var kept := if n.kind == TextNode || n.kind == CDataNode || n.kind == WhitespaceNode then n.value else "";
        text := text + kept;
      }
    }

    /** `parse()` */
    method Parse() returns (r: Result<Record>)
      requires cursor.Valid()
      modifies cursor, context
      ensures cursor.Valid()
      ensures r.Ok? <==> ParseDocument(cursor.nodes, old(State()), libxmlErrors).Ok?
      ensures r.Ok? ==> Done(r, State()) == ParseDocument(cursor.nodes, old(State()), libxmlErrors)
      ensures r.Err? ==> r.error == ParseDocument(cursor.nodes, old(State()), libxmlErrors).error
    {
      while cursor.Current().kind != ElementNode && cursor.pos < |cursor.nodes|
        invariant cursor.Valid() && old(cursor.pos) <= cursor.pos
        invariant SkipToElement(cursor.nodes, cursor.pos) == SkipToElement(cursor.nodes, old(cursor.pos))
        invariant context.State() == old(context.State())
        decreases |cursor.nodes| - cursor.pos
      {
        var _ := cursor.Read();
      }
      r := ParseCurrentElement();
      if r.Ok? && libxmlErrors != [] {
        r := Err(LibXmlError(libxmlErrors));
      }
    }
  }

  /** `Deserializer\namespaceAware($reader, $namespace)` run on a Reader. */
  method NamespaceAwareOn(reader: Reader, namespace: string) returns (r: Result<seq<Entry<Value>>>)
    requires reader.cursor.Valid()
    modifies reader.cursor, reader.context
    ensures reader.cursor.Valid()
    ensures Done(r, reader.State()) == NamespaceAware(reader.cursor.nodes, old(reader.State()), namespace)
    decreases |reader.cursor.nodes| - reader.cursor.pos, 1
  {
    var cursor := reader.cursor;
    if cursor.Current().isEmpty {
      var _ := cursor.Next();
      return Ok([]);
    }
    if cursor.pos == |cursor.nodes| {
      return Err(NeverTerminates);
    }
    var _ := cursor.Read();
    r := NamespaceLoopOn(reader, namespace);
  }

  /** The do-while loop of `namespaceAware`, from the first node after the
      start tag. */
  method NamespaceLoopOn(reader: Reader, namespace: string) returns (r: Result<seq<Entry<Value>>>)
    requires reader.cursor.Valid()
    modifies reader.cursor, reader.context
    ensures reader.cursor.Valid()
    ensures Done(r, reader.State()) == NamespaceLoop(reader.cursor.nodes, old(reader.State()), namespace, [])
    decreases |reader.cursor.nodes| - reader.cursor.pos, 5
  {
    var cursor := reader.cursor;
    var values: seq<Entry<Value>> := [];
    ghost var goal := NamespaceLoop(cursor.nodes, reader.State(), namespace, []);
    while true
      invariant cursor.Valid() && old(cursor.pos) <= cursor.pos
      invariant NamespaceLoop(cursor.nodes, reader.State(), namespace, values) == goal
      decreases |cursor.nodes| - cursor.pos
    {
      if cursor.pos == |cursor.nodes| {
        return Err(NeverTerminates);
      }
      ghost var st := reader.State();
      ghost var before := values;
      var b := NamespaceBodyOn(reader, namespace, values);
      if b.Err? {
        return Err(b.error);
      }
      values := b.value;
      if cursor.Current().kind == EndElementNode {
        break;
      }
    }
    var _ := cursor.Read();
    return Ok(values);
  }

  /** One run of the loop body. */
  method NamespaceBodyOn(reader: Reader, namespace: string, values: seq<Entry<Value>>)
    returns (r: Result<seq<Entry<Value>>>)
    requires reader.cursor.Valid() && reader.cursor.pos < |reader.cursor.nodes|
    modifies reader.cursor, reader.context
    ensures reader.cursor.Valid()
    ensures Done(r, reader.State()) == NamespaceBody(reader.cursor.nodes, old(reader.State()), namespace, values)
    decreases |reader.cursor.nodes| - reader.cursor.pos, 4
  {
    var cursor := reader.cursor;
    var n := cursor.Current();
    if n.kind == ElementNode {
      var key := NamespacedKey(n, namespace);
      var rec := reader.ParseCurrentElement();
      if rec.Err? {
        return Err(rec.error);
      }
      return Ok(Put(values, key, rec.value.value));
    }
    var _ := cursor.Read();
    return Ok(values);
  }
}
