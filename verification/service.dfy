/** `Sabre\Xml\Service`: the central configuration point holding an element
    map for reading and a namespace map for writing, with one-call parsing,
    parsing with an expected root, and document writing.

    Stream inputs are read into the node sequence before any of this
    starts, so every input here is the node sequence libxml produced for
    the document, together with the errors libxml reported. */
module Service {
  import opened Wrappers
  import opened Php
  import opened Clark
  import opened Cursor
  import opened ContextStack
  import opened Reader
  import opened ReaderProperties
  import opened Writer
  import opened WriterProperties

  /** `parse()`: the root record of a document read with this element map
      and context URI. */
  function ParseOf(elementMap: map<string, Handler>, nodes: seq<Node>, errors: seq<string>, contextUri: Option<string>): (r: Result<Record>)
    ensures r.Ok? ==> errors == []
  {
    match ParseDocument(nodes, RState(0, Context(Frame(elementMap, contextUri, []), [])), errors)
    case Err(e) => Err(e)
    case Ok(s) => Ok(s.value)
  }

  /** The message of the exception `expect()` throws; a null root name
      concatenates as the empty string. */
  function ExpectMessage(expected: string, received: Option<string>): string {
    "Expected " + expected + " but received " + received.GetOr("") + " as the root element"
  }

  /** `expect()`: the root value, when the root element has the expected
      Clark name. */
  function ExpectOf(elementMap: map<string, Handler>, expected: string, nodes: seq<Node>, errors: seq<string>, contextUri: Option<string>): (r: Result<Value>)
  {
    match ParseOf(elementMap, nodes, errors, contextUri)
    case Err(e) => Err(e)
    case Ok(rec) =>
      if rec.name != Some(expected) then Err(ParseError(ExpectMessage(expected, rec.name)))
      else Ok(rec.value)
  }

  /** `write()`: the calls a fresh writer with this namespace map receives,
      the document start followed by the root element. */
  function WriteDocumentOf(nsMap: NamespaceMap, rootElementName: string, value: WValue): (r: Result<seq<Event>>)
    requires PlainPrefixes(nsMap)
    ensures r.Ok? ==> |r.value| >= 3 && r.value[0] == Document
  {
    match WriteElementOf(nsMap, WState([Document], [], false), rootElementName, value)
    case Err(e) => Err(e)
    case Ok(st) => Ok(st.events)
  }

  class Service {
    var elementMap: map<string, Handler>
    var namespaceMap: NamespaceMap

    /** Both maps start empty. */
    constructor ()
      ensures elementMap == map[] && namespaceMap == []
    {
      elementMap, namespaceMap := map[], [];
    }

    /** `getReader()`: a fresh reader on the input, configured with this
        element map and nothing else. */
    method GetReader(input: seq<Node>, errors: seq<string>) returns (r: Reader)
      ensures fresh(r) && fresh(r.cursor) && fresh(r.context) && r.cursor.Valid()
      ensures r.cursor.nodes == input && r.libxmlErrors == errors
      ensures r.State() == RState(0, Context(Frame(elementMap, None, []), []))
    {
      r := new Reader(input, errors);
      r.context.elementMap := elementMap;
    }

    /** `getWriter()`: a fresh writer configured with this namespace map. */
    method GetWriter() returns (w: Writer)
      ensures fresh(w)
      ensures w.State() == WState([], [], false) && w.namespaceMap == namespaceMap && w.contextUri == None
    {
      w := new Writer();
      w.namespaceMap := namespaceMap;
    }

    /** `parse($input, $contextUri, &$rootElementName)`: the root value;
        the by-reference root name is `rootIn` when parsing throws, and the
        root element's name otherwise. */
    method Parse(input: seq<Node>, errors: seq<string>, contextUri: Option<string>, rootIn: Option<string>)
      returns (r: Result<Value>, rootElementName: Option<string>)
      ensures var p := ParseOf(elementMap, input, errors, contextUri);
        (r.Ok? <==> p.Ok?)
        && (p.Ok? ==> r.value == p.value.value && rootElementName == p.value.name)
        && (p.Err? ==> r.error == p.error && rootElementName == rootIn)
    {
      var reader := GetReader(input, errors);
      reader.context.contextUri := contextUri;
      var result := reader.Parse();
      if result.Err? {
        return Err(result.error), rootIn;
      }
      rootElementName := result.value.name;
      r := Ok(result.value.value);
    }

    /** `expect($rootElementName, $input, $contextUri)` */
    method Expect(expected: string, input: seq<Node>, errors: seq<string>, contextUri: Option<string>) returns (r: Result<Value>)
      ensures r == ExpectOf(elementMap, expected, input, errors, contextUri)
    {
      var reader := GetReader(input, errors);
      reader.context.contextUri := contextUri;
      var result := reader.Parse();
      if result.Err? {
        return Err(result.error);
      }
      if result.value.name != Some(expected) {
        return Err(ParseError(ExpectMessage(expected, result.value.name)));
      }
      r := Ok(result.value.value);
    }

    /** `write($rootElementName, $value, $contextUri)`: what the writer
        received, standing for `outputMemory()`. */
    method Write(rootElementName: string, value: WValue, contextUri: Option<string>) returns (r: Result<seq<Event>>)
      requires PlainPrefixes(namespaceMap)
      ensures r == WriteDocumentOf(namespaceMap, rootElementName, value)
    {
      var w := GetWriter();
      w.contextUri := contextUri;
      w.StartDocument();
      assert w.State() == WState([Document], [], false);
      var written := w.WriteElement(rootElementName, value);
      if written.Err? {
        return Err(written.error);
      }
      r := Ok(w.events);
    }
  }

  // ---------------------------------------------------------------------
  // Properties

  /** `expect` succeeds exactly when parsing succeeds with the expected
      root name, and then returns what `parse` returns; a wrong root name is
      a `ParseException` naming both. */
  lemma ExpectIff(elementMap: map<string, Handler>, expected: string, nodes: seq<Node>, errors: seq<string>, contextUri: Option<string>)
    ensures var p := ParseOf(elementMap, nodes, errors, contextUri);
      var e := ExpectOf(elementMap, expected, nodes, errors, contextUri);
      (e.Ok? <==> p.Ok? && p.value.name == Some(expected))
      && (e.Ok? ==> e.value == p.value.value)
      && (p.Ok? && p.value.name != Some(expected) ==> e == Err(ParseError(ExpectMessage(expected, p.value.name))))
      && (p.Err? ==> e == Err(p.error))
  {
  }

  /** The root element is the first element node of the document. */
  lemma ParseRootName(elementMap: map<string, Handler>, nodes: seq<Node>, errors: seq<string>, contextUri: Option<string>)
    requires ParseOf(elementMap, nodes, errors, contextUri).Ok?
    ensures ParseOf(elementMap, nodes, errors, contextUri).value.name == ClarkOf(At(nodes, SkipToElement(nodes, 0)))
  {
    var st0 := RState(0, Context(Frame(elementMap, contextUri, []), []));
    var st := st0.(pos := SkipToElement(nodes, 0));
    var d := ParseDocument(nodes, st0, errors);
    assert d.Ok? && ParseOf(elementMap, nodes, errors, contextUri).value == d.value.value;
    assert d == CurrentElement(nodes, st);
    RecordShape(nodes, st);
  }

  /** A document without any element node parses to a record whose name is
      null. */
  lemma NoElementNoName(elementMap: map<string, Handler>, nodes: seq<Node>, errors: seq<string>, contextUri: Option<string>)
    requires ParseOf(elementMap, nodes, errors, contextUri).Ok?
    requires forall i :: 0 <= i < |nodes| ==> nodes[i].kind != ElementNode
    ensures ParseOf(elementMap, nodes, errors, contextUri).value.name.None?
  {
    ParseRootName(elementMap, nodes, errors, contextUri);
    assert SkipToElement(nodes, 0) == |nodes|;
  }

  /** Libxml errors make every `parse` and `expect` throw. */
  lemma LibxmlErrorsThrow(elementMap: map<string, Handler>, expected: string, nodes: seq<Node>, errors: seq<string>, contextUri: Option<string>)
    requires errors != []
    ensures ParseOf(elementMap, nodes, errors, contextUri).Err?
    ensures ExpectOf(elementMap, expected, nodes, errors, contextUri).Err?
  {
  }

  /** A written document is the document start and exactly one element. */
  lemma WriteDocumentShape(nsMap: NamespaceMap, rootElementName: string, value: WValue)
    requires PlainPrefixes(nsMap)
    requires WriteDocumentOf(nsMap, rootElementName, value).Ok?
    ensures var es := WriteDocumentOf(nsMap, rootElementName, value).value;
      es[0] == Document && OneElement(es[1..])
  {
    var st := WState([Document], [], false);
    WriteElementShape(nsMap, st, rootElementName, value);
    var es := WriteDocumentOf(nsMap, rootElementName, value).value;
    assert Added(st.events, es) == es[1..];
  }

  /** A root element in a configured namespace opens with its configured
      prefix and declares the whole namespace map. */
  lemma WriteDocumentDeclares(nsMap: NamespaceMap, q: QName, value: WValue)
    requires PlainPrefixes(nsMap) && Parsable(q) && Get(nsMap, q.ns).Some?
    requires WriteDocumentOf(nsMap, Format(q), value).Ok?
    ensures var es := WriteDocumentOf(nsMap, Format(q), value).value;
      |es| >= 2 + |nsMap|
      && es[1] == StartNS(Get(nsMap, q.ns).value, q.local, None)
      && es[2..2 + |nsMap|] == Declarations(nsMap)
  {
    var st := WState([Document], [], false);
    var st1 := KnownRootStart(nsMap, q);
    var body := if value.WNull? then Ok(st1) else WriteValue(nsMap, st1, value);
    assert body.Ok? && st1.events <= body.value.events;
    var es := WriteDocumentOf(nsMap, Format(q), value).value;
    assert es == body.value.events + [End];
    assert es[2..2 + |nsMap|] == st1.events[2..];
  }

  /** The start tag of a root element in a configured namespace. */
  lemma KnownRootStart(nsMap: NamespaceMap, q: QName) returns (st1: WState)
    requires Parsable(q) && Get(nsMap, q.ns).Some?
    ensures st1.events == [Document, StartNS(Get(nsMap, q.ns).value, q.local, None)] + Declarations(nsMap)
    ensures StartElementOf(nsMap, WState([Document], [], false), Format(q)) == Ok(st1)
  {
    var st := WState([Document], [], false);
    var tag := StartNS(Get(nsMap, q.ns).value, q.local, None);
    RoundTrip(q);
    assert IsClark(Format(q));
    var e := Emit(st, tag);
    assert e == WState([Document, tag], [], false);
    st1 := DeclareOnce(nsMap, e);
    assert st1 == WState([Document, tag] + Declarations(nsMap), [], true);
  }

  /** The namespace and map of the writing example: `http://sabre.io/ns`
      with the prefix `stdClass`. */
  const SABRE_IO := "http://sabre.io/ns"
  const STDCLASS_MAP: NamespaceMap := [Entry(SABRE_IO, Some("stdClass"))]

  /** `['{http://sabre.io/ns}child' => 'value']` */
  const CHILD_VALUE := WArr([Item(StrKey(Format(QName(SABRE_IO, "child"))), WStr("value"))])

  /** Writing `{http://sabre.io/ns}root` holding one child with text:
      `<stdClass:root xmlns:stdClass="http://sabre.io/ns"><stdClass:child>value</stdClass:child></stdClass:root>`. */
  lemma WriteExample()
    ensures WriteDocumentOf(STDCLASS_MAP, Format(QName(SABRE_IO, "root")), CHILD_VALUE)
         == Ok([Document, StartNS(Some("stdClass"), "root", None), Attr("xmlns:stdClass", SABRE_IO),
                StartNS(Some("stdClass"), "child", None), Event.Text("value"), End, End])
  {
    var root := QName(SABRE_IO, "root");
    assert Parsable(root) && Get(STDCLASS_MAP, SABRE_IO) == Some(Some("stdClass"));
    var st1 := KnownRootStart(STDCLASS_MAP, root);
    StdClassDeclarations();
    var st4 := ChildWritten(st1);
    OneEntryArray(STDCLASS_MAP, st1, StrKey(Format(QName(SABRE_IO, "child"))), WStr("value"), st4);
    ElementFromParts(STDCLASS_MAP, WState([Document], [], false), Format(root), CHILD_VALUE, st1, st4);
    DocumentFromElement(STDCLASS_MAP, Format(root), CHILD_VALUE, Emit(st4, End));
    EventsJoin(st1.events, Document, StartNS(Some("stdClass"), "root", None), Declarations(STDCLASS_MAP),
               Attr("xmlns:stdClass", SABRE_IO), StartNS(Some("stdClass"), "child", None), Event.Text("value"));
  }

  /** Three events, then a child element holding text, then the end tag. */
  lemma EventsJoin(head: seq<Event>, a: Event, b: Event, decls: seq<Event>, c: Event, d: Event, e: Event)
    requires decls == [c] && head == [a, b] + decls
    ensures head + [d, e, End] + [End] == [a, b, c, d, e, End, End]
  {
  }

  /** The document is the events of its root element after `startDocument`. */
  lemma DocumentFromElement(nsMap: NamespaceMap, name: string, value: WValue, st: WState)
    requires PlainPrefixes(nsMap) && WriteElementOf(nsMap, WState([Document], [], false), name, value) == Ok(st)
    ensures WriteDocumentOf(nsMap, name, value) == Ok(st.events)
  {
  }

  /** An array of one entry writes that entry. */
  lemma OneEntryArray(nsMap: NamespaceMap, st: WState, key: Key, val: WValue, st1: WState)
    requires PlainPrefixes(nsMap) && WriteEntryOf(nsMap, st, key, val) == Ok(st1)
    ensures WriteValue(nsMap, st, WArr([Item(key, val)])) == Ok(st1)
  {
    assert WriteEntriesFrom(nsMap, st1, WArr([Item(key, val)]), 1) == Ok(st1);
  }

  /** An element is its start tag, its non-null content and its end tag. */
  lemma ElementFromParts(nsMap: NamespaceMap, st: WState, name: string, content: WValue, st1: WState, st2: WState)
    requires PlainPrefixes(nsMap) && !content.WNull?
    requires StartElementOf(nsMap, st, name) == Ok(st1) && WriteValue(nsMap, st1, content) == Ok(st2)
    ensures WriteElementOf(nsMap, st, name, content) == Ok(Emit(st2, End))
  {
  }

  /** The one declaration of the example map. */
  lemma StdClassDeclarations()
    ensures Declarations(STDCLASS_MAP) == [Attr("xmlns:stdClass", SABRE_IO)]
  {
    var d := Declarations(STDCLASS_MAP);
    assert Truthy("stdClass");
    assert DeclarationName(Some("stdClass")) == "xmlns:stdClass";
    assert |d| == 1 && d[0] == Attr("xmlns:stdClass", SABRE_IO);
  }

  /** The child entry of the writing example, after the root's start tag. */
  lemma ChildWritten(st1: WState) returns (st4: WState)
    requires st1.written
    ensures st4 == WState(st1.events + [StartNS(Some("stdClass"), "child", None), Event.Text("value"), End], st1.adhoc, true)
    ensures WriteEntryOf(STDCLASS_MAP, st1, StrKey(Format(QName(SABRE_IO, "child"))), WStr("value")) == Ok(st4)
  {
    var name := Format(QName(SABRE_IO, "child"));
    assert EntryParts(StrKey(name), WStr("value")) == Ok((name, WArr([]), None));
    var st2 := ChildStart(st1);
    assert WriteAttributesOf(STDCLASS_MAP, st2, WArr([])) == Ok(st2);
    var st3 := Emit(st2, Event.Text("value"));
    assert WriteValue(STDCLASS_MAP, st2, WStr("value")) == Ok(st3);
    st4 := Emit(st3, End);
  }

  /** The child's start tag: the configured prefix, no declarations. */
  lemma ChildStart(st1: WState) returns (st2: WState)
    requires st1.written
    ensures st2 == Emit(st1, StartNS(Some("stdClass"), "child", None))
    ensures StartElementOf(STDCLASS_MAP, st1, Format(QName(SABRE_IO, "child"))) == Ok(st2)
  {
    var child := QName(SABRE_IO, "child");
    RoundTrip(child);
    assert IsClark(Format(child));
    assert Get(STDCLASS_MAP, SABRE_IO) == Some(Some("stdClass"));
    st2 := Emit(st1, StartNS(Some("stdClass"), "child", None));
  }
}
