/** The first generation, `Sabre\XML\Reader`, together with the
    `Element\Struct` deserializer it dispatches to: a depth-driven
    `parseSubTree`, an `isset` dispatch on `elementMap`, and a Struct that
    builds nested arrays with a stack of references.

    As for the current Reader, every operation is a function of the cursor
    position, implemented on the `LegacyReader` object and proved equal to
    that function. An input on which the source would loop forever is
    `Err(NeverTerminates)`. */
module LegacyReader {
  import opened Wrappers
  import opened Php
  import opened Clark
  import opened Cursor
  import Reader

  /** The element classes a first-generation `elementMap` can name. */
  datatype LHandler =
    | StructClass   // `Element\Struct`
    | EaterClass    // the test suite's over-consuming element class
    | SubTreeClass  // any element class that deserializes through `parseSubTree()`

  /** The values `Element\Struct` builds: null, a string, or a string-keyed
      array of such values. */
  datatype SVal = SNull | SStr(s: string) | SArr(entries: seq<Entry<SVal>>)

  /** The values the first-generation decoder produces. */
  datatype LValue =
    | LNull
    | LStr(s: string)
    | LRecords(items: seq<LRecord>)  // the list of child records
    | LStruct(v: SVal)               // what `Element\Struct` returns

  /** The `['name' => …, 'value' => …, 'attributes' => …]` array. */
  datatype LRecord = LRecord(name: Option<string>, value: LValue, attributes: seq<Entry<string>>)

  /** A result together with the cursor position after it. */
  datatype LStep<T> = LStep(value: T, pos: nat)

  /** `getClark()`: null when the node has no namespace URI. */
  function LegacyClarkOf(n: Node): (r: Option<string>)
    ensures r.Some? <==> Truthy(n.ns)
    ensures r.Some? ==> r.value == Format(QName(n.ns, n.local))
  {
    if !Truthy(n.ns) then None else Some(Format(QName(n.ns, n.local)))
  }

  /** The key of an attribute: its Clark name when it has a namespace, its
      local name otherwise. */
  function LegacyAttributeKey(a: Attribute): string {
    if Truthy(a.ns) then Format(QName(a.ns, a.local)) else a.local
  }

  /** `parseAttributes()`: the attributes written into a PHP array in
      document order, namespace declarations left out. */
  function LegacyAttributesOf(attrs: seq<Attribute>): seq<Entry<string>>
  {
    if attrs == [] then []
    else
      var acc := LegacyAttributesOf(attrs[..|attrs| - 1]);
      var a := attrs[|attrs| - 1];
      if Reader.Declaration(a) then acc else Put(acc, LegacyAttributeKey(a), a.value)
  }

  /** The class `parseCurrentElement` uses: `isset($elementMap[$name])`, so
      a null entry counts as absent; a null name looks up the key "". */
  function LegacyHandlerFor(elementMap: map<string, Option<LHandler>>, name: Option<string>): (h: Option<LHandler>)
    ensures name.GetOr("") !in elementMap ==> h.None?
    ensures name.GetOr("") in elementMap && elementMap[name.GetOr("")].None? ==> h.None?
    ensures h.Some? ==> Some(h.value) in elementMap.Values
  {
    var key := name.GetOr("");
    if key in elementMap then elementMap[key] else None
  }

  /** `$elements ? $elements : $text` */
  function LegacyCombine(elements: seq<LRecord>, text: Option<string>): (v: LValue)
    ensures elements != [] ==> v == LRecords(elements)
    ensures elements == [] && text.None? ==> v == LNull
    ensures elements == [] && text.Some? ==> v == LStr(text.value)
  {
    if elements != [] then LRecords(elements)
    else match text
      case None => LNull
      case Some(s) => LStr(s)
  }

  /** What every decoding step guarantees: the cursor never moves back and
      moves forward from any node. */
  predicate LegacyProgress<T>(nodes: seq<Node>, pos: nat, r: Result<LStep<T>>) {
    r.Ok? ==> pos <= r.value.pos <= |nodes| && (pos < |nodes| ==> pos < r.value.pos)
  }

  /** `parseCurrentElement()` */
  function LegacyCurrentElement(nodes: seq<Node>, em: map<string, Option<LHandler>>, pos: nat): (r: Result<LStep<LRecord>>)
    requires pos <= |nodes|
    ensures LegacyProgress(nodes, pos, r)
    decreases |nodes| - pos, 3
  {
    var n := At(nodes, pos);
    var name := LegacyClarkOf(n);
    match LegacyDispatch(nodes, em, pos, LegacyHandlerFor(em, name))
    case Err(e) => Err(e)
    case Ok(s) => Ok(LStep(LRecord(name, s.value, LegacyAttributesOf(n.attributes)), s.pos))
  }

  /** `call_user_func([$class, 'deserializeXml'], $this)`; no class means
      the generic element, which decodes with `parseSubTree()`. */
  function LegacyDispatch(nodes: seq<Node>, em: map<string, Option<LHandler>>, pos: nat, h: Option<LHandler>)
    : (r: Result<LStep<LValue>>)
    requires pos <= |nodes|
    ensures LegacyProgress(nodes, pos, r)
    ensures h == Some(StructClass) && r.Ok? ==> r.value.value.LStruct? && r.value.value.v.SArr?
    ensures h == Some(EaterClass) && r.Ok? ==> r.value.value == LNull
    decreases |nodes| - pos, 2
  {
    match h
    case None => LegacySubTree(nodes, em, pos)
    case Some(SubTreeClass) => LegacySubTree(nodes, em, pos)
    case Some(StructClass) =>
      (match StructOf(nodes, pos)
       case Err(e) => Err(e)
       case Ok(s) => Ok(LStep(LStruct(s.value), s.pos)))
    case Some(EaterClass) =>
      (match Eat(nodes, pos)
       case Err(e) => Err(e)
       case Ok(p) => Ok(LStep(LNull, p)))
  }

  /** `parseSubTree()`: one `read()`, then the do-while loop. Past the end
      of input the loop body and its test do nothing, so the result there is
      null. */
  function LegacySubTree(nodes: seq<Node>, em: map<string, Option<LHandler>>, pos: nat): (r: Result<LStep<LValue>>)
    requires pos <= |nodes|
    ensures LegacyProgress(nodes, pos, r)
    decreases |nodes| - pos, 1
  {
    if pos == |nodes| then Ok(LStep(LNull, pos))
    else LegacySubLoop(nodes, em, pos + 1, At(nodes, pos).depth, [], None)
  }

  /** The do-while loop of `parseSubTree`, from the current node on, with
      the children and text gathered so far. The TEXT case falls through
      into `default`, so a text node is followed by two `read()` calls. The
      loop runs while the depth is below the starting depth; if it stops on
      an end tag, one more `read()` follows. */
  function LegacySubLoop(nodes: seq<Node>, em: map<string, Option<LHandler>>, pos: nat, prev: nat,
                         elements: seq<LRecord>, text: Option<string>): (r: Result<LStep<LValue>>)
    requires pos <= |nodes|
    ensures LegacyProgress(nodes, pos, r)
    ensures r.Ok? ==> r.value.value.LNull? || r.value.value.LStr? || r.value.value.LRecords?
    ensures r.Ok? && text.Some? && r.value.value.LStr? ==> text.value <= r.value.value.s
    decreases |nodes| - pos, 4
  {
    var n := At(nodes, pos);
    var body: Result<(nat, seq<LRecord>, Option<string>)> :=
      if n.kind == ElementNode then
        (match LegacyCurrentElement(nodes, em, pos)
         case Err(e) => Err(e)
         case Ok(s) => Ok((s.pos, elements + [s.value], text)))
      else if n.kind == TextNode then Ok((ReadPos(nodes, ReadPos(nodes, pos)), elements, Some(text.GetOr("") + n.value)))
      else Ok((ReadPos(nodes, pos), elements, text));
    match body
    case Err(e) => Err(e)
    case Ok((q, els, txt)) =>
      if q < |nodes| && nodes[q].depth > prev then LegacySubLoop(nodes, em, q, prev, els, txt)
      else Ok(LStep(LegacyCombine(els, txt), if At(nodes, q).kind == EndElementNode then ReadPos(nodes, q) else q))
  }

  /** `Element\Struct::deserializeXml`: a self-closing element gives an
      empty array after `next()`; otherwise the loop runs from the node
      after the start tag, with the array itself as the only slot on the
      stack. */
  function StructOf(nodes: seq<Node>, pos: nat): (r: Result<LStep<SVal>>)
    requires pos <= |nodes|
    ensures LegacyProgress(nodes, pos, r)
    ensures r.Ok? ==> r.value.value.SArr?
  {
    if At(nodes, pos).isEmpty then Ok(LStep(SArr([]), NextPos(nodes, pos)))
    else
      match StructLoop(nodes, ReadPos(nodes, pos), SArr([]), [])
      case Err(e) => Err(e)
      case Ok((v, q)) => Ok(LStep(v, q))
  }

  /** The slot a key path leads to; a path through a missing key or a
      non-array ends in null. */
  function SlotAt(v: SVal, path: seq<string>): SVal
    decreases |path|
  {
    if path == [] then v
    else match v
      case SArr(es) => SlotAt(Get(es, path[0]).GetOr(SNull), path[1..])
      case _ => SNull
  }

  /** Assignment through the reference a key path stands for. */
  function SetSlot(v: SVal, path: seq<string>, x: SVal): SVal
    decreases |path|
  {
    if path == [] then x
    else match v
      case SArr(es) => SArr(Put(es, path[0], SetSlot(Get(es, path[0]).GetOr(SNull), path[1..], x)))
      case _ => v
  }

  /** What a text node does to the current slot: null takes the text, a
      string is extended, an array ignores it. */
  function TextInto(slot: SVal, s: string): SVal {
    match slot
    case SNull => SStr(s)
    case SStr(t) => SStr(t + s)
    case SArr(_) => slot
  }

  /** What a start tag does to the current slot: a slot that is not an
      array becomes an empty one, and the child's key is set to null. */
  function ChildInto(slot: SVal, key: string): SVal {
    SArr(Put(if slot.SArr? then slot.entries else [], key, SNull))
  }

  /** The do-while loop of `Element\Struct`, on the node the `read()` at its
      top has reached. `root` is the array being built and `path` the keys
      of the references stacked above it, the last one being
      `$currentValue`. The loop ends when an end tag pops the array itself,
      leaving the cursor on that end tag; at the end of input nothing
      changes any more and the loop never ends. */
  function StructLoop(nodes: seq<Node>, p: nat, root: SVal, path: seq<string>): (r: Result<(SVal, nat)>)
    requires p <= |nodes|
    ensures r.Ok? ==> p <= r.value.1 < |nodes| && nodes[r.value.1].kind == EndElementNode
    ensures r.Ok? && root.SArr? ==> r.value.0.SArr?
    decreases |nodes| - p
  {
    if p == |nodes| then Err(NeverTerminates)
    else
      var n := nodes[p];
      if n.kind == ElementNode then
        var key := LegacyClarkOf(n).GetOr("");
        var root' := SetSlot(root, path, ChildInto(SlotAt(root, path), key));
        StructLoop(nodes, p + 1, root', if n.isEmpty then path else path + [key])
      else if n.kind == TextNode then
        StructLoop(nodes, p + 1, SetSlot(root, path, TextInto(SlotAt(root, path), n.value)), path)
      else if n.kind == EndElementNode then
        if path == [] then Ok((root, p)) else StructLoop(nodes, p + 1, root, path[..|path| - 1])
      else StructLoop(nodes, p + 1, root, path)
  }

  /** The skip loop of `parse()`: on to the first element. It has no exit
      at the end of input. */
  function LegacySkip(nodes: seq<Node>, pos: nat): (r: Result<nat>)
    requires pos <= |nodes|
    ensures r.Ok? ==> pos <= r.value < |nodes| && nodes[r.value].kind == ElementNode
    ensures r.Ok? ==> forall i :: pos <= i < r.value ==> nodes[i].kind != ElementNode
    decreases |nodes| - pos
  {
    if pos == |nodes| then Err(NeverTerminates)
    else if nodes[pos].kind == ElementNode then Ok(pos)
    else LegacySkip(nodes, pos + 1)
  }

  /** `parse()`: a one-element list holding the root record. */
  function LegacyParse(nodes: seq<Node>, em: map<string, Option<LHandler>>, pos: nat): (r: Result<LStep<seq<LRecord>>>)
    requires pos <= |nodes|
  {
    match LegacySkip(nodes, pos)
    case Err(e) => Err(e)
    case Ok(p) =>
      match LegacyCurrentElement(nodes, em, p)
      case Err(e) => Err(e)
      case Ok(s) => Ok(LStep([s.value], s.pos))
  }

  /** A method's outcome paired with the position it left, in the form the
      functions above return. */
  function LDone<T>(r: Result<T>, pos: nat): Result<LStep<T>> {
    match r
    case Ok(v) => Ok(LStep(v, pos))
    case Err(e) => Err(e)
  }

  /** The first-generation Reader object: an XMLReader cursor and the
      element map. */
  class LegacyReader {
    const cursor: NodeCursor
    const elementMap: map<string, Option<LHandler>>

    constructor (input: seq<Node>, em: map<string, Option<LHandler>>)
      ensures fresh(cursor) && cursor.Valid() && cursor.nodes == input && cursor.pos == 0
      ensures elementMap == em
    {
      cursor := new NodeCursor(input);
      elementMap := em;
    }

    method GetClark() returns (name: Option<string>)
      requires cursor.Valid()
      ensures name == LegacyClarkOf(cursor.Current())
    {
      var n := cursor.Current();
      if !Truthy(n.ns) {
        return None;
      }
      return Some("{" + n.ns + "}" + n.local);
    }

    /** `parseAttributes()`: walks the attributes of the current node; the
        cursor ends where it started. */
    method ParseAttributes() returns (attributes: seq<Entry<string>>)
      requires cursor.Valid()
      ensures attributes == LegacyAttributesOf(cursor.Current().attributes)
    {
      var attrs := cursor.Current().attributes;
      attributes := [];
      var i := 0;
      while i < |attrs|
        invariant 0 <= i <= |attrs|
        invariant attributes == LegacyAttributesOf(attrs[..i])
      {
        var a := attrs[i];
        assert attrs[..i + 1][..i] == attrs[..i];
        if Truthy(a.ns) {
          if a.ns != Reader.XMLNS_NAMESPACE {
            attributes := Put(attributes, "{" + a.ns + "}" + a.local, a.value);
          }
        } else {
          attributes := Put(attributes, a.local, a.value);
        }
        i := i + 1;
      }
      assert attrs[..|attrs|] == attrs;
    }

    /** `parseCurrentElement()` */
    method ParseCurrentElement() returns (r: Result<LRecord>)
      requires cursor.Valid()
      modifies cursor
      ensures cursor.Valid()
      ensures LDone(r, cursor.pos) == LegacyCurrentElement(cursor.nodes, elementMap, old(cursor.pos))
      decreases |cursor.nodes| - cursor.pos, 3
    {
      var name := GetClark();
      var attributes := [];
      if cursor.Current().attributes != [] {
        attributes := ParseAttributes();
      }
      var key := name.GetOr("");
      var value: Result<LValue>;
      if key in elementMap && elementMap[key].Some? {
        match elementMap[key].value {
          case SubTreeClass =>
            value := ParseSubTree();
          case StructClass =>
            var v := StructDeserialize(this);
            value := if v.Ok? then Ok(LStruct(v.value)) else Err(v.error);
          case EaterClass =>
            var p := EatElement(cursor);
            value := if p.Ok? then Ok(LNull) else Err(p.error);
        }
      } else {
        value := ParseSubTree();
      }
      if value.Err? {
        return Err(value.error);
      }
      return Ok(LRecord(name, value.value, attributes));
    }

    /** `parseSubTree()` */
    method ParseSubTree() returns (r: Result<LValue>)
      requires cursor.Valid()
      modifies cursor
      ensures cursor.Valid()
      ensures LDone(r, cursor.pos) == LegacySubTree(cursor.nodes, elementMap, old(cursor.pos))
      decreases |cursor.nodes| - cursor.pos, 1
    {
      var previousDepth := cursor.Current().depth;
      var text: Option<string> := None;
      var elements: seq<LRecord> := [];
      var _ := cursor.Read();
      ghost var goal := LegacySubTree(cursor.nodes, elementMap, old(cursor.pos));
      while true
        invariant cursor.Valid() && old(cursor.pos) <= cursor.pos
        invariant old(cursor.pos) < |cursor.nodes| ==> old(cursor.pos) < cursor.pos
        invariant old(cursor.pos) < |cursor.nodes| ==>
          LegacySubLoop(cursor.nodes, elementMap, cursor.pos, previousDepth, elements, text) == goal
        invariant old(cursor.pos) == |cursor.nodes| ==> elements == [] && text == None && cursor.pos == |cursor.nodes|
        decreases |cursor.nodes| - cursor.pos
      {
        ghost var p := cursor.pos;
        var node := cursor.Current();
        if node.kind == ElementNode {
          var rec := ParseCurrentElement();
          if rec.Err? {
            return Err(rec.error);
          }
          elements := elements + [rec.value];
        } else if node.kind == TextNode {
          text := Some(text.GetOr("") + node.value);
          var _ := cursor.Read();
          var _ := cursor.Read();
        } else {
          var _ := cursor.Read();
        }
        if !(cursor.pos < |cursor.nodes| && cursor.Current().depth > previousDepth) {
          break;
        }
      }
      if cursor.Current().kind == EndElementNode {
        var _ := cursor.Read();
      }
      return Ok(LegacyCombine(elements, text));
    }

    /** `parse()` */
    method Parse() returns (r: Result<seq<LRecord>>)
      requires cursor.Valid()
      modifies cursor
      ensures cursor.Valid()
      ensures LDone(r, cursor.pos) == LegacyParse(cursor.nodes, elementMap, old(cursor.pos))
    {
      while cursor.Current().kind != ElementNode
        invariant cursor.Valid() && old(cursor.pos) <= cursor.pos
        invariant LegacySkip(cursor.nodes, cursor.pos) == LegacySkip(cursor.nodes, old(cursor.pos))
        decreases |cursor.nodes| - cursor.pos
      {
        if cursor.pos == |cursor.nodes| {
          return Err(NeverTerminates);
        }
        var _ := cursor.Read();
      }
      var rec := ParseCurrentElement();
      if rec.Err? {
        return Err(rec.error);
      }
      return Ok([rec.value]);
    }
  }

  /** `Element\Struct::deserializeXml($reader)`. The stack of references is
      the key path from the array being built to the current slot. */
  method StructDeserialize(reader: LegacyReader) returns (r: Result<SVal>)
    requires reader.cursor.Valid()
    modifies reader.cursor
    ensures reader.cursor.Valid()
    ensures LDone(r, reader.cursor.pos) == StructOf(reader.cursor.nodes, old(reader.cursor.pos))
    decreases |reader.cursor.nodes| - reader.cursor.pos, 2
  {
    var cursor := reader.cursor;
    if cursor.Current().isEmpty {
      var _ := cursor.Next();
      return Ok(SArr([]));
    }
    var values := SArr([]);
    var path: seq<string> := [];
    var _ := cursor.Read();
    ghost var goal := StructLoop(cursor.nodes, cursor.pos, values, path);
    while true
      invariant cursor.Valid()
      invariant StructLoop(cursor.nodes, cursor.pos, values, path) == goal
      decreases |cursor.nodes| - cursor.pos
    {
      if cursor.pos == |cursor.nodes| {
        return Err(NeverTerminates);
      }
      var node := cursor.Current();
      if node.kind == ElementNode {
        var clark := reader.GetClark();
        var key := clark.GetOr("");
        values := SetSlot(values, path, ChildInto(SlotAt(values, path), key));
        if !node.isEmpty {
          path := path + [key];
        }
      } else if node.kind == TextNode {
        values := SetSlot(values, path, TextInto(SlotAt(values, path), node.value));
      } else if node.kind == EndElementNode {
        if path == [] {
          break;
        }
        path := path[..|path| - 1];
      }
      var _ := cursor.Read();
    }
    return Ok(values);
  }
}
