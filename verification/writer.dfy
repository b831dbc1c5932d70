/** The current-generation `Sabre\Xml\Writer`: `write` walks a PHP value and
    issues XMLWriter calls; element and attribute names in Clark notation
    are resolved against `namespaceMap`, unknown namespaces get ad-hoc
    prefixes `x1`, `x2`, … kept in `adhocNamespaces`, and the declarations
    of `namespaceMap` are written on the first element only.

    XMLWriter itself is not modelled: its calls are recorded as a log of
    `Event`s. Every operation is a function of the writer state
    (`WState`), implemented on the `Writer` object and proved equal to that
    function. */
module Writer {
  import opened Wrappers
  import opened Php
  import opened Clark

  const NUMERIC_KEYS := "When passing an array to ->write with numeric indices, every item must be an array containing the \"name\" and \"value\" key"

  const NOT_SERIALIZABLE := "The writer cannot serialize objects of type: "

  /** Messages of the `TypeMismatch` errors: input PHP would only take
      through type juggling. */
  const NAME_NOT_STRING := "element name is not a string"
  const ATTRIBUTES_NOT_ARRAY := "writeAttributes() takes an array"
  const VALUE_NOT_SCALAR := "attribute value is not a scalar"

  /** A PHP array key. */
  datatype Key = IntKey(i: int) | StrKey(s: string)

  /** The values `write` accepts. */
  datatype WValue =
    | WStr(s: string)
    | WInt(i: int)
    | WBool(b: bool)
    | WNull
    | Serializable(id: nat)     // an object that writes itself (`XmlSerializable`; legacy `Element`), told apart by `id`
    | Obj(className: string)    // any other object
    | WArr(items: seq<Item>)

  /** One key/value pair of a PHP array. */
  datatype Item = Item(key: Key, val: WValue)

  /** The XMLWriter calls the writer issues (both generations use the same
      XMLWriter interface). */
  datatype Event =
    | Document                                                          // startDocument()
    | Start(name: string)                                               // startElement($name)
    | StartNS(prefix: Option<string>, local: string, ns: Option<string>)  // startElementNS($prefix, $local, $ns)
    | Attr(name: string, value: string)                                 // writeAttribute($name, $value)
    | AttrNS(nsPrefix: string, attrLocal: Option<string>, uri: Option<string>, value: string) // writeAttributeNS(…)
    | Text(text: string)                                                // text($value)
    | End                                                               // endElement()
    | Delegated(id: nat)                                                // $value->xmlSerialize($this) (legacy: serialize)

  /** The namespace → prefix map; a prefix may be null. */
  type NamespaceMap = seq<Entry<Option<string>>>

  /** What the writing methods change: the log of XMLWriter calls, the
      ad-hoc prefixes and the `namespacesWritten` flag. */
  datatype WState = WState(events: seq<Event>, adhoc: seq<Entry<string>>, written: bool)

  /** A name written in Clark notation: `$name[0] === '{'`. */
  predicate IsClark(name: string) {
    |name| > 0 && name[0] == '{'
  }

  /** No configured prefix starts with `{`. A prefix that does would make
      `writeAttribute` parse its own `prefix:local` name again. */
  predicate PlainPrefixes(nsMap: NamespaceMap) {
    forall i :: 0 <= i < |nsMap| ==> nsMap[i].val.GetOr("") == "" || nsMap[i].val.GetOr("")[0] != '{'
  }

  function Emit(st: WState, e: Event): WState {
    st.(events := st.events + [e])
  }

  /** The n-th ad-hoc prefix, `'x' . n`. */
  function AdhocName(n: nat): string {
    "x" + NatToString(n)
  }

  /** The ad-hoc prefixes are `x1`, `x2`, … in the order their namespaces
      were first seen, one per namespace. */
  predicate AdhocNumbered(adhoc: seq<Entry<string>>) {
    UniqueKeys(adhoc) && forall i :: 0 <= i < |adhoc| ==> adhoc[i].val == AdhocName(i + 1)
  }

  /** `if (!isset($this->adhocNamespaces[$ns])) { … = 'x' . (count + 1) }`,
      then the prefix for `ns`. */
  function AdhocFor(st: WState, ns: string): (r: (WState, string))
    ensures r.0.events == st.events && r.0.written == st.written
    ensures Get(r.0.adhoc, ns) == Some(r.1)
    ensures Get(st.adhoc, ns).Some? ==> r.0.adhoc == st.adhoc
    ensures st.adhoc <= r.0.adhoc
    ensures AdhocNumbered(st.adhoc) ==> AdhocNumbered(r.0.adhoc)
  {
    match Get(st.adhoc, ns)
    case Some(p) => (st, p)
    case None =>
      var p := AdhocName(|st.adhoc| + 1);
      GetSnoc(st.adhoc, ns, p, ns);
      GetNone(st.adhoc, ns);
      (st.(adhoc := st.adhoc + [Entry(ns, p)]), p)
  }

  /** `$prefix ? 'xmlns:' . $prefix : 'xmlns'` */
  function DeclarationName(prefix: Option<string>): string {
    if prefix.Some? && Truthy(prefix.value) then "xmlns:" + prefix.value else "xmlns"
  }

  /** The declarations of `namespaceMap`, in its order. */
  function Declarations(nsMap: NamespaceMap): (r: seq<Event>)
    ensures |r| == |nsMap|
    ensures forall i :: 0 <= i < |r| ==> r[i] == Attr(DeclarationName(nsMap[i].val), nsMap[i].key)
  {
    if nsMap == [] then [] else [Attr(DeclarationName(nsMap[0].val), nsMap[0].key)] + Declarations(nsMap[1..])
  }

  /** The tail of `startElement`: the declarations, unless already written. */
  function DeclareOnce(nsMap: NamespaceMap, st: WState): (r: WState)
    ensures r.written && r.adhoc == st.adhoc
    ensures st.written ==> r == st
    ensures !st.written ==> r.events == st.events + Declarations(nsMap)
  {
    if st.written then st else WState(st.events + Declarations(nsMap), st.adhoc, true)
  }

  /** `startElement($name)`. A name `{}local` restarts with `local` and adds
      `xmlns=""` after whatever that call wrote. */
  function StartElementOf(nsMap: NamespaceMap, st: WState, name: string): (r: Result<WState>)
    ensures r.Ok? ==> r.value.written && st.events < r.value.events
    ensures r.Ok? ==> st.adhoc <= r.value.adhoc
    ensures r.Ok? && AdhocNumbered(st.adhoc) ==> AdhocNumbered(r.value.adhoc)
    decreases |name|
  {
    if IsClark(name) then
      match ParseClarkNotation(name)
      case Err(e) => Err(e)
      case Ok(q) =>
        match Get(nsMap, q.ns)
        case Some(prefix) => Ok(DeclareOnce(nsMap, Emit(st, StartNS(prefix, q.local, None))))
        case None =>
          if q.ns == "" then
            match StartElementOf(nsMap, st, q.local)
            case Err(e) => Err(e)
            case Ok(st1) => Ok(DeclareOnce(nsMap, Emit(st1, Attr("xmlns", ""))))
          else
            var a := AdhocFor(st, q.ns);
            Ok(DeclareOnce(nsMap, Emit(a.0, StartNS(Some(a.1), q.local, Some(q.ns)))))
    else Ok(DeclareOnce(nsMap, Emit(st, Start(name))))
  }

  /** The string XMLWriter receives for an attribute value. */
  function AttributeText(v: WValue): (r: Option<string>)
    ensures r.Some? <==> v.WStr? || v.WInt? || v.WBool? || v.WNull?
    ensures v.WStr? ==> r == Some(v.s)
    ensures v.WNull? || v == WBool(false) ==> r == Some("")
  {
    match v
    case WStr(s) => Some(s)
    case WInt(i) => Some(IntToString(i))
    case WBool(b) => Some(if b then "1" else "")
    case WNull => Some("")
    case _ => None
  }

  /** `writeAttribute($name, $value)`. A known namespace is written as
      `prefix:local` (a null prefix as ""), through the plain branch; an
      unknown one, the empty namespace included, gets an ad-hoc prefix. */
  function WriteAttributeOf(nsMap: NamespaceMap, st: WState, name: string, value: WValue): (r: Result<WState>)
    requires PlainPrefixes(nsMap)
    ensures r.Ok? ==> r.value.written == st.written && st.events < r.value.events
    ensures r.Ok? ==> st.adhoc <= r.value.adhoc
    ensures r.Ok? && AdhocNumbered(st.adhoc) ==> AdhocNumbered(r.value.adhoc)
  {
    if IsClark(name) then
      match ParseClarkNotation(name)
      case Err(e) => Err(e)
      case Ok(q) =>
        match Get(nsMap, q.ns)
        case Some(prefix) =>
          (match AttributeText(value)
           case None => Err(TypeMismatch(VALUE_NOT_SCALAR))
           case Some(s) => Ok(Emit(st, Attr(prefix.GetOr("") + ":" + q.local, s))))
        case None =>
          var a := AdhocFor(st, q.ns);
          (match AttributeText(value)
           case None => Err(TypeMismatch(VALUE_NOT_SCALAR))
           case Some(s) => Ok(Emit(a.0, AttrNS(a.1, Some(q.local), Some(q.ns), s))))
    else
      match AttributeText(value)
      case None => Err(TypeMismatch(VALUE_NOT_SCALAR))
      case Some(s) => Ok(Emit(st, Attr(name, s)))
  }

  /** The name an attribute key gives: an integer key is written as its
      decimal string. */
  function KeyName(k: Key): (r: string)
    ensures k.StrKey? ==> r == k.s
    ensures k.IntKey? ==> |r| > 0 && !IsClark(r)
  {
    match k
    case IntKey(i) => IntToString(i)
    case StrKey(s) => s
  }

  /** `writeAttributes($attributes)`, from the `i`-th pair on. */
  function WriteAttributesFrom(nsMap: NamespaceMap, st: WState, items: seq<Item>, i: nat): (r: Result<WState>)
    requires i <= |items| && PlainPrefixes(nsMap)
    ensures r.Ok? ==> r.value.written == st.written && st.events <= r.value.events
    ensures r.Ok? ==> st.adhoc <= r.value.adhoc
    ensures r.Ok? && AdhocNumbered(st.adhoc) ==> AdhocNumbered(r.value.adhoc)
    decreases |items| - i
  {
    if i == |items| then Ok(st)
    else
      match WriteAttributeOf(nsMap, st, KeyName(items[i].key), items[i].val)
      case Err(e) => Err(e)
      case Ok(st1) => WriteAttributesFrom(nsMap, st1, items, i + 1)
  }

  /** `writeAttributes(array $attributes)`: anything but an array is refused. */
  function WriteAttributesOf(nsMap: NamespaceMap, st: WState, attributes: WValue): (r: Result<WState>)
    requires PlainPrefixes(nsMap)
    ensures r.Ok? ==> r.value.written == st.written && st.events <= r.value.events
    ensures r.Ok? ==> st.adhoc <= r.value.adhoc
    ensures r.Ok? && AdhocNumbered(st.adhoc) ==> AdhocNumbered(r.value.adhoc)
  {
    if attributes.WArr? then WriteAttributesFrom(nsMap, st, attributes.items, 0)
    else Err(TypeMismatch(ATTRIBUTES_NOT_ARRAY))
  }

  /** Position of key `k` in an array. */
  function FindKey(items: seq<Item>, k: Key): (r: Option<nat>)
    ensures r.Some? ==> r.value < |items| && items[r.value].key == k
    ensures r.None? ==> forall i :: 0 <= i < |items| ==> items[i].key != k
  {
    if items == [] then None
    else if items[0].key == k then Some(0)
    else
      match FindKey(items[1..], k)
      case None => None
      case Some(j) => Some(j + 1)
  }

  /** `isset($item['attributes']) ? $item['attributes'] : []` */
  function AttributesIn(item: seq<Item>): WValue {
    match FindKey(item, StrKey("attributes"))
    case Some(j) => if item[j].val.WNull? then WArr([]) else item[j].val
    case None => WArr([])
  }

  /** How `write` reads one array entry: the element name, the attributes,
      and where the content is — the `value` entry at the given position of
      the item, or the whole item when None. */
  function EntryParts(key: Key, item: WValue): (r: Result<(string, WValue, Option<nat>)>)
    ensures r.Ok? && r.value.2.Some? ==> item.WArr? && r.value.2.value < |item.items|
    ensures r.Ok? && r.value.2.None? ==> key.StrKey? && r.value.1 == WArr([])
  {
    match key
    case IntKey(_) =>
      if !item.WArr? then Err(InvalidArgument(NUMERIC_KEYS))
      else
        (match (FindKey(item.items, StrKey("name")), FindKey(item.items, StrKey("value")))
         case (Some(n), Some(v)) =>
           (match item.items[n].val
            case WStr(name) => Ok((name, AttributesIn(item.items), Some(v)))
            case _ => Err(TypeMismatch(NAME_NOT_STRING)))
         case _ => Err(InvalidArgument(NUMERIC_KEYS)))
    case StrKey(name) =>
      if item.WArr? && FindKey(item.items, StrKey("value")).Some? then
        Ok((name, AttributesIn(item.items), FindKey(item.items, StrKey("value"))))
      else Ok((name, WArr([]), None))
  }

  /** `write($value)` */
  function WriteValue(nsMap: NamespaceMap, st: WState, v: WValue): (r: Result<WState>)
    requires PlainPrefixes(nsMap)
    ensures r.Ok? ==> st.events <= r.value.events && st.adhoc <= r.value.adhoc
    ensures r.Ok? ==> (st.written ==> r.value.written)
    ensures r.Ok? && AdhocNumbered(st.adhoc) ==> AdhocNumbered(r.value.adhoc)
    decreases v, if v.WArr? then |v.items| + 1 else 0
  {
    match v
    case WStr(s) => Ok(Emit(st, Text(s)))
    case WInt(i) => Ok(Emit(st, Text(IntToString(i))))
    case WBool(b) => Ok(Emit(st, Text(if b then "1" else "")))
    case WNull => Ok(st)
    case Serializable(id) => Ok(Emit(st, Delegated(id)))
    case Obj(c) => Err(InvalidArgument(NOT_SERIALIZABLE + c))
    case WArr(_) => WriteEntriesFrom(nsMap, st, v, 0)
  }

  /** The `foreach` of `write` over an array, from the `i`-th entry on. */
  function WriteEntriesFrom(nsMap: NamespaceMap, st: WState, arr: WValue, i: nat): (r: Result<WState>)
    requires arr.WArr? && i <= |arr.items| && PlainPrefixes(nsMap)
    ensures r.Ok? ==> st.events <= r.value.events && st.adhoc <= r.value.adhoc
    ensures r.Ok? ==> (st.written ==> r.value.written)
    ensures r.Ok? && AdhocNumbered(st.adhoc) ==> AdhocNumbered(r.value.adhoc)
    decreases arr, |arr.items| - i
  {
    if i == |arr.items| then Ok(st)
    else
      match WriteEntryOf(nsMap, st, arr.items[i].key, arr.items[i].val)
      case Err(e) => Err(e)
      case Ok(st1) => WriteEntriesFrom(nsMap, st1, arr, i + 1)
  }

  /** One turn of that `foreach`: a start tag, the attributes, the content
      and an end tag. */
  function WriteEntryOf(nsMap: NamespaceMap, st: WState, key: Key, item: WValue): (r: Result<WState>)
    requires PlainPrefixes(nsMap)
    ensures r.Ok? ==> r.value.written && st.events < r.value.events && st.adhoc <= r.value.adhoc
    ensures r.Ok? && AdhocNumbered(st.adhoc) ==> AdhocNumbered(r.value.adhoc)
    decreases item, if item.WArr? then |item.items| + 2 else 1
  {
    match EntryParts(key, item)
    case Err(e) => Err(e)
    case Ok((name, attributes, at)) =>
      var content := if at.Some? then item.items[at.value].val else item;
      match StartElementOf(nsMap, st, name)
      case Err(e) => Err(e)
      case Ok(st1) =>
        match WriteAttributesOf(nsMap, st1, attributes)
        case Err(e) => Err(e)
        case Ok(st2) =>
          match WriteValue(nsMap, st2, content)
          case Err(e) => Err(e)
          case Ok(st3) => Ok(Emit(st3, End))
  }

  /** `writeElement($name, $content)`: `write` is skipped for null. */
  function WriteElementOf(nsMap: NamespaceMap, st: WState, name: string, content: WValue): (r: Result<WState>)
    requires PlainPrefixes(nsMap)
    ensures r.Ok? ==> r.value.written && st.events < r.value.events && st.adhoc <= r.value.adhoc
    ensures r.Ok? && AdhocNumbered(st.adhoc) ==> AdhocNumbered(r.value.adhoc)
  {
    match StartElementOf(nsMap, st, name)
    case Err(e) => Err(e)
    case Ok(st1) =>
      match (if content.WNull? then Ok(st1) else WriteValue(nsMap, st1, content))
      case Err(e) => Err(e)
      case Ok(st2) => Ok(Emit(st2, End))
  }

  /** A method's outcome paired with the state it left, in the form the
      functions above return. */
  function WDone(r: Result<()>, st: WState): Result<WState> {
    match r
    case Ok(_) => Ok(st)
    case Err(e) => Err(e)
  }

  /** The writer object. `namespaceMap` and `contextUri` come from the
      context-stack trait; the log stands for XMLWriter's output. */
  class Writer {
    var namespaceMap: NamespaceMap
    var contextUri: Option<string>
    var events: seq<Event>
    var adhocNamespaces: seq<Entry<string>>
    var namespacesWritten: bool

    function State(): WState
      reads this
    {
      WState(events, adhocNamespaces, namespacesWritten)
    }

    /** A new writer: nothing written, no ad-hoc prefixes, the trait's
        defaults. */
    constructor ()
      ensures State() == WState([], [], false) && namespaceMap == [] && contextUri == None
    {
      namespaceMap, contextUri := [], None;
      events, adhocNamespaces, namespacesWritten := [], [], false;
    }

    /** XMLWriter's `startDocument()`. */
    method StartDocument()
      modifies this
      ensures namespaceMap == old(namespaceMap) && contextUri == old(contextUri)
      ensures State() == Emit(old(State()), Document)
    {
      events := events + [Document];
    }

    /** `$this->adhocNamespaces[$ns]`, added when missing. */
    method AdhocPrefix(ns: string) returns (prefix: string)
      modifies this
      ensures namespaceMap == old(namespaceMap) && contextUri == old(contextUri)
      ensures (State(), prefix) == AdhocFor(old(State()), ns)
    {
      match Get(adhocNamespaces, ns)
      case Some(p) =>
        prefix := p;
      case None =>
        prefix := AdhocName(|adhocNamespaces| + 1);
        adhocNamespaces := adhocNamespaces + [Entry(ns, prefix)];
    }

    /** The declaration loop at the end of `startElement`. */
    method WriteDeclarations()
      modifies this
      ensures namespaceMap == old(namespaceMap) && contextUri == old(contextUri)
      ensures State() == DeclareOnce(namespaceMap, old(State()))
    {
      if !namespacesWritten {
        ghost var declarations := Declarations(namespaceMap);
        var log := events;
        var i := 0;
        while i < |namespaceMap|
          invariant 0 <= i <= |namespaceMap|
          invariant log == events + declarations[..i]
        {
          log := log + [Attr(DeclarationName(namespaceMap[i].val), namespaceMap[i].key)];
          assert declarations[..i + 1] == declarations[..i] + [declarations[i]];
          i := i + 1;
        }
        assert declarations[..i] == declarations;
        events, namespacesWritten := log, true;
      }
    }

    method StartElement(name: string) returns (r: Result<()>)
      modifies this
      ensures namespaceMap == old(namespaceMap) && contextUri == old(contextUri)
      ensures WDone(r, State()) == StartElementOf(namespaceMap, old(State()), name)
      decreases |name|
    {
      if IsClark(name) {
        var parsed := ParseClarkNotation(name);
        if parsed.Err? {
          return Err(parsed.error);
        }
        var q := parsed.value;
        var known := Get(namespaceMap, q.ns);
        if known.Some? {
          events := events + [StartNS(known.value, q.local, None)];
        } else if q.ns == "" {
          r := StartElement(q.local);
          if r.Err? {
            return;
          }
          events := events + [Attr("xmlns", "")];
        } else {
          var prefix := AdhocPrefix(q.ns);
          events := events + [StartNS(Some(prefix), q.local, Some(q.ns))];
        }
      } else {
        events := events + [Start(name)];
      }
      WriteDeclarations();
      r := Ok(());
    }

    method WriteAttribute(name: string, value: WValue) returns (r: Result<()>)
      requires PlainPrefixes(namespaceMap)
      modifies this
      ensures namespaceMap == old(namespaceMap) && contextUri == old(contextUri)
      ensures WDone(r, State()) == WriteAttributeOf(namespaceMap, old(State()), name, value)
    {
      var text := AttributeText(value);
      if IsClark(name) {
        var parsed := ParseClarkNotation(name);
        if parsed.Err? {
          return Err(parsed.error);
        }
        var q := parsed.value;
        var known := Get(namespaceMap, q.ns);
        if known.Some? {
          if text.None? {
            return Err(TypeMismatch(VALUE_NOT_SCALAR));
          }
          events := events + [Attr(known.value.GetOr("") + ":" + q.local, text.value)];
        } else {
          var prefix := AdhocPrefix(q.ns);
          if text.None? {
            return Err(TypeMismatch(VALUE_NOT_SCALAR));
          }
          events := events + [AttrNS(prefix, Some(q.local), Some(q.ns), text.value)];
        }
      } else {
        if text.None? {
          return Err(TypeMismatch(VALUE_NOT_SCALAR));
        }
        events := events + [Attr(name, text.value)];
      }
      r := Ok(());
    }

    method WriteAttributes(attributes: WValue) returns (r: Result<()>)
      requires PlainPrefixes(namespaceMap)
      modifies this
      ensures namespaceMap == old(namespaceMap) && contextUri == old(contextUri)
      ensures WDone(r, State()) == WriteAttributesOf(namespaceMap, old(State()), attributes)
    {
      if !attributes.WArr? {
        return Err(TypeMismatch(ATTRIBUTES_NOT_ARRAY));
      }
      var items := attributes.items;
      var i := 0;
      while i < |items|
        invariant 0 <= i <= |items|
        invariant namespaceMap == old(namespaceMap) && contextUri == old(contextUri)
        invariant WriteAttributesFrom(namespaceMap, State(), items, i) == WriteAttributesOf(namespaceMap, old(State()), attributes)
      {
        r := WriteAttribute(KeyName(items[i].key), items[i].val);
        if r.Err? {
          return;
        }
        i := i + 1;
      }
      r := Ok(());
    }

    method Write(value: WValue) returns (r: Result<()>)
      requires PlainPrefixes(namespaceMap)
      modifies this
      ensures namespaceMap == old(namespaceMap) && contextUri == old(contextUri)
      ensures WDone(r, State()) == WriteValue(namespaceMap, old(State()), value)
      decreases value, if value.WArr? then |value.items| + 1 else 0
    {
      match value {
      case WStr(s) =>
        events := events + [Text(s)];
      case WInt(n) =>
        events := events + [Text(IntToString(n))];
      case WBool(b) =>
        events := events + [Text(if b then "1" else "")];
      case WNull =>
      case Serializable(id) =>
        events := events + [Delegated(id)];
      case Obj(c) =>
        return Err(InvalidArgument(NOT_SERIALIZABLE + c));
      case WArr(items) =>
        var i := 0;
        while i < |items|
          invariant 0 <= i <= |items|
          invariant namespaceMap == old(namespaceMap) && contextUri == old(contextUri)
          invariant WriteEntriesFrom(namespaceMap, State(), value, i) == WriteValue(namespaceMap, old(State()), value)
        {
          r := WriteEntry(items[i].key, items[i].val);
          if r.Err? {
            return;
          }
          i := i + 1;
        }
      }
      r := Ok(());
    }

    method WriteEntry(key: Key, item: WValue) returns (r: Result<()>)
      requires PlainPrefixes(namespaceMap)
      modifies this
      ensures namespaceMap == old(namespaceMap) && contextUri == old(contextUri)
      ensures WDone(r, State()) == WriteEntryOf(namespaceMap, old(State()), key, item)
      decreases item, if item.WArr? then |item.items| + 2 else 1
    {
      var parts := EntryParts(key, item);
      if parts.Err? {
        return Err(parts.error);
      }
      var (name, attributes, at) := parts.value;
      var content := if at.Some? then item.items[at.value].val else item;
      r := StartElement(name);
      if r.Err? {
        return;
      }
      r := WriteAttributes(attributes);
      if r.Err? {
        return;
      }
      r := Write(content);
      if r.Err? {
        return;
      }
      events := events + [End];
    }

    method WriteElement(name: string, content: WValue) returns (r: Result<()>)
      requires PlainPrefixes(namespaceMap)
      modifies this
      ensures namespaceMap == old(namespaceMap) && contextUri == old(contextUri)
      ensures WDone(r, State()) == WriteElementOf(namespaceMap, old(State()), name, content)
    {
      r := StartElement(name);
      if r.Err? {
        return;
      }
      if !content.WNull? {
        r := Write(content);
        if r.Err? {
          return;
        }
      }
      events := events + [End];
    }
  }
}
