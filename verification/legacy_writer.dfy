/** The older `Sabre\XML\Writer`. It differs from the current writer in
    four ways: a namespace counts as configured only when `isset` says so
    (a null prefix does not), `{}local` gets no special case, the array
    format is decided by the first key alone, and objects that are not
    `Element`s are skipped without an error. The declarations of the map
    are written with `writeAttributeNS('xmlns', $prefix, null, $ns)`.

    Values, calls and writer states are those of the current writer
    (`Writer.WValue`, `Writer.Event`, `Writer.WState`); `Serializable`
    stands for a legacy `Element`, whose `serialize` is the delegated
    call. */
module LegacyWriter {
  import opened Wrappers
  import opened Php
  import opened Clark
  import opened Writer

  const LEGACY_NUMERIC_KEYS := "When passing an array to ->write with numeric indices, every item must have a \"name\" and a \"value\""

  /** `isset($this->namespaceMap[$ns])`, and the prefix it guards: a
      namespace mapped to null is not set. */
  function IssetPrefix(nsMap: NamespaceMap, ns: string): (r: Option<string>)
    ensures r.Some? <==> Get(nsMap, ns).Some? && Get(nsMap, ns).value.Some?
    ensures r.Some? ==> Get(nsMap, ns) == Some(r)
  {
    var prefix := Get(nsMap, ns);
    if prefix.Some? && prefix.value.Some? then prefix.value else None
  }

  /** The declarations of the map, in its order. */
  function LegacyDeclarations(nsMap: NamespaceMap): (r: seq<Event>)
    ensures |r| == |nsMap|
    ensures forall i :: 0 <= i < |r| ==> r[i] == AttrNS("xmlns", nsMap[i].val, None, nsMap[i].key)
  {
    if nsMap == [] then [] else [AttrNS("xmlns", nsMap[0].val, None, nsMap[0].key)] + LegacyDeclarations(nsMap[1..])
  }

  function LegacyDeclareOnce(nsMap: NamespaceMap, st: WState): WState {
    if st.written then st else WState(st.events + LegacyDeclarations(nsMap), st.adhoc, true)
  }

  /** `startElement($name)` */
  function LegacyStartElementOf(nsMap: NamespaceMap, st: WState, name: string): (r: Result<WState>)
    ensures r.Ok? ==> r.value.written && st.events < r.value.events && st.adhoc <= r.value.adhoc
    ensures r.Ok? && AdhocNumbered(st.adhoc) ==> AdhocNumbered(r.value.adhoc)
  {
    if IsClark(name) then
      match ParseClarkNotation(name)
      case Err(e) => Err(e)
      case Ok(q) =>
        match IssetPrefix(nsMap, q.ns)
        case Some(prefix) => Ok(LegacyDeclareOnce(nsMap, Emit(st, StartNS(Some(prefix), q.local, None))))
        case None =>
          var a := AdhocFor(st, q.ns);
          Ok(LegacyDeclareOnce(nsMap, Emit(a.0, StartNS(Some(a.1), q.local, Some(q.ns)))))
    else Ok(LegacyDeclareOnce(nsMap, Emit(st, Start(name))))
  }

  /** `writeAttribute($name, $value)` */
  function LegacyWriteAttributeOf(nsMap: NamespaceMap, st: WState, name: string, value: WValue): (r: Result<WState>)
    ensures r.Ok? ==> r.value.written == st.written && st.events < r.value.events && st.adhoc <= r.value.adhoc
    ensures r.Ok? && AdhocNumbered(st.adhoc) ==> AdhocNumbered(r.value.adhoc)
  {
    if IsClark(name) then
      match ParseClarkNotation(name)
      case Err(e) => Err(e)
      case Ok(q) =>
        match IssetPrefix(nsMap, q.ns)
        case Some(prefix) =>
          (match AttributeText(value)
           case None => Err(TypeMismatch(VALUE_NOT_SCALAR))
           case Some(s) => Ok(Emit(st, AttrNS(prefix, Some(q.local), None, s))))
        case None =>
          var a := AdhocFor(st, q.ns);
          (match AttributeText(value)
           case None => Err(TypeMismatch(VALUE_NOT_SCALAR))
           case Some(s) => Ok(Emit(a.0, AttrNS(a.1, Some(q.local), Some(q.ns), s))))
    else
      match AttributeText(value)
      case None => Err(TypeMismatch(VALUE_NOT_SCALAR))
      case Some(s) => Ok(Emit(st, Attr(name, s)))
  }

  /** `writeAttributes($attributes)`, from the `i`-th pair on. */
  function LegacyWriteAttributesFrom(nsMap: NamespaceMap, st: WState, items: seq<Item>, i: nat): (r: Result<WState>)
    requires i <= |items|
    ensures r.Ok? ==> r.value.written == st.written && st.events <= r.value.events && st.adhoc <= r.value.adhoc
    ensures r.Ok? && AdhocNumbered(st.adhoc) ==> AdhocNumbered(r.value.adhoc)
    decreases |items| - i
  {
    if i == |items| then Ok(st)
    else
      match LegacyWriteAttributeOf(nsMap, st, KeyName(items[i].key), items[i].val)
      case Err(e) => Err(e)
      case Ok(st1) => LegacyWriteAttributesFrom(nsMap, st1, items, i + 1)
  }

  /** `writeAttributes(array $attributes)` */
  function LegacyWriteAttributesOf(nsMap: NamespaceMap, st: WState, attributes: WValue): (r: Result<WState>)
    ensures r.Ok? ==> r.value.written == st.written && st.events <= r.value.events && st.adhoc <= r.value.adhoc
    ensures r.Ok? && AdhocNumbered(st.adhoc) ==> AdhocNumbered(r.value.adhoc)
  {
    if attributes.WArr? then LegacyWriteAttributesFrom(nsMap, st, attributes.items, 0)
    else Err(TypeMismatch(ATTRIBUTES_NOT_ARRAY))
  }

  /** The array is in the numeric format when its first key is an integer. */
  predicate NumericFormat(items: seq<Item>) {
    |items| > 0 && items[0].key.IntKey?
  }

  /** `write($value)` */
  function LegacyWriteValue(nsMap: NamespaceMap, st: WState, v: WValue): (r: Result<WState>)
    ensures r.Ok? ==> st.events <= r.value.events && st.adhoc <= r.value.adhoc
    ensures r.Ok? ==> (st.written ==> r.value.written)
    ensures r.Ok? && AdhocNumbered(st.adhoc) ==> AdhocNumbered(r.value.adhoc)
    decreases v, if v.WArr? then |v.items| + 1 else 0
  {
    match v
    case WStr(s) => Ok(Emit(st, Text(s)))
    case WInt(i) => Ok(Emit(st, Text(IntToString(i))))
    case WBool(b) => Ok(Emit(st, Text(if b then "1" else "")))
    case WNull => Ok(st)
    case Serializable(id) => Ok(Emit(st, Delegated(id)))
    case Obj(_) => Ok(st)
    case WArr(items) =>
      if NumericFormat(items) then NumericFrom(nsMap, st, v, 0) else NamedFrom(nsMap, st, v, 0)
  }

  /** The numeric format, from the `i`-th item on. */
  function NumericFrom(nsMap: NamespaceMap, st: WState, arr: WValue, i: nat): (r: Result<WState>)
    requires arr.WArr? && i <= |arr.items|
    ensures r.Ok? ==> st.events <= r.value.events && st.adhoc <= r.value.adhoc
    ensures r.Ok? ==> (st.written ==> r.value.written)
    ensures r.Ok? && AdhocNumbered(st.adhoc) ==> AdhocNumbered(r.value.adhoc)
    decreases arr, |arr.items| - i
  {
    if i == |arr.items| then Ok(st)
    else
      match NumericEntryOf(nsMap, st, arr.items[i].val)
      case Err(e) => Err(e)
      case Ok(st1) => NumericFrom(nsMap, st1, arr, i + 1)
  }

  /** One item of the numeric format: it must hold `name` and `value`;
      `attributes` are written when set. */
  function NumericEntryOf(nsMap: NamespaceMap, st: WState, item: WValue): (r: Result<WState>)
    ensures r.Ok? ==> r.value.written && st.events < r.value.events && st.adhoc <= r.value.adhoc
    ensures r.Ok? && AdhocNumbered(st.adhoc) ==> AdhocNumbered(r.value.adhoc)
    decreases item, 0
  {
    if !item.WArr? then Err(InvalidArgument(LEGACY_NUMERIC_KEYS))
    else
      match (FindKey(item.items, StrKey("name")), FindKey(item.items, StrKey("value")))
      case (Some(n), Some(j)) =>
        (match item.items[n].val
         case WStr(name) =>
           (match LegacyStartElementOf(nsMap, st, name)
            case Err(e) => Err(e)
            case Ok(st1) =>
              var attributes := FindKey(item.items, StrKey("attributes"));
              match (if attributes.Some? && !item.items[attributes.value].val.WNull?
                     then LegacyWriteAttributesOf(nsMap, st1, item.items[attributes.value].val)
                     else Ok(st1))
              case Err(e) => Err(e)
              case Ok(st2) =>
                match LegacyWriteValue(nsMap, st2, item.items[j].val)
                case Err(e) => Err(e)
                case Ok(st3) => Ok(Emit(st3, End)))
         case _ => Err(TypeMismatch(NAME_NOT_STRING)))
      case _ => Err(InvalidArgument(LEGACY_NUMERIC_KEYS))
  }

  /** The named format, from the `i`-th entry on. */
  function NamedFrom(nsMap: NamespaceMap, st: WState, arr: WValue, i: nat): (r: Result<WState>)
    requires arr.WArr? && i <= |arr.items|
    ensures r.Ok? ==> st.events <= r.value.events && st.adhoc <= r.value.adhoc
    ensures r.Ok? ==> (st.written ==> r.value.written)
    ensures r.Ok? && AdhocNumbered(st.adhoc) ==> AdhocNumbered(r.value.adhoc)
    decreases arr, |arr.items| - i
  {
    if i == |arr.items| then Ok(st)
    else
      match NamedEntryOf(nsMap, st, arr.items[i].key, arr.items[i].val)
      case Err(e) => Err(e)
      case Ok(st1) => NamedFrom(nsMap, st1, arr, i + 1)
  }

  /** One turn of the named-format foreach. */
  lemma NamedFromStep(nsMap: NamespaceMap, st: WState, arr: WValue, i: nat, r: Result<WState>)
    requires arr.WArr? && i < |arr.items|
    requires r == NamedEntryOf(nsMap, st, arr.items[i].key, arr.items[i].val)
    ensures r.Err? ==> NamedFrom(nsMap, st, arr, i) == r
    ensures r.Ok? ==> NamedFrom(nsMap, st, arr, i) == NamedFrom(nsMap, r.value, arr, i + 1)
  {
  }

  /** One entry of the named format: an element named by the key holding
      the value, without attributes. */
  function NamedEntryOf(nsMap: NamespaceMap, st: WState, key: Key, v: WValue): (r: Result<WState>)
    ensures r.Ok? ==> r.value.written && st.events < r.value.events && st.adhoc <= r.value.adhoc
    ensures r.Ok? && AdhocNumbered(st.adhoc) ==> AdhocNumbered(r.value.adhoc)
    decreases v, if v.WArr? then |v.items| + 2 else 1
  {
    match LegacyStartElementOf(nsMap, st, KeyName(key))
    case Err(e) => Err(e)
    case Ok(st1) =>
      match LegacyWriteValue(nsMap, st1, v)
      case Err(e) => Err(e)
      case Ok(st2) => Ok(Emit(st2, End))
  }

  /** The older writer object. Its `elementMap` is never read by the writer
      and is not modelled. */
  class LegacyWriter {
    var namespaceMap: NamespaceMap
    var events: seq<Event>
    var adhocNamespaces: seq<Entry<string>>
    var namespacesWritten: bool

    function State(): WState
      reads this
    {
      WState(events, adhocNamespaces, namespacesWritten)
    }

    constructor ()
      ensures State() == WState([], [], false) && namespaceMap == []
    {
      namespaceMap := [];
      events, adhocNamespaces, namespacesWritten := [], [], false;
    }

    method AdhocPrefix(ns: string) returns (prefix: string)
      modifies this
      ensures namespaceMap == old(namespaceMap)
      ensures (State(), prefix) == AdhocFor(old(State()), ns)
    {
      match Get(adhocNamespaces, ns)
      case Some(p) =>
        prefix := p;
      case None =>
        prefix := AdhocName(|adhocNamespaces| + 1);
        adhocNamespaces := adhocNamespaces + [Entry(ns, prefix)];
    }

    method WriteDeclarations()
      modifies this
      ensures namespaceMap == old(namespaceMap)
      ensures State() == LegacyDeclareOnce(namespaceMap, old(State()))
    {
      if !namespacesWritten {
        ghost var declarations := LegacyDeclarations(namespaceMap);
        var log := events;
        var i := 0;
        while i < |namespaceMap|
          invariant 0 <= i <= |namespaceMap|
          invariant log == events + declarations[..i]
        {
          log := log + [AttrNS("xmlns", namespaceMap[i].val, None, namespaceMap[i].key)];
          assert declarations[..i + 1] == declarations[..i] + [declarations[i]];
          i := i + 1;
        }
        assert declarations[..i] == declarations;
        events, namespacesWritten := log, true;
      }
    }

    method StartElement(name: string) returns (r: Result<()>)
      modifies this
      ensures namespaceMap == old(namespaceMap)
      ensures WDone(r, State()) == LegacyStartElementOf(namespaceMap, old(State()), name)
    {
      if IsClark(name) {
        var parsed := ParseClarkNotation(name);
        if parsed.Err? {
          return Err(parsed.error);
        }
        var q := parsed.value;
        var known := IssetPrefix(namespaceMap, q.ns);
        if known.Some? {
          events := events + [StartNS(known, q.local, None)];
        } else {
          var prefix := AdhocPrefix(q.ns);
          events := events + [StartNS(Some(prefix), q.local, Some(q.ns))];
        }
      } else {
        events := events + [Start(name)];
      }
      WriteDeclarations();
      r := Ok(());
    }

    method WriteAttribute(name: string, value: WValue) returns (r: Result<()>)
      modifies this
      ensures namespaceMap == old(namespaceMap)
      ensures WDone(r, State()) == LegacyWriteAttributeOf(namespaceMap, old(State()), name, value)
    {
      var text := AttributeText(value);
      if IsClark(name) {
        var parsed := ParseClarkNotation(name);
        if parsed.Err? {
          return Err(parsed.error);
        }
        var q := parsed.value;
        var known := IssetPrefix(namespaceMap, q.ns);
        if known.Some? {
          if text.None? {
            return Err(TypeMismatch(VALUE_NOT_SCALAR));
          }
          events := events + [AttrNS(known.value, Some(q.local), None, text.value)];
        } else {
          var prefix := AdhocPrefix(q.ns);
          if text.None? {
            return Err(TypeMismatch(VALUE_NOT_SCALAR));
          }
          events := events + [AttrNS(prefix, Some(q.local), Some(q.ns), text.value)];
        }
      } else {
        if text.None? {
          return Err(TypeMismatch(VALUE_NOT_SCALAR));
        }
        events := events + [Attr(name, text.value)];
      }
      r := Ok(());
    }

    method WriteAttributes(attributes: WValue) returns (r: Result<()>)
      modifies this
      ensures namespaceMap == old(namespaceMap)
      ensures WDone(r, State()) == LegacyWriteAttributesOf(namespaceMap, old(State()), attributes)
    {
      if !attributes.WArr? {
        return Err(TypeMismatch(ATTRIBUTES_NOT_ARRAY));
      }
      var items := attributes.items;
      var i := 0;
      while i < |items|
        invariant 0 <= i <= |items|
        invariant namespaceMap == old(namespaceMap)
        invariant LegacyWriteAttributesFrom(namespaceMap, State(), items, i) == LegacyWriteAttributesOf(namespaceMap, old(State()), attributes)
      {
        r := WriteAttribute(KeyName(items[i].key), items[i].val);
        if r.Err? {
          return;
        }
        i := i + 1;
      }
      r := Ok(());
    }

    method Write(value: WValue) returns (r: Result<()>)
      modifies this
      ensures namespaceMap == old(namespaceMap)
      ensures WDone(r, State()) == LegacyWriteValue(namespaceMap, old(State()), value)
      decreases value, if value.WArr? then |value.items| + 1 else 0
    {
      match value {
      case WStr(s) =>
        events := events + [Text(s)];
      case WInt(n) =>
        events := events + [Text(IntToString(n))];
      case WBool(b) =>
        events := events + [Text(if b then "1" else "")];
      case WNull =>
      case Serializable(id) =>
        events := events + [Delegated(id)];
      case Obj(_) =>
      case WArr(items) =>
        if NumericFormat(items) {
          r := WriteNumericItems(value);
        } else {
          r := WriteNamedItems(value);
        }
        return;
      }
      r := Ok(());
    }

    /** The `foreach` of the numeric format. */
    method WriteNumericItems(value: WValue) returns (r: Result<()>)
      requires value.WArr?
      modifies this
      ensures namespaceMap == old(namespaceMap)
      ensures WDone(r, State()) == NumericFrom(namespaceMap, old(State()), value, 0)
      decreases value, |value.items|
    {
      var i := 0;
      while i < |value.items|
        invariant 0 <= i <= |value.items|
        invariant namespaceMap == old(namespaceMap)
        invariant NumericFrom(namespaceMap, State(), value, i) == NumericFrom(namespaceMap, old(State()), value, 0)
      {
        r := WriteNumericEntry(value.items[i].val);
        if r.Err? {
          return;
        }
        i := i + 1;
      }
      r := Ok(());
    }

    /** The `foreach` of the named format. */
    method WriteNamedItems(value: WValue) returns (r: Result<()>)
      requires value.WArr?
      modifies this
      ensures namespaceMap == old(namespaceMap)
      ensures WDone(r, State()) == NamedFrom(namespaceMap, old(State()), value, 0)
      decreases value, |value.items|
    {
      var i := 0;
      while i < |value.items|
        invariant 0 <= i <= |value.items|
        invariant namespaceMap == old(namespaceMap)
        invariant NamedFrom(namespaceMap, State(), value, i) == NamedFrom(namespaceMap, old(State()), value, 0)
      {
        ghost var before := State();
        r := WriteNamedEntry(value.items[i].key, value.items[i].val);
        NamedFromStep(namespaceMap, before, value, i, WDone(r, State()));
        if r.Err? {
          return;
        }
        i := i + 1;
      }
      r := Ok(());
    }

    method WriteNumericEntry(item: WValue) returns (r: Result<()>)
      modifies this
      ensures namespaceMap == old(namespaceMap)
      ensures WDone(r, State()) == NumericEntryOf(namespaceMap, old(State()), item)
      decreases item, 0
    {
      if !item.WArr? {
        return Err(InvalidArgument(LEGACY_NUMERIC_KEYS));
      }
      var n, j := FindKey(item.items, StrKey("name")), FindKey(item.items, StrKey("value"));
      if n.None? || j.None? {
        return Err(InvalidArgument(LEGACY_NUMERIC_KEYS));
      }
      if !item.items[n.value].val.WStr? {
        return Err(TypeMismatch(NAME_NOT_STRING));
      }
      r := StartElement(item.items[n.value].val.s);
      if r.Err? {
        return;
      }
      var attributes := FindKey(item.items, StrKey("attributes"));
      if attributes.Some? && !item.items[attributes.value].val.WNull? {
        r := WriteAttributes(item.items[attributes.value].val);
        if r.Err? {
          return;
        }
      }
      r := Write(item.items[j.value].val);
      if r.Err? {
        return;
      }
      events := events + [End];
    }

    method WriteNamedEntry(key: Key, v: WValue) returns (r: Result<()>)
      modifies this
      ensures namespaceMap == old(namespaceMap)
      ensures WDone(r, State()) == NamedEntryOf(namespaceMap, old(State()), key, v)
      decreases v, if v.WArr? then |v.items| + 2 else 1
    {
      r := StartElement(KeyName(key));
      if r.Err? {
        return;
      }
      r := Write(v);
      if r.Err? {
        return;
      }
      events := events + [End];
    }
  }
}
