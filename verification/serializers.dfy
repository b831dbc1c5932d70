/** `Serializer\valueObject`: writes each public property of an object as
    an element `{namespace}property` holding the property's value. The
    object is given by its properties in declaration order, which is the
    order `get_object_vars` returns them in. */
module Serializers {
  import opened Wrappers
  import opened Php
  import opened Clark
  import opened Writer
  import opened WriterProperties

  /** The element name of a property: `'{' . $namespace . '}' . $key`. */
  function PropertyName(namespace: string, property: string): string {
    "{" + namespace + "}" + property
  }

  /** The name `valueObject` gives a property reads back, through
      `parseClarkNotation`, as the namespace and the property, whenever the
      namespace has no `}` and the property no line feed. */
  lemma PropertyNameParses(namespace: string, property: string)
    requires Parsable(QName(namespace, property))
    ensures ParseClarkNotation(PropertyName(namespace, property)) == Ok(QName(namespace, property))
  {
    RoundTrip(QName(namespace, property));
  }

  /** The `foreach` of `valueObject`, from the `i`-th property on. */
  function ValueObjectFrom(nsMap: NamespaceMap, st: WState, fields: seq<Entry<WValue>>, namespace: string, i: nat): (r: Result<WState>)
    requires i <= |fields| && PlainPrefixes(nsMap)
    ensures r.Ok? ==> st.events <= r.value.events && st.adhoc <= r.value.adhoc
    decreases |fields| - i
  {
    if i == |fields| then Ok(st)
    else
      match WriteElementOf(nsMap, st, PropertyName(namespace, fields[i].key), fields[i].val)
      case Err(e) => Err(e)
      case Ok(st1) => ValueObjectFrom(nsMap, st1, fields, namespace, i + 1)
  }

  /** `valueObject($writer, $valueObject, $namespace)` */
  method ValueObject(writer: Writer, fields: seq<Entry<WValue>>, namespace: string) returns (r: Result<()>)
    requires PlainPrefixes(writer.namespaceMap)
    modifies writer
    ensures writer.namespaceMap == old(writer.namespaceMap)
    ensures WDone(r, writer.State()) == ValueObjectFrom(writer.namespaceMap, old(writer.State()), fields, namespace, 0)
  {
    var i := 0;
    while i < |fields|
      invariant 0 <= i <= |fields|
      invariant writer.namespaceMap == old(writer.namespaceMap)
      invariant ValueObjectFrom(writer.namespaceMap, writer.State(), fields, namespace, i)
             == ValueObjectFrom(writer.namespaceMap, old(writer.State()), fields, namespace, 0)
    {
      r := writer.WriteElement(PropertyName(namespace, fields[i].key), fields[i].val);
      if r.Err? {
        return;
      }
      i := i + 1;
    }
    r := Ok(());
  }

  /** The array `write` would take for the same object: one
      `'{namespace}property' => value` entry per property. */
  function AsArray(fields: seq<Entry<WValue>>, namespace: string): (r: seq<Item>)
    ensures |r| == |fields|
    ensures forall i :: 0 <= i < |r| ==> r[i] == Item(StrKey(PropertyName(namespace, fields[i].key)), fields[i].val)
  {
    if fields == [] then []
    else [Item(StrKey(PropertyName(namespace, fields[0].key)), fields[0].val)] + AsArray(fields[1..], namespace)
  }

  /** No property holds an array with a `value` key (which `write` would
      read as content and attributes). */
  predicate PlainProperties(fields: seq<Entry<WValue>>) {
    forall i :: 0 <= i < |fields| ==> !(fields[i].val.WArr? && FindKey(fields[i].val.items, StrKey("value")).Some?)
  }

  /** Serialising an object writes what `write` writes for its properties
      as an array keyed by their Clark names. */
  lemma {:induction false} ValueObjectIsArray(nsMap: NamespaceMap, st: WState, fields: seq<Entry<WValue>>, namespace: string, i: nat)
    requires i <= |fields| && PlainPrefixes(nsMap) && PlainProperties(fields)
    ensures ValueObjectFrom(nsMap, st, fields, namespace, i) == WriteEntriesFrom(nsMap, st, WArr(AsArray(fields, namespace)), i)
    decreases |fields| - i
  {
    if i < |fields| {
      var name := PropertyName(namespace, fields[i].key);
      ElementIsEntry(nsMap, st, name, fields[i].val);
      match WriteElementOf(nsMap, st, name, fields[i].val)
      case Err(_) =>
      case Ok(st1) =>
        ValueObjectIsArray(nsMap, st1, fields, namespace, i + 1);
    }
  }

  /** One well-nested element per property, in order. */
  lemma {:induction false} ValueObjectShape(nsMap: NamespaceMap, st: WState, fields: seq<Entry<WValue>>, namespace: string, i: nat)
    requires i <= |fields| && PlainPrefixes(nsMap)
    requires ValueObjectFrom(nsMap, st, fields, namespace, i).Ok?
    ensures var d := Added(st.events, ValueObjectFrom(nsMap, st, fields, namespace, i).value.events);
      Balanced(d) && TopClosed(d) == |fields| - i
    decreases |fields| - i
  {
    var r := ValueObjectFrom(nsMap, st, fields, namespace, i).value;
    if i == |fields| {
      assert Added(st.events, r.events) == [];
    } else {
      var st1 := WriteElementOf(nsMap, st, PropertyName(namespace, fields[i].key), fields[i].val).value;
      WriteElementShape(nsMap, st, PropertyName(namespace, fields[i].key), fields[i].val);
      ValueObjectShape(nsMap, st1, fields, namespace, i + 1);
      AddedJoin(st.events, st1.events, r.events);
      var one, rest := Added(st.events, st1.events), Added(st1.events, r.events);
      OneElementBalanced(one);
      OneElementClosesOnce(one);
      BalancedAppend(one, rest);
      TopClosedAppend(one, rest);
    }
  }

  /** A property holding null becomes an element with no content. */
  lemma NullPropertyIsEmpty(nsMap: NamespaceMap, st: WState, namespace: string, property: string)
    requires PlainPrefixes(nsMap)
    requires ValueObjectFrom(nsMap, st, [Entry(property, WNull)], namespace, 0).Ok?
    ensures var d := Added(st.events, ValueObjectFrom(nsMap, st, [Entry(property, WNull)], namespace, 0).value.events);
      OneElement(d) && Attributes(d[1..|d| - 1])
  {
    var st1 := WriteElementOf(nsMap, st, PropertyName(namespace, property), WNull).value;
    WriteElementShape(nsMap, st, PropertyName(namespace, property), WNull);
    assert ValueObjectFrom(nsMap, st1, [Entry(property, WNull)], namespace, 1) == Ok(st1);
  }
}
