/** What the older writer does with the same inputs: it issues well-nested
    calls too, but a namespace mapped to a null prefix, or the empty
    namespace, gets an ad-hoc prefix, the first key alone picks the array
    format, and objects that cannot write themselves are dropped. */
module LegacyWriterProperties {
  import opened Wrappers
  import opened Php
  import opened Clark
  import opened Writer
  import opened WriterProperties
  import opened LegacyWriter

  // ---------------------------------------------------------------------
  // Shape of the calls

  lemma LegacyStartElementShape(nsMap: NamespaceMap, st: WState, name: string)
    requires LegacyStartElementOf(nsMap, st, name).Ok?
    ensures var d := Added(st.events, LegacyStartElementOf(nsMap, st, name).value.events);
      StartTag(d) && (st.written ==> |d| == 1) && (!st.written ==> d[1..] == LegacyDeclarations(nsMap))
  {
    var d := Added(st.events, LegacyStartElementOf(nsMap, st, name).value.events);
    assert d[1..] == if st.written then [] else LegacyDeclarations(nsMap);
  }

  lemma LegacyWriteAttributeShape(nsMap: NamespaceMap, st: WState, name: string, value: WValue)
    requires LegacyWriteAttributeOf(nsMap, st, name, value).Ok?
    ensures var d := Added(st.events, LegacyWriteAttributeOf(nsMap, st, name, value).value.events);
      |d| == 1 && IsAttribute(d[0])
  {
  }

  lemma {:induction false} LegacyWriteAttributesShape(nsMap: NamespaceMap, st: WState, items: seq<Item>, i: nat)
    requires i <= |items|
    requires LegacyWriteAttributesFrom(nsMap, st, items, i).Ok?
    ensures var d := Added(st.events, LegacyWriteAttributesFrom(nsMap, st, items, i).value.events);
      Attributes(d) && |d| == |items| - i
    decreases |items| - i
  {
    if i < |items| {
      var st1 := LegacyWriteAttributeOf(nsMap, st, KeyName(items[i].key), items[i].val).value;
      LegacyWriteAttributeShape(nsMap, st, KeyName(items[i].key), items[i].val);
      LegacyWriteAttributesShape(nsMap, st1, items, i + 1);
      AddedJoin(st.events, st1.events, LegacyWriteAttributesFrom(nsMap, st, items, i).value.events);
    }
  }

  /** `write` issues well-nested content, and for an array one element per
      entry, in either format. */
  lemma {:induction false} LegacyWriteValueShape(nsMap: NamespaceMap, st: WState, v: WValue)
    requires LegacyWriteValue(nsMap, st, v).Ok?
    ensures var d := Added(st.events, LegacyWriteValue(nsMap, st, v).value.events);
      Balanced(d) && (v.WArr? ==> TopClosed(d) == |v.items|)
    decreases v, if v.WArr? then |v.items| + 1 else 0
  {
    var d := Added(st.events, LegacyWriteValue(nsMap, st, v).value.events);
    if v.WArr? {
      if NumericFormat(v.items) {
        NumericFromShape(nsMap, st, v, 0);
      } else {
        NamedFromShape(nsMap, st, v, 0);
      }
    } else if v.WStr? || v.WInt? || v.WBool? || v.Serializable? {
      assert |d| == 1 && !IsAttribute(d[0]) && Delta(d[0]) == 0;
      assert d[..0] == [] && d[..1] == d;
    } else {
      assert d == [];
    }
  }

  /** Closing one element after well-nested content adds one more element
      at the outermost level. */
  lemma EntryThenRest(one: seq<Event>, rest: seq<Event>, n: nat)
    requires OneElement(one) && Balanced(rest) && TopClosed(rest) == n
    ensures Balanced(one + rest) && TopClosed(one + rest) == n + 1
  {
    OneElementBalanced(one);
    OneElementClosesOnce(one);
    BalancedAppend(one, rest);
    TopClosedAppend(one, rest);
  }

  lemma {:induction false} NumericFromShape(nsMap: NamespaceMap, st: WState, arr: WValue, i: nat)
    requires arr.WArr? && i <= |arr.items|
    requires NumericFrom(nsMap, st, arr, i).Ok?
    ensures var d := Added(st.events, NumericFrom(nsMap, st, arr, i).value.events);
      Balanced(d) && TopClosed(d) == |arr.items| - i
    decreases arr, |arr.items| - i
  {
    var r := NumericFrom(nsMap, st, arr, i).value;
    if i == |arr.items| {
      assert Added(st.events, r.events) == [];
    } else {
      var st1 := NumericEntryOf(nsMap, st, arr.items[i].val).value;
      NumericEntryShape(nsMap, st, arr.items[i].val);
      NumericFromShape(nsMap, st1, arr, i + 1);
      AddedJoin(st.events, st1.events, r.events);
      EntryThenRest(Added(st.events, st1.events), Added(st1.events, r.events), |arr.items| - (i + 1));
    }
  }

  lemma {:induction false} NamedFromShape(nsMap: NamespaceMap, st: WState, arr: WValue, i: nat)
    requires arr.WArr? && i <= |arr.items|
    requires NamedFrom(nsMap, st, arr, i).Ok?
    ensures var d := Added(st.events, NamedFrom(nsMap, st, arr, i).value.events);
      Balanced(d) && TopClosed(d) == |arr.items| - i
    decreases arr, |arr.items| - i
  {
    var r := NamedFrom(nsMap, st, arr, i).value;
    if i == |arr.items| {
      assert Added(st.events, r.events) == [];
    } else {
      var st1 := NamedEntryOf(nsMap, st, arr.items[i].key, arr.items[i].val).value;
      NamedEntryShape(nsMap, st, arr.items[i].key, arr.items[i].val);
      NamedFromShape(nsMap, st1, arr, i + 1);
      AddedJoin(st.events, st1.events, r.events);
      EntryThenRest(Added(st.events, st1.events), Added(st1.events, r.events), |arr.items| - (i + 1));
    }
  }

  lemma {:induction false} NumericEntryShape(nsMap: NamespaceMap, st: WState, item: WValue)
    requires NumericEntryOf(nsMap, st, item).Ok?
    ensures OneElement(Added(st.events, NumericEntryOf(nsMap, st, item).value.events))
    decreases item, 0
  {
    var n := FindKey(item.items, StrKey("name")).value;
    var j := FindKey(item.items, StrKey("value")).value;
    var name := item.items[n].val.s;
    var st1 := LegacyStartElementOf(nsMap, st, name).value;
    LegacyStartElementShape(nsMap, st, name);
    var attributes := FindKey(item.items, StrKey("attributes"));
    var st2 := if attributes.Some? && !item.items[attributes.value].val.WNull?
               then LegacyWriteAttributesOf(nsMap, st1, item.items[attributes.value].val).value
               else st1;
    if attributes.Some? && !item.items[attributes.value].val.WNull? {
      LegacyWriteAttributesShape(nsMap, st1, item.items[attributes.value].val.items, 0);
    } else {
      assert Added(st1.events, st2.events) == [];
    }
    var st3 := LegacyWriteValue(nsMap, st2, item.items[j].val).value;
    LegacyWriteValueShape(nsMap, st2, item.items[j].val);
    var r := NumericEntryOf(nsMap, st, item).value;
    assert r.events == st3.events + [End];
    AddedJoin(st.events, st1.events, st2.events);
    AddedJoin(st.events, st2.events, st3.events);
    AddedJoin(st.events, st3.events, r.events);
    Wrap(Added(st.events, st1.events), Added(st1.events, st2.events), Added(st2.events, st3.events));
  }

  lemma {:induction false} NamedEntryShape(nsMap: NamespaceMap, st: WState, key: Key, v: WValue)
    requires NamedEntryOf(nsMap, st, key, v).Ok?
    ensures OneElement(Added(st.events, NamedEntryOf(nsMap, st, key, v).value.events))
    decreases v, if v.WArr? then |v.items| + 2 else 1
  {
    var st1 := LegacyStartElementOf(nsMap, st, KeyName(key)).value;
    LegacyStartElementShape(nsMap, st, KeyName(key));
    var st2 := LegacyWriteValue(nsMap, st1, v).value;
    LegacyWriteValueShape(nsMap, st1, v);
    var r := NamedEntryOf(nsMap, st, key, v).value;
    assert r.events == st2.events + [End];
    var tag, body := Added(st.events, st1.events), Added(st1.events, st2.events);
    AddedJoin(st.events, st1.events, st2.events);
    AddedJoin(st.events, st2.events, r.events);
    assert Added(st2.events, r.events) == [End];
    assert tag + [] == tag;
    Wrap(tag, [], body);
  }

  // ---------------------------------------------------------------------
  // Namespaces

  /** A namespace `isset` does not find — unconfigured, mapped to null, or
      the empty namespace — opens with its ad-hoc prefix. */
  lemma UnsetNamespaceElement(nsMap: NamespaceMap, st: WState, q: QName)
    requires Parsable(q) && IssetPrefix(nsMap, q.ns).None?
    ensures var r := LegacyStartElementOf(nsMap, st, Format(q));
      r.Ok? && Get(r.value.adhoc, q.ns).Some? &&
      (Get(st.adhoc, q.ns).Some? ==> r.value.adhoc == st.adhoc) &&
      Added(st.events, r.value.events)[0] == StartNS(Get(r.value.adhoc, q.ns), q.local, Some(q.ns))
  {
    RoundTrip(q);
  }

  /** A namespace with a non-null prefix opens with that prefix and leaves
      the ad-hoc prefixes alone; so do its attributes. */
  lemma SetNamespace(nsMap: NamespaceMap, st: WState, q: QName, s: string)
    requires Parsable(q) && IssetPrefix(nsMap, q.ns).Some?
    ensures var r := LegacyStartElementOf(nsMap, st, Format(q));
      r.Ok? && r.value.adhoc == st.adhoc &&
      Added(st.events, r.value.events)[0] == StartNS(IssetPrefix(nsMap, q.ns), q.local, None)
    ensures var r := LegacyWriteAttributeOf(nsMap, st, Format(q), WStr(s));
      r.Ok? && r.value.adhoc == st.adhoc &&
      Added(st.events, r.value.events) == [AttrNS(IssetPrefix(nsMap, q.ns).value, Some(q.local), None, s)]
  {
    RoundTrip(q);
  }

  /** An item of the numeric format without `name` or `value` is refused. */
  lemma NumericItemRefused(nsMap: NamespaceMap, st: WState, item: WValue)
    requires !item.WArr? || FindKey(item.items, StrKey("name")).None? || FindKey(item.items, StrKey("value")).None?
    ensures NumericEntryOf(nsMap, st, item) == Err(InvalidArgument(LEGACY_NUMERIC_KEYS))
  {
  }

  // ---------------------------------------------------------------------
  // Where the two generations part

  const SABRE_NS := "http://sabredav.org/ns"

  /** The namespace map of the key/value serialisation test: its
      namespace is the default one, mapped to the null prefix. */
  const NULL_PREFIX_MAP: NamespaceMap := [Entry(SABRE_NS, None)]

  lemma RootName()
    ensures IsClark(Format(QName(SABRE_NS, "root")))
    ensures ParseClarkNotation(Format(QName(SABRE_NS, "root"))) == Ok(QName(SABRE_NS, "root"))
    ensures Get(NULL_PREFIX_MAP, SABRE_NS) == Some(None)
  {
    assert '}' !in SABRE_NS;
    RoundTrip(QName(SABRE_NS, "root"));
  }

  /** The root of that test, as the older writer opens it: `isset` misses
      the null prefix, so the root becomes `x1:root` declaring `x1`, and the
      map's default-namespace declaration follows. */
  lemma NullPrefixRootLegacy()
    ensures LegacyStartElementOf(NULL_PREFIX_MAP, WState([], [], false), Format(QName(SABRE_NS, "root")))
         == Ok(WState([StartNS(Some("x1"), "root", Some(SABRE_NS)), AttrNS("xmlns", None, None, SABRE_NS)],
                      [Entry(SABRE_NS, "x1")], true))
  {
    var st := WState([], [], false);
    RootName();
    assert IssetPrefix(NULL_PREFIX_MAP, SABRE_NS) == None;
    assert AdhocName(1) == "x1";
    var st1 := WState([], [Entry(SABRE_NS, "x1")], false);
    assert st.adhoc + [Entry(SABRE_NS, "x1")] == [Entry(SABRE_NS, "x1")];
    assert AdhocFor(st, SABRE_NS) == (st1, "x1");
    assert LegacyDeclarations(NULL_PREFIX_MAP) == [AttrNS("xmlns", None, None, SABRE_NS)];
    var rootTag := Emit(st1, StartNS(Some("x1"), "root", Some(SABRE_NS)));
    assert rootTag == WState([StartNS(Some("x1"), "root", Some(SABRE_NS))], [Entry(SABRE_NS, "x1")], false);
    assert LegacyDeclareOnce(NULL_PREFIX_MAP, rootTag)
        == WState([StartNS(Some("x1"), "root", Some(SABRE_NS)), AttrNS("xmlns", None, None, SABRE_NS)], [Entry(SABRE_NS, "x1")], true);
  }

  /** The same root as the current writer opens it: a plain `root` carrying
      `xmlns`, the output the test expects, and no ad-hoc prefix. */
  lemma NullPrefixRootCurrent()
    ensures StartElementOf(NULL_PREFIX_MAP, WState([], [], false), Format(QName(SABRE_NS, "root")))
         == Ok(WState([StartNS(None, "root", None), Attr("xmlns", SABRE_NS)], [], true))
  {
    var st := WState([], [], false);
    RootName();
    assert DeclarationName(None) == "xmlns";
    assert Declarations(NULL_PREFIX_MAP) == [Attr("xmlns", SABRE_NS)];
    assert Emit(st, StartNS(None, "root", None)) == WState([StartNS(None, "root", None)], [], false);
    assert DeclareOnce(NULL_PREFIX_MAP, WState([StartNS(None, "root", None)], [], false))
        == WState([StartNS(None, "root", None), Attr("xmlns", SABRE_NS)], [], true);
  }

  /** An item in the numeric format, `['name' => 'a', 'value' => 'x']`. */
  const NAMED_ITEM := WArr([Item(StrKey("name"), WStr("a")), Item(StrKey("value"), WStr("x"))])

  /** That item under key 0, followed by `'b' => 'y'`. */
  const MIXED := WArr([Item(IntKey(0), NAMED_ITEM), Item(StrKey("b"), WStr("y"))])

  lemma NamedItemFields()
    ensures FindKey(NAMED_ITEM.items, StrKey("name")) == Some(0)
    ensures FindKey(NAMED_ITEM.items, StrKey("value")) == Some(1)
    ensures FindKey(NAMED_ITEM.items, StrKey("attributes")) == None
  {
    assert FindKey(NAMED_ITEM.items[1..], StrKey("value")) == Some(0);
    assert FindKey(NAMED_ITEM.items[1..][1..], StrKey("attributes")) == None;
  }

  /** The first entry of the mixed array, written by the current writer. */
  lemma NumericEntryWritten()
    ensures WriteEntryOf([], WState([], [], true), IntKey(0), NAMED_ITEM)
         == Ok(WState([Start("a"), Text("x"), End], [], true))
  {
    var st := WState([], [], true);
    NamedItemFields();
    assert EntryParts(IntKey(0), NAMED_ITEM) == Ok(("a", WArr([]), Some(1)));
    assert !IsClark("a");
    assert Emit(st, Start("a")) == WState([Start("a")], [], true);
    assert DeclareOnce([], WState([Start("a")], [], true)) == WState([Start("a")], [], true);
    assert StartElementOf([], st, "a") == Ok(WState([Start("a")], [], true));
    assert WriteAttributesOf([], WState([Start("a")], [], true), WArr([])) == Ok(WState([Start("a")], [], true));
    assert Emit(WState([Start("a")], [], true), Text("x")) == WState([Start("a"), Text("x")], [], true);
    assert WriteValue([], WState([Start("a")], [], true), WStr("x")) == Ok(WState([Start("a"), Text("x")], [], true));
    assert Emit(WState([Start("a"), Text("x")], [], true), End) == WState([Start("a"), Text("x"), End], [], true);
  }

  /** The second entry of the mixed array, written by the current writer. */
  lemma NamedEntryWritten()
    ensures WriteEntryOf([], WState([Start("a"), Text("x"), End], [], true), StrKey("b"), WStr("y"))
         == Ok(WState([Start("a"), Text("x"), End, Start("b"), Text("y"), End], [], true))
  {
    var st1 := WState([Start("a"), Text("x"), End], [], true);
    var st2 := WState([Start("a"), Text("x"), End, Start("b")], [], true);
    var st3 := WState([Start("a"), Text("x"), End, Start("b"), Text("y")], [], true);
    var st4 := WState([Start("a"), Text("x"), End, Start("b"), Text("y"), End], [], true);
    assert !IsClark("b");
    assert EntryParts(StrKey("b"), WStr("y")) == Ok(("b", WArr([]), None));
    assert Emit(st1, Start("b")) == st2;
    assert StartElementOf([], st1, "b") == Ok(st2);
    assert WriteAttributesOf([], st2, WArr([])) == Ok(st2);
    assert Emit(st2, Text("y")) == st3;
    assert Emit(st3, End) == st4;
    assert WriteValue([], st2, WStr("y")) == Ok(st3);
  }

  /** The current writer writes both entries of the mixed array, `a` from
      the numeric format and `b` from the named one. */
  lemma MixedKeysWritten()
    ensures WriteValue([], WState([], [], true), MIXED)
         == Ok(WState([Start("a"), Text("x"), End, Start("b"), Text("y"), End], [], true))
  {
    var st1 := WState([Start("a"), Text("x"), End], [], true);
    var st4 := WState([Start("a"), Text("x"), End, Start("b"), Text("y"), End], [], true);
    NumericEntryWritten();
    NamedEntryWritten();
    assert WriteEntriesFrom([], st4, MIXED, 2) == Ok(st4);
    assert WriteEntriesFrom([], st1, MIXED, 1) == Ok(st4);
  }

  /** The older writer refuses the same array: its first key chose the
      numeric format, and `'y'` is not an item with `name` and `value`. */
  lemma MixedKeysRefused()
    ensures LegacyWriteValue([], WState([], [], true), MIXED) == Err(InvalidArgument(LEGACY_NUMERIC_KEYS))
  {
    var st := WState([], [], true);
    var st1 := WState([Start("a"), Text("x"), End], [], true);
    NamedItemWritten();
    assert NumericEntryOf([], st1, WStr("y")) == Err(InvalidArgument(LEGACY_NUMERIC_KEYS));
    assert NumericFrom([], st1, MIXED, 1) == Err(InvalidArgument(LEGACY_NUMERIC_KEYS));
    assert NumericFrom([], st, MIXED, 0) == NumericFrom([], st1, MIXED, 1);
  }

  /** The first item of that array is written as `<a>x</a>`. */
  lemma NamedItemWritten()
    ensures NumericEntryOf([], WState([], [], true), NAMED_ITEM) == Ok(WState([Start("a"), Text("x"), End], [], true))
  {
    var st := WState([], [], true);
    NamedItemFields();
    assert !IsClark("a");
    assert NAMED_ITEM.items[0].val == WStr("a") && NAMED_ITEM.items[1].val == WStr("x");
    assert Emit(st, Start("a")) == WState([Start("a")], [], true);
    assert LegacyDeclareOnce([], WState([Start("a")], [], true)) == WState([Start("a")], [], true);
    assert LegacyStartElementOf([], st, "a") == Ok(WState([Start("a")], [], true));
    assert Emit(WState([Start("a")], [], true), Text("x")) == WState([Start("a"), Text("x")], [], true);
    assert LegacyWriteValue([], WState([Start("a")], [], true), WStr("x")) == Ok(WState([Start("a"), Text("x")], [], true));
    assert Emit(WState([Start("a"), Text("x")], [], true), End) == WState([Start("a"), Text("x"), End], [], true);
  }

  /** An object that cannot write itself is refused by the current writer
      and silently dropped by the older one. */
  lemma ObjectsDropped(nsMap: NamespaceMap, st: WState, c: string)
    requires PlainPrefixes(nsMap)
    ensures LegacyWriteValue(nsMap, st, Obj(c)) == Ok(st)
    ensures WriteValue(nsMap, st, Obj(c)) == Err(InvalidArgument(NOT_SERIALIZABLE + c))
  {
  }
}
