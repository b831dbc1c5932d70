/** What the writer promises about the XMLWriter calls it issues: element
    names resolve to the configured or an ad-hoc prefix, ad-hoc prefixes are
    consistent and distinct, the namespace map is declared on the first
    element only, and every successful `write` / `writeElement` issues a
    well-nested call sequence — one element per array entry, attributes
    only straight after a start tag. */
module WriterProperties {
  import opened Wrappers
  import opened Php
  import opened Clark
  import opened Writer

  // ---------------------------------------------------------------------
  // Shape of a call sequence

  /** How a call moves the depth of open elements. */
  function Delta(e: Event): int {
    match e
    case Start(_) => 1
    case StartNS(_, _, _) => 1
    case End => -1
    case _ => 0
  }

  predicate IsAttribute(e: Event) {
    e.Attr? || e.AttrNS?
  }

  /** The number of elements left open after the calls `es`. */
  function Depth(es: seq<Event>): int {
    if es == [] then 0 else Depth(es[..|es| - 1]) + Delta(es[|es| - 1])
  }

  /** The number of elements closed at the outermost level. */
  function TopClosed(es: seq<Event>): nat {
    if es == [] then 0
    else TopClosed(es[..|es| - 1]) + (if es[|es| - 1].End? && Depth(es) == 0 then 1 else 0)
  }

  /** No prefix of `es` goes below depth `m`. */
  predicate Floor(es: seq<Event>, m: int) {
    forall k :: 0 <= k <= |es| ==> Depth(es[..k]) >= m
  }

  /** Every attribute call follows a start tag or another attribute, as
      XMLWriter requires. */
  predicate Attached(es: seq<Event>) {
    forall i :: 0 <= i < |es| && IsAttribute(es[i]) ==> 0 < i && (Delta(es[i - 1]) == 1 || IsAttribute(es[i - 1]))
  }

  predicate Attributes(es: seq<Event>) {
    forall i :: 0 <= i < |es| ==> IsAttribute(es[i])
  }

  /** A start tag with the attributes the writer puts on it. */
  predicate StartTag(es: seq<Event>) {
    |es| >= 1 && Delta(es[0]) == 1 && Attributes(es[1..])
  }

  /** Well-nested content: every element opened is closed, none is closed
      that was not opened, attributes sit on start tags. */
  predicate Balanced(es: seq<Event>) {
    Floor(es, 0) && Depth(es) == 0 && Attached(es)
  }

  /** Exactly one element: it opens first and is closed by the last call
      and not before. */
  predicate OneElement(es: seq<Event>) {
    |es| >= 2 && Delta(es[0]) == 1 && Depth(es) == 0 && Attached(es) &&
    forall k :: 1 <= k < |es| ==> Depth(es[..k]) >= 1
  }

  /** The calls issued between two states of the log. */
  function Added(before: seq<Event>, after: seq<Event>): seq<Event>
    requires before <= after
  {
    after[|before|..]
  }

  lemma AddedJoin(a: seq<Event>, b: seq<Event>, c: seq<Event>)
    requires a <= b <= c
    ensures Added(a, c) == Added(a, b) + Added(b, c)
  {
  }

  lemma {:induction false} DepthAppend(a: seq<Event>, b: seq<Event>)
    ensures Depth(a + b) == Depth(a) + Depth(b)
  {
    if b == [] {
      assert a + b == a;
    } else {
      assert (a + b)[..|a + b| - 1] == a + b[..|b| - 1];
      DepthAppend(a, b[..|b| - 1]);
    }
  }

  lemma {:induction false} FloorAppend(a: seq<Event>, b: seq<Event>, m: int)
    requires Floor(a, m) && Floor(b, m - Depth(a))
    ensures Floor(a + b, m)
  {
    forall k | 0 <= k <= |a + b|
      ensures Depth((a + b)[..k]) >= m
    {
      if k <= |a| {
        assert (a + b)[..k] == a[..k];
      } else {
        assert (a + b)[..k] == a + b[..k - |a|];
        DepthAppend(a, b[..k - |a|]);
      }
    }
  }

  lemma AttachedAppend(a: seq<Event>, b: seq<Event>)
    requires Attached(a) && Attached(b)
    ensures Attached(a + b)
  {
    forall i | 0 <= i < |a + b| && IsAttribute((a + b)[i])
      ensures 0 < i && (Delta((a + b)[i - 1]) == 1 || IsAttribute((a + b)[i - 1]))
    {
      if i >= |a| {
        assert (a + b)[i] == b[i - |a|];
      }
    }
  }

  /** Attributes written straight after a start tag or its attributes. */
  lemma AttachedAfterTag(a: seq<Event>, b: seq<Event>)
    requires Attached(a) && |a| > 0 && (Delta(a[|a| - 1]) == 1 || IsAttribute(a[|a| - 1]))
    requires Attributes(b)
    ensures Attached(a + b)
  {
    forall i | 0 <= i < |a + b| && IsAttribute((a + b)[i])
      ensures 0 < i && (Delta((a + b)[i - 1]) == 1 || IsAttribute((a + b)[i - 1]))
    {
      if i > |a| {
        assert (a + b)[i - 1] == b[i - 1 - |a|];
      }
    }
  }

  lemma {:induction false} AttributesFlat(es: seq<Event>)
    requires Attributes(es)
    ensures Depth(es) == 0 && Floor(es, 0)
  {
    if es != [] {
      AttributesFlat(es[..|es| - 1]);
    }
    forall k | 0 <= k <= |es|
      ensures Depth(es[..k]) >= 0
    {
      if k < |es| {
        assert Attributes(es[..k]);
        AttributesFlat(es[..k]);
      } else {
        assert es[..k] == es;
      }
    }
  }

  lemma BalancedAppend(a: seq<Event>, b: seq<Event>)
    requires Balanced(a) && Balanced(b)
    ensures Balanced(a + b)
  {
    DepthAppend(a, b);
    FloorAppend(a, b, 0);
    AttachedAppend(a, b);
  }

  /** A single element is well-nested content. */
  lemma OneElementBalanced(es: seq<Event>)
    requires OneElement(es)
    ensures Balanced(es)
  {
    assert es[..|es|] == es;
    assert es[..0] == [];
  }

  /** An opening call, well-nested content and an end tag: the element
      stays open until the last call. */
  lemma Enclose(o: Event, inner: seq<Event>)
    requires Delta(o) == 1 && Floor(inner, 0) && Depth(inner) == 0
    ensures var x := [o] + inner + [End];
      Depth(x) == 0 && forall k :: 1 <= k < |x| ==> Depth(x[..k]) >= 1
  {
    var x := [o] + inner + [End];
    DepthAppend([o] + inner, [End]);
    DepthAppend([o], inner);
    assert Depth([o]) == 1 by {
      assert [o][..0] == [];
    }
    assert Depth([End]) == -1 by {
      assert [End][..0] == [];
    }
    forall k | 1 <= k < |x|
      ensures Depth(x[..k]) >= 1
    {
      assert x[..k] == [o] + inner[..k - 1];
      DepthAppend([o], inner[..k - 1]);
    }
  }

  /** A start tag, more attributes, well-nested content and an end tag
      make exactly one element. */
  lemma Wrap(tag: seq<Event>, attrs: seq<Event>, body: seq<Event>)
    requires StartTag(tag) && Attributes(attrs) && Balanced(body)
    ensures OneElement(tag + attrs + body + [End])
  {
    var flat := tag[1..] + attrs;
    assert Attributes(flat) by {
      forall i | 0 <= i < |flat|
        ensures IsAttribute(flat[i])
      {
        if i >= |tag[1..]| {
          assert flat[i] == attrs[i - |tag[1..]|];
        }
      }
    }
    AttributesFlat(flat);
    FloorAppend(flat, body, 0);
    DepthAppend(flat, body);
    Enclose(tag[0], flat + body);
    assert tag + attrs + body + [End] == [tag[0]] + (flat + body) + [End];
    assert Attached([tag[0]]);
    AttachedAfterTag([tag[0]], flat);
    assert [tag[0]] + flat == tag + attrs;
    AttachedAppend(tag + attrs, body);
    AttachedAppend(tag + attrs + body, [End]);
  }

  /** Calls after a closed-off prefix add their own outermost closings. */
  lemma {:induction false} TopClosedAppend(a: seq<Event>, b: seq<Event>)
    requires Depth(a) == 0
    ensures TopClosed(a + b) == TopClosed(a) + TopClosed(b)
  {
    if b == [] {
      assert a + b == a;
    } else {
      var b0 := b[..|b| - 1];
      assert (a + b)[..|a + b| - 1] == a + b0;
      TopClosedAppend(a, b0);
      DepthAppend(a, b);
    }
  }

  lemma {:induction false} TopClosedInside(es: seq<Event>, k: nat)
    requires OneElement(es) && 1 <= k < |es|
    ensures TopClosed(es[..k]) == 0
  {
    if k == 1 {
      assert es[..1][..0] == [];
    } else {
      assert es[..k][..k - 1] == es[..k - 1];
      TopClosedInside(es, k - 1);
    }
  }

  /** One element closes exactly once at the outermost level. */
  lemma OneElementClosesOnce(es: seq<Event>)
    requires OneElement(es)
    ensures TopClosed(es) == 1
  {
    var n := |es|;
    assert es[..n] == es;
    TopClosedInside(es, n - 1);
    assert es[..n - 1] == es[..n][..n - 1];
  }

  // ---------------------------------------------------------------------
  // The calls each writing operation issues

  /** `startElement` issues one start tag: the opening call, the namespace
      declarations, and `xmlns=""` for the empty namespace. */
  lemma {:induction false} StartElementShape(nsMap: NamespaceMap, st: WState, name: string)
    requires StartElementOf(nsMap, st, name).Ok?
    ensures StartTag(Added(st.events, StartElementOf(nsMap, st, name).value.events))
    decreases |name|
  {
    var r := StartElementOf(nsMap, st, name).value;
    if IsClark(name) {
      var q := ParseClarkNotation(name).value;
      if Get(nsMap, q.ns).None? && q.ns == "" {
        assert |q.local| < |name|;
        var st1 := StartElementOf(nsMap, st, q.local).value;
        StartElementShape(nsMap, st, q.local);
        assert r.events == st1.events + [Attr("xmlns", "")];
        AddedJoin(st.events, st1.events, r.events);
        var t := Added(st.events, st1.events);
        assert Added(st.events, r.events)[1..] == t[1..] + [Attr("xmlns", "")];
      } else {
        var tagCalls := Added(st.events, r.events);
        assert tagCalls[1..] == if st.written then [] else Declarations(nsMap);
      }
    } else {
      var tagCalls := Added(st.events, r.events);
      assert tagCalls[1..] == if st.written then [] else Declarations(nsMap);
    }
  }

  /** `writeAttribute` issues exactly one attribute call. */
  lemma WriteAttributeShape(nsMap: NamespaceMap, st: WState, name: string, value: WValue)
    requires PlainPrefixes(nsMap)
    requires WriteAttributeOf(nsMap, st, name, value).Ok?
    ensures var d := Added(st.events, WriteAttributeOf(nsMap, st, name, value).value.events);
      |d| == 1 && IsAttribute(d[0])
  {
  }

  /** `writeAttributes` issues attribute calls only, one per pair. */
  lemma {:induction false} WriteAttributesShape(nsMap: NamespaceMap, st: WState, items: seq<Item>, i: nat)
    requires i <= |items| && PlainPrefixes(nsMap)
    requires WriteAttributesFrom(nsMap, st, items, i).Ok?
    ensures var d := Added(st.events, WriteAttributesFrom(nsMap, st, items, i).value.events);
      Attributes(d) && |d| == |items| - i
    decreases |items| - i
  {
    if i < |items| {
      var st1 := WriteAttributeOf(nsMap, st, KeyName(items[i].key), items[i].val).value;
      WriteAttributeShape(nsMap, st, KeyName(items[i].key), items[i].val);
      WriteAttributesShape(nsMap, st1, items, i + 1);
      var r := WriteAttributesFrom(nsMap, st, items, i).value;
      AddedJoin(st.events, st1.events, r.events);
    }
  }

  /** `write` issues well-nested content, and for an array one element per
      entry. */
  lemma {:induction false} WriteValueShape(nsMap: NamespaceMap, st: WState, v: WValue)
    requires PlainPrefixes(nsMap)
    requires WriteValue(nsMap, st, v).Ok?
    ensures var d := Added(st.events, WriteValue(nsMap, st, v).value.events);
      Balanced(d) && (v.WArr? ==> TopClosed(d) == |v.items|)
    decreases v, if v.WArr? then |v.items| + 1 else 0
  {
    var d := Added(st.events, WriteValue(nsMap, st, v).value.events);
    if v.WArr? {
      WriteEntriesShape(nsMap, st, v, 0);
    } else if !v.WNull? {
      assert |d| == 1 && !IsAttribute(d[0]) && Delta(d[0]) == 0;
      assert d[..0] == [] && d[..1] == d;
    } else {
      assert d == [];
    }
  }

  lemma {:induction false} WriteEntriesShape(nsMap: NamespaceMap, st: WState, arr: WValue, i: nat)
    requires arr.WArr? && i <= |arr.items| && PlainPrefixes(nsMap)
    requires WriteEntriesFrom(nsMap, st, arr, i).Ok?
    ensures var d := Added(st.events, WriteEntriesFrom(nsMap, st, arr, i).value.events);
      Balanced(d) && TopClosed(d) == |arr.items| - i
    decreases arr, |arr.items| - i
  {
    var r := WriteEntriesFrom(nsMap, st, arr, i).value;
    if i == |arr.items| {
      assert Added(st.events, r.events) == [];
    } else {
      var st1 := WriteEntryOf(nsMap, st, arr.items[i].key, arr.items[i].val).value;
      WriteEntryShape(nsMap, st, arr.items[i].key, arr.items[i].val);
      WriteEntriesShape(nsMap, st1, arr, i + 1);
      var one, rest := Added(st.events, st1.events), Added(st1.events, r.events);
      AddedJoin(st.events, st1.events, r.events);
      OneElementBalanced(one);
      OneElementClosesOnce(one);
      BalancedAppend(one, rest);
      TopClosedAppend(one, rest);
    }
  }

  lemma {:induction false} WriteEntryShape(nsMap: NamespaceMap, st: WState, key: Key, item: WValue)
    requires PlainPrefixes(nsMap)
    requires WriteEntryOf(nsMap, st, key, item).Ok?
    ensures OneElement(Added(st.events, WriteEntryOf(nsMap, st, key, item).value.events))
    decreases item, if item.WArr? then |item.items| + 2 else 1
  {
    var (name, attributes, at) := EntryParts(key, item).value;
    var content := if at.Some? then item.items[at.value].val else item;
    var st1 := StartElementOf(nsMap, st, name).value;
    var st2 := WriteAttributesOf(nsMap, st1, attributes).value;
    var st3 := WriteValue(nsMap, st2, content).value;
    var r := WriteEntryOf(nsMap, st, key, item).value;
    StartElementShape(nsMap, st, name);
    WriteAttributesShape(nsMap, st1, attributes.items, 0);
    WriteValueShape(nsMap, st2, content);
    AddedJoin(st.events, st1.events, st2.events);
    AddedJoin(st.events, st2.events, st3.events);
    AddedJoin(st.events, st3.events, r.events);
    Wrap(Added(st.events, st1.events), Added(st1.events, st2.events), Added(st2.events, st3.events));
  }

  /** `writeElement` issues exactly one element; with null content it holds
      nothing but its start tag. */
  lemma WriteElementShape(nsMap: NamespaceMap, st: WState, name: string, content: WValue)
    requires PlainPrefixes(nsMap)
    requires WriteElementOf(nsMap, st, name, content).Ok?
    ensures var d := Added(st.events, WriteElementOf(nsMap, st, name, content).value.events);
      OneElement(d) && (content.WNull? ==> Attributes(d[1..|d| - 1]))
  {
    var st1 := StartElementOf(nsMap, st, name).value;
    var r := WriteElementOf(nsMap, st, name, content).value;
    StartElementShape(nsMap, st, name);
    var tag := Added(st.events, st1.events);
    var st2 := if content.WNull? then st1 else WriteValue(nsMap, st1, content).value;
    assert r.events == st2.events + [End];
    var body := Added(st1.events, st2.events);
    if content.WNull? {
      assert body == [];
    } else {
      WriteValueShape(nsMap, st1, content);
    }
    ElementOfParts(st.events, st1.events, st2.events, tag, body);
    Wrap(tag, [], body);
  }

  lemma ElementOfParts(e0: seq<Event>, e1: seq<Event>, e2: seq<Event>, tag: seq<Event>, body: seq<Event>)
    requires e0 <= e1 <= e2 && tag == Added(e0, e1) && body == Added(e1, e2) && |tag| >= 1
    ensures Added(e0, e2 + [End]) == tag + [] + body + [End]
    ensures body == [] ==> Added(e0, e2 + [End])[1..|Added(e0, e2 + [End])| - 1] == tag[1..]
  {
  }

  // ---------------------------------------------------------------------
  // Names and prefixes

  lemma {:induction false} GetAt<V>(a: seq<Entry<V>>, k: string) returns (i: nat)
    requires Get(a, k).Some?
    ensures i < |a| && a[i].key == k && a[i].val == Get(a, k).value
  {
    if a[0].key == k {
      i := 0;
    } else {
      var j := GetAt(a[1..], k);
      i := j + 1;
    }
  }

  /** Two namespaces never share an ad-hoc prefix. */
  lemma AdhocPrefixesDistinct(adhoc: seq<Entry<string>>, a: string, b: string)
    requires AdhocNumbered(adhoc)
    requires Get(adhoc, a).Some? && Get(adhoc, a) == Get(adhoc, b)
    ensures a == b
  {
    var i := GetAt(adhoc, a);
    var j := GetAt(adhoc, b);
    assert AdhocName(i + 1) == AdhocName(j + 1);
    assert NatToString(i + 1) == AdhocName(i + 1)[1..];
    assert NatToString(j + 1) == AdhocName(j + 1)[1..];
    NatToStringInjective(i + 1, j + 1);
  }

  /** An element in a configured namespace opens with that namespace's
      prefix and leaves the ad-hoc prefixes alone. */
  lemma KnownNamespaceElement(nsMap: NamespaceMap, st: WState, q: QName)
    requires Parsable(q) && Get(nsMap, q.ns).Some?
    ensures var r := StartElementOf(nsMap, st, Format(q));
      r.Ok? && r.value.adhoc == st.adhoc &&
      Added(st.events, r.value.events)[0] == StartNS(Get(nsMap, q.ns).value, q.local, None)
  {
    RoundTrip(q);
  }

  /** An element in any other non-empty namespace opens with an ad-hoc
      prefix, the one it already had if the namespace was seen before. */
  lemma UnknownNamespaceElement(nsMap: NamespaceMap, st: WState, q: QName)
    requires Parsable(q) && q.ns != "" && Get(nsMap, q.ns).None?
    ensures var r := StartElementOf(nsMap, st, Format(q));
      r.Ok? && Get(r.value.adhoc, q.ns).Some? &&
      (Get(st.adhoc, q.ns).Some? ==> Get(r.value.adhoc, q.ns) == Get(st.adhoc, q.ns)) &&
      Added(st.events, r.value.events)[0] == StartNS(Get(r.value.adhoc, q.ns), q.local, Some(q.ns))
  {
    RoundTrip(q);
  }

  /** `{}local` with no mapping for the empty namespace opens a plain
      `local` element and resets the default namespace with `xmlns=""`,
      after the declarations when this is the first element. */
  lemma EmptyNamespaceElement(nsMap: NamespaceMap, st: WState, local: string)
    requires Get(nsMap, "").None? && Parsable(QName("", local)) && !IsClark(local)
    ensures var r := StartElementOf(nsMap, st, Format(QName("", local)));
      r.Ok? && r.value.adhoc == st.adhoc &&
      Added(st.events, r.value.events) ==
        [Start(local)] + (if st.written then [] else Declarations(nsMap)) + [Attr("xmlns", "")]
  {
    var st1 := EmptyNamespaceStart(nsMap, st, local);
    var d := if st.written then [] else Declarations(nsMap);
    assert st1.events == st.events + [Start(local)] + d;
    assert st1.written;
    assert Added(st.events, st1.events + [Attr("xmlns", "")]) == [Start(local)] + d + [Attr("xmlns", "")];
  }

  /** The two steps `{}local` takes: `local` alone, then `xmlns=""`. */
  lemma EmptyNamespaceStart(nsMap: NamespaceMap, st: WState, local: string) returns (st1: WState)
    requires Get(nsMap, "").None? && Parsable(QName("", local)) && !IsClark(local)
    ensures st1 == DeclareOnce(nsMap, Emit(st, Start(local)))
    ensures StartElementOf(nsMap, st, Format(QName("", local))) == Ok(Emit(st1, Attr("xmlns", "")))
  {
    RoundTrip(QName("", local));
    assert IsClark(Format(QName("", local)));
    st1 := DeclareOnce(nsMap, Emit(st, Start(local)));
    assert StartElementOf(nsMap, st, local) == Ok(st1);
  }

  /** The namespace map is declared on the first element and never again:
      after it, a start tag carries at most `xmlns=""` resets. */
  lemma {:induction false} DeclaredOnce(nsMap: NamespaceMap, st: WState, name: string)
    requires StartElementOf(nsMap, st, name).Ok?
    ensures var d := Added(st.events, StartElementOf(nsMap, st, name).value.events);
      st.written ==> forall i :: 1 <= i < |d| ==> d[i] == Attr("xmlns", "")
    decreases |name|
  {
    if st.written {
      var r := StartElementOf(nsMap, st, name).value;
      if IsClark(name) {
        var q := ParseClarkNotation(name).value;
        if Get(nsMap, q.ns).None? && q.ns == "" {
          assert |q.local| < |name|;
          var st1 := StartElementOf(nsMap, st, q.local).value;
          DeclaredOnce(nsMap, st, q.local);
          AddedJoin(st.events, st1.events, r.events);
        }
      }
    }
  }

  /** The first start tag declares the whole namespace map right after the
      element is opened. */
  lemma FirstElementDeclares(nsMap: NamespaceMap, st: WState, name: string)
    requires !st.written && !IsClark(name)
    ensures var r := StartElementOf(nsMap, st, name);
      r.Ok? && r.value.written && Added(st.events, r.value.events) == [Start(name)] + Declarations(nsMap)
  {
  }

  /** An attribute in a configured namespace is written as `prefix:local`
      (an empty prefix for a null one); in any other namespace it gets the
      namespace's ad-hoc prefix. */
  lemma NamespacedAttribute(nsMap: NamespaceMap, st: WState, q: QName, s: string)
    requires PlainPrefixes(nsMap) && Parsable(q)
    ensures var r := WriteAttributeOf(nsMap, st, Format(q), WStr(s));
      r.Ok? && |Added(st.events, r.value.events)| == 1 &&
      (Get(nsMap, q.ns).Some? ==>
        r.value.adhoc == st.adhoc &&
        Added(st.events, r.value.events)[0] == Attr(Get(nsMap, q.ns).value.GetOr("") + ":" + q.local, s)) &&
      (Get(nsMap, q.ns).None? ==>
        Get(r.value.adhoc, q.ns).Some? &&
        Added(st.events, r.value.events)[0] == AttrNS(Get(r.value.adhoc, q.ns).value, Some(q.local), Some(q.ns), s))
  {
    RoundTrip(q);
  }

  // ---------------------------------------------------------------------
  // The array formats of `write`

  /** An entry with an integer key is refused exactly when it is not an
      array holding both `name` and `value`. */
  lemma NumericEntryRefused(i: int, item: WValue)
    ensures EntryParts(IntKey(i), item) == Err(InvalidArgument(NUMERIC_KEYS)) <==>
      !item.WArr? || FindKey(item.items, StrKey("name")).None? || FindKey(item.items, StrKey("value")).None?
  {
  }

  /** Format 2 (`['name' => n, 'value' => v]` under an integer key) writes
      what format 1 (`n => v`) writes, when `v` is not itself an array with
      a `value` key. */
  lemma ArrayFormatsAgree(nsMap: NamespaceMap, st: WState, i: int, n: string, v: WValue)
    requires PlainPrefixes(nsMap)
    requires !(v.WArr? && FindKey(v.items, StrKey("value")).Some?)
    ensures WriteEntryOf(nsMap, st, IntKey(i), WArr([Item(StrKey("name"), WStr(n)), Item(StrKey("value"), v)]))
         == WriteEntryOf(nsMap, st, StrKey(n), v)
  {
    var item := WArr([Item(StrKey("name"), WStr(n)), Item(StrKey("value"), v)]);
    assert FindKey(item.items, StrKey("name")) == Some(0);
    assert FindKey(item.items[1..], StrKey("value")) == Some(0);
    assert FindKey(item.items, StrKey("value")) == Some(1);
    assert FindKey(item.items[1..], StrKey("attributes")) == None;
    assert AttributesIn(item.items) == WArr([]);
    assert WriteAttributesOf(nsMap, st, WArr([])) == Ok(st);
  }

  /** `writeElement($name, $v)` writes what `write([$name => $v])` writes,
      unless `$v` is an array with a `value` key, which `write` would read
      as content and attributes. */
  lemma ElementIsEntry(nsMap: NamespaceMap, st: WState, name: string, v: WValue)
    requires PlainPrefixes(nsMap)
    requires !(v.WArr? && FindKey(v.items, StrKey("value")).Some?)
    ensures WriteElementOf(nsMap, st, name, v) == WriteEntryOf(nsMap, st, StrKey(name), v)
  {
    match StartElementOf(nsMap, st, name)
    case Err(_) =>
    case Ok(st1) =>
      assert WriteAttributesOf(nsMap, st1, WArr([])) == Ok(st1);
  }

  /** Null content writes an empty element; objects that do not serialize
      themselves are refused with their class name. */
  lemma NullAndObjects(nsMap: NamespaceMap, st: WState, name: string, c: string)
    requires PlainPrefixes(nsMap)
    ensures WriteValue(nsMap, st, WNull) == Ok(st)
    ensures WriteValue(nsMap, st, Obj(c)) == Err(InvalidArgument(NOT_SERIALIZABLE + c))
    ensures StartElementOf(nsMap, st, name).Ok? ==>
      WriteElementOf(nsMap, st, name, WNull) == Ok(Emit(StartElementOf(nsMap, st, name).value, End))
  {
  }
}
