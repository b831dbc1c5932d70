/** What `Element\Struct::deserializeXml` builds from any document
    fragment: a fold over the children (`StructSlot`), and the properties
    of that fold — keys are Clark names, the last repeated name wins, text
    is kept only until a child element arrives, CDATA is ignored. */
module LegacyStruct {
  import opened Wrappers
  import opened Php
  import opened Clark
  import opened Cursor
  import opened LegacyReader

  // ---------------------------------------------------------------------
  // The fold

  /** The key a child element is stored under: its Clark name, or "" when
      it has no namespace (a null `getClark()` used as an array key). */
  function StructKey(t: Tree): string
    requires t.Elem?
  {
    if Truthy(t.ns) then Format(QName(t.ns, t.local)) else ""
  }

  /** What one child does to the slot of its parent: an element turns the
      slot into an array and stores its own value under its key (null when
      it has no children); text is appended while the slot is null or a string;
      anything else, CDATA included, changes nothing. */
  function StructStep(t: Tree, acc: SVal): SVal
    decreases Span(t), 1
  {
    match t
    case Elem(_, _, _, kids, _) =>
      if kids == [] then ChildInto(acc, StructKey(t))
      else SArr(Put(if acc.SArr? then acc.entries else [], StructKey(t), StructSlot(kids, SNull)))
    case Text(s) => TextInto(acc, s)
    case _ => acc
  }

  /** The slot of an element after all its children, starting from `acc`. */
  function StructSlot(kids: seq<Tree>, acc: SVal): SVal
    decreases ForestSpan(kids), 2
  {
    if kids == [] then acc else StructSlot(kids[1..], StructStep(kids[0], acc))
  }

  // ---------------------------------------------------------------------
  // Key paths

  /** Every key of the path exists, each one inside an array. */
  predicate ValidPath(v: SVal, path: seq<string>)
    decreases |path|
  {
    path == [] || (v.SArr? && Get(v.entries, path[0]).Some? && ValidPath(Get(v.entries, path[0]).value, path[1..]))
  }

  /** Reading back through a reference gives what was assigned through it. */
  lemma {:induction false} SlotOfSet(v: SVal, path: seq<string>, x: SVal)
    requires ValidPath(v, path)
    ensures SlotAt(SetSlot(v, path, x), path) == x
    decreases |path|
  {
    if path != [] {
      var c := Get(v.entries, path[0]).value;
      SlotOfSet(c, path[1..], x);
      PutGet(v.entries, path[0], SetSlot(c, path[1..], x), path[0]);
    }
  }

  /** A second assignment through the same reference overrides the first. */
  lemma {:induction false} SetTwice(v: SVal, path: seq<string>, x: SVal, y: SVal)
    requires ValidPath(v, path)
    ensures SetSlot(SetSlot(v, path, x), path, y) == SetSlot(v, path, y)
    decreases |path|
  {
    if path != [] {
      var k := path[0];
      var c := Get(v.entries, k).value;
      SetTwice(c, path[1..], x, y);
      PutGet(v.entries, k, SetSlot(c, path[1..], x), k);
      PutTwice(v.entries, k, SetSlot(c, path[1..], x), SetSlot(c, path[1..], y));
    }
  }

  /** Assigning a slot its own value changes nothing. */
  lemma {:induction false} SetSame(v: SVal, path: seq<string>)
    requires ValidPath(v, path)
    ensures SetSlot(v, path, SlotAt(v, path)) == v
    decreases |path|
  {
    if path != [] {
      var k := path[0];
      var c := Get(v.entries, k).value;
      SetSame(c, path[1..]);
      PutBack(v.entries, k);
    }
  }

  /** An assignment keeps the path valid. */
  lemma {:induction false} ValidAfterSet(v: SVal, path: seq<string>, x: SVal)
    requires ValidPath(v, path)
    ensures ValidPath(SetSlot(v, path, x), path)
    decreases |path|
  {
    if path != [] {
      var c := Get(v.entries, path[0]).value;
      ValidAfterSet(c, path[1..], x);
      PutGet(v.entries, path[0], SetSlot(c, path[1..], x), path[0]);
    }
  }

  /** Assigning one level further down is assigning the array of the
      current slot with that key replaced. */
  lemma {:induction false} SetExtended(v: SVal, path: seq<string>, k: string, x: SVal)
    requires ValidPath(v, path) && SlotAt(v, path).SArr?
    ensures SetSlot(v, path + [k], x) == SetSlot(v, path, SArr(Put(SlotAt(v, path).entries, k, x)))
    decreases |path|
  {
    if path != [] {
      var c := Get(v.entries, path[0]).value;
      assert (path + [k])[1..] == path[1..] + [k];
      SetExtended(c, path[1..], k, x);
    }
  }

  /** Reading one level further down. */
  lemma {:induction false} SlotExtended(v: SVal, path: seq<string>, k: string)
    requires ValidPath(v, path) && SlotAt(v, path).SArr?
    ensures SlotAt(v, path + [k]) == Get(SlotAt(v, path).entries, k).GetOr(SNull)
    ensures Get(SlotAt(v, path).entries, k).Some? ==> ValidPath(v, path + [k])
    decreases |path|
  {
    if path != [] {
      var c := Get(v.entries, path[0]).value;
      assert (path + [k])[1..] == path[1..] + [k];
      SlotExtended(c, path[1..], k);
    }
  }

  // ---------------------------------------------------------------------
  // The loop on a fragment

  /** The loop of `Element\Struct`, at position `p` with the array `root`
      and the references `path`, gives `r`. */
  predicate StructGives(nodes: seq<Node>, p: nat, root: SVal, path: seq<string>, r: Result<(SVal, nat)>) {
    p <= |nodes| && StructLoop(nodes, p, root, path) == r
  }

  /** The key the loop computes for the start tag of a fragment. */
  lemma KeyOfStart(t: Tree, d: nat)
    requires t.Elem?
    ensures LegacyClarkOf(First(t, d)).GetOr("") == StructKey(t)
  {
  }

  /** The loop over the nodes of one fragment does to the current slot what
      `StructStep` says, and goes on after the fragment. */
  lemma {:induction false} StructTree(nodes: seq<Node>, q: nat, t: Tree, d: nat, root: SVal, path: seq<string>,
                                      r: Result<(SVal, nat)>)
    requires TreeAt(nodes, q, t, d) && ValidPath(root, path)
    requires StructGives(nodes, q + Span(t), SetSlot(root, path, StructStep(t, SlotAt(root, path))), path, r)
    ensures StructGives(nodes, q, root, path, r)
    decreases Span(t), 1
  {
    TreeAtBound(nodes, q, t, d);
    if Open(t) {
      StructOpenTree(nodes, q, t, d, root, path, r);
    } else if t.Elem? {
      KeyOfStart(t, d);
    } else if !t.Text? {
      SetSame(root, path);
    }
  }

  /** The same for an element with an end tag of its own. */
  lemma {:induction false} StructOpenTree(nodes: seq<Node>, q: nat, t: Tree, d: nat, root: SVal, path: seq<string>,
                                          r: Result<(SVal, nat)>)
    requires Open(t)
    requires TreeAt(nodes, q, t, d) && ValidPath(root, path)
    requires StructGives(nodes, q + Span(t), SetSlot(root, path, StructStep(t, SlotAt(root, path))), path, r)
    ensures StructGives(nodes, q, root, path, r)
    decreases Span(t), 0
  {
    var key := StructKey(t);
    var slot := SlotAt(root, path);
    var open := ChildInto(slot, key);
    var root' := SetSlot(root, path, open);
    var path' := path + [key];
    var x := StructSlot(t.children, SNull);
    var e := q + 1 + ForestSpan(t.children);
    KeyOfStart(t, d);
    ValidAfterSet(root, path, open);
    SlotOfSet(root, path, open);
    PutGet(if slot.SArr? then slot.entries else [], key, SNull, key);
    SlotExtended(root', path, key);
    SetExtended(root', path, key, x);
    SetTwice(root, path, open, SArr(Put(open.entries, key, x)));
    PutTwice(if slot.SArr? then slot.entries else [], key, SNull, x);
    assert SetSlot(root', path', x) == SetSlot(root, path, StructStep(t, slot));
    assert path'[..|path'| - 1] == path;
    StructAtEnd(nodes, e, SetSlot(root', path', x), path', r);
    StructForest(nodes, q + 1, t.children, d + 1, root', path', r);
    StructAtStart(nodes, q, t, d, root, path, r);
  }

  /** The loop on the start tag of an element with an end tag: the slot
      gets the element's key and the path goes one level down. */
  lemma StructAtStart(nodes: seq<Node>, q: nat, t: Tree, d: nat, root: SVal, path: seq<string>, r: Result<(SVal, nat)>)
    requires Open(t) && TreeAt(nodes, q, t, d)
    requires StructGives(nodes, q + 1, SetSlot(root, path, ChildInto(SlotAt(root, path), StructKey(t))), path + [StructKey(t)], r)
    ensures StructGives(nodes, q, root, path, r)
  {
    KeyOfStart(t, d);
  }

  /** The loop on an end tag inside the array: the path goes one level up. */
  lemma StructAtEnd(nodes: seq<Node>, e: nat, root: SVal, path: seq<string>, r: Result<(SVal, nat)>)
    requires e < |nodes| && nodes[e].kind == EndElementNode && path != []
    requires StructGives(nodes, e + 1, root, path[..|path| - 1], r)
    ensures StructGives(nodes, e, root, path, r)
  {
  }

  /** The loop over the nodes of a sibling list folds `StructStep` over it. */
  lemma {:induction false} StructForest(nodes: seq<Node>, q: nat, f: seq<Tree>, d: nat, root: SVal, path: seq<string>,
                                        r: Result<(SVal, nat)>)
    requires ForestAt(nodes, q, f, d) && ValidPath(root, path)
    requires StructGives(nodes, q + ForestSpan(f), SetSlot(root, path, StructSlot(f, SlotAt(root, path))), path, r)
    ensures StructGives(nodes, q, root, path, r)
    decreases ForestSpan(f), 2
  {
    if f == [] {
      SetSame(root, path);
    } else {
      var t, rest := f[0], f[1..];
      assert TreeAt(nodes, q, t, d) && ForestAt(nodes, q + Span(t), rest, d);
      assert ForestSpan(f) == Span(t) + ForestSpan(rest);
      var slot := SlotAt(root, path);
      var step := StructStep(t, slot);
      assert StructSlot(f, slot) == StructSlot(rest, step);
      var root1 := SetSlot(root, path, step);
      ValidAfterSet(root, path, step);
      SlotOfSet(root, path, step);
      SetTwice(root, path, step, StructSlot(rest, step));
      StructForest(nodes, q + Span(t), rest, d, root1, path, r);
      StructTree(nodes, q, t, d, root, path, r);
    }
  }

  /** `Element\Struct::deserializeXml` on any element: the fold of its
      children into an array; the cursor stays on the element's own end tag
      (or moves past a self-closing element). */
  lemma StructOfTree(nodes: seq<Node>, p: nat, t: Tree, d: nat)
    requires t.Elem? && TreeAt(nodes, p, t, d)
    ensures StructOf(nodes, p)
         == Ok(LStep(StructSlot(t.children, SArr([])), if Open(t) then p + Span(t) - 1 else p + 1))
  {
    if Open(t) {
      var e := p + 1 + ForestSpan(t.children);
      var v := StructSlot(t.children, SArr([]));
      assert StructGives(nodes, e, v, [], Ok((v, e)));
      StructForest(nodes, p + 1, t.children, d + 1, SArr([]), [], Ok((v, e)));
    }
  }

  // ---------------------------------------------------------------------
  // Properties of the fold

  /** Starting from an array, the slot stays an array. */
  lemma {:induction false} SlotStaysArray(kids: seq<Tree>, acc: SVal)
    requires acc.SArr?
    ensures StructSlot(kids, acc).SArr?
    decreases |kids|
  {
    if kids != [] {
      SlotStaysArray(kids[1..], StructStep(kids[0], acc));
    }
  }

  /** Once a child element has arrived, the slot is an array, whatever
      text came before it. */
  lemma {:induction false} ElementMakesArray(kids: seq<Tree>, acc: SVal, i: nat)
    requires i < |kids| && kids[i].Elem?
    ensures StructSlot(kids, acc).SArr?
    decreases |kids|
  {
    if i == 0 {
      SlotStaysArray(kids[1..], StructStep(kids[0], acc));
    } else {
      ElementMakesArray(kids[1..], StructStep(kids[0], acc), i - 1);
    }
  }

  /** The text of the TEXT children, in order; CDATA is not included. */
  function TextOnly(kids: seq<Tree>): string {
    if kids == [] then "" else (if kids[0].Text? then kids[0].text else "") + TextOnly(kids[1..])
  }

  predicate HasText(kids: seq<Tree>) {
    exists i :: 0 <= i < |kids| && kids[i].Text?
  }

  /** Without child elements, a null slot becomes the concatenated TEXT
      values, or stays null when there are none; CDATA, comments and
      whitespace add nothing. */
  lemma {:induction false} TextWithoutElements(kids: seq<Tree>, acc: SVal)
    requires forall i :: 0 <= i < |kids| ==> !kids[i].Elem?
    requires !acc.SArr?
    ensures StructSlot(kids, acc)
         == if acc.SStr? then SStr(acc.s + TextOnly(kids))
            else if HasText(kids) then SStr(TextOnly(kids)) else SNull
    decreases |kids|
  {
    if kids != [] {
      var k := kids[0];
      var rest := kids[1..];
      TextWithoutElements(rest, StructStep(k, acc));
      if k.Text? {
        assert HasText(kids);
        if acc.SStr? {
          assert acc.s + k.text + TextOnly(rest) == acc.s + (k.text + TextOnly(rest));
        }
      } else {
        assert HasText(kids) <==> HasText(rest) by {
          if HasText(kids) {
            var i :| 0 <= i < |kids| && kids[i].Text?;
            assert rest[i - 1].Text?;
          }
          if HasText(rest) {
            var i :| 0 <= i < |rest| && rest[i].Text?;
            assert kids[i + 1].Text?;
          }
        }
        assert "" + TextOnly(rest) == TextOnly(rest);
      }
    }
  }

  /** The array holds each key once. */
  lemma {:induction false} StructUnique(kids: seq<Tree>, acc: SVal)
    requires acc.SArr? ==> UniqueKeys(acc.entries)
    ensures StructSlot(kids, acc).SArr? ==> UniqueKeys(StructSlot(kids, acc).entries)
    decreases |kids|
  {
    if kids != [] {
      var k := kids[0];
      if k.Elem? {
        var arr := if acc.SArr? then acc.entries else [];
        PutUnique(arr, StructKey(k), if k.children == [] then SNull else StructSlot(k.children, SNull));
      }
      StructUnique(kids[1..], StructStep(k, acc));
    }
  }

  /** A child element that is not followed by another one with the same
      key keeps the value it stored: a repeated name replaces the earlier
      entry. */
  lemma {:induction false} StructLastWins(kids: seq<Tree>, acc: SVal, i: nat)
    requires i < |kids| && kids[i].Elem?
    requires forall j :: i < j < |kids| && kids[j].Elem? ==> StructKey(kids[j]) != StructKey(kids[i])
    ensures StructSlot(kids, acc).SArr?
    ensures Get(StructSlot(kids, acc).entries, StructKey(kids[i])) == Some(StructChild(kids[i]))
    decreases |kids|
  {
    var k := kids[0];
    var acc' := StructStep(k, acc);
    if i == 0 {
      var arr := if acc.SArr? then acc.entries else [];
      PutGet(arr, StructKey(k), StructChild(k), StructKey(k));
      StructKeeps(kids[1..], acc', StructKey(k));
    } else {
      forall j | i - 1 < j < |kids[1..]| && kids[1..][j].Elem?
        ensures StructKey(kids[1..][j]) != StructKey(kids[1..][i - 1])
      {
        assert kids[1..][j] == kids[j + 1];
      }
      StructLastWins(kids[1..], acc', i - 1);
    }
  }

  /** The value a child element stores under its key. */
  function StructChild(c: Tree): SVal
    requires c.Elem?
  {
    if c.children == [] then SNull else StructSlot(c.children, SNull)
  }

  /** Children without the key leave its entry alone. */
  lemma {:induction false} StructKeeps(kids: seq<Tree>, acc: SVal, key: string)
    requires acc.SArr?
    requires forall j :: 0 <= j < |kids| && kids[j].Elem? ==> StructKey(kids[j]) != key
    ensures StructSlot(kids, acc).SArr?
    ensures Get(StructSlot(kids, acc).entries, key) == Get(acc.entries, key)
    decreases |kids|
  {
    if kids != [] {
      var k := kids[0];
      if k.Elem? {
        PutGet(acc.entries, StructKey(k), StructChild(k), key);
      }
      forall j | 0 <= j < |kids[1..]| && kids[1..][j].Elem?
        ensures StructKey(kids[1..][j]) != key
      {
        assert kids[1..][j] == kids[j + 1];
      }
      StructKeeps(kids[1..], StructStep(k, acc), key);
    }
  }
}
