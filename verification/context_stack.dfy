/** `ContextStackTrait`: the element map, the context URI and the namespace
    map that a Reader or Writer carries, and a stack of saved copies of that
    triple. PHP arrays are copied by value when they are pushed, which here
    is simply that `Frame` is a value. */
module ContextStack {
  import opened Wrappers
  import opened Php

  /** The triple (elementMap, contextUri, namespaceMap). `H` is whatever the
      element map holds (handlers for a Reader). */
  datatype Frame<H> = Frame(
    elementMap: map<string, H>,
    contextUri: Option<string>,
    namespaceMap: seq<Entry<Option<string>>>)

  /** The current triple and the saved ones, the most recent last. */
  datatype Context<H> = Context(current: Frame<H>, saved: seq<Frame<H>>) {

    /** `pushContext()`: a copy of the current triple goes on the stack; the
        current triple stays as it is. */
    function Push(): Context<H> {
      Context(current, saved + [current])
    }

    /** `popContext()`: the most recent copy becomes the current triple. The
        source does not check for an empty stack. */
    function Pop(): Context<H>
      requires |saved| > 0
    {
      Context(saved[|saved| - 1], saved[..|saved| - 1])
    }
  }

  /** A use of the context by a handler: save it, change it, restore it. */
  datatype Op<H> = PushOp | PopOp | Change(frame: Frame<H>)

  /** How an operation moves the stack height. */
  function Delta<H>(op: Op<H>): int {
    match op
    case PushOp => 1
    case PopOp => -1
    case Change(_) => 0
  }

  /** The operations applied in order, or None when one pops an empty stack. */
  function Run<H>(c: Context<H>, ops: seq<Op<H>>): Option<Context<H>>
    decreases |ops|
  {
    if ops == [] then Some(c)
    else
      match ops[0]
      case PushOp => Run(c.Push(), ops[1..])
      case Change(f) => Run(c.(current := f), ops[1..])
      case PopOp => if |c.saved| == 0 then None else Run(c.Pop(), ops[1..])
  }

  /** Net change of the stack height. */
  function Level<H>(ops: seq<Op<H>>): int {
    if ops == [] then 0 else Delta(ops[0]) + Level(ops[1..])
  }

  /** No prefix of `ops` pops more than `room` copies. */
  predicate NeverBelow<H>(ops: seq<Op<H>>, room: int) {
    ops == [] || (room + Delta(ops[0]) >= 0 && NeverBelow(ops[1..], room + Delta(ops[0])))
  }

  /** Operations that never pop below a given base of the stack keep that
      base untouched, and end with the stack raised by their net level. */
  lemma {:induction false} RunKeepsBase<H>(c: Context<H>, ops: seq<Op<H>>, base: seq<Frame<H>>)
    requires |base| <= |c.saved| && c.saved[..|base|] == base
    requires NeverBelow(ops, |c.saved| - |base|)
    ensures Run(c, ops).Some?
    ensures |base| <= |Run(c, ops).value.saved| == |c.saved| + Level(ops)
    ensures Run(c, ops).value.saved[..|base|] == base
    decreases |ops|
  {
    if ops != [] {
      match ops[0]
      case PushOp =>
        assert c.Push().saved[..|base|] == base;
        RunKeepsBase(c.Push(), ops[1..], base);
      case Change(f) =>
        RunKeepsBase(c.(current := f), ops[1..], base);
      case PopOp =>
        assert c.Pop().saved[..|base|] == base;
        RunKeepsBase(c.Pop(), ops[1..], base);
    }
  }

  /** LIFO restoration: push, then any balanced use of the context (nested
      pushes and pops, and changes to the three fields), then pop, gives
      back exactly the context before the push. Changes made while pushed do
      not reach the saved copy. */
  lemma ScopedUseRestores<H>(c: Context<H>, body: seq<Op<H>>)
    requires NeverBelow(body, 0) && Level(body) == 0
    ensures Run(c, [PushOp] + body + [PopOp]) == Some(c)
  {
    var pushed := c.Push();
    RunKeepsBase(pushed, body, pushed.saved);
    var after := Run(pushed, body).value;
    assert after.saved == c.saved + [c.current];
    RunAppend(pushed, body, [PopOp]);
    assert ([PushOp] + body + [PopOp])[1..] == body + [PopOp];
  }

  /** Running two lists of operations one after the other. */
  lemma {:induction false} RunAppend<H>(c: Context<H>, a: seq<Op<H>>, b: seq<Op<H>>)
    ensures Run(c, a + b) == if Run(c, a).None? then None else Run(Run(c, a).value, b)
    decreases |a|
  {
    if a != [] {
      assert (a + b)[1..] == a[1..] + b;
      match a[0]
      case PushOp => RunAppend(c.Push(), a[1..], b);
      case Change(f) => RunAppend(c.(current := f), a[1..], b);
      case PopOp => if |c.saved| > 0 { RunAppend(c.Pop(), a[1..], b); }
    } else {
      assert a + b == b;
    }
  }

  /** The mutable fields of the trait. */
  class ContextStack<H> {
    var elementMap: map<string, H>
    var contextUri: Option<string>
    var namespaceMap: seq<Entry<Option<string>>>
    var contextStack: seq<Frame<H>>

    function State(): Context<H>
      reads this
    {
      Context(Frame(elementMap, contextUri, namespaceMap), contextStack)
    }

    /** The property defaults: empty maps, no URI, an empty stack. */
    constructor ()
      ensures State() == Context(Frame(map[], None, []), [])
    {
      elementMap, contextUri, namespaceMap := map[], None, [];
      contextStack := [];
    }

    method PushContext()
      modifies this
      ensures State() == old(State()).Push()
    {
      contextStack := contextStack + [Frame(elementMap, contextUri, namespaceMap)];
    }

    method PopContext()
      requires |contextStack| > 0
      modifies this
      ensures State() == old(State()).Pop()
    {
      var top := contextStack[|contextStack| - 1];
      elementMap, contextUri, namespaceMap := top.elementMap, top.contextUri, top.namespaceMap;
      contextStack := contextStack[..|contextStack| - 1];
    }

    /** `$stack->elementMap[$name] = $value` */
    method SetElement(name: string, handler: H)
      modifies this
      ensures State() == old(State()).(current := old(State()).current.(elementMap := old(elementMap)[name := handler]))
    {
      elementMap := elementMap[name := handler];
    }
  }

  /** The push, edit, pop sequence of the trait's own test, run on the
      class: after the pop the three fields hold their values from before the
      push, and the edits made in between reached only the current copy. */
  method PushEditPop<H>(stack: ContextStack<H>, name: string, handler: H, uri: string, ns: string, prefix: string)
    modifies stack
    ensures stack.State() == old(stack.State())
  {
    stack.PushContext();
    stack.SetElement(name, handler);
    stack.contextUri := Some(uri);
    stack.namespaceMap := Put(stack.namespaceMap, ns, Some(prefix));
    assert stack.contextStack == old(stack.contextStack) + [old(stack.State()).current];
    stack.PopContext();
  }
}
