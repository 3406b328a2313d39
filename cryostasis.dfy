/**
 * cryostasis: freeze rebinds one object's class to a frozen type in place;
 * deepfreeze walks everything reachable from an object and freezes each
 * object once, also on cyclic graphs.
 */
module Cryostasis {
  import opened Wrappers
  import opened Runtime
  import opened Detail
  import opened BuiltinHelpers
  import opened Reachability

  /** `t.__bases__[0] is Frozen`, freeze's test for a class it built itself. */
  predicate IsFrozen(t: Type): (b: bool)
    ensures b <==> t.FrozenOf? || (t.Class? && t.bases != [] && t.bases[0] == Frozen)
  {
    |Bases(t)| > 0 && Bases(t)[0] == Frozen
  }

  /**
   * The class an object of class t has after freeze, or the exception freeze raises:
   * instances of `object` fail on `__bases__[0]`; instances of Frozen, of classes that
   * derive from Frozen but whose first base is not Frozen itself, and of built-ins
   * other than list, dict, set, modules and IMMUTABLE_TYPES fail with TypeError
   * (type() refuses the base, or the class cannot be reassigned).
   */
  function FreezeType(t: Type, fa: bool, fi: bool): (r: Result<Type>)
    ensures r.Ok? ==> r.value == if t in ImmutableTypes || IsFrozen(t) then t else FrozenTypeFor(t, fa, fi)
    ensures r.Ok? ==> r.value in ImmutableTypes || IsFrozen(r.value)
    ensures r.Err? <==> t == Object || (t.Builtin? && t.kind.Other?) || (IsSubclass(t, Frozen) && !IsFrozen(t))
    ensures r.Err? ==> r.error == if t == Object then IndexError else TypeError
  {
    if t in ImmutableTypes then Ok(t)
    else if |Bases(t)| == 0 then Err(IndexError)
    else if Bases(t)[0] == Frozen then Ok(t)
    else if !AcceptableBase(t) then Err(TypeError)
    else if RoutedToHelper(t) then Ok(FrozenTypeFor(t, fa, fi))
    else if ClassAssignable(t) then Ok(FrozenTypeFor(t, fa, fi))
    else Err(TypeError)
  }

  /** freeze on one object: only its class changes, its contents stay as they are. */
  function FreezeNode(n: Node, fa: bool, fi: bool): (r: Result<Node>)
    ensures r.Ok? <==> FreezeType(n.cls, fa, fi).Ok?
    ensures r.Ok? ==> r.value == n.(cls := FreezeType(n.cls, fa, fi).value)
    ensures r.Err? ==> r.error == FreezeType(n.cls, fa, fi).error
  {
    match FreezeType(n.cls, fa, fi)
    case Ok(t) => Ok(n.(cls := t))
    case Err(e) => Err(e)
  }

  /** The object after a call of freeze: frozen, or unchanged when freeze raised. */
  function AfterFreeze(n: Node, fa: bool, fi: bool): Node {
    if FreezeNode(n, fa, fi).Ok? then FreezeNode(n, fa, fi).value else n
  }

  // ---- Properties of freeze on one object ----

  /** freeze leaves instances of IMMUTABLE_TYPES as they are, class and repr included. */
  lemma FreezeImmutableIsNoOp(n: Node, fa: bool, fi: bool, originalRepr: string)
    requires n.cls in ImmutableTypes
    ensures FreezeNode(n, fa, fi) == Ok(n)
    ensures Repr(AfterFreeze(n, fa, fi), originalRepr) == Repr(n, originalRepr)
  {
  }

  /**
   * Freezing a frozen object again, with any flags, changes nothing: no second
   * wrapper layer, and the flags of the first freeze persist.
   */
  lemma FreezeIsIdempotent(n: Node, fa: bool, fi: bool, fa': bool, fi': bool)
    requires FreezeNode(n, fa, fi).Ok?
    ensures var m := FreezeNode(n, fa, fi).value;
      && FreezeNode(m, fa', fi') == Ok(m)
      && AttributeFlag(AfterFreeze(m, fa', fi').cls) == AttributeFlag(m.cls)
      && ItemFlag(AfterFreeze(m, fa', fi').cls) == ItemFlag(m.cls)
  {
  }

  /**
   * A mutable, unfrozen object is rebound to the frozen type of its own class with
   * the requested flags; instance checks against its original ancestors still hold.
   */
  lemma FreezeRebindsToFrozenType(n: Node, fa: bool, fi: bool, u: Type)
    requires n.cls !in ImmutableTypes && !IsFrozen(n.cls) && FreezeNode(n, fa, fi).Ok?
    ensures var m := FreezeNode(n, fa, fi).value;
      && m.cls == FrozenTypeFor(n.cls, fa, fi)
      && IsFrozen(m.cls) && AttributeFlag(m.cls) == fa && ItemFlag(m.cls) == fi
      && (IsSubclass(n.cls, u) ==> IsSubclass(m.cls, u))
  {
    if IsSubclass(n.cls, u) {
      FrozenTypeKeepsAncestors(n.cls, fa, fi, u);
    }
  }

  /** After freeze rebinds an object, its repr is the old repr enclosed in `<Frozen(...)>`. */
  lemma FreezeWrapsRepr(n: Node, fa: bool, fi: bool, originalRepr: string)
    requires n.cls !in ImmutableTypes && !IsFrozen(n.cls) && FreezeNode(n, fa, fi).Ok?
    ensures Repr(FreezeNode(n, fa, fi).value, originalRepr) == FrozenRepr(Repr(n, originalRepr))
  {
    FrozenTypeMethods(n.cls, fa, fi, ReprMethod);
  }

  // ---- What deepfreeze follows from an object ----

  /** The values of vars(obj). */
  function AttributeRefs(n: Node): set<Id> {
    if n.attrs.Some? then n.attrs.value.Values else {}
  }

  /** What iterating the object yields; for dicts, the keys followed by the values. */
  function IteratedItems(n: Node): (s: seq<Id>)
    ensures n.items.None? ==> s == []
    ensures n.items.Some? ==> |n.items.value| <= |s| && s[..|n.items.value|] == n.items.value
    ensures n.items.Some? ==> s[|n.items.value|..] == if IsSubclass(n.cls, Builtin(Dict)) then n.values else []
    ensures forall x :: x in s <==>
      n.items.Some? && (x in n.items.value || (IsSubclass(n.cls, Builtin(Dict)) && x in n.values))
  {
    if n.items.None? then []
    else if IsSubclass(n.cls, Builtin(Dict)) then n.items.value + n.values
    else n.items.value
  }

  /** The items deepfreeze recurses into: those iter(obj) yields, none for a str. */
  function WalkedItems(n: Node): seq<Id> {
    if IsSubclass(n.cls, Builtin(Str)) then [] else IteratedItems(n)
  }

  /** The objects deepfreeze recurses into: attribute values, then items unless it is a str. */
  function Children(n: Node): (c: set<Id>)
    ensures IsSubclass(n.cls, Builtin(Str)) ==> c == AttributeRefs(n)
    ensures c <= Refs(n)
  {
    AttributeRefs(n) + (set x | x in WalkedItems(n))
  }

  /** The graph deepfreeze walks. */
  ghost function ChildGraph(nodes: map<Id, Node>): map<Id, set<Id>> {
    map x | x in nodes :: Children(nodes[x])
  }

  /** Freezing changes neither what an object refers to nor what deepfreeze follows from it. */
  lemma FreezeKeepsReferences(n: Node, fa: bool, fi: bool)
    ensures Refs(AfterFreeze(n, fa, fi)) == Refs(n)
    ensures AfterFreeze(n, fa, fi).attrs == n.attrs && WalkedItems(AfterFreeze(n, fa, fi)) == WalkedItems(n)
    ensures Children(AfterFreeze(n, fa, fi)) == Children(n)
  {
    var m := AfterFreeze(n, fa, fi);
    if m != n {
      assert m.cls == FrozenTypeFor(n.cls, fa, fi);
      assert IsSubclass(m.cls, Builtin(Str)) == IsSubclass(n.cls, Builtin(Str));
      assert IsSubclass(m.cls, Builtin(Dict)) == IsSubclass(n.cls, Builtin(Dict));
      assert IteratedItems(m) == IteratedItems(n);
    }
  }

  /** Object x, if there is one, refers only to objects of the heap. */
  ghost predicate RefsInside(nodes: map<Id, Node>, x: Id) {
    x in nodes ==> Refs(nodes[x]) <= nodes.Keys
  }

  /** Every object refers only to objects of the heap. */
  ghost predicate ClosedHeap(nodes: map<Id, Node>) {
    forall x {:trigger RefsInside(nodes, x)} :: RefsInside(nodes, x)
  }

  /** Replacing an object by one with the same references keeps the heap closed. */
  lemma ReplaceKeepsClosed(nodes: map<Id, Node>, obj: Id, m: Node)
    requires ClosedHeap(nodes) && obj in nodes && Refs(m) == Refs(nodes[obj])
    ensures ClosedHeap(nodes[obj := m])
  {
    forall x | x in nodes
      ensures RefsInside(nodes[obj := m], x)
    {
      assert RefsInside(nodes, x);
    }
  }

  /** In g, the successors of x are the objects deepfreeze follows from x. */
  ghost predicate EdgesAt(g: map<Id, set<Id>>, nodes: map<Id, Node>, x: Id) {
    x in g && x in nodes && g[x] == Children(nodes[x])
  }

  /** g is the graph deepfreeze walks on nodes, and it never leaves the heap. */
  ghost predicate GraphOf(g: map<Id, set<Id>>, nodes: map<Id, Node>) {
    && g.Keys == nodes.Keys
    && (forall x {:trigger EdgesAt(g, nodes, x)} | x in nodes :: EdgesAt(g, nodes, x))
    && (forall x, y | x in g && y in g[x] :: y in g)
  }

  lemma ChildGraphOfClosedHeap(nodes: map<Id, Node>)
    requires ClosedHeap(nodes)
    ensures GraphOf(ChildGraph(nodes), nodes)
  {
    var g := ChildGraph(nodes);
    forall x | x in nodes
      ensures EdgesAt(g, nodes, x)
    {
    }
    forall x, y | x in g && y in g[x]
      ensures y in g
    {
      assert RefsInside(nodes, x);
    }
  }

  /** after is before with the objects of s frozen (or left as they were where freeze raised). */
  ghost predicate FrozeExactly(before: map<Id, Node>, after: map<Id, Node>, s: set<Id>, fa: bool, fi: bool) {
    && after.Keys == before.Keys
    && forall x | x in after :: after[x] == if x in s then AfterFreeze(before[x], fa, fi) else before[x]
  }

  /** Freezing keeps the graph deepfreeze walks and keeps the heap closed. */
  lemma {:induction false} FreezingKeepsGraph(before: map<Id, Node>, after: map<Id, Node>, s: set<Id>, fa: bool, fi: bool)
    requires FrozeExactly(before, after, s, fa, fi)
    ensures ChildGraph(after) == ChildGraph(before)
    ensures ClosedHeap(before) ==> ClosedHeap(after)
    ensures forall g :: GraphOf(g, before) ==> GraphOf(g, after)
  {
    forall x | x in after
      ensures Children(after[x]) == Children(before[x]) && Refs(after[x]) == Refs(before[x])
    {
      FreezeKeepsReferences(before[x], fa, fi);
    }
    if ClosedHeap(before) {
      forall x
        ensures RefsInside(after, x)
      {
        assert RefsInside(before, x);
      }
    }
    forall g | GraphOf(g, before)
      ensures GraphOf(g, after)
    {
      forall x | x in after
        ensures EdgesAt(g, after, x)
      {
        assert EdgesAt(g, before, x);
      }
    }
  }

  /** Freezing the objects of s1, then those of s2 (disjoint from s1), froze s1 + s2. */
  lemma {:induction false} FrozeInSequence(n0: map<Id, Node>, n1: map<Id, Node>, n2: map<Id, Node>,
                                           s1: set<Id>, s2: set<Id>, fa: bool, fi: bool)
    requires FrozeExactly(n0, n1, s1, fa, fi) && FrozeExactly(n1, n2, s2, fa, fi) && s1 !! s2
    ensures FrozeExactly(n0, n2, s1 + s2, fa, fi)
  {
    forall x | x in n2
      ensures n2[x] == if x in s1 + s2 then AfterFreeze(n0[x], fa, fi) else n0[x]
    {
    }
  }

  /** Every object of seen outside stack has all its successors in seen. */
  ghost predicate ClosedExcept(g: map<Id, set<Id>>, seen: set<Id>, stack: set<Id>) {
    && (forall x | x in seen && x !in stack :: x in g)
    && (forall x, y | x in seen && x !in stack && x in g && y in g[x] :: y in seen)
  }

  /** Once every successor of obj is seen, obj may leave the stack. */
  lemma ClosedExceptPop(g: map<Id, set<Id>>, seen: set<Id>, stack: set<Id>, obj: Id)
    requires ClosedExcept(g, seen, stack + {obj}) && obj in g && g[obj] <= seen
    ensures ClosedExcept(g, seen, stack)
  {
  }

  /** Everything in s is reachable from a. */
  ghost predicate AllReachable(g: map<Id, set<Id>>, a: Id, s: set<Id>) {
    forall x | x in s :: Reachable(g, a, x)
  }

  /** order lists the objects of s, each exactly once. */
  ghost predicate Enumerates(order: seq<Id>, s: set<Id>) {
    && (forall i, j | 0 <= i < j < |order| :: order[i] != order[j])
    && (forall x :: x in order <==> x in s)
  }

  lemma {:induction false} EnumeratesUnion(a: seq<Id>, s: set<Id>, b: seq<Id>, t: set<Id>)
    requires Enumerates(a, s) && Enumerates(b, t) && s !! t
    ensures Enumerates(a + b, s + t)
  {
    forall i, j | 0 <= i < j < |a + b|
      ensures (a + b)[i] != (a + b)[j]
    {
      if j >= |a| && i < |a| {
        assert (a + b)[i] in a && (a + b)[j] in b;
      } else if i >= |a| {
        assert (a + b)[i] == b[i - |a|] && (a + b)[j] == b[j - |a|];
      }
    }
  }

  /** freeze succeeds on the i-th object of order. */
  ghost predicate FreezesAt(nodes: map<Id, Node>, order: seq<Id>, i: int, fa: bool, fi: bool)
    requires 0 <= i < |order|
  {
    order[i] in nodes && FreezeNode(nodes[order[i]], fa, fi).Ok?
  }

  /** The exception a call raised, if any. */
  function ErrorOf<T>(r: Result<T>): Option<PyError> {
    if r.Err? then Some(r.error) else None
  }

  /**
   * The outcome of freezing the objects of order in turn: every call succeeds
   * (err is None), or the last one raises err and all before it succeeded.
   */
  ghost predicate Outcome(err: Option<PyError>, nodes: map<Id, Node>, order: seq<Id>, fa: bool, fi: bool) {
    if err.None? then
      forall i | 0 <= i < |order| :: FreezesAt(nodes, order, i, fa, fi)
    else
      && |order| > 0
      && (forall i | 0 <= i < |order| - 1 :: FreezesAt(nodes, order, i, fa, fi))
      && order[|order| - 1] in nodes && FreezeNode(nodes[order[|order| - 1]], fa, fi) == Err(err.value)
  }

  /**
   * A stretch of a traversal that started at a: it took n0 to n1 and the seen set
   * from seen to s, and froze, in the order given, exactly the newly seen objects,
   * all of them reachable from a in g.
   */
  ghost predicate Stretch(g: map<Id, set<Id>>, a: Id, n0: map<Id, Node>, n1: map<Id, Node>,
                          seen: set<Id>, s: set<Id>, order: seq<Id>, fa: bool, fi: bool) {
    && seen <= s <= n1.Keys
    && FrozeExactly(n0, n1, s - seen, fa, fi)
    && AllReachable(g, a, s - seen)
    && Enumerates(order, s - seen)
  }

  /** A stretch in which nothing happened. */
  lemma StretchEmpty(g: map<Id, set<Id>>, a: Id, n: map<Id, Node>, seen: set<Id>, fa: bool, fi: bool)
    requires seen <= n.Keys
    ensures Stretch(g, a, n, n, seen, seen, [], fa, fi) && Outcome(None, n, [], fa, fi)
  {
  }

  /** Marking obj seen and freezing it starts a stretch at obj. */
  lemma StretchStart(g: map<Id, set<Id>>, obj: Id, n0: map<Id, Node>, n1: map<Id, Node>, seen: set<Id>, fa: bool, fi: bool)
    requires GraphOf(g, n0) && obj in n0 && obj !in seen && seen <= n0.Keys
    requires n1 == n0[obj := AfterFreeze(n0[obj], fa, fi)]
    ensures Stretch(g, obj, n0, n1, seen, seen + {obj}, [obj], fa, fi) && GraphOf(g, n1)
  {
    assert (seen + {obj}) - seen == {obj};
    assert FrozeExactly(n0, n1, {obj}, fa, fi);
    FreezingKeepsGraph(n0, n1, {obj}, fa, fi);
    ReachableFromItself(g, obj);
  }

  /** The outcome of one call of freeze. */
  lemma OutcomeOfOne(n0: map<Id, Node>, obj: Id, fa: bool, fi: bool)
    requires obj in n0
    ensures Outcome(ErrorOf(FreezeNode(n0[obj], fa, fi)), n0, [obj], fa, fi)
  {
    if FreezeNode(n0[obj], fa, fi).Ok? {
      assert FreezesAt(n0, [obj], 0, fa, fi);
    }
  }

  /** What is reachable from a successor of a is reachable from a. */
  lemma {:induction false} AllReachableExtend(g: map<Id, set<Id>>, a: Id, c: Id, seen: set<Id>, s1: set<Id>, s2: set<Id>)
    requires seen <= s1 <= s2 && AllReachable(g, a, s1 - seen) && AllReachable(g, c, s2 - s1)
    requires c == a || (a in g && c in g[a])
    ensures AllReachable(g, a, s2 - seen)
  {
    forall x | x in s2 - seen
      ensures Reachable(g, a, x)
    {
      if x in s2 - s1 && c != a {
        ReachableViaSuccessor(g, a, c, x);
      }
    }
  }

  /** After a successful stretch, the outcome of the next one decides, as the objects it froze were untouched before. */
  lemma {:induction false} OutcomeExtend(n0: map<Id, Node>, n1: map<Id, Node>, seen: set<Id>, s1: set<Id>, s2: set<Id>,
                                         o1: seq<Id>, o2: seq<Id>, err: Option<PyError>, fa: bool, fi: bool)
    requires seen <= s1 <= s2 && FrozeExactly(n0, n1, s1 - seen, fa, fi) && Enumerates(o2, s2 - s1)
    requires Outcome(None, n0, o1, fa, fi) && Outcome(err, n1, o2, fa, fi)
    ensures Outcome(err, n0, o1 + o2, fa, fi)
  {
    var o := o1 + o2;
    var m := if err.None? then |o2| else |o2| - 1;
    forall i | 0 <= i < |o2|
      ensures o2[i] in n1 ==> o2[i] in n0 && n1[o2[i]] == n0[o2[i]]
    {
      assert o2[i] in s2 - s1;
    }
    forall i | 0 <= i < |o1| + m
      ensures FreezesAt(n0, o, i, fa, fi)
    {
      if i < |o1| {
        assert o[i] == o1[i] && FreezesAt(n0, o1, i, fa, fi);
      } else {
        assert o[i] == o2[i - |o1|] && FreezesAt(n1, o2, i - |o1|, fa, fi);
      }
    }
    if err.Some? {
      assert o[|o| - 1] == o2[|o2| - 1];
    }
  }

  /**
   * A successful stretch from a, followed by a stretch from a itself or from a
   * successor of a, is one stretch from a; the second one's outcome decides.
   */
  lemma {:induction false} StretchExtend(g: map<Id, set<Id>>, a: Id, c: Id, n0: map<Id, Node>, n1: map<Id, Node>,
                                         n2: map<Id, Node>, seen: set<Id>, s1: set<Id>, s2: set<Id>,
                                         o1: seq<Id>, o2: seq<Id>, err: Option<PyError>, fa: bool, fi: bool)
    requires Stretch(g, a, n0, n1, seen, s1, o1, fa, fi) && Stretch(g, c, n1, n2, s1, s2, o2, fa, fi)
    requires c == a || (a in g && c in g[a])
    requires Outcome(None, n0, o1, fa, fi) && Outcome(err, n1, o2, fa, fi)
    ensures Stretch(g, a, n0, n2, seen, s2, o1 + o2, fa, fi)
    ensures Outcome(err, n0, o1 + o2, fa, fi)
  {
    assert (s1 - seen) + (s2 - s1) == s2 - seen;
    FrozeInSequence(n0, n1, n2, s1 - seen, s2 - s1, fa, fi);
    EnumeratesUnion(o1, s1 - seen, o2, s2 - s1);
    AllReachableExtend(g, a, c, seen, s1, s2);
    OutcomeExtend(n0, n1, seen, s1, s2, o1, o2, err, fa, fi);
  }

  /** An object entering both seen and the stack keeps the rest closed. */
  lemma ClosedExceptPush(g: map<Id, set<Id>>, seen: set<Id>, stack: set<Id>, obj: Id)
    requires ClosedExcept(g, seen, stack)
    ensures ClosedExcept(g, seen + {obj}, stack + {obj})
  {
  }

  // ---- The order of a traversal ----

  /** The values of d, listed in the order keys lists its names, each name once. */
  ghost predicate InKeyOrder(d: map<string, Id>, keys: seq<string>, s: seq<Id>) {
    && |keys| == |s| == |d|
    && (forall i, j | 0 <= i < j < |keys| :: keys[i] != keys[j])
    && (forall k :: k in keys <==> k in d)
    && (forall i | 0 <= i < |s| :: keys[i] in d && s[i] == d[keys[i]])
  }

  function Elements(s: seq<Id>): set<Id> {
    set x | x in s
  }

  /** The attributes of n listed in the order keys gives, or none when vars(obj) raises. */
  ghost predicate AttributeOrder(n: Node, keys: seq<string>, attrs: seq<Id>) {
    if n.attrs.Some? then InKeyOrder(n.attrs.value, keys, attrs) else attrs == []
  }

  /**
   * How one call of _deepfreeze on obj went: Skipped when obj was seen already;
   * otherwise Visited, with the names of vars(obj) in the order its loop took them,
   * their values in that order, and the traversals of the recursive calls made by
   * the loop over the attribute values and by the loop over the items.
   */
  datatype Traversal =
    | Skipped(obj: Id)
    | Visited(obj: Id, keys: seq<string>, attrs: seq<Id>, attrTurns: seq<Traversal>, itemTurns: seq<Traversal>)

  /** The objects a call froze, in order: obj first, then those of its recursive calls. */
  function Order(t: Traversal): seq<Id>
    decreases t, 1
  {
    match t
    case Skipped(_) => []
    case Visited(obj, _, _, attrTurns, itemTurns) => [obj] + Orders(attrTurns) + Orders(itemTurns)
  }

  /** The objects a sequence of calls froze, one call after the other. */
  function Orders(ts: seq<Traversal>): seq<Id>
    decreases ts, 0
  {
    if ts == [] then [] else Orders(ts[..|ts| - 1]) + Order(ts[|ts| - 1])
  }

  /**
   * t is how _deepfreeze went on an object of shape (the heap the traversal started
   * from) while the objects of seen were seen; raised says whether it raised. An
   * object seen already is skipped; otherwise it is frozen, and when freeze raises
   * nothing else happens; when freeze succeeds, the loops over its attribute values
   * and its items follow.
   */
  ghost predicate DepthFirst(shape: map<Id, Node>, fa: bool, fi: bool, seen: set<Id>, t: Traversal, raised: bool)
    decreases t, 2
  {
    match t
    case Skipped(obj) => obj in seen && !raised
    case Visited(obj, keys, attrs, attrTurns, itemTurns) =>
      && obj !in seen && obj in shape
      && if FreezeNode(shape[obj], fa, fi).Err? then raised && keys == [] && attrs == [] && attrTurns == [] && itemTurns == []
         else ChildTurns(shape, fa, fi, seen, t, raised)
  }

  /**
   * After freeze(obj) succeeded: the attribute values are taken in the order of the
   * attribute names, and the loop over them runs first; only when it has run to the
   * end without an exception does the loop over the items (none for a str) follow.
   */
  ghost predicate ChildTurns(shape: map<Id, Node>, fa: bool, fi: bool, seen: set<Id>, t: Traversal, raised: bool)
    requires t.Visited?
    decreases t, 1
  {
    && t.obj in shape
    && AttributeOrder(shape[t.obj], t.keys, t.attrs)
    && Turns(shape, fa, fi, t.attrs, seen + {t.obj}, t.attrTurns, raised && t.itemTurns == [])
    && ((raised && t.itemTurns == []) ||
        Turns(shape, fa, fi, WalkedItems(shape[t.obj]), seen + {t.obj} + Elements(Orders(t.attrTurns)), t.itemTurns, raised))
  }

  /**
   * The turns of a `for` loop of _deepfreeze over children, started while the
   * objects of seen were seen: one recursive call per child, in order, until one
   * raises (then it is the last turn) or the loop runs to the end.
   */
  ghost predicate Turns(shape: map<Id, Node>, fa: bool, fi: bool, children: seq<Id>, seen: set<Id>,
                        parts: seq<Traversal>, raised: bool)
    decreases parts, 2
  {
    && TurnsSoFar(shape, fa, fi, children, seen, parts, raised)
    && if raised then parts != [] else |parts| == |children|
  }

  /** The first turns of that loop, of which only the last may have raised. */
  ghost predicate TurnsSoFar(shape: map<Id, Node>, fa: bool, fi: bool, children: seq<Id>, seen: set<Id>,
                             parts: seq<Traversal>, raised: bool)
    decreases parts, 1
  {
    && |parts| <= |children|
    && forall i {:trigger TurnAt(shape, fa, fi, children, seen, parts, raised, i)} | 0 <= i < |parts| ::
         TurnAt(shape, fa, fi, children, seen, parts, raised, i)
  }

  /** Turn i is the call on child i, made after the turns before it froze their objects. */
  ghost predicate TurnAt(shape: map<Id, Node>, fa: bool, fi: bool, children: seq<Id>, seen: set<Id>,
                         parts: seq<Traversal>, raised: bool, i: nat)
    requires i < |parts| <= |children|
    decreases parts, 0
  {
    && parts[i].obj == children[i]
    && DepthFirst(shape, fa, fi, seen + Elements(Orders(parts[..i])), parts[i], raised && i == |parts| - 1)
  }

  /** Object x is as the traversal found it in shape, or frozen once it was seen. */
  ghost predicate KeptOrFrozen(shape: map<Id, Node>, nodes: map<Id, Node>, seen: set<Id>, fa: bool, fi: bool, x: Id) {
    x in shape && x in nodes ==> nodes[x] == if x in seen then AfterFreeze(shape[x], fa, fi) else shape[x]
  }

  /** nodes is shape, the heap a traversal started from, with the objects it has seen frozen. */
  ghost predicate FrozenSoFar(shape: map<Id, Node>, nodes: map<Id, Node>, seen: set<Id>, fa: bool, fi: bool) {
    && nodes.Keys == shape.Keys
    && forall x {:trigger KeptOrFrozen(shape, nodes, seen, fa, fi, x)} :: KeptOrFrozen(shape, nodes, seen, fa, fi, x)
  }

  /** At the start, nothing is seen and nothing frozen. */
  lemma FrozenSoFarStart(shape: map<Id, Node>, fa: bool, fi: bool)
    ensures FrozenSoFar(shape, shape, {}, fa, fi)
  {
  }

  /** Marking obj seen and freezing it. */
  lemma FrozeOneMore(shape: map<Id, Node>, n0: map<Id, Node>, n1: map<Id, Node>, seen: set<Id>, obj: Id, fa: bool, fi: bool)
    requires FrozenSoFar(shape, n0, seen, fa, fi) && obj in n0 && obj !in seen
    requires n1 == n0[obj := AfterFreeze(n0[obj], fa, fi)]
    ensures FrozenSoFar(shape, n1, seen + {obj}, fa, fi)
  {
    assert KeptOrFrozen(shape, n0, seen, fa, fi, obj);
    forall x | x in shape
      ensures KeptOrFrozen(shape, n1, seen + {obj}, fa, fi, x)
    {
      assert KeptOrFrozen(shape, n0, seen, fa, fi, x);
    }
  }

  /** A call on an object seen already. */
  lemma DepthFirstSkipped(shape: map<Id, Node>, fa: bool, fi: bool, seen: set<Id>, obj: Id)
    requires obj in seen
    ensures DepthFirst(shape, fa, fi, seen, Skipped(obj), false) && Order(Skipped(obj)) == []
  {
  }

  /** A call whose freeze(obj) raised froze only obj. */
  lemma DepthFirstRaisedAtObject(shape: map<Id, Node>, fa: bool, fi: bool, seen: set<Id>, obj: Id)
    requires obj !in seen && obj in shape && FreezeNode(shape[obj], fa, fi).Err?
    ensures DepthFirst(shape, fa, fi, seen, Visited(obj, [], [], [], []), true)
    ensures Order(Visited(obj, [], [], [], [])) == [obj]
  {
  }

  /** A call that went on after freeze(obj) and froze o in its two loops. */
  lemma DepthFirstAfterObject(shape: map<Id, Node>, fa: bool, fi: bool, seen: set<Id>, t: Traversal, o: seq<Id>, raised: bool)
    requires t.Visited? && t.obj !in seen && t.obj in shape && FreezeNode(shape[t.obj], fa, fi).Ok?
    requires o == Orders(t.attrTurns) + Orders(t.itemTurns) && ChildTurns(shape, fa, fi, seen, t, raised)
    ensures DepthFirst(shape, fa, fi, seen, t, raised) && Order(t) == [t.obj] + o
  {
  }

  /** The loops stopped in the one over the attribute values, or ended with no item to walk. */
  lemma ChildTurnsAfterAttributes(shape: map<Id, Node>, fa: bool, fi: bool, seen: set<Id>, obj: Id, keys: seq<string>,
                                  attrs: seq<Id>, pa: seq<Traversal>, raised: bool)
    requires obj in shape && AttributeOrder(shape[obj], keys, attrs)
    requires Turns(shape, fa, fi, attrs, seen + {obj}, pa, raised)
    requires !raised ==> WalkedItems(shape[obj]) == []
    ensures ChildTurns(shape, fa, fi, seen, Visited(obj, keys, attrs, pa, []), raised)
    ensures Orders(pa) == Orders(pa) + Orders([])
  {
    if !raised {
      TurnsStart(shape, fa, fi, WalkedItems(shape[obj]), seen + {obj} + Elements(Orders(pa)));
    }
  }

  /** Both loops ran, and the one over the items decided the outcome. */
  lemma ChildTurnsAfterItems(shape: map<Id, Node>, fa: bool, fi: bool, seen: set<Id>, obj: Id, keys: seq<string>,
                             attrs: seq<Id>, pa: seq<Traversal>, pi: seq<Traversal>, raised: bool)
    requires obj in shape && AttributeOrder(shape[obj], keys, attrs)
    requires Turns(shape, fa, fi, attrs, seen + {obj}, pa, false)
    requires Turns(shape, fa, fi, WalkedItems(shape[obj]), seen + {obj} + Elements(Orders(pa)), pi, raised)
    ensures ChildTurns(shape, fa, fi, seen, Visited(obj, keys, attrs, pa, pi), raised)
  {
  }

  /** No turn yet. */
  lemma TurnsStart(shape: map<Id, Node>, fa: bool, fi: bool, children: seq<Id>, seen: set<Id>)
    ensures TurnsSoFar(shape, fa, fi, children, seen, [], false) && Orders([]) == []
    ensures children == [] ==> Turns(shape, fa, fi, children, seen, [], false)
  {
  }

  /** One more turn of the loop, after turns none of which raised. */
  lemma TurnsExtend(shape: map<Id, Node>, fa: bool, fi: bool, children: seq<Id>, seen: set<Id>,
                    parts: seq<Traversal>, t: Traversal, raised: bool)
    requires TurnsSoFar(shape, fa, fi, children, seen, parts, false) && |parts| < |children|
    requires t.obj == children[|parts|] && DepthFirst(shape, fa, fi, seen + Elements(Orders(parts)), t, raised)
    ensures TurnsSoFar(shape, fa, fi, children, seen, parts + [t], raised)
    ensures Orders(parts + [t]) == Orders(parts) + Order(t)
  {
    var p := parts + [t];
    assert p[..|parts|] == parts;
    forall i | 0 <= i < |p|
      ensures TurnAt(shape, fa, fi, children, seen, p, raised, i)
    {
      if i < |parts| {
        assert p[..i] == parts[..i];
        assert TurnAt(shape, fa, fi, children, seen, parts, false, i);
      }
    }
  }

  /** A stretch saw exactly the objects seen before it and the ones it froze. */
  lemma StretchSeen(g: map<Id, set<Id>>, a: Id, n0: map<Id, Node>, n1: map<Id, Node>,
                    seen: set<Id>, s: set<Id>, order: seq<Id>, fa: bool, fi: bool)
    requires Stretch(g, a, n0, n1, seen, s, order, fa, fi)
    ensures s == seen + Elements(order)
  {
  }

  /** The first call of a sequence of calls froze its objects before any other. */
  lemma {:induction false} OrdersBeginWithFirst(ts: seq<Traversal>)
    requires ts != []
    ensures Order(ts[0]) <= Orders(ts)
    decreases |ts|
  {
    if |ts| > 1 {
      var front := ts[..|ts| - 1];
      assert front[0] == ts[0];
      OrdersBeginWithFirst(front);
    }
  }

  /**
   * When freeze(obj) succeeded and obj has an attribute, the first turn is the call
   * on the first attribute value, and what it froze comes right after obj.
   */
  lemma FirstAttributeTurn(shape: map<Id, Node>, fa: bool, fi: bool, seen: set<Id>, t: Traversal, raised: bool)
    requires t.Visited? && ChildTurns(shape, fa, fi, seen, t, raised) && t.attrs != []
    ensures t.attrTurns != [] && t.attrTurns[0].obj == t.attrs[0]
    ensures DepthFirst(shape, fa, fi, seen + {t.obj}, t.attrTurns[0], raised && t.itemTurns == [] && |t.attrTurns| == 1)
    ensures [t.obj] + Order(t.attrTurns[0]) <= Order(t)
  {
    var p := raised && t.itemTurns == [];
    assert Turns(shape, fa, fi, t.attrs, seen + {t.obj}, t.attrTurns, p);
    assert TurnsSoFar(shape, fa, fi, t.attrs, seen + {t.obj}, t.attrTurns, p);
    assert TurnAt(shape, fa, fi, t.attrs, seen + {t.obj}, t.attrTurns, p, 0);
    assert t.attrTurns[..0] == [];
    assert seen + {t.obj} + Elements(Orders(t.attrTurns[..0])) == seen + {t.obj};
    OrdersBeginWithFirst(t.attrTurns);
    assert Order(t) == [t.obj] + Orders(t.attrTurns) + Orders(t.itemTurns);
  }

  /** When obj has an attribute, the loop over vars(obj) starts with one of its values. */
  lemma FirstAttributeValue(shape: map<Id, Node>, fa: bool, fi: bool, seen: set<Id>, t: Traversal, raised: bool, a: Id)
    requires t.Visited? && ChildTurns(shape, fa, fi, seen, t, raised)
    requires shape[t.obj].attrs.Some? && a in shape[t.obj].attrs.value.Values
    ensures t.attrs != [] && t.attrs[0] in shape[t.obj].attrs.value.Values
  {
  }

  /** The call on the only attribute value of obj, when that is not seen yet, is a visit. */
  lemma OnlyAttributeTurn(shape: map<Id, Node>, fa: bool, fi: bool, seen: set<Id>, t: Traversal, raised: bool, a: Id)
    requires t.Visited? && ChildTurns(shape, fa, fi, seen, t, raised)
    requires shape[t.obj].attrs.Some? && shape[t.obj].attrs.value.Values == {a} && a != t.obj && a !in seen
    ensures t.attrs != [] && t.attrs[0] == a && t.attrTurns != [] && t.attrTurns[0].Visited?
  {
    FirstAttributeValue(shape, fa, fi, seen, t, raised, a);
    FirstAttributeTurn(shape, fa, fi, seen, t, raised);
  }

  /** Only the last object of a stretch may raise, and then the whole stretch raises its exception. */
  lemma RaisesAt(nodes: map<Id, Node>, order: seq<Id>, i: nat, err: Option<PyError>, e: PyError, fa: bool, fi: bool)
    requires Outcome(err, nodes, order, fa, fi) && i < |order| && order[i] in nodes
    requires FreezeNode(nodes[order[i]], fa, fi) == Err(e)
    ensures err == Some(e) && |order| == i + 1
  {
    assert !FreezesAt(nodes, order, i, fa, fi);
  }

  /**
   * Attribute values are walked before items: when freeze(obj) succeeds and a, the
   * only attribute value of obj, is another object not yet seen on which freeze
   * raises e, the traversal raises e right after freezing obj and a, so none of the
   * items of obj is frozen.
   */
  lemma AttributesBeforeItems(nodes: map<Id, Node>, obj: Id, a: Id, seen: set<Id>, t: Traversal,
                              err: Option<PyError>, e: PyError, fa: bool, fi: bool)
    requires obj in nodes && obj !in seen && FreezeNode(nodes[obj], fa, fi).Ok?
    requires nodes[obj].attrs.Some? && nodes[obj].attrs.value.Values == {a} && a != obj && a !in seen
    requires a in nodes && FreezeNode(nodes[a], fa, fi) == Err(e)
    requires t.obj == obj && DepthFirst(nodes, fa, fi, seen, t, err.Some?) && Outcome(err, nodes, Order(t), fa, fi)
    ensures err == Some(e) && Order(t) == [obj, a]
  {
    OnlyAttributeTurn(nodes, fa, fi, seen, t, err.Some?, a);
    FirstAttributeTurn(nodes, fa, fi, seen, t, err.Some?);
    var u := t.attrTurns[0];
    assert Order(u) == [a];
    assert Orders(t.attrTurns) == Orders([]) + Order(u);
    RaisesAt(nodes, Order(t), 1, err, e, fa, fi);
  }

  /**
   * An exception below the first attribute value ends the whole traversal: when
   * freeze succeeds on obj and on x, the first attribute value its loop takes, and
   * raises e on z, the only attribute value of x, the traversal raises e right
   * after freezing obj, x and z, and no other attribute value of obj is walked.
   */
  lemma RaiseBelowFirstAttribute(nodes: map<Id, Node>, seen: set<Id>, t: Traversal, z: Id,
                                 err: Option<PyError>, e: PyError, fa: bool, fi: bool)
    requires t.Visited? && DepthFirst(nodes, fa, fi, seen, t, err.Some?) && Outcome(err, nodes, Order(t), fa, fi)
    requires FreezeNode(nodes[t.obj], fa, fi).Ok? && t.attrs != []
    requires t.attrs[0] in nodes && t.attrs[0] != t.obj && t.attrs[0] !in seen && FreezeNode(nodes[t.attrs[0]], fa, fi).Ok?
    requires nodes[t.attrs[0]].attrs.Some? && nodes[t.attrs[0]].attrs.value.Values == {z}
    requires z in nodes && z != t.obj && z != t.attrs[0] && z !in seen && FreezeNode(nodes[z], fa, fi) == Err(e)
    ensures err == Some(e) && Order(t) == [t.obj, t.attrs[0], z]
  {
    var raised := err.Some?;
    FirstAttributeTurn(nodes, fa, fi, seen, t, raised);
    var u := t.attrTurns[0];
    var ru := raised && t.itemTurns == [] && |t.attrTurns| == 1;
    assert ChildTurns(nodes, fa, fi, seen + {t.obj}, u, ru);
    OnlyAttributeTurn(nodes, fa, fi, seen + {t.obj}, u, ru, z);
    FirstAttributeTurn(nodes, fa, fi, seen + {t.obj}, u, ru);
    assert Order(u.attrTurns[0])[0] == z;
    assert Order(t)[..3] == [t.obj, t.attrs[0], z];
    RaisesAt(nodes, Order(t), 2, err, e, fa, fi);
  }

  /**
   * A heap holding, for instance, `root = C(); root.a = x; root.c = y; x.b = y.b = object()`
   * with x = C() and y = C() for a plain class C: 0 is root, whose attribute values
   * are x (1) and y (2), and the only attribute value of each of x and y is the
   * object() (3).
   */
  ghost predicate SharedObjectHeap(h: map<Id, Node>) {
    && 0 in h && 1 in h && 2 in h && 3 in h
    && h[0].cls == Class("C", [], false) && h[0].attrs.Some? && h[0].attrs.value.Values == {1, 2}
    && h[1].cls == Class("C", [], false) && h[1].attrs.Some? && h[1].attrs.value.Values == {3}
    && h[2].cls == Class("C", [], false) && h[2].attrs.Some? && h[2].attrs.value.Values == {3}
    && h[3].cls == Object
  }

  /** freeze succeeds on an instance of a plain class, and raises IndexError on an object(). */
  lemma PlainInstancesFreeze(n: Node, fa: bool, fi: bool)
    ensures n.cls == Class("C", [], false) ==> FreezeNode(n, fa, fi).Ok?
    ensures n.cls == Object ==> FreezeNode(n, fa, fi) == Err(IndexError)
  {
  }

  /** On that heap the first attribute value the loop over vars(root) takes is x or y. */
  lemma SharedObjectFirstAttribute(h: map<Id, Node>, t: Traversal, err: Option<PyError>, fa: bool, fi: bool)
    requires SharedObjectHeap(h) && t.obj == 0 && DepthFirst(h, fa, fi, {}, t, err.Some?)
    ensures t.Visited? && t.attrs != [] && (t.attrs[0] == 1 || t.attrs[0] == 2)
  {
    PlainInstancesFreeze(h[0], fa, fi);
    assert ChildTurns(h, fa, fi, {}, t, err.Some?);
    FirstAttributeValue(h, fa, fi, {}, t, err.Some?, 1);
  }

  /**
   * On that heap deepfreeze(root) raises IndexError, from freeze(object()), after
   * freezing root, whichever of x and y its loop takes first, and the object(); the
   * other of x and y is never frozen.
   */
  lemma SharedObjectStopsAtFirstAttribute(h: map<Id, Node>, t: Traversal, err: Option<PyError>, fa: bool, fi: bool)
    requires SharedObjectHeap(h) && t.obj == 0 && DepthFirst(h, fa, fi, {}, t, err.Some?)
    requires Outcome(err, h, Order(t), fa, fi)
    ensures err == Some(IndexError)
    ensures Order(t) == [0, 1, 3] || Order(t) == [0, 2, 3]
  {
    SharedObjectFirstAttribute(h, t, err, fa, fi);
    PlainInstancesFreeze(h[0], fa, fi);
    PlainInstancesFreeze(h[t.attrs[0]], fa, fi);
    PlainInstancesFreeze(h[3], fa, fi);
    RaiseBelowFirstAttribute(h, {}, t, 3, err, IndexError, fa, fi);
  }

  /** The edges of an object cover its attribute values and, unless it is a str, its items. */
  lemma ChildrenCover(n: Node)
    ensures forall x :: x in Children(n) <==> x in AttributeRefs(n) || (!IsSubclass(n.cls, Builtin(Str)) && x in IteratedItems(n))
  {
  }

  /**
   * A whole traversal from obj, started with nothing seen: it froze the objects it
   * visited, each once and each reachable from obj; when no freeze raised, it
   * visited every reachable object and left each immutable or frozen.
   */
  lemma {:induction false} WalkCoversReachable(g: map<Id, set<Id>>, obj: Id, n0: map<Id, Node>, n1: map<Id, Node>,
                                               seen: set<Id>, visited: seq<Id>, err: Option<PyError>, fa: bool, fi: bool)
    requires GraphOf(g, n0) && obj in seen && Stretch(g, obj, n0, n1, {}, seen, visited, fa, fi)
    requires Outcome(err, n0, visited, fa, fi) && (err.None? ==> ClosedExcept(g, seen, {}))
    ensures forall i, j | 0 <= i < j < |visited| :: visited[i] != visited[j]
    ensures forall x | x in visited :: x in n0 && Reachable(g, obj, x)
    ensures forall x | x in n1 :: n1[x] == if x in visited then AfterFreeze(n0[x], fa, fi) else n0[x]
    ensures err.None? ==> forall x | x in n0 && Reachable(g, obj, x) :: x in visited
    ensures err.None? <==> forall x | x in n0 && Reachable(g, obj, x) :: FreezeNode(n0[x], fa, fi).Ok?
    ensures err.None? ==> forall x | x in visited :: n1[x].cls in ImmutableTypes || IsFrozen(n1[x].cls)
  {
    assert seen - {} == seen;
    if err.None? {
      assert ClosedIn(g, seen);
      forall x | x in n0 && Reachable(g, obj, x)
        ensures x in visited
      {
        ClosedContainsReachable(g, seen, obj, x);
      }
      forall x | x in visited
        ensures FreezeNode(n0[x], fa, fi).Ok?
      {
        var i :| 0 <= i < |visited| && visited[i] == x;
        assert FreezesAt(n0, visited, i, fa, fi);
      }
    } else {
      var x := visited[|visited| - 1];
      assert x in seen && FreezeNode(n0[x], fa, fi).Err?;
      assert Reachable(g, obj, x);
    }
  }

  /**
   * vars(obj).values(): one entry per attribute, in the order of `keys`, an order of
   * the attribute names in which each name appears once.
   */
  method AttributeValues(d: map<string, Id>) returns (s: seq<Id>, ghost keys: seq<string>)
    ensures InKeyOrder(d, keys, s)
    ensures forall x :: x in s <==> x in d.Values
  {
    s, keys := [], [];
    var rest := d.Keys;
    while rest != {}
      invariant rest <= d.Keys
      invariant |keys| == |s| && |keys| + |rest| == |d|
      invariant forall i, j | 0 <= i < j < |keys| :: keys[i] != keys[j]
      invariant forall k :: k in keys <==> k in d && k !in rest
      invariant forall i | 0 <= i < |s| :: keys[i] in d && s[i] == d[keys[i]]
      decreases rest
    {
      var k :| k in rest;
      s, keys := s + [d[k]], keys + [k];
      rest := rest - {k};
    }
    forall x | x in d.Values
      ensures x in s
    {
      var k :| k in d && d[k] == x;
      var i :| 0 <= i < |keys| && keys[i] == k;
    }
  }

  /** The objects of a program, by id; freeze and deepfreeze update them in place. */
  class Heap {
    var nodes: map<Id, Node>

    ghost predicate Valid()
      reads this
    {
      ClosedHeap(nodes)
    }

    constructor (objects: map<Id, Node>)
      requires ClosedHeap(objects)
      ensures Valid() && nodes == objects
    {
      nodes := objects;
    }

    /**
     * _set_class_on_builtin_or_slots, with the guard corrected to look __slots__ up
     * as hasattr does: rebinds the object's class in place, or raises and changes nothing.
     */
    method SetClassOnBuiltinOrSlots(obj: Id, newClass: Type) returns (r: Result<()>)
      requires Valid() && obj in nodes
      modifies this
      ensures Valid()
      ensures SetClass(old(nodes)[obj], newClass).Ok? ==>
                r.Ok? && nodes == old(nodes)[obj := SetClass(old(nodes)[obj], newClass).value]
      ensures SetClass(old(nodes)[obj], newClass).Err? ==>
                r == Err(SetClass(old(nodes)[obj], newClass).error) && nodes == old(nodes)
    {
      var n := nodes[obj];
      if !IsContainer(n.cls) && !HasSlots(n.cls) {
        return Err(TypeError);
      }
      ReplaceKeepsClosed(nodes, obj, n.(cls := newClass));
      nodes := nodes[obj := n.(cls := newClass)];
      return Ok(());
    }

    /**
     * freeze(obj, freeze_attributes=fa, freeze_items=fi): returns obj itself, with
     * its class rebound in place; the exception paths leave it unchanged.
     */
    method Freeze(obj: Id, fa: bool, fi: bool) returns (r: Result<Id>)
      requires Valid() && obj in nodes
      modifies this
      ensures Valid()
      ensures nodes == old(nodes)[obj := AfterFreeze(old(nodes)[obj], fa, fi)]
      ensures FreezeNode(old(nodes)[obj], fa, fi).Ok? ==> r == Ok(obj)
      ensures FreezeNode(old(nodes)[obj], fa, fi).Err? ==> r == Err(FreezeNode(old(nodes)[obj], fa, fi).error)
    {
      var objClass := nodes[obj].cls;
      if objClass in ImmutableTypes {
        return Ok(obj);
      }
      var bases := Bases(objClass);
      if |bases| == 0 {
        return Err(IndexError);
      }
      if bases[0] == Frozen {
        return Ok(obj);
      }
      var objType := objClass;
      var created := CreateDynamicFrozenType(objType, fa, fi);
      if created.Err? {
        return Err(created.error);
      }
      var frozenType := created.value;
      if IsContainer(objType) || HasSlots(objType) {
        var helper := SetClassOnBuiltinOrSlots(obj, frozenType);
        match helper {
          case Err(e) => return Err(e);
          case Ok(_) =>
        }
      } else {
        if !ClassAssignable(objType) {
          return Err(TypeError);
        }
        ReplaceKeepsClosed(nodes, obj, nodes[obj].(cls := frozenType));
        nodes := nodes[obj := nodes[obj].(cls := frozenType)];
      }
      return Ok(obj);
    }

    /**
     * deepfreeze(obj, freeze_attributes=fa, freeze_items=fi): freezes every object
     * reachable from obj through attribute values, items and dict values, str items
     * excepted, and nothing else. It succeeds iff freeze succeeds on each of them;
     * when one raises, the walk stops and the objects frozen so far stay frozen.
     */
    method DeepFreeze(obj: Id, fa: bool, fi: bool) returns (r: Result<Id>, ghost visited: seq<Id>, ghost t: Traversal)
      requires Valid() && obj in nodes
      modifies this
      ensures Valid() && nodes.Keys == old(nodes).Keys
      ensures r.Ok? ==> r.value == obj
      // freeze was applied once to each object of visited, in that order, and to no other object
      ensures forall i, j | 0 <= i < j < |visited| :: visited[i] != visited[j]
      ensures forall x | x in visited :: x in old(nodes) && Reachable(ChildGraph(old(nodes)), obj, x)
      ensures forall x | x in nodes :: nodes[x] == if x in visited then AfterFreeze(old(nodes)[x], fa, fi) else old(nodes)[x]
      // the walk stops at the first freeze that raises, and raises its exception
      ensures Outcome(ErrorOf(r), old(nodes), visited, fa, fi)
      ensures r.Ok? ==> forall x | x in old(nodes) && Reachable(ChildGraph(old(nodes)), obj, x) :: x in visited
      ensures r.Ok? <==> forall x | x in old(nodes) && Reachable(ChildGraph(old(nodes)), obj, x) ::
                            FreezeNode(old(nodes)[x], fa, fi).Ok?
      ensures r.Ok? ==> forall x | x in visited :: nodes[x].cls in ImmutableTypes || IsFrozen(nodes[x].cls)
      // depth first: visited is the order of the traversal t, call by call
      ensures t.obj == obj && visited == Order(t) && DepthFirst(old(nodes), fa, fi, {}, t, r.Err?)
    {
      ghost var g := ChildGraph(nodes);
      ghost var before := nodes;
      ChildGraphOfClosedHeap(nodes);
      FrozenSoFarStart(nodes, fa, fi);
      var seen: set<Id>;
      r, seen, visited, t := Walk(obj, fa, fi, {}, {}, g, before);
      FreezingKeepsGraph(before, nodes, seen - {}, fa, fi);
      WalkCoversReachable(g, obj, before, nodes, seen, visited, ErrorOf(r), fa, fi);
    }

    /**
     * _deepfreeze(obj): unless obj was seen in this traversal, mark it seen, freeze it,
     * then recurse into its attribute values and (unless it is a str) its items.
     * `g` is the graph being walked, `shape` the heap the traversal started from,
     * `order` the sequence of objects freeze was applied to and `stack` the objects
     * whose recursion is still in progress.
     */
    method Walk(obj: Id, fa: bool, fi: bool, seen: set<Id>, ghost stack: set<Id>, ghost g: map<Id, set<Id>>,
                ghost shape: map<Id, Node>)
      returns (r: Result<Id>, seen': set<Id>, ghost order: seq<Id>, ghost t: Traversal)
      requires Valid() && GraphOf(g, nodes) && obj in nodes && seen <= nodes.Keys && stack <= seen
      requires ClosedExcept(g, seen, stack) && FrozenSoFar(shape, nodes, seen, fa, fi)
      modifies this
      decreases nodes.Keys - seen, 3
      ensures Valid() && FrozenSoFar(shape, nodes, seen', fa, fi)
      ensures obj in seen' && Stretch(g, obj, old(nodes), nodes, seen, seen', order, fa, fi)
      ensures Outcome(ErrorOf(r), old(nodes), order, fa, fi)
      ensures r.Ok? ==> r.value == obj && ClosedExcept(g, seen', stack)
      ensures obj in seen ==> r == Ok(obj) && seen' == seen && order == [] && nodes == old(nodes)
      ensures t.obj == obj && order == Order(t) && DepthFirst(shape, fa, fi, seen, t, r.Err?)
    {
      if obj in seen {
        StretchEmpty(g, obj, nodes, seen, fa, fi);
        assert seen - seen == {};
        DepthFirstSkipped(shape, fa, fi, seen, obj);
        return Ok(obj), seen, [], Skipped(obj);
      }
      ghost var before := nodes;
      assert KeptOrFrozen(shape, nodes, seen, fa, fi, obj);
      var frozen := Freeze(obj, fa, fi);
      StretchStart(g, obj, before, nodes, seen, fa, fi);
      OutcomeOfOne(before, obj, fa, fi);
      FrozeOneMore(shape, before, nodes, seen, obj, fa, fi);
      seen' := seen + {obj};
      order := [obj];
      if frozen.Err? {
        DepthFirstRaisedAtObject(shape, fa, fi, seen, obj);
        return Err(frozen.error), seen', order, Visited(obj, [], [], [], []);
      }
      ClosedExceptPush(g, seen, stack, obj);
      ghost var mid := nodes;
      var step: Result<()>;
      var s1;
      ghost var o1;
      step, s1, o1, t := WalkFrom(obj, fa, fi, seen, seen', stack, g, shape);
      StretchExtend(g, obj, obj, before, mid, nodes, seen, seen', s1, order, o1, ErrorOf(step), fa, fi);
      DepthFirstAfterObject(shape, fa, fi, seen, t, o1, step.Err?);
      order := order + o1;
      seen' := s1;
      if step.Err? {
        return Err(step.error), seen', order, t;
      }
      return Ok(obj), seen', order, t;
    }

    /**
     * The rest of _deepfreeze(obj) once freeze(obj) has succeeded: the loop over the
     * attribute values and, unless obj is a str, the loop over its items. `bound` is
     * the seen set the call on obj started from.
     */
    method WalkFrom(obj: Id, fa: bool, fi: bool, ghost bound: set<Id>, seen: set<Id>, ghost stack: set<Id>,
                    ghost g: map<Id, set<Id>>, ghost shape: map<Id, Node>)
      returns (r: Result<()>, seen': set<Id>, ghost order: seq<Id>, ghost t: Traversal)
      requires Valid() && GraphOf(g, nodes) && obj in nodes && seen <= nodes.Keys && stack <= bound
      requires obj !in bound && seen == bound + {obj} && ClosedExcept(g, seen, stack + {obj})
      requires FrozenSoFar(shape, nodes, seen, fa, fi)
      modifies this
      decreases nodes.Keys - bound, 2
      ensures Valid() && FrozenSoFar(shape, nodes, seen', fa, fi)
      ensures Stretch(g, obj, old(nodes), nodes, seen, seen', order, fa, fi)
      ensures Outcome(ErrorOf(r), old(nodes), order, fa, fi)
      ensures r.Ok? ==> ClosedExcept(g, seen', stack)
      ensures t.Visited? && t.obj == obj && order == Orders(t.attrTurns) + Orders(t.itemTurns)
      ensures ChildTurns(shape, fa, fi, bound, t, r.Err?)
    {
      ghost var before := nodes;
      var node := nodes[obj];
      assert KeptOrFrozen(shape, nodes, seen, fa, fi, obj);
      FreezeKeepsReferences(shape[obj], fa, fi);
      assert node.attrs == shape[obj].attrs && WalkedItems(node) == WalkedItems(shape[obj]);
      ChildrenCover(node);
      assert EdgesAt(g, nodes, obj);
      var attrs := [];
      ghost var names := [];
      if node.attrs.Some? {
        attrs, names := AttributeValues(node.attrs.value);
      }
      ghost var pa, pi;
      r, seen', order, pa := WalkEach(attrs, fa, fi, seen, stack + {obj}, obj, bound, g, shape);
      t := Visited(obj, names, attrs, pa, []);
      if r.Err? {
        ChildTurnsAfterAttributes(shape, fa, fi, bound, obj, names, attrs, pa, true);
        return;
      }
      assert AttributeRefs(node) <= seen';
      if IsSubclass(node.cls, Builtin(Str)) {
        ClosedExceptPop(g, seen', stack, obj);
        ChildTurnsAfterAttributes(shape, fa, fi, bound, obj, names, attrs, pa, false);
        return;
      }
      ghost var mid := nodes;
      FreezingKeepsGraph(before, nodes, seen' - seen, fa, fi);
      StretchSeen(g, obj, before, nodes, seen, seen', order, fa, fi);
      var s1;
      ghost var o1;
      r, s1, o1, pi := WalkEach(IteratedItems(node), fa, fi, seen', stack + {obj}, obj, bound, g, shape);
      StretchExtend(g, obj, obj, before, mid, nodes, seen, seen', s1, order, o1, ErrorOf(r), fa, fi);
      ChildTurnsAfterItems(shape, fa, fi, bound, obj, names, attrs, pa, pi, r.Err?);
      order := order + o1;
      seen' := s1;
      t := Visited(obj, names, attrs, pa, pi);
      if r.Ok? {
        assert g[obj] <= seen';
        ClosedExceptPop(g, seen', stack, obj);
      }
    }

    /**
     * One `for` loop of _deepfreeze over the children of parent: recurse into each
     * in turn and stop at the first exception. `bound` is the seen set parent's
     * own traversal started from.
     */
    method WalkEach(children: seq<Id>, fa: bool, fi: bool, seen: set<Id>, ghost stack: set<Id>,
                    ghost parent: Id, ghost bound: set<Id>, ghost g: map<Id, set<Id>>, ghost shape: map<Id, Node>)
      returns (r: Result<()>, seen': set<Id>, ghost order: seq<Id>, ghost parts: seq<Traversal>)
      requires Valid() && GraphOf(g, nodes) && seen <= nodes.Keys && stack <= seen
      requires ClosedExcept(g, seen, stack) && FrozenSoFar(shape, nodes, seen, fa, fi)
      requires parent in nodes && parent !in bound && bound + {parent} <= seen
      requires forall c | c in children :: c in g[parent]
      modifies this
      decreases nodes.Keys - bound, 1
      ensures Valid() && FrozenSoFar(shape, nodes, seen', fa, fi)
      ensures Stretch(g, parent, old(nodes), nodes, seen, seen', order, fa, fi)
      ensures Outcome(ErrorOf(r), old(nodes), order, fa, fi)
      ensures r.Ok? ==> (forall c | c in children :: c in seen') && ClosedExcept(g, seen', stack)
      // one call per child, in order, stopping early only at an exception
      ensures order == Orders(parts) && Turns(shape, fa, fi, children, seen, parts, r.Err?)
    {
      ghost var before := nodes;
      seen' := seen;
      order := [];
      parts := [];
      StretchEmpty(g, parent, nodes, seen, fa, fi);
      TurnsStart(shape, fa, fi, children, seen);
      assert seen - seen == {};
      for i := 0 to |children|
        invariant Valid() && FrozenSoFar(shape, nodes, seen', fa, fi)
        invariant Stretch(g, parent, before, nodes, seen, seen', order, fa, fi)
        invariant Outcome(None, before, order, fa, fi)
        invariant forall c | c in children[..i] :: c in seen'
        invariant ClosedExcept(g, seen', stack)
        invariant |parts| == i && order == Orders(parts) && TurnsSoFar(shape, fa, fi, children, seen, parts, false)
      {
        var step;
        step, seen', order, parts := WalkChild(children, i, fa, fi, seen, seen', order, parts, stack, parent, bound, g, before, shape);
        if step.Err? {
          return Err(step.error), seen', order, parts;
        }
      }
      assert children[..|children|] == children;
      return Ok(()), seen', order, parts;
    }

    /**
     * Turn i of that loop: the recursive call on children[i]; afterwards the walk so
     * far is one stretch, and one turn longer.
     */
    method WalkChild(children: seq<Id>, i: nat, fa: bool, fi: bool, seen: set<Id>, current: set<Id>,
                     ghost order: seq<Id>, ghost parts: seq<Traversal>, ghost stack: set<Id>, ghost parent: Id,
                     ghost bound: set<Id>, ghost g: map<Id, set<Id>>, ghost before: map<Id, Node>,
                     ghost shape: map<Id, Node>)
      returns (r: Result<Id>, seen': set<Id>, ghost order': seq<Id>, ghost parts': seq<Traversal>)
      requires Valid() && Stretch(g, parent, before, nodes, seen, current, order, fa, fi)
      requires Outcome(None, before, order, fa, fi) && FrozenSoFar(shape, nodes, current, fa, fi)
      requires GraphOf(g, before) && bound + {parent} <= seen && parent in before && parent !in bound
      requires stack <= seen && ClosedExcept(g, current, stack)
      requires i < |children| && children[i] in g[parent] && forall c | c in children[..i] :: c in current
      requires |parts| == i && order == Orders(parts) && TurnsSoFar(shape, fa, fi, children, seen, parts, false)
      modifies this
      decreases before.Keys - bound, 0
      ensures Valid() && FrozenSoFar(shape, nodes, seen', fa, fi)
      ensures Stretch(g, parent, before, nodes, seen, seen', order', fa, fi)
      ensures Outcome(ErrorOf(r), before, order', fa, fi)
      ensures current <= seen'
      ensures forall c | c in children[..i + 1] :: c in seen'
      ensures r.Ok? ==> ClosedExcept(g, seen', stack)
      ensures |parts'| == i + 1 && order' == Orders(parts') && TurnsSoFar(shape, fa, fi, children, seen, parts', r.Err?)
    {
      assert children[..i + 1] == children[..i] + [children[i]];
      ghost var mid := nodes;
      ghost var part, t;
      FreezingKeepsGraph(before, nodes, current - seen, fa, fi);
      StretchSeen(g, parent, before, nodes, seen, current, order, fa, fi);
      assert nodes.Keys == before.Keys && seen <= current;
      r, seen', part, t := Walk(children[i], fa, fi, current, stack, g, shape);
      StretchExtend(g, parent, children[i], before, mid, nodes, seen, current, seen', order, part, ErrorOf(r), fa, fi);
      TurnsExtend(shape, fa, fi, children, seen, parts, t, r.Err?);
      order' := order + part;
      parts' := parts + [t];
    }
  }
}
