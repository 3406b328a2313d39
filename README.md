# cryostasis in Dafny

cryostasis makes Python objects effectively immutable in place.

- `freeze(obj, freeze_attributes=..., freeze_items=...)` builds a new class that derives from the guard class `Frozen` and from the object's own class. It then rebinds `obj.__class__` to that class. Built-in containers and classes with `__slots__` cannot take a plain `__class__` assignment, so for them the rebinding goes through the C helper `_set_class_on_builtin_or_slots`.
- The frozen class raises `ImmutableError` on attribute assignment and deletion when `freeze_attributes` is set. It does the same on item assignment and deletion when `freeze_items` is set.
- For list, dict and set objects, the frozen class also overrides a fixed list of structural mutators (`append`, `pop`, `update`, `add`, ...). `list.sort`, and `update` and the other `*_update` methods of set, are not among them.
- Its `__repr__` encloses the original repr in `<Frozen(...)>`.
- `deepfreeze` walks everything reachable from an object through attribute values, iterated items and dict values, and freezes each object exactly once, also on cyclic structures.

The model has five modules:

- `Runtime` (`runtime.dfy`): the slice of Python's object model that freezing observes.
  - Classes as a `Type` datatype, with their bases, `issubclass` and `hasattr(t, "__slots__")`.
  - Objects as heap nodes that refer to other objects by id.
  - The original `object.__setattr__`/`__delattr__` and the list item operations that the guards forward to.
- `Detail` (`detail.dfy`): the `Frozen` guards, `_create_dynamic_frozen_type` with its method-override tables, the frozen repr, and `IMMUTABLE_TYPES`.
- `BuiltinHelpers` (`builtin_helpers.dfy`): the acceptance guard of the C helper, as written and corrected.
- `Reachability` (`reachability.dfy`): paths and reachability in a successor graph.
- `Cryostasis` (`cryostasis.dfy`): `freeze` on one object as a function, and a `Heap` class holding the objects that `freeze` and `deepfreeze` update in place.
  - `deepfreeze` is the recursive walk of the source, with the shared `seen_instances` set threaded through it.
  - Its contract: the objects frozen are exactly the visited ones, each is visited once and is reachable from the root, and on success every reachable object was visited.
  - When a `freeze` raises, the walk stops and raises that exception, and the objects frozen before it stay frozen.

Python exceptions that the shown code can raise are modelled as `Err` values:

- An `object()` instance gives IndexError, because `object.__bases__` is empty.
- An instance of `Frozen` itself gives TypeError, because `type()` refuses the duplicate base.
- Any other built-in instance outside list, dict, set, modules and `IMMUTABLE_TYPES` gives TypeError. Either `type()` refuses the base or the interpreter refuses the `__class__` assignment on a static type. Modules are frozen by a plain `__class__` assignment, which the interpreter allows between ModuleType subclasses.

Behaviour modelled from the code:

- Each call builds its frozen class afresh; nothing is cached. The model describes the class by its contents only, not by its identity (see Left out).
- The repr has the form `<Frozen(...)>`.
- Objects of unsupported classes raise instead of being skipped.
- There is no `thaw`.

Later versions of the library add `thaw`, `is_frozen`, exclusions and a type cache, which test/test_freeze.py exercises; this model covers the version in src/cryostasis.

The rows for `FreezeType`, `FreezeNode`, `FrozenTypeFor`, `CreateDynamicFrozenType`, `Heap.Freeze` and `Heap.DeepFreeze` describe the program with both corrections of "## Findings" applied. The C helper looks `__slots__` up through the bases, and list `clear` takes no argument. The as-written behaviour is stated by the members named in that table.

## Model

| member | source | states |
|---|---|---|
| Runtime.ObjectSetAttr | src/cryostasis/detail.py:15 | the forwarded `object.__setattr__` succeeds iff the object has a `__dict__`; the new value reads back and no other attribute changes |
| Runtime.ObjectDelAttr | src/cryostasis/detail.py:21 | the forwarded `object.__delattr__` succeeds iff the attribute exists; afterwards it is gone and no other attribute changes |
| Runtime.ListSetItem | src/cryostasis/detail.py:27 | the forwarded `list.__setitem__` succeeds iff the index is in range (negative indices count from the end); the element reads back, the length and all other elements are unchanged |
| Runtime.ListDelItem | src/cryostasis/detail.py:33 | the forwarded `list.__delitem__` succeeds iff the index is in range; it removes exactly that element |
| Detail.SetAttr | src/cryostasis/detail.py:11-15 | `Frozen.__setattr__` either raises ImmutableError or returns the original `__setattr__` outcome unchanged, and it raises whenever the class's attribute flag is set |
| Detail.DelAttr | src/cryostasis/detail.py:17-21 | `Frozen.__delattr__`: the same, for deletion |
| Detail.SetItem | src/cryostasis/detail.py:23-27 | `Frozen.__setitem__`: ImmutableError or the original outcome, raising whenever the class's item flag is set |
| Detail.DelItem | src/cryostasis/detail.py:29-33 | `Frozen.__delitem__`: the same, for item deletion |
| Detail.AttributeAssignmentGuard | src/cryostasis/detail.py:11-15 | on a frozen object, attribute assignment raises ImmutableError for every input when freeze_attributes was set, objects without a `__dict__` included; otherwise it returns the original outcome, so the value reads back with the class kept, or AttributeError without a `__dict__` |
| Detail.AttributeDeletionGuard | src/cryostasis/detail.py:17-21 | attribute deletion raises ImmutableError for every input when freeze_attributes was set, missing attributes included; otherwise the attribute is gone, or AttributeError when it was missing |
| Detail.ItemAssignmentGuard | src/cryostasis/detail.py:23-27 | item assignment raises ImmutableError for every index when freeze_items was set; otherwise the original outcome is returned, which for a list is the element reading back, or IndexError out of range |
| Detail.ItemDeletionGuard | src/cryostasis/detail.py:29-33 | item deletion raises ImmutableError for every index when freeze_items was set; otherwise the original outcome is returned, which for a list removes exactly the indexed element (negative indices included), or IndexError out of range |
| Detail.FlagsAreIndependent | src/cryostasis/detail.py:7-33 | the attribute guards ignore freeze_items and the item guards ignore freeze_attributes |
| Detail.FrozenTypeFor | src/cryostasis/detail.py:38-42 | the built class has bases (Frozen, original), is named `Frozen<name>`, stores the two flags under their mangled names, and the guards read exactly those flags |
| Detail.FrozenTypeKeepsAncestors | src/cryostasis/detail.py:38-42 | the frozen class is a subclass of every class the original derives from |
| Detail.FrozenTypeMethods | src/cryostasis/detail.py:44-83 | the frozen class's own methods are the repr plus exactly the overrides of the containers the original derives from; for a name two containers both override, set's entry wins over dict's and dict's over list's |
| Detail.MethodTableEntries | src/cryostasis/detail.py:44-83 | the same membership and precedence for any list table, including the one as written |
| Detail.ListOverridesMatchList | src/cryostasis/detail.py:49-58 | the (corrected) list overrides are exactly list's insert, append, clear, reverse, extend, pop, remove, `+=` and `*=`, each taking the same positional parameters as list's own method |
| Detail.DictOverridesMatchDict | src/cryostasis/detail.py:62-70 | the dict overrides are exactly pop, popitem, clear, update, setdefault and `__ior__`, each with dict's own positional parameters |
| Detail.SetOverridesMatchSet | src/cryostasis/detail.py:74-83 | the set overrides are exactly add, discard, remove, pop, clear, `__ior__`, `__iand__`, `__ixor__` and `__isub__`, each with set's own positional parameters |
| Detail.CreateDynamicFrozenType | src/cryostasis/detail.py:36-85 | it raises TypeError exactly when `type()` refuses `(Frozen, original)` as bases: for `Frozen` itself (a duplicate base), for a class deriving from Frozen (no consistent MRO), for `bool` and for the other built-ins that cannot be subclassed; otherwise the class it returns is `FrozenTypeFor` of the original with the given flags |
| Detail.FrozenTypeForAsWritten | src/cryostasis/detail.py:36-58 | the class built from the list overrides as written has the same bases and flags |
| Detail.FrozenRepr | src/cryostasis/detail.py:45 | the frozen repr starts with `<Frozen(`, ends with `)>`, is longer than the original by exactly these, and differs from it |
| Detail.FrozenReprRoundTrip | src/cryostasis/detail.py:45 | removing the prefix `<Frozen(` and the suffix `)>` from a frozen repr gives back the original repr |
| Detail.CallMethod | src/cryostasis/detail.py:47-83 | a method call on an object returns the original outcome, ImmutableError or TypeError, and only a frozen class changes the outcome |
| Detail.Repr | src/cryostasis/detail.py:45 | `repr` gives the original repr or its `<Frozen(...)>` form, and only a frozen class changes it |
| Detail.ListMutatorsRaise | src/cryostasis/detail.py:49-58 | on a frozen list, every call that list's own mutator would accept raises ImmutableError, whatever the flags |
| Detail.DictMutatorsRaise | src/cryostasis/detail.py:62-70 | on a frozen dict, every call that dict's own mutator would accept raises ImmutableError |
| Detail.SetMutatorsRaise | src/cryostasis/detail.py:74-83 | on a frozen set, every call that set's own mutator would accept raises ImmutableError |
| Detail.MutatorsNeverRun | src/cryostasis/detail.py:47-83 | whatever arguments are passed, an overridden mutator raises (ImmutableError, or TypeError when the arguments do not bind) and never reaches the original |
| Detail.OtherMethodsForward | src/cryostasis/detail.py:47-83 | every method that is not overridden, and every method of a non-container class, behaves as the original does |
| Detail.ListClearRefusedAsWritten | src/cryostasis/detail.py:52 | as written, `clear()` on a frozen list raises TypeError, although list.clear takes no argument |
| BuiltinHelpers.AcceptsAsWritten | src/_builtin_helpers.c:38-45 | every object the helper's own guard accepts is one freeze routes to it (the converse fails, see `RoutedButRefusedAsWritten`) |
| BuiltinHelpers.SetClassAsWritten | src/_builtin_helpers.c:38-51 | the helper as written only changes the object's class |
| BuiltinHelpers.SetClass | src/_builtin_helpers.c:38-51 | the corrected helper only changes the object's class |
| BuiltinHelpers.RoutedButRefusedAsWritten | src/_builtin_helpers.c:42-51 | freeze hands an instance of a subclass of a slotted class to the helper, and the helper as written raises TypeError for it |
| BuiltinHelpers.SetClassExactlyRouted | src/_builtin_helpers.c:38-51 | the corrected helper succeeds iff freeze routes the object to it (a list/dict/set or a class with `__slots__`, inherited ones counted); it then rebinds the class only, otherwise it raises TypeError; it agrees with the helper as written wherever that one succeeds |
| Cryostasis.IsFrozen | src/cryostasis/__init__.py:55 | the test `__bases__[0] is Frozen` holds exactly for the classes freeze builds and for class statements whose first base is Frozen |
| Cryostasis.FreezeType | src/cryostasis/__init__.py:55-63 | freeze fails exactly on `object` (IndexError), and with TypeError on `Frozen`, on classes deriving from Frozen whose first base is not Frozen itself, and on built-ins outside list, dict, set, modules and IMMUTABLE_TYPES; on success the class is the original one for immutable or already frozen objects and otherwise the frozen class with the requested flags, so it is always immutable or frozen |
| Cryostasis.FreezeNode | src/cryostasis/__init__.py:55-64 | freeze on one object changes its class and nothing else, and raises what FreezeType raises |
| Cryostasis.FreezeImmutableIsNoOp | src/cryostasis/__init__.py:55-56 | instances of IMMUTABLE_TYPES come back unchanged, repr included |
| Cryostasis.FreezeIsIdempotent | src/cryostasis/__init__.py:55-56 | freezing a frozen object again, with any flags, changes nothing, and the first flags persist |
| Cryostasis.FreezeRebindsToFrozenType | src/cryostasis/__init__.py:58-63 | a mutable object is rebound to the frozen class of its own class with the requested flags, and keeps every instance check against its original ancestors |
| Cryostasis.FreezeWrapsRepr | src/cryostasis/__init__.py:58-63 | after freeze, repr(obj) is the old repr enclosed in `<Frozen(...)>` |
| Cryostasis.IteratedItems | src/cryostasis/__init__.py:125-128 | iterating an object yields nothing when `iter` raises TypeError; otherwise it yields exactly its items, followed for a dict by its values and for any other object by nothing more |
| Cryostasis.Children | src/cryostasis/__init__.py:112-133 | a str's children are only its attribute values; the children are always among the object's references |
| Cryostasis.FreezeKeepsReferences | src/cryostasis/__init__.py:58-63 | freezing changes neither what an object refers to nor what deepfreeze follows from it |
| Cryostasis.WalkCoversReachable | src/cryostasis/__init__.py:102-137 | a complete walk from the root visits distinct objects, all reachable, and freezes exactly those; it succeeds iff freeze succeeds on every reachable object, and then it has visited them all and each is immutable or frozen |
| Cryostasis.AttributeValues | src/cryostasis/__init__.py:114 | `vars(obj).values()` yields one entry per attribute: along an order of the attribute names in which each name appears once, entry i is the value of name i |
| Cryostasis.AttributesBeforeItems | src/cryostasis/__init__.py:112-133 | attribute values are walked before items: when freeze succeeds on obj and fails on its only attribute value, the walk raises that exception after freezing just those two objects, so no item is frozen |
| Cryostasis.FirstAttributeTurn | src/cryostasis/__init__.py:112-119 | when freeze(obj) succeeded and obj has attributes, the first recursive call is on the first attribute value the loop takes, and what it froze follows obj directly |
| Cryostasis.RaiseBelowFirstAttribute | src/cryostasis/__init__.py:112-119 | an exception deeper down ends every loop in progress: when freeze raises on the only attribute value z of x, the first attribute value of obj, the walk raises it after freezing exactly obj, x and z |
| Cryostasis.SharedObjectStopsAtFirstAttribute | src/cryostasis/__init__.py:104-135 | for `root.a = x`, `root.c = y` and `x.b = y.b = object()`, deepfreeze(root) raises IndexError after freezing root, whichever of x and y comes first, and the object(); the other one is never frozen |
| Cryostasis.Heap.SetClassOnBuiltinOrSlots | src/_builtin_helpers.c:38-83 | the in-place helper rebinds the object's class exactly as the corrected `SetClass` does, and changes nothing when it raises; the heap stays closed |
| Cryostasis.Heap.Freeze | src/cryostasis/__init__.py:55-64 | freeze returns obj and updates only obj, to its frozen form; when it raises, obj is unchanged and the exception is that of FreezeNode; the heap stays closed |
| Cryostasis.Heap.DeepFreeze | src/cryostasis/__init__.py:67-137 | the objects frozen are exactly the visited ones, distinct and all reachable from the root; the walk stops at the first freeze that raises and raises its exception; it succeeds iff freeze succeeds on every reachable object, and then every reachable object is frozen or immutable; the heap stays closed; and the visited objects are the order of a traversal tree that is depth first at every level (`DepthFirst`): each call on an unseen object freezes it, stops there if freeze raises, and otherwise makes one recursive call per attribute value in the order of the attribute names and then, only if that loop ends without an exception and the object is not a str, one per item; a call on a seen object does nothing, and an exception ends every loop in progress |
| Cryostasis.Heap.Walk | src/cryostasis/__init__.py:104-135 | one call of `_deepfreeze`: an object already seen is returned with nothing changed and nothing frozen; otherwise what it froze is, in order, the traversal tree it returns, which is `DepthFirst` from the object at every level as for DeepFreeze; what it froze is exactly the newly seen objects, all reachable from it, and the heap is the starting heap with every seen object frozen |
| Cryostasis.Heap.WalkFrom | src/cryostasis/__init__.py:112-135 | after freeze(obj) succeeded, the two loops of `_deepfreeze`, with one depth-first subtree per recursive call: the attribute loop takes the values in the order of the names and runs to its end before the item loop starts (none for a str), and without an exception both run to their end |
| Cryostasis.Heap.WalkEach | src/cryostasis/__init__.py:118-119 | the loop over children makes one recursive call per child, in the order of the children, each one a depth-first traversal from its child that sees what the earlier calls froze; it stops early only at an exception, which then comes from the last call |
| Cryostasis.Heap.WalkChild | src/cryostasis/__init__.py:119 | turn i of that loop: the recursive call on child i extends the calls so far by exactly one depth-first traversal from that child |

## Left out

- Cryostasis.FreezeType: states the program with both corrections of "## Findings" applied. As written, `freeze` raises TypeError for an instance of a class that only inherits `__slots__` (stated by `BuiltinHelpers.RoutedButRefusedAsWritten`), and a frozen list's `clear()` raises TypeError (stated by `Detail.ListClearRefusedAsWritten`).
- Cryostasis.FreezeNode: the same corrections as `Cryostasis.FreezeType`.
- Cryostasis.Heap.Freeze: the same corrections, through `SetClassOnBuiltinOrSlots` and `FrozenTypeFor`.
- Cryostasis.Heap.DeepFreeze: the same corrections, through `Heap.Freeze`.
- Detail.FrozenTypeFor: uses the corrected list table, in which `clear` takes no argument.
- Detail.CreateDynamicFrozenType: the same correction as `Detail.FrozenTypeFor`.
- Detail.FrozenTypeFor: class identity is not modelled. A class is described by its contents, so two frozen lists get equal classes here, while in Python each call of freeze builds a distinct class (`type(freeze([])) is type(freeze([]))` is false).
- Cryostasis.Heap.DeepFreeze: Python's recursion limit is not modelled. A chain nested about 1000 deep makes the source raise RecursionError after freezing a prefix, so "succeeds iff freeze succeeds on every reachable object" holds only for graphs within that depth.
- Cryostasis.Heap.DeepFreeze: iteration is modelled as a finite sequence without side effects. An object whose `__getitem__` never raises IndexError makes `iter(obj)` endless (line 126 of src/cryostasis/__init__.py), and the source then never returns; user-defined `__iter__` and `__dict__` effects are not modelled either.
- thaw, deepthaw, is_frozen, exclusion sets, the frozen-type cache and the skipping of enum or unsupported classes: the code modelled here has none of these.
- The `cryo/` prototype, `setup.py` and the documentation configuration: they are not part of the library's core.
- The memory-layout work of the C helper: copying `tp_dictoffset` and `tp_weaklistoffset`, flag adjustments and reference counts (lines 53-83). It keeps the interpreter from crashing and has no effect on values the model observes. Its argument-parsing errors (lines 17-33) are left out too: freeze always passes an object and a class.
- Garbage collection, object identity beyond ids, and the interpreter's reflection machinery (descriptors, name mangling as a mechanism, method resolution order beyond the first base and `issubclass`). In particular the guards of src/cryostasis/detail.py:12-30 read `self.__freeze_attributes` and `self.__freeze_items` through the instance, so an entry `_Frozen__freeze_attributes` in the object's own `__dict__` would override the class flag; the model reads the flags from the class only.
- The order in which `vars(obj).values()` yields attributes: it is a dict's insertion order in Python, and here it is any order. All contracts hold for every order.
- Metaclasses, and `final` classes other than the built-ins: they are treated like any class statement.
- Cryostasis.FreezeType: does not distinguish the interpreter's individual `__class__`-assignment layout checks for user classes deriving from built-ins other than list, dict and set. Every class statement is taken to accept the assignment.
- Detail.ListMutatorsRaise, Detail.DictMutatorsRaise, Detail.SetMutatorsRaise: stated for classes deriving from one container class only. Python refuses a class deriving from two of list, dict and set.
- Detail.DictOverridesMatchDict: `update`'s keyword arguments are not modelled; only positional arguments are counted.
- Mutators that the source does not override (`list.sort`, `set.update`, ...) are modelled as forwarding to the original (`OtherMethodsForward`); what they do to the object is not modelled.
- Concurrency: the library has no threads of its own; callers racing freeze against other uses of the object are outside its contract.
- I/O: none in the core.

## Findings

| source | as written | input that shows it | evidently intended | confidence | as-written member | corrected member |
|---|---|---|---|---|---|---|
| src/_builtin_helpers.c:42 | the helper accepts a non-container only when `__slots__` is in the type's own `tp_dict`, while freeze (src/cryostasis/__init__.py:60) routes every class for which `hasattr(obj_type, "__slots__")` holds, inherited slots included | `class A: __slots__ = ()`, `class B(A): pass`, `freeze(B())` raises TypeError from the helper | the helper accepts every object freeze routes to it, looking `__slots__` up through the bases | not executed | BuiltinHelpers.RoutedButRefusedAsWritten | BuiltinHelpers.SetClassExactlyRouted |
| src/cryostasis/detail.py:52 | the list override of `clear` is a lambda taking `(self, x)` | `l = freeze([1, 2, 3]); l.clear()` raises TypeError for the missing argument, not ImmutableError | `clear` takes no argument besides self, as `list.clear` does and as the dict and set overrides of `clear` do, so that the call raises ImmutableError | not executed | Detail.ListClearRefusedAsWritten | Detail.ListMutatorsRaise |
