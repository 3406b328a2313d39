/**
 * The C helper _set_class_on_builtin_or_slots, which rebinds the class of objects
 * whose layout forbids `obj.__class__ = ...`, compared with the condition under
 * which freeze hands an object to it.
 */
module BuiltinHelpers {
  import opened Wrappers
  import opened Runtime

  /** freeze calls the helper for list, set and dict objects and for classes with `__slots__`. */
  predicate RoutedToHelper(t: Type) {
    IsContainer(t) || HasSlots(t)
  }

  /**
   * The helper's guard as written: a list/dict/set subtype, or "__slots__" among
   * the entries of the type's OWN dict.
   */
  predicate AcceptsAsWritten(t: Type): (b: bool)
    ensures b ==> RoutedToHelper(t)
  {
    IsContainer(t) || OwnSlots(t)
  }

  /**
   * _set_class_on_builtin_or_slots(obj, new_class) as written: rebinds the class of
   * an object its guard accepts and raises TypeError for any other.
   */
  function SetClassAsWritten(n: Node, newClass: Type): (r: Result<Node>)
    ensures r.Ok? ==> r.value.attrs == n.attrs && r.value.items == n.items && r.value.values == n.values
  {
    if AcceptsAsWritten(n.cls) then Ok(n.(cls := newClass)) else Err(TypeError)
  }

  /**
   * The helper with the guard it evidently intends: `__slots__` looked up through
   * the base classes, as `hasattr` does.
   */
  function SetClass(n: Node, newClass: Type): (r: Result<Node>)
    ensures r.Ok? ==> r.value.attrs == n.attrs && r.value.items == n.items && r.value.values == n.values
  {
    if IsContainer(n.cls) || HasSlots(n.cls) then Ok(n.(cls := newClass)) else Err(TypeError)
  }

  /** An instance of B, where `class A: __slots__ = ()` and `class B(A): pass`. */
  function SlottedSubclassInstance(): Node {
    Node(Class("B", [Class("A", [], true)], false), Some(map[]), None, [])
  }

  /** freeze routes an instance of B to the helper, and the helper as written refuses it. */
  lemma RoutedButRefusedAsWritten(newClass: Type)
    ensures RoutedToHelper(SlottedSubclassInstance().cls)
    ensures SetClassAsWritten(SlottedSubclassInstance(), newClass) == Err(TypeError)
  {
    var a := Class("A", [], true);
    assert a in SlottedSubclassInstance().cls.bases && HasSlots(a);
    assert !IsSubclass(a, Builtin(List)) && !IsSubclass(a, Builtin(Set)) && !IsSubclass(a, Builtin(Dict));
  }

  /**
   * The corrected helper succeeds on exactly the objects freeze routes to it, and
   * then changes the object's class and nothing else; it accepts whatever the
   * helper as written accepts, with the same result.
   */
  lemma SetClassExactlyRouted(n: Node, newClass: Type)
    ensures SetClass(n, newClass).Ok? <==> RoutedToHelper(n.cls)
    ensures SetClass(n, newClass).Ok? ==> SetClass(n, newClass).value == n.(cls := newClass)
    ensures SetClass(n, newClass).Err? ==> SetClass(n, newClass).error == TypeError
    ensures SetClassAsWritten(n, newClass).Ok? ==> SetClass(n, newClass) == SetClassAsWritten(n, newClass)
  {
  }
}
