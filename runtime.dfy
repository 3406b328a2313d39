/**
 * The part of Python's object model that freezing observes: classes with their
 * bases, and objects as heap nodes that refer to other objects by id.
 */
module Runtime {
  import opened Wrappers

  /** An object's identity, `id(obj)`. */
  type Id = nat

  /** Built-in classes the freezing code names, and every other built-in. */
  datatype BuiltinKind =
    | Int | Str | Bytes | Bool | FrozenSet | Tuple
    | List | Dict | Set
    | Module                                  // types.ModuleType
    | Other(name: string, subclassable: bool)  // float, NoneType, function, type, ...

  /** Names of the methods a frozen type may define itself; any other name is OtherMethod. */
  datatype Method =
    | ReprMethod
    | Insert | Append | Clear | Reverse | Extend | Pop | Remove | IAdd | IMul
    | PopItem | Update | SetDefault
    | Add | Discard | IOr | IAnd | IXor | ISub
    | OtherMethod(name: string)

  /** How many positional arguments (after self) a method takes: `required`, then up to `optional` more. */
  datatype Arity = Arity(required: nat, optional: nat)

  /** A call with argc positional arguments binds to a method of arity a. */
  predicate Admits(a: Arity, argc: nat) {
    a.required <= argc <= a.required + a.optional
  }

  /** What an entry of a frozen type's own method table does. */
  datatype Override =
    | WrapRepr                    // `__repr__` enclosing the original repr in `<Frozen(...)>`
    | RaiseImmutable(arity: Arity)  // a lambda that raises ImmutableError once its arguments bind

  /** A class, as far as freezing distinguishes classes. */
  datatype Type =
    | Object
    | Builtin(kind: BuiltinKind)
    | Class(name: string, bases: seq<Type>, slots: bool)  // a class statement; `slots`: its body defines __slots__
    | Frozen                                            // cryostasis.detail.Frozen itself
    | FrozenOf(orig: Type, freezeAttributes: bool, freezeItems: bool, methods: map<Method, Override>)
      // a type built by _create_dynamic_frozen_type; `methods` is its own method table

  function BuiltinName(k: BuiltinKind): string {
    match k
    case Int => "int"
    case Str => "str"
    case Bytes => "bytes"
    case Bool => "bool"
    case FrozenSet => "frozenset"
    case Tuple => "tuple"
    case List => "list"
    case Dict => "dict"
    case Set => "set"
    case Module => "module"
    case Other(name, _) => name
  }

  /** `t.__name__` */
  function Name(t: Type): string {
    match t
    case Object => "object"
    case Builtin(k) => BuiltinName(k)
    case Class(name, _, _) => name
    case Frozen => "Frozen"
    case FrozenOf(orig, _, _, _) => "Frozen" + Name(orig)
  }

  /** `t.__bases__`; a class statement without bases gets `(object,)`. */
  function Bases(t: Type): seq<Type> {
    match t
    case Object => []
    case Builtin(k) => if k == Bool then [Builtin(Int)] else [Object]
    case Class(_, bases, _) => if bases == [] then [Object] else bases
    case Frozen => [Object]
    case FrozenOf(orig, _, _, _) => [Frozen, orig]
  }

  /** `issubclass(t, u)`: u is t or one of its ancestors; every class derives from object. */
  predicate IsSubclass(t: Type, u: Type) {
    t == u || u == Object ||
    match t
    case Builtin(k) => k == Bool && u == Builtin(Int)
    case Class(_, bases, _) => exists b | b in bases :: IsSubclass(b, u)
    case FrozenOf(orig, _, _, _) => u == Frozen || IsSubclass(orig, u)
    case _ => false
  }

  /** `hasattr(t, "__slots__")`: t or an ancestor class defines __slots__. */
  predicate HasSlots(t: Type) {
    match t
    case Class(_, bases, slots) => slots || exists b | b in bases :: HasSlots(b)
    case FrozenOf(orig, _, _, _) => HasSlots(orig)
    case _ => false
  }

  /** `"__slots__" in t.__dict__`: t's own body defines __slots__. */
  predicate OwnSlots(t: Type) {
    t.Class? && t.slots
  }

  /** Instances of t are list, set or dict objects (possibly of a subclass). */
  predicate IsContainer(t: Type) {
    IsSubclass(t, Builtin(List)) || IsSubclass(t, Builtin(Set)) || IsSubclass(t, Builtin(Dict))
  }

  /**
   * Classes whose instances accept `obj.__class__ = other` for a class derived from
   * theirs: classes created at run time by a class statement or `type()`, and
   * modules (the interpreter allows the assignment between ModuleType subclasses).
   * Other built-in classes refuse it.
   */
  predicate ClassAssignable(t: Type) {
    t.Class? || t.Frozen? || t.FrozenOf? || t == Builtin(Module)
  }

  /**
   * Whether `type(name, (Frozen, t), ...)` accepts t as the second base: bool and the
   * other final built-ins are not acceptable base types, Frozen itself would be a
   * duplicate base, and a class deriving from Frozen leaves no consistent MRO
   * (Frozen would have to come both before and after it).
   */
  predicate AcceptableBase(t: Type) {
    !IsSubclass(t, Frozen) &&
    match t
    case Builtin(Bool) => false
    case Builtin(Other(_, subclassable)) => subclassable
    case _ => true
  }

  /**
   * An object: its class, `vars(obj)` (None when vars raises TypeError), the items
   * `iter(obj)` yields (None when iter raises TypeError) and, for dicts, `obj.values()`.
   */
  datatype Node = Node(cls: Type, attrs: Option<map<string, Id>>, items: Option<seq<Id>>, values: seq<Id>)

  /** Every object a node refers to. */
  function Refs(n: Node): set<Id> {
    (if n.attrs.Some? then n.attrs.value.Values else {})
      + (if n.items.Some? then (set x | x in n.items.value) else {})
      + (set x | x in n.values)
  }

  // ---- Original behaviours that the Frozen guards forward to ----

  /** `getattr(self, name, None)` for an attribute stored in the instance __dict__. */
  function GetAttr(self: Node, name: string): Option<Id> {
    if self.attrs.Some? && name in self.attrs.value then Some(self.attrs.value[name]) else None
  }

  /** object.__setattr__: stores into the instance __dict__; objects without one raise AttributeError. */
  function ObjectSetAttr(self: Node, name: string, value: Id): (r: Result<Node>)
    ensures r.Ok? <==> self.attrs.Some?
    ensures r.Ok? ==> GetAttr(r.value, name) == Some(value)
    ensures r.Ok? ==> forall other :: other != name ==> GetAttr(r.value, other) == GetAttr(self, other)
    ensures r.Ok? ==> r.value.cls == self.cls && r.value.items == self.items && r.value.values == self.values
  {
    match self.attrs
    case None => Err(AttributeError)
    case Some(d) => Ok(self.(attrs := Some(d[name := value])))
  }

  /** object.__delattr__: removes from the instance __dict__; a missing name raises AttributeError. */
  function ObjectDelAttr(self: Node, name: string): (r: Result<Node>)
    ensures r.Ok? <==> GetAttr(self, name).Some?
    ensures r.Ok? ==> GetAttr(r.value, name) == None
    ensures r.Ok? ==> forall other :: other != name ==> GetAttr(r.value, other) == GetAttr(self, other)
    ensures r.Ok? ==> r.value.cls == self.cls && r.value.items == self.items && r.value.values == self.values
  {
    match self.attrs
    case None => Err(AttributeError)
    case Some(d) => if name in d then Ok(self.(attrs := Some(d - {name}))) else Err(AttributeError)
  }

  /** Python's reading of index i into a sequence of length len: negative indices count from the end. */
  function ListIndex(i: int, len: nat): (k: Option<nat>)
    ensures k.Some? <==> -(len as int) <= i < len
    ensures k.Some? ==> k.value < len && (k.value == i || k.value == i + len)
  {
    if 0 <= i < len then Some(i) else if -(len as int) <= i < 0 then Some(i + len) else None
  }

  /** list.__getitem__ with an integer index. */
  function ListGetItem(self: Node, i: int): (r: Result<Id>)
    ensures r.Ok? <==> self.items.Some? && -|self.items.value| <= i < |self.items.value|
  {
    match self.items
    case None => Err(TypeError)
    case Some(s) =>
      match ListIndex(i, |s|)
      case None => Err(IndexError)
      case Some(k) => Ok(s[k])
  }

  /** list.__setitem__ with an integer index: replaces one element in place. */
  function ListSetItem(self: Node, i: int, value: Id): (r: Result<Node>)
    ensures r.Ok? <==> ListGetItem(self, i).Ok?
    ensures r.Ok? ==> ListGetItem(r.value, i) == Ok(value)
    ensures r.Ok? ==> r.value.items.Some? && |r.value.items.value| == |self.items.value|
    ensures r.Ok? ==> forall j :: ListIndex(j, |self.items.value|).Some? && ListIndex(j, |self.items.value|) != ListIndex(i, |self.items.value|)
                               ==> ListGetItem(r.value, j) == ListGetItem(self, j)
    ensures r.Ok? ==> r.value.cls == self.cls && r.value.attrs == self.attrs && r.value.values == self.values
  {
    match self.items
    case None => Err(TypeError)
    case Some(s) =>
      match ListIndex(i, |s|)
      case None => Err(IndexError)
      case Some(k) => Ok(self.(items := Some(s[k := value])))
  }

  /** list.__delitem__ with an integer index: removes one element, later ones move down. */
  function ListDelItem(self: Node, i: int): (r: Result<Node>)
    ensures r.Ok? <==> ListGetItem(self, i).Ok?
    ensures r.Ok? ==> r.value.items.Some? && |r.value.items.value| == |self.items.value| - 1
    ensures r.Ok? ==> var k := ListIndex(i, |self.items.value|).value;
                      r.value.items.value == self.items.value[..k] + self.items.value[k + 1..]
    ensures r.Ok? ==> r.value.cls == self.cls && r.value.attrs == self.attrs && r.value.values == self.values
  {
    match self.items
    case None => Err(TypeError)
    case Some(s) =>
      match ListIndex(i, |s|)
      case None => Err(IndexError)
      case Some(k) => Ok(self.(items := Some(s[..k] + s[k + 1..])))
  }
}
