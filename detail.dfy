/**
 * cryostasis.detail: the Frozen guard class, the construction of a frozen
 * type for a given class, and the classes that are already immutable.
 */
module Detail {
  import opened Wrappers
  import opened Runtime

  /** IMMUTABLE_TYPES: instances of exactly these classes are left alone by freeze. */
  const ImmutableTypes: set<Type> :=
    {Builtin(Int), Builtin(Str), Builtin(Bytes), Builtin(Bool), Builtin(FrozenSet), Builtin(Tuple)}

  /**
   * The overrides a frozen list-derived type receives, each with the positional
   * parameters its lambda takes after self, as written: `clear` takes one.
   */
  const ListOverridesAsWritten: map<Method, Override> := map[
    Insert := RaiseImmutable(Arity(2, 0)), Append := RaiseImmutable(Arity(1, 0)),
    Clear := RaiseImmutable(Arity(1, 0)), Reverse := RaiseImmutable(Arity(0, 0)),
    Extend := RaiseImmutable(Arity(1, 0)), Pop := RaiseImmutable(Arity(0, 1)),
    Remove := RaiseImmutable(Arity(1, 0)), IAdd := RaiseImmutable(Arity(1, 0)),
    IMul := RaiseImmutable(Arity(1, 0))]

  /** The list overrides with `clear` taking no argument, as list.clear does; frozen types use these. */
  const ListOverrides: map<Method, Override> := ListOverridesAsWritten[Clear := RaiseImmutable(Arity(0, 0))]

  /** The overrides a frozen dict-derived type receives (keyword arguments of `update` aside). */
  const DictOverrides: map<Method, Override> := map[
    Pop := RaiseImmutable(Arity(1, 1)), PopItem := RaiseImmutable(Arity(0, 0)),
    Clear := RaiseImmutable(Arity(0, 0)), Update := RaiseImmutable(Arity(0, 1)),
    SetDefault := RaiseImmutable(Arity(1, 1)), IOr := RaiseImmutable(Arity(1, 0))]

  /** The overrides a frozen set-derived type receives. */
  const SetOverrides: map<Method, Override> := map[
    Add := RaiseImmutable(Arity(1, 0)), Discard := RaiseImmutable(Arity(1, 0)),
    Remove := RaiseImmutable(Arity(1, 0)), Pop := RaiseImmutable(Arity(0, 0)),
    Clear := RaiseImmutable(Arity(0, 0)), IOr := RaiseImmutable(Arity(1, 0)),
    IAnd := RaiseImmutable(Arity(1, 0)), IXor := RaiseImmutable(Arity(1, 0)),
    ISub := RaiseImmutable(Arity(1, 0))]

  /**
   * The positional parameters (after self) of the list, dict and set methods that
   * the overrides shadow, as the built-in classes define them; None for other names.
   */
  function BuiltinArity(k: BuiltinKind, m: Method): Option<Arity> {
    match (k, m)
    case (List, Insert) => Some(Arity(2, 0))     // insert(i, x)
    case (List, Append) => Some(Arity(1, 0))     // append(x)
    case (List, Clear) => Some(Arity(0, 0))      // clear()
    case (List, Reverse) => Some(Arity(0, 0))    // reverse()
    case (List, Extend) => Some(Arity(1, 0))     // extend(iterable)
    case (List, Pop) => Some(Arity(0, 1))        // pop([i])
    case (List, Remove) => Some(Arity(1, 0))     // remove(x)
    case (List, IAdd) => Some(Arity(1, 0))       // self += other
    case (List, IMul) => Some(Arity(1, 0))       // self *= n
    case (Dict, Pop) => Some(Arity(1, 1))        // pop(key[, default])
    case (Dict, PopItem) => Some(Arity(0, 0))    // popitem()
    case (Dict, Clear) => Some(Arity(0, 0))      // clear()
    case (Dict, Update) => Some(Arity(0, 1))     // update([other], **kwargs)
    case (Dict, SetDefault) => Some(Arity(1, 1)) // setdefault(key[, default])
    case (Dict, IOr) => Some(Arity(1, 0))        // self |= other
    case (Set, Add) => Some(Arity(1, 0))         // add(elem)
    case (Set, Discard) => Some(Arity(1, 0))     // discard(elem)
    case (Set, Remove) => Some(Arity(1, 0))      // remove(elem)
    case (Set, Pop) => Some(Arity(0, 0))         // pop()
    case (Set, Clear) => Some(Arity(0, 0))       // clear()
    case (Set, IOr) => Some(Arity(1, 0))         // self |= other
    case (Set, IAnd) => Some(Arity(1, 0))        // self &= other
    case (Set, IXor) => Some(Arity(1, 0))        // self ^= other
    case (Set, ISub) => Some(Arity(1, 0))        // self -= other
    case _ => None
  }

  /** The mangled names under which a frozen type stores its two flags. */
  const FreezeAttributesKey := "_Frozen__freeze_attributes"
  const FreezeItemsKey := "_Frozen__freeze_items"

  /** The class attributes a type itself defines for the two flags (Frozen's defaults are True). */
  function ClassAttributes(t: Type): map<string, bool> {
    match t
    case FrozenOf(_, fa, fi, _) => map[FreezeAttributesKey := fa, FreezeItemsKey := fi]
    case Frozen => map[FreezeAttributesKey := true, FreezeItemsKey := true]
    case _ => map[]
  }

  /** `self.__freeze_attributes` as the guards read it from the class. */
  function AttributeFlag(t: Type): bool {
    var attrs := ClassAttributes(t);
    if FreezeAttributesKey in attrs then attrs[FreezeAttributesKey] else true
  }

  /** `self.__freeze_items` as the guards read it from the class. */
  function ItemFlag(t: Type): bool {
    var attrs := ClassAttributes(t);
    if FreezeItemsKey in attrs then attrs[FreezeItemsKey] else true
  }

  // ---- The Frozen guards. `original` is the outcome of the original class's
  // ---- method (the `super()` call), which the guard returns when it does not raise.

  /** Frozen.__setattr__: raises ImmutableError when the flag is set, else forwards the original outcome. */
  function SetAttr(self: Node, original: Result<Node>): (r: Result<Node>)
    ensures r == original || r == Err(ImmutableError)
    ensures AttributeFlag(self.cls) ==> r.Err?
  {
    if AttributeFlag(self.cls) then Err(ImmutableError) else original
  }

  /** Frozen.__delattr__: raises ImmutableError when the flag is set, else forwards the original outcome. */
  function DelAttr(self: Node, original: Result<Node>): (r: Result<Node>)
    ensures r == original || r == Err(ImmutableError)
    ensures AttributeFlag(self.cls) ==> r.Err?
  {
    if AttributeFlag(self.cls) then Err(ImmutableError) else original
  }

  /** Frozen.__setitem__: raises ImmutableError when the flag is set, else forwards the original outcome. */
  function SetItem(self: Node, original: Result<Node>): (r: Result<Node>)
    ensures r == original || r == Err(ImmutableError)
    ensures ItemFlag(self.cls) ==> r.Err?
  {
    if ItemFlag(self.cls) then Err(ImmutableError) else original
  }

  /** Frozen.__delitem__: raises ImmutableError when the flag is set, else forwards the original outcome. */
  function DelItem(self: Node, original: Result<Node>): (r: Result<Node>)
    ensures r == original || r == Err(ImmutableError)
    ensures ItemFlag(self.cls) ==> r.Err?
  {
    if ItemFlag(self.cls) then Err(ImmutableError) else original
  }

  /**
   * Calling method `name` with argc positional arguments on self: an entry of a
   * frozen type's own method table that raises takes precedence, and raises
   * ImmutableError once the arguments bind to its lambda (TypeError when they do
   * not); any other method behaves as the original does.
   */
  function CallMethod(self: Node, name: Method, argc: nat, original: Result<Node>): (r: Result<Node>)
    ensures r == original || r == Err(ImmutableError) || r == Err(TypeError)
    ensures !self.cls.FrozenOf? ==> r == original
  {
    if self.cls.FrozenOf? && name in self.cls.methods && self.cls.methods[name].RaiseImmutable? then
      if Admits(self.cls.methods[name].arity, argc) then Err(ImmutableError) else Err(TypeError)
    else original
  }

  // ---- The frozen type built for a class ----

  /**
   * A frozen type's own method table: the repr, then the overrides for a list, dict
   * or set base, in the order _create_dynamic_frozen_type assigns them, so that a
   * later assignment replaces an earlier one of the same name.
   */
  function MethodTable(listOverrides: map<Method, Override>, isList: bool, isDict: bool, isSet: bool): map<Method, Override> {
    var withRepr := map[ReprMethod := WrapRepr];
    var withList := if isList then withRepr + listOverrides else withRepr;
    var withDict := if isDict then withList + DictOverrides else withList;
    if isSet then withDict + SetOverrides else withDict
  }

  /**
   * The type _create_dynamic_frozen_type builds for objType: bases (Frozen, objType),
   * the two flags as class attributes, and its own method table of overrides.
   */
  function FrozenTypeFor(objType: Type, fa: bool, fi: bool): (ft: Type)
    ensures ft.FrozenOf? && ft.orig == objType
    ensures Bases(ft) == [Frozen, objType]
    ensures Name(ft) == "Frozen" + Name(objType)
    ensures ClassAttributes(ft) == map[FreezeAttributesKey := fa, FreezeItemsKey := fi]
    ensures AttributeFlag(ft) == fa && ItemFlag(ft) == fi
    ensures IsSubclass(ft, Frozen)
  {
    FrozenOf(objType, fa, fi, MethodTable(ListOverrides, IsSubclass(objType, Builtin(List)),
                                          IsSubclass(objType, Builtin(Dict)),
                                          IsSubclass(objType, Builtin(Set))))
  }

  /** The type built from the list overrides as written, whose `clear` wants an argument. */
  function FrozenTypeForAsWritten(objType: Type, fa: bool, fi: bool): (ft: Type)
    ensures ft.FrozenOf? && ft.orig == objType && Bases(ft) == [Frozen, objType]
    ensures AttributeFlag(ft) == fa && ItemFlag(ft) == fi
  {
    FrozenOf(objType, fa, fi, MethodTable(ListOverridesAsWritten, IsSubclass(objType, Builtin(List)),
                                          IsSubclass(objType, Builtin(Dict)),
                                          IsSubclass(objType, Builtin(Set))))
  }

  /** A frozen type is still a subclass of everything its original class derives from. */
  lemma FrozenTypeKeepsAncestors(objType: Type, fa: bool, fi: bool, u: Type)
    requires IsSubclass(objType, u)
    ensures IsSubclass(FrozenTypeFor(objType, fa, fi), u)
  {
  }

  /**
   * The frozen type's method table holds the repr and exactly the overrides of the
   * container classes objType derives from; where two containers override the same
   * name, set's entry wins over dict's and dict's over list's.
   */
  lemma FrozenTypeMethods(objType: Type, fa: bool, fi: bool, m: Method)
    ensures var ft := FrozenTypeFor(objType, fa, fi);
      var isList, isDict, isSet := IsSubclass(objType, Builtin(List)), IsSubclass(objType, Builtin(Dict)),
                                   IsSubclass(objType, Builtin(Set));
      && (m in ft.methods <==>
           (m == ReprMethod || (isList && m in ListOverrides) || (isDict && m in DictOverrides)
            || (isSet && m in SetOverrides)))
      && (m in ft.methods ==> (ft.methods[m] ==
           if isSet && m in SetOverrides then SetOverrides[m]
           else if isDict && m in DictOverrides then DictOverrides[m]
           else if isList && m in ListOverrides then ListOverrides[m]
           else WrapRepr))
  {
    MethodTableEntries(ListOverrides, IsSubclass(objType, Builtin(List)), IsSubclass(objType, Builtin(Dict)),
                       IsSubclass(objType, Builtin(Set)), m);
  }

  lemma MethodTableEntries(listOverrides: map<Method, Override>, isList: bool, isDict: bool, isSet: bool, m: Method)
    requires ReprMethod !in listOverrides
    ensures var t := MethodTable(listOverrides, isList, isDict, isSet);
      && (m in t <==>
           (m == ReprMethod || (isList && m in listOverrides) || (isDict && m in DictOverrides)
            || (isSet && m in SetOverrides)))
      && (m in t ==> (t[m] ==
           if isSet && m in SetOverrides then SetOverrides[m]
           else if isDict && m in DictOverrides then DictOverrides[m]
           else if isList && m in listOverrides then listOverrides[m]
           else WrapRepr))
  {
  }

  /** Each list override takes the same positional parameters as the list method it shadows. */
  lemma ListOverridesMatchList(m: Method)
    ensures m in ListOverrides <==> BuiltinArity(List, m).Some?
    ensures m in ListOverrides ==> ListOverrides[m] == RaiseImmutable(BuiltinArity(List, m).value)
  {
    match m {
      case ReprMethod =>
      case Insert =>
      case Append =>
      case Clear =>
      case Reverse =>
      case Extend =>
      case Pop =>
      case Remove =>
      case IAdd =>
      case IMul =>
      case PopItem =>
      case Update =>
      case SetDefault =>
      case Add =>
      case Discard =>
      case IOr =>
      case IAnd =>
      case IXor =>
      case ISub =>
      case OtherMethod(_) =>
    }
  }

  /** Each dict override takes the same positional parameters as the dict method it shadows. */
  lemma DictOverridesMatchDict(m: Method)
    ensures m in DictOverrides <==> BuiltinArity(Dict, m).Some?
    ensures m in DictOverrides ==> DictOverrides[m] == RaiseImmutable(BuiltinArity(Dict, m).value)
  {
    match m {
      case ReprMethod =>
      case Insert =>
      case Append =>
      case Clear =>
      case Reverse =>
      case Extend =>
      case Pop =>
      case Remove =>
      case IAdd =>
      case IMul =>
      case PopItem =>
      case Update =>
      case SetDefault =>
      case Add =>
      case Discard =>
      case IOr =>
      case IAnd =>
      case IXor =>
      case ISub =>
      case OtherMethod(_) =>
    }
  }

  /** Each set override takes the same positional parameters as the set method it shadows. */
  lemma SetOverridesMatchSet(m: Method)
    ensures m in SetOverrides <==> BuiltinArity(Set, m).Some?
    ensures m in SetOverrides ==> SetOverrides[m] == RaiseImmutable(BuiltinArity(Set, m).value)
  {
    match m {
      case ReprMethod =>
      case Insert =>
      case Append =>
      case Clear =>
      case Reverse =>
      case Extend =>
      case Pop =>
      case Remove =>
      case IAdd =>
      case IMul =>
      case PopItem =>
      case Update =>
      case SetDefault =>
      case Add =>
      case Discard =>
      case IOr =>
      case IAnd =>
      case IXor =>
      case ISub =>
      case OtherMethod(_) =>
    }
  }

  /**
   * _create_dynamic_frozen_type: `type()` builds the class (and raises TypeError for
   * a base it refuses), then the repr and the container overrides are assigned in turn.
   */
  method CreateDynamicFrozenType(objType: Type, frAttr: bool, frItem: bool) returns (r: Result<Type>)
    ensures r.Ok? <==> AcceptableBase(objType)
    ensures r.Err? ==> r.error == TypeError
    ensures r.Ok? ==> r.value == FrozenTypeFor(objType, frAttr, frItem)
  {
    if !AcceptableBase(objType) {
      return Err(TypeError);
    }
    var methods: map<Method, Override> := map[ReprMethod := WrapRepr];
    if IsSubclass(objType, Builtin(List)) {
      methods := methods + ListOverrides;
    }
    if IsSubclass(objType, Builtin(Dict)) {
      methods := methods + DictOverrides;
    }
    if IsSubclass(objType, Builtin(Set)) {
      methods := methods + SetOverrides;
    }
    r := Ok(FrozenOf(objType, frAttr, frItem, methods));
  }

  // ---- Representation ----

  const ReprPrefix := "<Frozen("
  const ReprSuffix := ")>"

  /** The frozen type's __repr__: the original representation enclosed in `<Frozen(...)>`. */
  function FrozenRepr(originalRepr: string): (s: string)
    ensures |s| == |originalRepr| + |ReprPrefix| + |ReprSuffix|
    ensures s[..|ReprPrefix|] == ReprPrefix && s[|s| - |ReprSuffix|..] == ReprSuffix
    ensures s != originalRepr
  {
    ReprPrefix + originalRepr + ReprSuffix
  }

  /** `repr(self)`, given what the original class's __repr__ returns for self. */
  function Repr(self: Node, originalRepr: string): (s: string)
    ensures s == originalRepr || s == FrozenRepr(originalRepr)
    ensures !self.cls.FrozenOf? ==> s == originalRepr
  {
    if self.cls.FrozenOf? && ReprMethod in self.cls.methods && self.cls.methods[ReprMethod] == WrapRepr
    then FrozenRepr(originalRepr)
    else originalRepr
  }

  /** str.removeprefix */
  function RemovePrefix(s: string, prefix: string): string {
    if |prefix| <= |s| && s[..|prefix|] == prefix then s[|prefix|..] else s
  }

  /** str.removesuffix */
  function RemoveSuffix(s: string, suffix: string): string {
    if |suffix| <= |s| && s[|s| - |suffix|..] == suffix then s[..|s| - |suffix|] else s
  }

  /** Stripping `<Frozen(` and `)>` off a frozen repr gives back the original repr. */
  lemma {:induction false} FrozenReprRoundTrip(originalRepr: string)
    ensures RemoveSuffix(RemovePrefix(FrozenRepr(originalRepr), ReprPrefix), ReprSuffix) == originalRepr
  {
    var s := FrozenRepr(originalRepr);
    assert s == ReprPrefix + (originalRepr + ReprSuffix);
    assert s[|ReprPrefix|..] == originalRepr + ReprSuffix;
    var t := originalRepr + ReprSuffix;
    assert t[|t| - |ReprSuffix|..] == ReprSuffix;
    assert t[..|t| - |ReprSuffix|] == originalRepr;
  }

  // ---- Guard properties on a type built by FrozenTypeFor ----

  /**
   * Attribute assignment on a frozen object raises ImmutableError whenever
   * freeze_attributes was set, before object.__setattr__ is reached; otherwise it is
   * object.__setattr__: the value reads back, or AttributeError without a __dict__.
   */
  lemma AttributeAssignmentGuard(n: Node, objType: Type, fa: bool, fi: bool, name: string, value: Id, original: Result<Node>)
    requires n.cls == FrozenTypeFor(objType, fa, fi)
    ensures fa ==> SetAttr(n, original) == Err(ImmutableError)
    ensures !fa ==> SetAttr(n, original) == original
    ensures !fa && n.attrs.Some? ==>
      var r := SetAttr(n, ObjectSetAttr(n, name, value));
      r.Ok? && GetAttr(r.value, name) == Some(value) && r.value.cls == n.cls
    ensures !fa && n.attrs.None? ==> SetAttr(n, ObjectSetAttr(n, name, value)) == Err(AttributeError)
  {
  }

  /**
   * Attribute deletion on a frozen object raises ImmutableError whenever
   * freeze_attributes was set, whether or not the attribute exists; otherwise it is
   * object.__delattr__: the attribute is gone, or AttributeError when it was missing.
   */
  lemma AttributeDeletionGuard(n: Node, objType: Type, fa: bool, fi: bool, name: string, original: Result<Node>)
    requires n.cls == FrozenTypeFor(objType, fa, fi)
    ensures fa ==> DelAttr(n, original) == Err(ImmutableError)
    ensures !fa ==> DelAttr(n, original) == original
    ensures !fa && GetAttr(n, name).Some? ==>
      var r := DelAttr(n, ObjectDelAttr(n, name));
      r.Ok? && GetAttr(r.value, name) == None && r.value.cls == n.cls
    ensures !fa && GetAttr(n, name).None? ==> DelAttr(n, ObjectDelAttr(n, name)) == Err(AttributeError)
  {
  }

  /**
   * Item assignment on a frozen object raises ImmutableError whenever freeze_items
   * was set, whatever the index; otherwise the original __setitem__ runs, and for a
   * list the element reads back, or IndexError for an index out of range.
   */
  lemma ItemAssignmentGuard(n: Node, objType: Type, fa: bool, fi: bool, i: int, value: Id, original: Result<Node>)
    requires n.cls == FrozenTypeFor(objType, fa, fi)
    ensures fi ==> SetItem(n, original) == Err(ImmutableError)
    ensures !fi ==> SetItem(n, original) == original
    ensures !fi && IsSubclass(objType, Builtin(List)) && ListGetItem(n, i).Ok? ==>
      var r := SetItem(n, ListSetItem(n, i, value));
      r.Ok? && ListGetItem(r.value, i) == Ok(value) && r.value.cls == n.cls
    ensures !fi && IsSubclass(objType, Builtin(List)) && n.items.Some? && ListGetItem(n, i).Err? ==>
      SetItem(n, ListSetItem(n, i, value)) == Err(IndexError)
  {
  }

  /**
   * Item deletion on a frozen object raises ImmutableError whenever freeze_items was
   * set, whatever the index; otherwise the original __delitem__ runs, and for a list
   * exactly the indexed element is removed, or IndexError for an index out of range.
   */
  lemma ItemDeletionGuard(n: Node, objType: Type, fa: bool, fi: bool, i: int, original: Result<Node>)
    requires n.cls == FrozenTypeFor(objType, fa, fi)
    ensures fi ==> DelItem(n, original) == Err(ImmutableError)
    ensures !fi ==> DelItem(n, original) == original
    ensures !fi && IsSubclass(objType, Builtin(List)) && ListGetItem(n, i).Ok? ==>
      var r := DelItem(n, ListDelItem(n, i));
      var s := n.items.value;
      var k := ListIndex(i, |s|).value;
      r.Ok? && r.value.items == Some(s[..k] + s[k + 1..]) && r.value.cls == n.cls
    ensures !fi && IsSubclass(objType, Builtin(List)) && n.items.Some? && ListGetItem(n, i).Err? ==>
      DelItem(n, ListDelItem(n, i)) == Err(IndexError)
  {
  }

  /**
   * The two flags are independent: the attribute guards do not depend on
   * freeze_items and the item guards do not depend on freeze_attributes.
   */
  lemma FlagsAreIndependent(n: Node, objType: Type, fa: bool, fa': bool, fi: bool, fi': bool, original: Result<Node>)
    ensures SetAttr(n.(cls := FrozenTypeFor(objType, fa, fi)), original)
         == SetAttr(n.(cls := FrozenTypeFor(objType, fa, fi')), original)
    ensures DelAttr(n.(cls := FrozenTypeFor(objType, fa, fi)), original)
         == DelAttr(n.(cls := FrozenTypeFor(objType, fa, fi')), original)
    ensures SetItem(n.(cls := FrozenTypeFor(objType, fa, fi)), original)
         == SetItem(n.(cls := FrozenTypeFor(objType, fa', fi)), original)
    ensures DelItem(n.(cls := FrozenTypeFor(objType, fa, fi)), original)
         == DelItem(n.(cls := FrozenTypeFor(objType, fa', fi)), original)
  {
  }

  /*
   * In the three lemmas below the object's class derives from one container class
   * only; Python refuses a class deriving from two of them (their layouts conflict).
   */

  /** On a frozen list-derived object a call that list's own mutator would accept raises ImmutableError. */
  lemma ListMutatorsRaise(n: Node, objType: Type, fa: bool, fi: bool, name: Method, argc: nat, original: Result<Node>)
    requires n.cls == FrozenTypeFor(objType, fa, fi) && IsSubclass(objType, Builtin(List))
    requires !IsSubclass(objType, Builtin(Dict)) && !IsSubclass(objType, Builtin(Set))
    requires BuiltinArity(List, name).Some? && Admits(BuiltinArity(List, name).value, argc)
    ensures CallMethod(n, name, argc, original) == Err(ImmutableError)
  {
    FrozenTypeMethods(objType, fa, fi, name);
    ListOverridesMatchList(name);
    DictOverridesMatchDict(name);
    SetOverridesMatchSet(name);
  }

  /** On a frozen dict-derived object a call that dict's own mutator would accept raises ImmutableError. */
  lemma DictMutatorsRaise(n: Node, objType: Type, fa: bool, fi: bool, name: Method, argc: nat, original: Result<Node>)
    requires n.cls == FrozenTypeFor(objType, fa, fi) && IsSubclass(objType, Builtin(Dict))
    requires !IsSubclass(objType, Builtin(Set))
    requires BuiltinArity(Dict, name).Some? && Admits(BuiltinArity(Dict, name).value, argc)
    ensures CallMethod(n, name, argc, original) == Err(ImmutableError)
  {
    FrozenTypeMethods(objType, fa, fi, name);
    ListOverridesMatchList(name);
    DictOverridesMatchDict(name);
    SetOverridesMatchSet(name);
  }

  /** On a frozen set-derived object a call that set's own mutator would accept raises ImmutableError. */
  lemma SetMutatorsRaise(n: Node, objType: Type, fa: bool, fi: bool, name: Method, argc: nat, original: Result<Node>)
    requires n.cls == FrozenTypeFor(objType, fa, fi) && IsSubclass(objType, Builtin(Set))
    requires BuiltinArity(Set, name).Some? && Admits(BuiltinArity(Set, name).value, argc)
    ensures CallMethod(n, name, argc, original) == Err(ImmutableError)
  {
    FrozenTypeMethods(objType, fa, fi, name);
    ListOverridesMatchList(name);
    DictOverridesMatchDict(name);
    SetOverridesMatchSet(name);
  }

  /** Whatever arguments are passed, an overridden mutator never reaches the original method. */
  lemma MutatorsNeverRun(n: Node, objType: Type, fa: bool, fi: bool, name: Method, argc: nat, original: Result<Node>)
    requires n.cls == FrozenTypeFor(objType, fa, fi)
    requires (name in ListOverrides && IsSubclass(objType, Builtin(List)))
          || (name in DictOverrides && IsSubclass(objType, Builtin(Dict)))
          || (name in SetOverrides && IsSubclass(objType, Builtin(Set)))
    ensures CallMethod(n, name, argc, original) in {Err(ImmutableError), Err(TypeError)}
  {
    FrozenTypeMethods(objType, fa, fi, name);
    ListOverridesMatchList(name);
    DictOverridesMatchDict(name);
    SetOverridesMatchSet(name);
  }

  /** Any other method, and every method of a non-container class, keeps its original behaviour. */
  lemma OtherMethodsForward(n: Node, objType: Type, fa: bool, fi: bool, name: Method, argc: nat, original: Result<Node>)
    requires n.cls == FrozenTypeFor(objType, fa, fi)
    requires name !in ListOverrides || !IsSubclass(objType, Builtin(List))
    requires name !in DictOverrides || !IsSubclass(objType, Builtin(Dict))
    requires name !in SetOverrides || !IsSubclass(objType, Builtin(Set))
    ensures CallMethod(n, name, argc, original) == original
  {
    FrozenTypeMethods(objType, fa, fi, name);
  }

  /**
   * As written, `clear()` on a frozen list raises TypeError for the missing argument
   * of its lambda, although list.clear takes none: the list is left unchanged, but
   * not with the ImmutableError every other accepted call gives.
   */
  lemma ListClearRefusedAsWritten(n: Node, fa: bool, fi: bool, original: Result<Node>)
    requires n.cls == FrozenTypeForAsWritten(Builtin(List), fa, fi)
    ensures BuiltinArity(List, Clear) == Some(Arity(0, 0))
    ensures CallMethod(n, Clear, 0, original) == Err(TypeError)
  {
    MethodTableEntries(ListOverridesAsWritten, true, false, false, Clear);
  }
}
