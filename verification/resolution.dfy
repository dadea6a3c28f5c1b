/**
 Properties of type resolution: what `Get` may return after the mapping
 primitives, which step takes precedence, where a found value comes from,
 and when the answer is unique.
 */
module Resolution {
  import opened Wrappers
  import opened Types
  import opened Registry

  /** A valid exact entry wins over implementors and over the parent. */
  lemma ExactPrecedence(inj: Injector, t: TypeKey, r: Value)
    requires Lookup(inj.values, t).Valid?
    ensures MayGet(inj, t, r) <==> r == Lookup(inj.values, t)
  {
  }

  /** After `Set(t, v)` with `v` valid, `Get(t)` returns exactly `v`. */
  lemma SetThenGet(inj: Injector, t: TypeKey, v: Value, r: Value)
    requires v.Valid?
    ensures MayGet(Set(inj, t, v), t, r) <==> r == v
  {
    ExactPrecedence(Set(inj, t, v), t, r);
  }

  /** `Set(k, v)` leaves the resolution of every other non-interface type
      unchanged: distinct keys, such as a defined pointer type `P` and the
      unnamed `*int` it is defined as, do not see each other's entries. */
  lemma SetLeavesOtherTypes(inj: Injector, k: TypeKey, v: Value, t: TypeKey, r: Value)
    requires !t.Interface? && t != k
    ensures MayGet(Set(inj, k, v), t, r) <==> MayGet(inj, t, r)
  {
    var after := Set(inj, k, v);
    if Lookup(inj.values, t).Valid? {
      ExactPrecedence(inj, t, r);
      ExactPrecedence(after, t, r);
    } else {
      NonInterfaceSkipsScan(inj, t, r);
      NonInterfaceSkipsScan(after, t, r);
    }
  }

  /** Distinct unnamed types are distinct keys: an entry for `[]int` is not
      an answer for `[]string`, nor one for `<-chan int` for `chan<- int`. */
  lemma UnnamedTypesAreDistinct(inj: Injector, v: Value, r: Value)
    ensures MayGet(Set(inj, Other("[]int", {}), v), Other("[]string", {}), r) <==> MayGet(inj, Other("[]string", {}), r)
    ensures MayGet(Set(inj, Other("<-chan int", {}), v), Other("chan<- int", {}), r) <==> MayGet(inj, Other("chan<- int", {}), r)
  {
    SetLeavesOtherTypes(inj, Other("[]int", {}), v, Other("[]string", {}), r);
    SetLeavesOtherTypes(inj, Other("<-chan int", {}), v, Other("chan<- int", {}), r);
  }

  /** After `Map(v)`, `Get` of the value's own type returns exactly `v`. */
  lemma MapThenGet(inj: Injector, v: Value, r: Value)
    requires v.Valid?
    ensures MayGet(Map(inj, v), v.ty, r) <==> r == v
  {
    SetThenGet(inj, v.ty, v, r);
  }

  /** Mapping a second value of the same type overwrites the first. */
  lemma RemapOverwrites(inj: Injector, v1: Value, v2: Value, r: Value)
    requires v1.Valid? && v2.Valid? && v1.ty == v2.ty
    ensures MayGet(Map(Map(inj, v1), v2), v1.ty, r) <==> r == v2
  {
    MapThenGet(Map(inj, v1), v2, r);
  }

  /** After `MapTo(v, (*I)(nil))`, `Get(I)` returns exactly `v`. */
  lemma MapToThenGet(inj: Injector, v: Value, i: TypeKey, layers: seq<Layer>, r: Value)
    requires v.Valid? && i.Interface?
    ensures MapTo(inj, v, PointerTo(i, layers)).Success?
    ensures MayGet(MapTo(inj, v, PointerTo(i, layers)).value, i, r) <==> r == v
  {
    InterfaceOfPointer(i, layers);
    SetThenGet(inj, i, v, r);
  }

  /** A fresh registry resolves nothing. */
  lemma NewFindsNothing(t: TypeKey, r: Value)
    ensures MayGet(New(), t, r) <==> r == Invalid
  {
    assert forall k :: !Candidate(New().values, t, k);
  }

  /** The implementor scan runs only for interface types: for any other type
      a miss on the exact key goes straight to the parent. */
  lemma NonInterfaceSkipsScan(inj: Injector, t: TypeKey, r: Value)
    requires !t.Interface? && !Lookup(inj.values, t).Valid?
    ensures MayGet(inj, t, r) <==> ParentMay(inj, t, r)
  {
    assert forall k :: !Candidate(inj.values, t, k);
  }

  /** An entry holding the zero Value counts as not found: for a
      non-interface type it resolves as if the key were absent. */
  lemma InvalidEntryIsMissing(inj: Injector, t: TypeKey, r: Value)
    requires !t.Interface?
    ensures MayGet(Set(inj, t, Invalid), t, r) <==> MayGet(inj.(values := inj.values - {t}), t, r)
  {
    NonInterfaceSkipsScan(Set(inj, t, Invalid), t, r);
    NonInterfaceSkipsScan(inj.(values := inj.values - {t}), t, r);
  }

  /** With no parent and neither an exact entry nor an implementor, `Get`
      returns the zero Value. */
  lemma NotFoundWithoutParent(inj: Injector, t: TypeKey, r: Value)
    requires inj.parent.None?
    requires !Lookup(inj.values, t).Valid?
    requires forall k :: !Candidate(inj.values, t, k)
    ensures MayGet(inj, t, r) <==> r == Invalid
  {
  }

  /** With neither an exact entry nor an implementor in the child, the child
      answers exactly as its parent does. */
  lemma DelegatesToParent(inj: Injector, p: Injector, t: TypeKey, r: Value)
    requires !Lookup(inj.values, t).Valid?
    requires forall k :: !Candidate(inj.values, t, k)
    ensures MayGet(SetParent(inj, Some(p)), t, r) <==> MayGet(p, t, r)
  {
  }

  /** A value mapped in the child shadows whatever the parent holds. */
  lemma ChildShadowsParent(inj: Injector, p: Injector, t: TypeKey, r: Value)
    requires Lookup(inj.values, t).Valid?
    ensures MayGet(SetParent(inj, Some(p)), t, r) <==> r == Lookup(inj.values, t)
  {
    ExactPrecedence(SetParent(inj, Some(p)), t, r);
  }

  /** The scan stops at an implementing key even when its entry is the zero
      Value; the parent is then asked, though another local implementor may
      hold a valid value. */
  lemma InvalidImplementorDelegates(inj: Injector, p: Injector, t: TypeKey, k: TypeKey, r: Value)
    requires !Lookup(inj.values, t).Valid?
    requires Candidate(inj.values, t, k) && inj.values[k] == Invalid
    requires MayGet(p, t, r)
    ensures MayGet(SetParent(inj, Some(p)), t, r)
  {
    assert ScanMay(inj.values, t, Invalid);
  }

  /** A zero Value stored under the interface itself can stop the scan at
      that key, since an interface implements itself; every parent answer is
      then a possible result. */
  lemma InvalidInterfaceEntryDelegates(inj: Injector, p: Injector, t: TypeKey, r: Value)
    requires t.Interface? && t in inj.values && inj.values[t] == Invalid
    requires MayGet(p, t, r)
    ensures MayGet(SetParent(inj, Some(p)), t, r)
  {
    InterfaceImplementsItself(t);
    InvalidImplementorDelegates(inj, p, t, t, r);
  }

  /** When this registry's own map cannot come up empty for `t`, the parent
      is never consulted: any parent, or none, gives the same answers. */
  lemma LocalHitIgnoresParent(inj: Injector, p: Injector, t: TypeKey, r: Value)
    requires !LocalMay(inj.values, t, Invalid)
    ensures MayGet(SetParent(inj, Some(p)), t, r) <==> MayGet(SetParent(inj, None), t, r)
  {
  }

  /** `SetParent(nil)` stops delegation: a found value is stored locally, and
      with no local match nothing is found. */
  lemma ClearedParentStopsDelegation(inj: Injector, t: TypeKey, r: Value)
    ensures r.Valid? && MayGet(SetParent(inj, None), t, r) ==> StoredFor(inj.values, t, r)
    ensures !Lookup(inj.values, t).Valid? && (forall k :: !Candidate(inj.values, t, k)) ==>
              (MayGet(SetParent(inj, None), t, r) <==> r == Invalid)
  {
    var m := inj.values;
    if r.Valid? && MayGet(SetParent(inj, None), t, r) && !Lookup(m, t).Valid? {
      var c := SetParent(inj, None);
      assert c.values == m && !ParentMay(c, t, r);
      assert LocalMay(m, t, r);
      var k :| Candidate(m, t, k) && m[k] == r;
    }
  }

  /** An interface with a single mapped implementor resolves to that
      implementor's value. */
  lemma SoleImplementor(inj: Injector, i: TypeKey, k: TypeKey, v: Value, r: Value)
    requires i.Interface? && v.Valid? && Implements(k, i)
    requires !Lookup(inj.values, i).Valid? || k == i
    requires forall k' :: k' in inj.values && k' != k ==> !Implements(k', i)
    ensures MayGet(Set(inj, k, v), i, r) <==> r == v
  {
    var m := Set(inj, k, v).values;
    if k != i {
      assert Candidate(m, i, k);
      assert forall k' :: Candidate(m, i, k') ==> k' == k;
    }
  }

  /** `level` is `inj` or one of its ancestors. */
  ghost predicate InChain(level: Injector, inj: Injector)
    decreases inj
  {
    level == inj || (inj.parent.Some? && InChain(level, inj.parent.value))
  }

  /** `v` is stored in `m` under `t` itself or under an implementor of `t`. */
  ghost predicate StoredFor(m: map<TypeKey, Value>, t: TypeKey, v: Value)
  {
    Lookup(m, t) == v || exists k :: Candidate(m, t, k) && m[k] == v
  }

  /** Every value `Get` finds is stored somewhere in the chain, under the
      requested type or, for an interface, under a key implementing it. */
  lemma {:induction false} Provenance(inj: Injector, t: TypeKey, v: Value)
    requires MayGet(inj, t, v) && v.Valid?
    ensures exists level :: InChain(level, inj) && StoredFor(level.values, t, v)
    decreases inj
  {
    if v.Valid? && LocalMay(inj.values, t, v) {
      assert InChain(inj, inj) && StoredFor(inj.values, t, v);
    } else {
      var p := inj.parent.value;
      Provenance(p, t, v);
      var level :| InChain(level, p) && StoredFor(level.values, t, v);
      assert InChain(level, inj);
    }
  }

  /** For a type that is not an interface, a found value is stored under
      exactly that type somewhere in the chain. */
  lemma NonInterfaceProvenance(inj: Injector, t: TypeKey, v: Value)
    requires MayGet(inj, t, v) && v.Valid? && !t.Interface?
    ensures exists level :: InChain(level, inj) && Lookup(level.values, t) == v
  {
    Provenance(inj, t, v);
  }

  /** All implementors of `t` at every level of the chain hold the same
      entry, so the scan order cannot matter. */
  ghost predicate Unambiguous(inj: Injector, t: TypeKey)
    decreases inj
  {
    && (forall k1, k2 :: Candidate(inj.values, t, k1) && Candidate(inj.values, t, k2) ==> inj.values[k1] == inj.values[k2])
    && (inj.parent.Some? ==> Unambiguous(inj.parent.value, t))
  }

  /** Without ambiguous implementors `Get` has a single possible answer. */
  lemma {:induction false} GetDeterministic(inj: Injector, t: TypeKey, v1: Value, v2: Value)
    requires Unambiguous(inj, t)
    requires MayGet(inj, t, v1) && MayGet(inj, t, v2)
    ensures v1 == v2
    decreases inj
  {
    var m := inj.values;
    var l1 := if v1.Valid? && LocalMay(m, t, v1) then v1 else Invalid;
    var l2 := if v2.Valid? && LocalMay(m, t, v2) then v2 else Invalid;
    LocalDeterministic(inj, t, l1, l2);
    if l1 == Invalid {
      match inj.parent
      case Some(p) => GetDeterministic(p, t, v1, v2);
      case None =>
    }
  }

  /** One level of `GetDeterministic`: the local outcome is unique. */
  lemma LocalDeterministic(inj: Injector, t: TypeKey, l1: Value, l2: Value)
    requires forall k1, k2 :: Candidate(inj.values, t, k1) && Candidate(inj.values, t, k2) ==> inj.values[k1] == inj.values[k2]
    requires LocalMay(inj.values, t, l1) && LocalMay(inj.values, t, l2)
    ensures l1 == l2
  {
  }
}
