/**
 The injector's type-indexed value map, its parent link, and type
 resolution (`Get`). The registry is an immutable value: the Go mutators
 `Set`, `Map`, `MapTo` and `SetParent` return the updated registry.
 */
module Registry {
  import opened Wrappers
  import opened Types

  /** A `reflect.Value`. `Invalid` is the zero Value: what reading a missing
      map entry yields and what `reflect.ValueOf(nil)` yields. A valid value
      carries its dynamic type; `payload` stands for its contents. */
  datatype Value = Invalid | Valid(ty: TypeKey, payload: nat)

  /** An `injector`: the type map and an optional parent. */
  datatype Injector = Injector(values: map<TypeKey, Value>, parent: Option<Injector>)

  /** Why `Invoke` or `Apply` failed: no value resolved for this type. */
  datatype InjectError = ValueNotFound(ty: TypeKey)

  /** Go's `m[t]`: the zero Value when `t` is not a key. */
  function Lookup(m: map<TypeKey, Value>, t: TypeKey): (v: Value)
    ensures t in m ==> v == m[t]
    ensures t !in m ==> v == Invalid
  {
    if t in m then m[t] else Invalid
  }

  /** `New()`: an empty map and no parent. */
  function New(): (r: Injector)
    ensures r.values == map[] && r.parent.None?
  {
    Injector(map[], None)
  }

  /** `Set(typ, val)`: last write wins for `typ`, every other key keeps its
      entry, the parent is untouched. */
  function Set(inj: Injector, t: TypeKey, v: Value): (r: Injector)
    ensures Lookup(r.values, t) == v
    ensures forall k :: k != t ==> Lookup(r.values, k) == Lookup(inj.values, k)
    ensures r.values.Keys == inj.values.Keys + {t}
    ensures r.parent == inj.parent
  {
    inj.(values := inj.values[t := v])
  }

  /** `Map(val)`: the entry is keyed by the value's own dynamic type. */
  function Map(inj: Injector, v: Value): (r: Injector)
    requires v.Valid?
    ensures Lookup(r.values, v.ty) == v
    ensures forall k :: k != v.ty ==> Lookup(r.values, k) == Lookup(inj.values, k)
    ensures r.parent == inj.parent
  {
    Set(inj, v.ty, v)
  }

  /** `MapTo(val, ifacePtr)`: the entry is keyed by the interface type that
      `ifaceType`, the dynamic type of `ifacePtr`, points to; one that does
      not reach an interface panics and leaves no entry. `v` may be `Invalid`
      (Go's `MapTo(nil, ...)`). */
  function MapTo(inj: Injector, v: Value, ifaceType: TypeKey): (r: Result<Injector, NotAnInterface>)
    ensures r.Success? <==> StripPointers(ifaceType).Interface?
    ensures r.Success? ==> Lookup(r.value.values, StripPointers(ifaceType)) == v
    ensures r.Success? ==> forall k :: k != StripPointers(ifaceType) ==> Lookup(r.value.values, k) == Lookup(inj.values, k)
    ensures r.Success? ==> r.value.parent == inj.parent
  {
    match InterfaceOf(ifaceType)
    case Success(i) => Success(Set(inj, i, v))
    case Failure(e) => Failure(e)
  }

  /** `SetParent(parent)`: replaces the fallback link; the map is unchanged.
      `None` is Go's `SetParent(nil)`, which removes the fallback. */
  function SetParent(inj: Injector, p: Option<Injector>): (r: Injector)
    ensures r.values == inj.values
    ensures r.parent == p
  {
    inj.(parent := p)
  }

  // ---------------------------------------------------------------------
  // Reference semantics of Get: every value Go may return.
  // ---------------------------------------------------------------------

  /** `k` is a key the interface scan for `t` may stop at. */
  ghost predicate Candidate(m: map<TypeKey, Value>, t: TypeKey, k: TypeKey)
  {
    t.Interface? && k in m && Implements(k, t)
  }

  /** The implementor scan stops at the first implementing key in an
      unspecified order and takes that key's entry, valid or not; with no
      implementing key it finds nothing. */
  ghost predicate ScanMay(m: map<TypeKey, Value>, t: TypeKey, v: Value)
  {
    if exists k :: Candidate(m, t, k) then exists k :: Candidate(m, t, k) && v == m[k]
    else v == Invalid
  }

  /** What this registry's own map may produce for `t`: a valid exact entry,
      otherwise the scan's outcome (which is `Invalid` unless `t` is an
      interface). */
  ghost predicate LocalMay(m: map<TypeKey, Value>, t: TypeKey, v: Value)
  {
    if Lookup(m, t).Valid? then v == Lookup(m, t) else ScanMay(m, t, v)
  }

  /** `Get(t)` may return `v`: the local outcome when it is valid, otherwise
      the parent's answer, or `Invalid` at the end of the chain. */
  ghost predicate MayGet(inj: Injector, t: TypeKey, v: Value)
    decreases inj
  {
    || (v.Valid? && LocalMay(inj.values, t, v))
    || (LocalMay(inj.values, t, Invalid) && ParentMay(inj, t, v))
  }

  /** Delegation to the parent, or not-found when there is none. */
  ghost predicate ParentMay(inj: Injector, t: TypeKey, v: Value)
    decreases inj, 0
  {
    match inj.parent
    case None => v == Invalid
    case Some(p) => MayGet(p, t, v)
  }

  // ---------------------------------------------------------------------
  // The operational Get.
  // ---------------------------------------------------------------------

  /** The implementor scan: visit the keys until one implements `t` and take
      its entry. Go visits the keys in an unspecified order, modelled by
      picking any unvisited key. */
  method ScanImplementors(m: map<TypeKey, Value>, t: TypeKey) returns (v: Value)
    requires t.Interface?
    ensures ScanMay(m, t, v)
    ensures v.Valid? ==> exists k :: Candidate(m, t, k) && m[k] == v
  {
    v := Invalid;
    var unvisited := m.Keys;
    while unvisited != {}
      invariant unvisited <= m.Keys
      invariant forall k :: k in m && k !in unvisited ==> !Implements(k, t)
      decreases unvisited
    {
      var k :| k in unvisited;
      if Implements(k, t) {
        assert Candidate(m, t, k);
        return m[k];
      }
      unvisited := unvisited - {k};
    }
    assert forall k :: !Candidate(m, t, k);
  }

  /** `Get(t)`: exact hit, else the implementor scan when `t` is an
      interface, else the parent. */
  method Get(inj: Injector, t: TypeKey) returns (v: Value)
    ensures MayGet(inj, t, v)
    ensures Lookup(inj.values, t).Valid? ==> v == Lookup(inj.values, t)
    ensures v.Valid? && !Lookup(inj.values, t).Valid? && inj.parent.None? ==>
              exists k :: Candidate(inj.values, t, k) && inj.values[k] == v
    ensures inj.parent.None? && !t.Interface? ==> v == Lookup(inj.values, t)
    decreases inj
  {
    v := Lookup(inj.values, t);
    if v.Valid? {
      return;
    }
    if t.Interface? {
      v := ScanImplementors(inj.values, t);
    } else {
      assert forall k :: !Candidate(inj.values, t, k);
    }
    if !v.Valid? {
      match inj.parent
      case Some(p) =>
        v := Get(p, t);
      case None =>
    }
  }
}
