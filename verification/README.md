# inject — a Dafny model of a type-indexed dependency injector

`inject` is a small Go dependency-injection container. An `injector` holds a
map from a `reflect.Type` to a `reflect.Value` and an optional parent
injector. Values go in through `Set`, `Map` (keyed by the value's own dynamic
type) and `MapTo` (keyed by an interface type named through a `(*I)(nil)`
witness). `Get` resolves a type in three steps:

1. a valid entry under exactly that type;
2. for an interface type only, the entry of the first key, in Go's
   unspecified map order, that implements the interface;
3. the parent's `Get`.

`Invoke` calls a function with arguments resolved from its parameter types.
`Apply` sets the injectable fields of a struct reached through pointers.

This project models that resolution algorithm with the reflection stripped
away:

- `wrappers.dfy` (`Wrappers`): `Option` and `Result`.
- `types.dfy` (`Types`): `TypeKey` is a type. It has a kind (`Ptr`,
  `Interface`, `Struct`, `Other`), a name (empty for an unnamed pointer
  type) and a method set. `Implements(k, t)` is
  Go's rule that the method set of `k` contains the methods of interface `t`.
  `InterfaceOf` strips every pointer layer and then demands an interface.
- `registry.dfy` (`Registry`): `Value` is `Invalid`, Go's zero
  `reflect.Value`, or a valid value carrying its dynamic type. `Injector` is
  the map plus the parent. The parent is an `Option<Injector>`, so the parent
  chain is finite by construction. `Set`, `Map`, `MapTo` and `SetParent` are
  pure functions that return the updated injector.
  - Go's map iteration order is unspecified. So `Get` is a method, and its
    implementor scan picks any unvisited key on each step (`:|`).
  - The ghost predicate `MayGet(inj, t, v)` is the reference semantics: it
    holds for exactly the values that some iteration order lets `Get`
    return. `Get` is proved to return only such values.
- `resolution.dfy` (`Resolution`): lemmas about `MayGet`. They cover the
  mapping primitives, precedence, parent delegation, where a found value comes
  from, and when the answer is unique.
- `invoke.dfy` (`Invocation`): `Invoke` resolves the parameters in order. It
  fails at the first missing one, before any call. Otherwise it returns the
  call's result on the resolved arguments.
- `apply.dfy` (`Application`): `Apply` dereferences the target.
  - It does nothing to a non-struct, a nil pointer, or a struct passed by
    value.
  - Otherwise it injects the settable fields tagged `inject`, in order. It
    stops at the first field it cannot resolve and keeps what it already set.

Two details of the Go code are kept as written:

- The interface scan tests whether the map KEY implements the requested
  interface, not the stored value's dynamic type.
- The scan stops at the first implementing key even when that key's entry
  is the zero Value. In that case `Get` falls through to the parent, even if
  another local implementor holds a valid value
  (`Resolution.InvalidImplementorDelegates`).

Three more points of `inject.go` that the model follows:

- `Apply` on a target that is not a struct after dereferencing returns nil
  (inject.go:145-147).
- An exact entry counts only when it is valid (inject.go:206).
- `SetParent(nil)` removes the fallback: `Get` consults the parent only when
  it is non-nil (inject.go:225). The model's `SetParent` takes an
  `Option<Injector>`, with `None` for nil.

## Model

| member | source | states |
|---|---|---|
| Types.InterfaceOf | inject.go:76-89 | succeeds exactly when the type under all pointer layers is an interface, and then returns that interface; otherwise panics (the panic carries a fixed message, no type); an interface type is returned unchanged |
| Types.InterfaceOfPointer | inject.go:80-88 | an interface `I` under any pointer layers, whatever their names and method sets, yields `I` |
| Types.InterfaceOfRejects | inject.go:84-86 | a non-interface, non-pointer type under any pointer layers, whatever their names and method sets (`(*S)(nil)` included), panics |
| Types.StripPointerTo | inject.go:80-82 | dereferencing finds the same innermost type whatever pointer layers, named or not and with any method sets, are added |
| Types.PointerLayersRebuild | inject.go:80-82 | every type is its innermost non-pointer type under its own pointer layers, so the two lemmas above cover every witness type |
| Registry.New | inject.go:98-103 | a new injector has an empty map and no parent |
| Registry.SetParent | inject.go:233-235 | the parent link becomes exactly the given one (nil included) and the map is unchanged |
| Registry.Set | inject.go:196-199 | after `Set(t, v)` the entry for `t` is `v`, every other key keeps its entry, the parent is unchanged |
| Registry.Map | inject.go:174-177 | the entry is stored under the value's own dynamic type; all other entries and the parent are unchanged |
| Registry.MapTo | inject.go:183-186 | succeeds iff the witness type reaches an interface; then stores under that interface and leaves other entries alone; otherwise it panics and stores nothing |
| Registry.ScanImplementors | inject.go:213-222 | in any visiting order, returns the entry of some key implementing the interface, or the zero Value when no key implements it |
| Registry.Get | inject.go:201-231 | returns a value the reference semantics allows; a valid exact entry is returned as is; without a parent a found value sits under an implementing key; without a parent a non-interface type yields its exact entry |
| Resolution.ExactPrecedence | inject.go:204-208 | a valid exact entry is the only possible result, whatever implementors or parent exist |
| Resolution.SetThenGet | inject.go:196-208 | after `Set(t, v)` with `v` valid, `Get(t)` returns exactly `v` |
| Resolution.SetLeavesOtherTypes | inject.go:196-229 | `Set(k, v)` does not change what `Get` may return for any other non-interface type, e.g. `*int` after setting the defined type `type P *int` |
| Resolution.UnnamedTypesAreDistinct | inject.go:46-49 | an entry `Set` under `[]int` or `<-chan int` leaves `Get` of `[]string` or `chan<- int` exactly as it was |
| Resolution.MapThenGet | inject.go:174-177 | after `Map(v)`, `Get` of the value's type returns exactly `v` |
| Resolution.RemapOverwrites | inject.go:174-177 | mapping a second value of the same type replaces the first for `Get` |
| Resolution.MapToThenGet | inject.go:183-186 | `MapTo(v, (*I)(nil))` succeeds and afterwards `Get(I)` returns exactly `v` |
| Resolution.NewFindsNothing | inject.go:98-103 | a fresh injector resolves every type to the zero Value |
| Resolution.NonInterfaceSkipsScan | inject.go:213-227 | for a non-interface type, a miss on the exact key goes straight to the parent (or to not-found) |
| Resolution.InvalidEntryIsMissing | inject.go:204-208 | an entry holding the zero Value resolves exactly as an absent key for a non-interface type |
| Resolution.NotFoundWithoutParent | inject.go:224-229 | with no parent, no valid exact entry and no implementor, `Get` returns only the zero Value |
| Resolution.DelegatesToParent | inject.go:224-227 | with neither a valid exact entry nor an implementor locally, the child resolves exactly as its parent |
| Resolution.ChildShadowsParent | inject.go:204-208 | a valid entry in the child is the result even when a parent is set |
| Resolution.InvalidImplementorDelegates | inject.go:216-227 | when the scan may stop at an implementing key holding the zero Value, every parent answer is a possible result |
| Resolution.InvalidInterfaceEntryDelegates | inject.go:204-226 | a zero Value stored under the requested interface itself may stop the scan at that key, after which every parent answer is a possible result |
| Resolution.LocalHitIgnoresParent | inject.go:224-227 | when the local map cannot come up empty, having a parent or not gives the same possible results |
| Resolution.ClearedParentStopsDelegation | inject.go:225-229 | after `SetParent(nil)` a found value is stored locally under the type or an implementor, and with no local match nothing is found |
| Resolution.SoleImplementor | inject.go:213-222 | an interface with exactly one mapped implementor resolves to that implementor's value |
| Resolution.Provenance | inject.go:201-231 | every valid result is stored somewhere in the parent chain under the requested type or under a key implementing it |
| Resolution.NonInterfaceProvenance | inject.go:204-215 | a valid result for a non-interface type is stored under exactly that type somewhere in the chain |
| Resolution.GetDeterministic | inject.go:215-222 | when all implementors at each level hold the same entry, `Get` has one possible result |
| Invocation.Invoke | inject.go:117-132 | on success, the result is the function's result on arguments resolved position by position; on failure, the error names a parameter whose type resolved to nothing after all earlier ones resolved, and no call is made; with unique resolution the result is the direct call on the resolved arguments |
| Invocation.ArgumentsUnique | inject.go:120-129 | with unique resolution per parameter type the resolved argument list is unique |
| Invocation.RepeatedParameterSameArgument | inject.go:121-128 | two parameters of the same uniquely resolved type receive the same argument |
| Invocation.MissingExcludesResolved | inject.go:123-126 | a uniquely resolved parameter type that resolves to nothing leaves no valid argument list |
| Application.InjectFields | inject.go:151-169 | candidate fields get a valid resolved value and nothing else changes; on failure the error names the first unresolved candidate, earlier candidates stay injected and it and later fields are unchanged; nothing is settable in an unaddressable struct |
| Application.ApplyAt | inject.go:141-167 | pointer layers are kept and the struct underneath is injected; non-struct values are returned unchanged |
| Application.Apply | inject.go:137-170 | a non-struct after dereferencing, or a struct passed by value, is unchanged with no error; otherwise the struct's fields follow the field-loop outcome |
| Application.OnlyCandidatesChange | inject.go:156-167 | fields that are not settable or not tagged keep their value on success and on failure |
| Application.MappedFieldReceivesEntry | inject.go:158-166 | a candidate field whose type has a valid exact entry receives exactly that entry |
| Application.SucceedsWhenAllResolve | inject.go:160-164 | if no candidate's type can resolve to nothing, `Apply` reports no error |

## Left out

- Registry.Map: the argument must be a non-nil value. Go's `Map(nil)` stores the zero Value under the nil type. A later interface scan that visits that key would call `Implements` on nil and panic.
- Registry.MapTo: the witness is given by its dynamic type. A nil `ifacePtr` has no type, and Go panics on it before any lookup.
- Invoke on a value that is not a function, or on a nil function value, panics in Go: the first at `t.NumIn()` (inject.go:120), the second at `Value.Call` after the parameters resolved (inject.go:131). The model's `Func` is a non-nil function by construction, as the behaviour of `Value.Call` is library code.
- Variadic functions, and arguments whose type `reflect.Value.Call` rejects, are not modelled. Go's reflection checks them at call time.
- Application.InjectFields: assigning a resolved value whose type is not assignable to the field makes `f.Set` panic in Go. The model sets the field regardless, since the reflection assignability rules are library behaviour.
- Struct-tag parsing (`Tag.Get("inject")`) is reduced to a boolean per field.
- Error message formatting is reduced to an error that carries the missing type.
- The parent is held as a value. In Go it is a reference, so mutations made to the parent after `SetParent` stay visible to the child. The model takes a snapshot. A parent that is some other implementation of the `Injector` interface is not modelled.
- Recursive pointer types (`type P *P`) and self-pointing values are left out. `InterfaceOf` loops forever on such a type (inject.go:80-82), and so does `Apply` on such a value (inject.go:141-143). In the model, types and targets are finite.
- Cyclic parent chains are left out. They are undetected in Go and make `Get` loop forever; in the model the chain is finite.
- The fluent `TypeMapper` return values of `Map`, `MapTo` and `Set` are left out.
- Concurrent use is left out. The injector has no synchronisation.
- `Implements` compares method sets as sets of signature strings. Go's structural comparison of signatures is not modelled.
