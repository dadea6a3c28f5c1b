/**
 Struct-field injection: `Apply` dereferences its target, and for a struct
 sets every settable field tagged `inject` to the value resolved for the
 field's type, stopping at the first field that resolves to nothing.
 */
module Application {
  import opened Wrappers
  import opened Types
  import opened Registry
  import Resolution

  /** One struct field: its name, which only labels the field, whether it
      is exported, whether its tag asks for injection (`inject` alone or an
      `inject:"..."` key with a non-empty value), its declared type and its
      current value. */
  datatype Field = Field(name: string, exported: bool, tagged: bool, ty: TypeKey, value: Value)

  /** The value handed to `Apply`: a pointer (possibly nil), a struct, or any
      other kind of value. */
  datatype Target = Ref(elem: Target) | NilRef | Record(fields: seq<Field>) | NonStruct

  /** `f.CanSet() && tagged`: a field is settable when it is exported and its
      struct is addressable, that is, reached through a pointer. */
  predicate Injectable(f: Field, addressable: bool)
  {
    addressable && f.exported && f.tagged
  }

  /** The value `Apply` reaches by following pointers for as long as the
      value is a pointer; a nil pointer yields no struct. */
  function Deref(t: Target): (r: Target)
    ensures !r.Ref?
  {
    if t.Ref? then Deref(t.elem) else t
  }

  /** `out` has the same pointer layers as `t` down to a struct. */
  ghost predicate SameShape(t: Target, out: Target)
  {
    match t
    case Ref(e) => out.Ref? && SameShape(e, out.elem)
    case Record(_) => out.Record?
    case _ => out == t
  }

  /** One field after injection: a candidate field holds a valid value `Get`
      may return for its type and is otherwise unchanged; any other field is
      untouched. */
  ghost predicate InjectedField(inj: Injector, before: Field, after: Field, addressable: bool)
  {
    if Injectable(before, addressable) then
      after == before.(value := after.value) && after.value.Valid? && MayGet(inj, before.ty, after.value)
    else
      after == before
  }

  /** Injection stopped at field `j`: a candidate whose type resolved to
      nothing; the fields before it are injected, it and all later fields are
      unchanged. */
  ghost predicate StoppedAt(inj: Injector, before: seq<Field>, after: seq<Field>, addressable: bool, j: int)
    requires |before| == |after|
  {
    && 0 <= j < |before|
    && Injectable(before[j], addressable)
    && MayGet(inj, before[j].ty, Invalid)
    && (forall i :: 0 <= i < j ==> InjectedField(inj, before[i], after[i], addressable))
    && (forall i :: j <= i < |before| ==> after[i] == before[i])
  }

  /** What the field loop promises, success or failure. */
  ghost predicate FieldsOutcome(inj: Injector, before: seq<Field>, after: seq<Field>, addressable: bool, err: Option<InjectError>)
  {
    && |after| == |before|
    && (err.None? ==> forall i :: 0 <= i < |before| ==> InjectedField(inj, before[i], after[i], addressable))
    && (err.Some? ==> exists j :: StoppedAt(inj, before, after, addressable, j) && err.value == ValueNotFound(before[j].ty))
  }

  /** The loop over `v.NumField()` fields, without rollback on failure. */
  method InjectFields(inj: Injector, fields: seq<Field>, addressable: bool) returns (out: seq<Field>, err: Option<InjectError>)
    ensures FieldsOutcome(inj, fields, out, addressable, err)
    ensures !addressable ==> out == fields && err.None?
  {
    out := fields;
    var i := 0;
    while i < |fields|
      invariant 0 <= i <= |fields|
      invariant |out| == |fields|
      invariant forall k :: 0 <= k < i ==> InjectedField(inj, fields[k], out[k], addressable)
      invariant forall k :: i <= k < |fields| ==> out[k] == fields[k]
    {
      if Injectable(fields[i], addressable) {
        var v := Get(inj, fields[i].ty);
        if !v.Valid? {
          assert StoppedAt(inj, fields, out, addressable, i);
          return out, Some(ValueNotFound(fields[i].ty));
        }
        out := out[i := fields[i].(value := v)];
      }
      i := i + 1;
    }
    err := None;
  }

  /** `Apply` below `addressable` pointer layers already dereferenced. */
  method ApplyAt(inj: Injector, t: Target, addressable: bool) returns (out: Target, err: Option<InjectError>)
    ensures !Deref(t).Record? ==> out == t && err.None?
    ensures t.Record? && !addressable ==> out == t && err.None?
    ensures Deref(t).Record? ==>
      && SameShape(t, out)
      && Deref(out).Record?
      && FieldsOutcome(inj, Deref(t).fields, Deref(out).fields, addressable || t.Ref?, err)
    decreases t
  {
    match t
    case Ref(e) =>
      var e', err' := ApplyAt(inj, e, true);
      out, err := Ref(e'), err';
    case Record(fields) =>
      var fields', err' := InjectFields(inj, fields, addressable);
      out, err := Record(fields'), err';
    case NilRef =>
      out, err := t, None;
    case NonStruct =>
      out, err := t, None;
  }

  /** `Apply(val)`: a target that is not a struct after dereferencing, or a
      struct passed by value, is left alone without error; otherwise the
      struct's candidate fields are injected in order up to the first
      unresolved one, which is reported. */
  method Apply(inj: Injector, target: Target) returns (out: Target, err: Option<InjectError>)
    ensures !Deref(target).Record? ==> out == target && err.None?
    ensures target.Record? ==> out == target && err.None?
    ensures Deref(target).Record? ==>
      && SameShape(target, out)
      && Deref(out).Record?
      && FieldsOutcome(inj, Deref(target).fields, Deref(out).fields, target.Ref?, err)
  {
    out, err := ApplyAt(inj, target, false);
  }

  /** Only candidate fields change, whether the loop finished or stopped. */
  lemma OnlyCandidatesChange(inj: Injector, before: seq<Field>, after: seq<Field>, addressable: bool, err: Option<InjectError>, i: int)
    requires FieldsOutcome(inj, before, after, addressable, err)
    requires 0 <= i < |before| && !Injectable(before[i], addressable)
    ensures after[i] == before[i]
  {
    if err.Some? {
      var j :| StoppedAt(inj, before, after, addressable, j) && err.value == ValueNotFound(before[j].ty);
      if i < j {
        assert InjectedField(inj, before[i], after[i], addressable);
      }
    }
  }

  /** A candidate field whose type has a valid exact entry receives exactly
      that entry. */
  lemma MappedFieldReceivesEntry(inj: Injector, before: seq<Field>, after: seq<Field>, addressable: bool, i: int)
    requires FieldsOutcome(inj, before, after, addressable, None)
    requires 0 <= i < |before| && Injectable(before[i], addressable)
    requires Lookup(inj.values, before[i].ty).Valid?
    ensures after[i] == before[i].(value := Lookup(inj.values, before[i].ty))
  {
    assert InjectedField(inj, before[i], after[i], addressable);
    Resolution.ExactPrecedence(inj, before[i].ty, after[i].value);
  }

  /** When no candidate's type can resolve to nothing, injection succeeds. */
  lemma SucceedsWhenAllResolve(inj: Injector, before: seq<Field>, after: seq<Field>, addressable: bool, err: Option<InjectError>)
    requires FieldsOutcome(inj, before, after, addressable, err)
    requires forall i :: 0 <= i < |before| && Injectable(before[i], addressable) ==> !MayGet(inj, before[i].ty, Invalid)
    ensures err.None?
  {
  }
}
