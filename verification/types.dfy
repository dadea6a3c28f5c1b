/**
 The part of Go's type system the injector relies on: type identity (the
 registry's key), the kinds it distinguishes, pointer dereferencing, and
 interface satisfaction.
 */
module Types {
  import opened Wrappers

  /** A `reflect.Type`. Equal keys denote the same type. For a non-pointer
      type `name` is the type's full identity as `reflect.Type.String()`
      prints it, qualified by package path (`"[]int"`, `"<-chan int"`,
      `"struct { A int }"`, `"main.S"`). A defined pointer type carries its
      name too; only an unnamed pointer type such as `*int` leaves it empty,
      since `elem` identifies it, so `type P *int` is a different key from
      `*int`. `methods` is the type's method set, written as method
      signatures. */
  datatype TypeKey =
    | Ptr(name: string, elem: TypeKey, methods: set<string>)
    | Interface(name: string, methods: set<string>)
    | Struct(name: string, methods: set<string>)
    | Other(name: string, methods: set<string>)

  /** `k.Implements(t)`: the method set of `k` contains every method of the
      interface `t`. Go panics when `t` is not an interface. */
  predicate Implements(k: TypeKey, t: TypeKey)
    requires t.Interface?
  {
    t.methods <= k.methods
  }

  /** Go's own rule gives an interface type to itself. */
  lemma InterfaceImplementsItself(t: TypeKey)
    requires t.Interface?
    ensures Implements(t, t)
  {
  }

  /** One pointer layer: its name (empty when unnamed) and its method set. */
  datatype Layer = Layer(name: string, methods: set<string>)

  /** `t` wrapped in the pointer layers `layers`, outermost first. */
  function PointerTo(t: TypeKey, layers: seq<Layer>): (r: TypeKey)
    ensures |layers| > 0 ==> r.Ptr? && r.name == layers[0].name && r.methods == layers[0].methods
    ensures |layers| == 0 ==> r == t
  {
    if |layers| == 0 then t
    else Ptr(layers[0].name, PointerTo(t, layers[1..]), layers[0].methods)
  }

  /** The pointer layers of `t`, outermost first. */
  function Layers(t: TypeKey): (r: seq<Layer>)
    ensures !t.Ptr? ==> r == []
    ensures t.Ptr? ==> |r| > 0 && r[0] == Layer(t.name, t.methods)
  {
    if t.Ptr? then [Layer(t.name, t.methods)] + Layers(t.elem) else []
  }

  /** The type reached by taking the element type for as long as the type
      is a pointer. */
  function StripPointers(t: TypeKey): (r: TypeKey)
    ensures !r.Ptr?
    ensures !t.Ptr? ==> r == t
  {
    if t.Ptr? then StripPointers(t.elem) else t
  }

  /** Adding pointer layers, with any names and method sets, does not change
      what stripping finds. */
  lemma {:induction false} StripPointerTo(t: TypeKey, layers: seq<Layer>)
    ensures StripPointers(PointerTo(t, layers)) == StripPointers(t)
    decreases |layers|
  {
    if |layers| > 0 {
      StripPointerTo(t, layers[1..]);
    }
  }

  /** Every type is its innermost non-pointer type under its own pointer
      layers, so statements over `PointerTo` cover every type. */
  lemma {:induction false} PointerLayersRebuild(t: TypeKey)
    ensures t == PointerTo(StripPointers(t), Layers(t))
  {
    if t.Ptr? {
      PointerLayersRebuild(t.elem);
      assert Layers(t)[1..] == Layers(t.elem);
    }
  }

  /** The panic `InterfaceOf` raises; its fixed message names no type. */
  datatype NotAnInterface = NotAnInterface

  /** `InterfaceOf(value)` applied to the dynamic type `t` of `value`: strip
      every pointer layer, then demand an interface type. */
  function InterfaceOf(t: TypeKey): (r: Result<TypeKey, NotAnInterface>)
    ensures r.Success? <==> StripPointers(t).Interface?
    ensures r.Success? ==> r.value.Interface? && r.value == StripPointers(t)
    ensures r.Failure? ==> !StripPointers(t).Interface?
    ensures t.Interface? ==> r == Success(t)
  {
    var s := StripPointers(t);
    if s.Interface? then Success(s) else Failure(NotAnInterface)
  }

  /** The `(*I)(nil)` idiom, through any number of pointer layers, names `I`. */
  lemma {:induction false} InterfaceOfPointer(i: TypeKey, layers: seq<Layer>)
    requires i.Interface?
    ensures InterfaceOf(PointerTo(i, layers)) == Success(i)
  {
    StripPointerTo(i, layers);
  }

  /** A pointer chain ending in a struct or any other non-interface type
      panics. */
  lemma {:induction false} InterfaceOfRejects(t: TypeKey, layers: seq<Layer>)
    requires !t.Interface? && !t.Ptr?
    ensures InterfaceOf(PointerTo(t, layers)) == Failure(NotAnInterface)
  {
    StripPointerTo(t, layers);
  }
}
