/**
 Function-argument injection: `Invoke` resolves each parameter type in
 declaration order and calls the function only when every one resolved.
 */
module Invocation {
  import opened Wrappers
  import opened Types
  import opened Registry
  import Resolution

  /** A Go function value: its parameter types (`t.In(i)`) and what calling
      it with those arguments returns (`reflect.Value.Call`). */
  datatype Func = Func(params: seq<TypeKey>, call: seq<Value> -> seq<Value>)

  /** `args` are valid values `Get` may return for `params`, position by
      position. */
  ghost predicate Resolved(inj: Injector, params: seq<TypeKey>, args: seq<Value>)
  {
    && |args| == |params|
    && forall i :: 0 <= i < |params| ==> args[i].Valid? && MayGet(inj, params[i], args[i])
  }

  /** Resolution stopped at parameter `i`: the ones before it resolved and
      `params[i]` came back as the zero Value. */
  ghost predicate MissingAt(inj: Injector, params: seq<TypeKey>, i: int)
  {
    && 0 <= i < |params|
    && MayGet(inj, params[i], Invalid)
    && exists args :: Resolved(inj, params[..i], args)
  }

  /** `Invoke(f)`: on success the result is the call's result on resolved
      arguments; on failure the error names a parameter type that resolved
      to nothing, and the function is not called. */
  method Invoke(inj: Injector, f: Func) returns (r: Result<seq<Value>, InjectError>)
    ensures r.Success? ==> exists args :: Resolved(inj, f.params, args) && r.value == f.call(args)
    ensures r.Failure? ==> exists i :: MissingAt(inj, f.params, i) && r.error == ValueNotFound(f.params[i])
    ensures (forall i :: 0 <= i < |f.params| ==> !MayGet(inj, f.params[i], Invalid)) ==> r.Success?
    ensures (forall i :: 0 <= i < |f.params| ==> Resolution.Unambiguous(inj, f.params[i])) ==>
              forall args :: Resolved(inj, f.params, args) ==> r == Success(f.call(args))
  {
    var args: seq<Value> := [];
    var i := 0;
    while i < |f.params|
      invariant 0 <= i <= |f.params|
      invariant Resolved(inj, f.params[..i], args)
    {
      var v := Get(inj, f.params[i]);
      if !v.Valid? {
        assert MissingAt(inj, f.params, i);
        if forall j :: 0 <= j < |f.params| ==> Resolution.Unambiguous(inj, f.params[j]) {
          forall all
            ensures !Resolved(inj, f.params, all)
          {
            MissingExcludesResolved(inj, f.params, i, all);
          }
        }
        return Failure(ValueNotFound(f.params[i]));
      }
      args := args + [v];
      i := i + 1;
    }
    assert f.params[..i] == f.params;
    if forall j :: 0 <= j < |f.params| ==> Resolution.Unambiguous(inj, f.params[j]) {
      forall all | Resolved(inj, f.params, all)
        ensures all == args
      {
        ArgumentsUnique(inj, f.params, all, args);
      }
    }
    return Success(f.call(args));
  }

  /** When a parameter type with a unique resolution resolves to nothing,
      no argument list resolves. */
  lemma MissingExcludesResolved(inj: Injector, params: seq<TypeKey>, i: int, args: seq<Value>)
    requires 0 <= i < |params| && Resolution.Unambiguous(inj, params[i])
    requires MayGet(inj, params[i], Invalid)
    ensures !Resolved(inj, params, args)
  {
    if Resolved(inj, params, args) {
      Resolution.GetDeterministic(inj, params[i], args[i], Invalid);
    }
  }

  /** Without ambiguous implementors the resolved arguments, and hence the
      call's result, are unique. */
  lemma {:induction false} ArgumentsUnique(inj: Injector, params: seq<TypeKey>, a1: seq<Value>, a2: seq<Value>)
    requires forall i :: 0 <= i < |params| ==> Resolution.Unambiguous(inj, params[i])
    requires Resolved(inj, params, a1) && Resolved(inj, params, a2)
    ensures a1 == a2
  {
    forall i | 0 <= i < |params|
      ensures a1[i] == a2[i]
    {
      Resolution.GetDeterministic(inj, params[i], a1[i], a2[i]);
    }
  }

  /** Arguments are resolved in the registry alone: the same parameter type
      gets the same argument at every position when resolution is unique. */
  lemma RepeatedParameterSameArgument(inj: Injector, params: seq<TypeKey>, args: seq<Value>, i: int, j: int)
    requires Resolved(inj, params, args)
    requires 0 <= i < |params| && 0 <= j < |params| && params[i] == params[j]
    requires Resolution.Unambiguous(inj, params[i])
    ensures args[i] == args[j]
  {
    Resolution.GetDeterministic(inj, params[i], args[i], args[j]);
  }
}
