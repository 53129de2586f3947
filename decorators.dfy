/**
 * `permissions_decorator` of `pybb/decorators.py`: a class decorator that
 * replaces a view's `dispatch` with one that, on every call, wraps the original
 * dispatch in the decorators configured for the request's client.
 */
module Decorators {
  import opened Middleware

  /**
   * A view's dispatch entry point, as a term: the view's own dispatch, one
   * wrapped by the decorator a configured factory produced, or the
   * permission-aware dispatch that `permissions_decorator` installs.
   */
  datatype Dispatch =
    | ViewDispatch(view: string)
    | Decorated(factory: string, inner: Dispatch)
    | PermissionAware(orig: Dispatch)

  /** A call of a dispatch entry point with the request and their arguments. */
  datatype Invocation = Invocation(target: Dispatch, request: Request, args: seq<string>)

  /** Decorator composition: the first-listed factory's decorator is outermost. */
  function Compose(factories: seq<string>, d: Dispatch): Dispatch
  {
    if factories == [] then d else Decorated(factories[0], Compose(factories[1..], d))
  }

  /** The decorator layers of a dispatch term, from the outside in. */
  function Layers(d: Dispatch): seq<string>
  {
    match d
    case Decorated(f, inner) => [f] + Layers(inner)
    case _ => []
  }

  /** What a dispatch term finally calls once all decorator layers are peeled off. */
  function Core(d: Dispatch): Dispatch
  {
    match d
    case Decorated(_, inner) => Core(inner)
    case _ => d
  }

  /** Composing adds exactly the listed layers, in list order from the outside in,
      around the original, and leaves what is finally called unchanged. */
  lemma {:induction false} ComposeLayers(factories: seq<string>, d: Dispatch)
    ensures Layers(Compose(factories, d)) == factories + Layers(d)
    ensures Core(Compose(factories, d)) == Core(d)
    decreases |factories|
  {
    if factories != [] {
      ComposeLayers(factories[1..], d);
      assert [factories[0]] + factories[1..] == factories;
    }
  }

  /** Composition is a fold: composing a concatenation nests the two compositions. */
  lemma {:induction false} ComposeAppend(xs: seq<string>, ys: seq<string>, d: Dispatch)
    ensures Compose(xs + ys, d) == Compose(xs, Compose(ys, d))
    decreases |xs|
  {
    if xs == [] {
      assert xs + ys == ys;
    } else {
      assert (xs + ys)[1..] == xs[1..] + ys;
      ComposeAppend(xs[1..], ys, d);
    }
  }

  /** With decorators `[A, B]` the effective dispatch is `A(B(orig))`. */
  lemma TwoDecoratorsNest(a: string, b: string, orig: Dispatch)
    ensures Compose([a, b], orig) == Decorated(a, Decorated(b, orig))
  {
    assert [a, b][1..] == [b];
    assert [b][1..] == [];
    assert Compose([b], orig) == Decorated(b, Compose([], orig));
  }

  /**
   * The body of `_dispatch` up to the final call: start from the original
   * dispatch and, when the request carries a decorator loader, wrap it once per
   * factory in reverse list order. `invoked` lists the factories in the order
   * they are called.
   */
  method EffectiveDispatch(orig: Dispatch, request: Request) returns (newDispatch: Dispatch, invoked: seq<string>)
    ensures request.pybbPermissionDecorators.None? ==> newDispatch == orig && invoked == []
    ensures request.pybbPermissionDecorators.Some? ==>
      var ds := request.pybbPermissionDecorators.value.decorators;
      && newDispatch == Compose(ds, orig)
      && |invoked| == |ds|
      && forall i :: 0 <= i < |ds| ==> invoked[i] == ds[|ds| - 1 - i]
  {
    newDispatch := orig;
    invoked := [];
    if request.pybbPermissionDecorators.Some? {
      var ds := request.pybbPermissionDecorators.value.decorators;
      var i := |ds|;
      while i > 0
        invariant 0 <= i <= |ds|
        invariant newDispatch == Compose(ds[i..], orig)
        invariant |invoked| == |ds| - i
        invariant forall k :: 0 <= k < |invoked| ==> invoked[k] == ds[|ds| - 1 - k]
      {
        i := i - 1;
        var factory := ds[i];
        invoked := invoked + [factory];
        assert ds[i..][1..] == ds[i + 1..];
        newDispatch := Decorated(factory, newDispatch);
      }
    }
  }

  /** A view class, as far as its `dispatch` attribute goes. */
  class ViewClass {
    const name: string
    var dispatch: Dispatch

    constructor (name: string, dispatch: Dispatch)
      ensures this.name == name && this.dispatch == dispatch
    {
      this.name := name;
      this.dispatch := dispatch;
    }
  }

  /** `permissions_decorator()(cls)`: the same class object, with only `dispatch`
      replaced by the permission-aware dispatch around the previous one. */
  method PermissionsDecorator(cls: ViewClass) returns (r: ViewClass)
    modifies cls`dispatch
    ensures r == cls
    ensures cls.dispatch == PermissionAware(old(cls.dispatch))
  {
    var origDispatch := cls.dispatch;
    cls.dispatch := PermissionAware(origDispatch);
    r := cls;
  }

  /**
   * Calling a class's `dispatch` with a request and arguments. The
   * permission-aware dispatch recomputes its wrapping from this request on each
   * call (nothing is cached on the class) and calls the result with the same
   * request and arguments; any other dispatch is called as it is.
   */
  method CallDispatch(cls: ViewClass, request: Request, args: seq<string>) returns (call: Invocation, invoked: seq<string>)
    ensures cls.dispatch.PermissionAware? && request.pybbPermissionDecorators.Some? ==>
      var ds := request.pybbPermissionDecorators.value.decorators;
      && call == Invocation(Compose(ds, cls.dispatch.orig), request, args)
      && |invoked| == |ds|
      && forall i :: 0 <= i < |ds| ==> invoked[i] == ds[|ds| - 1 - i]
    ensures cls.dispatch.PermissionAware? && request.pybbPermissionDecorators.None? ==>
      call == Invocation(cls.dispatch.orig, request, args) && invoked == []
    ensures !cls.dispatch.PermissionAware? ==> call == Invocation(cls.dispatch, request, args) && invoked == []
  {
    match cls.dispatch {
      case PermissionAware(orig) =>
        var d;
        d, invoked := EffectiveDispatch(orig, request);
        call := Invocation(d, request, args);
      case _ =>
        call := Invocation(cls.dispatch, request, args);
        invoked := [];
    }
  }
}
