/**
  The typing context of dhall_core: an ordered sequence of (name, type)
  bindings, the innermost binding last.  `insert` pushes a binding, `map`
  rewrites every stored type and `lookup(x, n)` finds the n-th binding named
  `x`, counting outward from the innermost one.
 */
module Contexts {
  import opened Wrappers
  import opened Syntax

  type Context<T> = seq<(Label, T)>

  /** The empty context of `Context::new`. */
  function Empty<T>(): (r: Context<T>)
    ensures |r| == 0
  {
    []
  }

  /** `ctx.insert(x, t)`: the new binding becomes the innermost one. */
  function Insert<T>(ctx: Context<T>, x: Label, t: T): (r: Context<T>)
    ensures |r| == |ctx| + 1 && r[..|ctx|] == ctx && r[|ctx|] == (x, t)
  {
    ctx + [(x, t)]
  }

  /** `ctx.map(g)`: every stored type rewritten, names and order kept. */
  function MapTypes<T, U>(ctx: Context<T>, g: T -> U): (r: Context<U>)
    ensures |r| == |ctx|
    ensures forall i :: 0 <= i < |ctx| ==> r[i] == (ctx[i].0, g(ctx[i].1))
    decreases |ctx|
  {
    if |ctx| == 0 then []
    else MapTypes(ctx[..|ctx| - 1], g) + [(ctx[|ctx| - 1].0, g(ctx[|ctx| - 1].1))]
  }

  /** How many bindings of `ctx` are named `x`. */
  function Count<T>(ctx: Context<T>, x: Label): nat
    decreases |ctx|
  {
    if |ctx| == 0 then 0
    else Count(ctx[..|ctx| - 1], x) + (if ctx[|ctx| - 1].0 == x then 1 else 0)
  }

  /**
    `ctx.lookup(x, n)`: the type of the n-th binding named `x` from the
    innermost end, present exactly when there are more than `n` of them.
   */
  function Lookup<T>(ctx: Context<T>, x: Label, n: nat): (r: Option<T>)
    ensures r.Some? <==> n < Count(ctx, x)
    ensures r.Some? ==> exists i :: 0 <= i < |ctx| && ctx[i] == (x, r.value)
    decreases |ctx|
  {
    if |ctx| == 0 then None
    else
      var (y, t) := ctx[|ctx| - 1];
      if y == x && n == 0 then Some(t)
      else
        var r := Lookup(ctx[..|ctx| - 1], x, if y == x then n - 1 else n);
        r
  }

  /** The binding just inserted is what index 0 of its name finds. */
  lemma LookupInsertSame<T>(ctx: Context<T>, x: Label, t: T, n: nat)
    ensures Lookup(Insert(ctx, x, t), x, 0) == Some(t)
    ensures Lookup(Insert(ctx, x, t), x, n + 1) == Lookup(ctx, x, n)
  {
    assert Insert(ctx, x, t)[..|ctx|] == ctx;
  }

  /** Inserting a binding of another name does not change what `y` finds. */
  lemma LookupInsertOther<T>(ctx: Context<T>, x: Label, t: T, y: Label, n: nat)
    requires y != x
    ensures Lookup(Insert(ctx, x, t), y, n) == Lookup(ctx, y, n)
  {
    assert Insert(ctx, x, t)[..|ctx|] == ctx;
  }

  /** Rewriting the stored types rewrites what a lookup returns, and only that. */
  lemma {:induction false} LookupMapTypes<T, U>(ctx: Context<T>, g: T -> U, x: Label, n: nat)
    ensures Lookup(MapTypes(ctx, g), x, n) ==
            (match Lookup(ctx, x, n) case None => None case Some(t) => Some(g(t)))
    decreases |ctx|
  {
    if |ctx| > 0 {
      var m := MapTypes(ctx, g);
      var init := ctx[..|ctx| - 1];
      assert m[..|m| - 1] == MapTypes(init, g) by {
        assert forall i :: 0 <= i < |init| ==> m[..|m| - 1][i] == MapTypes(init, g)[i];
      }
      var y := ctx[|ctx| - 1].0;
      if !(y == x && n == 0) {
        LookupMapTypes(init, g, x, if y == x then n - 1 else n);
      }
    }
  }
}
