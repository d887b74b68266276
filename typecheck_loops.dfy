/**
  The three loops of `type_with` as the source runs them: over the
  remaining elements of a list literal, over the remaining element of an
  optional literal, and over the fields of a record type, each returning at
  the first failure.  Each is proved to compute what the corresponding arm
  of the judgement computes.
 */
module TypeCheckLoops {
  import opened Syntax
  import opened Contexts
  import opened TypeErrors
  import opened Alpha
  import opened TypeCheck

  /** `for (i, x) in iter { ... }` of the list-literal arm, from position `start`. */
  method CheckListElements(p: Prims, fuel: nat, ctx: Context<Expr>, e: Expr, t: Expr,
                           xs: seq<Expr>, start: nat) returns (r: Outcome<()>)
    ensures r == ListElements(p.matcher, p.normalize, ctx, e, t, xs, ElementTypes(p, fuel, ctx, xs), start)
  {
    ghost var ts := ElementTypes(p, fuel, ctx, xs);
    var i := start;
    while i < |xs|
      invariant start <= i
      invariant ListElements(p.matcher, p.normalize, ctx, e, t, xs, ts, i) == ListElements(p.matcher, p.normalize, ctx, e, t, xs, ts, start)
      decreases |xs| - i
    {
      var t2 :- TypeWith(p, fuel, ctx, xs[i]);
      if !PropEqual(p.matcher, p.normalize, t, t2) {
        return Err(TypeError(ctx, e, InvalidListElement(i, p.normalize(t), xs[i], p.normalize(t2))));
      }
      i := i + 1;
    }
    return Ok(());
  }

  /** `for x in iter { ... }` of the optional-literal arm, from position `start`. */
  method CheckOptionalElements(p: Prims, fuel: nat, ctx: Context<Expr>, e: Expr, t: Expr,
                               xs: seq<Expr>, start: nat) returns (r: Outcome<()>)
    ensures r == OptionalElements(p.matcher, p.normalize, ctx, e, t, xs, ElementTypes(p, fuel, ctx, xs), start)
  {
    ghost var ts := ElementTypes(p, fuel, ctx, xs);
    var i := start;
    while i < |xs|
      invariant start <= i
      invariant OptionalElements(p.matcher, p.normalize, ctx, e, t, xs, ts, i) == OptionalElements(p.matcher, p.normalize, ctx, e, t, xs, ts, start)
      decreases |xs| - i
    {
      var t2 :- TypeWith(p, fuel, ctx, xs[i]);
      if !PropEqual(p.matcher, p.normalize, t, t2) {
        return Err(TypeError(ctx, e, InvalidOptionalElement(p.normalize(t), xs[i], p.normalize(t2))));
      }
      i := i + 1;
    }
    return Ok(());
  }

  /** `for (k, t) in kts { ... }` of the record-type arm. */
  method CheckFieldTypes(p: Prims, fuel: nat, ctx: Context<Expr>, e: Expr,
                         kts: seq<(Label, Expr)>) returns (r: Outcome<()>)
    ensures r == FieldTypes(p, fuel, ctx, e, kts, 0)
  {
    var i := 0;
    while i < |kts|
      invariant i <= |kts|
      invariant FieldTypes(p, fuel, ctx, e, kts, i) == FieldTypes(p, fuel, ctx, e, kts, 0)
    {
      var (k, t) := kts[i];
      var s0 :- TypeWith(p, fuel, ctx, t);
      if p.normalize(s0) != Const(Type) {
        return Err(TypeError(ctx, e, InvalidFieldType(k, t)));
      }
      i := i + 1;
    }
    return Ok(());
  }
}
