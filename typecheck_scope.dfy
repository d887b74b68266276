/**
  Open terms do not type.  Every arm of `type_with` types each of its
  sub-terms in the context extended by exactly the binders above it, and
  succeeds only when those typings succeed; the one sub-term it never
  types is a let annotation, which it only normalizes.  So a term with a
  variable that is free outside every let annotation never receives a
  type, whatever the normalizer, `shift`, `subst` and matcher are.
 */
module TypeCheckScope {
  import opened Wrappers
  import opened Syntax
  import opened Contexts
  import opened TypeCheck
  import opened TypeCheckFacts

  /** The names a context binds, innermost last. */
  function Names(ctx: Context<Expr>): (r: seq<Label>)
    ensures |r| == |ctx| && forall i | 0 <= i < |ctx| :: r[i] == ctx[i].0
  {
    seq(|ctx|, i requires 0 <= i < |ctx| => ctx[i].0)
  }

  /** How many times `x` occurs in a list of bound names. */
  function Occurrences(scope: seq<Label>, x: Label): nat
    decreases |scope|
  {
    if |scope| == 0 then 0
    else Occurrences(scope[..|scope| - 1], x) + (if scope[|scope| - 1] == x then 1 else 0)
  }

  /**
    `e` has a variable that `scope` does not bind, outside every let
    annotation.  Binders extend the scope for what they bind over.
   */
  predicate HasFreeVariable(e: Expr, scope: seq<Label>) {
    match e
    case Var(v) => v.index >= Occurrences(scope, v.name)
    case Lam(x, tA, b) => HasFreeVariable(tA, scope) || HasFreeVariable(b, scope + [x])
    case Pi(x, tA, tB) => HasFreeVariable(tA, scope) || HasFreeVariable(tB, scope + [x])
    case App(fn, a) => HasFreeVariable(fn, scope) || HasFreeVariable(a, scope)
    case Let(x, _, r, b) => HasFreeVariable(r, scope) || HasFreeVariable(b, scope + [x])
    case Annot(x, t) => HasFreeVariable(x, scope) || HasFreeVariable(t, scope)
    case BinOp(_, l, r) => HasFreeVariable(l, scope) || HasFreeVariable(r, scope)
    case BoolIf(x, y, z) => HasFreeVariable(x, scope) || HasFreeVariable(y, scope) || HasFreeVariable(z, scope)
    case ListLit(annot, xs) =>
      (annot.Some? && HasFreeVariable(annot.value, scope)) ||
      exists i | 0 <= i < |xs| :: HasFreeVariable(xs[i], scope)
    case OptionalLit(annot, xs) =>
      (annot.Some? && HasFreeVariable(annot.value, scope)) ||
      exists i | 0 <= i < |xs| :: HasFreeVariable(xs[i], scope)
    case Record(kts) => exists i | 0 <= i < |kts| :: HasFreeVariable(kts[i].1, scope)
    case RecordLit(kvs) => exists i | 0 <= i < |kvs| :: HasFreeVariable(kvs[i].1, scope)
    case Union(kts) => exists i | 0 <= i < |kts| :: HasFreeVariable(kts[i].1, scope)
    case UnionLit(_, v, kts) => HasFreeVariable(v, scope) || exists i | 0 <= i < |kts| :: HasFreeVariable(kts[i].1, scope)
    case Merge(h, s, annot) =>
      HasFreeVariable(h, scope) || HasFreeVariable(s, scope) || (annot.Some? && HasFreeVariable(annot.value, scope))
    case Field(r, _) => HasFreeVariable(r, scope)
    case Note(_, x) => HasFreeVariable(x, scope)
    case _ => false
  }

  /** A lookup finds a binding exactly as often as the name occurs among the bound names. */
  lemma {:induction false} CountIsOccurrences(ctx: Context<Expr>, x: Label)
    ensures Count(ctx, x) == Occurrences(Names(ctx), x)
    decreases |ctx|
  {
    if |ctx| > 0 {
      assert Names(ctx)[..|ctx| - 1] == Names(ctx[..|ctx| - 1]);
      CountIsOccurrences(ctx[..|ctx| - 1], x);
    }
  }

  /** The binders of `type_with` add exactly their own name to the scope. */
  lemma NamesUnderBinders(p: Prims, ctx: Context<Expr>, x: Label, t: Expr)
    ensures Names(UnderBinder(p, ctx, x, t)) == Names(ctx) + [x]
    ensures Names(Insert(ctx, x, t)) == Names(ctx) + [x]
  {
  }

  /**
    A term with a variable free outside every let annotation is never
    typed: `type_with` answers with an error, a panic or `OutOfFuel`.
   */
  lemma {:induction false} OpenTermsFail(p: Prims, fuel: nat, ctx: Context<Expr>, e: Expr)
    requires HasFreeVariable(e, Names(ctx))
    ensures !TypeWith(p, fuel, ctx, e).Ok?
    decreases fuel
  {
    if fuel > 0 {
      match e
      case Var(v) => VarOpen(p, fuel, ctx, v);
      case Lam(x, tA, b) => LamOpen(p, fuel, ctx, x, tA, b);
      case Pi(x, tA, tB) => PiOpen(p, fuel, ctx, x, tA, tB);
      case Let(x, annot, r, b) => LetOpen(p, fuel, ctx, x, annot, r, b);
      case App(_, _) => PairOpen(p, fuel, ctx, e);
      case Annot(_, _) => PairOpen(p, fuel, ctx, e);
      case BinOp(_, _, _) => PairOpen(p, fuel, ctx, e);
      case BoolIf(x, y, z) => IfOpen(p, fuel, ctx, x, y, z);
      case ListLit(annot, xs) => ListLitOpen(p, fuel, ctx, annot, xs);
      case OptionalLit(annot, xs) => OptionalLitOpen(p, fuel, ctx, annot, xs);
      case Record(_) => FieldsOpen(p, fuel, ctx, e);
      case RecordLit(_) => FieldsOpen(p, fuel, ctx, e);
      case Field(_, _) => FieldsOpen(p, fuel, ctx, e);
      case Union(_) => UnimplementedPanics(p, fuel, ctx, e);
      case UnionLit(_, _, _) => UnimplementedPanics(p, fuel, ctx, e);
      case Merge(_, _, _) => UnimplementedPanics(p, fuel, ctx, e);
      case Note(_, _) => UnimplementedPanics(p, fuel, ctx, e);
    }
  }

  /** A variable is typed only when the context binds it. */
  lemma VarOpen(p: Prims, fuel: nat, ctx: Context<Expr>, v: V)
    requires fuel > 0 && HasFreeVariable(Var(v), Names(ctx))
    ensures !TypeWith(p, fuel, ctx, Var(v)).Ok?
  {
    CountIsOccurrences(ctx, v.name);
    VarTyping(p, fuel, ctx, v.name, v.index);
  }

  /** The lambda case: the body is typed under the binder, the domain inside the checked function type. */
  lemma LamOpen(p: Prims, fuel: nat, ctx: Context<Expr>, x: Label, tA: Expr, b: Expr)
    requires fuel > 0 && HasFreeVariable(Lam(x, tA, b), Names(ctx))
    ensures !TypeWith(p, fuel, ctx, Lam(x, tA, b)).Ok?
    decreases fuel, 0
  {
    var f := fuel - 1;
    var inner := UnderBinder(p, ctx, x, tA);
    NamesUnderBinders(p, ctx, x, tA);
    var tB := TypeWith(p, f, inner, b);
    if HasFreeVariable(b, Names(inner)) {
      OpenTermsFail(p, f, inner, b);
    } else if tB.Ok? {
      OpenTermsFail(p, f, ctx, Pi(x, tA, tB.value));
    }
    LamTyping(p, fuel, ctx, x, tA, b);
  }

  /** The function-type case: the domain in the context, the codomain under the binder. */
  lemma PiOpen(p: Prims, fuel: nat, ctx: Context<Expr>, x: Label, tA: Expr, tB: Expr)
    requires fuel > 0 && HasFreeVariable(Pi(x, tA, tB), Names(ctx))
    ensures !TypeWith(p, fuel, ctx, Pi(x, tA, tB)).Ok?
    decreases fuel, 0
  {
    var f := fuel - 1;
    NamesUnderBinders(p, ctx, x, tA);
    var openA := HasFreeVariable(tA, Names(ctx));
    OpenTermsFail(p, f, if openA then ctx else UnderBinder(p, ctx, x, tA), if openA then tA else tB);
    PiTyping(p, fuel, ctx, x, tA, tB);
  }

  /** The let case: the value in the context, the body with the binding added; the annotation is not typed. */
  lemma LetOpen(p: Prims, fuel: nat, ctx: Context<Expr>, x: Label, annot: Option<Expr>, r: Expr, b: Expr)
    requires fuel > 0 && HasFreeVariable(Let(x, annot, r, b), Names(ctx))
    ensures !TypeWith(p, fuel, ctx, Let(x, annot, r, b)).Ok?
    decreases fuel, 0
  {
    var f := fuel - 1;
    var tR := TypeWith(p, f, ctx, r);
    if HasFreeVariable(r, Names(ctx)) {
      OpenTermsFail(p, f, ctx, r);
    } else if tR.Ok? {
      NamesUnderBinders(p, ctx, x, tR.value);
      OpenTermsFail(p, f, Insert(ctx, x, tR.value), b);
    }
    LetNeedsItsParts(p, fuel, ctx, x, annot, r, b);
  }

  /** Applications, annotations and operators type both of their sub-terms in the context. */
  lemma PairOpen(p: Prims, fuel: nat, ctx: Context<Expr>, e: Expr)
    requires fuel > 0 && (e.App? || e.Annot? || e.BinOp?) && HasFreeVariable(e, Names(ctx))
    ensures !TypeWith(p, fuel, ctx, e).Ok?
    decreases fuel, 0
  {
    var f := fuel - 1;
    match e
    case App(fn, a) =>
      OpenTermsFail(p, f, ctx, if HasFreeVariable(fn, Names(ctx)) then fn else a);
      AppTyping(p, fuel, ctx, fn, a);
    case Annot(x, t) =>
      OpenTermsFail(p, f, ctx, if HasFreeVariable(x, Names(ctx)) then x else t);
      AnnotTyping(p, fuel, ctx, x, t);
    case BinOp(op, l, r) =>
      OpenTermsFail(p, f, ctx, if HasFreeVariable(l, Names(ctx)) then l else r);
      BinOpTyping(p, fuel, ctx, op, l, r);
  }

  /** The `if` case: the condition and both branches are typed in the context. */
  lemma IfOpen(p: Prims, fuel: nat, ctx: Context<Expr>, x: Expr, y: Expr, z: Expr)
    requires fuel > 0 && HasFreeVariable(BoolIf(x, y, z), Names(ctx))
    ensures !TypeWith(p, fuel, ctx, BoolIf(x, y, z)).Ok?
    decreases fuel, 0
  {
    var f := fuel - 1;
    OpenTermsFail(p, f, ctx, if HasFreeVariable(x, Names(ctx)) then x else if HasFreeVariable(y, Names(ctx)) then y else z);
    IfNeedsItsParts(p, fuel, ctx, x, y, z);
  }

  /** A typed `if` has a typed condition and typed branches. */
  lemma IfNeedsItsParts(p: Prims, fuel: nat, ctx: Context<Expr>, x: Expr, y: Expr, z: Expr)
    requires fuel > 0
    ensures TypeWith(p, fuel, ctx, BoolIf(x, y, z)).Ok? ==>
              TypeWith(p, fuel - 1, ctx, x).Ok? && TypeWith(p, fuel - 1, ctx, y).Ok? && TypeWith(p, fuel - 1, ctx, z).Ok?
  {
    IfTyping(p, fuel, ctx, x, y, z);
  }

  /** Record types, record literals and field selections type every field, or the record selected from. */
  lemma FieldsOpen(p: Prims, fuel: nat, ctx: Context<Expr>, e: Expr)
    requires fuel > 0 && (e.Record? || e.RecordLit? || e.Field?) && HasFreeVariable(e, Names(ctx))
    ensures !TypeWith(p, fuel, ctx, e).Ok?
    decreases fuel, 0
  {
    var f := fuel - 1;
    match e
    case Record(kts) =>
      RecordTyping(p, fuel, ctx, kts);
      var i :| 0 <= i < |kts| && HasFreeVariable(kts[i].1, Names(ctx));
      OpenTermsFail(p, f, ctx, kts[i].1);
    case RecordLit(kvs) =>
      RecordLitTyping(p, fuel, ctx, kvs);
      var i :| 0 <= i < |kvs| && HasFreeVariable(kvs[i].1, Names(ctx));
      OpenTermsFail(p, f, ctx, kvs[i].1);
    case Field(r, x) =>
      FieldTyping(p, fuel, ctx, r, x);
      OpenTermsFail(p, f, ctx, r);
  }

  /** The list-literal case of `OpenTermsFail`: the annotation and every element are typed. */
  lemma ListLitOpen(p: Prims, fuel: nat, ctx: Context<Expr>, annot: Option<Expr>, xs: seq<Expr>)
    requires fuel > 0 && HasFreeVariable(ListLit(annot, xs), Names(ctx))
    ensures !TypeWith(p, fuel, ctx, ListLit(annot, xs)).Ok?
    decreases fuel, 0
  {
    var f := fuel - 1;
    if annot.Some? && HasFreeVariable(annot.value, Names(ctx)) {
      OpenTermsFail(p, f, ctx, annot.value);
    } else {
      var i :| 0 <= i < |xs| && HasFreeVariable(xs[i], Names(ctx));
      OpenTermsFail(p, f, ctx, xs[i]);
    }
    ListNeedsItsParts(p, fuel, ctx, annot, xs);
  }

  /** The optional-literal case of `OpenTermsFail`. */
  lemma OptionalLitOpen(p: Prims, fuel: nat, ctx: Context<Expr>, annot: Option<Expr>, xs: seq<Expr>)
    requires fuel > 0 && HasFreeVariable(OptionalLit(annot, xs), Names(ctx))
    ensures !TypeWith(p, fuel, ctx, OptionalLit(annot, xs)).Ok?
    decreases fuel, 0
  {
    var f := fuel - 1;
    if annot.Some? && HasFreeVariable(annot.value, Names(ctx)) {
      OpenTermsFail(p, f, ctx, annot.value);
    } else {
      var i :| 0 <= i < |xs| && HasFreeVariable(xs[i], Names(ctx));
      OpenTermsFail(p, f, ctx, xs[i]);
    }
    OptionalNeedsItsParts(p, fuel, ctx, annot, xs);
  }

  /** A typed let has a typed value and a body typed with the value's binding. */
  lemma LetNeedsItsParts(p: Prims, fuel: nat, ctx: Context<Expr>, x: Label, annot: Option<Expr>, r: Expr, b: Expr)
    requires fuel > 0
    ensures var tR := TypeWith(p, fuel - 1, ctx, r);
            TypeWith(p, fuel, ctx, Let(x, annot, r, b)).Ok? ==>
              tR.Ok? && TypeWith(p, fuel - 1, Insert(ctx, x, tR.value), b).Ok?
  {
    LetTyping(p, fuel, ctx, x, annot, r, b);
  }

  /** A typed list literal has a typed annotation and typed elements. */
  lemma ListNeedsItsParts(p: Prims, fuel: nat, ctx: Context<Expr>, annot: Option<Expr>, xs: seq<Expr>)
    requires fuel > 0 && (annot.Some? || |xs| > 0)
    ensures TypeWith(p, fuel, ctx, ListLit(annot, xs)).Ok? ==>
              (annot.Some? ==> TypeWith(p, fuel - 1, ctx, annot.value).Ok?) &&
              forall i | 0 <= i < |xs| :: TypeWith(p, fuel - 1, ctx, xs[i]).Ok?
  {
    ListLitTyping(p, fuel, ctx, annot, xs);
  }

  /** A typed optional literal has a typed annotation and a typed element. */
  lemma OptionalNeedsItsParts(p: Prims, fuel: nat, ctx: Context<Expr>, annot: Option<Expr>, xs: seq<Expr>)
    requires fuel > 0 && (annot.Some? || |xs| > 0)
    ensures TypeWith(p, fuel, ctx, OptionalLit(annot, xs)).Ok? ==>
              (annot.Some? ==> TypeWith(p, fuel - 1, ctx, annot.value).Ok?) &&
              forall i | 0 <= i < |xs| :: TypeWith(p, fuel - 1, ctx, xs[i]).Ok?
  {
    OptionalLitTyping(p, fuel, ctx, annot, xs);
  }

  /**
    `type_of` never types a term with a variable free outside every let
    annotation.
   */
  lemma TypeOfRejectsOpenTerms(p: Prims, fuel: nat, e: Expr)
    requires HasFreeVariable(e, [])
    ensures !TypeOf(p, fuel, e).Ok?
  {
    assert Names(Empty()) == [];
    OpenTermsFail(p, fuel, Empty(), e);
  }
}
