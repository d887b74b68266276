/**
  The type-checking judgement `type_with(ctx, e)` and `type_of(e)`.

  The normalizer, `shift` and `subst` of dhall_core are not part of this
  model: they are handed in as `Prims`, and every property is stated for
  whatever functions are handed in.  So is the matcher `prop_equal` uses,
  so that the judgement can be run as written or with the corrected one.  The judgement re-enters itself on the types
  it computes, so its termination is not structural: `fuel` bounds the depth
  of recursion and running out of it is an outcome of its own.
 */
module TypeCheck {
  import opened Wrappers
  import opened Syntax
  import opened Contexts
  import opened TypeErrors
  import opened Universe
  import opened Alpha

  /**
    What the judgement is run with: the normalizer, `shift` and `subst` of
    dhall_core, and the variable matcher of `prop_equal`.  `AsWritten`
    gives the source's own matcher.
   */
  datatype Prims = Prims(
    normalize: Expr -> Expr,
    shift: (int, V, Expr) -> Expr,
    subst: (V, Expr, Expr) -> Expr,
    matcher: Matcher)

  /** The judgement as the source runs it: `prop_equal` with `match_vars` as written. */
  function AsWritten(normalize: Expr -> Expr, shift: (int, V, Expr) -> Expr,
                     subst: (V, Expr, Expr) -> Expr): Prims {
    Prims(normalize, shift, subst, MatchVars)
  }

  /** The context under a binder `x : tA`: inserted, then every type shifted past it. */
  function UnderBinder(p: Prims, ctx: Context<Expr>, x: Label, tA: Expr): (r: Context<Expr>)
    ensures |r| == |ctx| + 1 && r[|ctx|] == (x, p.shift(1, V(x, 0), tA))
    ensures forall i :: 0 <= i < |ctx| ==> r[i] == (ctx[i].0, p.shift(1, V(x, 0), ctx[i].1))
  {
    MapTypes(Insert(ctx, x, tA), t => p.shift(1, V(x, 0), t))
  }

  /** A string in a builtin's signature: the variable of that name with index 0. */
  function Named(x: Label): Expr {
    Var(V(x, 0))
  }

  /** `List a`, `Optional a` and the like, in a builtin's signature. */
  function Applied(b: Builtin, x: Label): Expr {
    App(Builtin(b), Named(x))
  }

  /** The fixed types of the builtins the checker handles. */
  function BuiltinType(b: Builtin): Outcome<Expr> {
    match b
    case NaturalFold =>
      Ok(Pi("_", Builtin(Natural),
            Pi("natural", Const(Type),
               Pi("succ", Pi("_", Named("natural"), Named("natural")),
                  Pi("zero", Named("natural"), Named("natural"))))))
    case NaturalBuild =>
      Ok(Pi("_", Pi("natural", Const(Type),
                    Pi("succ", Pi("_", Named("natural"), Named("natural")),
                       Pi("zero", Named("natural"), Named("natural")))),
            Builtin(Natural)))
    case NaturalIsZero => Ok(Pi("_", Builtin(Natural), Builtin(Bool)))
    case NaturalEven => Ok(Pi("_", Builtin(Natural), Builtin(Bool)))
    case NaturalOdd => Ok(Pi("_", Builtin(Natural), Builtin(Bool)))
    case ListBuild =>
      Ok(Pi("a", Const(Type),
            Pi("_", Pi("list", Const(Type),
                       Pi("cons", Pi("_", Named("a"), Pi("_", Named("list"), Named("list"))),
                          Pi("nil", Named("list"), Named("list")))),
               Applied(List, "a"))))
    case ListFold =>
      Ok(Pi("a", Const(Type),
            Pi("_", Applied(List, "a"),
               Pi("list", Const(Type),
                  Pi("cons", Pi("_", Named("a"), Pi("_", Named("list"), Named("list"))),
                     Pi("nil", Named("list"), Named("list")))))))
    case ListLength => Ok(Pi("a", Const(Type), Pi("_", Applied(List, "a"), Builtin(Natural))))
    case ListHead => Ok(Pi("a", Const(Type), Pi("_", Applied(List, "a"), Applied(Optional, "a"))))
    case ListLast => Ok(Pi("a", Const(Type), Pi("_", Applied(List, "a"), Applied(Optional, "a"))))
    case ListIndexed =>
      Ok(Pi("a", Const(Type),
            Pi("_", Applied(List, "a"),
               App(Builtin(List), Record([("index", Builtin(Natural)), ("value", Named("a"))])))))
    case ListReverse => Ok(Pi("a", Const(Type), Pi("_", Applied(List, "a"), Applied(List, "a"))))
    case OptionalFold =>
      Ok(Pi("a", Const(Type),
            Pi("_", Applied(Optional, "a"),
               Pi("optional", Const(Type),
                  Pi("just", Pi("_", Named("a"), Named("optional")),
                     Pi("nothing", Named("optional"), Named("optional")))))))
    case List => Ok(Pi("_", Const(Type), Const(Type)))
    case Optional => Ok(Pi("_", Const(Type), Const(Type)))
    case Bool => Ok(Const(Type))
    case Natural => Ok(Const(Type))
    case Integer => Ok(Const(Type))
    case Double => Ok(Const(Type))
    case Text => Ok(Const(Type))
    case OtherBuiltin(_) => Panic(Unimplemented(Builtin(b)))
  }

  /** `type_with(ctx, e)`, with one unit of fuel spent on each call. */
  function TypeWith(p: Prims, fuel: nat, ctx: Context<Expr>, e: Expr): Outcome<Expr>
    decreases fuel, 0, 0
  {
    if fuel == 0 then OutOfFuel else TypeRule(p, fuel - 1, ctx, e)
  }

  /** The body of `type_with`: one arm per kind of expression, the larger ones as rules of their own. */
  function TypeRule(p: Prims, f: nat, ctx: Context<Expr>, e: Expr): Outcome<Expr>
    decreases f, 4, 0
  {
    match e
    case Const(c) =>
      var k :- Axiom(c);
      Ok(Const(k))
    case Var(V(x, n)) =>
      (match Lookup(ctx, x, n)
       case Some(t) => Ok(t)
       case None => Err(TypeError(ctx, e, UnboundVariable)))
    case Lam(x, tA, b) => LamType(p, f, ctx, x, tA, b)
    case Pi(x, tA, tB) => PiType(p, f, ctx, x, tA, tB)
    case App(fn, a) => AppType(p, f, ctx, fn, a)
    case Let(x, annot, r, b) => LetType(p, f, ctx, x, annot, r, b)
    case Annot(x, t) => AnnotType(p, f, ctx, x, t)
    case BoolLit(_) => Ok(Builtin(Bool))
    case BinOp(op, l, r) => BinOpType(p, f, ctx, op, l, r)
    case BoolIf(x, y, z) => IfType(p, f, ctx, x, y, z)
    case NaturalLit(_) => Ok(Builtin(Natural))
    case IntegerLit(_) => Ok(Builtin(Integer))
    case DoubleLit(_) => Ok(Builtin(Double))
    case TextLit(_) => Ok(Builtin(Text))
    case ListLit(annot, xs) => ListLitType(p, f, ctx, annot, xs)
    case OptionalLit(annot, xs) => OptionalLitType(p, f, ctx, annot, xs)
    case Builtin(b) => BuiltinType(b)
    case Record(kts) =>
      var checked :- FieldTypes(p, f, ctx, e, kts, 0);
      Ok(Const(Type))
    case RecordLit(kvs) =>
      var kts :- FieldValues(p, f, ctx, e, kvs, 0);
      Ok(Record(kts))
    case Field(r, x) => FieldType(p, f, ctx, r, x)
    case Union(_) => Panic(Unimplemented(e))
    case UnionLit(_, _, _) => Panic(Unimplemented(e))
    case Merge(_, _, _) => Panic(Unimplemented(e))
    case Note(_, _) => Panic(Unimplemented(e))
  }

  /** A lambda: its body under the binder, then the function type it builds must itself check. */
  function LamType(p: Prims, f: nat, ctx: Context<Expr>, x: Label, tA: Expr, b: Expr): Outcome<Expr>
    decreases f, 2, 0
  {
    var ctx2 := UnderBinder(p, ctx, x, tA);
    var tB :- TypeWith(p, f, ctx2, b);
    var pi := Pi(x, tA, tB);
    var piType :- TypeWith(p, f, ctx, pi);
    Ok(pi)
  }

  /** A function type: domain and codomain are types of universes allowed together by `rule`. */
  function PiType(p: Prims, f: nat, ctx: Context<Expr>, x: Label, tA: Expr, tB: Expr): Outcome<Expr>
    decreases f, 2, 0
  {
    var e := Pi(x, tA, tB);
    var sA :- TypeWith(p, f, ctx, tA);
    var tA2 := p.normalize(sA);
    if !tA2.Const? then Err(TypeError(ctx, e, InvalidInputType(tA))) else
    var ctx2 := UnderBinder(p, ctx, x, tA);
    var sB :- TypeWith(p, f, ctx2, tB);
    var tB2 := p.normalize(sB);
    if !tB2.Const? then Err(TypeError(ctx2, e, InvalidOutputType(tB2))) else
    match Rule(tA2.c, tB2.c)
    case None => Err(TypeError(ctx, e, NoDependentTypes(tA, tB2)))
    case Some(k) => Ok(Const(k))
  }

  /** An application: the function's type is a `Pi` whose domain matches the argument's type. */
  function AppType(p: Prims, f: nat, ctx: Context<Expr>, fn: Expr, a: Expr): Outcome<Expr>
    decreases f, 2, 0
  {
    var e := App(fn, a);
    var tf0 :- TypeWith(p, f, ctx, fn);
    var tf := p.normalize(tf0);
    if !tf.Pi? then Err(TypeError(ctx, e, NotAFunction(fn, tf))) else
    var tA2 :- TypeWith(p, f, ctx, a);
    if PropEqual(p.matcher, p.normalize, tf.tA, tA2) then
      var vx0 := V(tf.x, 0);
      var a2 := p.shift(1, vx0, a);
      var tB2 := p.subst(vx0, a2, tf.tB);
      Ok(p.shift(-1, vx0, tB2))
    else
      Err(TypeError(ctx, e, TypeMismatch(fn, p.normalize(tf.tA), a, p.normalize(tA2))))
  }

  /**
    A let binding.  As in the source, the body is checked in the context
    extended with `x : tR` without shifting the types already in it, and the
    type of the body is checked in the outer context.
   */
  function LetType(p: Prims, f: nat, ctx: Context<Expr>, x: Label, annot: Option<Expr>,
                   r: Expr, b: Expr): Outcome<Expr>
    decreases f, 3, 0
  {
    var e := Let(x, annot, r, b);
    var tR :- TypeWith(p, f, ctx, r);
    var ttR0 :- TypeWith(p, f, ctx, tR);
    var ttR := p.normalize(ttR0);
    if !ttR.Const? then Err(TypeError(ctx, e, InvalidInputType(tR)))
    else LetBodyType(p, f, ctx, x, annot, r, b, tR, ttR.c)
  }

  /** The rest of a let binding once the bound value has type `tR` of universe `kR`. */
  function LetBodyType(p: Prims, f: nat, ctx: Context<Expr>, x: Label, annot: Option<Expr>,
                       r: Expr, b: Expr, tR: Expr, kR: Const): Outcome<Expr>
    decreases f, 2, 0
  {
    var e := Let(x, annot, r, b);
    var ctx2 := Insert(ctx, x, tR);
    var tB :- TypeWith(p, f, ctx2, b);
    var ttB0 :- TypeWith(p, f, ctx, tB);
    var ttB := p.normalize(ttB0);
    if !ttB.Const? then Err(TypeError(ctx, e, InvalidOutputType(tB)))
    else if Rule(kR, ttB.c).None? then Err(TypeError(ctx, e, NoDependentLet(tR, tB)))
    else if annot.Some? && !PropEqual(p.matcher, p.normalize, p.normalize(tR), p.normalize(annot.value)) then
      Err(TypeError(ctx, e, AnnotMismatch(r, p.normalize(annot.value), p.normalize(tR))))
    else Ok(tB)
  }

  /** An annotation: the annotation checks, and the term's type equals it. */
  function AnnotType(p: Prims, f: nat, ctx: Context<Expr>, x: Expr, t: Expr): Outcome<Expr>
    decreases f, 2, 0
  {
    var annotType :- TypeWith(p, f, ctx, t);
    var t2 :- TypeWith(p, f, ctx, x);
    if PropEqual(p.matcher, p.normalize, t, t2) then Ok(t)
    else Err(TypeError(ctx, Annot(x, t), AnnotMismatch(x, p.normalize(t), p.normalize(t2))))
  }

  /** The binary operators the checker handles, each through `op2_type`. */
  function BinOpType(p: Prims, f: nat, ctx: Context<Expr>, op: BinOp, l: Expr, r: Expr): Outcome<Expr>
    decreases f, 2, 0
  {
    var e := BinOp(op, l, r);
    match op
    case BoolAnd => Op2Type(p, f, ctx, e, Bool, (a, b) => CantAnd(a, b), l, r)
    case BoolOr => Op2Type(p, f, ctx, e, Bool, (a, b) => CantOr(a, b), l, r)
    case BoolEQ => Op2Type(p, f, ctx, e, Bool, (a, b) => CantEQ(a, b), l, r)
    case BoolNE => Op2Type(p, f, ctx, e, Bool, (a, b) => CantNE(a, b), l, r)
    case NaturalPlus => Op2Type(p, f, ctx, e, Natural, (a, b) => CantAdd(a, b), l, r)
    case NaturalTimes => Op2Type(p, f, ctx, e, Natural, (a, b) => CantMultiply(a, b), l, r)
    case TextAppend => Op2Type(p, f, ctx, e, Text, (a, b) => CantTextAppend(a, b), l, r)
    case _ => Panic(Unimplemented(e))
  }

  /** `if x then y else z`: a `Bool` condition and two branches of one type of kind `Type`. */
  function IfType(p: Prims, f: nat, ctx: Context<Expr>, x: Expr, y: Expr, z: Expr): Outcome<Expr>
    decreases f, 3, 0
  {
    var e := BoolIf(x, y, z);
    var tx0 :- TypeWith(p, f, ctx, x);
    var tx := p.normalize(tx0);
    if tx != Builtin(Bool) then Err(TypeError(ctx, e, InvalidPredicate(x, tx))) else
    var ty0 :- TypeWith(p, f, ctx, y);
    var ty := p.normalize(ty0);
    var tty0 :- TypeWith(p, f, ctx, ty);
    var tty := p.normalize(tty0);
    if tty != Const(Type) then Err(TypeError(ctx, e, IfBranchMustBeTerm(true, y, ty, tty)))
    else IfElseType(p, f, ctx, x, y, z, ty)
  }

  /** The rest of `if x then y else z` once the `then` branch has the normalized type `ty` of kind `Type`. */
  function IfElseType(p: Prims, f: nat, ctx: Context<Expr>, x: Expr, y: Expr, z: Expr, ty: Expr): Outcome<Expr>
    decreases f, 2, 0
  {
    var e := BoolIf(x, y, z);
    var tz0 :- TypeWith(p, f, ctx, z);
    var tz := p.normalize(tz0);
    var ttz0 :- TypeWith(p, f, ctx, tz);
    var ttz := p.normalize(ttz0);
    if ttz != Const(Type) then Err(TypeError(ctx, e, IfBranchMustBeTerm(false, z, tz, ttz)))
    else if !PropEqual(p.matcher, p.normalize, ty, tz) then Err(TypeError(ctx, e, IfBranchMismatch(y, z, ty, tz)))
    else Ok(ty)
  }

  /**
    The element type of a list or optional literal: its annotation, or else
    the type of its first element.  The caller has ruled out an unannotated
    empty literal.
   */
  function ElementType(p: Prims, f: nat, ctx: Context<Expr>, annot: Option<Expr>, xs: seq<Expr>): Outcome<Expr>
    requires annot.Some? || |xs| > 0
    decreases f, 2, 0
  {
    if annot.Some? then Ok(annot.value) else TypeWith(p, f, ctx, xs[0])
  }

  /** A list literal: its element type has kind `Type` and every element has that type. */
  function ListLitType(p: Prims, f: nat, ctx: Context<Expr>, annot: Option<Expr>, xs: seq<Expr>): Outcome<Expr>
    decreases f, 3, 0
  {
    var e := ListLit(annot, xs);
    if annot.None? && |xs| == 0 then Panic(EmptyListLiteral) else
    var t :- ElementType(p, f, ctx, annot, xs);
    var s0 :- TypeWith(p, f, ctx, t);
    if p.normalize(s0) != Const(Type) then Err(TypeError(ctx, e, InvalidListType(t))) else
    var checked :- ListElements(p.matcher, p.normalize, ctx, e, t, xs, ElementTypes(p, f, ctx, xs),
                                if annot.Some? then 0 else 1);
    Ok(App(Builtin(List), t))
  }

  /** An optional literal: as a list literal, but with at most one element. */
  function OptionalLitType(p: Prims, f: nat, ctx: Context<Expr>, annot: Option<Expr>, xs: seq<Expr>): Outcome<Expr>
    decreases f, 3, 0
  {
    var e := OptionalLit(annot, xs);
    if annot.None? && |xs| == 0 then Panic(EmptyOptionalLiteral) else
    var t :- ElementType(p, f, ctx, annot, xs);
    var s0 :- TypeWith(p, f, ctx, t);
    if p.normalize(s0) != Const(Type) then Err(TypeError(ctx, e, InvalidOptionalType(t)))
    else if 2 <= |xs| then Err(TypeError(ctx, e, InvalidOptionalLiteral(|xs|))) else
    var checked :- OptionalElements(p.matcher, p.normalize, ctx, e, t, xs, ElementTypes(p, f, ctx, xs),
                                    if annot.Some? then 0 else 1);
    Ok(App(Builtin(Optional), t))
  }

  /** A field selection `r.x`: `r` has a record type with a field `x`. */
  function FieldType(p: Prims, f: nat, ctx: Context<Expr>, r: Expr, x: Label): Outcome<Expr>
    decreases f, 2, 0
  {
    var e := Field(r, x);
    var t0 :- TypeWith(p, f, ctx, r);
    var t := p.normalize(t0);
    if t.Record? then
      match FieldLookup(t.fieldTypes, x)
      case Some(ft) => Ok(ft)
      case None => Err(TypeError(ctx, e, MissingField(x, t)))
    else Err(TypeError(ctx, e, NotARecord(x, r, t)))
  }

  /**
    `op2_type`: both operands must have the builtin type `t` once
    normalized, the left one checked first; a failure names the operand and
    its normalized type through the constructor `ef`.
   */
  function Op2Type(p: Prims, fuel: nat, ctx: Context<Expr>, e: Expr, t: Builtin,
                   ef: (Expr, Expr) -> TypeMessage, l: Expr, r: Expr): Outcome<Expr>
    decreases fuel, 1, 0
  {
    var tl0 :- TypeWith(p, fuel, ctx, l);
    var tl := p.normalize(tl0);
    if tl != Builtin(t) then Err(TypeError(ctx, e, ef(l, tl))) else
    var tr0 :- TypeWith(p, fuel, ctx, r);
    var tr := p.normalize(tr0);
    if tr != Builtin(t) then Err(TypeError(ctx, e, ef(r, tr))) else
    Ok(Builtin(t))
  }

  /**
    The types of the elements of a literal, each as `type_with` gives it.
    The loops below stop at the first failure, so listing every element's
    type up front does not change their outcome.
   */
  function ElementTypes(p: Prims, fuel: nat, ctx: Context<Expr>, xs: seq<Expr>): (ts: seq<Outcome<Expr>>)
    ensures |ts| == |xs|
    decreases fuel, 1, 0
  {
    seq(|xs|, j requires 0 <= j < |xs| => TypeWith(p, fuel, ctx, xs[j]))
  }

  /** The loop over the elements of a list literal from position `i` on, given their types `ts`. */
  function ListElements(mv: Matcher, normalize: Expr -> Expr, ctx: Context<Expr>, e: Expr, t: Expr,
                        xs: seq<Expr>, ts: seq<Outcome<Expr>>, i: nat): Outcome<()>
    requires |ts| == |xs|
    decreases |xs| - i
  {
    if i >= |xs| then Ok(()) else
    var t2 :- ts[i];
    if !PropEqual(mv, normalize, t, t2) then
      Err(TypeError(ctx, e, InvalidListElement(i, normalize(t), xs[i], normalize(t2))))
    else ListElements(mv, normalize, ctx, e, t, xs, ts, i + 1)
  }

  /** The loop over the elements of an optional literal from position `i` on, given their types `ts`. */
  function OptionalElements(mv: Matcher, normalize: Expr -> Expr, ctx: Context<Expr>, e: Expr, t: Expr,
                            xs: seq<Expr>, ts: seq<Outcome<Expr>>, i: nat): Outcome<()>
    requires |ts| == |xs|
    decreases |xs| - i
  {
    if i >= |xs| then Ok(()) else
    var t2 :- ts[i];
    if !PropEqual(mv, normalize, t, t2) then
      Err(TypeError(ctx, e, InvalidOptionalElement(normalize(t), xs[i], normalize(t2))))
    else OptionalElements(mv, normalize, ctx, e, t, xs, ts, i + 1)
  }

  /** The loop over the fields of a record type from position `i` on. */
  function FieldTypes(p: Prims, fuel: nat, ctx: Context<Expr>, e: Expr,
                      kts: seq<(Label, Expr)>, i: nat): Outcome<()>
    decreases fuel, 1, |kts| - i
  {
    if i >= |kts| then Ok(()) else
    var s0 :- TypeWith(p, fuel, ctx, kts[i].1);
    if p.normalize(s0) != Const(Type) then
      Err(TypeError(ctx, e, InvalidFieldType(kts[i].0, kts[i].1)))
    else FieldTypes(p, fuel, ctx, e, kts, i + 1)
  }

  /** The field types of a record literal from position `i` on, stopping at the first error. */
  function FieldValues(p: Prims, fuel: nat, ctx: Context<Expr>, e: Expr,
                       kvs: seq<(Label, Expr)>, i: nat): Outcome<seq<(Label, Expr)>>
    decreases fuel, 1, |kvs| - i
  {
    if i >= |kvs| then Ok([]) else
    var t :- TypeWith(p, fuel, ctx, kvs[i].1);
    var s0 :- TypeWith(p, fuel, ctx, t);
    if p.normalize(s0) != Const(Type) then
      Err(TypeError(ctx, e, InvalidField(kvs[i].0, kvs[i].1)))
    else
      var rest :- FieldValues(p, fuel, ctx, e, kvs, i + 1);
      Ok([(kvs[i].0, t)] + rest)
  }

  /** `type_of(e)`: `type_with` in the empty context, so every free variable is unbound. */
  function TypeOf(p: Prims, fuel: nat, e: Expr): (r: Outcome<Expr>)
    ensures fuel > 0 && e.Var? ==> r == Err(TypeError([], e, UnboundVariable))
  {
    assert fuel > 0 ==> TypeWith(p, fuel, Empty(), e) == TypeRule(p, fuel - 1, Empty(), e);
    TypeWith(p, fuel, Empty(), e)
  }
}
