/**
  What the typing rules promise, one rule at a time: the type each kind of
  expression receives, the conditions under which it receives one, and the
  error reported otherwise.  Every statement is about `TypeWith` with at
  least one unit of fuel, and by `TypeWithFuelMonotone` holds for every
  larger amount of fuel as well.
 */
module TypeCheckFacts {
  import opened Wrappers
  import opened Syntax
  import opened Contexts
  import opened TypeErrors
  import opened Universe
  import opened Nameless
  import opened Alpha
  import opened TypeCheck

  /** One unit of fuel is spent to enter the rules. */
  lemma Enter(p: Prims, fuel: nat, ctx: Context<Expr>, e: Expr)
    requires fuel > 0
    ensures TypeWith(p, fuel, ctx, e) == TypeRule(p, fuel - 1, ctx, e)
  {
  }

  /** `Type : Kind`, and `Kind` has no type; the error names `Kind` in the empty context. */
  lemma ConstTyping(p: Prims, fuel: nat, ctx: Context<Expr>)
    requires fuel > 0
    ensures TypeWith(p, fuel, ctx, Const(Type)) == Ok(Const(Kind))
    ensures TypeWith(p, fuel, ctx, Const(Kind)) == Err(TypeError([], Const(Kind), Untyped))
  {
    Enter(p, fuel, ctx, Const(Type));
    Enter(p, fuel, ctx, Const(Kind));
  }

  /**
    A variable has a type exactly when the context binds its name at least
    `n + 1` times; the type is one bound to that name, and otherwise the
    variable is reported unbound.
   */
  lemma VarTyping(p: Prims, fuel: nat, ctx: Context<Expr>, x: Label, n: nat)
    requires fuel > 0
    ensures var r := TypeWith(p, fuel, ctx, Var(V(x, n)));
            (r.Ok? <==> n < Count(ctx, x)) &&
            (r.Ok? ==> exists i :: 0 <= i < |ctx| && ctx[i] == (x, r.value)) &&
            (!r.Ok? ==> r == Err(TypeError(ctx, Var(V(x, n)), UnboundVariable)))
  {
    Enter(p, fuel, ctx, Var(V(x, n)));
  }

  /** Under a binder `x : tA`, the variable `x@0` has the domain type shifted past that binder. */
  lemma BoundVariableTyping(p: Prims, fuel: nat, ctx: Context<Expr>, x: Label, tA: Expr)
    requires fuel > 0
    ensures TypeWith(p, fuel, UnderBinder(p, ctx, x, tA), Var(V(x, 0))) == Ok(p.shift(1, V(x, 0), tA))
  {
    var g := t => p.shift(1, V(x, 0), t);
    LookupInsertSame(ctx, x, tA, 0);
    LookupMapTypes(Insert(ctx, x, tA), g, x, 0);
    Enter(p, fuel, UnderBinder(p, ctx, x, tA), Var(V(x, 0)));
  }

  /** Literals have the builtin type of their kind. */
  lemma LiteralTyping(p: Prims, fuel: nat, ctx: Context<Expr>, b: bool, n: nat, i: int, d: int, s: string)
    requires fuel > 0
    ensures TypeWith(p, fuel, ctx, BoolLit(b)) == Ok(Builtin(Bool))
    ensures TypeWith(p, fuel, ctx, NaturalLit(n)) == Ok(Builtin(Natural))
    ensures TypeWith(p, fuel, ctx, IntegerLit(i)) == Ok(Builtin(Integer))
    ensures TypeWith(p, fuel, ctx, DoubleLit(d)) == Ok(Builtin(Double))
    ensures TypeWith(p, fuel, ctx, TextLit(s)) == Ok(Builtin(Text))
  {
    Enter(p, fuel, ctx, BoolLit(b));
    Enter(p, fuel, ctx, NaturalLit(n));
    Enter(p, fuel, ctx, IntegerLit(i));
    Enter(p, fuel, ctx, DoubleLit(d));
    Enter(p, fuel, ctx, TextLit(s));
  }

  /**
    The base types are types, `List` and `Optional` map types to types, the
    Natural predicates map `Natural` to `Bool`, `Natural/fold` and
    `Natural/build` convert between `Natural` and its Church encoding, and
    any other builtin is not handled.
   */
  lemma BuiltinTyping(p: Prims, fuel: nat, ctx: Context<Expr>, b: Builtin)
    requires fuel > 0
    ensures b in {Bool, Natural, Integer, Double, Text} ==>
            TypeWith(p, fuel, ctx, Builtin(b)) == Ok(Const(Type))
    ensures b in {List, Optional} ==>
            TypeWith(p, fuel, ctx, Builtin(b)) == Ok(Pi("_", Const(Type), Const(Type)))
    ensures b in {NaturalIsZero, NaturalEven, NaturalOdd} ==>
            TypeWith(p, fuel, ctx, Builtin(b)) == Ok(Pi("_", Builtin(Natural), Builtin(Bool)))
    ensures b == NaturalFold ==>
            TypeWith(p, fuel, ctx, Builtin(b)) == Ok(Pi("_", Builtin(Natural), ChurchNatural()))
    ensures b == NaturalBuild ==>
            TypeWith(p, fuel, ctx, Builtin(b)) == Ok(Pi("_", ChurchNatural(), Builtin(Natural)))
    ensures b.OtherBuiltin? ==> TypeWith(p, fuel, ctx, Builtin(b)) == Panic(Unimplemented(Builtin(b)))
  {
    Enter(p, fuel, ctx, Builtin(b));
    assert TypeWith(p, fuel, ctx, Builtin(b)) == BuiltinType(b);
  }

  /**
    The list builtins abstract over an element type `a : Type`; all but
    `List/build` then take a `List a`, and `Optional/fold` takes an
    `Optional a`.
   */
  lemma PolymorphicBuiltinTyping(p: Prims, fuel: nat, ctx: Context<Expr>, b: Builtin)
    requires fuel > 0
    ensures b == ListBuild ==>
            TypeWith(p, fuel, ctx, Builtin(b)) == Ok(Pi("a", Const(Type), Pi("_", ChurchList(), Applied(List, "a"))))
    ensures b in {ListFold, ListLength, ListHead, ListLast, ListIndexed, ListReverse} ==>
            var t := TypeWith(p, fuel, ctx, Builtin(b));
            t.Ok? && t.value.Pi? && t.value.x == "a" && t.value.tA == Const(Type) &&
            t.value.tB.Pi? && t.value.tB.x == "_" && t.value.tB.tA == Applied(List, "a")
    ensures b == ListFold ==> TypeWith(p, fuel, ctx, Builtin(b)).value.tB.tB == ChurchList()
    ensures b == ListLength ==> TypeWith(p, fuel, ctx, Builtin(b)).value.tB.tB == Builtin(Natural)
    ensures b in {ListHead, ListLast} ==> TypeWith(p, fuel, ctx, Builtin(b)).value.tB.tB == Applied(Optional, "a")
    ensures b == ListIndexed ==>
            TypeWith(p, fuel, ctx, Builtin(b)).value.tB.tB ==
            App(Builtin(List), Record([("index", Builtin(Natural)), ("value", Named("a"))]))
    ensures b == ListReverse ==> TypeWith(p, fuel, ctx, Builtin(b)).value.tB.tB == Applied(List, "a")
    ensures b == OptionalFold ==>
            TypeWith(p, fuel, ctx, Builtin(b)) == Ok(Pi("a", Const(Type), Pi("_", Applied(Optional, "a"), ChurchOptional())))
  {
    Enter(p, fuel, ctx, Builtin(b));
    assert TypeWith(p, fuel, ctx, Builtin(b)) == BuiltinType(b);
  }

  /** `forall (natural : Type) -> (natural -> natural) -> natural -> natural`. */
  function ChurchNatural(): Expr {
    Pi("natural", Const(Type),
       Pi("succ", Pi("_", Named("natural"), Named("natural")),
          Pi("zero", Named("natural"), Named("natural"))))
  }

  /** `forall (list : Type) -> (a -> list -> list) -> list -> list`. */
  function ChurchList(): Expr {
    Pi("list", Const(Type),
       Pi("cons", Pi("_", Named("a"), Pi("_", Named("list"), Named("list"))),
          Pi("nil", Named("list"), Named("list"))))
  }

  /** `forall (optional : Type) -> (a -> optional) -> optional -> optional`. */
  function ChurchOptional(): Expr {
    Pi("optional", Const(Type),
       Pi("just", Pi("_", Named("a"), Named("optional")),
          Pi("nothing", Named("optional"), Named("optional"))))
  }

  /**
    `fold` and `build` are inverse in their types: `Natural/build` takes what
    `Natural/fold` returns and returns what it takes, and `List/build` takes
    what `List/fold` returns for the same element type `a`.
   */
  lemma FoldBuildDual(p: Prims, fuel: nat, ctx: Context<Expr>)
    requires fuel > 0
    ensures var fold := TypeWith(p, fuel, ctx, Builtin(NaturalFold));
            var build := TypeWith(p, fuel, ctx, Builtin(NaturalBuild));
            fold.Ok? && build.Ok? && fold.value.Pi? && build.value.Pi? &&
            build.value.tA == fold.value.tB && build.value.tB == fold.value.tA
    ensures var fold := TypeWith(p, fuel, ctx, Builtin(ListFold));
            var build := TypeWith(p, fuel, ctx, Builtin(ListBuild));
            fold.Ok? && build.Ok? && fold.value.Pi? && build.value.Pi? &&
            fold.value.tA == build.value.tA && fold.value.tB.Pi? && build.value.tB.Pi? &&
            build.value.tB.tA == fold.value.tB.tB && build.value.tB.tB == fold.value.tB.tA
  {
    BuiltinTyping(p, fuel, ctx, NaturalFold);
    BuiltinTyping(p, fuel, ctx, NaturalBuild);
    PolymorphicBuiltinTyping(p, fuel, ctx, ListFold);
    PolymorphicBuiltinTyping(p, fuel, ctx, ListBuild);
  }

  /**
    A function type is well typed exactly when its domain's type and its
    codomain's type (under the binder) normalize to universes that `rule`
    allows together; it then lives in the codomain's universe.  The domain
    is checked first; a codomain whose type is not a universe is reported in
    the context under the binder, and a term depending on a type is refused
    as a dependent type.
   */
  lemma PiTyping(p: Prims, fuel: nat, ctx: Context<Expr>, x: Label, tA: Expr, tB: Expr)
    requires fuel > 0
    ensures var r := TypeWith(p, fuel, ctx, Pi(x, tA, tB));
            var ctx2 := UnderBinder(p, ctx, x, tA);
            var sA := TypeWith(p, fuel - 1, ctx, tA);
            var sB := TypeWith(p, fuel - 1, ctx2, tB);
            var domainOk := sA.Ok? && p.normalize(sA.value).Const?;
            var bothOk := domainOk && sB.Ok? && p.normalize(sB.value).Const?;
            (r.Ok? <==> bothOk && Rule(p.normalize(sA.value).c, p.normalize(sB.value).c).Some?) &&
            (r.Ok? ==> r.value == Const(p.normalize(sB.value).c)) &&
            (!sA.Ok? ==> r == sA) &&
            (sA.Ok? && !domainOk ==> r == Err(TypeError(ctx, Pi(x, tA, tB), InvalidInputType(tA)))) &&
            (domainOk && !sB.Ok? ==> r == sB) &&
            (domainOk && sB.Ok? && !bothOk ==>
               r == Err(TypeError(ctx2, Pi(x, tA, tB), InvalidOutputType(p.normalize(sB.value))))) &&
            (bothOk && p.normalize(sA.value) == Const(Type) && p.normalize(sB.value) == Const(Kind) ==>
               r == Err(TypeError(ctx, Pi(x, tA, tB), NoDependentTypes(tA, Const(Kind)))))
  {
    var e := Pi(x, tA, tB);
    var f := fuel - 1;
    Enter(p, fuel, ctx, e);
    assert TypeWith(p, fuel, ctx, e) == PiType(p, f, ctx, x, tA, tB);
    var r := PiType(p, f, ctx, x, tA, tB);
    var ctx2 := UnderBinder(p, ctx, x, tA);
    var sA := TypeWith(p, f, ctx, tA);
    var sB := TypeWith(p, f, ctx2, tB);
    if !sA.Ok? {
      assert r == sA;
    } else if !p.normalize(sA.value).Const? {
      assert r == Err(TypeError(ctx, e, InvalidInputType(tA)));
    } else if !sB.Ok? {
      assert r == sB;
    } else if !p.normalize(sB.value).Const? {
      assert r == Err(TypeError(ctx2, e, InvalidOutputType(p.normalize(sB.value))));
    } else {
      RuleIsCodomain(p.normalize(sA.value).c, p.normalize(sB.value).c);
    }
  }

  /**
    A lambda is well typed exactly when its body is, under the binder, and
    the function type built from the body's type is itself well typed; its
    type is that function type, and otherwise the first of the two checks to
    fail gives the lambda's error.
   */
  lemma LamTyping(p: Prims, fuel: nat, ctx: Context<Expr>, x: Label, tA: Expr, b: Expr)
    requires fuel > 0
    ensures var r := TypeWith(p, fuel, ctx, Lam(x, tA, b));
            var tB := TypeWith(p, fuel - 1, UnderBinder(p, ctx, x, tA), b);
            var piType := if tB.Ok? then TypeWith(p, fuel - 1, ctx, Pi(x, tA, tB.value)) else OutOfFuel;
            (r.Ok? <==> tB.Ok? && piType.Ok?) &&
            (r.Ok? ==> r.value == Pi(x, tA, tB.value)) &&
            (!tB.Ok? ==> r == tB) &&
            (tB.Ok? && !piType.Ok? ==> r == piType)
  {
    Enter(p, fuel, ctx, Lam(x, tA, b));
  }

  /**
    An application is well typed exactly when the function's type
    normalizes to a function type whose domain is `prop_equal` to the
    argument's type; the result is then the codomain with the argument
    substituted for the bound variable, and with the corrected matcher the
    normal forms of domain and argument type are alpha-equivalent.  The
    function is checked before the argument.
   */
  lemma AppTyping(p: Prims, fuel: nat, ctx: Context<Expr>, fn: Expr, a: Expr)
    requires fuel > 0
    ensures var r := TypeWith(p, fuel, ctx, App(fn, a));
            var tf := TypeWith(p, fuel - 1, ctx, fn);
            var ta := TypeWith(p, fuel - 1, ctx, a);
            var isFunction := tf.Ok? && p.normalize(tf.value).Pi?;
            (r.Ok? <==> isFunction && ta.Ok? &&
                        PropEqual(p.matcher, p.normalize, p.normalize(tf.value).tA, ta.value)) &&
            (r.Ok? ==> var pi := p.normalize(tf.value); var v := V(pi.x, 0);
                       r.value == p.shift(-1, v, p.subst(v, p.shift(1, v, a), pi.tB))) &&
            (r.Ok? && p.matcher == MatchVarsCorrected ==>
               AlphaEquivalent(p.normalize(p.normalize(tf.value).tA), p.normalize(ta.value))) &&
            (!tf.Ok? ==> r == tf) &&
            (tf.Ok? && !isFunction ==> r == Err(TypeError(ctx, App(fn, a), NotAFunction(fn, p.normalize(tf.value))))) &&
            (isFunction && !ta.Ok? ==> r == ta) &&
            (isFunction && ta.Ok? && !PropEqual(p.matcher, p.normalize, p.normalize(tf.value).tA, ta.value) ==>
               r == Err(TypeError(ctx, App(fn, a), TypeMismatch(fn, p.normalize(p.normalize(tf.value).tA), a,
                                                                p.normalize(ta.value)))))
  {
    Enter(p, fuel, ctx, App(fn, a));
    var tf := TypeWith(p, fuel - 1, ctx, fn);
    var ta := TypeWith(p, fuel - 1, ctx, a);
    if tf.Ok? && p.normalize(tf.value).Pi? && ta.Ok? {
      PropEqualIsAlpha(p.normalize, p.normalize(tf.value).tA, ta.value);
    }
  }

  /**
    An annotation `x : t` is well typed exactly when `t` is and the type of
    `x` is `prop_equal` to `t`; its type is the annotation as written, and
    with the corrected matcher the two normal forms are alpha-equivalent.
   */
  lemma AnnotTyping(p: Prims, fuel: nat, ctx: Context<Expr>, x: Expr, t: Expr)
    requires fuel > 0
    ensures var r := TypeWith(p, fuel, ctx, Annot(x, t));
            var tt := TypeWith(p, fuel - 1, ctx, t);
            var tx := TypeWith(p, fuel - 1, ctx, x);
            (r.Ok? <==> tt.Ok? && tx.Ok? && PropEqual(p.matcher, p.normalize, t, tx.value)) &&
            (r.Ok? ==> r.value == t) &&
            (r.Ok? && p.matcher == MatchVarsCorrected ==> AlphaEquivalent(p.normalize(t), p.normalize(tx.value))) &&
            (!tt.Ok? ==> r == tt) &&
            (tt.Ok? && !tx.Ok? ==> r == tx) &&
            (tt.Ok? && tx.Ok? && !PropEqual(p.matcher, p.normalize, t, tx.value) ==>
               r == Err(TypeError(ctx, Annot(x, t), AnnotMismatch(x, p.normalize(t), p.normalize(tx.value)))))
  {
    Enter(p, fuel, ctx, Annot(x, t));
    var tx := TypeWith(p, fuel - 1, ctx, x);
    if tx.Ok? {
      PropEqualIsAlpha(p.normalize, t, tx.value);
    }
  }

  /**
    A let binding is well typed exactly when the bound value's type lives in
    a universe, the body is well typed with `x : tR` added to the context
    (the types already there are not shifted), the body's type lives in a
    universe `rule` allows after the value's, and an annotation, if any, is
    `prop_equal` to the value's type.  The binding has the body's type.
   */
  lemma LetTyping(p: Prims, fuel: nat, ctx: Context<Expr>, x: Label, annot: Option<Expr>, r: Expr, b: Expr)
    requires fuel > 0
    ensures var res := TypeWith(p, fuel, ctx, Let(x, annot, r, b));
            var e := Let(x, annot, r, b);
            var f := fuel - 1;
            var tR := TypeWith(p, f, ctx, r);
            var ttR := if tR.Ok? then TypeWith(p, f, ctx, tR.value) else OutOfFuel;
            var tB := if tR.Ok? then TypeWith(p, f, Insert(ctx, x, tR.value), b) else OutOfFuel;
            var ttB := if tB.Ok? then TypeWith(p, f, ctx, tB.value) else OutOfFuel;
            var valueOk := tR.Ok? && ttR.Ok? && p.normalize(ttR.value).Const?;
            var bodyOk := valueOk && tB.Ok? && ttB.Ok? && p.normalize(ttB.value).Const?;
            var rulesOk := bodyOk && Rule(p.normalize(ttR.value).c, p.normalize(ttB.value).c).Some?;
            (res.Ok? <==> rulesOk &&
                          (annot.Some? ==> PropEqual(p.matcher, p.normalize, p.normalize(tR.value), p.normalize(annot.value)))) &&
            (res.Ok? ==> res.value == tB.value) &&
            (res.Ok? && annot.Some? && p.matcher == MatchVarsCorrected ==>
               AlphaEquivalent(p.normalize(p.normalize(tR.value)), p.normalize(p.normalize(annot.value))))
  {
    var e := Let(x, annot, r, b);
    var f := fuel - 1;
    Enter(p, fuel, ctx, e);
    assert TypeRule(p, f, ctx, e) == LetType(p, f, ctx, x, annot, r, b);
    var res := LetType(p, f, ctx, x, annot, r, b);
    var tR := TypeWith(p, f, ctx, r);
    if !tR.Ok? {
      assert res == tR;
    } else {
      var ttR := TypeWith(p, f, ctx, tR.value);
      if !ttR.Ok? {
        assert res == ttR;
      } else if !p.normalize(ttR.value).Const? {
        assert res == Err(TypeError(ctx, e, InvalidInputType(tR.value)));
      } else {
        var kR := p.normalize(ttR.value).c;
        assert res == LetBodyType(p, f, ctx, x, annot, r, b, tR.value, kR);
        var tB := TypeWith(p, f, Insert(ctx, x, tR.value), b);
        if !tB.Ok? {
          assert res == tB;
        } else {
          var ttB := TypeWith(p, f, ctx, tB.value);
          if !ttB.Ok? {
            assert res == ttB;
          } else if !p.normalize(ttB.value).Const? {
            assert res == Err(TypeError(ctx, e, InvalidOutputType(tB.value)));
          } else if Rule(kR, p.normalize(ttB.value).c).None? {
            assert res == Err(TypeError(ctx, e, NoDependentLet(tR.value, tB.value)));
          } else if annot.Some? {
            PropEqualIsAlpha(p.normalize, p.normalize(tR.value), p.normalize(annot.value));
          }
        }
      }
    }
  }

  /**
    The let checks run in order (the value's type, its universe, the body's
    type, its universe, `rule`, the annotation), and the first to fail
    gives the error: a failure of a recursive call is passed on, and each
    failed check has its own message.
   */
  lemma LetErrors(p: Prims, fuel: nat, ctx: Context<Expr>, x: Label, annot: Option<Expr>, r: Expr, b: Expr)
    requires fuel > 0
    ensures var res := TypeWith(p, fuel, ctx, Let(x, annot, r, b));
            var e := Let(x, annot, r, b);
            var f := fuel - 1;
            var tR := TypeWith(p, f, ctx, r);
            var ttR := if tR.Ok? then TypeWith(p, f, ctx, tR.value) else OutOfFuel;
            var tB := if tR.Ok? then TypeWith(p, f, Insert(ctx, x, tR.value), b) else OutOfFuel;
            var ttB := if tB.Ok? then TypeWith(p, f, ctx, tB.value) else OutOfFuel;
            var valueOk := tR.Ok? && ttR.Ok? && p.normalize(ttR.value).Const?;
            var bodyOk := valueOk && tB.Ok? && ttB.Ok? && p.normalize(ttB.value).Const?;
            var rulesOk := bodyOk && Rule(p.normalize(ttR.value).c, p.normalize(ttB.value).c).Some?;
            (!tR.Ok? ==> res == tR) &&
            (tR.Ok? && !ttR.Ok? ==> res == ttR) &&
            (tR.Ok? && ttR.Ok? && !valueOk ==> res == Err(TypeError(ctx, e, InvalidInputType(tR.value)))) &&
            (valueOk && !tB.Ok? ==> res == tB) &&
            (valueOk && tB.Ok? && !ttB.Ok? ==> res == ttB) &&
            (valueOk && tB.Ok? && ttB.Ok? && !bodyOk ==> res == Err(TypeError(ctx, e, InvalidOutputType(tB.value)))) &&
            (bodyOk && !rulesOk ==> res == Err(TypeError(ctx, e, NoDependentLet(tR.value, tB.value)))) &&
            (rulesOk && annot.Some? &&
             !PropEqual(p.matcher, p.normalize, p.normalize(tR.value), p.normalize(annot.value)) ==>
               res == Err(TypeError(ctx, e, AnnotMismatch(r, p.normalize(annot.value), p.normalize(tR.value)))))
  {
    var e := Let(x, annot, r, b);
    var f := fuel - 1;
    Enter(p, fuel, ctx, e);
    assert TypeRule(p, f, ctx, e) == LetType(p, f, ctx, x, annot, r, b);
    var res := LetType(p, f, ctx, x, annot, r, b);
    var tR := TypeWith(p, f, ctx, r);
    if !tR.Ok? {
      assert res == tR;
    } else {
      var ttR := TypeWith(p, f, ctx, tR.value);
      if !ttR.Ok? {
        assert res == ttR;
      } else if !p.normalize(ttR.value).Const? {
        assert res == Err(TypeError(ctx, e, InvalidInputType(tR.value)));
      } else {
        var kR := p.normalize(ttR.value).c;
        assert res == LetBodyType(p, f, ctx, x, annot, r, b, tR.value, kR);
        var tB := TypeWith(p, f, Insert(ctx, x, tR.value), b);
        if !tB.Ok? {
          assert res == tB;
        } else {
          var ttB := TypeWith(p, f, ctx, tB.value);
          if !ttB.Ok? {
            assert res == ttB;
          } else if !p.normalize(ttB.value).Const? {
            assert res == Err(TypeError(ctx, e, InvalidOutputType(tB.value)));
          } else if Rule(kR, p.normalize(ttB.value).c).None? {
            assert res == Err(TypeError(ctx, e, NoDependentLet(tR.value, tB.value)));
          }
        }
      }
    }
  }

  /** The operand type and error message of each binary operator the checker handles. */
  function OperatorType(op: BinOp): Option<Builtin> {
    match op
    case BoolAnd => Some(Bool)
    case BoolOr => Some(Bool)
    case BoolEQ => Some(Bool)
    case BoolNE => Some(Bool)
    case NaturalPlus => Some(Natural)
    case NaturalTimes => Some(Natural)
    case TextAppend => Some(Text)
    case _ => None
  }

  function OperatorMessage(op: BinOp, operand: Expr, t: Expr): TypeMessage {
    match op
    case BoolAnd => CantAnd(operand, t)
    case BoolOr => CantOr(operand, t)
    case BoolEQ => CantEQ(operand, t)
    case BoolNE => CantNE(operand, t)
    case NaturalPlus => CantAdd(operand, t)
    case NaturalTimes => CantMultiply(operand, t)
    case _ => CantTextAppend(operand, t)
  }

  /**
    `op2_type` succeeds, with `t`, exactly when both operands' types
    normalize to `t`.  The left operand is checked first, so its error is
    the one reported when both are wrong; the message names the offending
    operand and its normalized type.
   */
  lemma Op2TypeSpec(p: Prims, fuel: nat, ctx: Context<Expr>, e: Expr, t: Builtin,
                    ef: (Expr, Expr) -> TypeMessage, l: Expr, r: Expr)
    ensures var tl := TypeWith(p, fuel, ctx, l);
            var tr := TypeWith(p, fuel, ctx, r);
            Op2Type(p, fuel, ctx, e, t, ef, l, r).Ok? <==>
              tl.Ok? && p.normalize(tl.value) == Builtin(t) && tr.Ok? && p.normalize(tr.value) == Builtin(t)
    ensures Op2Type(p, fuel, ctx, e, t, ef, l, r).Ok? ==> Op2Type(p, fuel, ctx, e, t, ef, l, r).value == Builtin(t)
    ensures !TypeWith(p, fuel, ctx, l).Ok? ==> Op2Type(p, fuel, ctx, e, t, ef, l, r) == TypeWith(p, fuel, ctx, l)
    ensures var tl := TypeWith(p, fuel, ctx, l);
            tl.Ok? && p.normalize(tl.value) != Builtin(t) ==>
              Op2Type(p, fuel, ctx, e, t, ef, l, r) == Err(TypeError(ctx, e, ef(l, p.normalize(tl.value))))
    ensures var tl := TypeWith(p, fuel, ctx, l);
            var tr := TypeWith(p, fuel, ctx, r);
            tl.Ok? && p.normalize(tl.value) == Builtin(t) && !tr.Ok? ==> Op2Type(p, fuel, ctx, e, t, ef, l, r) == tr
    ensures var tl := TypeWith(p, fuel, ctx, l);
            var tr := TypeWith(p, fuel, ctx, r);
            tl.Ok? && p.normalize(tl.value) == Builtin(t) && tr.Ok? && p.normalize(tr.value) != Builtin(t) ==>
              Op2Type(p, fuel, ctx, e, t, ef, l, r) == Err(TypeError(ctx, e, ef(r, p.normalize(tr.value))))
  {
    var tl := TypeWith(p, fuel, ctx, l);
    var tr := TypeWith(p, fuel, ctx, r);
    var res := Op2Type(p, fuel, ctx, e, t, ef, l, r);
    if !tl.Ok? {
      assert res == tl;
    } else if p.normalize(tl.value) != Builtin(t) {
      assert res == Err(TypeError(ctx, e, ef(l, p.normalize(tl.value))));
    } else if !tr.Ok? {
      assert res == tr;
    } else if p.normalize(tr.value) != Builtin(t) {
      assert res == Err(TypeError(ctx, e, ef(r, p.normalize(tr.value))));
    } else {
      assert res == Ok(Builtin(t));
    }
  }

  /**
    Each handled operator types as `op2_type` with its operand type and its
    own error message; every other operator is not handled.
   */
  lemma BinOpTyping(p: Prims, fuel: nat, ctx: Context<Expr>, op: BinOp, l: Expr, r: Expr)
    requires fuel > 0
    ensures var res := TypeWith(p, fuel, ctx, BinOp(op, l, r));
            var tl := TypeWith(p, fuel - 1, ctx, l);
            var tr := TypeWith(p, fuel - 1, ctx, r);
            (OperatorType(op).None? ==> res == Panic(Unimplemented(BinOp(op, l, r)))) &&
            (OperatorType(op).Some? ==>
               var t := Builtin(OperatorType(op).value);
               (res.Ok? <==> tl.Ok? && p.normalize(tl.value) == t && tr.Ok? && p.normalize(tr.value) == t) &&
               (res.Ok? ==> res.value == t) &&
               (tl.Ok? && p.normalize(tl.value) != t ==>
                  res == Err(TypeError(ctx, BinOp(op, l, r), OperatorMessage(op, l, p.normalize(tl.value))))) &&
               (tl.Ok? && p.normalize(tl.value) == t && tr.Ok? && p.normalize(tr.value) != t ==>
                  res == Err(TypeError(ctx, BinOp(op, l, r), OperatorMessage(op, r, p.normalize(tr.value))))))
  {
    var e := BinOp(op, l, r);
    var f := fuel - 1;
    Enter(p, fuel, ctx, e);
    assert TypeRule(p, f, ctx, e) == BinOpType(p, f, ctx, op, l, r);
    match op
    case BoolAnd => Op2TypeSpec(p, f, ctx, e, Bool, (a, b) => CantAnd(a, b), l, r);
    case BoolOr => Op2TypeSpec(p, f, ctx, e, Bool, (a, b) => CantOr(a, b), l, r);
    case BoolEQ => Op2TypeSpec(p, f, ctx, e, Bool, (a, b) => CantEQ(a, b), l, r);
    case BoolNE => Op2TypeSpec(p, f, ctx, e, Bool, (a, b) => CantNE(a, b), l, r);
    case NaturalPlus => Op2TypeSpec(p, f, ctx, e, Natural, (a, b) => CantAdd(a, b), l, r);
    case NaturalTimes => Op2TypeSpec(p, f, ctx, e, Natural, (a, b) => CantMultiply(a, b), l, r);
    case TextAppend => Op2TypeSpec(p, f, ctx, e, Text, (a, b) => CantTextAppend(a, b), l, r);
    case _ =>
  }

  /** The `else` stage of an `if` succeeds, with the `then` type, exactly when its checks pass. */
  lemma IfElseTyping(p: Prims, f: nat, ctx: Context<Expr>, x: Expr, y: Expr, z: Expr, ty: Expr)
    ensures var res := IfElseType(p, f, ctx, x, y, z, ty);
            var tz := TypeWith(p, f, ctx, z);
            var ttz := if tz.Ok? then TypeWith(p, f, ctx, p.normalize(tz.value)) else OutOfFuel;
            (res.Ok? <==> tz.Ok? && ttz.Ok? && p.normalize(ttz.value) == Const(Type) &&
                          PropEqual(p.matcher, p.normalize, ty, p.normalize(tz.value))) &&
            (res.Ok? ==> res.value == ty)
  {
  }

  /** The `else` stage of an `if` reports the first of its checks to fail. */
  lemma IfElseErrors(p: Prims, f: nat, ctx: Context<Expr>, x: Expr, y: Expr, z: Expr, ty: Expr)
    ensures var res := IfElseType(p, f, ctx, x, y, z, ty);
            var e := BoolIf(x, y, z);
            var tz := TypeWith(p, f, ctx, z);
            var ttz := if tz.Ok? then TypeWith(p, f, ctx, p.normalize(tz.value)) else OutOfFuel;
            var elseOk := tz.Ok? && ttz.Ok? && p.normalize(ttz.value) == Const(Type);
            (!tz.Ok? ==> res == tz) &&
            (tz.Ok? && !ttz.Ok? ==> res == ttz) &&
            (tz.Ok? && ttz.Ok? && !elseOk ==>
               res == Err(TypeError(ctx, e, IfBranchMustBeTerm(false, z, p.normalize(tz.value), p.normalize(ttz.value))))) &&
            (elseOk && !PropEqual(p.matcher, p.normalize, ty, p.normalize(tz.value)) ==>
               res == Err(TypeError(ctx, e, IfBranchMismatch(y, z, ty, p.normalize(tz.value)))))
  {
    var res := IfElseType(p, f, ctx, x, y, z, ty);
    var tz := TypeWith(p, f, ctx, z);
    if !tz.Ok? {
      assert res == tz;
    } else {
      var ttz := TypeWith(p, f, ctx, p.normalize(tz.value));
      if !ttz.Ok? {
        assert res == ttz;
      } else if p.normalize(ttz.value) != Const(Type) {
        assert res == Err(TypeError(ctx, BoolIf(x, y, z), IfBranchMustBeTerm(false, z, p.normalize(tz.value), p.normalize(ttz.value))));
      }
    }
  }

  /**
    `if x then y else z` is well typed exactly when `x` has type `Bool`,
    both branches have types of kind `Type`, and those types are
    `prop_equal`; the expression has the normalized type of the `then`
    branch, and with the corrected matcher the branch types are
    alpha-equivalent.
   */
  lemma IfTyping(p: Prims, fuel: nat, ctx: Context<Expr>, x: Expr, y: Expr, z: Expr)
    requires fuel > 0
    ensures var res := TypeWith(p, fuel, ctx, BoolIf(x, y, z));
            var e := BoolIf(x, y, z);
            var f := fuel - 1;
            var tx := TypeWith(p, f, ctx, x);
            var ty := TypeWith(p, f, ctx, y);
            var tz := TypeWith(p, f, ctx, z);
            var tty := if ty.Ok? then TypeWith(p, f, ctx, p.normalize(ty.value)) else OutOfFuel;
            var ttz := if tz.Ok? then TypeWith(p, f, ctx, p.normalize(tz.value)) else OutOfFuel;
            var condOk := tx.Ok? && p.normalize(tx.value) == Builtin(Bool);
            var thenOk := condOk && ty.Ok? && tty.Ok? && p.normalize(tty.value) == Const(Type);
            var elseOk := thenOk && tz.Ok? && ttz.Ok? && p.normalize(ttz.value) == Const(Type);
            (res.Ok? <==> elseOk && PropEqual(p.matcher, p.normalize, p.normalize(ty.value), p.normalize(tz.value))) &&
            (res.Ok? ==> res.value == p.normalize(ty.value)) &&
            (res.Ok? && p.matcher == MatchVarsCorrected ==>
               AlphaEquivalent(p.normalize(p.normalize(ty.value)), p.normalize(p.normalize(tz.value))))
  {
    var e := BoolIf(x, y, z);
    var f := fuel - 1;
    Enter(p, fuel, ctx, e);
    assert TypeRule(p, f, ctx, e) == IfType(p, f, ctx, x, y, z);
    var tx := TypeWith(p, f, ctx, x);
    var ty := TypeWith(p, f, ctx, y);
    var tz := TypeWith(p, f, ctx, z);
    if tx.Ok? && p.normalize(tx.value) == Builtin(Bool) && ty.Ok? {
      var tty := TypeWith(p, f, ctx, p.normalize(ty.value));
      if tty.Ok? && p.normalize(tty.value) == Const(Type) {
        assert IfType(p, f, ctx, x, y, z) == IfElseType(p, f, ctx, x, y, z, p.normalize(ty.value));
        IfElseTyping(p, f, ctx, x, y, z, p.normalize(ty.value));
        if tz.Ok? {
          PropEqualIsAlpha(p.normalize, p.normalize(ty.value), p.normalize(tz.value));
        }
      }
    }
  }

  /**
    The checks of `if x then y else z` run in order (the condition, the
    `then` branch and its kind, the `else` branch and its kind, the branch
    types' agreement), and the first to fail gives the error: a failure of
    a recursive call is passed on, and each failed check has its own
    message.
   */
  lemma IfErrors(p: Prims, fuel: nat, ctx: Context<Expr>, x: Expr, y: Expr, z: Expr)
    requires fuel > 0
    ensures var res := TypeWith(p, fuel, ctx, BoolIf(x, y, z));
            var e := BoolIf(x, y, z);
            var f := fuel - 1;
            var tx := TypeWith(p, f, ctx, x);
            var ty := TypeWith(p, f, ctx, y);
            var tz := TypeWith(p, f, ctx, z);
            var tty := if ty.Ok? then TypeWith(p, f, ctx, p.normalize(ty.value)) else OutOfFuel;
            var ttz := if tz.Ok? then TypeWith(p, f, ctx, p.normalize(tz.value)) else OutOfFuel;
            var condOk := tx.Ok? && p.normalize(tx.value) == Builtin(Bool);
            var thenOk := condOk && ty.Ok? && tty.Ok? && p.normalize(tty.value) == Const(Type);
            var elseOk := thenOk && tz.Ok? && ttz.Ok? && p.normalize(ttz.value) == Const(Type);
            (!tx.Ok? ==> res == tx) &&
            (tx.Ok? && !condOk ==> res == Err(TypeError(ctx, e, InvalidPredicate(x, p.normalize(tx.value))))) &&
            (condOk && !ty.Ok? ==> res == ty) &&
            (condOk && ty.Ok? && !tty.Ok? ==> res == tty) &&
            (condOk && ty.Ok? && tty.Ok? && !thenOk ==>
               res == Err(TypeError(ctx, e, IfBranchMustBeTerm(true, y, p.normalize(ty.value), p.normalize(tty.value))))) &&
            (thenOk && !tz.Ok? ==> res == tz) &&
            (thenOk && tz.Ok? && !ttz.Ok? ==> res == ttz) &&
            (thenOk && tz.Ok? && ttz.Ok? && !elseOk ==>
               res == Err(TypeError(ctx, e, IfBranchMustBeTerm(false, z, p.normalize(tz.value), p.normalize(ttz.value))))) &&
            (elseOk && !PropEqual(p.matcher, p.normalize, p.normalize(ty.value), p.normalize(tz.value)) ==>
               res == Err(TypeError(ctx, e, IfBranchMismatch(y, z, p.normalize(ty.value), p.normalize(tz.value)))))
  {
    var e := BoolIf(x, y, z);
    var f := fuel - 1;
    Enter(p, fuel, ctx, e);
    assert TypeRule(p, f, ctx, e) == IfType(p, f, ctx, x, y, z);
    var res := IfType(p, f, ctx, x, y, z);
    var tx := TypeWith(p, f, ctx, x);
    var ty := TypeWith(p, f, ctx, y);
    if !tx.Ok? {
      assert res == tx;
    } else if p.normalize(tx.value) != Builtin(Bool) {
      assert res == Err(TypeError(ctx, e, InvalidPredicate(x, p.normalize(tx.value))));
    } else if !ty.Ok? {
      assert res == ty;
    } else {
      var tty := TypeWith(p, f, ctx, p.normalize(ty.value));
      if !tty.Ok? {
        assert res == tty;
      } else if p.normalize(tty.value) != Const(Type) {
        assert res == Err(TypeError(ctx, e, IfBranchMustBeTerm(true, y, p.normalize(ty.value), p.normalize(tty.value))));
      } else {
        assert res == IfElseType(p, f, ctx, x, y, z, p.normalize(ty.value));
        IfElseErrors(p, f, ctx, x, y, z, p.normalize(ty.value));
      }
    }
  }

  /**
    `r.x` is well typed exactly when the type of `r` normalizes to a record
    type with a field `x`; it then has a type that record type gives `x`.
   */
  lemma FieldTyping(p: Prims, fuel: nat, ctx: Context<Expr>, r: Expr, x: Label)
    requires fuel > 0
    ensures var res := TypeWith(p, fuel, ctx, Field(r, x));
            var tr := TypeWith(p, fuel - 1, ctx, r);
            (res.Ok? <==> tr.Ok? && p.normalize(tr.value).Record? &&
                          exists i :: 0 <= i < |p.normalize(tr.value).fieldTypes| &&
                                      p.normalize(tr.value).fieldTypes[i].0 == x) &&
            (res.Ok? ==> exists i :: 0 <= i < |p.normalize(tr.value).fieldTypes| &&
                                     p.normalize(tr.value).fieldTypes[i] == (x, res.value)) &&
            (!tr.Ok? ==> res == tr) &&
            (tr.Ok? && !p.normalize(tr.value).Record? ==>
               res == Err(TypeError(ctx, Field(r, x), NotARecord(x, r, p.normalize(tr.value))))) &&
            (tr.Ok? && p.normalize(tr.value).Record? && !res.Ok? ==>
               res == Err(TypeError(ctx, Field(r, x), MissingField(x, p.normalize(tr.value)))))
  {
    Enter(p, fuel, ctx, Field(r, x));
    var res := TypeWith(p, fuel, ctx, Field(r, x));
    assert res == FieldType(p, fuel - 1, ctx, r, x);
    var tr := TypeWith(p, fuel - 1, ctx, r);
    if tr.Ok? && p.normalize(tr.value).Record? {
      var found := FieldLookup(p.normalize(tr.value).fieldTypes, x);
      assert res == if found.Some? then Ok(found.value)
                    else Err(TypeError(ctx, Field(r, x), MissingField(x, p.normalize(tr.value))));
    }
  }

  /** Unions, union literals, `merge` and notes are not handled: the checker panics. */
  lemma UnimplementedPanics(p: Prims, fuel: nat, ctx: Context<Expr>, e: Expr)
    requires fuel > 0
    requires e.Union? || e.UnionLit? || e.Merge? || e.Note?
    ensures TypeWith(p, fuel, ctx, e) == Panic(Unimplemented(e))
  {
    Enter(p, fuel, ctx, e);
  }

  // ---------------------------------------------------------------------
  // List and optional literals

  /** One turn of the element loop of a list literal. */
  lemma ListElementsUnfold(mv: Matcher, normalize: Expr -> Expr, ctx: Context<Expr>, e: Expr, t: Expr,
                           xs: seq<Expr>, ts: seq<Outcome<Expr>>, i: nat)
    requires |ts| == |xs| && i < |xs|
    ensures ListElements(mv, normalize, ctx, e, t, xs, ts, i) ==
            if !ts[i].Ok? then ts[i].PropagateFailure()
            else if !PropEqual(mv, normalize, t, ts[i].value) then
              Err(TypeError(ctx, e, InvalidListElement(i, normalize(t), xs[i], normalize(ts[i].value))))
            else ListElements(mv, normalize, ctx, e, t, xs, ts, i + 1)
  {
  }

  /** The element loop succeeds exactly when every element from `i` on has a type `prop_equal` to `t`. */
  lemma {:induction false} ListElementsOk(mv: Matcher, normalize: Expr -> Expr, ctx: Context<Expr>, e: Expr, t: Expr,
                                          xs: seq<Expr>, ts: seq<Outcome<Expr>>, i: nat)
    requires |ts| == |xs|
    ensures ListElements(mv, normalize, ctx, e, t, xs, ts, i).Ok? <==>
            forall j | i <= j < |xs| :: ts[j].Ok? && PropEqual(mv, normalize, t, ts[j].value)
    decreases |xs| - i
  {
    if i < |xs| {
      ListElementsUnfold(mv, normalize, ctx, e, t, xs, ts, i);
      ListElementsOk(mv, normalize, ctx, e, t, xs, ts, i + 1);
    }
  }

  /**
    The element loop stops at the first element `k` whose type fails or is
    not `prop_equal` to `t`, reporting the failure, or the mismatch with the
    element's position in the literal.
   */
  lemma {:induction false} ListElementsStopsAt(mv: Matcher, normalize: Expr -> Expr, ctx: Context<Expr>, e: Expr, t: Expr,
                                               xs: seq<Expr>, ts: seq<Outcome<Expr>>, i: nat, k: nat)
    requires |ts| == |xs| && i <= k < |xs|
    requires forall j | i <= j < k :: ts[j].Ok? && PropEqual(mv, normalize, t, ts[j].value)
    requires !(ts[k].Ok? && PropEqual(mv, normalize, t, ts[k].value))
    ensures ListElements(mv, normalize, ctx, e, t, xs, ts, i) ==
            if ts[k].Ok? then Err(TypeError(ctx, e, InvalidListElement(k, normalize(t), xs[k], normalize(ts[k].value))))
            else ts[k].PropagateFailure()
    decreases k - i
  {
    ListElementsUnfold(mv, normalize, ctx, e, t, xs, ts, i);
    if i < k {
      ListElementsStopsAt(mv, normalize, ctx, e, t, xs, ts, i + 1, k);
    }
  }

  /** One turn of the element loop of an optional literal. */
  lemma OptionalElementsUnfold(mv: Matcher, normalize: Expr -> Expr, ctx: Context<Expr>, e: Expr, t: Expr,
                               xs: seq<Expr>, ts: seq<Outcome<Expr>>, i: nat)
    requires |ts| == |xs| && i < |xs|
    ensures OptionalElements(mv, normalize, ctx, e, t, xs, ts, i) ==
            if !ts[i].Ok? then ts[i].PropagateFailure()
            else if !PropEqual(mv, normalize, t, ts[i].value) then
              Err(TypeError(ctx, e, InvalidOptionalElement(normalize(t), xs[i], normalize(ts[i].value))))
            else OptionalElements(mv, normalize, ctx, e, t, xs, ts, i + 1)
  {
  }

  /** The element loop of an optional literal succeeds exactly when every element from `i` on has a type `prop_equal` to `t`. */
  lemma {:induction false} OptionalElementsOk(mv: Matcher, normalize: Expr -> Expr, ctx: Context<Expr>, e: Expr, t: Expr,
                                              xs: seq<Expr>, ts: seq<Outcome<Expr>>, i: nat)
    requires |ts| == |xs|
    ensures OptionalElements(mv, normalize, ctx, e, t, xs, ts, i).Ok? <==>
            forall j | i <= j < |xs| :: ts[j].Ok? && PropEqual(mv, normalize, t, ts[j].value)
    decreases |xs| - i
  {
    if i < |xs| {
      OptionalElementsUnfold(mv, normalize, ctx, e, t, xs, ts, i);
      OptionalElementsOk(mv, normalize, ctx, e, t, xs, ts, i + 1);
    }
  }

  /**
    The element loop of an optional literal stops at the first element `k`
    whose type fails or is not `prop_equal` to `t`, reporting the failure or
    an `InvalidOptionalElement` with both normalized types.
   */
  lemma {:induction false} OptionalElementsStopsAt(mv: Matcher, normalize: Expr -> Expr, ctx: Context<Expr>, e: Expr, t: Expr,
                                                   xs: seq<Expr>, ts: seq<Outcome<Expr>>, i: nat, k: nat)
    requires |ts| == |xs| && i <= k < |xs|
    requires forall j | i <= j < k :: ts[j].Ok? && PropEqual(mv, normalize, t, ts[j].value)
    requires !(ts[k].Ok? && PropEqual(mv, normalize, t, ts[k].value))
    ensures OptionalElements(mv, normalize, ctx, e, t, xs, ts, i) ==
            if ts[k].Ok? then Err(TypeError(ctx, e, InvalidOptionalElement(normalize(t), xs[k], normalize(ts[k].value))))
            else ts[k].PropagateFailure()
    decreases k - i
  {
    OptionalElementsUnfold(mv, normalize, ctx, e, t, xs, ts, i);
    if i < k {
      OptionalElementsStopsAt(mv, normalize, ctx, e, t, xs, ts, i + 1, k);
    }
  }

  /** An unannotated empty list or optional literal makes the checker panic. */
  lemma EmptyLiteralPanics(p: Prims, fuel: nat, ctx: Context<Expr>)
    requires fuel > 0
    ensures TypeWith(p, fuel, ctx, ListLit(None, [])) == Panic(EmptyListLiteral)
    ensures TypeWith(p, fuel, ctx, OptionalLit(None, [])) == Panic(EmptyOptionalLiteral)
  {
    Enter(p, fuel, ctx, ListLit(None, []));
    Enter(p, fuel, ctx, OptionalLit(None, []));
  }

  /**
    A list literal with an annotation or an element is well typed exactly
    when its element type (the annotation, or else the first element's
    type) has kind `Type` and every further element has a type `prop_equal`
    to it; the literal then has type `List t`.  The first element of an
    unannotated literal is not compared with its own type.
   */
  lemma ListLitTyping(p: Prims, fuel: nat, ctx: Context<Expr>, annot: Option<Expr>, xs: seq<Expr>)
    requires fuel > 0 && (annot.Some? || |xs| > 0)
    ensures var res := TypeWith(p, fuel, ctx, ListLit(annot, xs));
            var f := fuel - 1;
            var t := ElementType(p, f, ctx, annot, xs);
            var s := if t.Ok? then TypeWith(p, f, ctx, t.value) else OutOfFuel;
            var start := if annot.Some? then 0 else 1;
            (res.Ok? <==> t.Ok? && s.Ok? && p.normalize(s.value) == Const(Type) &&
                          forall j | start <= j < |xs| ::
                            TypeWith(p, f, ctx, xs[j]).Ok? &&
                            PropEqual(p.matcher, p.normalize, t.value, TypeWith(p, f, ctx, xs[j]).value)) &&
            (res.Ok? ==> res.value == App(Builtin(List), t.value)) &&
            (!t.Ok? ==> res == t) &&
            (t.Ok? && !s.Ok? ==> res == s) &&
            (t.Ok? && s.Ok? && p.normalize(s.value) != Const(Type) ==>
               res == Err(TypeError(ctx, ListLit(annot, xs), InvalidListType(t.value))))
  {
    var e := ListLit(annot, xs);
    var f := fuel - 1;
    Enter(p, fuel, ctx, e);
    assert TypeRule(p, f, ctx, e) == ListLitType(p, f, ctx, annot, xs);
    var ts := ElementTypes(p, f, ctx, xs);
    var t := ElementType(p, f, ctx, annot, xs);
    if !t.Ok? {
      assert ListLitType(p, f, ctx, annot, xs) == t;
    } else {
      assert forall j | 0 <= j < |xs| :: ts[j] == TypeWith(p, f, ctx, xs[j]);
      ListElementsOk(p.matcher, p.normalize, ctx, e, t.value, xs, ts, if annot.Some? then 0 else 1);
    }
  }

  /**
    In a list literal whose element type has kind `Type`, the first element
    `k` after the start that fails to type or whose type differs decides the
    result: its own failure is passed on, and a differing type is reported
    as `InvalidListElement` with its position.
   */
  lemma ListLitFirstMismatch(p: Prims, fuel: nat, ctx: Context<Expr>, annot: Option<Expr>, xs: seq<Expr>, k: nat)
    requires fuel > 0 && (annot.Some? || |xs| > 0)
    requires var t := ElementType(p, fuel - 1, ctx, annot, xs);
             t.Ok? && TypeWith(p, fuel - 1, ctx, t.value).Ok? &&
             p.normalize(TypeWith(p, fuel - 1, ctx, t.value).value) == Const(Type)
    requires (if annot.Some? then 0 else 1) <= k < |xs|
    requires forall j | (if annot.Some? then 0 else 1) <= j < k ::
               TypeWith(p, fuel - 1, ctx, xs[j]).Ok? &&
               PropEqual(p.matcher, p.normalize, ElementType(p, fuel - 1, ctx, annot, xs).value, TypeWith(p, fuel - 1, ctx, xs[j]).value)
    requires !(TypeWith(p, fuel - 1, ctx, xs[k]).Ok? &&
               PropEqual(p.matcher, p.normalize, ElementType(p, fuel - 1, ctx, annot, xs).value, TypeWith(p, fuel - 1, ctx, xs[k]).value))
    ensures var t := ElementType(p, fuel - 1, ctx, annot, xs).value;
            var tk := TypeWith(p, fuel - 1, ctx, xs[k]);
            TypeWith(p, fuel, ctx, ListLit(annot, xs)) ==
              if tk.Ok? then Err(TypeError(ctx, ListLit(annot, xs), InvalidListElement(k, p.normalize(t), xs[k], p.normalize(tk.value))))
              else tk.PropagateFailure()
  {
    var e := ListLit(annot, xs);
    var f := fuel - 1;
    Enter(p, fuel, ctx, e);
    assert TypeRule(p, f, ctx, e) == ListLitType(p, f, ctx, annot, xs);
    var ts := ElementTypes(p, f, ctx, xs);
    var t := ElementType(p, f, ctx, annot, xs);
    ListElementsStopsAt(p.matcher, p.normalize, ctx, e, t.value, xs, ts, if annot.Some? then 0 else 1, k);
  }

  /**
    An optional literal is well typed exactly when its element type has kind
    `Type`, it has at most one element, and an element after the start has
    a type `prop_equal` to the element type; it then has type `Optional t`.
    Otherwise the error is, in this order, the element type's failure,
    `InvalidOptionalType`, `InvalidOptionalLiteral` with the length, and the
    annotated element's failure or `InvalidOptionalElement`.
   */
  lemma OptionalLitTyping(p: Prims, fuel: nat, ctx: Context<Expr>, annot: Option<Expr>, xs: seq<Expr>)
    requires fuel > 0 && (annot.Some? || |xs| > 0)
    ensures var res := TypeWith(p, fuel, ctx, OptionalLit(annot, xs));
            var e := OptionalLit(annot, xs);
            var f := fuel - 1;
            var t := ElementType(p, f, ctx, annot, xs);
            var s := if t.Ok? then TypeWith(p, f, ctx, t.value) else OutOfFuel;
            var start := if annot.Some? then 0 else 1;
            var kindOk := t.Ok? && s.Ok? && p.normalize(s.value) == Const(Type);
            (res.Ok? <==> kindOk && |xs| <= 1 &&
                          forall j | start <= j < |xs| ::
                            TypeWith(p, f, ctx, xs[j]).Ok? &&
                            PropEqual(p.matcher, p.normalize, t.value, TypeWith(p, f, ctx, xs[j]).value)) &&
            (res.Ok? ==> res.value == App(Builtin(Optional), t.value)) &&
            (!t.Ok? ==> res == t) &&
            (t.Ok? && !s.Ok? ==> res == s) &&
            (t.Ok? && s.Ok? && !kindOk ==> res == Err(TypeError(ctx, e, InvalidOptionalType(t.value)))) &&
            (kindOk && 2 <= |xs| ==> res == Err(TypeError(ctx, e, InvalidOptionalLiteral(|xs|)))) &&
            (kindOk && |xs| == 1 && annot.Some? && !TypeWith(p, f, ctx, xs[0]).Ok? ==>
               res == TypeWith(p, f, ctx, xs[0])) &&
            (kindOk && |xs| == 1 && annot.Some? && TypeWith(p, f, ctx, xs[0]).Ok? &&
             !PropEqual(p.matcher, p.normalize, t.value, TypeWith(p, f, ctx, xs[0]).value) ==>
               res == Err(TypeError(ctx, e, InvalidOptionalElement(p.normalize(t.value), xs[0],
                                                                   p.normalize(TypeWith(p, f, ctx, xs[0]).value)))))
  {
    var e := OptionalLit(annot, xs);
    var f := fuel - 1;
    Enter(p, fuel, ctx, e);
    assert TypeRule(p, f, ctx, e) == OptionalLitType(p, f, ctx, annot, xs);
    var res := OptionalLitType(p, f, ctx, annot, xs);
    var ts := ElementTypes(p, f, ctx, xs);
    var t := ElementType(p, f, ctx, annot, xs);
    if !t.Ok? {
      assert res == t;
    } else {
      var s := TypeWith(p, f, ctx, t.value);
      if !s.Ok? {
        assert res == s;
      } else if p.normalize(s.value) != Const(Type) {
        assert res == Err(TypeError(ctx, e, InvalidOptionalType(t.value)));
      } else if 2 <= |xs| {
        assert res == Err(TypeError(ctx, e, InvalidOptionalLiteral(|xs|)));
      } else {
        assert forall j | 0 <= j < |xs| :: ts[j] == TypeWith(p, f, ctx, xs[j]);
        OptionalElementsOk(p.matcher, p.normalize, ctx, e, t.value, xs, ts, if annot.Some? then 0 else 1);
        if annot.Some? && |xs| == 1 {
          OptionalElementsUnfold(p.matcher, p.normalize, ctx, e, t.value, xs, ts, 0);
        }
      }
    }
  }

  // ---------------------------------------------------------------------
  // Records

  /** `t` is well typed and its type normalizes to `Type`. */
  predicate HasKindType(p: Prims, fuel: nat, ctx: Context<Expr>, t: Expr) {
    var s := TypeWith(p, fuel, ctx, t);
    s.Ok? && p.normalize(s.value) == Const(Type)
  }

  /** The field loop of a record type succeeds exactly when every field type from `i` on has kind `Type`. */
  lemma {:induction false} FieldTypesOk(p: Prims, fuel: nat, ctx: Context<Expr>, e: Expr,
                                        kts: seq<(Label, Expr)>, i: nat)
    ensures FieldTypes(p, fuel, ctx, e, kts, i).Ok? <==>
            forall j | i <= j < |kts| :: HasKindType(p, fuel, ctx, kts[j].1)
    decreases |kts| - i
  {
    if i < |kts| && HasKindType(p, fuel, ctx, kts[i].1) {
      FieldTypesOk(p, fuel, ctx, e, kts, i + 1);
    }
  }

  /** The field loop stops at the first field whose type does not have kind `Type`: its failure, or `InvalidFieldType` naming it. */
  lemma {:induction false} FieldTypesStopsAt(p: Prims, fuel: nat, ctx: Context<Expr>, e: Expr,
                                             kts: seq<(Label, Expr)>, i: nat, k: nat)
    requires i <= k < |kts|
    requires forall j | i <= j < k :: HasKindType(p, fuel, ctx, kts[j].1)
    requires !HasKindType(p, fuel, ctx, kts[k].1)
    ensures var s := TypeWith(p, fuel, ctx, kts[k].1);
            FieldTypes(p, fuel, ctx, e, kts, i) ==
              if s.Ok? then Err(TypeError(ctx, e, InvalidFieldType(kts[k].0, kts[k].1))) else s.PropagateFailure()
    decreases k - i
  {
    if i < k {
      FieldTypesStopsAt(p, fuel, ctx, e, kts, i + 1, k);
    }
  }

  /** A record type has kind `Type` exactly when every one of its field types does. */
  lemma RecordTyping(p: Prims, fuel: nat, ctx: Context<Expr>, kts: seq<(Label, Expr)>)
    requires fuel > 0
    ensures var res := TypeWith(p, fuel, ctx, Record(kts));
            (res.Ok? <==> forall j | 0 <= j < |kts| :: HasKindType(p, fuel - 1, ctx, kts[j].1)) &&
            (res.Ok? ==> res.value == Const(Type))
  {
    Enter(p, fuel, ctx, Record(kts));
    FieldTypesOk(p, fuel - 1, ctx, Record(kts), kts, 0);
  }

  /**
    A record type reports the first field, in order, whose type does not
    have kind `Type`: the failure of typing it, or `InvalidFieldType`.
   */
  lemma RecordFirstBadField(p: Prims, fuel: nat, ctx: Context<Expr>, kts: seq<(Label, Expr)>, k: nat)
    requires fuel > 0 && k < |kts|
    requires forall j | 0 <= j < k :: HasKindType(p, fuel - 1, ctx, kts[j].1)
    requires !HasKindType(p, fuel - 1, ctx, kts[k].1)
    ensures var s := TypeWith(p, fuel - 1, ctx, kts[k].1);
            TypeWith(p, fuel, ctx, Record(kts)) ==
              if s.Ok? then Err(TypeError(ctx, Record(kts), InvalidFieldType(kts[k].0, kts[k].1))) else s
  {
    Enter(p, fuel, ctx, Record(kts));
    FieldTypesStopsAt(p, fuel - 1, ctx, Record(kts), kts, 0, k);
  }

  /** A record literal field whose value is well typed with a type of kind `Type`. */
  predicate GoodField(p: Prims, fuel: nat, ctx: Context<Expr>, v: Expr) {
    var t := TypeWith(p, fuel, ctx, v);
    t.Ok? && HasKindType(p, fuel, ctx, t.value)
  }

  /**
    The field loop of a record literal succeeds exactly when every value
    from `i` on has a type of kind `Type`, and then pairs each label, in
    order, with its value's type.
   */
  lemma {:induction false} FieldValuesOk(p: Prims, fuel: nat, ctx: Context<Expr>, e: Expr,
                                         kvs: seq<(Label, Expr)>, i: nat)
    requires i <= |kvs|
    ensures var res := FieldValues(p, fuel, ctx, e, kvs, i);
            (res.Ok? <==> forall j | i <= j < |kvs| :: GoodField(p, fuel, ctx, kvs[j].1)) &&
            (res.Ok? ==> |res.value| == |kvs| - i &&
                         forall j | 0 <= j < |res.value| ::
                           res.value[j] == (kvs[i + j].0, TypeWith(p, fuel, ctx, kvs[i + j].1).value))
    decreases |kvs| - i
  {
    if i < |kvs| && GoodField(p, fuel, ctx, kvs[i].1) {
      FieldValuesOk(p, fuel, ctx, e, kvs, i + 1);
    }
  }

  /**
    The field loop of a record literal stops at the first field `k` whose
    value is not good: the failure of typing the value, the failure of
    typing its type, or `InvalidField` naming the field.
   */
  lemma {:induction false} FieldValuesStopsAt(p: Prims, fuel: nat, ctx: Context<Expr>, e: Expr,
                                              kvs: seq<(Label, Expr)>, i: nat, k: nat)
    requires i <= k < |kvs|
    requires forall j | i <= j < k :: GoodField(p, fuel, ctx, kvs[j].1)
    requires !GoodField(p, fuel, ctx, kvs[k].1)
    ensures var res := FieldValues(p, fuel, ctx, e, kvs, i);
            var t := TypeWith(p, fuel, ctx, kvs[k].1);
            var s := if t.Ok? then TypeWith(p, fuel, ctx, t.value) else OutOfFuel;
            (!t.Ok? ==> res == t.PropagateFailure()) &&
            (t.Ok? && !s.Ok? ==> res == s.PropagateFailure()) &&
            (t.Ok? && s.Ok? ==> res == Err(TypeError(ctx, e, InvalidField(kvs[k].0, kvs[k].1))))
    decreases k - i
  {
    var t := TypeWith(p, fuel, ctx, kvs[i].1);
    if i < k {
      assert GoodField(p, fuel, ctx, kvs[i].1);
      assert FieldValues(p, fuel, ctx, e, kvs, i) ==
             (var rest :- FieldValues(p, fuel, ctx, e, kvs, i + 1); Ok([(kvs[i].0, t.value)] + rest));
      FieldValuesStopsAt(p, fuel, ctx, e, kvs, i + 1, k);
    }
  }

  /**
    A record literal is well typed exactly when each of its values has a
    type of kind `Type`; its type is the record type with the same labels,
    in the same order, each paired with its value's type.
   */
  lemma RecordLitTyping(p: Prims, fuel: nat, ctx: Context<Expr>, kvs: seq<(Label, Expr)>)
    requires fuel > 0
    ensures var res := TypeWith(p, fuel, ctx, RecordLit(kvs));
            (res.Ok? <==> forall j | 0 <= j < |kvs| :: GoodField(p, fuel - 1, ctx, kvs[j].1)) &&
            (res.Ok? ==> res.value.Record? && |res.value.fieldTypes| == |kvs| &&
                         forall j | 0 <= j < |kvs| ::
                           res.value.fieldTypes[j] == (kvs[j].0, TypeWith(p, fuel - 1, ctx, kvs[j].1).value))
  {
    var e := RecordLit(kvs);
    Enter(p, fuel, ctx, e);
    assert TypeWith(p, fuel, ctx, e) ==
           (var kts :- FieldValues(p, fuel - 1, ctx, e, kvs, 0); Ok(Record(kts)));
    FieldValuesOk(p, fuel - 1, ctx, e, kvs, 0);
  }

  /**
    A record literal reports the first field, in order, whose value is not
    good: the failure of typing the value, the failure of typing its type,
    or `InvalidField`.
   */
  lemma RecordLitFirstBadField(p: Prims, fuel: nat, ctx: Context<Expr>, kvs: seq<(Label, Expr)>, k: nat)
    requires fuel > 0 && k < |kvs|
    requires forall j | 0 <= j < k :: GoodField(p, fuel - 1, ctx, kvs[j].1)
    requires !GoodField(p, fuel - 1, ctx, kvs[k].1)
    ensures var res := TypeWith(p, fuel, ctx, RecordLit(kvs));
            var t := TypeWith(p, fuel - 1, ctx, kvs[k].1);
            var s := if t.Ok? then TypeWith(p, fuel - 1, ctx, t.value) else OutOfFuel;
            (!t.Ok? ==> res == t) &&
            (t.Ok? && !s.Ok? ==> res == s) &&
            (t.Ok? && s.Ok? ==> res == Err(TypeError(ctx, RecordLit(kvs), InvalidField(kvs[k].0, kvs[k].1))))
  {
    var e := RecordLit(kvs);
    Enter(p, fuel, ctx, e);
    assert TypeWith(p, fuel, ctx, e) ==
           (var kts :- FieldValues(p, fuel - 1, ctx, e, kvs, 0); Ok(Record(kts)));
    FieldValuesStopsAt(p, fuel - 1, ctx, e, kvs, 0, k);
  }
}

/** What the matcher as written changes in the judgement itself. */
module TypeCheckAsWritten {
  import opened Wrappers
  import opened Syntax
  import opened Contexts
  import opened TypeErrors
  import opened Alpha
  import opened TypeCheck
  import opened TypeCheckFacts

  /**
    In a context `h : inner → Bool, g : outer`, with a normalizer that
    changes nothing, `h g` is well typed exactly when `prop_equal` accepts
    `inner` against `outer`, and is otherwise a type mismatch naming both.
   */
  lemma ApplicationOfBoundFunction(p: Prims, fuel: nat, ctx: Context<Expr>, inner: Expr, outer: Expr)
    requires fuel > 1
    requires ctx == [("h", Pi("_", inner, Builtin(Bool))), ("g", outer)]
    requires forall t :: p.normalize(t) == t
    ensures var r := TypeWith(p, fuel, ctx, App(Var(V("h", 0)), Var(V("g", 0))));
            (r.Ok? <==> PropEqual(p.matcher, p.normalize, inner, outer)) &&
            (!r.Ok? ==> r == Err(TypeError(ctx, App(Var(V("h", 0)), Var(V("g", 0))),
                                           TypeMismatch(Var(V("h", 0)), inner, Var(V("g", 0)), outer))))
  {
    var hType := Pi("_", inner, Builtin(Bool));
    assert Lookup(ctx, "g", 0) == Some(outer);
    assert Lookup(ctx, "h", 0) == Some(hType) by {
      assert ctx[..1] == [("h", hType)];
    }
    Enter(p, fuel - 1, ctx, Var(V("h", 0)));
    Enter(p, fuel - 1, ctx, Var(V("g", 0)));
    AppTyping(p, fuel, ctx, Var(V("h", 0)), Var(V("g", 0)));
  }

  /**
    With the identity normalizer, `h : (∀(a : Type) → ∀(a : Type) → a) → Bool`
    applied to `g : ∀(a : Type) → ∀(b : Type) → a` is accepted by the
    judgement as written, though the two types differ; with the corrected
    matcher it is a type mismatch naming both types.
   */
  lemma AsWrittenAcceptsMismatchedApplication(shift: (int, V, Expr) -> Expr, subst: (V, Expr, Expr) -> Expr)
    ensures var inner := Pi("a", Const(Type), Pi("a", Const(Type), Var(V("a", 0))));
            var outer := Pi("a", Const(Type), Pi("b", Const(Type), Var(V("a", 0))));
            var ctx := [("h", Pi("_", inner, Builtin(Bool))), ("g", outer)];
            var e := App(Var(V("h", 0)), Var(V("g", 0)));
            TypeWith(AsWritten(x => x, shift, subst), 2, ctx, e).Ok? &&
            TypeWith(Prims(x => x, shift, subst, MatchVarsCorrected), 2, ctx, e) ==
              Err(TypeError(ctx, e, TypeMismatch(Var(V("h", 0)), inner, Var(V("g", 0)), outer)))
  {
    var inner := Pi("a", Const(Type), Pi("a", Const(Type), Var(V("a", 0))));
    var outer := Pi("a", Const(Type), Pi("b", Const(Type), Var(V("a", 0))));
    var ctx := [("h", Pi("_", inner, Builtin(Bool))), ("g", outer)];
    AsWrittenReadsOutermostFirst();
    ApplicationOfBoundFunction(AsWritten(x => x, shift, subst), 2, ctx, inner, outer);
    ApplicationOfBoundFunction(Prims(x => x, shift, subst, MatchVarsCorrected), 2, ctx, inner, outer);
  }
}
