/**
  Fuel only bounds the recursion of the judgement: whenever an answer is
  reached with some fuel, every larger amount of fuel reaches the same one.
  So an answer other than `OutOfFuel` is the answer of `type_with` itself.
 */
module TypeCheckFuel {
  import opened Wrappers
  import opened Syntax
  import opened Contexts
  import opened TypeErrors
  import opened Alpha
  import opened TypeCheck

  lemma TypeWithFuelMonotone(p: Prims, f: nat, g: nat, ctx: Context<Expr>, e: Expr)
    requires f <= g && TypeWith(p, f, ctx, e) != OutOfFuel
    ensures TypeWith(p, g, ctx, e) == TypeWith(p, f, ctx, e)
    decreases f, 0, 0
  {
    TypeRuleFuelMonotone(p, f - 1, g - 1, ctx, e);
  }

  lemma TypeRuleFuelMonotone(p: Prims, f: nat, g: nat, ctx: Context<Expr>, e: Expr)
    requires f <= g && TypeRule(p, f, ctx, e) != OutOfFuel
    ensures TypeRule(p, g, ctx, e) == TypeRule(p, f, ctx, e)
    decreases f, 4, 0
  {
    if e.Lam? {
      LamFuelMonotone(p, f, g, ctx, e.x, e.tA, e.body);
    } else if e.Pi? {
      PiFuelMonotone(p, f, g, ctx, e.x, e.tA, e.tB);
    } else if e.App? {
      AppFuelMonotone(p, f, g, ctx, e.fn, e.arg);
    } else if e.Let? {
      LetFuelMonotone(p, f, g, ctx, e.bound, e.annot, e.value, e.rest);
    } else if e.Annot? {
      AnnotFuelMonotone(p, f, g, ctx, e.term, e.ty);
    } else if e.BinOp? {
      BinOpFuelMonotone(p, f, g, ctx, e.op, e.l, e.r);
    } else if e.BoolIf? {
      IfFuelMonotone(p, f, g, ctx, e.cond, e.thenBranch, e.elseBranch);
    } else if e.ListLit? {
      ListLitFuelMonotone(p, f, g, ctx, e.listAnnot, e.elems);
    } else if e.OptionalLit? {
      OptionalLitFuelMonotone(p, f, g, ctx, e.optAnnot, e.items);
    } else if e.Record? {
      FieldTypesFuelMonotone(p, f, g, ctx, e, e.fieldTypes, 0);
    } else if e.RecordLit? {
      FieldValuesFuelMonotone(p, f, g, ctx, e, e.fieldValues, 0);
    } else if e.Field? {
      TypeWithFuelMonotone(p, f, g, ctx, e.target);
    }
  }

  lemma LamFuelMonotone(p: Prims, f: nat, g: nat, ctx: Context<Expr>, x: Label, tA: Expr, b: Expr)
    requires f <= g && LamType(p, f, ctx, x, tA, b) != OutOfFuel
    ensures LamType(p, g, ctx, x, tA, b) == LamType(p, f, ctx, x, tA, b)
    decreases f, 2, 0
  {
    forall c: Context<Expr>, y: Expr | TypeWith(p, f, c, y) != OutOfFuel
      ensures TypeWith(p, g, c, y) == TypeWith(p, f, c, y)
    {
      TypeWithFuelMonotone(p, f, g, c, y);
    }
  }

  lemma PiFuelMonotone(p: Prims, f: nat, g: nat, ctx: Context<Expr>, x: Label, tA: Expr, tB: Expr)
    requires f <= g && PiType(p, f, ctx, x, tA, tB) != OutOfFuel
    ensures PiType(p, g, ctx, x, tA, tB) == PiType(p, f, ctx, x, tA, tB)
    decreases f, 2, 0
  {
    forall c: Context<Expr>, y: Expr | TypeWith(p, f, c, y) != OutOfFuel
      ensures TypeWith(p, g, c, y) == TypeWith(p, f, c, y)
    {
      TypeWithFuelMonotone(p, f, g, c, y);
    }
  }

  lemma AppFuelMonotone(p: Prims, f: nat, g: nat, ctx: Context<Expr>, fn: Expr, a: Expr)
    requires f <= g && AppType(p, f, ctx, fn, a) != OutOfFuel
    ensures AppType(p, g, ctx, fn, a) == AppType(p, f, ctx, fn, a)
    decreases f, 2, 0
  {
    forall c: Context<Expr>, y: Expr | TypeWith(p, f, c, y) != OutOfFuel
      ensures TypeWith(p, g, c, y) == TypeWith(p, f, c, y)
    {
      TypeWithFuelMonotone(p, f, g, c, y);
    }
  }

  lemma LetFuelMonotone(p: Prims, f: nat, g: nat, ctx: Context<Expr>, x: Label, annot: Option<Expr>,
                        r: Expr, b: Expr)
    requires f <= g && LetType(p, f, ctx, x, annot, r, b) != OutOfFuel
    ensures LetType(p, g, ctx, x, annot, r, b) == LetType(p, f, ctx, x, annot, r, b)
    decreases f, 3, 0
  {
    forall c: Context<Expr>, y: Expr | TypeWith(p, f, c, y) != OutOfFuel
      ensures TypeWith(p, g, c, y) == TypeWith(p, f, c, y)
    {
      TypeWithFuelMonotone(p, f, g, c, y);
    }
    forall tR: Expr, kR: Const | LetBodyType(p, f, ctx, x, annot, r, b, tR, kR) != OutOfFuel
      ensures LetBodyType(p, g, ctx, x, annot, r, b, tR, kR) == LetBodyType(p, f, ctx, x, annot, r, b, tR, kR)
    {
      LetBodyFuelMonotone(p, f, g, ctx, x, annot, r, b, tR, kR);
    }
  }

  lemma LetBodyFuelMonotone(p: Prims, f: nat, g: nat, ctx: Context<Expr>, x: Label, annot: Option<Expr>,
                            r: Expr, b: Expr, tR: Expr, kR: Const)
    requires f <= g && LetBodyType(p, f, ctx, x, annot, r, b, tR, kR) != OutOfFuel
    ensures LetBodyType(p, g, ctx, x, annot, r, b, tR, kR) == LetBodyType(p, f, ctx, x, annot, r, b, tR, kR)
    decreases f, 2, 0
  {
    forall c: Context<Expr>, y: Expr | TypeWith(p, f, c, y) != OutOfFuel
      ensures TypeWith(p, g, c, y) == TypeWith(p, f, c, y)
    {
      TypeWithFuelMonotone(p, f, g, c, y);
    }
  }

  lemma AnnotFuelMonotone(p: Prims, f: nat, g: nat, ctx: Context<Expr>, x: Expr, t: Expr)
    requires f <= g && AnnotType(p, f, ctx, x, t) != OutOfFuel
    ensures AnnotType(p, g, ctx, x, t) == AnnotType(p, f, ctx, x, t)
    decreases f, 2, 0
  {
    forall c: Context<Expr>, y: Expr | TypeWith(p, f, c, y) != OutOfFuel
      ensures TypeWith(p, g, c, y) == TypeWith(p, f, c, y)
    {
      TypeWithFuelMonotone(p, f, g, c, y);
    }
  }

  lemma BinOpFuelMonotone(p: Prims, f: nat, g: nat, ctx: Context<Expr>, op: BinOp, l: Expr, r: Expr)
    requires f <= g && BinOpType(p, f, ctx, op, l, r) != OutOfFuel
    ensures BinOpType(p, g, ctx, op, l, r) == BinOpType(p, f, ctx, op, l, r)
    decreases f, 2, 0
  {
    forall e: Expr, t: Builtin, ef: (Expr, Expr) -> TypeMessage | Op2Type(p, f, ctx, e, t, ef, l, r) != OutOfFuel
      ensures Op2Type(p, g, ctx, e, t, ef, l, r) == Op2Type(p, f, ctx, e, t, ef, l, r)
    {
      Op2TypeFuelMonotone(p, f, g, ctx, e, t, ef, l, r);
    }
  }

  lemma Op2TypeFuelMonotone(p: Prims, f: nat, g: nat, ctx: Context<Expr>, e: Expr, t: Builtin,
                            ef: (Expr, Expr) -> TypeMessage, l: Expr, r: Expr)
    requires f <= g && Op2Type(p, f, ctx, e, t, ef, l, r) != OutOfFuel
    ensures Op2Type(p, g, ctx, e, t, ef, l, r) == Op2Type(p, f, ctx, e, t, ef, l, r)
    decreases f, 1, 0
  {
    forall c: Context<Expr>, y: Expr | TypeWith(p, f, c, y) != OutOfFuel
      ensures TypeWith(p, g, c, y) == TypeWith(p, f, c, y)
    {
      TypeWithFuelMonotone(p, f, g, c, y);
    }
  }

  lemma IfFuelMonotone(p: Prims, f: nat, g: nat, ctx: Context<Expr>, x: Expr, y: Expr, z: Expr)
    requires f <= g && IfType(p, f, ctx, x, y, z) != OutOfFuel
    ensures IfType(p, g, ctx, x, y, z) == IfType(p, f, ctx, x, y, z)
    decreases f, 3, 0
  {
    forall c: Context<Expr>, y: Expr | TypeWith(p, f, c, y) != OutOfFuel
      ensures TypeWith(p, g, c, y) == TypeWith(p, f, c, y)
    {
      TypeWithFuelMonotone(p, f, g, c, y);
    }
    forall ty: Expr | IfElseType(p, f, ctx, x, y, z, ty) != OutOfFuel
      ensures IfElseType(p, g, ctx, x, y, z, ty) == IfElseType(p, f, ctx, x, y, z, ty)
    {
      IfElseFuelMonotone(p, f, g, ctx, x, y, z, ty);
    }
  }

  lemma IfElseFuelMonotone(p: Prims, f: nat, g: nat, ctx: Context<Expr>, x: Expr, y: Expr, z: Expr, ty: Expr)
    requires f <= g && IfElseType(p, f, ctx, x, y, z, ty) != OutOfFuel
    ensures IfElseType(p, g, ctx, x, y, z, ty) == IfElseType(p, f, ctx, x, y, z, ty)
    decreases f, 2, 0
  {
    forall c: Context<Expr>, y: Expr | TypeWith(p, f, c, y) != OutOfFuel
      ensures TypeWith(p, g, c, y) == TypeWith(p, f, c, y)
    {
      TypeWithFuelMonotone(p, f, g, c, y);
    }
  }

  lemma ListLitFuelMonotone(p: Prims, f: nat, g: nat, ctx: Context<Expr>, annot: Option<Expr>, xs: seq<Expr>)
    requires f <= g && ListLitType(p, f, ctx, annot, xs) != OutOfFuel
    ensures ListLitType(p, g, ctx, annot, xs) == ListLitType(p, f, ctx, annot, xs)
    decreases f, 3, 0
  {
    if annot.Some? || |xs| > 0 {
      if annot.None? {
        TypeWithFuelMonotone(p, f, g, ctx, xs[0]);
      }
      var t := ElementType(p, f, ctx, annot, xs);
      if t.Ok? {
        TypeWithFuelMonotone(p, f, g, ctx, t.value);
        var s := TypeWith(p, f, ctx, t.value);
        if s.Ok? && p.normalize(s.value) == Const(Type) {
          ElementTypesFuelMonotone(p, f, g, ctx, xs);
          ListElementsAgree(p.matcher, p.normalize, ctx, ListLit(annot, xs), t.value, xs, ElementTypes(p, f, ctx, xs),
                            ElementTypes(p, g, ctx, xs), if annot.Some? then 0 else 1);
        }
      }
    }
  }

  lemma OptionalLitFuelMonotone(p: Prims, f: nat, g: nat, ctx: Context<Expr>, annot: Option<Expr>, xs: seq<Expr>)
    requires f <= g && OptionalLitType(p, f, ctx, annot, xs) != OutOfFuel
    ensures OptionalLitType(p, g, ctx, annot, xs) == OptionalLitType(p, f, ctx, annot, xs)
    decreases f, 3, 0
  {
    if annot.Some? || |xs| > 0 {
      if annot.None? {
        TypeWithFuelMonotone(p, f, g, ctx, xs[0]);
      }
      var t := ElementType(p, f, ctx, annot, xs);
      if t.Ok? {
        TypeWithFuelMonotone(p, f, g, ctx, t.value);
        var s := TypeWith(p, f, ctx, t.value);
        if s.Ok? && p.normalize(s.value) == Const(Type) && |xs| < 2 {
          ElementTypesFuelMonotone(p, f, g, ctx, xs);
          OptionalElementsAgree(p.matcher, p.normalize, ctx, OptionalLit(annot, xs), t.value, xs, ElementTypes(p, f, ctx, xs),
                                ElementTypes(p, g, ctx, xs), if annot.Some? then 0 else 1);
        }
      }
    }
  }

  /** The types of the elements agree wherever the smaller fuel reaches an answer. */
  lemma ElementTypesFuelMonotone(p: Prims, f: nat, g: nat, ctx: Context<Expr>, xs: seq<Expr>)
    requires f <= g
    ensures forall j | 0 <= j < |xs| && ElementTypes(p, f, ctx, xs)[j] != OutOfFuel ::
              ElementTypes(p, g, ctx, xs)[j] == ElementTypes(p, f, ctx, xs)[j]
    decreases f, 1, 0
  {
    forall j | 0 <= j < |xs| && ElementTypes(p, f, ctx, xs)[j] != OutOfFuel
      ensures ElementTypes(p, g, ctx, xs)[j] == ElementTypes(p, f, ctx, xs)[j]
    {
      TypeWithFuelMonotone(p, f, g, ctx, xs[j]);
    }
  }

  /** The list-element loop gives the same answer on two lists of types that agree where the first answers. */
  lemma {:induction false} ListElementsAgree(mv: Matcher, normalize: Expr -> Expr, ctx: Context<Expr>, e: Expr, t: Expr,
      xs: seq<Expr>, ts: seq<Outcome<Expr>>, us: seq<Outcome<Expr>>, i: nat)
    requires |ts| == |xs| && |us| == |xs|
    requires forall j | i <= j < |xs| && ts[j] != OutOfFuel :: us[j] == ts[j]
    requires ListElements(mv, normalize, ctx, e, t, xs, ts, i) != OutOfFuel
    ensures ListElements(mv, normalize, ctx, e, t, xs, us, i) == ListElements(mv, normalize, ctx, e, t, xs, ts, i)
    decreases |xs| - i
  {
    if i < |xs| {
      ListElementsReached(mv, normalize, ctx, e, t, xs, ts, i);
      if ts[i].Ok? && PropEqual(mv, normalize, t, ts[i].value) {
        ListElementsAgree(mv, normalize, ctx, e, t, xs, ts, us, i + 1);
      }
      ListElementsStep(mv, normalize, ctx, e, t, xs, ts, us, i);
    }
  }

  /** A loop that answers has an answer for the element it is at, and for the rest when that one matches. */
  lemma ListElementsReached(mv: Matcher, normalize: Expr -> Expr, ctx: Context<Expr>, e: Expr, t: Expr,
      xs: seq<Expr>, ts: seq<Outcome<Expr>>, i: nat)
    requires |ts| == |xs| && i < |xs|
    requires ListElements(mv, normalize, ctx, e, t, xs, ts, i) != OutOfFuel
    ensures ts[i] != OutOfFuel
    ensures ts[i].Ok? && PropEqual(mv, normalize, t, ts[i].value) ==>
            ListElements(mv, normalize, ctx, e, t, xs, ts, i + 1) != OutOfFuel
  {
  }

  /** One turn of the loop: the same type at `i` and the same rest give the same answer. */
  lemma ListElementsStep(mv: Matcher, normalize: Expr -> Expr, ctx: Context<Expr>, e: Expr, t: Expr,
      xs: seq<Expr>, ts: seq<Outcome<Expr>>, us: seq<Outcome<Expr>>, i: nat)
    requires |ts| == |xs| && |us| == |xs| && i < |xs| && us[i] == ts[i]
    requires ts[i].Ok? && PropEqual(mv, normalize, t, ts[i].value) ==>
             ListElements(mv, normalize, ctx, e, t, xs, us, i + 1) == ListElements(mv, normalize, ctx, e, t, xs, ts, i + 1)
    ensures ListElements(mv, normalize, ctx, e, t, xs, us, i) == ListElements(mv, normalize, ctx, e, t, xs, ts, i)
  {
  }

  /** The optional-element loop gives the same answer on two lists of types that agree where the first answers. */
  lemma {:induction false} OptionalElementsAgree(mv: Matcher, normalize: Expr -> Expr, ctx: Context<Expr>, e: Expr, t: Expr,
      xs: seq<Expr>, ts: seq<Outcome<Expr>>, us: seq<Outcome<Expr>>, i: nat)
    requires |ts| == |xs| && |us| == |xs|
    requires forall j | i <= j < |xs| && ts[j] != OutOfFuel :: us[j] == ts[j]
    requires OptionalElements(mv, normalize, ctx, e, t, xs, ts, i) != OutOfFuel
    ensures OptionalElements(mv, normalize, ctx, e, t, xs, us, i) == OptionalElements(mv, normalize, ctx, e, t, xs, ts, i)
    decreases |xs| - i
  {
    if i < |xs| {
      OptionalElementsReached(mv, normalize, ctx, e, t, xs, ts, i);
      if ts[i].Ok? && PropEqual(mv, normalize, t, ts[i].value) {
        OptionalElementsAgree(mv, normalize, ctx, e, t, xs, ts, us, i + 1);
      }
      OptionalElementsStep(mv, normalize, ctx, e, t, xs, ts, us, i);
    }
  }

  /** A loop that answers has an answer for the element it is at, and for the rest when that one matches. */
  lemma OptionalElementsReached(mv: Matcher, normalize: Expr -> Expr, ctx: Context<Expr>, e: Expr, t: Expr,
      xs: seq<Expr>, ts: seq<Outcome<Expr>>, i: nat)
    requires |ts| == |xs| && i < |xs|
    requires OptionalElements(mv, normalize, ctx, e, t, xs, ts, i) != OutOfFuel
    ensures ts[i] != OutOfFuel
    ensures ts[i].Ok? && PropEqual(mv, normalize, t, ts[i].value) ==>
            OptionalElements(mv, normalize, ctx, e, t, xs, ts, i + 1) != OutOfFuel
  {
  }

  /** One turn of the loop: the same type at `i` and the same rest give the same answer. */
  lemma OptionalElementsStep(mv: Matcher, normalize: Expr -> Expr, ctx: Context<Expr>, e: Expr, t: Expr,
      xs: seq<Expr>, ts: seq<Outcome<Expr>>, us: seq<Outcome<Expr>>, i: nat)
    requires |ts| == |xs| && |us| == |xs| && i < |xs| && us[i] == ts[i]
    requires ts[i].Ok? && PropEqual(mv, normalize, t, ts[i].value) ==>
             OptionalElements(mv, normalize, ctx, e, t, xs, us, i + 1) == OptionalElements(mv, normalize, ctx, e, t, xs, ts, i + 1)
    ensures OptionalElements(mv, normalize, ctx, e, t, xs, us, i) == OptionalElements(mv, normalize, ctx, e, t, xs, ts, i)
  {
  }

  lemma FieldTypesFuelMonotone(p: Prims, f: nat, g: nat, ctx: Context<Expr>, e: Expr,
                               kts: seq<(Label, Expr)>, i: nat)
    requires f <= g && FieldTypes(p, f, ctx, e, kts, i) != OutOfFuel
    ensures FieldTypes(p, g, ctx, e, kts, i) == FieldTypes(p, f, ctx, e, kts, i)
    decreases f, 1, |kts| - i
  {
    if i < |kts| {
      TypeWithFuelMonotone(p, f, g, ctx, kts[i].1);
      var s := TypeWith(p, f, ctx, kts[i].1);
      if s.Ok? && p.normalize(s.value) == Const(Type) {
        FieldTypesFuelMonotone(p, f, g, ctx, e, kts, i + 1);
      }
    }
  }

  lemma FieldValuesFuelMonotone(p: Prims, f: nat, g: nat, ctx: Context<Expr>, e: Expr,
                                kvs: seq<(Label, Expr)>, i: nat)
    requires f <= g && FieldValues(p, f, ctx, e, kvs, i) != OutOfFuel
    ensures FieldValues(p, g, ctx, e, kvs, i) == FieldValues(p, f, ctx, e, kvs, i)
    decreases f, 1, |kvs| - i
  {
    if i < |kvs| {
      TypeWithFuelMonotone(p, f, g, ctx, kvs[i].1);
      var t := TypeWith(p, f, ctx, kvs[i].1);
      if t.Ok? {
        TypeWithFuelMonotone(p, f, g, ctx, t.value);
        var s := TypeWith(p, f, ctx, t.value);
        if s.Ok? && p.normalize(s.value) == Const(Type) {
          FieldValuesFuelMonotone(p, f, g, ctx, e, kvs, i + 1);
        }
      }
    }
  }

  /** `type_of` inherits the property. */
  lemma TypeOfFuelMonotone(p: Prims, f: nat, g: nat, e: Expr)
    requires f <= g && TypeOf(p, f, e) != OutOfFuel
    ensures TypeOf(p, g, e) == TypeOf(p, f, e)
  {
    TypeWithFuelMonotone(p, f, g, Empty(), e);
  }
}
