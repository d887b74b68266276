/**
  A reference meaning for binder-aware equality of types: every variable is
  replaced by the position of the binder it refers to (or kept, with its
  index adjusted, when it is free), and binder names are dropped.  Two types
  are the same up to renaming of bound variables exactly when these nameless
  forms are equal.  Only the shapes that the equality of the type checker
  ever compares form the fragment (`InFragment`).
 */
module Nameless {
  import opened Syntax

  /** What a variable refers to: the binder `depth` steps out, or a free name. */
  datatype Ref = Bound(depth: nat) | Free(name: Label, index: int)

  function Up(r: Ref): Ref {
    if r.Bound? then Bound(r.depth + 1) else r
  }

  /**
    The referent of `V(x, n)` under binders named `names`, innermost last:
    skip `n` binders named `x`, counting outward.
   */
  function Resolve(x: Label, n: int, names: seq<Label>): (r: Ref)
    ensures r.Bound? ==> r.depth < |names| && names[|names| - 1 - r.depth] == x
    ensures r.Free? ==> r.name == x
    decreases |names|
  {
    if |names| == 0 then Free(x, n)
    else
      var init := names[..|names| - 1];
      if names[|names| - 1] == x then
        if n == 0 then Bound(0) else Up(Resolve(x, n - 1, init))
      else Up(Resolve(x, n, init))
  }

  /** Nameless types: no binder names, variables as referents. */
  datatype Term =
    | TConst(c: Const)
    | TVar(target: Ref)
    | TPi(dom: Term, cod: Term)
    | TApp(fn: Term, arg: Term)
    | TBuiltin(b: Builtin)
    | TRecord(fields: seq<(Label, Term)>)
    | TUnion(alts: seq<(Label, Term)>)
    | TOther

  /** Built only of constants, variables, function types, applications, builtins, records and unions. */
  predicate InFragment(e: Expr) {
    match e
    case Const(_) => true
    case Var(_) => true
    case Pi(_, tA, tB) => InFragment(tA) && InFragment(tB)
    case App(f, a) => InFragment(f) && InFragment(a)
    case Builtin(_) => true
    case Record(kts) => forall i | 0 <= i < |kts| :: InFragment(kts[i].1)
    case Union(kts) => forall i | 0 <= i < |kts| :: InFragment(kts[i].1)
    case _ => false
  }

  /** The nameless form of `e` under binders `names`, innermost last. */
  function Erase(e: Expr, names: seq<Label>): Term {
    match e
    case Const(c) => TConst(c)
    case Var(V(x, n)) => TVar(Resolve(x, n, names))
    case Pi(x, tA, tB) => TPi(Erase(tA, names), Erase(tB, names + [x]))
    case App(f, a) => TApp(Erase(f, names), Erase(a, names))
    case Builtin(b) => TBuiltin(b)
    case Record(kts) => TRecord(seq(|kts|, i requires 0 <= i < |kts| => (kts[i].0, Erase(kts[i].1, names))))
    case Union(kts) => TUnion(seq(|kts|, i requires 0 <= i < |kts| => (kts[i].0, Erase(kts[i].1, names))))
    case _ => TOther
  }

  /** Two closed expressions of the fragment that differ only in the names of their bound variables. */
  predicate AlphaEquivalent(a: Expr, b: Expr) {
    InFragment(a) && InFragment(b) && Erase(a, []) == Erase(b, [])
  }
}
