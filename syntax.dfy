/**
  The expression tree that the type checker works on: `Expr_` of dhall_core
  with the note and import slots taken out (the import slot is uninhabited
  after resolution).  Record types, record literals and union types are
  `BTreeMap`s in the source; here they are association lists kept in the
  map's iteration (key) order.
 */
module Syntax {
  import opened Wrappers

  type Label = string

  /** The two universes of this version of the language. */
  datatype Const = Type | Kind

  /**
    The builtin catalogue.  The constructors named here are the ones the type
    checker gives a type to; every other builtin of dhall_core's catalogue is
    represented by `OtherBuiltin`, which the checker does not handle.
   */
  datatype Builtin =
    | Bool | Natural | Integer | Double | Text | List | Optional
    | NaturalFold | NaturalBuild | NaturalIsZero | NaturalEven | NaturalOdd
    | ListBuild | ListFold | ListLength | ListHead | ListLast | ListIndexed | ListReverse
    | OptionalFold
    | OtherBuiltin(builtinName: string)

  /**
    Binary operators: the seven the checker types, and the others of the
    language, which it does not handle.
   */
  datatype BinOp =
    | BoolAnd | BoolOr | BoolEQ | BoolNE | NaturalPlus | NaturalTimes | TextAppend
    | ListAppend | Combine | Prefer | ImportAlt

  /** A variable: a name and the number of binders of that name to skip. */
  datatype V = V(name: Label, index: nat)

  datatype Expr =
    | Const(c: Const)
    | Var(v: V)
    | Lam(x: Label, tA: Expr, body: Expr)
    | Pi(x: Label, tA: Expr, tB: Expr)
    | App(fn: Expr, arg: Expr)
    | Let(bound: Label, annot: Option<Expr>, value: Expr, rest: Expr)
    | Annot(term: Expr, ty: Expr)
    | BoolLit(b: bool)
    | BinOp(op: BinOp, l: Expr, r: Expr)
    | BoolIf(cond: Expr, thenBranch: Expr, elseBranch: Expr)
    | NaturalLit(n: nat)
    | IntegerLit(i: int)
    | DoubleLit(bits: int)                // the payload plays no part in typing
    | TextLit(text: string)
    | ListLit(listAnnot: Option<Expr>, elems: seq<Expr>)
    | OptionalLit(optAnnot: Option<Expr>, items: seq<Expr>)
    | Builtin(builtin: Builtin)
    | Record(fieldTypes: seq<(Label, Expr)>)
    | RecordLit(fieldValues: seq<(Label, Expr)>)
    | Union(alternatives: seq<(Label, Expr)>)
    | UnionLit(tag: Label, payload: Expr, others: seq<(Label, Expr)>)
    | Merge(handlers: Expr, scrutinee: Expr, mergeAnnot: Option<Expr>)
    | Field(target: Expr, selector: Label)
    | Note(position: nat, noted: Expr)

  /** The value stored under `k`, as `BTreeMap::get` finds it. */
  function FieldLookup(kts: seq<(Label, Expr)>, k: Label): (r: Option<Expr>)
    ensures r.Some? <==> exists i :: 0 <= i < |kts| && kts[i].0 == k
    ensures r.Some? ==> exists i :: 0 <= i < |kts| && kts[i] == (k, r.value)
  {
    if |kts| == 0 then None
    else if kts[0].0 == k then Some(kts[0].1)
    else
      var r := FieldLookup(kts[1..], k);
      assert forall i :: 0 <= i < |kts| - 1 ==> kts[1..][i] == kts[i + 1];
      r
  }
}
