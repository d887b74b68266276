/**
  What the checker reports: `TypeMessage` (the violated rule), `TypeError`
  (the message with the context and the expression being checked) and the
  outcome of a check, which besides success and a type error can be one of
  the checker's panics or, in this model, the exhaustion of its fuel.
 */
module TypeErrors {
  import opened Syntax
  import opened Contexts

  datatype TypeMessage =
    | UnboundVariable
    | InvalidInputType(Expr)
    | InvalidOutputType(Expr)
    | NotAFunction(Expr, Expr)
    | TypeMismatch(Expr, Expr, Expr, Expr)
    | AnnotMismatch(Expr, Expr, Expr)
    | Untyped
    | InvalidListElement(nat, Expr, Expr, Expr)
    | InvalidListType(Expr)
    | InvalidOptionalElement(Expr, Expr, Expr)
    | InvalidOptionalLiteral(nat)
    | InvalidOptionalType(Expr)
    | InvalidPredicate(Expr, Expr)
    | IfBranchMismatch(Expr, Expr, Expr, Expr)
    | IfBranchMustBeTerm(bool, Expr, Expr, Expr)
    | InvalidField(Label, Expr)
    | InvalidFieldType(Label, Expr)
    | InvalidAlternative(Label, Expr)
    | InvalidAlternativeType(Label, Expr)
    | DuplicateAlternative(Label)
    | MustCombineARecord(Expr, Expr)
    | FieldCollision(Label)
    | MustMergeARecord(Expr, Expr)
    | MustMergeUnion(Expr, Expr)
    | UnusedHandler(set<Label>)
    | MissingHandler(set<Label>)
    | HandlerInputTypeMismatch(Label, Expr, Expr)
    | HandlerOutputTypeMismatch(Label, Expr, Expr)
    | HandlerNotAFunction(Label, Expr)
    | NotARecord(Label, Expr, Expr)
    | MissingField(Label, Expr)
    | CantAnd(Expr, Expr)
    | CantOr(Expr, Expr)
    | CantEQ(Expr, Expr)
    | CantNE(Expr, Expr)
    | CantTextAppend(Expr, Expr)
    | CantAdd(Expr, Expr)
    | CantMultiply(Expr, Expr)
    | NoDependentLet(Expr, Expr)
    | NoDependentTypes(Expr, Expr)

  /** `TypeError::new(ctx, e, m)`: the message, where it happened and in which context. */
  datatype TypeError = TypeError(context: Context<Expr>, current: Expr, message: TypeMessage)

  /** Where the checker aborts instead of returning. */
  datatype PanicReason =
    | EmptyListLiteral        // `iter.next().unwrap()` on an unannotated empty list
    | EmptyOptionalLiteral    // the same on an unannotated empty optional literal
    | Unimplemented(e: Expr)  // the final `panic!("Unimplemented typecheck case")`

  /**
    The result of a check.  `:-` on it behaves as `?` does on the source's
    `Result`, and also passes a panic or exhausted fuel straight up.
   */
  datatype Outcome<+T> = Ok(value: T) | Err(error: TypeError) | Panic(reason: PanicReason) | OutOfFuel
  {
    predicate IsFailure() {
      !Ok?
    }

    function PropagateFailure<U>(): Outcome<U>
      requires IsFailure()
    {
      match this
      case Err(err) => Err(err)
      case Panic(why) => Panic(why)
      case OutOfFuel => OutOfFuel
    }

    function Extract(): T
      requires Ok?
    {
      value
    }
  }
}
