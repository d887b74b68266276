# dhall-rust type checker, modelled in Dafny

This project models the type checker of dhall-rust (`dhall/src/typecheck.rs`):

- the universe tables `axiom` and `rule`;
- binder-aware equality of types, `prop_equal`, with its inner walk `go` and the variable matcher `match_vars`;
- the operator helper `op2_type`;
- the judgement `type_with(ctx, e)`, one rule per kind of expression, and `type_of(e)`;
- the error shapes `TypeMessage` and `TypeError`.

The judgement is a Dafny function, `TypeCheck.TypeWith`, with one function per large rule (`LamType`, `PiType`, `AppType`, …).

The result is an `Outcome`, which has four cases:

- `Ok(type)`;
- `Err(TypeError(context, current, message))`, exactly as the source builds it;
- `Panic(reason)`, for the source's `unwrap()` on an unannotated empty literal and for its final `panic!("Unimplemented typecheck case")`;
- `OutOfFuel`.

`:-` on an `Outcome` plays the part of the source's `?`.

Parts of dhall_core that this model does not include are handed in as a `Prims` value, and every property holds for whatever functions are handed in:

- the normalizer;
- `shift` and `subst`;
- the variable matcher that `prop_equal` uses. `TypeCheck.AsWritten` fills it with `match_vars` as written, which is how the source runs; `Alpha.MatchVarsCorrected` is the corrected matcher.

`type_with` re-enters itself on the types it computes, so its recursion is not structural. A `fuel` argument bounds the depth of that recursion. `TypeCheckFuel.TypeWithFuelMonotone` proves that every answer other than `OutOfFuel` stays the same with more fuel. Such an answer is therefore the answer of the unbounded judgement.

Files:

- `syntax.dfy`: the expression tree. Record types, record literals and unions, which are `BTreeMap`s in the source, are association lists here, in key order.
- `context.dfy`: the typing context: `insert`, `map` and `lookup`.
- `errors.dfy`: `TypeMessage`, `TypeError` and `Outcome`.
- `universe.dfy`: `axiom` and `rule`.
- `nameless.dfy`: nameless (de Bruijn) forms, used as the reference definition of alpha-equivalence.
- `alpha.dfy`: `match_vars` as written, the corrected matcher, `go` as a function, and the proofs that relate them to alpha-equivalence.
- `alpha_stack.dfy`: `go` as the source runs it, as methods on one mutable binder stack (a class), proved equal to the function.
- `typecheck.dfy`: the judgement.
- `typecheck_loops.dfy`: the early-returning loops of the list, optional and record arms, as methods with loop invariants.
- `typecheck_fuel.dfy`: fuel monotonicity.
- `typecheck_facts.dfy`: what each typing rule promises, one lemma per rule.
- `typecheck_scope.dfy`: open terms are never typed.

## Model

| member | source | states |
|---|---|---|
| Universe.Axiom | dhall/src/typecheck.rs:17-24 | `axiom` succeeds exactly on `Type`, and on the other constant it returns an error rather than failing in any other way (the values are in `AxiomHierarchy`) |
| Universe.AxiomHierarchy | dhall/src/typecheck.rs:17-24 | `Type : Kind`; `Kind` gives the `Untyped` error for `Const(Kind)` in the empty context |
| Universe.RuleTable | dhall/src/typecheck.rs:26-32 | the four entries of the function-type universe table |
| Universe.RuleIsCodomain | dhall/src/typecheck.rs:26-32 | `rule` fails exactly on `(Type, Kind)` and otherwise yields the codomain's universe |
| Contexts.Empty | dhall/src/typecheck.rs:716-721 | the context `type_of` starts from holds no binding |
| Contexts.Insert | dhall/src/typecheck.rs:198-201 | `insert` adds the new binding innermost and keeps every older one in place |
| Contexts.MapTypes | dhall/src/typecheck.rs:198-201 | `map` rewrites every stored type and keeps the names and the order |
| Contexts.Lookup | dhall/src/typecheck.rs:192-197 | `lookup(x, n)` finds a binding exactly when `x` is bound more than `n` times, and what it finds is a type bound to `x` |
| Contexts.LookupInsertSame | dhall/src/typecheck.rs:198-202 | index 0 of a name finds the binding just inserted; index `n + 1` then finds what index `n` found before |
| Contexts.LookupInsertOther | dhall/src/typecheck.rs:198-202 | inserting a binding under `x` changes no lookup of another name |
| Contexts.LookupMapTypes | dhall/src/typecheck.rs:198-202 | after `map(g)`, a lookup returns `g` of what it returned before, and finds a binding exactly when it found one before |
| Syntax.FieldLookup | dhall/src/typecheck.rs:685-694 | `kts.get(x)` finds a value exactly when a field is labelled `x`, and the value is that field's |
| Alpha.MatchVarsEmpty | dhall/src/typecheck.rs:34-37 | with no binders, two variables match exactly when their names and indices are equal |
| Alpha.MatchVarsHead | dhall/src/typecheck.rs:38-42 | two index-0 variables named by the first pair of the stack match |
| Alpha.MatchVarsStep | dhall/src/typecheck.rs:43-47 | otherwise each index drops by one exactly when its name is its own side of the first pair, and matching goes on with the rest of the stack |
| Alpha.MatchVarsSymmetric | dhall/src/typecheck.rs:34-49 | swapping the two sides of the variables and of every pair gives the same answer |
| Alpha.MatchVarsReflexive | dhall/src/typecheck.rs:34-49 | when every pair binds the same name on both sides, each variable matches itself |
| Alpha.EqualSizes | dhall/src/typecheck.rs:90-93 | records (and unions) with different numbers of entries are never equal |
| Alpha.EqualBuiltins | dhall/src/typecheck.rs:89 | two builtins are equal exactly when they are the same builtin |
| Alpha.EqualOnlySameShape | dhall/src/typecheck.rs:65-141 | only constants, variables, function types, applications, builtins, records and unions compare equal, and only to the same shape |
| Alpha.NamesOfPush | dhall/src/typecheck.rs:73 | a pair pushed on the stack puts its two names innermost on their own sides |
| Alpha.CorrectedMatchResolves | dhall/src/typecheck.rs:34-49 | with the corrected matcher, two variables match exactly when they refer to the same binder depth, or stay free under the same name and index |
| Alpha.CorrectedEqualIsAlpha | dhall/src/typecheck.rs:56-143 | with the corrected matcher, `go` holds exactly when both sides are in the compared fragment and have the same nameless form under the stacked binders |
| Alpha.ShapesDiffer | dhall/src/typecheck.rs:65-141 | the case of `CorrectedEqualIsAlpha` where the two sides do not share a compared shape |
| Alpha.EntriesAlpha | dhall/src/typecheck.rs:90-140 | record or union entries agree label by label and type by type exactly when their nameless entry lists are equal |
| Alpha.PropEqualIsAlpha | dhall/src/typecheck.rs:51-146 | with the corrected matcher, `prop_equal` holds exactly when the normal forms of its two arguments are in the compared fragment and alpha-equivalent there (both sides `NaturalLit 1`, say, are not in it, and `prop_equal` refuses them) |
| Alpha.AsWrittenReadsOutermostFirst | dhall/src/typecheck.rs:35-39 | `match_vars` as written equates `∀(a : Type) → ∀(a : Type) → a` with `∀(a : Type) → ∀(b : Type) → a`, which are not alpha-equivalent; the corrected matcher does not equate them |
| Alpha.AsWrittenUnderflowMatches | dhall/src/typecheck.rs:43-46 | an index decremented below zero on both sides makes `∀(c : Type) → ∀(a : Type) → a` equal to `∀(a : Type) → ∀(b : Type) → a` with either reading of the stack |
| AlphaStack.BinderStack.constructor | dhall/src/typecheck.rs:144 | `prop_equal` starts `go` on an empty stack |
| AlphaStack.BinderStack.Push | dhall/src/typecheck.rs:73 | `push` appends the pair and changes nothing else |
| AlphaStack.BinderStack.Pop | dhall/src/typecheck.rs:76 | `pop` removes and returns the last pair, or returns nothing on an empty stack |
| AlphaStack.Go | dhall/src/typecheck.rs:56-143 | the stack-based walk returns what `Equal` with `match_vars` as written decides for the stack it starts with, and leaves the stack as it found it |
| AlphaStack.GoPi | dhall/src/typecheck.rs:68-81 | two function types: domains first, then the codomains with the binder pair pushed, which is popped again afterwards |
| AlphaStack.GoApp | dhall/src/typecheck.rs:82-88 | two applications: functions first, then the arguments |
| AlphaStack.GoComposite | dhall/src/typecheck.rs:90-140 | two records or two unions, compared entry by entry |
| AlphaStack.GoEntries | dhall/src/typecheck.rs:90-140 | the entry loop answers false on different sizes, and otherwise true exactly when every label agrees and every pair of types is equal; the stack is unchanged |
| AlphaStack.PropEqualOnNormal | dhall/src/typecheck.rs:144-145 | on a fresh stack, `go` decides `Equal` with `match_vars` as written from the empty stack |
| TypeCheck.UnderBinder | dhall/src/typecheck.rs:199-201 | the context under a binder has the new binding innermost, and every type in it, old and new, is shifted past the binder |
| TypeCheck.TypeOf | dhall/src/typecheck.rs:716-721 | `type_of` checks in the empty context, so a variable is always unbound (its partner is `TypeCheckScope.TypeOfRejectsOpenTerms`) |
| TypeCheckLoops.CheckListElements | dhall/src/typecheck.rs:434-445 | the element loop of a list literal, with early return, computes the rule's element check from the given start |
| TypeCheckLoops.CheckOptionalElements | dhall/src/typecheck.rs:531-542 | the element loop of an optional literal computes the rule's element check |
| TypeCheckLoops.CheckFieldTypes | dhall/src/typecheck.rs:567-582 | the field loop of a record type computes the rule's field check |
| TypeCheckFuel.TypeWithFuelMonotone | dhall/src/typecheck.rs:181-711 | an answer reached with some fuel is reached, unchanged, with any larger amount of fuel |
| TypeCheckFuel.TypeRuleFuelMonotone | dhall/src/typecheck.rs:190-710 | the same for the body of the judgement, rule by rule |
| TypeCheckFuel.LamFuelMonotone | dhall/src/typecheck.rs:198-207 | the lambda rule gives the same answer with more fuel |
| TypeCheckFuel.PiFuelMonotone | dhall/src/typecheck.rs:208-240 | the function-type rule gives the same answer with more fuel |
| TypeCheckFuel.AppFuelMonotone | dhall/src/typecheck.rs:241-269 | the application rule gives the same answer with more fuel |
| TypeCheckFuel.LetFuelMonotone | dhall/src/typecheck.rs:270-307 | the let rule gives the same answer with more fuel |
| TypeCheckFuel.LetBodyFuelMonotone | dhall/src/typecheck.rs:280-306 | the second half of the let rule gives the same answer with more fuel |
| TypeCheckFuel.AnnotFuelMonotone | dhall/src/typecheck.rs:308-324 | the annotation rule gives the same answer with more fuel |
| TypeCheckFuel.BinOpFuelMonotone | dhall/src/typecheck.rs:326-329 | the operator rule gives the same answer with more fuel |
| TypeCheckFuel.Op2TypeFuelMonotone | dhall/src/typecheck.rs:148-173 | `op2_type` gives the same answer with more fuel |
| TypeCheckFuel.IfFuelMonotone | dhall/src/typecheck.rs:330-376 | the `if` rule gives the same answer with more fuel |
| TypeCheckFuel.IfElseFuelMonotone | dhall/src/typecheck.rs:355-375 | the `else` half of the `if` rule gives the same answer with more fuel |
| TypeCheckFuel.ListLitFuelMonotone | dhall/src/typecheck.rs:419-447 | the list-literal rule gives the same answer with more fuel |
| TypeCheckFuel.OptionalLitFuelMonotone | dhall/src/typecheck.rs:510-544 | the optional-literal rule gives the same answer with more fuel |
| TypeCheckFuel.ElementTypesFuelMonotone | dhall/src/typecheck.rs:434-435 | every element type reached with some fuel is unchanged with more |
| TypeCheckFuel.ListElementsAgree | dhall/src/typecheck.rs:434-445 | the element loop gives the same answer on two lists of element types that agree wherever the first is decided |
| TypeCheckFuel.ListElementsReached | dhall/src/typecheck.rs:434-445 | a decided element loop has a decided type for the element it stands at, and a decided rest when that element passes |
| TypeCheckFuel.ListElementsStep | dhall/src/typecheck.rs:434-445 | one turn of the element loop depends only on the current element's type and on the rest |
| TypeCheckFuel.OptionalElementsAgree | dhall/src/typecheck.rs:531-542 | the same as `ListElementsAgree`, for optional literals |
| TypeCheckFuel.OptionalElementsReached | dhall/src/typecheck.rs:531-542 | the same as `ListElementsReached`, for optional literals |
| TypeCheckFuel.OptionalElementsStep | dhall/src/typecheck.rs:531-542 | the same as `ListElementsStep`, for optional literals |
| TypeCheckFuel.FieldTypesFuelMonotone | dhall/src/typecheck.rs:567-582 | the field loop of a record type gives the same answer with more fuel |
| TypeCheckFuel.FieldValuesFuelMonotone | dhall/src/typecheck.rs:583-603 | the field map of a record literal gives the same answer with more fuel |
| TypeCheckFuel.TypeOfFuelMonotone | dhall/src/typecheck.rs:716-721 | `type_of` gives the same answer with more fuel |
| TypeCheckFacts.ConstTyping | dhall/src/typecheck.rs:191 | `Type : Kind` in any context; `Kind` gives the `Untyped` error |
| TypeCheckFacts.VarTyping | dhall/src/typecheck.rs:192-197 | a variable is typed exactly when the context binds its name often enough, with a type bound to that name; otherwise the error is `UnboundVariable` |
| TypeCheckFacts.BoundVariableTyping | dhall/src/typecheck.rs:198-202 | under a binder `x : A`, the variable `x@0` has type `A` shifted past that binder |
| TypeCheckFacts.LiteralTyping | dhall/src/typecheck.rs:325-415 | Boolean, Natural, Integer, Double and Text literals have their builtin types |
| TypeCheckFacts.BuiltinTyping | dhall/src/typecheck.rs:378-566 | base types are types, `List` and `Optional` map types to types, the Natural predicates map `Natural` to `Bool`, `Natural/fold` maps `Natural` to its Church encoding and `Natural/build` maps back, and any other builtin panics |
| TypeCheckFacts.PolymorphicBuiltinTyping | dhall/src/typecheck.rs:448-560 | each list builtin abstracts over `a : Type`; all but `List/build` then take `List a` under an unnamed (`_`) binder, and each has its own result: a Church fold, `Natural`, `Optional a`, a list of `{ index, value }` records, or `List a`; `Optional/fold` takes `Optional a` |
| TypeCheckFacts.FoldBuildDual | dhall/src/typecheck.rs:378-403 | `build` takes the type `fold` returns and returns the type `fold` takes, for Natural and (lines 448-481) for lists |
| TypeCheckFacts.PiTyping | dhall/src/typecheck.rs:208-240 | a function type checks exactly when both sides live in universes that `rule` allows together; it lives in the codomain's universe; a failure typing either side is passed on; a domain that is not a universe is `InvalidInputType`, a codomain that is not one is `InvalidOutputType` reported in the context under the binder, and `(Type, Kind)` is `NoDependentTypes` |
| TypeCheckFacts.LamTyping | dhall/src/typecheck.rs:198-207 | a lambda checks exactly when its body checks under the binder and the resulting function type checks; its type is that function type; otherwise the body's failure, or else the function type's, is passed on |
| TypeCheckFacts.AppTyping | dhall/src/typecheck.rs:241-269 | an application checks exactly when the function's type is a function type whose domain is `prop_equal` to the argument's type; with the corrected matcher the normal forms are then alpha-equivalent; the result is the substituted codomain; the function's failure, then the argument's, is passed on, and the errors are `NotAFunction` and `TypeMismatch` |
| TypeCheckFacts.LetTyping | dhall/src/typecheck.rs:270-307 | a let checks exactly when the value's type and the body's type live in universes `rule` allows and any annotation is `prop_equal` to the value's type; the body is checked with the binding added unshifted; the let has the body's type; with the corrected matcher the annotation is alpha-equivalent to the value's type |
| TypeCheckFacts.LetErrors | dhall/src/typecheck.rs:270-307 | the let checks run in the source's order and the first to fail decides: a failure typing the value, its type, the body or the body's type is passed on; then `InvalidInputType`, `InvalidOutputType`, `NoDependentLet` and `AnnotMismatch`, each with the source's arguments |
| TypeCheckFacts.AnnotTyping | dhall/src/typecheck.rs:308-324 | an annotation checks exactly when the annotation checks and the term's type is `prop_equal` to it; the type is the annotation as written, alpha-equivalent to the term's type with the corrected matcher; otherwise `AnnotMismatch` |
| TypeCheckFacts.Op2TypeSpec | dhall/src/typecheck.rs:148-173 | `op2_type` succeeds, with `t`, exactly when both operands' types normalize to `t`; the left operand is checked first, and each error names the offending operand and its normalized type |
| TypeCheckFacts.BinOpTyping | dhall/src/typecheck.rs:326-418 | each of the seven handled operators has its operand type and its own error message, through `op2_type`; any other operator panics |
| TypeCheckFacts.IfTyping | dhall/src/typecheck.rs:330-376 | `if` checks exactly when the condition is a `Bool` and both branches have `prop_equal` types of kind `Type`; it has the `then` branch's normalized type; with the corrected matcher the branch types are alpha-equivalent |
| TypeCheckFacts.IfErrors | dhall/src/typecheck.rs:330-376 | the `if` checks run in the source's order and the first to fail decides: a failure typing the condition, a branch or a branch's type is passed on; then `InvalidPredicate`, `IfBranchMustBeTerm` for the `then` branch (`true`) or the `else` branch (`false`), and `IfBranchMismatch` |
| TypeCheckFacts.FieldTyping | dhall/src/typecheck.rs:685-701 | `r.x` checks exactly when `r`'s type is a record type with a field `x`, whose type it then has; otherwise `NotARecord` or `MissingField` |
| TypeCheckFacts.UnimplementedPanics | dhall/src/typecheck.rs:604-709 | unions, union literals, `merge` and notes panic |
| TypeCheckFacts.ListElementsOk | dhall/src/typecheck.rs:434-445 | the list element loop succeeds exactly when every remaining element's type is `prop_equal` to the element type |
| TypeCheckFacts.ListElementsStopsAt | dhall/src/typecheck.rs:434-445 | the list element loop reports the first element that fails or mismatches, with its position |
| TypeCheckFacts.OptionalElementsOk | dhall/src/typecheck.rs:531-542 | the optional element loop succeeds exactly when every remaining element matches |
| TypeCheckFacts.OptionalElementsStopsAt | dhall/src/typecheck.rs:531-542 | the optional element loop reports the first element that fails (its failure) or mismatches (`InvalidOptionalElement` with both normalized types) |
| TypeCheckFacts.EmptyLiteralPanics | dhall/src/typecheck.rs:419-426 | an unannotated empty list or optional literal panics |
| TypeCheckFacts.ListLitTyping | dhall/src/typecheck.rs:419-447 | a list literal checks exactly when its element type (the annotation, else the first element's type) has kind `Type` and every later element matches it; its type is `List t`; a failure of the element type or of its type is passed on, and an element type not of kind `Type` is `InvalidListType` |
| TypeCheckFacts.ListLitFirstMismatch | dhall/src/typecheck.rs:434-445 | a list literal reports the first element that fails (passing on its failure) or mismatches (`InvalidListElement` with its position in the literal) |
| TypeCheckFacts.OptionalLitTyping | dhall/src/typecheck.rs:510-544 | an optional literal checks exactly when its element type has kind `Type`, it has at most one element, and that element matches; its type is `Optional t`; otherwise the failures of the element type and its type are passed on, then `InvalidOptionalType`, `InvalidOptionalLiteral` with the length for two or more elements, the annotated element's failure, and `InvalidOptionalElement` with both normalized types |
| TypeCheckFacts.FieldTypesOk | dhall/src/typecheck.rs:567-582 | the field loop of a record type succeeds exactly when every field type has kind `Type` |
| TypeCheckFacts.FieldTypesStopsAt | dhall/src/typecheck.rs:567-582 | the field loop stops at the first field whose type is not of kind `Type`: the failure typing it is passed on, and otherwise `InvalidFieldType` names the field |
| TypeCheckFacts.RecordTyping | dhall/src/typecheck.rs:567-582 | a record type has type `Type` exactly when every field type has kind `Type` |
| TypeCheckFacts.RecordFirstBadField | dhall/src/typecheck.rs:567-582 | a record type reports its first bad field: the failure typing the field's type, or `InvalidFieldType` |
| TypeCheckFacts.FieldValuesOk | dhall/src/typecheck.rs:583-603 | the field map of a record literal succeeds exactly when every value has a type of kind `Type`, and pairs each label, in order, with its value's type |
| TypeCheckFacts.FieldValuesStopsAt | dhall/src/typecheck.rs:583-603 | the field map stops at the first bad value: the failure typing the value, then the failure typing its type, is passed on, and otherwise `InvalidField` names the field |
| TypeCheckFacts.RecordLitTyping | dhall/src/typecheck.rs:583-603 | a record literal checks exactly when every value has a type of kind `Type`; its type is the record type with the same labels, each paired with its value's type |
| TypeCheckFacts.RecordLitFirstBadField | dhall/src/typecheck.rs:583-603 | a record literal reports its first bad field: its value's failure, its type's failure, or `InvalidField` |
| TypeCheckAsWritten.ApplicationOfBoundFunction | dhall/src/typecheck.rs:241-269 | with `h : inner → Bool` and `g : outer` in scope and a normalizer that changes nothing, `h g` checks exactly when `prop_equal` accepts `inner` against `outer`, and is otherwise `TypeMismatch` naming both |
| TypeCheckAsWritten.AsWrittenAcceptsMismatchedApplication | dhall/src/typecheck.rs:35-39 | the judgement as written accepts `h g` where `h` takes `∀(a : Type) → ∀(a : Type) → a` and `g` has `∀(a : Type) → ∀(b : Type) → a`; with the corrected matcher it is a `TypeMismatch` |
| TypeCheckScope.CountIsOccurrences | dhall/src/typecheck.rs:192-197 | the number of bindings of a name that `lookup` counts is the number of times the name occurs among the context's names |
| TypeCheckScope.NamesUnderBinders | dhall/src/typecheck.rs:198-202 | the context under a lambda, function-type or let binder binds the old names plus the binder's own, innermost |
| TypeCheckScope.OpenTermsFail | dhall/src/typecheck.rs:181-711 | a term with a variable that the context does not bind, outside every let annotation, never gets a type: an error, a panic or `OutOfFuel` |
| TypeCheckScope.TypeOfRejectsOpenTerms | dhall/src/typecheck.rs:713-721 | `type_of` never types a term with a variable free outside every let annotation |

## Left out

- The normalizer, `shift` and `subst` are not part of this model. They are parameters in `Prims`, so nothing is claimed about what they compute.
- The `pi` and `app` helpers and the string conversions of dhall_core that build the builtin signatures are not part of this model. They are taken to build `Pi` and `App` nodes, with a string standing for the variable of that name at index 0 (`TypeCheck.Named`).
- `take_ownership_of_labels` on the builtin signatures is left out: labels are plain strings here.
- Fuel: `TypeWith` may return `OutOfFuel`. This is the one behaviour the source has no counterpart for. `TypeWithFuelMonotone` shows it only ever stands for "not decided yet".
- The `Embed` arm (typecheck.rs:708) is left out. Its payload type is uninhabited after import resolution, so it cannot occur.
- The commented-out Haskell arms for unions, union literals, `Combine`, `merge` and notes (typecheck.rs:604-707) are left out. They are not code: these constructors fall through to the final panic, and are modelled as that panic.
- Context: dhall_core's `Context` is not part of this model. It is modelled as an association list from its uses in `type_with`: `insert` at typecheck.rs:199-200, 221-222 and 280, `map` at 201 and 223, and `lookup` at 193.
- `BTreeMap` records are association lists in key order. The model does not enforce that labels are unique or sorted. `FieldLookup` returns the first entry with the label.
- Indices in `match_vars` are unbounded integers. A release build wraps the decrement of index 0 to the maximum `usize`; `int` arithmetic agrees with that wrap, on equality and on the test for 0, for every index below 2^64 minus the depth of the binder stack. A debug build aborts on that decrement instead, which the model does not capture. The finding below concerns exactly that decrement.
- TypeOf: the comment at typecheck.rs:713-715 promises that `type_of` fails on every term with a free variable. That holds except inside a let annotation, which typecheck.rs:294-297 only normalizes and never type-checks. So `let x : (λ(z : y) → Bool) True = True in x`, with `y` free, has type `Bool` under a normalizer that beta-reduces the annotation to `Bool`. `TypeCheckScope.TypeOfRejectsOpenTerms` states the promise for every variable outside a let annotation.
- The `Display` and `Error` implementations of `TypeMessage` (typecheck.rs:814-846) are left out. They only render messages.
- The loops over list and optional elements are proved against functions over precomputed element outcomes (`ElementTypes`). The loops stop at the first failure, so computing every element's type up front gives the same outcome. The methods in `typecheck_loops.dfy` call `TypeWith` element by element, as the source does.

## Findings

| source | as written | input that shows it | evidently intended | confidence | as-written member | corrected member |
|---|---|---|---|---|---|---|
| dhall/src/typecheck.rs:35-39 | `match_vars` takes the first pair of the stack (`split_first`), but `go` pushes each new binder pair at the end, so the first pair is the OUTERMOST binder | `∀(a : Type) → ∀(a : Type) → a` against `∀(a : Type) → ∀(b : Type) → a`: `prop_equal` calls them equal, though the first names the inner binder and the second the outer one | match the innermost pair first, the last one pushed | high (not executed) | Alpha.AsWrittenReadsOutermostFirst | Alpha.CorrectedEqualIsAlpha |
| dhall/src/typecheck.rs:43-46 | when a name equals its side of the pair but its index is already 0 and the other side does not match, the index is still decremented below zero | `∀(c : Type) → ∀(a : Type) → a` against `∀(a : Type) → ∀(b : Type) → a`: the two underflowed indices meet and the variables match, with either reading of the stack | a variable bound by the current pair on one side only is a mismatch | high (not executed) | Alpha.AsWrittenUnderflowMatches | Alpha.CorrectedMatchResolves |

The judgement takes its matcher from `Prims`. `TypeCheck.AsWritten` runs it with the source's `match_vars`, as `AlphaStack.Go` does; the alpha-equivalence clauses of the rule lemmas hold when the matcher is `Alpha.MatchVarsCorrected`. `TypeCheckAsWritten.AsWrittenAcceptsMismatchedApplication` shows the first finding in the judgement itself.
