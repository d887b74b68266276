/**
  The universe tables: `axiom`, which types a universe constant, and `rule`,
  which gives the universe of a function type from the universes of its
  domain and codomain.
 */
module Universe {
  import opened Wrappers
  import opened Syntax
  import opened Contexts
  import opened TypeErrors

  /** `Type : Kind`; `Kind` has no type, reported in an empty context. */
  function Axiom(c: Const): (r: Outcome<Const>)
    ensures r.Ok? || r.Err?
    ensures r.Ok? <==> c == Type
  {
    match c
    case Type => Ok(Kind)
    case Kind => Err(TypeError(Empty(), Const(Kind), Untyped))
  }

  /**
    The function-type table: only a function from terms to types,
    `(Type, Kind)`, is refused; otherwise the universe is the codomain's.
   */
  function Rule(a: Const, b: Const): (r: Option<Const>)
  {
    match (a, b)
    case (Type, Kind) => None
    case (Kind, Kind) => Some(Kind)
    case (Type, Type) => Some(Type)
    case (Kind, Type) => Some(Type)
  }

  /** The universes climb one step and stop: `Type : Kind`, and `Kind` is untyped. */
  lemma AxiomHierarchy()
    ensures Axiom(Type) == Ok(Kind)
    ensures Axiom(Kind) == Err(TypeError([], Const(Kind), Untyped))
  {
  }

  /** The whole table of `rule`, case by case. */
  lemma RuleTable()
    ensures Rule(Type, Kind) == None
    ensures Rule(Kind, Kind) == Some(Kind)
    ensures Rule(Type, Type) == Some(Type)
    ensures Rule(Kind, Type) == Some(Type)
  {
  }

  /** `rule` fails exactly on `(Type, Kind)`, and otherwise returns its second argument. */
  lemma RuleIsCodomain(a: Const, b: Const)
    ensures Rule(a, b).None? <==> a == Type && b == Kind
    ensures Rule(a, b).Some? ==> Rule(a, b).value == b
  {
  }
}
