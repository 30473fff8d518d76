/** Failure-compatible result types shared by every module. */
module Outcomes {

  datatype Option<+T> = None | Some(value: T)

  /** The source's `Result`: a value, or the error that stopped the computation. */
  datatype Result<+T, +E> = Success(value: T) | Failure(error: E) {

    predicate IsFailure() {
      Failure?
    }

    function PropagateFailure<U>(): Result<U, E>
      requires Failure?
    {
      Failure(error)
    }

    function Extract(): T
      requires Success?
    {
      value
    }
  }

  /**
   Errors of the Boolean policy engine. The source has one enum per module and
   wraps one in another by `From`; here the wrapped cases are the cases.
   */
  datatype PolicyError =
    | ExpressionTooDeep
    | ExpressionTooLarge
    | PredicateOutOfRange(id: nat, capacity: nat)
    | UnregisteredPredicate(id: nat)
    | CapacityTooLarge(actual: nat)
    | FactCapacityTooSmall(required: nat, covered: nat)
    | TooManyGuards(guards: nat)
    | InvalidLimits(maxVariables: nat, maxAssignments: nat)
    | VariableLimit(variables: nat, maximum: nat)
    | AssignmentLimit(assignments: nat, maximum: nat)
    | ClauseOutOfRange(index: nat, clauses: nat)
    | UnexpectedUnknown

  type Policy<+T> = Result<T, PolicyError>
}
