/**
 * The deposit-properties record and the filter expressions evaluated over it.
 *
 * A filter is the boolean tree that the DAO builds with the JPA criteria
 * builder: AND and OR nodes over equalities and comparisons on the
 * creation timestamp. `Holds` gives its meaning as the database's WHERE
 * clause does. Because the tree has no negation, the SQL "unknown" that a
 * comparison with an absent timestamp yields can be read as false: a row
 * is returned exactly when the tree is true of it.
 */
module Deposits {
  import opened Wrappers

  /** An instant, in nanoseconds since 1970-01-01T00:00Z. */
  type Instant = int

  datatype DepositProperties = DepositProperties(
    depositId: string,
    depositor: string,
    bagName: string,
    depositState: string,
    description: string,
    depositCreationTimestamp: Option<Instant>,
    location: string,
    storageInBytes: int,
    depositUpdateTimestamp: Option<Instant>,
    deleted: bool)

  /** The text columns a query parameter can be compared with. */
  datatype TextColumn = DepositIdColumn | DepositorColumn | DepositStateColumn

  datatype Expr =
    | And(conjuncts: seq<Expr>)
    | Or(disjuncts: seq<Expr>)
    | TextEquals(column: TextColumn, text: string)
    | DeletedEquals(flag: bool)
    | CreatedAtLeast(lower: Instant)
    | CreatedAtMost(upper: Instant)
    | CreatedBetween(low: Instant, high: Instant)
    | CreatedIsNull

  function ColumnValue(column: TextColumn, r: DepositProperties): string {
    match column
    case DepositIdColumn => r.depositId
    case DepositorColumn => r.depositor
    case DepositStateColumn => r.depositState
  }

  /** Whether the database selects row `r` for filter `e`. */
  predicate Holds(e: Expr, r: DepositProperties) {
    match e
    case And(cs) => forall i | 0 <= i < |cs| :: Holds(cs[i], r)
    case Or(ds) => exists i | 0 <= i < |ds| :: Holds(ds[i], r)
    case TextEquals(column, text) => ColumnValue(column, r) == text
    case DeletedEquals(flag) => r.deleted == flag
    case CreatedAtLeast(lower) =>
      r.depositCreationTimestamp.Some? && r.depositCreationTimestamp.value >= lower
    case CreatedAtMost(upper) =>
      r.depositCreationTimestamp.Some? && r.depositCreationTimestamp.value <= upper
    case CreatedBetween(low, high) =>
      r.depositCreationTimestamp.Some? && low <= r.depositCreationTimestamp.value <= high
    case CreatedIsNull => r.depositCreationTimestamp.None?
  }
}
