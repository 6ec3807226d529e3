/**
 * SQL's three-valued logic, as SQLite evaluates a WHERE clause: a comparison
 * with NULL is UNKNOWN, and a row qualifies only when the condition is TRUE.
 */
module SqlLogic {
  import opened Options

  datatype Bool3 = True | False | Unknown

  function Not(a: Bool3): Bool3
  {
    match a
    case True => False
    case False => True
    case Unknown => Unknown
  }

  function And(a: Bool3, b: Bool3): Bool3
  {
    if a == False || b == False then False
    else if a == True && b == True then True
    else Unknown
  }

  function Or(a: Bool3, b: Bool3): Bool3
  {
    if a == True || b == True then True
    else if a == False && b == False then False
    else Unknown
  }

  function Of(b: bool): Bool3
  {
    if b then True else False
  }

  /** `a < b` on nullable REAL values. */
  function Lt(a: Option<real>, b: Option<real>): Bool3
  {
    if a.None? || b.None? then Unknown else Of(a.value < b.value)
  }

  /** `a <= b` on nullable REAL values. */
  function Le(a: Option<real>, b: Option<real>): Bool3
  {
    if a.None? || b.None? then Unknown else Of(a.value <= b.value)
  }

  /** `v BETWEEN lo AND hi`, which SQLite evaluates as `lo <= v AND v <= hi`. */
  function Between(v: Option<real>, lo: Option<real>, hi: Option<real>): Bool3
  {
    And(Le(lo, v), Le(v, hi))
  }

  /** A row passes a WHERE condition only when it is TRUE. */
  predicate Holds(a: Bool3)
  {
    a == True
  }

  /** A BETWEEN on a non-NULL value holds exactly when both bounds are present and enclose it. */
  lemma BetweenHolds(v: real, lo: Option<real>, hi: Option<real>)
    ensures Holds(Between(Some(v), lo, hi)) <==> lo.Some? && hi.Some? && lo.value <= v <= hi.value
  {
  }
}
