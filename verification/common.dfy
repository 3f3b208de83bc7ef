/** Types shared by both download-statistics stores. */
module Common {

  /** The short key a game is known by ("TOTK", "MC", ...). */
  type GameId = string

  /** A point in time. The stores read the wall clock; here the caller supplies it. */
  type Timestamp = nat

  /** A value that may be absent: Python's `None`, an SQL `NULL`, a missing key. */
  datatype Option<+T> = None | Some(value: T)

  /** The smaller of two naturals: the cut of a `LIMIT`, SQL's `MIN`. */
  function Min(a: nat, b: nat): nat
  {
    if a <= b then a else b
  }

  /** Python treats both `None` and the empty string as false in `if game_id:`;
      only a non-empty identifier selects a single game. */
  predicate SelectsOneGame(query: Option<GameId>)
  {
    query.Some? && query.value != ""
  }
}
