/** Error outcomes shared by the replication engines.  A panic or an `Err` of
    the original program becomes an `Err` value here. */
module Outcomes {

  datatype Result<T, E> = Ok(value: T) | Err(error: E)

  datatype Failure =
    | NegativePosition        // a query below coordinate 0
    | PositionBeyondGenome    // a query at or past the genome length
    | NoUnreplicatedRange     // sampling found no unreplicated range to draw from
    | TooFewForks             // a fork pass that needs at least three forks
    | EmptyGenome             // a uniform draw over the empty interval [0, 0)
}
