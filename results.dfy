/** Outcomes of the pipeline stages. Each `sys.exit` of the extraction script
    becomes a typed failure that the caller receives instead of the process
    ending. */
module Results {

  /** Which name-to-identifier lookup came up empty. */
  datatype Lookup =
    | Route        // no route with the given short name
    | Stop         // no stop with the given name
    | Trip         // no trip with the given route and headsign
    | ServiceDate  // no selected service runs on a date of the range

  datatype Failure =
    | NotFound(lookup: Lookup)
      /** Two calendar rows assign a selected service to the same date. */
    | DuplicateServiceOnDate

  datatype Result<T> = Ok(value: T) | Err(error: Failure)
}
