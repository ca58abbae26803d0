/** Error outcomes of the vectorisation engine.

    The engine itself never catches anything: the two Python exceptions that its
    arithmetic and indexing can raise are surfaced here as values, so that each
    operation states exactly when it fails. */
module Results {

  /** The exceptions the modelled code can raise. */
  datatype Error =
    | ZeroDivisionError   // `count / total_terms` with `total_terms == 0`
    | IndexError          // a numpy write outside the vector

  /** Either a value or the exception that replaced it. */
  datatype Result<+T> = Ok(value: T) | Err(error: Error)
}
