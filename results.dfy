/** The error conditions of the post-processing pipeline, and a failure-compatible
    result type so that `:-` can propagate them. */
module Results {

  datatype Error =
    | EmptySelection                     // a year window, realization set or grid selected nothing
    | MissingRealization(which: int)   // a requested realization label or position does not exist
    | RealizationOutOfRange(realization: int)  // an example realization outside 0..4
    | ShapeMismatch                      // operands of a binary operation are not aligned
    | MissingDimension                   // a reduction over an axis that `squeeze()` dropped
    | MissingLocations                   // no locations given for the location example
    | MalformedYearRange                 // a year-range string is not "<int>-<int>"
    | UnknownDataset                     // dataset name absent from the dataset table

  datatype Result<+T> = Ok(value: T) | Err(error: Error) {

    predicate IsFailure() {
      Err?
    }

    function PropagateFailure<U>(): Result<U>
      requires Err?
    {
      Err(error)
    }

    function Extract(): T
      requires Ok?
    {
      value
    }
  }

  datatype Option<+T> = None | Some(value: T)
}
