/** Small value types shared by the collector and the aggregator. */
module Common {

  /** A value that may be absent: Python's `None`, or a pandas NaN cell. */
  datatype Option<T> = None | Some(value: T) {
    /** The value, or `default` when absent (`x or default`, `fillna(default)`). */
    function GetOr(default: T): T
    {
      match this
      case Some(v) => v
      case None => default
    }
  }

  /** Either a value or the error that ended the computation. */
  datatype Result<T, E> = Success(value: T) | Failure(error: E)

  /** Hour of day as the date library reports it. */
  type Hour = h: int | 0 <= h < 24

  /** Day of week as pandas reports it: Monday is 0, Sunday is 6. */
  type Weekday = d: int | 0 <= d < 7

  /** A post timestamp, already parsed; only the parts the features use. */
  datatype Stamp = Stamp(hour: Hour, dayOfWeek: Weekday)
}
