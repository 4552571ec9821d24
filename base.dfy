/** Shared vocabulary of the model: optional values, the exceptions the client
    can raise, and one row of a SPARQL result. */
module Base {

  datatype Option<T> = None | Some(value: T)

  /** The exceptions the modelled Python code raises, one constructor per cause. */
  datatype Error =
    | EmptyMax                       // max() applied to an empty dict or list: ValueError
    | InvalidThreshold               // above_threshold_counts: "Invalid threshold value."
    | UnknownReturnType(name: string) // "Not known return_type: ..."
    | MissingKey(key: string)        // KeyError on a response dictionary
    | BadRetryAfter(header: string)  // int() of a Retry-After header that is not a number

  datatype Result<T> = Ok(value: T) | Err(error: Error)

  /** One binding of `results.bindings`: variable name -> the binding's 'value'.
      A variable absent from the map is a variable the row does not bind. */
  type Row = map<string, string>

  /** `result.get(key, {}).get('value', None)` */
  function Lookup(row: Row, key: string): Option<string>
  {
    if key in row then Some(row[key]) else None
  }

  /** Python truthiness of an optional string: neither None nor "". */
  predicate Truthy(v: Option<string>)
  {
    v.Some? && v.value != ""
  }

  /** `{'location': ..., 'start_time': ..., 'end_time': ..., 'point_in_time': ...}` */
  datatype LocationRecord = LocationRecord(
    location: string,
    startTime: Option<string>,
    endTime: Option<string>,
    pointInTime: Option<string>)

  /** The location record a row describes (the row binds `workLocationLabel`). */
  function RecordOf(row: Row): (rec: LocationRecord)
    requires Lookup(row, "workLocationLabel").Some?
  {
    LocationRecord(
      row["workLocationLabel"],
      Lookup(row, "startTime"),
      Lookup(row, "endTime"),
      Lookup(row, "pointInTime"))
  }
}
