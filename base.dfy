/** Optional values and failures shared by the modules of the model.
    `None` stands for a Java `null`; `Err` for an exception the source lets escape. */
module Base {

  datatype Option<T> = None | Some(value: T)

  /** The exceptions the modelled code can raise on its normal paths. */
  datatype Error =
    | DateTimeParseError   // java.time.format.DateTimeParseException
    | IndexOutOfBounds     // java.lang.IndexOutOfBoundsException from List.get

  datatype Result<T> = Ok(value: T) | Err(error: Error)
}
