/** What a modelled Python call produces: a value, or the exception that escapes to its caller. */
module Outcomes {

  datatype Option<+T> = None | Some(value: T)

  /** The Python exceptions that the modelled code lets escape. */
  datatype PyError =
    | IndexError   // a list subscript past the end
    | ValueError   // `list.index` of an element that is not in the list
    | TypeError    // iterating over `None`

  datatype Result<+T> = Ok(value: T) | Err(error: PyError)
}
