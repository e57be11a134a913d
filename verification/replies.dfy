/** Outcome kinds shared by every operation of the model.

    A view answers with an HTTP status; a serializer either returns a value or
    raises. `Reply` names the kinds the modelled code can end in, `Fault` the
    Python exceptions that escape it (they surface as a server error), and
    `Option`/`Result` are the usual wrappers.
 */
module Replies {

  datatype Option<T> = None | Some(value: T)

  /** Exceptions raised by the modelled code that nothing catches. */
  datatype Fault =
    | UnboundName       // a function body reads a name it never binds (NameError)
    | UnpackMismatch    // `a, b = xs` where xs does not have exactly two items (ValueError)
    | MultipleRows      // get_or_create matched more than one row (MultipleObjectsReturned)
    | NegativeSlice     // a queryset sliced with a negative bound
    | NotAnInteger      // int() of a string that is not a decimal integer (ValueError)
    | MissingRequest    // `.user` read from a request that is None (AttributeError)
    | MissingKey        // `dict.pop(key)` of a key the request body lacks (KeyError)
    | OutOfRange        // an integer beyond its column's range reached the database (DataError)
    | BadBase64         // b64decode of text that is not ASCII or not padded (binascii.Error)

  datatype Reply =
    | Ok                // 200, or the success of an internal step
    | Created           // 201
    | NoContent         // 204
    | BadRequest        // 400 answered by the view itself
    | NotFound          // 404 from get_object_or_404
    | Invalid           // a serializer ValidationError
    | Integrity         // the database refused the write (IntegrityError)
    | Crash(fault: Fault)

  datatype Result<T> = Success(value: T) | Failure(reply: Reply)
}
