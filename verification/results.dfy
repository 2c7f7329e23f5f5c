/** Result kinds shared by the store: an optional value, and the outcome of one request handler. */
module Results {

  datatype Option<+T> = None | Some(value: T)

  /** The outcome of one handler, without its HTTP body.
      Ok is 200/201 with the value, NotFound is 404, ConstraintError is a rejected
      foreign key (reported as 500), BadRequest is an unparsable path argument (400). */
  datatype Response<+T> = Ok(value: T) | NotFound | ConstraintError | BadRequest
}
