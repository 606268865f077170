/** Outcomes of operations that the simulator tools report through absl::Status. */
module Status {

  datatype Error = NotFound | OutOfRange | InvalidArgument | AlreadyExists | Internal

  datatype Result<+T> = Ok(value: T) | Err(error: Error)

  datatype Option<+T> = None | Some(value: T)
}
