/** Small value types shared by every module. */
module Common {

  datatype Option<+T> = None | Some(value: T) {
    function GetOr(fallback: T): T {
      match this case None => fallback case Some(v) => v
    }
  }

  datatype Result<+T, +E> = Ok(value: T) | Err(error: E)
}
