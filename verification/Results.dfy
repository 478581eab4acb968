/** The driver's error returns. */
module Results {
  datatype Option<+T> = None | Some(value: T) {
    function GetOr(default: T): T {
      if Some? then value else default
    }
  }

  datatype Error = Invalid | NoMemory | NoDevice | Exists

  datatype Result<+T> = Ok(value: T) | Err(error: Error)
}
