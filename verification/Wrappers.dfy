/** Option and result types shared by the modules. */
module Wrappers {

  datatype Option<+T> = None | Some(value: T) {

    function GetOr(default: T): T {
      if Some? then value else default
    }
  }

  /** `Ok`/`Err` outcomes; the wording of an error is not modelled. */
  datatype Result<+T> = Ok(value: T) | Err
}
