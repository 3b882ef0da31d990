/** Option and Result, used for the optional fields of the protocol records
    and for the error returns (`anyhow::Result`) of the handler. */
module Common {

  datatype Option<+T> = None | Some(value: T)

  datatype Result<+T, +E> = Ok(value: T) | Err(error: E)
}
