/** Result and error values shared by every part of the model. */
module Common {

  datatype Option<+T> = None | Some(value: T)

  /** The ways a call of the core stops without a value: Dash's PreventUpdate
      for an incomplete selection, and the Python exceptions the code raises. */
  datatype Error =
    | PreventUpdate
    | KeyError(key: string)
    | IndexError
    | ValueError

  datatype Result<+T> = Ok(value: T) | Err(error: Error)
}
