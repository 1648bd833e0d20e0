/** Result and error values shared by every command of the bank script.
    The script stops with `exit(...)` on each of these conditions; here they are values. */
module Types {

  datatype Option<+T> = None | Some(value: T)

  /** Why a command was refused. */
  datatype Error =
    | NotAnInteger(given: string)   // check_service_units: int() raised ValueError
    | TooSmall(units: int)          // check_service_units: neither -1 nor at least 10000
    | AccountExists                 // check_insert_item_in_table
    | AccountNotFound               // check_item_in_table
    | UsageExceedsLimit             // release_hold while usage is not below the limit
    | FormatError                   // repopulate: a record could not be coerced

  datatype Result<+T> = Ok(value: T) | Err(error: Error)
}
