/** The result shapes shared by every component. */
module Options {

  datatype Option<+T> = None | Some(value: T)

  /** The error families of `AppError` that the modelled operations can return. */
  datatype AppError = NotFound | Authorization | BadRequest | Validation | BusinessRule | Internal

  datatype Result<+T> = Ok(value: T) | Err(error: AppError)
}
