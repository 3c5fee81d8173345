/** Results of the routines that report an error code. */
module MpiResult {
  /** MBEDTLS_ERR_MPI_... codes the modelled routines return. */
  datatype Error = BadInputData | NotAcceptable | DivisionByZero | NegativeValue | BufferTooSmall | InvalidCharacter

  datatype Result<T> = Ok(value: T) | Err(error: Error)
}
