/** The two error conditions the routines can raise, and a Result type carrying them. */
module Results {

  datatype Error =
    | NonPositiveIterations   // `ValueError` raised before any hash when the iteration count is below 1
    | EmptyDecryptedData      // `IndexError` from reading the last byte of an empty decryption

  datatype Result<T> = Success(value: T) | Failure(error: Error)
}
