/** Option and Result, for Ruby's `nil` and for operations that raise. */
module Wrappers {

  /** `None` stands for Ruby's `nil`. */
  datatype Option<+T> = None | Some(value: T)

  /** `Failure` stands for an exception raised by the operation. */
  datatype Result<+R, +E> = Success(value: R) | Failure(error: E)

  /** The exceptions the transforms can raise. */
  datatype Error =
    | NoMethodError        // a method called on `nil`
    | TypeError            // `nil` given where OpenSSL expects a string
    | AlgorithmError       // OpenSSL does not know the digest or cipher name
    | KeyError             // OpenSSL refuses the key for the cipher
    | CipherError          // `Cipher#final` fails, e.g. bad padding when decrypting
}
