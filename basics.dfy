/** Bytes, the Option/Result wrappers, and the error values of package agron. */
module Basics {

  /** An octet: Go's `byte`. */
  newtype byte = b: int | 0 <= b < 0x100

  /** A byte slice, as a value. */
  type Bytes = seq<byte>

  datatype Option<+T> = None | Some(value: T)

  /** The `(value, error)` pair a Go function returns, with exactly one side set. */
  datatype Result<+T> = Success(value: T) | Failure(error: Error)

  /** How the package's own error messages begin. */
  const PackagePrefix: string := "agron: "

  /** The errors a caller of the vault can observe.
      The two sentinels are the package-level values of cipher.go; every other error
      (from the random source or from the AES/GCM constructors) is passed through
      unchanged and is represented by its message. */
  datatype Error =
    | ErrInvalidKeySize
    | ErrDecryption
    | Foreign(message: string)
  {
    /** The text `Error()` reports; the package's own sentinels name the package. */
    function Message(): (m: string)
      ensures !Foreign? ==> |PackagePrefix| < |m| && m[..|PackagePrefix|] == PackagePrefix
      ensures Foreign? ==> m == message
    {
      match this
      case ErrInvalidKeySize => PackagePrefix + "key must be 32 bytes (hex encoded string usually)"
      case ErrDecryption => PackagePrefix + "decryption failed (integrity check or context mismatch)"
      case Foreign(m) => m
    }
  }
}
