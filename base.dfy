/** Shared vocabulary: bytes, the integer widths the Rust code relies on,
    Option, and the application's ICU error values. */
module Base {

  /** A UTF-8 code unit (`u8`). */
  newtype byte = x: int | 0 <= x < 0x100

  /** A Rust `i32`. */
  newtype int32 = x: int | -0x8000_0000 <= x < 0x8000_0000

  /** `isize::MAX`: no Rust allocation (a `Vec`, a `String`) is longer. */
  const ISIZE_MAX: nat := 0x7FFF_FFFF_FFFF_FFFF

  /** Number of `usize` values on a 64-bit target. */
  const USIZE_MODULUS: nat := 0x1_0000_0000_0000_0000

  datatype Option<+T> = None | Some(value: T)

  /** `apperr::Error::new_icu(code)`: an error carrying a legacy ICU status code. */
  datatype Error = Icu(code: nat)

  /** ICU's `U_ILLEGAL_ARGUMENT_ERROR`. */
  const U_ILLEGAL_ARGUMENT_ERROR: nat := 1

  /** ICU's `U_UNSUPPORTED_ERROR`. */
  const U_UNSUPPORTED_ERROR: nat := 16

  /** `apperr::Result<T>`. */
  datatype Result<+T> = Ok(value: T) | Err(error: Error)
}
