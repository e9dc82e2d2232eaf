/** The domain part of the crate's error enum (src/error.rs) and the `u32` range. */
module Errors {

  /** Largest value of Rust's `u32`. */
  const U32_MAX: nat := 0xFFFF_FFFF

  /** Rust's `u32`, as a bounded natural number. */
  type U32 = n: nat | n <= U32_MAX

  /** The reasons `str::parse::<u32>` can give on a string of ASCII digits. */
  datatype IntErrorKind = Empty | PosOverflow

  /**
   * The domain variants of `Error`. The variants that wrap foreign error
   * types (io, toml, tera, scraper) are not modelled; `Parse` keeps only the
   * kind of the wrapped `ParseIntError`.
   */
  datatype Error =
    | Custom(message: string)
    | UnexpectedFilename(fileName: string)
    | DuplicatePoem(number: U32)
    | PathError(path: string)
    | NoPoemsInTheBook(number: U32)
    | NoTranslationForPoem(number: U32)
    | CanNotAddLinePoemHasNoNumber(line: string)
    | Html(html: string)
    | Parse(kind: IntErrorKind)
}
