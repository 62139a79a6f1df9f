/** Small building blocks shared by every part of the Mork ingestion model. */
module Base {

  datatype Option<T> = None | Some(value: T)

  /** The escape character of the Mork reader (PHP's `$esc`, fixed to a backslash). */
  const Esc: char := '\\'

  /** PHP's truthiness of a string: the empty string and "0" are false. */
  predicate Truthy(s: string) {
    s != "" && s != "0"
  }

  /** True when `s` holds the scope separator `:`. */
  predicate HasColon(s: string) {
    ':' in s
  }
}
