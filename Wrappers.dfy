/** Optional values, results, and the .NET exceptions that the modelled code can let escape. */
module Wrappers {

  datatype Option<T> = None | Some(value: T)

  /** An exception thrown by a library call, with the text that caused it. */
  datatype Exception =
    | DuplicateKey(key: string)      // Dictionary.Add on a key already present (ArgumentException)
    | IndexOutOfRange(text: string)  // indexing past the end of a String.Split result
    | KeyNotFound(key: string)       // the Dictionary indexer on a missing key
    | BadFormat(text: string)        // DateTime.Parse or Int32.Parse on malformed text (FormatException)
    | Overflow(text: string)         // Int32.Parse outside the 32-bit range (OverflowException)
    | OutOfRange(text: string)       // Substring past the end, or DateTime arithmetic leaving its range
    | Unreadable(path: string)       // a directory listing or a file that cannot be read
    | Unwritable(path: string)       // an output file the StreamWriter cannot create

  /** The outcome of a call that either returns a value or throws. */
  datatype Result<T> = Ok(value: T) | Err(error: Exception)
}
