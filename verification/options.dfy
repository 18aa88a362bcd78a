/** Values that may be absent, such as the metadata fields the extraction tool may leave out. */
module Options {

  datatype Option<+T> = None | Some(value: T) {

    /** Python's `dict.get(key, fallback)`: the value when present, `fallback` otherwise. */
    function ValueOr(fallback: T): T {
      if Some? then value else fallback
    }
  }
}
