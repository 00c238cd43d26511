/** An optional value: the source's `undefined` or `null`. */
module Options {
  datatype Option<+T> = None | Some(value: T) {
    function GetOr(fallback: T): T { if Some? then value else fallback }
  }
}
