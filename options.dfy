/** A JavaScript property that may be `undefined` or `null` is read as an Option. */
module Options {

  datatype Option<+T> = None | Some(value: T)

  /** JavaScript's `x || fallback` on a string-valued property: `undefined`,
      `null` and the empty string are falsy and give way to the fallback. */
  function OrElse(x: Option<string>, fallback: string): string
  {
    if x.Some? && x.value != "" then x.value else fallback
  }
}
