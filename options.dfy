/** Optional values: the model's stand-in for JavaScript's `undefined`/`null`
    and for a lookup that finds nothing. */
module Options {

  datatype Option<+T> = None | Some(value: T)
}
