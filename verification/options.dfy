/** Optional values: the model's stand-in for properties a JavaScript object may lack. */
module Options {

  /** `None` is an absent property (`undefined`), `Some(v)` a present one. */
  datatype Option<+T> = None | Some(value: T)
}
