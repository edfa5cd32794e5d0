/** Optional values: a JavaScript `null` (a missing attribute, a missing
    storage key, a missing DOM element) is `None`. */
module Options {

  datatype Option<+T> = None | Some(value: T)
}
