/** Optional values: `None` stands for JavaScript's `undefined`/`NaN` where
    the modelled code produces "no value". */
module Wrappers {

  datatype Option<+T> = None | Some(value: T)
}
