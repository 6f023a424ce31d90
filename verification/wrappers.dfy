/** Optional values, used where the bot either finds something or does not. */
module Wrappers {

  datatype Option<+T> = None | Some(value: T)

}
