/** The optional value used for the expanded card id (`number | null`) and for
    the upward callback a card event may emit. */
module Wrappers {

  datatype Option<+T> = None | Some(value: T)
}
