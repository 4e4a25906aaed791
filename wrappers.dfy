/** The optional value the scanner uses where the source has a regex result that may be `null`
    or a capture group that may be `undefined`. */
module Wrappers {

  datatype Option<+T> = None | Some(value: T)
}
