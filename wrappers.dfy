/** The one failure-carrying type the model needs: java.util.Optional. */
module Wrappers {

  datatype Option<+T> = None | Some(value: T)
}
