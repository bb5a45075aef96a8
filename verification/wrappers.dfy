/** The optional-value type shared by the model: a collaborator response that may be absent. */
module Wrappers {

  datatype Option<+T> = None | Some(value: T)
}
