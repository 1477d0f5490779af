/** Java references that may be null are modelled with Option: None stands for null. */
module Wrappers {

  datatype Option<+T> = None | Some(value: T)
}
