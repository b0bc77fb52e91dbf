/** The conventional optional-value datatype, used where the program either
    finds something or does not (a separator, a dictionary key). */
module Wrappers {

  datatype Option<+T> = None | Some(value: T)
}
