/**
 The Some/None datatype. On a report field `None` means the field is absent
 (`undefined`); on a state slot such as the error or the selected team it
 means the slot's `null`.
 */
module Wrappers {

  datatype Option<+T> = None | Some(value: T)
}
