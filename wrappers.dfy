/** The optional value used where the application has "maybe nothing": an unset
    file selection, a drag that ended over no target, no URL to revoke, no saved
    document. */
module Wrappers {

  datatype Option<+T> = None | Some(value: T)
}
