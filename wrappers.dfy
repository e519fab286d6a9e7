/** The optional-value datatype used for the hub's partial inputs (a room id that
    did not parse as a number, a `message` field that is missing or not a string). */
module Wrappers {

  datatype Option<+T> = None | Some(value: T)
}
