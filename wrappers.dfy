/** The optional value used for the catalog's nullable fields (`number | null`, an absent tag). */
module Wrappers {

  datatype Option<+T> = None | Some(value: T)
}
