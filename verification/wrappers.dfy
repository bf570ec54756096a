/** The optional-value datatype used wherever the system may find nothing
    (a query with no match, a field the schema does not keep, a library call
    that throws). */
module Wrappers {

  datatype Option<+T> = None | Some(value: T)
}
