/** Error values the adapter reports, and the optional wrappers used for Go's
    `error` results (None stands for nil). */
module Errors {

  datatype Option<+T> = None | Some(value: T)

  datatype Result<+T> = Ok(value: T) | Err(error: Error)

  datatype Error =
    | DbFault            // the database client reported an error (statement or commit)
    | Duplicate          // an insert or update would break the unique index over the nine columns
    | EmptyFieldValues   // checkQueryField: every filter value is ""
    | InvalidFilterType  // LoadFilteredPolicy was given something other than a Filter
    | IndexOutOfRange    // loadPolicyLine on a record whose nine columns are all "" (a Go runtime panic)
}
