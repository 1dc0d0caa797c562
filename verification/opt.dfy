/** An optional value: used for the attributes that start out as Python's None
    and for readings that may fail. */
module Opt {

  datatype Option<+T> = None | Some(value: T)

}
