/** An optional value: `None` stands for a cell that pandas would hold as NaN/NA. */
module Wrappers {

  datatype Option<+T> = None | Some(value: T)

}
