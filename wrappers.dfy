/** The optional-value datatype shared by the other modules. */
module Wrappers {

  /** A value that may be absent: a document that `findOne` did not find,
      a form field that `formData.get` returned as null. */
  datatype Option<+T> = None | Some(value: T)
}
