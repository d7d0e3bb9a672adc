/** The optional-value datatype used throughout the model.

    In request payloads `None` stands for a JSON key that is absent; in stored
    records it stands for a field the document does not carry. */
module Wrappers {

  datatype Option<+T> = None | Some(value: T) {

    /** Returns the value in Some, or `default` when None. */
    function GetOr(default: T): T {
      match this
      case Some(v) => v
      case None() => default
    }
  }
}
