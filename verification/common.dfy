/**
 Small value types shared by the whole model.
 */
module Common {

  /** A value that may be absent: a null `std::function`, a missing map entry,
      `std::string::npos` from a search. */
  datatype Option<T> = None | Some(value: T)

  /** What a C++ function hands back to its caller. `FellOffEnd` is the case of a
      non-void function whose control reaches the closing brace without a
      `return`: the value is undefined, so the model keeps it unspecified. */
  datatype Ret<T> = Returned(value: T) | FellOffEnd
}
