/** Errors raised by the geometry bindings and the memory-mapped transfer. */
module Outcomes {

  datatype Option<T> = None | Some(value: T)

  /** The Python exceptions the modelled code can raise. */
  datatype Error =
    | StructError                   // struct.pack of a count outside 0..2^32-1, or struct.unpack of a short read
    | UnexpectedDataType(tag: int)  // "Unexpected data type in mmap file."
    | TooManyElements(found: int)   // "Too many elements returned."
    | NotImplemented                // a bulk conversion while pyboof.mmap_file is unset
    | UnknownObjectType             // "Unknown object type" from a value type's set()
    | IndexError                    // indexing a tuple that is too short
    | ValueError                    // mm.write of data that runs past the end of the region

  /** Result of an operation that returns nothing but may raise. */
  datatype Outcome = Success | Failure(error: Error)

  /** Result of an operation that returns a value or raises. */
  datatype Result<T> = Ok(value: T) | Err(error: Error)
}
