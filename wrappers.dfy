/** Option and Result values shared by both API generations: a Java `null` becomes
    `None`, a thrown exception becomes `Err`. */
module Wrappers {

  datatype Option<+T> = None | Some(value: T)

  /** The exceptions the modelled code throws, named after their Java classes. */
  datatype Error =
    | IllegalArgument(reason: string)     // CIllegalArgumentException
    | IllegalState(reason: string)        // CIllegalStateException
    | NoSuchElement(reason: string)       // CNoSuchElementException, or java.util.NoSuchElementException
    | EmptyStack                          // java.util.EmptyStackException
    | NullPointer                         // an implicit java.lang.NullPointerException
    | IndexOutOfBounds                    // an implicit IndexOutOfBoundsException or one of its subclasses,
                                          // ArrayIndexOutOfBounds and StringIndexOutOfBounds
    | ClassCast                           // an implicit java.lang.ClassCastException

  datatype Result<+T> = Ok(value: T) | Err(error: Error)
}
