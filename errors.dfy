/** The exceptions the note network can raise, as values. */
module Errors {

  datatype Error =
    | KeyNotFound(key: string)    // NetworkKeyError raised by a lookup of an absent key
    | ReadFailed(key: string)     // RuntimeError 'Could not read "<key>".' wrapping a failed open/read
    | MalformedKey(key: string)   // TypeError: a key with two or more ':' does not fit the two KeyParts fields
    | TypeChange                  // ValueError "Cannot change type with rekey."
    | NoteToNonNote               // ValueError "Cannot re-key a note to be a non-note."
    | NotUnderRoot                // ValueError raised by pathlib's relative_to
    | RenameFailed(key: string)   // the file to rename is missing
    | RecursionLimit              // RecursionError: add_link recursed past the interpreter's limit
    | NoTopics                    // StopIteration from next(network.topics)
    | PopFromEmptySet             // KeyError from set.pop() on an empty set

  datatype Result<T> = Ok(value: T) | Err(error: Error)

  datatype Option<T> = None | Some(value: T)
}
