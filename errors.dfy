/**
 * The failure kinds of the patch engine. Internally every failure keeps its kind;
 * at the public boundary all of them are wrapped into the one umbrella error
 * `JsonPatchProcessingException` (here `ProcessingError`), with the kind as its cause.
 */
module Errors {

  datatype PatchError =
    | MalformedJson                    // a text that the JSON reader could not read
    | InvalidPointer                   // a JSON Pointer that is not well formed, or a non-index token on an array
    | PathNotFound                     // a pointer that does not resolve in the document
    | UnsupportedShape                 // a patch that is not an array, a merge patch that is not an object, ...
    | InvalidOperation(token: string)  // an "op" member naming none of the six operations
    | MissingMember(name: string)      // an operation object without its "op", "path", "from" or "value"
    | BlockedPath(message: string)     // the path guard refused an operation
    | TestFailed                       // a "test" operation whose value differs from the document's
    | MoveIntoDescendant               // a "move" whose "from" is a proper prefix of its "path"
    | UnknownTargetField(key: string)  // the typed read met a key the target type does not declare
    | TargetTypeMismatch               // the typed read met a value that is not an object
    | NullConfiguration                // configureMapper given a null callback
    | ConfigurationFrozen              // configureMapper after the default mapper was built
    | ResetNotAllowed                  // resetForTesting without the testing switch
    | Nested(inner: ProcessingError)   // an umbrella error caught and wrapped again

  /** JsonPatchProcessingException: a message and the underlying cause. */
  datatype ProcessingError = JsonPatchProcessingException(message: string, cause: PatchError)
}
