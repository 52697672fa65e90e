/**
 * The outcomes of the codec's operations. Java exceptions become values, and
 * the kinds the codec treats differently stay apart:
 *  - `Parsing`: org.parboiled's ParsingException. An optional part absorbs it,
 *    and the candidate loop skips the candidate that raised it.
 *  - `Runtime`: ParserRuntimeException. Nothing absorbs it.
 *  - `IndexOutOfBounds` and `NullReference`: unchecked Java exceptions. Some
 *    nodes convert the former into `Parsing`; the rest propagate as they are.
 *  - `InstantiationFailed`: the candidate loop's RuntimeException for a record
 *    type without an accessible constructor.
 */
module Failures {
  import opened JavaText

  datatype Option<T> = None | Some(value: T)

  datatype Result<T> = Ok(value: T) | Err(failure: Failure)
  {
    predicate IsFailure() { Err? }
    function PropagateFailure<U>(): Result<U>
      requires Err?
    {
      Err(failure)
    }
    function Extract(): T
      requires Ok?
    {
      value
    }
  }

  datatype Failure =
    | Parsing(reason: ParsingReason)
    | Runtime(cause: RuntimeReason)
    | IndexOutOfBounds
    | NullReference
    | InstantiationFailed
  {
    /** Only ParsingException is caught by optional parts and the candidate loop. */
    predicate Absorbable() { Parsing? }
  }

  datatype ParsingReason =
    | ContentMismatch                      // ContentNode: "Content does not match"
    | CharacterMismatch                    // MessageCharacterNode: "MessageCharacter did not match"
    | OutOfRange                           // an IndexOutOfBoundsException wrapped by a node
    | NoData(field: JString)               // a field without a value cannot be serialized
    | MissingField(field: JString)         // ArrayNode.getData could not find the field
    | NeedArrayOrList(field: JString)      // an array body field holds no list
    | ListSizesDiffer                      // "all need to have same size"
    | BlockNotFound(reference: JString)    // "Could not find ECCBlock"
    | ChecksumFailed                       // the checksum function could not be applied
    | EccNotValid                          // "ECC was not valid"
    | TemplateRejected                     // the template does not match the grammar
    | NoCandidate(diagnostics: seq<Failure>) // every candidate type failed

  datatype RuntimeReason =
    | CouldNotGetData(field: JString)
    | CouldNotSetData(field: JString)
    | CallbackReturnedFalse(hook: JString)
    | CouldNotCallMethod(hook: JString)
    | ParserActionFailed                   // an exception inside a grammar action
}
