/**
 * The shapes the core exchanges: the validator's result and the Git
 * repository the commands work on. A config itself is the parsed JSON value;
 * the validator hands back the very value it was given.
 */
module Types {
  import opened Wrappers
  import opened Json

  /** One per localized message the validators can report. */
  datatype ErrorKind =
    | EmptyConfig              // the document is empty or malformed
    | OptionsNotArray          // appendOptions must be an array
    | OptionsEmpty             // appendOptions cannot be empty
    | OptionTypeError          // each element must be a string or a string pair
    | OptionNotStringError     // older wording: every element must be a string
    | ManualTypeError          // manual must be a boolean
    | DefaultIndexTypeError    // defaultIndex must be a number
    | DefaultIndexRangeError(maxIndex: int)  // defaultIndex must lie in 0..maxIndex

  /** The `message` field: empty, or one localized error. */
  datatype Message = Empty | Localized(kind: ErrorKind)

  /** `{ isValid, message, config? }` */
  datatype ValidationResult = ValidationResult(isValid: bool, message: Message, config: Option<Json>)

  /** `repository.inputBox`: the pending commit message in the source-control view. */
  class InputBox {
    var value: string

    constructor (value: string)
      ensures this.value == value
    {
      this.value := value;
    }
  }

  /** A repository of the Git extension, as far as the commands look at it. */
  class Repository {
    /** Paths with staged changes (`state.indexChanges`). */
    var indexChanges: seq<string>
    /** Paths with unstaged changes (`state.workingTreeChanges`). */
    var workingTreeChanges: seq<string>
    const inputBox: InputBox

    constructor (indexChanges: seq<string>, workingTreeChanges: seq<string>, inputBox: InputBox)
      ensures this.indexChanges == indexChanges && this.workingTreeChanges == workingTreeChanges
      ensures this.inputBox == inputBox
    {
      this.indexChanges := indexChanges;
      this.workingTreeChanges := workingTreeChanges;
      this.inputBox := inputBox;
    }
  }
}
