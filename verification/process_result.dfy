/** The record the desktop service returns for one origin file. */
module ProcessResults {

  datatype ProcessResult = ProcessResult(
    success: bool,
    hasChanges: bool,
    changedFields: seq<string>,
    outputFilePath: string,
    errorMessage: string,
    fileName: string)

  /** `new ProcessResult()`: every property at its default. */
  function NewResult(): (r: ProcessResult)
    ensures !r.success && !r.hasChanges
    ensures r.changedFields == [] && r.outputFilePath == [] && r.errorMessage == [] && r.fileName == []
  {
    ProcessResult(false, false, [], "", "", "")
  }

  /** The shape every finished result has: the change flag agrees with the
      change list, and a result is either a success with an output path and no
      message, or a failure with a message and no output path. */
  predicate Consistent(r: ProcessResult)
  {
    && (r.hasChanges <==> r.changedFields != [])
    && (r.success ==> r.outputFilePath != [] && r.errorMessage == [])
    && (!r.success ==> r.outputFilePath == [] && r.errorMessage != [])
  }

  /** Marking a result failed with `message`. */
  function Fail(r: ProcessResult, message: string): (f: ProcessResult)
    requires message != []
    requires r.outputFilePath == []
    requires r.hasChanges <==> r.changedFields != []
    ensures Consistent(f) && !f.success
    ensures f.errorMessage == message
    ensures f.fileName == r.fileName && f.changedFields == r.changedFields
  {
    r.(success := false, errorMessage := message)
  }
}
