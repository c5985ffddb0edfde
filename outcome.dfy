/** How an asynchronous operation of the plugin ends. */
module Outcome {

  /** The reasons a conversion stops with an exception or a rejected promise. */
  datatype Failure =
    | MalformedUri(text: string)     // decodeURIComponent throws URIError
    | ReadFailed(path: string)       // fs.readFileSync throws
    | InvalidJarFile                 // 'Invalid local jar file' in resolveLocalJarCmd
    | ProcessFailed(stderr: string)  // the PlantUML process exited with code 1
    | SpawnFailed(message: string)   // the child process emitted 'error'

  /** The fate of a promise.  `Pending` is a promise that never settles;
      `Exhausted` is not a JavaScript outcome: it says that the model's
      bound on the number of loop rounds was reached first. */
  datatype Completion<+T> =
    | Resolved(value: T)
    | Rejected(failure: Failure)
    | Pending
    | Exhausted
}
