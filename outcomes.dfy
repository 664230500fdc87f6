/** Option and Result values standing for Python's `None` returns and raised exceptions. */
module Outcomes {

  datatype Option<+T> = None | Some(value: T)

  /** The exceptions the utility module raises, one constructor per raise site. */
  datatype Error =
      /** PluginError "Could not copy {source} to {target}: {reason}" */
    | CopyError(source: string, target: string, reason: string)
      /** PluginError "Safe copy failed. The file integrity does not match" */
    | IntegrityMismatch
      /** PluginError "Error parsing Apache runtime variables" */
    | AmbiguousDefine
      /** MisconfigurationError "Error accessing loaded Apache parameters: {command}" */
    | CommandFailed(command: seq<string>)
      /** MisconfigurationError "Apache is unable to check whether or not the module is loaded ..." */
    | ApacheMisconfigured
      /** struct.error raised by struct.pack when the value does not fit a C long */
    | PackOutOfRange

  datatype Result<+T> = Ok(value: T) | Err(error: Error)
}
