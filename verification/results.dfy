/** Failure-carrying values shared by the workflows.

    Every error the application reports is shown to the user as a modal dialog
    and goes no further; the model returns it as a value instead. */
module Results {

  /** A value that may be missing (a `fetchone()` that found nothing). */
  datatype Option<+T> = None | Some(value: T)

  /** The error dialogs of the application, by kind. */
  datatype Error =
    | AuthError        // "Invalid username or password"
    | ValidationError  // "All fields are required!"
    | NoSelection      // "No appointment selected!"
    | NotFound         // "Could not find the selected appointment!"

  /** Either the value an action produced or the error dialog it showed. */
  datatype Result<+T> = Ok(value: T) | Err(error: Error)
}
