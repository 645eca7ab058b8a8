/** Success/failure values for the handlers that can refuse their input
    (a blank name, an unreadable or empty spreadsheet). A `Failure` means the
    caller keeps its previous state: the source returns early after an alert. */
module Results {

  datatype Option<+T> = None | Some(value: T)

  datatype Result<+T, +E> = Success(value: T) | Failure(error: E)
}
