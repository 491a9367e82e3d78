/** The data shapes the note API exchanges with its storage backends:
    a note, the payload of a create or update request, and the results
    and errors a backend operation can produce. */
module NoteModel {

  /** The payload of both POST /notes and PUT /notes/{id}: only a message. */
  datatype CreateNoteRequest = CreateNoteRequest(message: string)

  /** A stored note: the request's message plus the id it is stored under. */
  datatype Note = Note(id: string, message: string)

  /** The failure a backend `get` reports for an id it does not hold. */
  datatype Error = NotFound(id: string)

  datatype Option<T> = None | Some(value: T)

  datatype Result<T> = Ok(value: T) | Err(error: Error)

  /** No id occurs twice in `s`. */
  predicate Distinct(s: seq<string>)
  {
    forall i, j :: 0 <= i < j < |s| ==> s[i] != s[j]
  }
}
