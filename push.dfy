/**
 * What both servers push to their viewers over socket.io, and the outcome of
 * reading the watched file, which the model takes as given.
 */
module Push {
  import opened Wrappers

  /** One socket, by its connection id, or every connected socket. */
  datatype Recipient = One(socket: nat) | Everyone

  /** One `emit` that reached its recipient: `title`, `content` or `kill`. */
  datatype Emission = Emission(to: Recipient, event: string, data: Option<string>)

  /** Reading the file as UTF-8 text: its contents, or an error. */
  datatype ReadOutcome = ReadOk(text: string) | ReadFailed
}
