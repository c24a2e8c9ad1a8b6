/** The messages the three session actors and the node session handler receive. */
module Messages {
  import opened Bytes

  /** `SessionMessage`: what the session actor is asked to do, with the network message it carries. */
  datatype SessionMessage<M> = Send(msg: M) | ObjectAvailable(msg: M)

  /** `SessionWriterMessage`: the one request the writer serves. */
  datatype WriterMessage<M> = WriteObject(msg: M)

  /** `SessionReaderMessage`: the reader's self-messages, the two states of its read loop. */
  datatype ReaderMessage = WaitForObject | ReadObject(length: u64)

  /** The one message of the node session handler that a session sends: `NodeSessionMessage::MessageReceived`. */
  datatype HandlerMessage<M> = MessageReceived(msg: M)

  /** Stop reasons used by the session actors. */
  const CHANNEL_CLOSED: string := "channel_closed"
  const CHILD_PANIC: string := "child_panic"
  const CHILD_TERMINATE: string := "child_terminate"
}
