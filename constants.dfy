/** The byte model shared by every module, and the constants of constants.go. */
module Constants {
  /** A Go byte. Go strings are byte strings; a byte is a char below 256 here,
      so that wire text can be written as string literals. */
  type Byte = c: char | c as int < 256
  type Bytes = seq<Byte>

  const CR: Byte := '\r'
  const LF: Byte := '\n'
  const NUL: Byte := '\0'

  /** MSG_DELIMITER: terminates every record and separates records in a stream. */
  const MsgDelimiter: Bytes := "\r\n"
  /** EVENT_PARAMS_SEPARATOR: separates the fields of one record. */
  const EventParamsSeparator: Byte := '|'
  /** EVENTS_FLOW_BUF_SIZE: size of the buffer one socket read fills. */
  const EventsFlowBufSize: nat := 4096
  /** EVENTS_QUEUE_SIZE: initial capacity (and growth step) of the events queue. */
  const EventsQueueSize: nat := 4096
}
