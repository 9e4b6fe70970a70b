# Happening core, modelled in Dafny

Happening is a small Go event server. Sources connect over TCP and send
records `from|sent_on|type\r\n`. An events handler cuts the byte stream into
records, parses each record into an `Event` and pushes it onto a growable
circular FIFO `Queue`. A second service registers clients under the id they
send as their first line.

This project models the sequential heart of that system and proves what it
does:

- `queue.dfy` (`Queues`): the `Queue` class over a slot array. It covers
  `NewQueue`, `Push` with its reallocation, and `Pop`. Every operation keeps
  the circular-buffer invariant, and the queued items, oldest first, are a
  ghost sequence `Contents`.
- `framing.dfy` (`Framing`): how a record is cut into fields, and the
  framing step shared by both handlers. It has the incomplete and
  delimiter-ended predicates, the step as written (`Frame`), and a
  corrected step (`FrameCorrected`) with its stream-reassembly guarantee.
- `events.dfy` (`Events`): the three-field `Event` of events.go. It has
  `FromRaw` as a method on the class, `NewEventFromRaw`, `NewEvent`, and the
  parse as a value (`Decode`) with its round trip.
- `events_handler.dfy` (`EventsHandlers`): the `EventsHandler` of
  events_handler.go. It covers `NewEventsHandler` (the queue part),
  `ExtractEventsFromSocketInput` and `PushEventsToQueue`.
- `legacy_event.dfy` (`LegacyEvents`): the earlier event.go. It has its
  lenient `timestamp|type[|emitter[|weight]]` parser, its events handler
  with the zero-capacity queue it builds, the inline framing block, and its
  `PushEventsToQueue`.
- `client_store.dfy` (`ClientStores`): `HandleClient`. The id is the first
  line a `bufio.Scanner` reads from the whole zero-padded buffer, and it is
  stored in `Container` with last-write-wins.
- `strings.dfy`, `strconv.dfy`, `sequences.dfy`, `constants.dfy` and
  `wrappers.dfy` hold the rest. They model the Go library functions the
  core relies on: `strings.Split`, `Join`, `Trim`, `Index`, and
  `strconv.Atoi`/`Itoa` on 64-bit `int`. They also hold the constants of
  constants.go, and `Option`/`Result`.

Bytes are `char`s below 256, so that wire text can be written as string
literals. Go's `nil` slot or event is `None` or `null`. Go's `int` and
`int64` are unbounded `int`s, with the 64-bit range checked where
`strconv.Atoi` checks it. The clock (`time.Now().Unix()`) is a parameter:
`now` for one record, and `clock` with one reading per record for a batch.
The bytes a socket read returns are a parameter too.

## Model

| member | source | states |
|---|---|---|
| Queues.WrapAround | queue.go:32 | Go's `%` on the queue's positions is one conditional subtraction. |
| Queues.Queue.constructor | queue.go:14-19 | NewQueue: an empty queue with `size` slots and growth step `size`. |
| Queues.Queue.Grow | queue.go:23-30 | A full queue is copied oldest first into a fresh array `size` slots longer. `head` becomes 0, `tail` becomes the old length, and the contents are unchanged. |
| Queues.Queue.Put | queue.go:31-33 | Writing into the free slot at `tail` appends the item and touches no other slot. |
| Queues.Queue.Push | queue.go:22-34 | The contents become `old + [n]` and `count` goes up by one. The array grows, by exactly `size` slots and in order, only when it was full. Otherwise it is the same array with the same `head`. The invariant is kept. |
| Queues.Queue.Pop | queue.go:37-45 | On an empty queue: None, and the queue is left exactly as it was. Otherwise: the oldest item, and the contents become `old[1..]`. The invariant is kept. |
| Strconv.Atoi | events.go:56 | A field is accepted exactly when it is decimal digits, optionally after one `+` or `-`, and its signed value lies in the 64-bit range. The value is then the digits' value, negated after `-`. |
| Strconv.AtoiSignAndLeadingZeros | events.go:56 | `+007` reads as 7 and `-0` as 0. A lone sign, the empty field and a trailing non-digit are refused. |
| Strconv.Itoa | events.go:56 | The decimal spelling of a timestamp, the inverse that Atoi reads: never empty, and only digits and `-`. |
| Strconv.AtoiItoa | events.go:56 | `Atoi(Itoa(n)) == n` on the 64-bit range. |
| Strings.Index | events_handler.go:104 | -1 exactly when the separator does not occur. Otherwise an occurrence, and no occurrence starts further left. |
| Strings.HasSuffix | events_handler.go:100 | True exactly when the input is at least as long as the suffix and ends with its bytes. |
| Strings.Split | events_handler.go:104 | `strings.Split` always returns at least one piece. |
| Strings.FirstPiece | event.go:74 | Splitting at a byte that does not occur gives the input alone. Otherwise there are at least two pieces, and the first is what precedes the first occurrence. |
| Strings.TrimLeft | events.go:49 | The result is a suffix of the input. Every byte dropped is in the cutset, and the result does not start with a cutset byte. |
| Strings.TrimRight | events.go:49 | The result is a prefix of the input. Every byte dropped is in the cutset, and the result does not end with a cutset byte. |
| Strings.Trim | events.go:49 | The result is no longer than the input, and neither starts nor ends with a cutset byte. |
| Strings.SplitSound | events_handler.go:104 | The pieces `strings.Split` returns, joined by the separator, give back the input, and no piece holds the separator. |
| Strings.SplitJoin | events_handler.go:104 | Splitting the join of pieces free of an unbordered separator gives those pieces back. |
| Strings.SplitCount | events.go:49 | Splitting at a one-byte separator gives one piece more than the separators in the input. |
| Framing.Fields | events.go:49 | A record always has at least one field. |
| Framing.FirstField | event.go:74-78 | A trimmed record without a separator is one field. Otherwise it has at least two fields, and the first is what precedes the first separator. |
| Framing.FieldsSound | events.go:49 | The fields, joined by the separator, give back the record with CR and LF trimmed. No field holds a separator. |
| Framing.FieldsOfRecord | event.go:74 | Fields joined by the separator and wrapped in CR and LF bytes split back into exactly those fields. |
| Framing.FieldsWithoutSeparator | event.go:74 | A record without a separator is one field: itself, trimmed. |
| Framing.IncompleteEventMessage | event.go:246-248 | A buffer looks incomplete exactly when its last byte is not zero and it does not end with CR, LF. |
| Framing.BackslashEndedEventMessage | event.go:250-252 | The data is delimiter-ended exactly when its last two bytes are CR, LF. |
| Framing.Frame | events_handler.go:92-117 | The records are the fragments of the data split at the delimiter, in order, with at most the last one removed. A carry is left only when the buffer looks incomplete. |
| Framing.SplitEndingInDelimiter | events_handler.go:109-116 | Data ending with the delimiter splits into at least two fragments, the last of them empty. |
| Framing.LastFragmentNonEmpty | events_handler.go:104-116 | Data that does not end with the delimiter splits into fragments whose last one is not empty. |
| Framing.FrameConserves | events_handler.go:92-119 | One framing step loses and adds no byte. A carried last fragment rejoins the records. A dropped one is the empty fragment after a final delimiter. Only an incomplete-looking buffer leaves a carry. |
| Framing.FrameUndelimited | events_handler.go:104 | No record and no carry holds the delimiter. |
| Framing.ShortReadNeverCarries | events_handler.go:100 | A buffer whose unread tail is zero padding never looks incomplete, so a short read never carries. |
| Framing.ShortReadEmitsFragment | events_handler.go:97-117 | After a short read whose data does not end with the delimiter, the unfinished record is emitted as a record and nothing is carried. The intended framing would carry it, and it is never empty. |
| Framing.CompleteLookingEmitsFragment | events_handler.go:97-117 | When the buffer does not look incomplete and the data does not end with the delimiter, the last fragment is emitted as a record and nothing is carried, where the intended framing carries it. |
| Framing.ZeroEndedReadEmitsFragment | events_handler.go:100-117 | A read that fills its buffer but ends with a zero byte also emits its last fragment as a record and carries nothing, where the intended framing carries it. |
| Framing.FrameCorrectedConserves | events_handler.go:88-111 | The corrected step emits whole records. The records, each followed by the delimiter, then the carry, are exactly the data. |
| Framing.FullReadsFrameCorrectly | events_handler.go:100-117 | When the read fills its buffer and the last byte is not zero, the step as written equals the corrected step. |
| Framing.FeedConserves | events_handler.go:88-117 | Over any sequence of reads, the emitted records and the final carry are exactly the initial carry and every byte read. |
| Framing.StreamReassembled | events_handler.go:88-91 | However a stream of delimited records is cut into reads, the corrected framing emits exactly those records, in order, once each, and carries nothing at the end. |
| Events.Decode | events.go:47-64 | An accepted record has a 64-bit timestamp. A refused one is either Incomplete, quoting the raw form with its delimiter, or a bad timestamp. |
| Events.DecodedFieldsFree | events.go:49-62 | The sender and type of an accepted record hold no separator. |
| Events.DecodeEncode | events.go:47-64 | Parsing inverts encoding, whatever CR and LF bytes surround the record. |
| Events.IncompleteUnlessTwoSeparators | events.go:51-64 | A record is refused as incomplete exactly when, after trimming, it does not hold exactly two separators. |
| Events.HeartbeatParses | events.go:47-67 | The record `node1`, `1000`, `heartbeat` (separated, then CRLF) parses into from `node1`, timestamp 1000 and type `heartbeat`. |
| Events.BadTimestampRefused | events.go:56-58 | A three-field record whose middle field is not a 64-bit decimal integer is refused, quoting that field, whatever CR and LF bytes surround it. |
| Events.Event.Zero | events.go:34 | `new(Event)`: every field zero. |
| Events.Event.constructor | events.go:22-29 | NewEvent: the given fields and no raw form. |
| Events.Event.FromRaw | events.go:47-67 | The raw form always gets the delimiter back. It succeeds exactly when Decode does, and the fields are then the decoded record with ReceivedOn `now`. On a bad timestamp, From, ReceivedOn and Type are already written and SentOn is kept. A record with the wrong field count changes nothing else. |
| Events.Parsed | events.go:33-41 | There is an Event exactly when the parse succeeds. |
| Events.NewEventFromRaw | events.go:33-41 | A fresh Event on success. No Event, and the parse's error, exactly when it fails. |
| EventsHandlers.EventsHandler.constructor | events_handler.go:20-26 | NewEventsHandler: an empty queue of EVENTS_QUEUE_SIZE slots and an empty carry. |
| EventsHandlers.EventsHandler.ExtractEventsFromSocketInput | events_handler.go:87-120 | The records returned and the new carry are the framing step applied to the old carry and the read. |
| EventsHandlers.EventsHandler.PushEventToQueue | events_handler.go:125-133 | One record: an Event that parses joins the back of the queue, and one that does not is dropped. |
| EventsHandlers.EventsHandler.PushEventsToQueue | events_handler.go:124-140 | Events already queued are untouched. The new ones are fresh, and their fields are, in order, exactly the records that parse. |
| LegacyEvents.FromRawOn | event.go:72-96 | The raw form of an accepted record is the record plus the delimiter. |
| LegacyEvents.FromRawOnCases | event.go:72-96 | Read off the trimmed record: FromRaw fails exactly when it holds a separator and the text before the first separator is not a 64-bit decimal integer, and the error quotes that text. When it holds a separator and succeeds, the timestamp is that text's value. Without a separator only the raw form changes. |
| LegacyEvents.NoSeparatorAccepted | event.go:74-76 | A record without a separator, the empty fragment included, is accepted and changes nothing but the raw form. |
| LegacyEvents.DecodeEncode | event.go:74-92 | Parsing inverts encoding. The emitter and weight are set when written and otherwise keep their old values. Fields past the fourth are ignored. |
| LegacyEvents.ExtraFieldsIgnored | event.go:76-92 | Two records whose first four fields agree leave the same fields. |
| LegacyEvents.Parsed | event.go:58-66 | There is an Event exactly when FromRaw on a zero Event succeeds. |
| LegacyEvents.Event.Zero | event.go:59 | `new(Event)`: every field zero. |
| LegacyEvents.Event.constructor | event.go:47-54 | NewEvent: the given fields and no raw form. |
| LegacyEvents.Event.FromRaw | event.go:72-96 | The fields become FromRawOn of the old ones. On an error only the raw form has changed. |
| LegacyEvents.NewEventFromRaw | event.go:58-66 | A fresh Event on success. No Event, and the error, exactly when FromRaw fails. |
| LegacyEvents.NoneAcceptedIff | event.go:227-233 | No line parses exactly when no event is accepted. |
| LegacyEvents.EventsHandler.constructor | event.go:38-44 | NewEventsHandler as written: a queue with no slots and a growth step of zero. |
| LegacyEvents.EventsHandler.WithQueueSize | events_handler.go:20-26 | The corrected constructor: a queue with EVENTS_QUEUE_SIZE slots, which can take any batch. |
| LegacyEvents.EventsHandler.FrameSocketInput | event.go:192-217 | The records and the new carry are the framing step applied to the old carry and the read. |
| LegacyEvents.EventsHandler.PushEventToQueue | event.go:227-235 | One record: an Event that parses joins the back of the queue, and one that does not is dropped. A queue without slots can only be given records that do not parse. |
| LegacyEvents.EventsHandler.PushEventsToQueue | event.go:226-242 | Events already queued are untouched. The new ones are fresh, and their fields are, in order, exactly the records that parse. |
| LegacyEvents.ZeroCapacityRefusesUnseparated | event.go:41 | A batch holding a record without a separator, such as the empty fragment of a stray delimiter, always has an event to push, which the zero-capacity queue cannot take. |
| ClientStores.Padded | client_store.go:105-110 | The buffer after the read: the bytes read, then zeros up to the buffer size. |
| ClientStores.ScanFirstLine | client_store.go:116-119 | The id never holds LF and is a prefix of the buffer. |
| ClientStores.ClientId | client_store.go:105-119 | The id read from a message holds no LF and is no longer than the buffer. |
| ClientStores.LineBeforeNewline | client_store.go:116-119 | A first line ended by LF gives its text without one trailing CR, whatever follows. |
| ClientStores.IdFollowedByDelimiter | client_store.go:116-119 | An id sent followed by CRLF is read back exactly. |
| ClientStores.EmptyLineRegistersEmptyId | client_store.go:116-119 | An empty first line, ended by LF or by CRLF, gives the empty id, which is not rejected. |
| ClientStores.NoNewlineKeepsPadding | client_store.go:105-119 | A message without a newline that leaves part of the buffer unread gives the whole buffer, zero padding included, as the id. |
| ClientStores.OverlongLineRegistersEmptyId | client_store.go:116-119 | A first line longer than the Scanner's 64 KiB limit gives the empty id. |
| ClientStores.Register | client_store.go:123 | The id maps to the connection. Every other key keeps its connection, and no key is removed. |
| ClientStores.LastWriteWins | client_store.go:122-124 | Registering an id twice keeps only the second connection. |
| ClientStores.ClientStore.constructor | client_store.go:25-30 | NewClientStore: no client is registered. |
| ClientStores.ClientStore.HandleClient | client_store.go:102-127 | A read error leaves `Container` unchanged. Otherwise the connection is registered under the first line of the whole padded buffer. |

## Left out

- Goroutines, channels and locks are left out. This covers `Serve`, `HandleConnexions`, the `HandleEvents` read loops, `go m.PushEventsToQueue`, the `EventsChannel` sends and the `sync.RWMutex` of the client store. The model is sequential: one batch is pushed at a time.
- Sockets, deadlines, timeouts and logging are left out. What one read returns is a parameter, and log calls have no effect on state.
- `time.Now()` is left out. The clock reading is a parameter of FromRaw, one per record in a batch.
- The error messages are not modelled as formatted text. An error is a datatype that keeps what the message quotes: the raw form or the bad field.
- `strconv.Atoi` errors are not split into syntax and range errors, since both reject the record the same way.
- Queues.Queue.Push: it requires a queue with slots. Go indexes `nodes[0]` of an empty slice and panics, and the model does not model panics.
- Framing.Frame, EventsHandlers.EventsHandler.ExtractEventsFromSocketInput and LegacyEvents.EventsHandler.FrameSocketInput: these require a non-empty read buffer and at least two bytes of data. The source slices the last byte and the last two bytes, and panics otherwise.
- LegacyEvents.EventsHandler.PushEventsToQueue: it requires a queue with slots, or a batch in which no record parses, because pushing onto the zero-capacity queue panics.
- `CLIENTS_REG_BUF_SIZE` is not defined in constants.go, so the buffer size is a parameter of HandleClient. The connection is a value of a type parameter.
- Scanner failures other than ErrTooLong cannot occur on an in-memory reader, so they are not modelled.
- The rest of the repository is not part of this model: the services, storage, configuration, command line and process wiring.

## Findings

| source | as written | input that shows it | evidently intended | confidence | as-written member | corrected member |
|---|---|---|---|---|---|---|
| events_handler.go:100 (and event.go:200, event.go:246-248) | Whether the last fragment is incomplete is decided on the whole read buffer, so any short read whose unread tail is zero padding counts as complete, and so does a full read whose last byte is zero. A record cut by a short read is emitted in two pieces and nothing is carried. | A 4096-byte buffer into which a read returned the 15 bytes of fields `node1`, `1000`, `hear` with their separators, followed by a read of `tbeat` and CRLF: the first read yields that 15-byte record, an event of type `hear`, and the second yields the record `tbeat`, refused. | The start of an unfinished record stays in the carry until its delimiter arrives, so a record split across reads is reassembled exactly once. | not executed | Framing.ShortReadEmitsFragment | Framing.StreamReassembled |
| event.go:41 | The legacy NewEventsHandler builds the zero `Queue{}`: no slots and a growth step of zero, so the first event pushed indexes `nodes[0]` of an empty slice. | Any batch with a record that parses, e.g. the single empty record `[""]` left by a stray `\r\n`. | A queue created with `NewQueue(EVENTS_QUEUE_SIZE)`, as events_handler.go:23 later does. | not executed | LegacyEvents.ZeroCapacityRefusesUnseparated | LegacyEvents.EventsHandler.WithQueueSize |

The framing as written is the corrected framing whenever a read fills its
buffer with a non-zero last byte (Framing.FullReadsFrameCorrectly). This
covers a delimiter split across two full reads: the `\r` is carried with
its record, and the `\n` completes it. The flaw is confined to reads that
leave the buffer's last byte zero: every short read, and a full read whose
last byte is zero (Framing.ZeroEndedReadEmitsFragment).
The handlers keep the framing as written (Framing.Frame).
