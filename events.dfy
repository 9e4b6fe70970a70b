/** events.go: the event a source sends, `from|sent_on|type`, and its parser.
    The clock the parser reads (`time.Now().Unix()`) is a parameter. */
module Events {
  import opened Constants
  import opened Wrappers
  import opened Strings
  import opened Strconv
  import opened Framing

  /** Why a record was refused: it did not have exactly three fields (the
      message quotes the raw form, delimiter restored), or its middle field
      is not a decimal integer. */
  datatype EventError = Incomplete(raw: Bytes) | BadTimestamp(field: Bytes)

  /** What a record says: who sent it, when, and what happened. */
  datatype Record = Record(from: Bytes, sentOn: int, typ: Bytes)

  /** All the fields of an Event, for stating what a method leaves behind. */
  datatype EventView = EventView(raw: Bytes, from: Bytes, sentOn: int, receivedOn: int, typ: Bytes)

  /** The parse FromRaw performs (events.go:49-64), as a value: three fields
      after trimming CR and LF, the middle one a 64-bit decimal integer. */
  function Decode(line: Bytes): (r: Result<Record, EventError>)
    ensures r.Success? ==> MinInt64 <= r.value.sentOn <= MaxInt64
    ensures r.Failure? ==> r.error == Incomplete(line + MsgDelimiter) || r.error.BadTimestamp?
  {
    var parts := Fields(line);
    if |parts| != 3 then Failure(Incomplete(line + MsgDelimiter))
    else
      match Atoi(parts[1])
      case None => Failure(BadTimestamp(parts[1]))
      case Some(sentOn) => Success(Record(parts[0], sentOn, parts[2]))
  }

  /** A decoded sender and type never hold a separator. */
  lemma DecodedFieldsFree(line: Bytes)
    ensures Decode(line).Success? ==>
      EventParamsSeparator !in Decode(line).value.from && EventParamsSeparator !in Decode(line).value.typ
  {
    FieldsSound(line);
  }

  /** What a well-behaved source writes for a record, delimiter excluded. */
  function Encode(rec: Record): Bytes {
    rec.from + [EventParamsSeparator] + Itoa(rec.sentOn) + [EventParamsSeparator] + rec.typ
  }

  /** A record whose encoding reads back as itself: no separator inside a
      field, a timestamp that fits in 64 bits, and no CR or LF where the
      parser trims. */
  predicate Encodable(rec: Record) {
    EventParamsSeparator !in rec.from && EventParamsSeparator !in rec.typ &&
    MinInt64 <= rec.sentOn <= MaxInt64 &&
    (rec.from == [] || rec.from[0] !in MsgDelimiter) &&
    (rec.typ == [] || rec.typ[|rec.typ| - 1] !in MsgDelimiter)
  }

  /** Every byte is CR or LF. */
  predicate AllDelimiterBytes(s: Bytes) {
    forall k :: 0 <= k < |s| ==> s[k] in MsgDelimiter
  }

  /** Three fields joined by the separator. */
  lemma JoinThree(a: Bytes, b: Bytes, c: Bytes)
    ensures Join([a, b, c], [EventParamsSeparator]) == a + [EventParamsSeparator] + b + [EventParamsSeparator] + c
  {
    var sep := [EventParamsSeparator];
    assert [a, b, c][1..] == [b, c];
    assert [b, c][1..] == [c];
    assert Join([b, c], sep) == b + sep + c;
  }

  /** Parsing inverts encoding, whatever CR and LF bytes surround the
      record. */
  lemma {:induction false} DecodeEncode(rec: Record, pre: Bytes, post: Bytes)
    requires Encodable(rec) && AllDelimiterBytes(pre) && AllDelimiterBytes(post)
    ensures Decode(pre + Encode(rec) + post) == Success(rec)
  {
    var digits := Itoa(rec.sentOn);
    var parts := [rec.from, digits, rec.typ];
    JoinThree(rec.from, digits, rec.typ);
    assert EventParamsSeparator !in digits;
    FieldsOfRecord(pre, parts, post);
    AtoiItoa(rec.sentOn);
  }

  /** A record is refused as incomplete exactly when, after trimming, it does
      not hold exactly two separators. */
  lemma {:induction false} IncompleteUnlessTwoSeparators(line: Bytes)
    ensures Decode(line) == Failure(Incomplete(line + MsgDelimiter)) <==>
      CountByte(Trim(line, MsgDelimiter), EventParamsSeparator) != 2
  {
    SplitCount(Trim(line, MsgDelimiter), EventParamsSeparator);
  }

  class Event {
    var raw: Bytes
    var From: Bytes
    var SentOn: int
    var ReceivedOn: int
    var Type: Bytes

    function View(): EventView
      reads this
    {
      EventView(raw, From, SentOn, ReceivedOn, Type)
    }

    /** `new(Event)`: every field zero. */
    constructor Zero()
      ensures View() == EventView([], [], 0, 0, [])
    {
      raw, From, SentOn, ReceivedOn, Type := [], [], 0, 0, [];
    }

    /** NewEvent (events.go:22-29): the given fields, no raw form. */
    constructor (from: Bytes, sentOn: int, receivedOn: int, eventType: Bytes)
      ensures View() == EventView([], from, sentOn, receivedOn, eventType)
    {
      raw, From, SentOn, ReceivedOn, Type := [], from, sentOn, receivedOn, eventType;
    }

    /** FromRaw (events.go:47-67). The raw form always gets the delimiter
        back. A record with three fields has From, ReceivedOn and Type
        written before the timestamp is parsed, so a bad timestamp leaves
        them written and SentOn as it was. */
    method FromRaw(line: Bytes, now: int) returns (err: Option<EventError>)
      modifies this
      ensures raw == line + MsgDelimiter
      ensures err == None <==> Decode(line).Success?
      ensures err.Some? ==> err.value == Decode(line).error
      ensures Decode(line).Success? ==>
        Record(From, SentOn, Type) == Decode(line).value && ReceivedOn == now
      ensures |Fields(line)| != 3 ==>
        From == old(From) && SentOn == old(SentOn) && ReceivedOn == old(ReceivedOn) && Type == old(Type)
      ensures |Fields(line)| == 3 && Decode(line).Failure? ==>
        From == Fields(line)[0] && Type == Fields(line)[2] && ReceivedOn == now && SentOn == old(SentOn)
    {
      raw := line + MsgDelimiter;
      var parts := Fields(line);
      if |parts| == 3 {
        From := parts[0];
        ReceivedOn := now;
        Type := parts[2];
        var sentOn := Atoi(parts[1]);
        if sentOn.None? {
          return Some(BadTimestamp(parts[1]));
        }
        SentOn := sentOn.value;
      } else {
        return Some(Incomplete(raw));
      }
      return None;
    }
  }

  /** The Event FromRaw builds from a zero Event, or None when it refuses
      the record. */
  function Parsed(line: Bytes, now: int): (r: Option<EventView>)
    ensures r.Some? <==> Decode(line).Success?
  {
    match Decode(line)
    case Failure(_) => None
    case Success(rec) => Some(EventView(line + MsgDelimiter, rec.from, rec.sentOn, now, rec.typ))
  }

  /** NewEventFromRaw (events.go:33-41): a fresh Event on success; no Event
      exactly when the parse fails. */
  method NewEventFromRaw(line: Bytes, now: int) returns (event: Event?, err: Option<EventError>)
    ensures event == null <==> err.Some?
    ensures err.Some? ==> Parsed(line, now) == None && err.value == Decode(line).error
    ensures event != null ==> fresh(event) && Parsed(line, now) == Some(event.View())
  {
    event := new Event.Zero();
    err := event.FromRaw(line, now);
    if err.Some? {
      return null, err;
    }
  }

  lemma ItoaThousand()
    ensures Itoa(1000) == "1000"
  {
    assert NatToDecimal(1) == "1";
    assert NatToDecimal(10) == "10";
    assert NatToDecimal(100) == "100";
  }

  lemma HeartbeatSpelled()
    ensures [] + Encode(Record("node1", 1000, "heartbeat")) + "\r\n" == "node1|1000|heartbeat\r\n"
  {
    ItoaThousand();
  }

  /** The record "node1|1000|heartbeat\r\n" parses. */
  lemma HeartbeatParses()
    ensures Decode("node1|1000|heartbeat\r\n") == Success(Record("node1", 1000, "heartbeat"))
  {
    HeartbeatSpelled();
    DecodeEncode(Record("node1", 1000, "heartbeat"), [], "\r\n");
  }

  /** A record with three fields whose middle one is not a 64-bit decimal
      integer is refused, quoting that field, whatever CR and LF bytes
      surround it. */
  lemma {:induction false} BadTimestampRefused(from: Bytes, field: Bytes, typ: Bytes, pre: Bytes, post: Bytes)
    requires Atoi(field).None?
    requires EventParamsSeparator !in from && EventParamsSeparator !in field && EventParamsSeparator !in typ
    requires (from == [] || from[0] !in MsgDelimiter) && (typ == [] || typ[|typ| - 1] !in MsgDelimiter)
    requires AllDelimiterBytes(pre) && AllDelimiterBytes(post)
    ensures Decode(pre + Join([from, field, typ], [EventParamsSeparator]) + post) == Failure(BadTimestamp(field))
  {
    FieldsOfRecord(pre, [from, field, typ], post);
  }
}
