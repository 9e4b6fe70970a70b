/** event.go: the earlier event format, `timestamp|type[|emitter[|weight]]`,
    its lenient parser, and the events handler built around it. The same Go
    type names as events.go are declared here, so this is a module of its
    own. Sockets, goroutines, the events channel and logging are not part of
    this model. */
module LegacyEvents {
  import opened Constants
  import opened Wrappers
  import opened Strings
  import opened Strconv
  import opened Framing
  import opened Queues
  import opened Sequences

  /** Why a record was refused: its first field, quoted in the message, is
      not a decimal integer. */
  datatype EventError = BadTimestamp(field: Bytes)

  /** All the fields of an Event. */
  datatype EventView = EventView(timestamp: int, typ: Bytes, emitter: Bytes, weight: Bytes, raw: Bytes)

  /** The Event `new(Event)` makes: every field zero. */
  const ZeroView := EventView(0, [], [], [], [])

  /** What FromRaw (event.go:72-96) leaves in an Event that held `before`.
      The raw form always gets the delimiter back. A record with fewer than
      two fields is accepted and changes nothing else; otherwise the first
      field must be a decimal integer, which becomes the timestamp, the
      second is the type, and a third and fourth, when present, are the
      emitter and the weight. */
  function FromRawOn(before: EventView, line: Bytes): (r: Result<EventView, EventError>)
    ensures r.Success? ==> r.value.raw == line + MsgDelimiter
  {
    var raw := line + MsgDelimiter;
    var parts := Fields(line);
    if |parts| < 2 then Success(before.(raw := raw))
    else
      match Atoi(parts[0])
      case None => Failure(BadTimestamp(parts[0]))
      case Some(ts) =>
        Success(before.(
          raw := raw,
          timestamp := ts,
          typ := parts[1],
          emitter := if |parts| >= 3 then parts[2] else before.emitter,
          weight := if |parts| >= 4 then parts[3] else before.weight))
  }

  /** The cases of FromRaw, read off the trimmed record: it fails exactly
      when the record holds a separator and what precedes the first one is
      not a decimal integer, and the message quotes that prefix; a record
      without a separator leaves every field but the raw form as it was;
      otherwise the prefix is the new timestamp. */
  lemma {:induction false} FromRawOnCases(before: EventView, line: Bytes)
    ensures var r, t := FromRawOn(before, line), Trim(line, MsgDelimiter);
      var i := Index(t, [EventParamsSeparator]);
      (r.Failure? <==> 0 <= i && Atoi(t[..i]).None?) &&
      (r.Failure? ==> r.error == BadTimestamp(t[..i])) &&
      (0 <= i && r.Success? ==> Some(r.value.timestamp) == Atoi(t[..i])) &&
      (EventParamsSeparator !in t ==> r == Success(before.(raw := line + MsgDelimiter)))
  {
    ContainsByte(Trim(line, MsgDelimiter), EventParamsSeparator);
    FirstField(line);
  }

  /** The Event NewEventFromRaw (event.go:58-66) returns, or None. */
  function Parsed(line: Bytes): (r: Option<EventView>)
    ensures r.Some? <==> FromRawOn(ZeroView, line).Success?
  {
    match FromRawOn(ZeroView, line)
    case Failure(_) => None
    case Success(v) => Some(v)
  }

  /** What a well-behaved source writes for a record, delimiter excluded:
      the timestamp, the type, then the optional fields. */
  function Encode(ts: int, typ: Bytes, optional: seq<Bytes>): Bytes {
    Join([Itoa(ts), typ] + optional, [EventParamsSeparator])
  }

  /** A record reads back as written when no field holds a separator and the
      last field does not end with CR or LF. */
  predicate Encodable(ts: int, typ: Bytes, optional: seq<Bytes>) {
    var parts := [Itoa(ts), typ] + optional;
    MinInt64 <= ts <= MaxInt64 &&
    (forall k :: 0 <= k < |parts| ==> EventParamsSeparator !in parts[k]) &&
    (var last := parts[|parts| - 1]; last == [] || last[|last| - 1] !in MsgDelimiter)
  }

  /** Parsing inverts encoding, whatever CR and LF bytes surround the
      record: the timestamp and the type are set, the emitter and the weight
      are set when written and otherwise keep what the Event held, and
      fields past the fourth are ignored. */
  lemma {:induction false} DecodeEncode(before: EventView, ts: int, typ: Bytes, optional: seq<Bytes>, pre: Bytes, post: Bytes)
    requires Encodable(ts, typ, optional)
    requires forall k :: 0 <= k < |pre| ==> pre[k] in MsgDelimiter
    requires forall k :: 0 <= k < |post| ==> post[k] in MsgDelimiter
    ensures var line := pre + Encode(ts, typ, optional) + post;
      FromRawOn(before, line) == Success(EventView(
        ts, typ,
        if |optional| >= 1 then optional[0] else before.emitter,
        if |optional| >= 2 then optional[1] else before.weight,
        line + MsgDelimiter))
  {
    var parts := [Itoa(ts), typ] + optional;
    var digits := Itoa(ts);
    assert parts[0] == digits;
    assert digits[0] != CR && digits[0] != LF;
    FieldsOfRecord(pre, parts, post);
    AtoiItoa(ts);
  }

  /** Only the first four fields matter: two records whose first four
      fields agree leave the same fields, whatever follows. */
  lemma {:induction false} ExtraFieldsIgnored(before: EventView, a: Bytes, b: Bytes)
    requires 4 <= |Fields(a)| && 4 <= |Fields(b)| && Fields(a)[..4] == Fields(b)[..4]
    ensures FromRawOn(before, a).Success? == FromRawOn(before, b).Success?
    ensures FromRawOn(before, a).Success? ==>
      FromRawOn(before, a).value.(raw := []) == FromRawOn(before, b).value.(raw := [])
  {
    assert Fields(a)[0] == Fields(a)[..4][0] && Fields(b)[0] == Fields(b)[..4][0];
    assert Fields(a)[1] == Fields(a)[..4][1] && Fields(b)[1] == Fields(b)[..4][1];
    assert Fields(a)[2] == Fields(a)[..4][2] && Fields(b)[2] == Fields(b)[..4][2];
    assert Fields(a)[3] == Fields(a)[..4][3] && Fields(b)[3] == Fields(b)[..4][3];
  }

  /** A record without a separator, the empty fragment a stray delimiter
      leaves among them, is accepted and changes nothing but the raw form. */
  lemma {:induction false} NoSeparatorAccepted(before: EventView, line: Bytes)
    requires EventParamsSeparator !in line
    ensures FromRawOn(before, line) == Success(before.(raw := line + MsgDelimiter))
  {
    FieldsWithoutSeparator(line);
  }

  class Event {
    var Timestamp: int
    var Type: Bytes
    var Emitter: Bytes
    var Weight: Bytes
    var raw: Bytes

    function View(): EventView
      reads this
    {
      EventView(Timestamp, Type, Emitter, Weight, raw)
    }

    /** `new(Event)`: every field zero. */
    constructor Zero()
      ensures View() == ZeroView
    {
      Timestamp, Type, Emitter, Weight, raw := 0, [], [], [], [];
    }

    /** NewEvent (event.go:47-54): the given fields, no raw form. */
    constructor (ts: int, typ: Bytes, emitter: Bytes, weight: Bytes)
      ensures View() == EventView(ts, typ, emitter, weight, [])
    {
      Timestamp, Type, Emitter, Weight, raw := ts, typ, emitter, weight, [];
    }

    /** FromRaw (event.go:72-96): the fields become FromRawOn of the old
        ones; on an error only the raw form has changed. */
    method FromRaw(line: Bytes) returns (err: Option<EventError>)
      modifies this
      ensures raw == line + MsgDelimiter
      ensures err.None? <==> FromRawOn(old(View()), line).Success?
      ensures err.None? ==> View() == FromRawOn(old(View()), line).value
      ensures err.Some? ==>
        err.value == FromRawOn(old(View()), line).error && View() == old(View()).(raw := line + MsgDelimiter)
    {
      ghost var r := FromRawOn(View(), line);
      raw := line + MsgDelimiter;
      var parts := Fields(line);
      if |parts| >= 2 {
        var ts := Atoi(parts[0]);
        if ts.None? {
          assert r == Failure(BadTimestamp(parts[0]));
          return Some(BadTimestamp(parts[0]));
        }
        Timestamp := ts.value;
        Type := parts[1];
        if |parts| >= 3 {
          Emitter := parts[2];
        }
        if |parts| >= 4 {
          Weight := parts[3];
        }
      }
      assert r.Success? && r.value == View();
      return None;
    }
  }

  /** NewEventFromRaw (event.go:58-66): a fresh Event on success; no Event
      exactly when FromRaw fails. */
  method NewEventFromRaw(line: Bytes) returns (event: Event?, err: Option<EventError>)
    ensures event == null <==> err.Some?
    ensures err.Some? ==> Parsed(line) == None && err.value == FromRawOn(ZeroView, line).error
    ensures event != null ==> fresh(event) && Parsed(line) == Some(event.View())
  {
    event := new Event.Zero();
    err := event.FromRaw(line);
    if err.Some? {
      return null, err;
    }
  }

  /** The fields of each event, in order. */
  function Views(events: seq<Event>): (r: seq<EventView>)
    reads events
    ensures |r| == |events|
    ensures forall k :: 0 <= k < |events| ==> r[k] == events[k].View()
  {
    seq(|events|, k reads events requires 0 <= k < |events| => events[k].View())
  }

  lemma ViewsAppend(a: seq<Event>, b: seq<Event>)
    ensures Views(a + b) == Views(a) + Views(b)
  {
  }

  /** What NewEventFromRaw makes of each line. */
  function ParseAll(lines: seq<Bytes>): (r: seq<Option<EventView>>)
    ensures |r| == |lines|
    ensures forall k :: 0 <= k < |lines| ==> r[k] == Parsed(lines[k])
  {
    seq(|lines|, k requires 0 <= k < |lines| => Parsed(lines[k]))
  }

  /** The events NewEventFromRaw accepts among `lines`, in order. */
  function Accepted(lines: seq<Bytes>): seq<EventView> {
    Somes(ParseAll(lines))
  }

  /** The first |outcomes| lines parse as `outcomes` say. */
  ghost predicate Agrees(lines: seq<Bytes>, outcomes: seq<Option<EventView>>) {
    Follows(Parsed, lines, outcomes)
  }

  lemma AgreesSnoc(lines: seq<Bytes>, outcomes: seq<Option<EventView>>, outcome: Option<EventView>)
    requires Agrees(lines, outcomes) && |outcomes| < |lines|
    requires outcome == Parsed(lines[|outcomes|])
    ensures Agrees(lines, outcomes + [outcome])
  {
    FollowsSnoc(Parsed, lines, outcomes, outcome);
  }

  /** Agreement on every line singles out the accepted events. */
  lemma AgreesAll(lines: seq<Bytes>, outcomes: seq<Option<EventView>>)
    requires |lines| == |outcomes| && Agrees(lines, outcomes)
    ensures Accepted(lines) == Somes(outcomes)
  {
    assert ParseAll(lines) == outcomes;
  }

  /** No line parses. */
  ghost predicate NoneAccepted(lines: seq<Bytes>) {
    forall k {:trigger Parsed(lines[k])} :: 0 <= k < |lines| ==> Parsed(lines[k]) == None
  }

  /** No line parses exactly when no event is accepted. */
  lemma NoneAcceptedIff(lines: seq<Bytes>)
    ensures NoneAccepted(lines) <==> Accepted(lines) == []
  {
    var p := ParseAll(lines);
    SomesEmpty(p);
    if !NoneAccepted(lines) {
      var k :| 0 <= k < |lines| && Parsed(lines[k]) != None;
      assert !p[k].None?;
    }
  }

  class EventsHandler {
    var Queue: Queue<Event>
    /** Bytes of a record whose end has not arrived yet. */
    var Buffer: Bytes

    /** The queue may have no slots: NewEventsHandler builds it so. */
    ghost predicate Valid()
      reads this, Queue, Queue.Repr
    {
      this !in Queue.Repr && Queue.Valid()
    }

    /** NewEventsHandler (event.go:38-44): the queue is the zero Queue,
        `&Queue{}`, with no slots and a growth step of zero. */
    constructor ()
      ensures Valid() && fresh(Queue) && fresh(Queue.Repr)
      ensures Queue.Contents == [] && Queue.nodes.Length == 0 && Queue.size == 0 && Buffer == []
    {
      Queue := new Queue(0);
      Buffer := [];
    }

    /** NewEventsHandler as events_handler.go:20-26 later writes it: a queue
        of EVENTS_QUEUE_SIZE slots, which can take events. */
    constructor WithQueueSize()
      ensures Valid() && fresh(Queue) && fresh(Queue.Repr)
      ensures Queue.Contents == [] && Queue.nodes.Length == EventsQueueSize > 0 && Buffer == []
    {
      Queue := new Queue(EventsQueueSize);
      Buffer := [];
    }

    /** The framing block inside HandleEvents (event.go:192-217): the carried
        bytes and the bytes read are framed into records; the carry is reset
        and refilled only when the buffer looks incomplete. */
    method FrameSocketInput(input: Bytes, readLen: nat) returns (items: seq<Bytes>)
      requires 0 < |input| && readLen <= |input| && |MsgDelimiter| <= |Buffer| + readLen
      modifies this`Buffer
      ensures Framed(items, Buffer) == Frame(old(Buffer), input, readLen)
    {
      var data := Buffer + input[..readLen];
      Buffer := [];
      var incomplete := IncompleteEventMessage(input);
      var backslashEnded := BackslashEndedEventMessage(data);
      items := Split(data, MsgDelimiter);
      assert data == Data(old(Buffer), input, readLen);
      if incomplete {
        Buffer := items[|items| - 1];
        items := items[..|items| - 1];
      } else if backslashEnded {
        items := items[..|items| - 1];
      }
    }

    /** One iteration of PushEventsToQueue (event.go:227-235), on line `i`:
        an event that parses joins the back of the queue; one that does not
        is dropped. A queue without slots can take no event: Go indexes
        `nodes[0]` and panics, so either the queue has slots or no line
        parses. */
    method PushEventToQueue(events: seq<Bytes>, i: nat, ghost outcomes: seq<Option<EventView>>)
      returns (event: Event?, ghost outcome: Option<EventView>, ghost pushed: seq<Event>)
      requires Valid() && i == |outcomes| < |events| && Agrees(events, outcomes)
      requires Queue.nodes.Length > 0 || NoneAccepted(events)
      modifies Queue.Repr
      ensures Valid() && Queue == old(Queue) && fresh(Queue.Repr - old(Queue.Repr))
      ensures Queue.nodes.Length > 0 || Queue.nodes == old(Queue.nodes)
      ensures Agrees(events, outcomes + [outcome])
      ensures event == null <==> outcome == None
      ensures Queue.Contents == old(Queue.Contents) + pushed
      ensures Views(pushed) == Present(outcome)
      ensures forall e | e in pushed :: fresh(e) && e !in Queue.Repr && e == event
    {
      var err;
      event, err := NewEventFromRaw(events[i]);
      outcome := Parsed(events[i]);
      AgreesSnoc(events, outcomes, outcome);
      pushed := [];
      if err.None? {
        Queue.Push(event);
        pushed := [event];
      }
    }

    /** PushEventsToQueue (event.go:226-242): each record is parsed in
        order; the events that parse join the back of the queue in that
        order, the others are dropped. Events already queued are not
        touched. */
    method PushEventsToQueue(events: seq<Bytes>)
      requires Valid() && (Queue.nodes.Length > 0 || NoneAccepted(events))
      modifies Queue.Repr
      ensures Valid() && fresh(Queue.Repr - old(Queue.Repr))
      ensures |old(Queue.Contents)| <= |Queue.Contents|
      ensures Queue.Contents[..|old(Queue.Contents)|] == old(Queue.Contents)
      ensures forall e | e in Queue.Contents[|old(Queue.Contents)|..] :: fresh(e)
      ensures Views(Queue.Contents[|old(Queue.Contents)|..]) == Accepted(events)
    {
      ghost var outcomes: seq<Option<EventView>> := [];
      ghost var added: seq<Event> := [];
      var i := 0;
      while i < |events|
        invariant 0 <= i <= |events| && |outcomes| == i
        invariant Valid() && fresh(Queue.Repr - old(Queue.Repr))
        invariant Queue.nodes.Length > 0 || NoneAccepted(events)
        invariant Queue.Contents == old(Queue.Contents) + added
        invariant forall e | e in added :: fresh(e) && e !in Queue.Repr
        invariant Views(added) == Somes(outcomes)
        invariant Agrees(events, outcomes)
      {
        var event, outcome, pushed := PushEventToQueue(events, i, outcomes);
        SomesSnoc(outcomes, outcome);
        ViewsAppend(added, pushed);
        added := added + pushed;
        outcomes := outcomes + [outcome];
        i := i + 1;
      }
      assert Queue.Contents[|old(Queue.Contents)|..] == added;
      AgreesAll(events, outcomes);
    }
  }

  /** The handler NewEventsHandler builds cannot take a batch holding a
      record without a separator, a stray delimiter's empty fragment among
      them: its queue has no slots and such a record parses. */
  lemma {:induction false} ZeroCapacityRefusesUnseparated(lines: seq<Bytes>, i: nat)
    requires i < |lines| && EventParamsSeparator !in lines[i]
    ensures !NoneAccepted(lines)
  {
    NoSeparatorAccepted(ZeroView, lines[i]);
    assert Parsed(lines[i]).Some?;
  }
}
