/** events_handler.go: the per-connection state of the ingestion handler (the
    carried bytes and the shared queue), one framing step and the loop that
    parses records and queues the events. Sockets, goroutines, the events
    channel and logging are not part of this model. */
module EventsHandlers {
  import opened Constants
  import opened Wrappers
  import opened Strings
  import opened Framing
  import opened Events
  import opened Queues
  import opened Sequences

  /** The fields of each event, in order. */
  function Views(events: seq<Event>): (r: seq<EventView>)
    reads events
    ensures |r| == |events|
    ensures forall k :: 0 <= k < |events| ==> r[k] == events[k].View()
  {
    seq(|events|, k reads events requires 0 <= k < |events| => events[k].View())
  }

  lemma ViewsAppend(a: seq<Event>, b: seq<Event>)
    ensures Views(a + b) == Views(a) + Views(b)
  {
  }

  /** What FromRaw makes of each line, at the clock reading given for it. */
  function ParseAll(lines: seq<Bytes>, clock: seq<int>): (r: seq<Option<EventView>>)
    requires |clock| == |lines|
    ensures |r| == |lines|
    ensures forall k :: 0 <= k < |lines| ==> r[k] == Parsed(lines[k], clock[k])
  {
    seq(|lines|, k requires 0 <= k < |lines| => Parsed(lines[k], clock[k]))
  }

  /** The first |outcomes| lines parse as `outcomes` say. */
  ghost predicate Agrees(lines: seq<Bytes>, clock: seq<int>, outcomes: seq<Option<EventView>>)
    requires |clock| == |lines|
  {
    FollowsPairs(Parsed, lines, clock, outcomes)
  }

  lemma AgreesSnoc(lines: seq<Bytes>, clock: seq<int>, outcomes: seq<Option<EventView>>, outcome: Option<EventView>)
    requires |clock| == |lines| && Agrees(lines, clock, outcomes) && |outcomes| < |lines|
    requires outcome == Parsed(lines[|outcomes|], clock[|outcomes|])
    ensures Agrees(lines, clock, outcomes + [outcome])
  {
    FollowsPairsSnoc(Parsed, lines, clock, outcomes, outcome);
  }

  /** Agreement on every line singles out ParseAll. */
  lemma AgreesAll(lines: seq<Bytes>, clock: seq<int>, outcomes: seq<Option<EventView>>)
    requires |clock| == |lines| == |outcomes| && Agrees(lines, clock, outcomes)
    ensures Accepted(lines, clock) == Somes(outcomes)
  {
    assert ParseAll(lines, clock) == outcomes;
  }

  /** The events FromRaw accepts among `lines`, in order. */
  function Accepted(lines: seq<Bytes>, clock: seq<int>): (r: seq<EventView>)
    requires |clock| == |lines|
  {
    Somes(ParseAll(lines, clock))
  }

  class EventsHandler {
    var Queue: Queue<Event>
    /** Bytes of a record whose end has not arrived yet. */
    var Buffer: Bytes

    ghost predicate Valid()
      reads this, Queue, Queue.Repr
    {
      this !in Queue.Repr && Queue.Valid() && Queue.nodes.Length > 0
    }

    /** NewEventsHandler (events_handler.go:20-26): an empty queue with
        EVENTS_QUEUE_SIZE slots, and nothing carried. */
    constructor ()
      ensures Valid() && fresh(Queue) && fresh(Queue.Repr)
      ensures Queue.Contents == [] && Queue.nodes.Length == EventsQueueSize && Buffer == []
    {
      Queue := new Queue(EventsQueueSize);
      Buffer := [];
    }

    /** ExtractEventsFromSocketInput (events_handler.go:87-120): the carried
        bytes and the bytes read are framed into records; the carry is reset
        and refilled only when the buffer looks incomplete. Go slices the
        last byte of `input` and the last two bytes of the data, so both must
        exist. */
    method ExtractEventsFromSocketInput(input: Bytes, readLen: nat) returns (items: seq<Bytes>)
      requires 0 < |input| && readLen <= |input| && |MsgDelimiter| <= |Buffer| + readLen
      modifies this`Buffer
      ensures Framed(items, Buffer) == Frame(old(Buffer), input, readLen)
    {
      var data := Buffer + input[..readLen];
      Buffer := [];
      var isIncomplete := !HasSuffix(input, MsgDelimiter) && input[|input| - 1] != NUL;
      var isBackslashEnded := data[|data| - |MsgDelimiter|..] == MsgDelimiter;
      items := Split(data, MsgDelimiter);
      assert data == Data(old(Buffer), input, readLen);
      assert isIncomplete == IncompleteEventMessage(input);
      assert isBackslashEnded == BackslashEndedEventMessage(data);
      if isIncomplete {
        Buffer := items[|items| - 1];
        items := items[..|items| - 1];
      } else if isBackslashEnded {
        items := items[..|items| - 1];
      }
    }

    /** One iteration of PushEventsToQueue (events_handler.go:126-133), on
        line `i`: an event that parses joins the back of the queue; one that
        does not is dropped and the queue is left as it was. `outcome` is
        what FromRaw made of the line and `pushed` what joined. */
    method PushEventToQueue(events: seq<Bytes>, clock: seq<int>, i: nat, ghost outcomes: seq<Option<EventView>>)
      returns (event: Event?, ghost outcome: Option<EventView>, ghost pushed: seq<Event>)
      requires Valid() && |clock| == |events| && i == |outcomes| < |events|
      requires Agrees(events, clock, outcomes)
      modifies Queue.Repr
      ensures Valid() && Queue == old(Queue) && fresh(Queue.Repr - old(Queue.Repr))
      ensures Agrees(events, clock, outcomes + [outcome])
      ensures event == null <==> outcome == None
      ensures Queue.Contents == old(Queue.Contents) + pushed
      ensures Views(pushed) == Present(outcome)
      ensures forall e | e in pushed :: fresh(e) && e !in Queue.Repr && e == event
    {
      var err;
      event, err := NewEventFromRaw(events[i], clock[i]);
      outcome := Parsed(events[i], clock[i]);
      AgreesSnoc(events, clock, outcomes, outcome);
      pushed := [];
      if err.None? {
        Queue.Push(event);
        pushed := [event];
      }
    }

    /** PushEventsToQueue (events_handler.go:124-140): each record is parsed
        in order, at the clock reading given for it; the events that parse
        join the back of the queue in that order, the others are dropped.
        Events already queued are not touched. */
    method PushEventsToQueue(events: seq<Bytes>, clock: seq<int>)
      requires Valid() && |clock| == |events|
      modifies Queue.Repr
      ensures Valid() && fresh(Queue.Repr - old(Queue.Repr))
      ensures |old(Queue.Contents)| <= |Queue.Contents|
      ensures Queue.Contents[..|old(Queue.Contents)|] == old(Queue.Contents)
      ensures forall e | e in Queue.Contents[|old(Queue.Contents)|..] :: fresh(e)
      ensures Views(Queue.Contents[|old(Queue.Contents)|..]) == Accepted(events, clock)
    {
      ghost var outcomes: seq<Option<EventView>> := [];
      ghost var added: seq<Event> := [];
      var i := 0;
      while i < |events|
        invariant 0 <= i <= |events| && |outcomes| == i
        invariant Valid() && fresh(Queue.Repr - old(Queue.Repr))
        invariant Queue.Contents == old(Queue.Contents) + added
        invariant forall e | e in added :: fresh(e) && e !in Queue.Repr
        invariant Views(added) == Somes(outcomes)
        invariant Agrees(events, clock, outcomes)
      {
        var event, outcome, pushed := PushEventToQueue(events, clock, i, outcomes);
        SomesSnoc(outcomes, outcome);
        ViewsAppend(added, pushed);
        added := added + pushed;
        outcomes := outcomes + [outcome];
        i := i + 1;
      }
      assert Queue.Contents[|old(Queue.Contents)|..] == added;
      AgreesAll(events, clock, outcomes);
    }
  }
}
