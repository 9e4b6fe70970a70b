/** Record framing shared by both events handlers: how the carried bytes and
    one socket read are cut into records (events_handler.go:87-120, and the
    same block inline at event.go:188-217 with its predicates at
    event.go:244-252), and how one record is cut into fields (events.go:49,
    event.go:74). */
module Framing {
  import opened Constants
  import opened Strings

  /** The fields of one record: leading and trailing CR and LF bytes are
      trimmed, then the rest is cut at every separator. */
  function Fields(line: Bytes): (parts: seq<Bytes>)
    ensures 1 <= |parts|
  {
    Split(Trim(line, MsgDelimiter), [EventParamsSeparator])
  }

  /** The fields, joined by the separator, give back the trimmed record,
      and no field holds a separator. */
  lemma FieldsSound(line: Bytes)
    ensures Join(Fields(line), [EventParamsSeparator]) == Trim(line, MsgDelimiter)
    ensures forall k :: 0 <= k < |Fields(line)| ==> EventParamsSeparator !in Fields(line)[k]
  {
    SplitSound(Trim(line, MsgDelimiter), [EventParamsSeparator]);
    SplitOnByte(Trim(line, MsgDelimiter), EventParamsSeparator);
  }

  /** A trimmed record without a separator is one field; otherwise there
      are at least two, and the first is what precedes the first separator. */
  lemma {:induction false} FirstField(line: Bytes)
    ensures var t := Trim(line, MsgDelimiter); var i := Index(t, [EventParamsSeparator]);
      (i < 0 ==> Fields(line) == [t]) &&
      (0 <= i ==> 2 <= |Fields(line)| && Fields(line)[0] == t[..i])
  {
    FirstPiece(Trim(line, MsgDelimiter), EventParamsSeparator);
  }

  /** The first and last byte of fields joined by a separator. */
  lemma {:induction false} JoinedEnds(parts: seq<Bytes>, b: Byte)
    requires 2 <= |parts|
    ensures var s := Join(parts, [b]);
      |s| > 0 &&
      s[0] == (if parts[0] == [] then b else parts[0][0]) &&
      s[|s| - 1] == (if parts[|parts| - 1] == [] then b else parts[|parts| - 1][|parts[|parts| - 1]| - 1])
  {
    var n := |parts|;
    assert parts == parts[..n - 1] + [parts[n - 1]];
    JoinSnoc(parts[..n - 1], parts[n - 1], [b]);
  }

  /** A record written as fields joined by separators, possibly wrapped in CR
      and LF bytes, has exactly those fields, provided no field holds a
      separator, the first field does not start with CR or LF and the last
      one does not end with one. */
  lemma {:induction false} FieldsOfRecord(pre: Bytes, parts: seq<Bytes>, post: Bytes)
    requires 2 <= |parts|
    requires forall k :: 0 <= k < |parts| ==> EventParamsSeparator !in parts[k]
    requires forall k :: 0 <= k < |pre| ==> pre[k] in MsgDelimiter
    requires forall k :: 0 <= k < |post| ==> post[k] in MsgDelimiter
    requires parts[0] == [] || parts[0][0] !in MsgDelimiter
    requires var last := parts[|parts| - 1]; last == [] || last[|last| - 1] !in MsgDelimiter
    ensures Fields(pre + Join(parts, [EventParamsSeparator]) + post) == parts
  {
    var sep := EventParamsSeparator;
    JoinedEnds(parts, sep);
    TrimSurrounded(pre, Join(parts, [sep]), post, MsgDelimiter);
    forall k | 0 <= k < |parts| ensures !Contains(parts[k], [sep]) {
      ContainsByte(parts[k], sep);
    }
    SingleByteUnbordered(sep);
    SplitJoin(parts, [sep]);
  }

  /** A record without a separator is one field: the record, trimmed. */
  lemma {:induction false} FieldsWithoutSeparator(line: Bytes)
    requires EventParamsSeparator !in line
    ensures Fields(line) == [Trim(line, MsgDelimiter)]
  {
    var t := Trim(line, MsgDelimiter);
    var l := TrimLeft(line, MsgDelimiter);
    assert t == TrimRight(l, MsgDelimiter);
    assert EventParamsSeparator !in l;
    assert EventParamsSeparator !in t;
    SplitCount(t, EventParamsSeparator);
    CountByteAbsent(t, EventParamsSeparator);
  }

  /** incompleteEventMessage (event.go:246-248; inline at
      events_handler.go:100): the read buffer does not end with the delimiter
      and its last byte is not zero padding. It is applied to the whole
      buffer, not to the bytes the read returned. */
  predicate IncompleteEventMessage(socketBuffer: Bytes): (r: bool)
    requires 0 < |socketBuffer|
    ensures var n := |socketBuffer|;
      r <==> socketBuffer[n - 1] != NUL && !(2 <= n && socketBuffer[n - 2] == CR && socketBuffer[n - 1] == LF)
  {
    !HasSuffix(socketBuffer, MsgDelimiter) && socketBuffer[|socketBuffer| - 1] != NUL
  }

  /** backslashEndedEventMessage (event.go:250-252; inline at
      events_handler.go:101): the last two bytes are the delimiter. */
  predicate BackslashEndedEventMessage(data: Bytes): (r: bool)
    requires |MsgDelimiter| <= |data|
    ensures r <==> data[|data| - 2] == CR && data[|data| - 1] == LF
  {
    data[|data| - |MsgDelimiter|..] == MsgDelimiter
  }

  /** The records of one read, and the bytes carried to the next read. */
  datatype Framed = Framed(items: seq<Bytes>, carry: Bytes)

  /** The bytes one framing step works on: the carry, then what was read. */
  function Data(carry: Bytes, input: Bytes, readLen: nat): Bytes
    requires readLen <= |input|
  {
    carry + input[..readLen]
  }

  /** One framing step as the source writes it: split carry and read at
      every delimiter; if the buffer looks incomplete carry the last
      fragment, else if the data ends with the delimiter drop the empty last
      fragment, else keep every fragment. The source indexes the last byte of
      the buffer and the last two bytes of the data, so both must exist. */
  function Frame(carry: Bytes, input: Bytes, readLen: nat): (r: Framed)
    requires 0 < |input| && readLen <= |input| && |MsgDelimiter| <= |carry| + readLen
    ensures r.carry != [] ==> IncompleteEventMessage(input)
    ensures var fragments := Split(Data(carry, input, readLen), MsgDelimiter);
      |fragments| - 1 <= |r.items| <= |fragments| && r.items == fragments[..|r.items|]
  {
    var data := Data(carry, input, readLen);
    var items := Split(data, MsgDelimiter);
    var last := |items| - 1;
    if IncompleteEventMessage(input) then Framed(items[..last], items[last])
    else if BackslashEndedEventMessage(data) then Framed(items[..last], [])
    else Framed(items, [])
  }

  lemma {:induction false} DelimiterUnbordered()
    ensures Unbordered(MsgDelimiter)
  {
    assert MsgDelimiter[1..][0] != MsgDelimiter[..1][0];
  }

  /** A fragment free of the delimiter cannot follow the final delimiter
      of data that ends with one, unless it is empty. */
  lemma {:induction false} NothingAfterFinalDelimiter(prefix: Bytes, last: Bytes)
    requires !Contains(last, MsgDelimiter)
    requires HasSuffix(prefix + MsgDelimiter + last, MsgDelimiter)
    ensures last == []
  {
    var s := prefix + MsgDelimiter + last;
    assert 2 <= |last| ==> last[|last| - 2..] == s[|s| - 2..];
    assert 2 <= |last| ==> OccursAt(last, MsgDelimiter, |last| - 2);
    assert s[|s| - 2] == s[|s| - 2..][0] == CR;
    assert s[|prefix| + 1] == LF;
  }

  /** At least two fragments, the last of them empty. */
  predicate EndsWithEmpty(items: seq<Bytes>) {
    2 <= |items| && items[|items| - 1] == []
  }

  /** At least one fragment, the last of them not empty. */
  predicate LastNonEmpty(items: seq<Bytes>) {
    1 <= |items| && items[|items| - 1] != []
  }

  /** Data that ends with the delimiter splits into at least two fragments,
      the last of them empty. */
  lemma {:induction false} SplitEndingInDelimiter(data: Bytes)
    requires HasSuffix(data, MsgDelimiter)
    ensures EndsWithEmpty(Split(data, MsgDelimiter))
  {
    var items := Split(data, MsgDelimiter);
    var n := |items|;
    assert OccursAt(data, MsgDelimiter, |data| - 2);
    assert 2 <= n;
    SplitSound(data, MsgDelimiter);
    InitThenLast(items);
    JoinSnoc(items[..n - 1], items[n - 1], MsgDelimiter);
    NothingAfterFinalDelimiter(Join(items[..n - 1], MsgDelimiter), items[n - 1]);
  }

  /** Nothing is lost or added by a framing step: carried, the last fragment
      rejoins the records; dropped, it was the empty fragment after a final
      delimiter; otherwise the records are the whole data. Only an
      incomplete-looking buffer leaves a carry. */
  lemma {:induction false} FrameConserves(carry: Bytes, input: Bytes, readLen: nat)
    requires 0 < |input| && readLen <= |input| && |MsgDelimiter| <= |carry| + readLen
    ensures var r, data := Frame(carry, input, readLen), Data(carry, input, readLen);
      IncompleteEventMessage(input) ==> Join(r.items + [r.carry], MsgDelimiter) == data
    ensures var r, data := Frame(carry, input, readLen), Data(carry, input, readLen);
      !IncompleteEventMessage(input) ==> r.carry == []
    ensures var r, data := Frame(carry, input, readLen), Data(carry, input, readLen);
      !IncompleteEventMessage(input) && BackslashEndedEventMessage(data) ==>
        1 <= |r.items| && Join(r.items, MsgDelimiter) + MsgDelimiter == data
    ensures var r, data := Frame(carry, input, readLen), Data(carry, input, readLen);
      !IncompleteEventMessage(input) && !BackslashEndedEventMessage(data) ==>
        Join(r.items, MsgDelimiter) == data
  {
    var data := Data(carry, input, readLen);
    var items := Split(data, MsgDelimiter);
    var n := |items|;
    assert Join(items, MsgDelimiter) == data by {
      SplitSound(data, MsgDelimiter);
    }
    InitThenLast(items);
    if !IncompleteEventMessage(input) && BackslashEndedEventMessage(data) {
      SplitEndingInDelimiter(data);
      JoinSnoc(items[..n - 1], items[n - 1], MsgDelimiter);
    }
  }

  /** No fragment of the data holds the delimiter. */
  lemma {:induction false} SplitUndelimited(data: Bytes)
    ensures Undelimited(Split(data, MsgDelimiter))
  {
    SplitSound(data, MsgDelimiter);
  }

  /** Dropping the last of undelimited pieces leaves them undelimited, and
      the last one holds no delimiter either. */
  lemma {:induction false} InitUndelimited(items: seq<Bytes>)
    requires 1 <= |items| && Undelimited(items)
    ensures Undelimited(items[..|items| - 1]) && !Contains(items[|items| - 1], MsgDelimiter)
  {
    assert forall k :: 0 <= k < |items| - 1 ==> items[..|items| - 1][k] == items[k];
  }

  /** No record and no carry holds the delimiter. */
  lemma {:induction false} FrameUndelimited(carry: Bytes, input: Bytes, readLen: nat)
    requires 0 < |input| && readLen <= |input| && |MsgDelimiter| <= |carry| + readLen
    ensures var r := Frame(carry, input, readLen);
      !Contains(r.carry, MsgDelimiter) && Undelimited(r.items)
  {
    var items := Split(Data(carry, input, readLen), MsgDelimiter);
    SplitUndelimited(Data(carry, input, readLen));
    InitUndelimited(items);
    assert !Contains([], MsgDelimiter);
  }

  /** A buffer whose unread tail is zero padding never looks incomplete, so
      a short read never leaves a carry, whatever it ended with. */
  lemma {:induction false} ShortReadNeverCarries(carry: Bytes, input: Bytes, readLen: nat)
    requires readLen < |input| && |MsgDelimiter| <= |carry| + readLen
    requires forall k :: readLen <= k < |input| ==> input[k] == NUL
    ensures !IncompleteEventMessage(input)
    ensures Frame(carry, input, readLen).carry == []
  {
  }

  /** A buffer judged complete whose data does not end with the delimiter
      emits the unfinished record that the corrected step would carry
      (never empty) as a record of its own, and carries nothing. */
  lemma {:induction false} CompleteLookingEmitsFragment(carry: Bytes, input: Bytes, readLen: nat)
    requires 0 < |input| && readLen <= |input| && |MsgDelimiter| <= |carry| + readLen
    requires !IncompleteEventMessage(input) && !BackslashEndedEventMessage(Data(carry, input, readLen))
    ensures FrameCorrected(carry, input, readLen).carry != []
    ensures var c := FrameCorrected(carry, input, readLen);
      Frame(carry, input, readLen) == Framed(c.items + [c.carry], [])
  {
    var data := Data(carry, input, readLen);
    var items := Split(data, MsgDelimiter);
    var n := |items|;
    assert FrameCorrected(carry, input, readLen) == Framed(items[..n - 1], items[n - 1]);
    assert LastNonEmpty(items) by {
      LastFragmentNonEmpty(data);
    }
    assert Frame(carry, input, readLen) == Framed(items, []);
    InitThenLast(items);
  }

  /** The flaw a short read exposes: when the data does not end with the
      delimiter, the unfinished record that the corrected step would carry
      (never empty) is emitted as a record of its own, and nothing is
      carried, so the record's remainder arrives alone in the next read. */
  lemma {:induction false} ShortReadEmitsFragment(carry: Bytes, input: Bytes, readLen: nat)
    requires readLen < |input| && |MsgDelimiter| <= |carry| + readLen
    requires forall k :: readLen <= k < |input| ==> input[k] == NUL
    requires !BackslashEndedEventMessage(Data(carry, input, readLen))
    ensures FrameCorrected(carry, input, readLen).carry != []
    ensures var c := FrameCorrected(carry, input, readLen);
      Frame(carry, input, readLen) == Framed(c.items + [c.carry], [])
  {
    ShortReadNeverCarries(carry, input, readLen);
    CompleteLookingEmitsFragment(carry, input, readLen);
  }

  /** The same flaw on a full read whose last byte is zero: the buffer is
      judged complete, and the data, ending with that zero, never ends with
      the delimiter, so its unfinished last record is emitted too. */
  lemma {:induction false} ZeroEndedReadEmitsFragment(carry: Bytes, input: Bytes)
    requires 0 < |input| && input[|input| - 1] == NUL && |MsgDelimiter| <= |carry| + |input|
    ensures FrameCorrected(carry, input, |input|).carry != []
    ensures var c := FrameCorrected(carry, input, |input|);
      Frame(carry, input, |input|) == Framed(c.items + [c.carry], [])
  {
    var data := Data(carry, input, |input|);
    assert data[|data| - 1] == NUL;
    assert data[|data| - |MsgDelimiter|..][1] == data[|data| - 1];
    CompleteLookingEmitsFragment(carry, input, |input|);
  }

  lemma InitThenLast(items: seq<Bytes>)
    requires 1 <= |items|
    ensures items[..|items| - 1] + [items[|items| - 1]] == items
  {
  }

  /** Data that does not end with the delimiter splits into fragments whose
      last one is not empty. */
  lemma {:induction false} LastFragmentNonEmpty(data: Bytes)
    requires |MsgDelimiter| <= |data| && !BackslashEndedEventMessage(data)
    ensures LastNonEmpty(Split(data, MsgDelimiter))
  {
    var items := Split(data, MsgDelimiter);
    assert Join(items, MsgDelimiter) == data by {
      SplitSound(data, MsgDelimiter);
    }
    LastPieceNonEmpty(items, MsgDelimiter);
  }

  /** Pieces whose join does not end with the separator end with a
      non-empty piece. */
  lemma {:induction false} LastPieceNonEmpty(items: seq<Bytes>, sep: Bytes)
    requires 1 <= |items| && 0 < |sep|
    requires var s := Join(items, sep); |sep| <= |s| && s[|s| - |sep|..] != sep
    ensures LastNonEmpty(items)
  {
    var n := |items|;
    if n == 1 {
      assert Join(items, sep) == items[0];
    } else {
      assert items[..n - 1] + [items[n - 1]] == items;
      JoinSnoc(items[..n - 1], items[n - 1], sep);
    }
  }

  /** The framing the source's comments describe: a read that stops inside
      a record leaves that record's start in the carry, whatever the buffer
      holds past the read. The last fragment is always carried; it is empty
      when the data ends with the delimiter. */
  function FrameCorrected(carry: Bytes, input: Bytes, readLen: nat): Framed
    requires readLen <= |input|
  {
    var items := Split(Data(carry, input, readLen), MsgDelimiter);
    Framed(items[..|items| - 1], items[|items| - 1])
  }

  /** Terminated records followed by a carry are the join of both. */
  lemma {:induction false} TerminatedThenCarry(items: seq<Bytes>, carry: Bytes)
    ensures Terminated(items, MsgDelimiter) + carry == Join(items + [carry], MsgDelimiter)
  {
    if |items| > 0 {
      TerminatedJoin(items, MsgDelimiter);
      JoinSnoc(items, carry, MsgDelimiter);
    } else {
      assert items + [carry] == [carry];
    }
  }

  /** The corrected step emits whole records: each emitted record, followed
      by the delimiter, then the carry, is exactly the data. */
  lemma {:induction false} FrameCorrectedConserves(carry: Bytes, input: Bytes, readLen: nat)
    requires readLen <= |input|
    ensures var r := FrameCorrected(carry, input, readLen);
      Terminated(r.items, MsgDelimiter) + r.carry == Data(carry, input, readLen)
    ensures var r := FrameCorrected(carry, input, readLen);
      !Contains(r.carry, MsgDelimiter) && Undelimited(r.items)
  {
    var data := Data(carry, input, readLen);
    var items := Split(data, MsgDelimiter);
    var n := |items|;
    assert Join(items, MsgDelimiter) == data by {
      SplitSound(data, MsgDelimiter);
    }
    InitThenLast(items);
    TerminatedThenCarry(items[..n - 1], items[n - 1]);
    SplitUndelimited(data);
    InitUndelimited(items);
  }

  /** A read that ends with the delimiter leaves data that ends with it. */
  lemma {:induction false} DataEndsLikeRead(carry: Bytes, input: Bytes)
    requires HasSuffix(input, MsgDelimiter)
    ensures HasSuffix(Data(carry, input, |input|), MsgDelimiter)
  {
    var data := Data(carry, input, |input|);
    assert input[..|input|] == input;
    assert data[|data| - 2..] == input[|input| - 2..];
  }

  /** Where the data ends with the delimiter, dropping the empty last
      fragment and carrying it are the same. */
  lemma {:induction false} DelimitedDataFramesCorrectly(carry: Bytes, input: Bytes)
    requires |MsgDelimiter| <= |carry| + |input| && 0 < |input|
    requires HasSuffix(input, MsgDelimiter) && HasSuffix(Data(carry, input, |input|), MsgDelimiter)
    ensures Frame(carry, input, |input|) == FrameCorrected(carry, input, |input|)
  {
    var data := Data(carry, input, |input|);
    SplitEndingInDelimiter(data);
    var items := Split(data, MsgDelimiter);
    assert Frame(carry, input, |input|) == Framed(items[..|items| - 1], []);
  }

  /** When a read fills its buffer and its last byte is not zero, the
      source's framing is the corrected one: the flaw is confined to reads
      that leave the buffer's last byte zero, every short read and a full
      read ending with a zero byte (ZeroEndedReadEmitsFragment). */
  lemma {:induction false} FullReadsFrameCorrectly(carry: Bytes, input: Bytes)
    requires |MsgDelimiter| <= |carry| + |input| && 0 < |input|
    requires input[|input| - 1] != NUL
    ensures Frame(carry, input, |input|) == FrameCorrected(carry, input, |input|)
  {
    if HasSuffix(input, MsgDelimiter) {
      DataEndsLikeRead(carry, input);
      DelimitedDataFramesCorrectly(carry, input);
    }
  }

  /** All the bytes of successive reads. */
  function Concat(chunks: seq<Bytes>): Bytes {
    if |chunks| == 0 then [] else chunks[0] + Concat(chunks[1..])
  }

  /** Successive reads, each returning a whole chunk, fed through the
      corrected framing. */
  function FeedCorrected(carry: Bytes, chunks: seq<Bytes>): Framed
    decreases |chunks|
  {
    if |chunks| == 0 then Framed([], carry)
    else
      var first := FrameCorrected(carry, chunks[0], |chunks[0]|);
      var rest := FeedCorrected(first.carry, chunks[1..]);
      Framed(first.items + rest.items, rest.carry)
  }

  /** No piece holds the delimiter. */
  predicate Undelimited(parts: seq<Bytes>) {
    forall k :: 0 <= k < |parts| ==> !Contains(parts[k], MsgDelimiter)
  }

  lemma {:induction false} UndelimitedAppend(a: seq<Bytes>, b: seq<Bytes>)
    requires Undelimited(a) && Undelimited(b)
    ensures Undelimited(a + b)
  {
    forall k | 0 <= k < |a + b| ensures !Contains((a + b)[k], MsgDelimiter) {
      if k >= |a| {
        assert (a + b)[k] == b[k - |a|];
      } else {
        assert (a + b)[k] == a[k];
      }
    }
  }

  /** The byte accounting of one step of a feed. */
  lemma ConcatenationStep(t1: Bytes, c1: Bytes, t2: Bytes, c2: Bytes, carry: Bytes, c: Bytes, rest: Bytes)
    requires t1 + c1 == carry + c && t2 + c2 == c1 + rest
    ensures t1 + t2 + c2 == carry + (c + rest)
  {
    calc {
      t1 + t2 + c2;
      t1 + (t2 + c2);
      t1 + c1 + rest;
    }
  }

  /** Over any sequence of reads, the emitted records, each followed by the
      delimiter, then the final carry, are exactly the initial carry and
      every byte read; no record and no carry holds the delimiter. */
  lemma {:induction false} FeedConserves(carry: Bytes, chunks: seq<Bytes>)
    requires !Contains(carry, MsgDelimiter)
    ensures var r := FeedCorrected(carry, chunks);
      Terminated(r.items, MsgDelimiter) + r.carry == carry + Concat(chunks)
    ensures var r := FeedCorrected(carry, chunks);
      Undelimited(r.items + [r.carry])
    decreases |chunks|
  {
    if |chunks| == 0 {
      assert carry + Concat(chunks) == carry;
      assert [carry][0] == carry;
    } else {
      var c := chunks[0];
      var first := FrameCorrected(carry, c, |c|);
      var rest := FeedCorrected(first.carry, chunks[1..]);
      assert FeedCorrected(carry, chunks) == Framed(first.items + rest.items, rest.carry);
      FrameCorrectedConserves(carry, c, |c|);
      assert Data(carry, c, |c|) == carry + c;
      FeedConserves(first.carry, chunks[1..]);
      TerminatedAppend(first.items, rest.items, MsgDelimiter);
      assert Concat(chunks) == c + Concat(chunks[1..]);
      ConcatenationStep(Terminated(first.items, MsgDelimiter), first.carry,
        Terminated(rest.items, MsgDelimiter), rest.carry, carry, c, Concat(chunks[1..]));
      assert first.items + rest.items + [rest.carry] == first.items + (rest.items + [rest.carry]);
      UndelimitedAppend(first.items, rest.items + [rest.carry]);
    }
  }

  /** Joining undelimited pieces loses nothing: equal joins come from equal
      piece lists. */
  lemma {:induction false} JoinInjective(a: seq<Bytes>, b: seq<Bytes>)
    requires 1 <= |a| && 1 <= |b| && Undelimited(a) && Undelimited(b)
    requires Join(a, MsgDelimiter) == Join(b, MsgDelimiter)
    ensures a == b
  {
    DelimiterUnbordered();
    SplitJoin(a, MsgDelimiter);
    SplitJoin(b, MsgDelimiter);
  }

  /** The guarantee a sender relies on: however a stream of delimited
      records is cut into reads, the corrected framing emits exactly those
      records, in order, each once, and carries nothing at the end. */
  lemma {:induction false} StreamReassembled(chunks: seq<Bytes>, records: seq<Bytes>)
    requires Undelimited(records)
    requires Concat(chunks) == Terminated(records, MsgDelimiter)
    ensures FeedCorrected([], chunks) == Framed(records, [])
  {
    var r := FeedCorrected([], chunks);
    assert !Contains([], MsgDelimiter);
    FeedConserves([], chunks);
    assert Join(r.items + [r.carry], MsgDelimiter) == Join(records + [[]], MsgDelimiter) by {
      assert [] + Concat(chunks) == Concat(chunks);
      TerminatedThenCarry(r.items, r.carry);
      TerminatedThenCarry(records, []);
      assert Terminated(records, MsgDelimiter) + [] == Terminated(records, MsgDelimiter);
    }
    assert Undelimited(records + [[]]) by {
      var empty: seq<Bytes> := [[]];
      assert !Contains(empty[0], MsgDelimiter);
      UndelimitedAppend(records, [[]]);
    }
    JoinInjective(r.items + [r.carry], records + [[]]);
    SnocInjective(r.items, r.carry, records, []);
  }

  /** Appending one piece is injective. */
  lemma SnocInjective(a: seq<Bytes>, x: Bytes, b: seq<Bytes>, y: Bytes)
    requires a + [x] == b + [y]
    ensures a == b && x == y
  {
    assert a == (a + [x])[..|a|];
    assert b == (b + [y])[..|b|];
  }
}
