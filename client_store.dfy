/** client_store.go: the registration of a client under the id it sends
    first. The accept loop, goroutines, deadlines, logging and the mutex
    around the map are not part of this model; the connection is a value of
    any type, and the result of the one socket read is a parameter. */
module ClientStores {
  import opened Constants
  import opened Strings

  /** bufio.MaxScanTokenSize: the longest line a Scanner can return. */
  const MaxScanTokenSize: nat := 65536

  /** What the single `conn.Read(buf)` produced: the bytes read, or an error. */
  datatype ReadResult = Received(data: Bytes) | ReadError

  /** The registration buffer after a read of `data`: `make` zeroes it and
      the read fills its front. */
  function Padded(data: Bytes, bufSize: nat): (buf: Bytes)
    requires |data| <= bufSize
    ensures |buf| == bufSize && buf[..|data|] == data
    ensures forall k :: |data| <= k < bufSize ==> buf[k] == NUL
  {
    data + seq(bufSize - |data|, _ => NUL)
  }

  /** bufio's dropCR: one trailing CR is removed. */
  function DropCR(s: Bytes): Bytes {
    if |s| > 0 && s[|s| - 1] == CR then s[..|s| - 1] else s
  }

  /** A first line that bufio.Scanner can hold ends inside its largest
      buffer; a longer one makes Scan fail with ErrTooLong. */
  lemma {:induction false} NoNewlineBefore(buf: Bytes, i: nat)
    requires i <= |buf|
    requires forall j: nat :: j < i ==> !OccursAt(buf, [LF], j)
    ensures LF !in buf[..i]
  {
    PrefixBeforeLeftmost(buf, [LF], i);
    ContainsByte(buf[..i], LF);
  }

  /** The text of the first token a bufio.Scanner split by ScanLines reads
      from `buf`: the bytes before the first LF without a trailing CR, or
      the whole input without a trailing CR when there is no LF. When the
      line does not fit in MaxScanTokenSize bytes, Scan fails and the text
      is empty. The id never holds an LF and is always a prefix of the
      buffer. */
  function ScanFirstLine(buf: Bytes): (id: Bytes)
    ensures LF !in id && |id| <= |buf| && id == buf[..|id|]
  {
    var i := Index(buf, [LF]);
    if 0 <= i < MaxScanTokenSize then
      NoNewlineBefore(buf, i);
      DropCR(buf[..i])
    else if i < 0 && |buf| < MaxScanTokenSize then
      ContainsByte(buf, LF);
      DropCR(buf)
    else
      []
  }

  /** The id HandleClient reads from a registration message `data`. */
  function ClientId(data: Bytes, bufSize: nat): (id: Bytes)
    requires |data| <= bufSize
    ensures LF !in id && |id| <= bufSize
  {
    ScanFirstLine(Padded(data, bufSize))
  }

  /** `Container[id] = conn`: the id now maps to `conn`, every other key
      keeps its connection, and no key is removed. */
  function Register<Conn>(container: map<Bytes, Conn>, id: Bytes, conn: Conn): (r: map<Bytes, Conn>)
    ensures r.Keys == container.Keys + {id}
    ensures r[id] == conn
    ensures forall k :: k in container && k != id ==> r[k] == container[k]
  {
    container[id := conn]
  }

  /** A line ended by LF gives its text without a trailing CR, whatever
      follows it. */
  lemma {:induction false} LineBeforeNewline(line: Bytes, rest: Bytes)
    requires LF !in line && |line| < MaxScanTokenSize
    ensures ScanFirstLine(line + [LF] + rest) == DropCR(line)
  {
    ContainsByte(line, LF);
    SingleByteUnbordered(LF);
    IndexAfterFreePiece(line, [LF], rest);
    assert (line + [LF] + rest)[..|line|] == line;
  }

  /** A client that sends its id followed by CRLF is registered under
      exactly that id. */
  lemma {:induction false} IdFollowedByDelimiter(id: Bytes, rest: Bytes)
    requires LF !in id && CR !in id && |id| + 1 < MaxScanTokenSize
    ensures ScanFirstLine(id + MsgDelimiter + rest) == id
  {
    assert id + MsgDelimiter + rest == (id + [CR]) + [LF] + rest;
    LineBeforeNewline(id + [CR], rest);
    assert (id + [CR])[..|id|] == id;
  }

  /** The id is not checked: an empty first line registers the empty id. */
  lemma {:induction false} EmptyLineRegistersEmptyId(rest: Bytes)
    ensures ScanFirstLine([LF] + rest) == []
    ensures ScanFirstLine(MsgDelimiter + rest) == []
  {
    LineBeforeNewline([], rest);
    assert [LF] + rest == [] + [LF] + rest;
    LineBeforeNewline([CR], rest);
    assert MsgDelimiter + rest == [CR] + [LF] + rest;
  }

  /** A message without a newline that leaves part of the buffer unread is
      registered with the zero padding in its id: the whole buffer. */
  lemma {:induction false} NoNewlineKeepsPadding(data: Bytes, bufSize: nat)
    requires LF !in data && |data| < bufSize < MaxScanTokenSize
    ensures ClientId(data, bufSize) == Padded(data, bufSize)
  {
    var buf := Padded(data, bufSize);
    assert LF !in buf by {
      forall k | 0 <= k < |buf| ensures buf[k] != LF {
        if k < |data| {
          assert buf[k] == buf[..|data|][k];
        }
      }
    }
    ContainsByte(buf, LF);
    assert buf[bufSize - 1] == NUL;
  }

  /** A first line longer than the Scanner can hold registers the empty id. */
  lemma {:induction false} OverlongLineRegistersEmptyId(buf: Bytes)
    requires MaxScanTokenSize <= |buf| && LF !in buf[..MaxScanTokenSize]
    ensures ScanFirstLine(buf) == []
  {
    ContainsByte(buf[..MaxScanTokenSize], LF);
  }

  /** Registering the same id twice keeps the second connection only. */
  lemma LastWriteWins<Conn>(container: map<Bytes, Conn>, id: Bytes, first: Conn, second: Conn)
    ensures Register(Register(container, id, first), id, second) == Register(container, id, second)
  {
  }

  class ClientStore<Conn> {
    var Container: map<Bytes, Conn>

    /** NewClientStore (client_store.go:25-30): no client is registered. */
    constructor ()
      ensures Container == map[]
    {
      Container := map[];
    }

    /** HandleClient (client_store.go:102-127): a zeroed buffer of
        `bufSize` bytes receives one read. On a read error nothing is
        registered. Otherwise the first line of the WHOLE buffer, the
        padding included, becomes the id, and `conn` is stored under it,
        replacing any connection registered under the same id. */
    method HandleClient(conn: Conn, bufSize: nat, read: ReadResult)
      requires read.Received? ==> |read.data| <= bufSize
      modifies this
      ensures read.ReadError? ==> Container == old(Container)
      ensures read.Received? ==> Container == Register(old(Container), ClientId(read.data, bufSize), conn)
    {
      var buf := new Byte[bufSize](_ => NUL);
      if read.ReadError? {
        return;
      }
      var data := read.data;
      forall k | 0 <= k < |data| {
        buf[k] := data[k];
      }
      assert buf[..] == Padded(data, bufSize);
      var id := ScanFirstLine(buf[..]);
      Container := Container[id := conn];
    }
  }
}
