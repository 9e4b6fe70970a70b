/** The parts of Go's `strings` and `bytes` packages that the core relies on:
    searching, splitting, joining and trimming byte strings. */
module Strings {
  import opened Constants

  /** `sep` occurs in `s` starting at position `j`. */
  predicate OccursAt(s: Bytes, sep: Bytes, j: nat) {
    j + |sep| <= |s| && s[j..j + |sep|] == sep
  }

  /** strings.Contains */
  predicate Contains(s: Bytes, sep: Bytes) {
    exists j: nat | j <= |s| :: OccursAt(s, sep, j)
  }

  /** bytes.HasSuffix */
  predicate HasSuffix(s: Bytes, suffix: Bytes): (r: bool)
    ensures r <==> |suffix| <= |s| && forall k :: 0 <= k < |suffix| ==> s[|s| - |suffix| + k] == suffix[k]
  {
    |suffix| <= |s| && s[|s| - |suffix|..] == suffix
  }

  /** No proper suffix of `sep` is also a prefix of it, so two occurrences of
      `sep` can never overlap. Every single byte is unbordered, and so is
      MsgDelimiter ("\r\n"). */
  predicate Unbordered(sep: Bytes) {
    forall d :: 0 < d < |sep| ==> sep[d..] != sep[..|sep| - d]
  }

  /** The leftmost occurrence of `sep` at or after position `k`, or -1. */
  function IndexFrom(s: Bytes, sep: Bytes, k: nat): (i: int)
    requires k <= |s|
    ensures i == -1 || (k <= i && OccursAt(s, sep, i))
    ensures forall j: nat :: k <= j && (i == -1 || j < i) ==> !OccursAt(s, sep, j)
    decreases |s| - k
  {
    if k + |sep| > |s| then -1
    else if s[k..k + |sep|] == sep then k
    else IndexFrom(s, sep, k + 1)
  }

  /** strings.Index: the leftmost occurrence of `sep` in `s`, or -1. */
  function Index(s: Bytes, sep: Bytes): (i: int)
    ensures -1 <= i
    ensures i == -1 <==> !Contains(s, sep)
    ensures 0 <= i ==> OccursAt(s, sep, i) && forall j: nat :: j < i ==> !OccursAt(s, sep, j)
  {
    IndexFrom(s, sep, 0)
  }

  /** strings.Join */
  function Join(parts: seq<Bytes>, sep: Bytes): Bytes {
    if |parts| == 0 then []
    else if |parts| == 1 then parts[0]
    else parts[0] + sep + Join(parts[1..], sep)
  }

  /** Every part followed by `sep`: what a sender writes for a list of records. */
  function Terminated(parts: seq<Bytes>, sep: Bytes): Bytes {
    if |parts| == 0 then [] else parts[0] + sep + Terminated(parts[1..], sep)
  }

  /** A prefix that ends before the leftmost occurrence of `sep` holds no occurrence. */
  lemma PrefixBeforeLeftmost(s: Bytes, sep: Bytes, i: nat)
    requires 0 < |sep| && i <= |s|
    requires forall j: nat :: j < i ==> !OccursAt(s, sep, j)
    ensures !Contains(s[..i], sep)
  {
    forall j: nat | OccursAt(s[..i], sep, j) ensures OccursAt(s, sep, j) {
      assert s[..i][j..j + |sep|] == s[j..j + |sep|];
    }
  }

  /** strings.Split for a non-empty separator: the pieces between successive
      leftmost occurrences of `sep`. What the pieces say about `s` is
      SplitSound. */
  function Split(s: Bytes, sep: Bytes): (parts: seq<Bytes>)
    requires 0 < |sep|
    ensures 1 <= |parts|
    decreases |s|
  {
    var i := Index(s, sep);
    if i == -1 then
      [s]
    else
      [s[..i]] + Split(s[i + |sep|..], sep)
  }

  /** Joining the pieces of Split back gives `s`, and no piece holds the
      separator. */
  lemma {:induction false} SplitSound(s: Bytes, sep: Bytes)
    requires 0 < |sep|
    ensures Join(Split(s, sep), sep) == s
    ensures forall k :: 0 <= k < |Split(s, sep)| ==> !Contains(Split(s, sep)[k], sep)
    decreases |s|
  {
    var i := Index(s, sep);
    if i != -1 {
      var rest := s[i + |sep|..];
      assert Split(s, sep) == [s[..i]] + Split(rest, sep);
      SplitSound(rest, sep);
      JoinStep(s, sep, i, Split(rest, sep));
      FreeStep(s, sep, i, Split(rest, sep));
    }
  }

  /** One step of Split, joined: the piece before an occurrence of `sep`,
      then pieces that join to what follows it, join to `s`. */
  lemma JoinStep(s: Bytes, sep: Bytes, i: nat, rest: seq<Bytes>)
    requires OccursAt(s, sep, i)
    requires 1 <= |rest| && Join(rest, sep) == s[i + |sep|..]
    ensures Join([s[..i]] + rest, sep) == s
  {
    JoinCons(s[..i], rest, sep);
    AroundOccurrence(s, sep, i);
  }

  /** Joining a piece in front of others puts `sep` between them. */
  lemma JoinCons(p: Bytes, rest: seq<Bytes>, sep: Bytes)
    requires 1 <= |rest|
    ensures Join([p] + rest, sep) == p + sep + Join(rest, sep)
  {
    assert ([p] + rest)[1..] == rest;
  }

  /** `s` is what precedes an occurrence of `sep`, `sep`, and what follows. */
  lemma AroundOccurrence(s: Bytes, sep: Bytes, i: nat)
    requires OccursAt(s, sep, i)
    ensures s == s[..i] + sep + s[i + |sep|..]
  {
    assert s == s[..i] + s[i..i + |sep|] + s[i + |sep|..];
  }

  /** One step of Split, piece by piece: the piece before the leftmost
      occurrence of `sep` holds none, and neither do the pieces after it. */
  lemma FreeStep(s: Bytes, sep: Bytes, i: nat, rest: seq<Bytes>)
    requires 0 < |sep| && i <= |s|
    requires forall j: nat :: j < i ==> !OccursAt(s, sep, j)
    requires forall k :: 0 <= k < |rest| ==> !Contains(rest[k], sep)
    ensures forall k :: 0 <= k < |rest| + 1 ==> !Contains(([s[..i]] + rest)[k], sep)
  {
    PrefixBeforeLeftmost(s, sep, i);
  }

  /** After a piece free of an unbordered `sep`, the leftmost occurrence is
      the one that follows the piece. */
  lemma IndexAfterFreePiece(p: Bytes, sep: Bytes, rest: Bytes)
    requires 0 < |sep| && Unbordered(sep) && !Contains(p, sep)
    ensures Index(p + sep + rest, sep) == |p|
  {
    var w := p + sep + rest;
    assert w[|p|..|p| + |sep|] == sep;
    assert OccursAt(w, sep, |p|);
    forall j: nat | j < |p| ensures !OccursAt(w, sep, j) {
      if j + |sep| <= |p| {
        assert w[j..j + |sep|] == p[j..j + |sep|];
        assert !OccursAt(p, sep, j);
      } else if j + |sep| <= |w| {
        var d := |p| - j;
        assert w[j..j + |sep|][d..] == sep[..|sep| - d];
        assert sep[d..] != sep[..|sep| - d];
      }
    }
  }

  /** The converse of Split's contract: splitting the join of pieces that are
      free of an unbordered separator gives the pieces back. */
  lemma {:induction false} SplitJoin(parts: seq<Bytes>, sep: Bytes)
    requires 0 < |sep| && Unbordered(sep) && 1 <= |parts|
    requires forall k :: 0 <= k < |parts| ==> !Contains(parts[k], sep)
    ensures Split(Join(parts, sep), sep) == parts
    decreases |parts|
  {
    if |parts| > 1 {
      var p, rest := parts[0], Join(parts[1..], sep);
      IndexAfterFreePiece(p, sep, rest);
      assert (p + sep + rest)[..|p|] == p;
      assert (p + sep + rest)[|p| + |sep|..] == rest;
      SplitJoin(parts[1..], sep);
      assert parts == [p] + parts[1..];
    }
  }

  /** Appending one piece to a join. */
  lemma {:induction false} JoinSnoc(parts: seq<Bytes>, p: Bytes, sep: Bytes)
    requires 1 <= |parts|
    ensures Join(parts + [p], sep) == Join(parts, sep) + sep + p
    decreases |parts|
  {
    if |parts| > 1 {
      assert (parts + [p])[1..] == parts[1..] + [p];
      JoinSnoc(parts[1..], p, sep);
    }
  }

  /** Terminating every piece is joining them and terminating the last one. */
  lemma {:induction false} TerminatedJoin(parts: seq<Bytes>, sep: Bytes)
    requires 1 <= |parts|
    ensures Terminated(parts, sep) == Join(parts, sep) + sep
    decreases |parts|
  {
    if |parts| > 1 {
      TerminatedJoin(parts[1..], sep);
    }
  }

  /** Terminating distributes over concatenation of piece lists. */
  lemma {:induction false} TerminatedAppend(a: seq<Bytes>, b: seq<Bytes>, sep: Bytes)
    ensures Terminated(a + b, sep) == Terminated(a, sep) + Terminated(b, sep)
    decreases |a|
  {
    if |a| > 0 {
      assert (a + b)[1..] == a[1..] + b;
      TerminatedAppend(a[1..], b, sep);
      calc {
        Terminated(a + b, sep);
        a[0] + sep + Terminated(a[1..] + b, sep);
        a[0] + sep + (Terminated(a[1..], sep) + Terminated(b, sep));
        (a[0] + sep + Terminated(a[1..], sep)) + Terminated(b, sep);
      }
    } else {
      assert a + b == b;
    }
  }

  /** A one-byte separator never overlaps itself. */
  lemma SingleByteUnbordered(b: Byte)
    ensures Unbordered([b])
  {
  }

  /** A piece contains a one-byte separator exactly when it holds that byte. */
  lemma ContainsByte(s: Bytes, b: Byte)
    ensures Contains(s, [b]) <==> b in s
  {
    if b in s {
      var j :| 0 <= j < |s| && s[j] == b;
      assert OccursAt(s, [b], j);
    }
    forall j: nat | OccursAt(s, [b], j) ensures b in s {
      assert s[j] == s[j..j + 1][0];
    }
  }

  /** Pieces split at a one-byte separator do not hold that byte. */
  lemma SplitOnByte(s: Bytes, b: Byte)
    ensures forall k :: 0 <= k < |Split(s, [b])| ==> b !in Split(s, [b])[k]
  {
    SplitSound(s, [b]);
    var parts := Split(s, [b]);
    forall k | 0 <= k < |parts| ensures b !in parts[k] {
      ContainsByte(parts[k], b);
    }
  }

  /** Split at a byte absent from `s` gives `s` alone; otherwise at least
      two pieces, the first being what precedes the first occurrence. */
  lemma {:induction false} FirstPiece(s: Bytes, b: Byte)
    ensures var i := Index(s, [b]);
      (i < 0 ==> Split(s, [b]) == [s]) &&
      (0 <= i ==> 2 <= |Split(s, [b])| && Split(s, [b])[0] == s[..i])
  {
    var i := Index(s, [b]);
    if 0 <= i {
      assert Split(s, [b]) == [s[..i]] + Split(s[i + 1..], [b]);
    }
  }

  /** strings.TrimLeft: drop the leading bytes that belong to `cutset`. */
  function TrimLeft(s: Bytes, cutset: Bytes): (r: Bytes)
    ensures |r| <= |s| && r == s[|s| - |r|..]
    ensures forall k :: 0 <= k < |s| - |r| ==> s[k] in cutset
    ensures r == [] || r[0] !in cutset
    decreases |s|
  {
    if |s| > 0 && s[0] in cutset then TrimLeft(s[1..], cutset) else s
  }

  /** strings.TrimRight: drop the trailing bytes that belong to `cutset`. */
  function TrimRight(s: Bytes, cutset: Bytes): (r: Bytes)
    ensures |r| <= |s| && r == s[..|r|]
    ensures forall k :: |r| <= k < |s| ==> s[k] in cutset
    ensures r == [] || r[|r| - 1] !in cutset
    decreases |s|
  {
    if |s| > 0 && s[|s| - 1] in cutset then TrimRight(s[..|s| - 1], cutset) else s
  }

  /** strings.Trim: drop leading and trailing bytes that belong to `cutset`. */
  function Trim(s: Bytes, cutset: Bytes): (r: Bytes)
    ensures |r| <= |s|
    ensures r == [] || (r[0] !in cutset && r[|r| - 1] !in cutset)
  {
    TrimRight(TrimLeft(s, cutset), cutset)
  }

  /** Trimming removes exactly a run of cutset bytes in front of a piece that
      does not start with one. */
  lemma {:induction false} TrimLeftRun(pre: Bytes, x: Bytes, cutset: Bytes)
    requires forall k :: 0 <= k < |pre| ==> pre[k] in cutset
    requires x == [] || x[0] !in cutset
    ensures TrimLeft(pre + x, cutset) == x
    decreases |pre|
  {
    if |pre| > 0 {
      assert (pre + x)[1..] == pre[1..] + x;
      TrimLeftRun(pre[1..], x, cutset);
    }
  }

  /** Trimming removes exactly a run of cutset bytes behind a piece that does
      not end with one. */
  lemma {:induction false} TrimRightRun(x: Bytes, post: Bytes, cutset: Bytes)
    requires forall k :: 0 <= k < |post| ==> post[k] in cutset
    requires x == [] || x[|x| - 1] !in cutset
    ensures TrimRight(x + post, cutset) == x
    decreases |post|
  {
    if |post| > 0 {
      var last := |post| - 1;
      assert (x + post)[..|x + post| - 1] == x + post[..last];
      TrimRightRun(x, post[..last], cutset);
    } else {
      assert x + post == x;
    }
  }

  /** Trim gives back a piece surrounded by cutset bytes, when the piece
      neither starts nor ends with one. */
  lemma TrimSurrounded(pre: Bytes, x: Bytes, post: Bytes, cutset: Bytes)
    requires forall k :: 0 <= k < |pre| ==> pre[k] in cutset
    requires forall k :: 0 <= k < |post| ==> post[k] in cutset
    requires x != [] && x[0] !in cutset && x[|x| - 1] !in cutset
    ensures Trim(pre + x + post, cutset) == x
  {
    assert pre + x + post == pre + (x + post);
    TrimLeftRun(pre, x + post, cutset);
    TrimRightRun(x, post, cutset);
  }

  /** How many times byte `b` occurs in `s`. */
  function CountByte(s: Bytes, b: Byte): nat
    decreases |s|
  {
    if |s| == 0 then 0 else (if s[0] == b then 1 else 0) + CountByte(s[1..], b)
  }

  lemma {:induction false} CountByteAbsent(s: Bytes, b: Byte)
    ensures b !in s <==> CountByte(s, b) == 0
    decreases |s|
  {
    if |s| > 0 {
      CountByteAbsent(s[1..], b);
      assert s == [s[0]] + s[1..];
    }
  }

  lemma {:induction false} CountByteAppend(a: Bytes, c: Bytes, b: Byte)
    ensures CountByte(a + c, b) == CountByte(a, b) + CountByte(c, b)
    decreases |a|
  {
    if |a| > 0 {
      assert (a + c)[1..] == a[1..] + c;
      CountByteAppend(a[1..], c, b);
    } else {
      assert a + c == c;
    }
  }

  /** Splitting at a one-byte separator gives one piece more than there are
      separators. */
  lemma {:induction false} SplitCount(s: Bytes, b: Byte)
    ensures |Split(s, [b])| == CountByte(s, b) + 1
    decreases |s|
  {
    var i := Index(s, [b]);
    if i == -1 {
      assert CountByte(s, b) == 0 by {
        ContainsByte(s, b);
        CountByteAbsent(s, b);
      }
    } else {
      SplitCount(s[i + 1..], b);
      SplitCountStep(s, b, i);
    }
  }

  /** The count grows by one with each leftmost separator Split consumes. */
  lemma SplitCountStep(s: Bytes, b: Byte, i: nat)
    requires Index(s, [b]) == i
    requires |Split(s[i + 1..], [b])| == CountByte(s[i + 1..], b) + 1
    ensures |Split(s, [b])| == CountByte(s, b) + 1
  {
    var rest := s[i + 1..];
    assert Split(s, [b]) == [s[..i]] + Split(rest, [b]);
    assert |Split(s, [b])| == CountByte(rest, b) + 2;
    CountAtLeftmost(s, b, i);
  }

  /** The leftmost `b` is the first one counted. */
  lemma CountAtLeftmost(s: Bytes, b: Byte, i: nat)
    requires OccursAt(s, [b], i) && forall j: nat :: j < i ==> !OccursAt(s, [b], j)
    ensures CountByte(s, b) == CountByte(s[i + 1..], b) + 1
  {
    var rest := s[i + 1..];
    PrefixBeforeLeftmost(s, [b], i);
    ContainsByte(s[..i], b);
    CountByteAbsent(s[..i], b);
    assert s[i..i + 1][0] == s[i];
    assert s == s[..i] + ([b] + rest);
    CountByteAppend(s[..i], [b] + rest, b);
    CountByteAppend([b], rest, b);
  }
}
