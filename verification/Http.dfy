/** The hand-written HTTP exchange between the management client and the daemon. */
module Http {
  import opened Domain
  import Text
  import Utf8

  const MAX_HEADER_SIZE: nat := 64 * 1024
  const MAX_BODY_SIZE: nat := 4 * 1024 * 1024
  const CHUNK_SIZE: nat := 1024
  const USIZE_MAX: nat := U64_MAX
  const POSTCARD := "application/postcard"

  type Bytes = seq<uint8>

  // ---- Finding the end of a head ----

  /** CR LF CR LF stands at `q`. */
  predicate EndsHead(bs: Bytes, q: nat) {
    q + 4 <= |bs| && bs[q] == 13 && bs[q + 1] == 10 && bs[q + 2] == 13 && bs[q + 3] == 10
  }

  /** Where the first blank line starts: the first CR LF CR LF. */
  function Terminator(bs: Bytes): (r: Option<nat>)
    ensures r.None? ==> forall q :: !EndsHead(bs, q)
    ensures r.Some? ==> EndsHead(bs, r.value) && forall q :: 0 <= q < r.value ==> !EndsHead(bs, q)
  {
    if |bs| < 4 then None
    else if EndsHead(bs, 0) then Some(0)
    else
      assert forall q: nat :: q >= 1 && EndsHead(bs, q) ==> EndsHead(bs[1..], q - 1);
      match Terminator(bs[1..])
      case None => None
      case Some(p) => Some(p + 1)
  }

  lemma {:induction false} TerminatorIs(bs: Bytes, p: nat)
    requires EndsHead(bs, p) && forall q :: 0 <= q < p ==> !EndsHead(bs, q)
    ensures Terminator(bs) == Some(p)
  {
  }

  /** More bytes do not move a terminator that is there, and only complete one that is not. */
  lemma {:induction false} TerminatorOfPrefix(bs: Bytes, rest: Bytes)
    ensures Terminator(bs).Some? ==> Terminator(bs + rest) == Terminator(bs)
    ensures Terminator(bs).None? && Terminator(bs + rest).Some? ==> Terminator(bs + rest).value + 4 > |bs|
  {
    assert forall q: nat :: q + 4 <= |bs| ==> (EndsHead(bs + rest, q) <==> EndsHead(bs, q));
    if Terminator(bs).Some? {
      TerminatorIs(bs + rest, Terminator(bs).value);
    }
  }

  // ---- Heads ----

  function HeadText(lines: seq<string>): string {
    if lines == [] then "\r\n" else lines[0] + "\r\n" + HeadText(lines[1..])
  }

  predicate IsHeadLine(line: string) {
    line != "" && '\r' !in line
  }

  /** `split("\r\n")`. */
  function SplitLines(s: string): (lines: seq<string>)
    ensures |lines| >= 1
    decreases |s|
  {
    if s == "" then [""]
    else if |s| >= 2 && s[0] == '\r' && s[1] == '\n' then [""] + SplitLines(s[2..])
    else
      var rest := SplitLines(s[1..]);
      [[s[0]] + rest[0]] + rest[1..]
  }

  lemma {:induction false} SplitFirstLine(line: string, rest: string)
    requires '\r' !in line
    ensures SplitLines(line + "\r\n" + rest) == [line] + SplitLines(rest)
  {
    var s := line + "\r\n" + rest;
    if line == "" {
      assert s[2..] == rest;
    } else {
      assert line[0] in line;
      SplitFirstLine(line[1..], rest);
      assert s[1..] == line[1..] + "\r\n" + rest;
      assert line == [line[0]] + line[1..];
    }
  }

  lemma {:induction false} SplitHead(lines: seq<string>)
    requires forall line :: line in lines ==> IsHeadLine(line)
    ensures SplitLines(HeadText(lines)) == lines + ["", ""]
  {
    if lines == [] {
      assert "\r\n"[2..] == "";
    } else {
      assert IsHeadLine(lines[0]);
      SplitHead(lines[1..]);
      SplitFirstLine(lines[0], HeadText(lines[1..]));
      assert lines == [lines[0]] + lines[1..];
    }
  }

  /** In the bytes of a head of non-empty lines, whatever follows, the terminator is its last four. */
  lemma {:induction false} HeadEndsAtTerminator(lines: seq<string>, rest: Bytes)
    requires lines != [] && forall line :: line in lines ==> IsHeadLine(line)
    ensures |Utf8.Encode(HeadText(lines))| >= 4
    ensures Terminator(Utf8.Encode(HeadText(lines)) + rest) == Some(|Utf8.Encode(HeadText(lines))| - 4)
  {
    assert IsHeadLine(lines[0]);
    if |lines| == 1 {
      OneLineEnds(lines, rest);
    } else {
      HeadEndsAtTerminator(lines[1..], rest);
      assert lines[1] in lines;
      MoreLinesEnd(lines, rest);
    }
  }

  lemma {:induction false} MoreLinesEnd(lines: seq<string>, rest: Bytes)
    requires |lines| > 1 && IsHeadLine(lines[0]) && IsHeadLine(lines[1])
    requires |Utf8.Encode(HeadText(lines[1..]))| >= 4
    requires Terminator(Utf8.Encode(HeadText(lines[1..])) + rest) == Some(|Utf8.Encode(HeadText(lines[1..]))| - 4)
    ensures |Utf8.Encode(HeadText(lines))| >= 4
    ensures Terminator(Utf8.Encode(HeadText(lines)) + rest) == Some(|Utf8.Encode(HeadText(lines))| - 4)
  {
    HeadBytes(lines, rest);
    Utf8.NoStrayCarriageReturn(lines[0]);
    StartsWithLine(lines[1..], rest);
    LineThenHead(Utf8.Encode(lines[0]), Utf8.Encode(HeadText(lines[1..])), rest);
  }

  lemma {:induction false} LineThenHead(line: Bytes, head: Bytes, rest: Bytes)
    requires 13 !in line && |head| >= 4 && (head + rest)[0] != 13 && Terminator(head + rest) == Some(|head| - 4)
    ensures Terminator(line + [13, 10] + (head + rest)) == Some(|line| + 2 + |head| - 4)
  {
    LineThenMore(line, head + rest, |head| - 4);
  }

  lemma {:induction false} HeadBytes(lines: seq<string>, rest: Bytes)
    requires lines != []
    ensures |Utf8.Encode(HeadText(lines))| == |Utf8.Encode(lines[0])| + 2 + |Utf8.Encode(HeadText(lines[1..]))|
    ensures Utf8.Encode(HeadText(lines)) + rest ==
      Utf8.Encode(lines[0]) + [13, 10] + (Utf8.Encode(HeadText(lines[1..])) + rest)
  {
    EncodeHead(lines);
    Associative(Utf8.Encode(lines[0]) + [13, 10], Utf8.Encode(HeadText(lines[1..])), rest);
  }

  lemma {:induction false} OneLineEnds(lines: seq<string>, rest: Bytes)
    requires |lines| == 1 && IsHeadLine(lines[0])
    ensures |Utf8.Encode(HeadText(lines))| >= 4
    ensures Terminator(Utf8.Encode(HeadText(lines)) + rest) == Some(|Utf8.Encode(HeadText(lines))| - 4)
  {
    HeadBytes(lines, rest);
    Utf8.NoStrayCarriageReturn(lines[0]);
    EncodeCrLf();
    LineThenTerminator(Utf8.Encode(lines[0]), rest);
  }

  lemma EncodeCrLf()
    ensures Utf8.Encode("\r\n") == [13, 10]
  {
    assert "\r\n"[1..] == "\n";
  }

  lemma {:induction false} EncodeHead(lines: seq<string>)
    requires lines != []
    ensures Utf8.Encode(HeadText(lines)) == Utf8.Encode(lines[0]) + [13, 10] + Utf8.Encode(HeadText(lines[1..]))
  {
    EncodeCrLf();
    Utf8.EncodeConcat(lines[0] + "\r\n", HeadText(lines[1..]));
    Utf8.EncodeConcat(lines[0], "\r\n");
  }

  lemma {:induction false} StartsWithLine(lines: seq<string>, rest: Bytes)
    requires lines != [] && IsHeadLine(lines[0])
    ensures Utf8.Encode(HeadText(lines)) != [] && (Utf8.Encode(HeadText(lines)) + rest)[0] != 13
  {
    EncodeHead(lines);
    Utf8.NoStrayCarriageReturn(lines[0]);
    assert Utf8.Encode(lines[0])[0] in Utf8.Encode(lines[0]);
  }

  lemma {:induction false} LineThenTerminator(line: Bytes, rest: Bytes)
    requires 13 !in line
    ensures Terminator(line + [13, 10] + ([13, 10] + rest)) == Some(|line|)
  {
    var bs := line + [13, 10] + ([13, 10] + rest);
    forall q | 0 <= q < |line| ensures !EndsHead(bs, q) {
      assert bs[q] == line[q] && line[q] in line;
    }
    TerminatorIs(bs, |line|);
  }

  lemma EndsHeadShifted(start: Bytes, tail: Bytes, q: nat)
    ensures EndsHead(start + tail, |start| + q) <==> EndsHead(tail, q)
  {
  }

  lemma {:induction false} LineThenMore(line: Bytes, tail: Bytes, p: nat)
    requires 13 !in line && tail != [] && tail[0] != 13
    requires EndsHead(tail, p) && forall i :: 0 <= i < p ==> !EndsHead(tail, i)
    ensures Terminator(line + [13, 10] + tail) == Some(|line| + 2 + p)
  {
    forall q: nat | q < |line| + 2 + p ensures !EndsHead(line + [13, 10] + tail, q) {
      NoHeadBefore(line, tail, p, q);
    }
    FoundAfterLine(line, tail, p);
    TerminatorIs(line + [13, 10] + tail, |line| + 2 + p);
  }

  lemma FoundAfterLine(line: Bytes, tail: Bytes, p: nat)
    requires EndsHead(tail, p)
    ensures EndsHead(line + [13, 10] + tail, |line| + 2 + p)
  {
    EndsHeadShifted(line + [13, 10], tail, p);
  }

  lemma NoHeadBefore(line: Bytes, tail: Bytes, p: nat, q: nat)
    requires 13 !in line && tail != [] && tail[0] != 13 && q < |line| + 2 + p
    requires forall i :: 0 <= i < p ==> !EndsHead(tail, i)
    ensures !EndsHead(line + [13, 10] + tail, q)
  {
    if q < |line| + 2 {
      NoHeadInLine(line, tail, q);
    } else {
      EndsHeadShifted(line + [13, 10], tail, q - |line| - 2);
    }
  }

  lemma NoHeadInLine(line: Bytes, tail: Bytes, q: nat)
    requires 13 !in line && tail != [] && tail[0] != 13 && q < |line| + 2
    ensures !EndsHead(line + [13, 10] + tail, q)
  {
    var bs := line + [13, 10] + tail;
    if q < |line| {
      assert bs[q] == line[q] && line[q] in line;
    } else if q == |line| {
      assert bs[q + 2] == tail[0];
    } else {
      assert bs[q] == 10;
    }
  }

  // ---- Parsing a request head ----

  datatype HttpError = Closed | HeadersTooLarge | BadEncoding | BadLength | BodyTooLarge | ClosedInBody

  datatype Head = Head(verb: string, path: string, headers: map<string, string>, contentLength: nat)

  datatype Request = Request(verb: string, path: string, headers: map<string, string>, body: Bytes)

  function SplitOnce(s: string, sep: char): Option<(string, string)> {
    if s == "" then None
    else if s[0] == sep then Some(("", s[1..]))
    else
      match SplitOnce(s[1..], sep)
      case None => None
      case Some((k, v)) => Some(([s[0]] + k, v))
  }

  function AddHeader(headers: map<string, string>, line: string): map<string, string> {
    match SplitOnce(line, ':')
    case None => headers
    case Some((k, v)) => headers[Text.ToLower(Text.Trim(k)) := Text.Trim(v)]
  }

  /** Header lines up to the first empty one; a later value for a name replaces an earlier one. */
  function ParseHeaders(lines: seq<string>, headers: map<string, string>): map<string, string> {
    if lines == [] || lines[0] == "" then headers
    else ParseHeaders(lines[1..], AddHeader(headers, lines[0]))
  }

  /** Unsigned decimal parsing: an optional plus sign, then digits, within the limit. */
  function ParseUnsigned(s: string, max: nat): Option<nat> {
    var digits := if |s| > 1 && s[0] == '+' then s[1..] else s;
    if digits != "" && Text.AllDigits(digits) && Text.DecimalValue(digits) <= max
    then Some(Text.DecimalValue(digits))
    else None
  }

  lemma {:induction false} ParseUnsignedRoundTrip(n: nat, max: nat)
    requires n <= max
    ensures ParseUnsigned(Text.ShowDecimal(n), max) == Some(n)
  {
    Text.DecimalRoundTrip(n);
    assert Text.IsDigit(Text.ShowDecimal(n)[0]);
  }

  function ParseHead(bs: Bytes): Result<Head, HttpError> {
    match Utf8.Decode(bs)
    case None => Err(BadEncoding)
    case Some(text) =>
      var lines := SplitLines(text);
      var words := Text.Words(lines[0]);
      var verb := if |words| > 0 then words[0] else "";
      var path := if |words| > 1 then words[1] else "";
      var headers := ParseHeaders(lines[1..], map[]);
      var length :=
        if "content-length" in headers then ParseUnsigned(headers["content-length"], USIZE_MAX) else Some(0);
      if length.None? then Err(BadLength)
      else if length.value > MAX_BODY_SIZE then Err(BodyTooLarge)
      else Ok(Head(verb, path, headers, length.value))
  }

  // ---- Streams ----

  /** A connection: bytes written to it come out in the order written, in pieces of any size. */
  class Stream {
    var data: Bytes

    constructor ()
      ensures data == []
    {
      data := [];
    }

    method Write(bs: Bytes)
      modifies this
      ensures data == old(data) + bs
    {
      data := data + bs;
    }

    /** Some bytes, at most `capacity`; none only when nothing is left. */
    method Read(capacity: nat) returns (chunk: Bytes)
      requires capacity > 0
      modifies this
      ensures old(data) == chunk + data && |chunk| <= capacity
      ensures chunk == [] <==> old(data) == []
    {
      if data == [] {
        return [];
      }
      var n: nat :| 1 <= n <= capacity && n <= |data|;
      chunk := data[..n];
      data := data[n..];
    }
  }

  // ---- Reading a request ----

  function Flatten(pieces: seq<Bytes>): Bytes {
    if pieces == [] then [] else pieces[0] + Flatten(pieces[1..])
  }

  /** What the reads of the header loop return, one after the other, on a connection that carries `data`: at
      most a chunk each, in order, and nothing only once everything has been read. */
  ghost predicate Arrives(data: Bytes, pieces: seq<Bytes>) {
    && Flatten(pieces) <= data
    && (forall i :: 0 <= i < |pieces| ==> |pieces[i]| <= CHUNK_SIZE)
    && (forall i :: 0 <= i < |pieces| && pieces[i] == [] ==> i == |pieces| - 1 && Flatten(pieces) == data)
  }

  /** The header loop, with `buf` in the buffer and `pieces` returned by its next reads: what it ends with,
      or nothing if it would read on. */
  function HeadLoop(buf: Bytes, pieces: seq<Bytes>): (r: Option<Result<(Bytes, nat), HttpError>>)
    ensures r.Some? && r.value.Ok? ==> r.value.value.1 <= |r.value.value.0|
    decreases |pieces|
  {
    if pieces == [] then None
    else if pieces[0] == [] then Some(Err(Closed))
    else
      var next := buf + pieces[0];
      match Terminator(next)
      case Some(p) => Some(Ok((next, p + 4)))
      case None => if |next| > MAX_HEADER_SIZE then Some(Err(HeadersTooLarge)) else HeadLoop(next, pieces[1..])
  }

  /** What the header loop can end with on a connection that carries `data`: what it does end with for some
      way the bytes can arrive. */
  ghost predicate HeadReads(data: Bytes, r: Result<(Bytes, nat), HttpError>) {
    exists pieces :: Arrives(data, pieces) && HeadLoop([], pieces) == Some(r)
  }

  /** The outcome of a request of which `data[..got]` was read for its head, which ends at `end`. */
  function RequestOf(data: Bytes, got: nat, end: nat): Result<Request, HttpError>
    requires end <= got <= |data|
  {
    match ParseHead(data[..end])
    case Err(e) => Err(e)
    case Ok(head) =>
      if |data| < end + head.contentLength then Err(ClosedInBody)
      else
        var bodyEnd := if got < end + head.contentLength then end + head.contentLength else got;
        Ok(Request(head.verb, head.path, head.headers, data[end..bodyEnd]))
  }

  ghost predicate FromHead(data: Bytes, h: Result<(Bytes, nat), HttpError>, r: Result<Request, HttpError>) {
    match h
    case Err(e) => r == Err(e)
    case Ok((buf, end)) => end <= |buf| <= |data| && r == RequestOf(data, |buf|, end)
  }

  /** What reading a whole request can result in. */
  ghost predicate Reads(data: Bytes, r: Result<Request, HttpError>) {
    exists h: Result<(Bytes, nat), HttpError> :: HeadReads(data, h) && FromHead(data, h, r)
  }

  // ---- Which outcomes there are ----

  /** The header loop reads on: no terminator yet, and room for more. */
  ghost predicate Undecided(buf: Bytes) {
    Terminator(buf).None? && |buf| <= MAX_HEADER_SIZE
  }

  /** The loop ends with `r` when a piece of `c` bytes comes in after `data[..n]`. */
  ghost predicate EndsWith(data: Bytes, n: nat, c: nat, r: Result<(Bytes, nat), HttpError>) {
    && 1 <= c <= CHUNK_SIZE && n + c <= |data|
    && Undecided(data[..n])
    && var buf := data[..n + c];
      match Terminator(buf)
      case Some(p) => r == Ok((buf, p + 4))
      case None => |buf| > MAX_HEADER_SIZE && r == Err(HeadersTooLarge)
  }

  ghost predicate Ends(data: Bytes, r: Result<(Bytes, nat), HttpError>) {
    || (r == Err(Closed) && Undecided(data))
    || exists n: nat, c: nat :: EndsWith(data, n, c, r)
  }

  lemma {:induction false} FlattenSnoc(pieces: seq<Bytes>, last: Bytes)
    ensures Flatten(pieces + [last]) == Flatten(pieces) + last
  {
    if pieces == [] {
      assert [last][1..] == [];
    } else {
      FlattenSnoc(pieces[1..], last);
      assert (pieces + [last])[1..] == pieces[1..] + [last];
      Associative(pieces[0], Flatten(pieces[1..]), last);
    }
  }

  lemma Associative(a: Bytes, b: Bytes, c: Bytes)
    ensures a + (b + c) == a + b + c
  {
  }

  /** Pieces the loop reads past leave their bytes in the buffer, undecided. */
  lemma {:induction false} LoopReadsOn(buf: Bytes, pieces: seq<Bytes>, last: Bytes)
    requires Undecided(buf) && HeadLoop(buf, pieces) == None
    ensures Undecided(buf + Flatten(pieces))
    ensures HeadLoop(buf, pieces + [last]) == HeadLoop(buf + Flatten(pieces), [last])
    decreases |pieces|
  {
    if pieces == [] {
      assert buf + [] == buf;
      assert pieces + [last] == [last];
    } else {
      LoopReadsOn(buf + pieces[0], pieces[1..], last);
      assert (pieces + [last])[1..] == pieces[1..] + [last];
      Associative(buf, pieces[0], Flatten(pieces[1..]));
    }
  }

  lemma {:induction false} LastPiece(buf: Bytes, last: Bytes)
    ensures HeadLoop(buf, [last]) ==
      if last == [] then Some(Err(Closed))
      else if Terminator(buf + last).Some? then Some(Ok((buf + last, Terminator(buf + last).value + 4)))
      else if Undecided(buf + last) then None
      else Some(Err(HeadersTooLarge))
  {
    assert [last][1..] == [];
  }

  lemma NothingIsUndecided()
    ensures Undecided([])
  {
  }

  /** Every run of the loop ends in one of these ways. */
  lemma {:induction false} LoopEnds(data: Bytes, buf: Bytes, pieces: seq<Bytes>, r: Result<(Bytes, nat), HttpError>)
    requires Undecided(buf) && buf + Flatten(pieces) <= data && HeadLoop(buf, pieces) == Some(r)
    requires forall i :: 0 <= i < |pieces| ==> |pieces[i]| <= CHUNK_SIZE
    requires forall i :: 0 <= i < |pieces| && pieces[i] == [] ==> i == |pieces| - 1 && buf + Flatten(pieces) == data
    ensures Ends(data, r)
    decreases |pieces|
  {
    if pieces[0] == [] {
      assert pieces[1..] == [];
      assert buf + Flatten(pieces) == buf;
    } else {
      var next := buf + pieces[0];
      var rest := pieces[1..];
      Associative(buf, pieces[0], Flatten(rest));
      assert next <= data;
      assert data[..|buf|] == buf && data[..|buf| + |pieces[0]|] == next;
      if Undecided(next) {
        LoopEnds(data, next, rest, r);
      } else {
        assert EndsWith(data, |buf|, |pieces[0]|, r);
      }
    }
  }

  /** Bytes that trickle in one at a time. */
  function Trickle(bs: Bytes): seq<Bytes> {
    if bs == [] then [] else Trickle(bs[..|bs| - 1]) + [[bs[|bs| - 1]]]
  }

  lemma UndecidedBefore(bs: Bytes, n: nat)
    requires Undecided(bs) && n <= |bs|
    ensures Undecided(bs[..n])
  {
    TerminatorOfPrefix(bs[..n], bs[n..]);
    assert bs[..n] + bs[n..] == bs;
  }

  /** While they are undecided, bytes can trickle in without the loop ending. */
  lemma {:induction false} TrickleIsRead(bs: Bytes)
    requires Undecided(bs)
    ensures Flatten(Trickle(bs)) == bs && HeadLoop([], Trickle(bs)) == None
    ensures forall i :: 0 <= i < |Trickle(bs)| ==> |Trickle(bs)[i]| == 1
  {
    if bs != [] {
      var n := |bs| - 1;
      UndecidedBefore(bs, n);
      TrickleIsRead(bs[..n]);
      assert bs[..n] + [bs[n]] == bs;
      PieceRead(Trickle(bs[..n]), bs[..n], [bs[n]]);
    }
  }

  /** One more read of the loop. */
  lemma {:induction false} PieceRead(pieces: seq<Bytes>, buf: Bytes, last: Bytes)
    requires Flatten(pieces) == buf && HeadLoop([], pieces) == None
    ensures Undecided(buf)
    ensures Flatten(pieces + [last]) == buf + last
    ensures HeadLoop([], pieces + [last]) == HeadLoop(buf, [last])
    ensures HeadLoop(buf, [last]) ==
      if last == [] then Some(Err(Closed))
      else if Terminator(buf + last).Some? then Some(Ok((buf + last, Terminator(buf + last).value + 4)))
      else if Undecided(buf + last) then None
      else Some(Err(HeadersTooLarge))
  {
    NothingIsUndecided();
    LoopReadsOn([], pieces, last);
    FlattenSnoc(pieces, last);
    assert [] + buf == buf;
    LastPiece(buf, last);
  }

  /** A piece after non-empty ones, empty itself only at the end of the data. */
  lemma {:induction false} PieceArrives(data: Bytes, pieces: seq<Bytes>, buf: Bytes, last: Bytes)
    requires Flatten(pieces) == buf && buf + last <= data && |last| <= CHUNK_SIZE
    requires forall i :: 0 <= i < |pieces| ==> 1 <= |pieces[i]| <= CHUNK_SIZE
    requires last == [] ==> buf == data
    ensures Arrives(data, pieces + [last])
  {
    FlattenSnoc(pieces, last);
    assert last == [] ==> buf + last == buf;
    var all := pieces + [last];
    forall i | 0 <= i < |all| ensures |all[i]| <= CHUNK_SIZE && (all[i] == [] ==> i == |all| - 1 && last == []) {
      assert all[i] == if i < |pieces| then pieces[i] else last;
    }
  }

  /** Each of these ways is the end of a run: the bytes before trickle in, then the deciding piece comes. */
  lemma {:induction false} EndIsReached(data: Bytes, before: Bytes, last: Bytes, r: Result<(Bytes, nat), HttpError>)
    requires before + last <= data && |last| <= CHUNK_SIZE && (last == [] ==> before == data)
    requires Undecided(before) && HeadLoop(before, [last]) == Some(r)
    ensures HeadReads(data, r)
  {
    TrickleIsRead(before);
    PieceRead(Trickle(before), before, last);
    PieceArrives(data, Trickle(before), before, last);
  }

  /** What the header loop can end with is exactly described by the bytes. */
  lemma HeadReadsExactly(data: Bytes, r: Result<(Bytes, nat), HttpError>)
    ensures HeadReads(data, r) <==> Ends(data, r)
  {
    if HeadReads(data, r) {
      var pieces :| Arrives(data, pieces) && HeadLoop([], pieces) == Some(r);
      NothingIsUndecided();
      assert [] + Flatten(pieces) == Flatten(pieces);
      LoopEnds(data, [], pieces, r);
    }
    if Ends(data, r) {
      EndIsRun(data, r);
    }
  }

  lemma EndIsRun(data: Bytes, r: Result<(Bytes, nat), HttpError>)
    requires Ends(data, r)
    ensures HeadReads(data, r)
  {
    if r == Err(Closed) && Undecided(data) {
      assert data + [] == data;
      EndIsReached(data, data, [], r);
    } else {
      var n: nat, c: nat :| EndsWith(data, n, c, r);
      var last := data[n..n + c];
      assert data[..n] + last == data[..n + c];
      LastPiece(data[..n], last);
      EndIsReached(data, data[..n], last, r);
    }
  }

  /** Of a request that carries a head, a beginning shows the terminator once it holds the whole head. */
  lemma {:induction false} TerminatorShows(data: Bytes, n: nat)
    requires Terminator(data).Some? && n <= |data|
    ensures Terminator(data[..n]) == if Terminator(data).value + 4 <= n then Terminator(data) else None
  {
    assert data == data[..n] + data[n..];
    TerminatorOfPrefix(data[..n], data[n..]);
    var p := Terminator(data).value;
    if p + 4 <= n {
      assert EndsHead(data[..n], p);
    }
  }

  /** What can come of a head that ends at `end`. */
  ghost predicate HeadOutcome(end: nat, r: Result<(Bytes, nat), HttpError>) {
    || (r == Err(HeadersTooLarge) && end > MAX_HEADER_SIZE + 1)
    || (r.Ok? && r.value.1 == end <= MAX_HEADER_SIZE + CHUNK_SIZE)
  }

  lemma {:induction false} HeadEnds(data: Bytes, n: nat, c: nat, r: Result<(Bytes, nat), HttpError>)
    requires Terminator(data).Some? && EndsWith(data, n, c, r)
    ensures HeadOutcome(Terminator(data).value + 4, r)
  {
    TerminatorShows(data, n);
    TerminatorShows(data, n + c);
  }

  lemma {:induction false} HeadIsSeen(data: Bytes, r: Result<(Bytes, nat), HttpError>)
    requires Terminator(data).Some? && HeadReads(data, r)
    ensures HeadOutcome(Terminator(data).value + 4, r)
  {
    HeadReadsExactly(data, r);
    var n: nat, c: nat :| EndsWith(data, n, c, r);
    HeadEnds(data, n, c, r);
  }

  /** A head that ends more than one byte past the limit is refused when its bytes trickle in. */
  lemma {:induction false} HeadRefused(data: Bytes)
    requires Terminator(data).Some? && Terminator(data).value + 4 > MAX_HEADER_SIZE + 1
    ensures HeadReads(data, Err(HeadersTooLarge))
  {
    TerminatorShows(data, MAX_HEADER_SIZE);
    TerminatorShows(data, MAX_HEADER_SIZE + 1);
    assert EndsWith(data, MAX_HEADER_SIZE, 1, Err(HeadersTooLarge));
    HeadReadsExactly(data, Err(HeadersTooLarge));
  }

  /** A head that ends within one chunk past the limit is taken when its last bytes come in one piece. */
  lemma {:induction false} HeadTaken(data: Bytes, end: nat)
    requires Terminator(data) == Some(end - 4) && 4 <= end <= MAX_HEADER_SIZE + CHUNK_SIZE
    ensures HeadReads(data, Ok((data[..end], end)))
  {
    var n := if end > MAX_HEADER_SIZE then MAX_HEADER_SIZE else end - 1;
    TerminatorShows(data, n);
    TerminatorShows(data, end);
    assert EndsWith(data, n, end - n, Ok((data[..end], end)));
    HeadReadsExactly(data, Ok((data[..end], end)));
  }

  /** In the header loop: `pieces` have been read from `all`, `buf` holds them, and the loop goes on. */
  ghost predicate ReadSoFar(all: Bytes, rest: Bytes, pieces: seq<Bytes>, buf: Bytes) {
    && buf + rest == all && buf == Flatten(pieces)
    && Undecided(buf) && HeadLoop([], pieces) == None
    && forall i :: 0 <= i < |pieces| ==> 1 <= |pieces[i]| <= CHUNK_SIZE
  }

  /** The loop has ended with `r` after reading `pieces` from `all`, with less than a chunk read past a head. */
  ghost predicate LoopEnded(all: Bytes, rest: Bytes, pieces: seq<Bytes>, r: Result<(Bytes, nat), HttpError>) {
    && Arrives(all, pieces) && HeadLoop([], pieces) == Some(r)
    && Flatten(pieces) + rest == all
    && (r.Ok? ==> r.value.0 == Flatten(pieces) && r.value.1 <= |r.value.0| < r.value.1 + CHUNK_SIZE)
  }

  /** What one more read does. */
  lemma {:induction false} NextRead(all: Bytes, rest: Bytes, pieces: seq<Bytes>, buf: Bytes, chunk: Bytes)
    requires ReadSoFar(all, chunk + rest, pieces, buf)
    requires |chunk| <= CHUNK_SIZE && (chunk == [] ==> rest == [])
    ensures var end := Terminator(buf + chunk);
      if chunk == [] then LoopEnded(all, rest, pieces + [chunk], Err(Closed))
      else if end.Some? then LoopEnded(all, rest, pieces + [chunk], Ok((buf + chunk, end.value + 4)))
      else if |buf + chunk| > MAX_HEADER_SIZE then LoopEnded(all, rest, pieces + [chunk], Err(HeadersTooLarge))
      else ReadSoFar(all, rest, pieces + [chunk], buf + chunk)
  {
    PieceRead(pieces, buf, chunk);
    Associative(buf, chunk, rest);
    if chunk == [] {
      assert buf + (chunk + rest) == buf;
    }
    PieceArrives(all, pieces, buf, chunk);
    TerminatorOfPrefix(buf, chunk);
  }

  /** The header loop: reads until a terminator is in the buffer. `pieces` is what its reads returned. */
  method ReadHead(stream: Stream) returns (r: Result<(Bytes, nat), HttpError>, ghost pieces: seq<Bytes>)
    modifies stream
    ensures LoopEnded(old(stream.data), stream.data, pieces, r)
  {
    ghost var all := stream.data;
    var buf: Bytes := [];
    pieces := [];
    assert buf + all == all;
    while true
      invariant ReadSoFar(all, stream.data, pieces, buf)
      decreases |stream.data|
    {
      var chunk := stream.Read(CHUNK_SIZE);
      NextRead(all, stream.data, pieces, buf, chunk);
      pieces := pieces + [chunk];
      if chunk == [] {
        return Err(Closed), pieces;
      }
      buf := buf + chunk;
      var position := Terminator(buf);
      if position.Some? {
        return Ok((buf, position.value + 4)), pieces;
      }
      if |buf| > MAX_HEADER_SIZE {
        return Err(HeadersTooLarge), pieces;
      }
    }
  }

  /** The loop over the header lines of a decoded head. */
  method CollectHeaders(lines: seq<string>) returns (headers: map<string, string>)
    ensures headers == ParseHeaders(lines, map[])
  {
    headers := map[];
    var i := 0;
    while i < |lines|
      invariant 0 <= i <= |lines|
      invariant ParseHeaders(lines[i..], headers) == ParseHeaders(lines, map[])
    {
      if lines[i] == "" {
        return;
      }
      assert lines[i..][1..] == lines[i + 1..];
      headers := AddHeader(headers, lines[i]);
      i := i + 1;
    }
  }

  method DecodeHead(bs: Bytes) returns (r: Result<Head, HttpError>)
    ensures r == ParseHead(bs)
  {
    var text := Utf8.Decode(bs);
    if text.None? {
      return Err(BadEncoding);
    }
    var lines := SplitLines(text.value);
    var words := Text.Words(lines[0]);
    var headers := CollectHeaders(lines[1..]);
    var length: nat := 0;
    if "content-length" in headers {
      var parsed := ParseUnsigned(headers["content-length"], USIZE_MAX);
      if parsed.None? {
        return Err(BadLength);
      }
      length := parsed.value;
    }
    if length > MAX_BODY_SIZE {
      return Err(BodyTooLarge);
    }
    return Ok(Head(if |words| > 0 then words[0] else "", if |words| > 1 then words[1] else "", headers, length));
  }

  /** The body loop: it reads what is missing and no more. The buffer never outgrows the body limit, so the
      size checks inside it never fire. */
  method ReadBody(stream: Stream, start: Bytes, contentLength: nat) returns (r: Result<Bytes, HttpError>)
    requires |start| <= MAX_BODY_SIZE && contentLength <= MAX_BODY_SIZE
    modifies stream
    ensures var all := start + old(stream.data);
      r == if |all| < contentLength then Err(ClosedInBody)
           else Ok(all[..if |start| < contentLength then contentLength else |start|])
  {
    ghost var all := start + stream.data;
    var body := start;
    while |body| < contentLength
      invariant body + stream.data == all
      invariant |body| <= if |start| < contentLength then contentLength else |start|
      invariant |start| <= |body| <= MAX_BODY_SIZE
      decreases |stream.data|
    {
      var chunk := stream.Read(contentLength - |body|);
      if chunk == [] {
        return Err(ClosedInBody);
      }
      body := body + chunk;
    }
    assert body == all[..|body|];
    return Ok(body);
  }

  /** Everything after the head has been found at the start of the buffer. */
  method ReadRequest(stream: Stream, buf: Bytes, headerEnd: nat) returns (r: Result<Request, HttpError>)
    requires headerEnd <= |buf| <= headerEnd + MAX_BODY_SIZE
    modifies stream
    ensures r == RequestOf(buf + old(stream.data), |buf|, headerEnd)
  {
    ghost var all := buf + stream.data;
    assert buf[..headerEnd] == all[..headerEnd];
    assert buf[headerEnd..] + stream.data == all[headerEnd..];
    var parsed := DecodeHead(buf[..headerEnd]);
    if parsed.Err? {
      return Err(parsed.error);
    }
    var head := parsed.value;
    var body := ReadBody(stream, buf[headerEnd..], head.contentLength);
    if body.Err? {
      return Err(body.error);
    }
    assert body.value == all[headerEnd..headerEnd + |body.value|];
    return Ok(Request(head.verb, head.path, head.headers, body.value));
  }

  /** `pieces` is what the reads of the header loop returned; they alone decide the result. */
  method ReadHttpRequest(stream: Stream) returns (r: Result<Request, HttpError>, ghost pieces: seq<Bytes>)
    modifies stream
    ensures Arrives(old(stream.data), pieces)
    ensures HeadLoop([], pieces).Some? && FromHead(old(stream.data), HeadLoop([], pieces).value, r)
    ensures Reads(old(stream.data), r)
  {
    ghost var all := stream.data;
    var head;
    head, pieces := ReadHead(stream);
    assert HeadReads(all, head);
    if head.Err? {
      r := Err(head.error);
      assert FromHead(all, head, r);
      return;
    }
    var (buf, headerEnd) := head.value;
    r := ReadRequest(stream, buf, headerEnd);
    assert FromHead(all, head, r);
  }

  // ---- The client's request ----

  function RequestLines(path: string, host: string, length: nat): seq<string> {
    ["POST " + path + " HTTP/1.1", "Host: " + host, "Content-Type: " + POSTCARD,
     "Content-Length: " + Text.ShowDecimal(length), "Connection: close"]
  }

  function RequestHead(path: string, host: string, body: Bytes): Bytes {
    Utf8.Encode(HeadText(RequestLines(path, host, |body|)))
  }

  method SendHttpPost(stream: Stream, path: string, host: string, body: Bytes)
    modifies stream
    ensures stream.data == old(stream.data) + (RequestHead(path, host, body) + body)
  {
    stream.Write(Utf8.Encode(HeadText(RequestLines(path, host, |body|))));
    stream.Write(body);
  }

  lemma {:induction false} SplitOnceAfter(k: string, v: string)
    requires ':' !in k
    ensures SplitOnce(k + ":" + v, ':') == Some((k, v))
  {
    var s := k + ":" + v;
    if k == "" {
      assert s[1..] == v;
    } else {
      assert k[0] in k;
      SplitOnceAfter(k[1..], v);
      assert s[1..] == k[1..] + ":" + v;
      assert k == [k[0]] + k[1..];
    }
  }

  /** A header line as both sides write it. */
  lemma AddHeaderLine(headers: map<string, string>, line: string, k: string, v: string)
    requires line == k + ":" + (" " + v)
    requires ':' !in k && Text.IsWord(k) && Text.IsWord(v)
    ensures AddHeader(headers, line) == headers[Text.ToLower(k) := v]
  {
    SplitOnceAfter(k, " " + v);
    assert k[0] in k && k[|k| - 1] in k && v[0] in v && v[|v| - 1] in v;
    Text.TrimKeepsInkedEnds(k);
    Text.TrimKeepsInkedEnds(v);
    assert (" " + v)[1..] == v;
    assert Text.Trim(" " + v) == Text.Trim(v);
  }

  lemma {:induction false} ParseHeaderLine(line: string, k: string, v: string, name: string, rest: seq<string>,
                                           headers: map<string, string>)
    requires line == k + ":" + (" " + v) && Text.ToLower(k) == name
    requires ':' !in k && Text.IsWord(k) && Text.IsWord(v)
    ensures ParseHeaders([line] + rest, headers) == ParseHeaders(rest, headers[name := v])
  {
    AddHeaderLine(headers, line, k, v);
    assert ([line] + rest)[1..] == rest;
  }

  lemma {:induction false} HostLine(host: string, rest: seq<string>, headers: map<string, string>)
    requires Text.IsWord(host)
    ensures ParseHeaders(["Host: " + host] + rest, headers) == ParseHeaders(rest, headers["host" := host])
  {
    assert "Host: " + host == "Host" + ":" + (" " + host);
    assert Text.ToLower("Host") == "host";
    ParseHeaderLine("Host: " + host, "Host", host, "host", rest, headers);
  }

  lemma {:induction false} ContentTypeLine(contentType: string, rest: seq<string>, headers: map<string, string>)
    requires Text.IsWord(contentType)
    ensures ParseHeaders(["Content-Type: " + contentType] + rest, headers) ==
      ParseHeaders(rest, headers["content-type" := contentType])
  {
    var line := "Content-Type: " + contentType;
    assert line == "Content-Type" + ":" + (" " + contentType);
    assert Text.ToLower("Content-Type") == "content-type";
    ParseHeaderLine(line, "Content-Type", contentType, "content-type", rest, headers);
  }

  lemma {:induction false} ContentLengthLine(length: string, rest: seq<string>, headers: map<string, string>)
    requires Text.IsWord(length)
    ensures ParseHeaders(["Content-Length: " + length] + rest, headers) ==
      ParseHeaders(rest, headers["content-length" := length])
  {
    var line := "Content-Length: " + length;
    assert line == "Content-Length" + ":" + (" " + length);
    assert Text.ToLower("Content-Length") == "content-length";
    ParseHeaderLine(line, "Content-Length", length, "content-length", rest, headers);
  }

  lemma {:induction false} ConnectionLine(rest: seq<string>, headers: map<string, string>)
    ensures ParseHeaders(["Connection: close"] + rest, headers) == ParseHeaders(rest, headers["connection" := "close"])
  {
    assert "Connection: close" == "Connection" + ":" + (" " + "close");
    assert Text.ToLower("Connection") == "connection";
    ParseHeaderLine("Connection: close", "Connection", "close", "connection", rest, headers);
  }

  function RequestHeaderMap(host: string, length: string): map<string, string> {
    map["host" := host]["content-type" := POSTCARD]["content-length" := length]["connection" := "close"]
  }

  lemma PostcardIsWord()
    ensures Text.IsWord(POSTCARD)
  {
  }

  lemma {:induction false} RequestHeaders(path: string, host: string, length: nat)
    requires Text.IsWord(host)
    ensures ParseHeaders(RequestLines(path, host, length)[1..] + ["", ""], map[]) ==
      RequestHeaderMap(host, Text.ShowDecimal(length))
  {
    Text.DecimalIsWord(length);
    PostcardIsWord();
    FourHeaders(host, POSTCARD, Text.ShowDecimal(length));
    assert RequestLines(path, host, length)[1..] + ["", ""] ==
      ["Host: " + host] + (["Content-Type: " + POSTCARD]
      + (["Content-Length: " + Text.ShowDecimal(length)] + (["Connection: close"] + ["", ""])));
  }

  lemma FourHeaders(host: string, contentType: string, length: string)
    requires Text.IsWord(host) && Text.IsWord(contentType) && Text.IsWord(length)
    ensures ParseHeaders(["Host: " + host] + (["Content-Type: " + contentType]
      + (["Content-Length: " + length] + (["Connection: close"] + ["", ""]))), map[])
      == map["host" := host]["content-type" := contentType]["content-length" := length]["connection" := "close"]
  {
    var m1 := map["host" := host];
    var m2 := m1["content-type" := contentType];
    var m3 := m2["content-length" := length];
    var r3 := ["Connection: close"] + ["", ""];
    var r2 := ["Content-Length: " + length] + r3;
    var r1 := ["Content-Type: " + contentType] + r2;
    HostLine(host, r1, map[]);
    ContentTypeLine(contentType, r2, m1);
    ContentLengthLine(length, r3, m2);
    ConnectionLine(["", ""], m3);
  }

  ghost predicate Returns(r: Result<Request, HttpError>, path: string, body: Bytes) {
    && r.Ok? && r.value.verb == "POST" && r.value.path == path && r.value.body == body
    && Lookup(r.value.headers, "content-type") == Some(POSTCARD)
  }

  /** The path the server sees: an empty one lets the protocol version slip into its place. */
  function SeenPath(path: string): string {
    if path == "" then "HTTP/1.1" else path
  }

  /** What is sent is read back under every arrival of the bytes. */
  ghost predicate AlwaysReturns(data: Bytes, path: string, body: Bytes) {
    forall r :: Reads(data, r) ==> Returns(r, path, body)
  }

  /** The server reads back POST, the path and exactly the body under every arrival of the bytes, if and
      only if the path is not empty and the head stays within one byte past 64 KiB. */
  lemma RequestRoundTrip(path: string, host: string, body: Bytes)
    requires (forall c :: c in path ==> !Text.IsWhitespace(c)) && Text.IsWord(host) && |body| <= 4 * 1024 * 1024
    ensures AlwaysReturns(RequestHead(path, host, body) + body, path, body)
       <==> path != "" && |RequestHead(path, host, body)| <= 64 * 1024 + 1
  {
    if |RequestHead(path, host, body)| > MAX_HEADER_SIZE + 1 {
      RequestRefused(path, host, body);
    } else if path == "" {
      var _ := RequestAccepted(path, host, body);
    } else {
      forall r | Reads(RequestHead(path, host, body) + body, r) ensures Returns(r, path, body) {
        RequestRead(path, host, body, r);
      }
    }
  }

  lemma RequestRefused(path: string, host: string, body: Bytes)
    requires (forall c :: c in path ==> !Text.IsWhitespace(c)) && Text.IsWord(host) && |body| <= MAX_BODY_SIZE
    requires |RequestHead(path, host, body)| > MAX_HEADER_SIZE + 1
    ensures Reads(RequestHead(path, host, body) + body, Err(HeadersTooLarge))
  {
    ParseRequestHead(path, host, body);
    HeadRefused(RequestHead(path, host, body) + body);
    assert FromHead(RequestHead(path, host, body) + body, Err(HeadersTooLarge), Err(HeadersTooLarge));
  }

  /** Every outcome of reading the client's request: refused for its head, or read back. */
  lemma RequestRead(path: string, host: string, body: Bytes, r: Result<Request, HttpError>)
    requires (forall c :: c in path ==> !Text.IsWhitespace(c)) && Text.IsWord(host) && |body| <= 4 * 1024 * 1024
    requires Reads(RequestHead(path, host, body) + body, r)
    ensures r == Err(HeadersTooLarge) || Returns(r, SeenPath(path), body)
    ensures |RequestHead(path, host, body)| <= 64 * 1024 + 1 ==> r != Err(HeadersTooLarge)
    ensures |RequestHead(path, host, body)| > 64 * 1024 + 1024 ==> r == Err(HeadersTooLarge)
  {
    var data := RequestHead(path, host, body) + body;
    ParseRequestHead(path, host, body);
    var h: Result<(Bytes, nat), HttpError> :| HeadReads(data, h) && FromHead(data, h, r);
    HeadIsSeen(data, h);
    if h.Ok? {
      RequestOfSent(path, host, body, |h.value.0|);
    }
  }

  /** Once the whole head is in, the rest of the outcome is the request, however much came in with it. */
  lemma RequestOfSent(path: string, host: string, body: Bytes, got: nat)
    requires (forall c :: c in path ==> !Text.IsWhitespace(c)) && Text.IsWord(host) && |body| <= MAX_BODY_SIZE
    requires |RequestHead(path, host, body)| <= got <= |RequestHead(path, host, body)| + |body|
    ensures Returns(RequestOf(RequestHead(path, host, body) + body, got, |RequestHead(path, host, body)|),
                    SeenPath(path), body)
  {
    var head := RequestHead(path, host, body);
    ParseRequestHead(path, host, body);
    SentParts(head, body);
  }

  lemma SentParts(head: Bytes, body: Bytes)
    ensures (head + body)[..|head|] == head && (head + body)[|head|..|head| + |body|] == body
  {
  }

  lemma RequestAccepted(path: string, host: string, body: Bytes)
    returns (r: Result<Request, HttpError>)
    requires (forall c :: c in path ==> !Text.IsWhitespace(c)) && Text.IsWord(host) && |body| <= MAX_BODY_SIZE
    requires |RequestHead(path, host, body)| <= MAX_HEADER_SIZE + CHUNK_SIZE
    ensures Reads(RequestHead(path, host, body) + body, r) && Returns(r, SeenPath(path), body)
  {
    var data := RequestHead(path, host, body) + body;
    var end := |RequestHead(path, host, body)|;
    ParseRequestHead(path, host, body);
    HeadTaken(data, end);
    RequestOfSent(path, host, body, end);
    r := RequestOf(data, end, end);
    assert FromHead(data, Ok((data[..end], end)), r);
  }

  lemma WordHasNoReturn(s: string)
    requires forall c :: c in s ==> !Text.IsWhitespace(c)
    ensures '\r' !in s
  {
    assert Text.IsWhitespace('\r');
  }

  lemma RequestLinesAreHeadLines(path: string, host: string, length: nat)
    requires (forall c :: c in path ==> !Text.IsWhitespace(c)) && Text.IsWord(host)
    ensures forall line :: line in RequestLines(path, host, length) ==> IsHeadLine(line)
  {
    WordHasNoReturn(path);
    WordHasNoReturn(host);
    Text.DecimalIsWord(length);
    WordHasNoReturn(Text.ShowDecimal(length));
  }

  lemma {:induction false} ParseRequestHead(path: string, host: string, body: Bytes)
    requires (forall c :: c in path ==> !Text.IsWhitespace(c)) && Text.IsWord(host) && |body| <= MAX_BODY_SIZE
    ensures var head := RequestHead(path, host, body);
      && |head| >= 4
      && Terminator(head + body) == Some(|head| - 4)
      && ParseHead(head).Ok?
      && ParseHead(head).value.verb == "POST" && ParseHead(head).value.path == SeenPath(path)
      && ParseHead(head).value.contentLength == |body|
      && Lookup(ParseHead(head).value.headers, "content-type") == Some(POSTCARD)
  {
    RequestLinesAreHeadLines(path, host, |body|);
    HeadEndsAtTerminator(RequestLines(path, host, |body|), body);
    RequestHeadParses(path, host, |body|);
  }

  lemma {:induction false} RequestHeadParses(path: string, host: string, length: nat)
    requires (forall c :: c in path ==> !Text.IsWhitespace(c)) && Text.IsWord(host) && length <= MAX_BODY_SIZE
    ensures ParseHead(Utf8.Encode(HeadText(RequestLines(path, host, length)))) ==
      Ok(Head("POST", SeenPath(path), RequestHeaderMap(host, Text.ShowDecimal(length)), length))
  {
    RequestLinesAreHeadLines(path, host, length);
    RequestHeaders(path, host, length);
    ParseUnsignedRoundTrip(length, USIZE_MAX);
    RequestWords(path);
    HeadParses(RequestLines(path, host, length), RequestHeaderMap(host, Text.ShowDecimal(length)), length);
  }

  lemma {:induction false} HeadParses(lines: seq<string>, headers: map<string, string>, length: nat)
    requires lines != [] && forall line :: line in lines ==> IsHeadLine(line)
    requires |Text.Words(lines[0])| >= 2
    requires ParseHeaders(lines[1..] + ["", ""], map[]) == headers
    requires "content-length" in headers && ParseUnsigned(headers["content-length"], USIZE_MAX) == Some(length)
    requires length <= MAX_BODY_SIZE
    ensures ParseHead(Utf8.Encode(HeadText(lines))) ==
      Ok(Head(Text.Words(lines[0])[0], Text.Words(lines[0])[1], headers, length))
  {
    Utf8.DecodeUndoesEncode(HeadText(lines));
    SplitHead(lines);
    assert (lines + ["", ""])[1..] == lines[1..] + ["", ""];
    ParsedHead(Utf8.Encode(HeadText(lines)), HeadText(lines), lines + ["", ""], headers, length);
  }

  lemma {:induction false} ParsedHead(bs: Bytes, text: string, lines: seq<string>, headers: map<string, string>,
                                      length: nat)
    requires Utf8.Decode(bs) == Some(text) && SplitLines(text) == lines
    requires |Text.Words(lines[0])| >= 2 && ParseHeaders(lines[1..], map[]) == headers
    requires "content-length" in headers && ParseUnsigned(headers["content-length"], USIZE_MAX) == Some(length)
    requires length <= MAX_BODY_SIZE
    ensures ParseHead(bs) == Ok(Head(Text.Words(lines[0])[0], Text.Words(lines[0])[1], headers, length))
  {
  }

  lemma {:induction false} RequestWords(path: string)
    requires forall c :: c in path ==> !Text.IsWhitespace(c)
    ensures |Text.Words("POST " + path + " HTTP/1.1")| >= 2
    ensures Text.Words("POST " + path + " HTTP/1.1")[0] == "POST"
    ensures Text.Words("POST " + path + " HTTP/1.1")[1] == SeenPath(path)
  {
    ShortWords();
    RequestLineWords("POST", path, "HTTP/1.1");
    Regroup("POST", path, "HTTP/1.1");
    assert "POST " == "POST" + " " && " HTTP/1.1" == " " + "HTTP/1.1";
  }

  lemma Regroup(a: string, b: string, c: string)
    ensures a + " " + b + (" " + c) == a + " " + (b + " " + c)
  {
  }

  lemma ShortWords()
    ensures Text.IsWord("POST") && Text.IsWord("HTTP/1.1")
  {
  }

  lemma {:induction false} RequestLineWords(verb: string, path: string, version: string)
    requires (forall c :: c in path ==> !Text.IsWhitespace(c)) && Text.IsWord(verb) && Text.IsWord(version)
    ensures var words := Text.Words(verb + " " + (path + " " + version));
      |words| >= 2 && words[0] == verb && words[1] == if path == "" then version else path
  {
    if path == "" {
      assert path + " " + version == " " + version;
      Text.WordsAfterSpace(verb, " " + version);
      Text.WordsAfterSpace(verb, version);
      Text.WordsOfWord(version);
    } else {
      SecondWord(verb, path, version);
    }
  }

  // ---- The daemon's response ----

  function Reason(status: uint16): string {
    if status == 200 then "OK"
    else if status == 401 then "Unauthorized"
    else if status == 403 then "Forbidden"
    else if status == 404 then "Not Found"
    else if status == 405 then "Method Not Allowed"
    else if status == 415 then "Unsupported Media Type"
    else if status == 500 then "Internal Server Error"
    else "OK"
  }

  function ResponseLines(status: uint16, contentType: string, length: nat): seq<string> {
    ["HTTP/1.1 " + Text.ShowDecimal(status) + " " + Reason(status), "Content-Type: " + contentType,
     "Content-Length: " + Text.ShowDecimal(length), "Connection: close"]
  }

  function ResponseBytes(status: uint16, contentType: string, body: Bytes): Bytes {
    Utf8.Encode(HeadText(ResponseLines(status, contentType, |body|))) + body
  }

  method WriteResponse(stream: Stream, status: uint16, contentType: string, body: Bytes)
    modifies stream
    ensures stream.data == old(stream.data) + ResponseBytes(status, contentType, body)
  {
    stream.Write(Utf8.Encode(HeadText(ResponseLines(status, contentType, |body|))));
    stream.Write(body);
  }

  /** The first of `lines()`, if any. */
  function FirstLine(s: string): Option<string> {
    if s == "" then None
    else if '\n' !in s then Some(s)
    else
      var line := Text.Split(s, '\n')[0];
      Some(if line != "" && line[|line| - 1] == '\r' then line[..|line| - 1] else line)
  }

  datatype ResponseError = NoTerminator | NotText | BadStatusLine | BadStatus

  function ParseHttpResponse(resp: Bytes): Result<(uint16, Bytes), ResponseError> {
    match Terminator(resp)
    case None => Err(NoTerminator)
    case Some(end) =>
      match Utf8.Decode(resp[..end])
      case None => Err(NotText)
      case Some(header) =>
        match FirstLine(header)
        case None => Err(BadStatusLine)
        case Some(line) =>
          if |Text.Words(line)| < 2 then Err(BadStatusLine)
          else
            match ParseUnsigned(Text.Words(line)[1], 0xFFFF)
            case None => Err(BadStatus)
            case Some(status) => Ok((status, resp[end + 4..]))
  }

  /** The client recovers status and body from every response, whatever bytes the body has. */
  lemma ResponseRoundTrip(status: uint16, contentType: string, body: Bytes)
    requires '\r' !in contentType
    ensures ParseHttpResponse(ResponseBytes(status, contentType, body)) == Ok((status, body))
  {
    ResponseLinesAreHeadLines(status, contentType, |body|);
    StatusWords(status);
    ParseUnsignedRoundTrip(status, 0xFFFF);
    HeadAndBodyParse(ResponseLines(status, contentType, |body|), body, status);
  }

  lemma {:induction false} HeadAndBodyParse(lines: seq<string>, body: Bytes, status: uint16)
    requires |lines| > 1 && '\n' !in lines[0] && forall line :: line in lines ==> IsHeadLine(line)
    requires |Text.Words(lines[0])| >= 2 && ParseUnsigned(Text.Words(lines[0])[1], 0xFFFF) == Some(status)
    ensures ParseHttpResponse(Utf8.Encode(HeadText(lines)) + body) == Ok((status, body))
  {
    var head := Utf8.Encode(HeadText(lines));
    HeadEndsAtTerminator(lines, body);
    var header := WithoutTerminator(lines);
    Utf8.DecodeUndoesEncode(header);
    assert IsHeadLine(lines[0]);
    HeaderFirstLine(lines, header);
    HeadThenBody(head, body);
    ParsedResponse(head + body, |head| - 4, header, lines[0], status);
  }

  lemma HeadThenBody(head: Bytes, body: Bytes)
    requires |head| >= 4
    ensures (head + body)[|head|..] == body && (head + body)[..|head| - 4] == head[..|head| - 4]
  {
  }

  lemma {:induction false} ParsedResponse(resp: Bytes, end: nat, header: string, line: string, status: uint16)
    requires Terminator(resp) == Some(end) && Utf8.Decode(resp[..end]) == Some(header)
    requires FirstLine(header) == Some(line)
    requires |Text.Words(line)| >= 2 && ParseUnsigned(Text.Words(line)[1], 0xFFFF) == Some(status)
    ensures ParseHttpResponse(resp) == Ok((status, resp[end + 4..]))
  {
  }

  lemma ResponseLinesAreHeadLines(status: uint16, contentType: string, length: nat)
    requires '\r' !in contentType
    ensures forall line :: line in ResponseLines(status, contentType, length) ==> IsHeadLine(line)
  {
    Text.DecimalIsWord(status);
    WordHasNoReturn(Text.ShowDecimal(status));
    Text.DecimalIsWord(length);
    WordHasNoReturn(Text.ShowDecimal(length));
    ReasonHasNoReturn(status);
  }

  lemma ReasonHasNoReturn(status: uint16)
    ensures '\r' !in Reason(status)
  {
    if status <= 403 {
      LowReasonHasNoReturn(status);
    } else {
      HighReasonHasNoReturn(status);
    }
  }

  lemma LowReasonHasNoReturn(status: uint16)
    requires status <= 403
    ensures '\r' !in Reason(status)
  {
  }

  lemma HighReasonHasNoReturn(status: uint16)
    requires status > 403
    ensures '\r' !in Reason(status)
  {
  }

  lemma ReasonHasNoNewline(status: uint16)
    ensures '\n' !in Reason(status)
  {
    if status <= 403 {
      LowReasonHasNoNewline(status);
    } else {
      HighReasonHasNoNewline(status);
    }
  }

  lemma LowReasonHasNoNewline(status: uint16)
    requires status <= 403
    ensures '\n' !in Reason(status)
  {
  }

  lemma HighReasonHasNoNewline(status: uint16)
    requires status > 403
    ensures '\n' !in Reason(status)
  {
  }

  lemma {:induction false} WithoutTerminator(lines: seq<string>) returns (header: string)
    requires lines != [] && forall line :: line in lines ==> IsHeadLine(line)
    ensures HeadText(lines) == header + "\r\n\r\n"
    ensures |Utf8.Encode(HeadText(lines))| >= 4
    ensures Utf8.Encode(header) == Utf8.Encode(HeadText(lines))[..|Utf8.Encode(HeadText(lines))| - 4]
    ensures lines[0] <= header && (|lines| > 1 ==> lines[0] + "\r\n" <= header)
  {
    if |lines| == 1 {
      header := lines[0];
      assert HeadText(lines[1..]) == "\r\n";
    } else {
      var rest := WithoutTerminator(lines[1..]);
      header := lines[0] + "\r\n" + rest;
    }
    Utf8.EncodeConcat(header, "\r\n\r\n");
    assert "\r\n\r\n" == "\r\n" + "\r\n";
    Utf8.EncodeConcat("\r\n", "\r\n");
    EncodeCrLf();
    assert HeadText(lines) == header + "\r\n\r\n";
  }

  lemma HeaderFirstLine(lines: seq<string>, header: string)
    requires |lines| > 1 && IsHeadLine(lines[0]) && '\n' !in lines[0] && lines[0] + "\r\n" <= header
    ensures FirstLine(header) == Some(lines[0])
  {
    var first := lines[0] + "\r";
    var rest := header[|first| + 1..];
    assert header == first + ['\n'] + rest;
    Text.SplitFirst(first, '\n', rest);
    assert header[|first|] == '\n';
    assert first[..|first| - 1] == lines[0];
  }

  lemma {:induction false} StatusWords(status: uint16)
    ensures var line := "HTTP/1.1 " + Text.ShowDecimal(status) + " " + Reason(status);
      && |Text.Words(line)| >= 2 && Text.Words(line)[1] == Text.ShowDecimal(status)
      && '\n' !in line
  {
    var n := Text.ShowDecimal(status);
    Text.DecimalIsWord(status);
    ReasonHasNoNewline(status);
    assert !Text.IsDigit('\n');
    StatusLineWords(n, Reason(status));
  }

  lemma StatusLineWords(number: string, reason: string)
    requires Text.IsWord(number) && '\n' !in number && '\n' !in reason
    ensures var line := "HTTP/1.1 " + number + " " + reason;
      && |Text.Words(line)| >= 2 && Text.Words(line)[1] == number
      && '\n' !in line
  {
    SecondWord("HTTP/1.1", number, reason);
    assert "HTTP/1.1 " + number + " " + reason == "HTTP/1.1" + " " + (number + " " + reason);
  }

  lemma {:induction false} SecondWord(first: string, second: string, rest: string)
    requires Text.IsWord(first) && Text.IsWord(second)
    ensures |Text.Words(first + " " + (second + " " + rest))| >= 2
    ensures Text.Words(first + " " + (second + " " + rest))[0] == first
    ensures Text.Words(first + " " + (second + " " + rest))[1] == second
  {
    Text.WordsAfterSpace(first, second + " " + rest);
    Text.WordsAfterSpace(second, rest);
  }

  /** The statuses the daemon answers with, and their reason phrases (section 15 of RFC 9110). */
  const REASONS: map<uint16, string> := map[
    200 := "OK", 401 := "Unauthorized", 403 := "Forbidden", 404 := "Not Found", 405 := "Method Not Allowed",
    415 := "Unsupported Media Type", 500 := "Internal Server Error"]

  /** A known status goes out with its phrase, any other with OK. */
  lemma StatusLineIs(status: uint16, contentType: string, length: nat)
    ensures ResponseLines(status, contentType, length)[0] ==
      "HTTP/1.1 " + Text.ShowDecimal(status) + " " + if status in REASONS then REASONS[status] else "OK"
  {
    assert Reason(status) == if status in REASONS then REASONS[status] else "OK";
  }

  function ResponseHeaderMap(contentType: string, length: string): map<string, string> {
    map["content-type" := contentType]["content-length" := length]["connection" := "close"]
  }

  lemma ThreeHeaders(contentType: string, length: string)
    requires Text.IsWord(contentType) && Text.IsWord(length)
    ensures ParseHeaders(["Content-Type: " + contentType]
      + (["Content-Length: " + length] + (["Connection: close"] + ["", ""])), map[])
      == ResponseHeaderMap(contentType, length)
  {
    var m1 := map["content-type" := contentType];
    var r2 := ["Connection: close"] + ["", ""];
    ContentTypeLine(contentType, ["Content-Length: " + length] + r2, map[]);
    ContentLengthLine(length, r2, m1);
    ConnectionLine(["", ""], m1["content-length" := length]);
  }

  lemma ResponseHeaders(status: uint16, contentType: string, length: nat)
    requires Text.IsWord(contentType)
    ensures ParseHeaders(ResponseLines(status, contentType, length)[1..] + ["", ""], map[])
      == ResponseHeaderMap(contentType, Text.ShowDecimal(length))
  {
    Text.DecimalIsWord(length);
    ThreeHeaders(contentType, Text.ShowDecimal(length));
    assert ResponseLines(status, contentType, length)[1..] + ["", ""] ==
      ["Content-Type: " + contentType] + (["Content-Length: " + Text.ShowDecimal(length)]
      + (["Connection: close"] + ["", ""]));
  }

  /** The head of a response says what follows: the status, the content type and the length of the body. */
  lemma ResponseHeadParses(status: uint16, contentType: string, length: nat)
    requires Text.IsWord(contentType) && length <= MAX_BODY_SIZE
    ensures ParseHead(Utf8.Encode(HeadText(ResponseLines(status, contentType, length)))) ==
      Ok(Head("HTTP/1.1", Text.ShowDecimal(status), ResponseHeaderMap(contentType, Text.ShowDecimal(length)), length))
  {
    WordHasNoReturn(contentType);
    ResponseLinesAreHeadLines(status, contentType, length);
    ResponseHeaders(status, contentType, length);
    ParseUnsignedRoundTrip(length, USIZE_MAX);
    ResponseWords(status);
    HeadParses(ResponseLines(status, contentType, length), ResponseHeaderMap(contentType, Text.ShowDecimal(length)),
               length);
  }

  lemma ResponseWords(status: uint16)
    ensures var words := Text.Words("HTTP/1.1 " + Text.ShowDecimal(status) + " " + Reason(status));
      |words| >= 2 && words[0] == "HTTP/1.1" && words[1] == Text.ShowDecimal(status)
  {
    var n := Text.ShowDecimal(status);
    Text.DecimalIsWord(status);
    SecondWord("HTTP/1.1", n, Reason(status));
    Regroup("HTTP/1.1", n, Reason(status));
    assert "HTTP/1.1 " == "HTTP/1.1" + " ";
    assert "HTTP/1.1 " + n + " " + Reason(status) == "HTTP/1.1" + " " + n + (" " + Reason(status));
  }

  /** The client refuses a response without a blank line. */
  lemma ResponseNeedsBlankLine(resp: Bytes)
    requires forall q :: !EndsHead(resp, q)
    ensures ParseHttpResponse(resp) == Err(NoTerminator)
  {
  }

  lemma AcceptedParts(resp: Bytes, r: (uint16, Bytes)) returns (end: nat, head: string)
    requires ParseHttpResponse(resp) == Ok(r)
    ensures Terminator(resp) == Some(end) && Utf8.Decode(resp[..end]) == Some(head)
    ensures r.1 == resp[end + 4..] && head != ""
  {
    end := Terminator(resp).value;
    head := Utf8.Decode(resp[..end]).value;
  }

  lemma PartsOfResponse(resp: Bytes, end: nat)
    requires EndsHead(resp, end)
    ensures resp == resp[..end] + [13, 10, 13, 10] + resp[end + 4..]
  {
  }

  /** What it accepts is text up to the first blank line, and whatever follows is the body. */
  lemma ResponseAccepted(resp: Bytes, r: (uint16, Bytes)) returns (head: string)
    requires ParseHttpResponse(resp) == Ok(r)
    ensures Utf8.Encode(head) + [13, 10, 13, 10] + r.1 == resp && head != ""
    ensures forall q :: 0 <= q < |Utf8.Encode(head)| ==> !EndsHead(resp, q)
  {
    var end;
    end, head := AcceptedParts(resp, r);
    Utf8.EncodeUndoesDecode(resp[..end]);
    PartsOfResponse(resp, end);
  }

  // ---- Refusals of the server ----

  /** What the header fields decide: a content length that is no number, or more than 4 MiB, is refused;
      without one the body is empty. */
  ghost predicate DecidesLength(headers: map<string, string>, r: Result<Head, HttpError>) {
    if "content-length" !in headers then r.Ok? && r.value.contentLength == 0
    else if !Number(headers["content-length"]) then r == Err(BadLength)
    else
      var n := Text.DecimalValue(Unsigned(headers["content-length"]));
      if n > 0xFFFF_FFFF_FFFF_FFFF then r == Err(BadLength)
      else if n > 4 * 1024 * 1024 then r == Err(BodyTooLarge)
      else r.Ok? && r.value.contentLength == n && r.value.headers == headers
  }

  /** Bytes that are no text are refused. */
  lemma HeadIsText(bs: Bytes)
    ensures ParseHead(bs) == Err(BadEncoding) <==> !exists s :: Utf8.Encode(s) == bs
  {
    if s :| Utf8.Encode(s) == bs {
      Utf8.DecodeUndoesEncode(s);
    }
    if Utf8.Decode(bs).Some? {
      Utf8.EncodeUndoesDecode(bs);
    }
  }

  lemma LengthDecides(lines: seq<string>, headers: map<string, string>)
    requires lines != [] && forall line :: line in lines ==> IsHeadLine(line)
    requires ParseHeaders(lines[1..] + ["", ""], map[]) == headers
    ensures DecidesLength(headers, ParseHead(Utf8.Encode(HeadText(lines))))
  {
    Utf8.DecodeUndoesEncode(HeadText(lines));
    SplitHead(lines);
    assert (lines + ["", ""])[1..] == lines[1..] + ["", ""];
    LengthDecided(Utf8.Encode(HeadText(lines)), HeadText(lines), lines + ["", ""], headers);
  }

  lemma LengthDecided(bs: Bytes, text: string, lines: seq<string>, headers: map<string, string>)
    requires Utf8.Decode(bs) == Some(text) && SplitLines(text) == lines
    requires ParseHeaders(lines[1..], map[]) == headers
    ensures DecidesLength(headers, ParseHead(bs))
  {
    if "content-length" in headers {
      UnsignedIs(headers["content-length"], USIZE_MAX);
    }
  }

  lemma UnsignedIs(s: string, max: nat)
    ensures ParseUnsigned(s, max) ==
      if Number(s) && Text.DecimalValue(Unsigned(s)) <= max then Some(Text.DecimalValue(Unsigned(s))) else None
  {
  }

  /** The text without a plus sign in front of it. */
  function Unsigned(s: string): string {
    if s != "" && s[0] == '+' then s[1..] else s
  }

  /** An optional plus sign and at least one digit. */
  predicate Number(s: string) {
    Unsigned(s) != "" && Text.AllDigits(Unsigned(s))
  }

  /** Header lines count up to the first empty one; lines without a colon are skipped, names lose their case and
      both sides their surrounding whitespace, and a later value replaces an earlier one. */
  lemma HeaderLinesRead(k: string, v: string, rest: seq<string>, headers: map<string, string>, plain: string)
    requires k + ":" + v != "" && ':' !in k && ':' !in plain && plain != ""
    ensures ParseHeaders([""] + rest, headers) == headers
    ensures ParseHeaders([plain] + rest, headers) == ParseHeaders(rest, headers)
    ensures ParseHeaders([k + ":" + v] + rest, headers) ==
      ParseHeaders(rest, headers[Text.ToLower(Text.Trim(k)) := Text.Trim(v)])
  {
    SplitOnceAfter(k, v);
    NoColon(plain);
    assert ([plain] + rest)[1..] == rest && ([k + ":" + v] + rest)[1..] == rest;
  }

  lemma {:induction false} NoColon(line: string)
    requires ':' !in line
    ensures SplitOnce(line, ':') == None
  {
    if line != "" {
      NoColon(line[1..]);
    }
  }
}
