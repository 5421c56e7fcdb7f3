/**
 * The reference meaning of the client's read loop (`wait_for_response` in
 * src/mpv.rs). `Run` follows the loop read by read and line by line;
 * `FirstDecodable` is the view of the whole byte stream, independent of how it
 * is split into reads. The lemmas relate the two.
 *
 * The loop is generic here: R is what a line decodes to and E the error a
 * failing read reports.
 */
module LineFraming {
  import opened Wrappers

  newtype byte = x: int | 0 <= x < 256

  /** The line terminator b'\n'. */
  const LF: byte := 10

  /** The size of the read buffer, `[u8; 512]`. */
  const BufferSize: nat := 512

  /** `get_lf_index` as a function: the first LF at or after `from`. */
  function FindLf(s: seq<byte>, from: nat): (r: Option<nat>)
    decreases |s| - from
    ensures r.Some? ==> from <= r.value < |s|
  {
    if from >= |s| then None
    else if s[from] == LF then Some(from)
    else FindLf(s, from + 1)
  }

  /** FindLf finds the first LF at or after `from`, and finds none exactly when there is none. */
  lemma {:induction false} FindLfSpec(s: seq<byte>, from: nat)
    decreases |s| - from
    ensures FindLf(s, from).Some? ==>
              (var i := FindLf(s, from).value; from <= i < |s| && s[i] == LF && LF !in s[from..i])
    ensures FindLf(s, from).None? <==> from >= |s| || LF !in s[from..]
  {
    if from < |s| && s[from] != LF {
      FindLfSpec(s, from + 1);
      assert s[from..] == [s[from]] + s[from + 1..];
      var r := FindLf(s, from + 1);
      if r.Some? {
        assert s[from..r.value] == [s[from]] + s[from + 1..r.value];
      }
    }
  }

  /** What one read can deliver: at least one byte (a read of 0 bytes is the
      end of the stream, which the loop does not survive) and at most a buffer. */
  predicate ValidChunks(chunks: seq<seq<byte>>)
  {
    forall i :: 0 <= i < |chunks| ==> 0 < |chunks[i]| <= BufferSize
  }

  /** The result of scanning one chunk: a decoded line, or the partial line to carry into the next read. */
  datatype Scan<R> = Found(response: R) | NeedMore(line: seq<byte>)

  /** The inner loop over one chunk, from scan position `start`, with `line` accumulated so far. */
  function ScanChunk<R>(decode: seq<byte> -> Option<R>, chunk: seq<byte>, start: nat, line: seq<byte>): Scan<R>
    requires 0 < |chunk| && start <= |chunk|
    decreases |chunk| - start
  {
    var lineIndex := match FindLf(chunk, start) case Some(i) => i case None => |chunk|;
    var extended := line + chunk[start..lineIndex];
    if lineIndex == |chunk| && chunk[|chunk| - 1] != LF then NeedMore(extended)
    else if decode(extended).Some? then Found(decode(extended).value)
    else if lineIndex == |chunk| then NeedMore(extended)
    else ScanChunk(decode, chunk, lineIndex + 1, [])
  }

  /** The outcome of the read loop: a decoded response and the number of reads
      it took, the error of a failing read, or still waiting when the reads run out. */
  datatype Wait<R, E> = Received(response: R, consumed: nat) | ReadFailed(error: E) | Blocked

  /** What happens once the given reads are used up: the next read fails with
      `failure`, or, with no failure, blocks. */
  function Silent<R, E>(failure: Option<E>): Wait<R, E>
  {
    match failure
    case Some(e) => ReadFailed(e)
    case None => Blocked
  }

  /** The outer loop from read number `k`, with `line` carried over from earlier reads. */
  function Run<R, E>(decode: seq<byte> -> Option<R>, chunks: seq<seq<byte>>, failure: Option<E>,
                     k: nat, line: seq<byte>): (w: Wait<R, E>)
    requires ValidChunks(chunks) && k <= |chunks|
    decreases |chunks| - k
    ensures w.Received? ==> k < w.consumed <= |chunks|
    ensures !w.Received? ==> w == Silent(failure)
  {
    if k == |chunks| then Silent(failure)
    else match ScanChunk(decode, chunks[k], 0, line)
      case Found(r) => Received(r, k + 1)
      case NeedMore(l) => Run(decode, chunks, failure, k + 1, l)
  }

  /** The whole read loop, starting with an empty line. */
  function ReadResponse<R, E>(decode: seq<byte> -> Option<R>, chunks: seq<seq<byte>>, failure: Option<E>): Wait<R, E>
    requires ValidChunks(chunks)
  {
    Run(decode, chunks, failure, 0, [])
  }

  /** The bytes of the reads, in order. */
  function Concat(chunks: seq<seq<byte>>): seq<byte>
  {
    if chunks == [] then [] else chunks[0] + Concat(chunks[1..])
  }

  /** The first LF-terminated line of the stream that decodes, decoded. */
  function FirstDecodable<R>(decode: seq<byte> -> Option<R>, s: seq<byte>): Option<R>
    decreases |s|
  {
    match FindLf(s, 0)
    case None => None
    case Some(i) => if decode(s[..i]).Some? then decode(s[..i]) else FirstDecodable(decode, s[i + 1..])
  }

  /** The read that completes the first decodable line is read number k. */
  ghost predicate ArrivesAt<R>(decode: seq<byte> -> Option<R>, chunks: seq<seq<byte>>, k: nat, r: R)
  {
    1 <= k <= |chunks|
    && FirstDecodable(decode, Concat(chunks[..k])) == Some(r)
    && FirstDecodable(decode, Concat(chunks[..k - 1])) == None
  }

  /** `w` is what the stream as a whole calls for. */
  ghost predicate MatchesStream<R, E>(decode: seq<byte> -> Option<R>, chunks: seq<seq<byte>>, failure: Option<E>, w: Wait<R, E>)
  {
    match FirstDecodable(decode, Concat(chunks))
    case Some(r) => w.Received? && w.response == r && ArrivesAt(decode, chunks, w.consumed, r)
    case None => w == Silent(failure)
  }

  lemma FindLfAt(s: seq<byte>, from: nat, i: nat)
    requires from <= i < |s| && s[i] == LF && LF !in s[from..i]
    ensures FindLf(s, from) == Some(i)
  {
    FindLfSpec(s, from);
    assert s[from..][i - from] == LF;
  }

  /** A stream starting with a complete line: that line is tried first. */
  lemma FirstDecodableStep<R>(decode: seq<byte> -> Option<R>, x: seq<byte>, y: seq<byte>)
    requires LF !in x
    ensures FirstDecodable(decode, x + [LF] + y) == if decode(x).Some? then decode(x) else FirstDecodable(decode, y)
  {
    var s := x + [LF] + y;
    assert s[0..|x|] == x;
    FindLfAt(s, 0, |x|);
    assert s[..|x|] == x;
    assert s[|x| + 1..] == y;
  }

  /** A stream without a complete line holds no decodable line. */
  lemma FirstDecodableNoLine<R>(decode: seq<byte> -> Option<R>, x: seq<byte>)
    requires LF !in x
    ensures FirstDecodable(decode, x) == None
  {
    FindLfSpec(x, 0);
    assert x[0..] == x;
  }

  lemma ConcatFront(chunks: seq<seq<byte>>, k: nat, j: nat)
    requires k < j <= |chunks|
    ensures Concat(chunks[k..j]) == chunks[k] + Concat(chunks[k + 1..j])
  {
    assert chunks[k..j][0] == chunks[k];
    assert chunks[k..j][1..] == chunks[k + 1..j];
  }

  /** Scanning one chunk agrees with the stream view: a line found in the chunk is
      the first decodable line of what is left of the stream, and a partial line
      carried into the next read stands for the unread bytes before it. */
  lemma {:induction false} ScanMatchesStream<R>(decode: seq<byte> -> Option<R>, chunk: seq<byte>, start: nat,
                                                line: seq<byte>, rest: seq<byte>)
    requires decode([]) == None
    requires 0 < |chunk| && start <= |chunk|
    requires LF !in line
    requires start == |chunk| ==> line == []
    decreases |chunk| - start
    ensures var scan := ScanChunk(decode, chunk, start, line);
            (scan.Found? ==> FirstDecodable(decode, line + chunk[start..] + rest) == Some(scan.response))
            && (scan.NeedMore? ==> LF !in scan.line
                                   && FirstDecodable(decode, line + chunk[start..] + rest) == FirstDecodable(decode, scan.line + rest))
  {
    match FindLf(chunk, start)
    case None =>
      ScanLastSegment(decode, chunk, start, line, rest);
    case Some(i) =>
      ScanAtLf(decode, chunk, start, line, rest, i);
      if decode(line + chunk[start..i]).None? {
        ScanMatchesStream(decode, chunk, i + 1, [], rest);
      }
  }

  /** The case of ScanMatchesStream where the next LF of the chunk is at i: both the
      scan and the stream view try the line ending there first. */
  lemma ScanAtLf<R>(decode: seq<byte> -> Option<R>, chunk: seq<byte>, start: nat,
                    line: seq<byte>, rest: seq<byte>, i: nat)
    requires 0 < |chunk| && start <= |chunk|
    requires LF !in line
    requires FindLf(chunk, start) == Some(i)
    ensures var extended := line + chunk[start..i];
            LF !in extended
            && ScanChunk(decode, chunk, start, line)
               == (if decode(extended).Some? then Found(decode(extended).value) else ScanChunk(decode, chunk, i + 1, []))
            && FirstDecodable(decode, line + chunk[start..] + rest)
               == (if decode(extended).Some? then decode(extended) else FirstDecodable(decode, [] + chunk[i + 1..] + rest))
  {
    FindLfSpec(chunk, start);
    var extended := line + chunk[start..i];
    var after := chunk[i + 1..];
    SplitAtLf(line, chunk, start, i, rest);
    FirstDecodableStep(decode, extended, after + rest);
    assert [] + chunk[i + 1..] + rest == after + rest;
  }

  /** The case of ScanMatchesStream where no LF is left in the chunk. */
  lemma ScanLastSegment<R>(decode: seq<byte> -> Option<R>, chunk: seq<byte>, start: nat,
                           line: seq<byte>, rest: seq<byte>)
    requires decode([]) == None
    requires 0 < |chunk| && start <= |chunk|
    requires LF !in line
    requires start == |chunk| ==> line == []
    requires FindLf(chunk, start).None?
    ensures ScanChunk(decode, chunk, start, line) == NeedMore(line + chunk[start..])
    ensures LF !in line + chunk[start..]
  {
    FindLfSpec(chunk, start);
    assert chunk[start..|chunk|] == chunk[start..];
    if start < |chunk| {
      assert chunk[start..][|chunk| - 1 - start] == chunk[|chunk| - 1];
    } else {
      assert chunk[start..] == [];
      assert line + [] == line;
    }
  }

  lemma SplitAtLf(line: seq<byte>, chunk: seq<byte>, start: nat, i: nat, rest: seq<byte>)
    requires start <= i < |chunk| && chunk[i] == LF && LF !in chunk[start..i] && LF !in line
    ensures LF !in line + chunk[start..i]
    ensures line + chunk[start..] + rest == (line + chunk[start..i]) + [LF] + (chunk[i + 1..] + rest)
  {
    assert chunk[start..] == chunk[start..i] + [LF] + chunk[i + 1..];
  }

  /** The bytes up to read j, seen through the scan of read k: a found line stays found,
      and a partial line carried forward stands for the bytes of read k. */
  lemma ThroughChunk<R>(decode: seq<byte> -> Option<R>, chunks: seq<seq<byte>>, k: nat, j: nat, line: seq<byte>)
    requires decode([]) == None
    requires ValidChunks(chunks) && k < j <= |chunks|
    requires LF !in line
    ensures var scan := ScanChunk(decode, chunks[k], 0, line);
            (scan.Found? ==> FirstDecodable(decode, line + Concat(chunks[k..j])) == Some(scan.response))
            && (scan.NeedMore? ==>
                  (LF !in scan.line
                   && FirstDecodable(decode, line + Concat(chunks[k..j])) == FirstDecodable(decode, scan.line + Concat(chunks[k + 1..j]))))
  {
    var chunk := chunks[k];
    ConcatFront(chunks, k, j);
    assert chunk[0..] == chunk;
    assert line + Concat(chunks[k..j]) == line + chunk[0..] + Concat(chunks[k + 1..j]);
    ScanMatchesStream(decode, chunk, 0, line, Concat(chunks[k + 1..j]));
  }

  /** The outcome w of the loop from read k, with `line` carried over, is what the
      stream view of the remaining bytes calls for. */
  ghost predicate AgreesFrom<R, E>(decode: seq<byte> -> Option<R>, chunks: seq<seq<byte>>, failure: Option<E>,
                                   k: nat, line: seq<byte>, w: Wait<R, E>)
    requires k <= |chunks|
  {
    var first := FirstDecodable(decode, line + Concat(chunks[k..]));
    (first.Some? ==>
       w.Received? && w.response == first.value && k < w.consumed <= |chunks|
       && FirstDecodable(decode, line + Concat(chunks[k..w.consumed])) == first
       && FirstDecodable(decode, line + Concat(chunks[k..w.consumed - 1])) == None)
    && (first.None? ==> w == Silent(failure))
  }

  /** The read loop from read k agrees with the stream view of the remaining reads. */
  lemma {:induction false} RunMatchesStream<R, E>(decode: seq<byte> -> Option<R>, chunks: seq<seq<byte>>,
                                                  failure: Option<E>, k: nat, line: seq<byte>)
    requires decode([]) == None
    requires ValidChunks(chunks) && k <= |chunks|
    requires LF !in line
    decreases |chunks| - k, 1
    ensures AgreesFrom(decode, chunks, failure, k, line, Run(decode, chunks, failure, k, line))
  {
    if k == |chunks| {
      assert chunks[k..] == [];
      assert line + Concat(chunks[k..]) == line;
      FirstDecodableNoLine(decode, line);
    } else if ScanChunk(decode, chunks[k], 0, line).Found? {
      RunFound(decode, chunks, failure, k, line);
    } else {
      var l := ScanChunk(decode, chunks[k], 0, line).line;
      RunNeedMore(decode, chunks, failure, k, line, l);
      assert Run(decode, chunks, failure, k, line) == Run(decode, chunks, failure, k + 1, l);
    }
  }

  /** RunMatchesStream when read k completes a decodable line. */
  lemma RunFound<R, E>(decode: seq<byte> -> Option<R>, chunks: seq<seq<byte>>,
                       failure: Option<E>, k: nat, line: seq<byte>)
    requires decode([]) == None
    requires ValidChunks(chunks) && k < |chunks|
    requires LF !in line
    requires ScanChunk(decode, chunks[k], 0, line).Found?
    ensures AgreesFrom(decode, chunks, failure, k, line, Run(decode, chunks, failure, k, line))
  {
    assert chunks[k..] == chunks[k..|chunks|];
    ThroughChunk(decode, chunks, k, |chunks|, line);
    ThroughChunk(decode, chunks, k, k + 1, line);
    assert chunks[k..k] == [];
    assert line + Concat(chunks[k..k]) == line;
    FirstDecodableNoLine(decode, line);
  }

  /** RunMatchesStream when read k leaves a partial line to carry into read k + 1. */
  lemma {:induction false} RunNeedMore<R, E>(decode: seq<byte> -> Option<R>, chunks: seq<seq<byte>>,
                                             failure: Option<E>, k: nat, line: seq<byte>, l: seq<byte>)
    requires decode([]) == None
    requires ValidChunks(chunks) && k < |chunks|
    requires LF !in line
    requires ScanChunk(decode, chunks[k], 0, line) == NeedMore(l)
    decreases |chunks| - k, 0
    ensures AgreesFrom(decode, chunks, failure, k, line, Run(decode, chunks, failure, k + 1, l))
  {
    ThroughPartialChunkToEnd(decode, chunks, k, line, l);
    RunMatchesStream(decode, chunks, failure, k + 1, l);
    var w := Run(decode, chunks, failure, k + 1, l);
    if w.Received? {
      CarryBackReceived(decode, chunks, failure, k, line, l, w);
    } else {
      AgreesBackSilent(decode, chunks, failure, k, line, l, w);
    }
  }

  /** RunNeedMore when the later reads produce a response. */
  lemma CarryBackReceived<R, E>(decode: seq<byte> -> Option<R>, chunks: seq<seq<byte>>, failure: Option<E>,
                                k: nat, line: seq<byte>, l: seq<byte>, w: Wait<R, E>)
    requires decode([]) == None
    requires ValidChunks(chunks) && k < |chunks|
    requires LF !in line
    requires ScanChunk(decode, chunks[k], 0, line) == NeedMore(l)
    requires AgreesFrom(decode, chunks, failure, k + 1, l, w)
    requires w.Received?
    ensures AgreesFrom(decode, chunks, failure, k, line, w)
  {
    ThroughPartialChunkToEnd(decode, chunks, k, line, l);
    var j := w.consumed;
    ThroughPartialChunk(decode, chunks, k, j, line, l);
    ThroughPartialChunk(decode, chunks, k, j - 1, line, l);
    AgreesBackReceived(decode, chunks, failure, k, line, l, w);
  }

  /** ThroughChunk for a partial line l carried out of read k. */
  lemma ThroughPartialChunk<R>(decode: seq<byte> -> Option<R>, chunks: seq<seq<byte>>, k: nat, j: nat,
                               line: seq<byte>, l: seq<byte>)
    requires decode([]) == None
    requires ValidChunks(chunks) && k < j <= |chunks|
    requires LF !in line
    requires ScanChunk(decode, chunks[k], 0, line) == NeedMore(l)
    ensures LF !in l
    ensures FirstDecodable(decode, line + Concat(chunks[k..j])) == FirstDecodable(decode, l + Concat(chunks[k + 1..j]))
  {
    ThroughChunk(decode, chunks, k, j, line);
  }

  /** ThroughPartialChunk up to the last read. */
  lemma ThroughPartialChunkToEnd<R>(decode: seq<byte> -> Option<R>, chunks: seq<seq<byte>>, k: nat,
                                    line: seq<byte>, l: seq<byte>)
    requires decode([]) == None
    requires ValidChunks(chunks) && k < |chunks|
    requires LF !in line
    requires ScanChunk(decode, chunks[k], 0, line) == NeedMore(l)
    ensures LF !in l
    ensures FirstDecodable(decode, line + Concat(chunks[k..])) == FirstDecodable(decode, l + Concat(chunks[k + 1..]))
  {
    ThroughPartialChunk(decode, chunks, k, |chunks|, line, l);
    assert chunks[k..] == chunks[k..|chunks|];
    assert chunks[k + 1..] == chunks[k + 1..|chunks|];
  }

  /** Agreement for read k + 1 with line l carries back to read k with `line`, when the
      stream views before and after read k are the same: the case of a response. */
  lemma AgreesBackReceived<R, E>(decode: seq<byte> -> Option<R>, chunks: seq<seq<byte>>, failure: Option<E>,
                                 k: nat, line: seq<byte>, l: seq<byte>, w: Wait<R, E>)
    requires w.Received? && k + 1 < w.consumed <= |chunks|
    requires AgreesFrom(decode, chunks, failure, k + 1, l, w)
    requires FirstDecodable(decode, line + Concat(chunks[k..])) == FirstDecodable(decode, l + Concat(chunks[k + 1..]))
    requires FirstDecodable(decode, line + Concat(chunks[k..w.consumed])) == FirstDecodable(decode, l + Concat(chunks[k + 1..w.consumed]))
    requires FirstDecodable(decode, line + Concat(chunks[k..w.consumed - 1])) == FirstDecodable(decode, l + Concat(chunks[k + 1..w.consumed - 1]))
    ensures AgreesFrom(decode, chunks, failure, k, line, w)
  {
  }

  /** The same, in the case of no response. */
  lemma AgreesBackSilent<R, E>(decode: seq<byte> -> Option<R>, chunks: seq<seq<byte>>, failure: Option<E>,
                               k: nat, line: seq<byte>, l: seq<byte>, w: Wait<R, E>)
    requires k < |chunks| && !w.Received?
    requires AgreesFrom(decode, chunks, failure, k + 1, l, w)
    requires FirstDecodable(decode, line + Concat(chunks[k..])) == FirstDecodable(decode, l + Concat(chunks[k + 1..]))
    ensures AgreesFrom(decode, chunks, failure, k, line, w)
  {
  }

  /** However the stream is split into reads, the loop returns the first decodable
      line of the stream, decoded, after exactly the read that completes that line;
      with no decodable line it reports the failing read or keeps waiting. This needs
      the empty text not to decode (see EmptyLineAtChunkEnd). */
  lemma ChunkingIsInvisible<R, E>(decode: seq<byte> -> Option<R>, chunks: seq<seq<byte>>, failure: Option<E>)
    requires decode([]) == None
    requires ValidChunks(chunks)
    ensures MatchesStream(decode, chunks, failure, ReadResponse(decode, chunks, failure))
  {
    RunMatchesStream(decode, chunks, failure, 0, []);
    assert chunks[0..] == chunks;
    var w := ReadResponse(decode, chunks, failure);
    if w.Received? {
      assert chunks[0..w.consumed] == chunks[..w.consumed];
      assert chunks[0..w.consumed - 1] == chunks[..w.consumed - 1];
      assert [] + Concat(chunks[..w.consumed]) == Concat(chunks[..w.consumed]);
      assert [] + Concat(chunks[..w.consumed - 1]) == Concat(chunks[..w.consumed - 1]);
    }
    assert [] + Concat(chunks) == Concat(chunks);
  }

  /** Two ways of splitting the same bytes into reads give the same response. */
  lemma SameStreamSameResponse<R, E>(decode: seq<byte> -> Option<R>, chunks1: seq<seq<byte>>,
                                     chunks2: seq<seq<byte>>, failure: Option<E>)
    requires decode([]) == None
    requires ValidChunks(chunks1) && ValidChunks(chunks2)
    requires Concat(chunks1) == Concat(chunks2)
    ensures ReadResponse(decode, chunks1, failure).Received? <==> ReadResponse(decode, chunks2, failure).Received?
    ensures ReadResponse(decode, chunks1, failure).Received? ==>
              ReadResponse(decode, chunks1, failure).response == ReadResponse(decode, chunks2, failure).response
    ensures !ReadResponse(decode, chunks1, failure).Received? ==>
              ReadResponse(decode, chunks1, failure) == ReadResponse(decode, chunks2, failure)
  {
    ChunkingIsInvisible(decode, chunks1, failure);
    ChunkingIsInvisible(decode, chunks2, failure);
  }

  /** A single line delivered in two reads split at any byte is decoded as if it came
      in one read; only the count of reads differs. */
  lemma SplitLineAnywhere<R, E>(decode: seq<byte> -> Option<R>, line: seq<byte>, r: R, i: nat, failure: Option<E>)
    requires decode([]) == None
    requires LF !in line && decode(line) == Some(r)
    requires |line| < BufferSize
    requires 0 < i <= |line|
    ensures var s := line + [LF];
            ValidChunks([s]) && ValidChunks([s[..i], s[i..]])
            && ReadResponse(decode, [s], failure) == Received(r, 1)
            && ReadResponse(decode, [s[..i], s[i..]], failure) == Received(r, 2)
  {
    var s := line + [LF];
    FirstDecodableStep(decode, line, []);
    assert s + [] == s;
    var one := [s];
    assert Concat(one) == s by { assert one[1..] == []; }
    ChunkingIsInvisible(decode, one, failure);
    var two := [s[..i], s[i..]];
    assert Concat(two) == s by {
      assert two[1..] == [s[i..]];
      assert two[1..][1..] == [];
    }
    ChunkingIsInvisible(decode, two, failure);
    assert two[..1] == [s[..i]];
    assert Concat(two[..1]) == s[..i] by { assert two[..1][1..] == []; }
    assert s[..i] == line[..i];
    FirstDecodableNoLine(decode, line[..i]);
  }

  /** A line that fails to decode is skipped and the next line in the same chunk is
      tried without another read; the first line that decodes ends the loop, whatever
      follows it. */
  lemma SkipUndecodableLineInChunk<R, E>(decode: seq<byte> -> Option<R>, bad: seq<byte>, good: seq<byte>,
                                         tail: seq<byte>, r: R, more: seq<seq<byte>>, failure: Option<E>)
    requires LF !in bad && LF !in good
    requires decode(bad) == None && decode(good) == Some(r)
    requires ValidChunks([bad + [LF] + good + [LF] + tail] + more)
    ensures ReadResponse(decode, [bad + [LF] + good + [LF] + tail] + more, failure) == Received(r, 1)
  {
    var chunks := [bad + [LF] + good + [LF] + tail] + more;
    var chunk := chunks[0];
    assert chunk[0..|bad|] == bad;
    FindLfAt(chunk, 0, |bad|);
    var second := |bad| + 1;
    assert chunk[second..second + |good|] == good;
    FindLfAt(chunk, second, second + |good|);
    assert ScanChunk(decode, chunk, second, []) == Found(r) by {
      assert [] + chunk[second..second + |good|] == good;
    }
    assert ScanChunk(decode, chunk, 0, []) == Found(r) by {
      assert [] + chunk[0..|bad|] == bad;
    }
  }

  /** A decode is tried only at a line boundary: a chunk holding no LF is appended
      to the line whatever the decoder would say of any prefix. */
  lemma NoDecodeBeforeLf<R>(decode: seq<byte> -> Option<R>, chunk: seq<byte>, line: seq<byte>)
    requires 0 < |chunk| && LF !in chunk
    ensures ScanChunk(decode, chunk, 0, line) == NeedMore(line + chunk)
  {
    FindLfSpec(chunk, 0);
    assert chunk[0..] == chunk;
    assert chunk[|chunk| - 1] in chunk;
  }

  /** A read holding no LF only extends the pending line, and the loop reads again. */
  lemma ChunkWithoutLfIsCarried<R, E>(decode: seq<byte> -> Option<R>, chunks: seq<seq<byte>>,
                                      failure: Option<E>, k: nat, line: seq<byte>)
    requires ValidChunks(chunks) && k < |chunks|
    requires LF !in chunks[k]
    ensures Run(decode, chunks, failure, k, line) == Run(decode, chunks, failure, k + 1, line + chunks[k])
  {
    NoDecodeBeforeLf(decode, chunks[k], line);
  }

  /** Once a response is returned, nothing after the reads it consumed matters: the
      loop never reads again. */
  lemma {:induction false} LaterReadsIgnored<R, E>(decode: seq<byte> -> Option<R>, chunks: seq<seq<byte>>,
                                                   failure: Option<E>, k: nat, line: seq<byte>,
                                                   chunks2: seq<seq<byte>>, failure2: Option<E>)
    requires ValidChunks(chunks) && ValidChunks(chunks2) && k <= |chunks|
    requires Run(decode, chunks, failure, k, line).Received?
    requires Run(decode, chunks, failure, k, line).consumed <= |chunks2|
    requires chunks2[..Run(decode, chunks, failure, k, line).consumed] == chunks[..Run(decode, chunks, failure, k, line).consumed]
    decreases |chunks| - k
    ensures Run(decode, chunks2, failure2, k, line) == Run(decode, chunks, failure, k, line)
  {
    var j := Run(decode, chunks, failure, k, line).consumed;
    assert chunks2[..j][k] == chunks[..j][k];
    match ScanChunk(decode, chunks[k], 0, line)
    case Found(_) =>
    case NeedMore(l) =>
      LaterReadsIgnored(decode, chunks, failure, k + 1, l, chunks2, failure2);
  }

  /** Why ChunkingIsInvisible needs the empty text not to decode: when a line that
      fails to decode ends exactly at the end of a read, the loop also tries the empty
      text before reading again, although the stream holds no empty line. */
  lemma EmptyLineAtChunkEnd<R, E>(decode: seq<byte> -> Option<R>, line: seq<byte>, e: R, failure: Option<E>)
    requires decode([]) == Some(e) && decode(line) == None
    requires LF !in line && |line| < BufferSize
    ensures ValidChunks([line + [LF]])
    ensures ReadResponse(decode, [line + [LF]], failure) == Received(e, 1)
    ensures FirstDecodable(decode, Concat([line + [LF]])) == None
  {
    var chunk := line + [LF];
    assert chunk[0..|line|] == line;
    FindLfAt(chunk, 0, |line|);
    assert [] + chunk[0..|line|] == line;
    assert FindLf(chunk, |chunk|) == None;
    assert chunk[|chunk|..|chunk|] == [];
    assert ScanChunk(decode, chunk, |chunk|, []) == Found(e);
    assert Concat([chunk]) == chunk + [] by { assert [chunk][1..] == []; }
    FirstDecodableStep(decode, line, []);
    assert FirstDecodable(decode, []) == None;
  }
}
