/**
 The worker's output as newline-framed results: whether it is accepted, and with which results, depends only on
 the whole stream and not on how it is cut into chunks.
 */
module WorkerOutput {
  import opened Options
  import opened Splitting
  import opened Utf16

  type Bytes = seq<Byte>

  const NEWLINE: Byte := 0x0A

  type Compilation = JsString

  /** `parse` reads one line as UTF-8 JSON; it is absent when that throws. */
  datatype Config = Config(
    maxResultBytes: nat, maxBatchResultBytes: nat, expected: nat, parse: Bytes -> Option<Compilation>)

  datatype Failure = BatchLimit | ResultLimit | InvalidLine | WrongCount | WorkerFailed | InvalidReport

  datatype Outcome = Accepted(results: seq<Compilation>) | Failed(failure: Failure)

  datatype State = State(pending: Bytes, bytes: nat, results: seq<Compilation>, settled: Option<Outcome>)

  const START: State := State([], 0, [], None)

  // ----- lines

  /** The stream cut at every newline; what follows the last newline is the last line. */
  function Lines(s: Bytes): (lines: seq<Bytes>)
    ensures lines != []
  {
    Split(s, NEWLINE)
  }

  lemma OneLine(line: Bytes)
    requires NEWLINE !in line
    ensures Lines(line + [NEWLINE]) == [line, []]
  {
    OneSeparator(line, NEWLINE);
  }

  lemma MoreLines(s: Bytes, more: Bytes)
    ensures Lines(s + more) == Front(Lines(s)) + Lines(Last(Lines(s)) + more)
  {
    SplitAppend(s, more, NEWLINE);
  }

  // ----- what is accepted

  ghost predicate GoodLine(config: Config, line: Bytes) {
    line == [] || (|line| <= config.maxResultBytes && config.parse(line).Some?)
  }

  ghost predicate GoodLines(config: Config, lines: seq<Bytes>) { forall i :: 0 <= i < |lines| ==> GoodLine(config, lines[i]) }

  function Values(config: Config, lines: seq<Bytes>): seq<Compilation> {
    if lines == [] then []
    else
      var front := Values(config, lines[..|lines| - 1]);
      var value := config.parse(lines[|lines| - 1]);
      if lines[|lines| - 1] == [] || value.None? then front else front + [value.value]
  }

  /** The whole stream and each line are within their limits and every non-empty line parses. */
  ghost predicate Acceptable(config: Config, stream: Bytes) {
    |stream| <= config.maxBatchResultBytes && GoodLines(config, Lines(stream))
  }

  lemma {:induction false} ValuesAppend(config: Config, a: seq<Bytes>, b: seq<Bytes>)
    ensures Values(config, a + b) == Values(config, a) + Values(config, b)
  {
    if b == [] {
      assert a + b == a;
    } else {
      assert (a + b)[..|a + b| - 1] == a + b[..|b| - 1];
      ValuesAppend(config, a, b[..|b| - 1]);
    }
  }

  // ----- handling a chunk

  /** `acceptResult`. */
  function AcceptLine(config: Config, results: seq<Compilation>, line: Bytes): Outcome {
    if line == [] then Accepted(results)
    else if |line| > config.maxResultBytes then Failed(ResultLimit)
    else match config.parse(line)
      case None => Failed(InvalidLine)
      case Some(value) => Accepted(results + [value])
  }

  lemma AcceptLineIff(config: Config, results: seq<Compilation>, line: Bytes)
    ensures AcceptLine(config, results, line) == (
      if GoodLine(config, line) then Accepted(results + Values(config, [line])) else AcceptLine(config, results, line))
    ensures AcceptLine(config, results, line).Accepted? <==> GoodLine(config, line)
  {
    assert [line][..0] == [];
    assert Values(config, []) == [];
    assert results + [] == results;
  }

  function AcceptLines(config: Config, results: seq<Compilation>, lines: seq<Bytes>): Outcome {
    if lines == [] then Accepted(results)
    else match AcceptLines(config, results, lines[..|lines| - 1])
      case Failed(failure) => Failed(failure)
      case Accepted(before) => AcceptLine(config, before, lines[|lines| - 1])
  }

  lemma {:induction false} AcceptLinesIff(config: Config, results: seq<Compilation>, lines: seq<Bytes>)
    ensures AcceptLines(config, results, lines).Accepted? <==> GoodLines(config, lines)
    ensures GoodLines(config, lines) ==> AcceptLines(config, results, lines) == Accepted(results + Values(config, lines))
  {
    hide AcceptLine;
    if lines == [] {
      assert results + [] == results;
    } else {
      var front, last := lines[..|lines| - 1], lines[|lines| - 1];
      AcceptLinesIff(config, results, front);
      assert lines == front + [last];
      ValuesAppend(config, front, [last]);
      if GoodLines(config, front) {
        AcceptLineIff(config, results + Values(config, front), last);
        assert results + Values(config, front) + Values(config, [last]) == results + Values(config, lines);
      }
    }
  }

  function Chunk(config: Config, st: State, chunk: Bytes): State {
    if st.settled.Some? then st
    else
      var counted := st.(bytes := st.bytes + |chunk|);
      if counted.bytes > config.maxBatchResultBytes then counted.(settled := Some(Failed(BatchLimit)))
      else
        var lines := Lines(st.pending + chunk);
        match AcceptLines(config, st.results, Front(lines))
        case Failed(failure) => counted.(settled := Some(Failed(failure)))
        case Accepted(results) =>
          var after := counted.(pending := Last(lines), results := results);
          if |after.pending| > config.maxResultBytes then after.(settled := Some(Failed(ResultLimit))) else after
  }

  function Chunks(config: Config, chunks: seq<Bytes>): State {
    if chunks == [] then START else Chunk(config, Chunks(config, chunks[..|chunks| - 1]), chunks[|chunks| - 1])
  }

  function Stream(chunks: seq<Bytes>): Bytes {
    if chunks == [] then [] else Stream(chunks[..|chunks| - 1]) + chunks[|chunks| - 1]
  }

  /** What the worker process leaves behind: its exit status and whether its resource report is valid. */
  datatype Exit = Exit(clean: bool, validReport: bool)

  function Close(config: Config, st: State, exit: Exit): Outcome {
    if st.settled.Some? then st.settled.value
    else if !exit.clean then Failed(WorkerFailed)
    else match (if st.pending == [] then Accepted(st.results) else AcceptLine(config, st.results, st.pending))
      case Failed(failure) => Failed(failure)
      case Accepted(results) =>
        if |results| != config.expected then Failed(WrongCount)
        else if !exit.validReport then Failed(InvalidReport) else Accepted(results)
  }

  // ----- independence of the chunks

  /** No continuation of the stream can be accepted. */
  ghost predicate Hopeless(config: Config, stream: Bytes) { forall more: Bytes :: !Acceptable(config, stream + more) }

  /** What the handler knows after any chunks: the last line, the results before it, or that nothing can save the stream. */
  ghost predicate Tracks(config: Config, st: State, stream: Bytes) {
    if st.settled.Some? then st.settled.value.Failed? && Hopeless(config, stream)
    else
      && st.bytes == |stream| <= config.maxBatchResultBytes
      && st.pending == Last(Lines(stream)) && GoodLines(config, Front(Lines(stream)))
      && st.results == Values(config, Front(Lines(stream)))
  }

  lemma BadLineIsHopeless(config: Config, stream: Bytes)
    requires !GoodLines(config, Front(Lines(stream)))
    ensures Hopeless(config, stream)
  {
    forall more: Bytes ensures !Acceptable(config, stream + more) {
      MoreLines(stream, more);
      var front := Front(Lines(stream));
      var i :| 0 <= i < |front| && !GoodLine(config, front[i]);
      assert Lines(stream + more)[i] == front[i];
    }
  }

  lemma LongLineIsHopeless(config: Config, stream: Bytes)
    requires |Last(Lines(stream))| > config.maxResultBytes
    ensures Hopeless(config, stream)
  {
    var last := Last(Lines(stream));
    PartsHaveNone(stream, NEWLINE);
    forall more: Bytes ensures !Acceptable(config, stream + more) {
      MoreLines(stream, more);
      FirstExtends(last, more, NEWLINE);
      var all := Lines(stream + more);
      var line := Lines(last + more)[0];
      assert all[|Front(Lines(stream))|] == line && |line| >= |last|;
      assert !GoodLine(config, line);
    }
  }

  lemma LongStreamIsHopeless(config: Config, stream: Bytes)
    requires |stream| > config.maxBatchResultBytes
    ensures Hopeless(config, stream)
  {
  }

  lemma HopelessStays(config: Config, stream: Bytes, more: Bytes)
    requires Hopeless(config, stream)
    ensures Hopeless(config, stream + more)
  {
    forall rest: Bytes ensures !Acceptable(config, stream + more + rest) { assert stream + more + rest == stream + (more + rest); }
  }

  lemma ChunkTracks(config: Config, st: State, stream: Bytes, chunk: Bytes)
    requires Tracks(config, st, stream)
    ensures Tracks(config, Chunk(config, st, chunk), stream + chunk)
  {
    hide Lines, GoodLines, Hopeless, AcceptLines, Values;
    if st.settled.Some? {
      HopelessStays(config, stream, chunk);
    } else if st.bytes + |chunk| > config.maxBatchResultBytes {
      LongStreamIsHopeless(config, stream + chunk);
    } else {
      var lines := Lines(st.pending + chunk);
      MoreLines(stream, chunk);
      var done := Front(Lines(stream));
      assert Front(Lines(stream + chunk)) == done + Front(lines) && Last(Lines(stream + chunk)) == Last(lines);
      AcceptLinesIff(config, st.results, Front(lines));
      GoodLinesAppend(config, done, Front(lines));
      ValuesAppend(config, done, Front(lines));
      if !GoodLines(config, Front(lines)) {
        BadLineIsHopeless(config, stream + chunk);
      } else if |Last(lines)| > config.maxResultBytes {
        LongLineIsHopeless(config, stream + chunk);
      }
    }
  }

  lemma GoodLinesAppend(config: Config, a: seq<Bytes>, b: seq<Bytes>)
    ensures GoodLines(config, a + b) <==> GoodLines(config, a) && GoodLines(config, b)
  {
    if GoodLines(config, a + b) {
      forall i | 0 <= i < |a| ensures GoodLine(config, a[i]) { assert (a + b)[i] == a[i]; }
      forall i | 0 <= i < |b| ensures GoodLine(config, b[i]) { assert (a + b)[|a| + i] == b[i]; }
    }
  }

  lemma {:induction false} ChunksTrack(config: Config, chunks: seq<Bytes>)
    ensures Tracks(config, Chunks(config, chunks), Stream(chunks))
  {
    if chunks == [] {
      assert Lines([]) == [[]];
    } else {
      ChunksTrack(config, chunks[..|chunks| - 1]);
      ChunkTracks(config, Chunks(config, chunks[..|chunks| - 1]), Stream(chunks[..|chunks| - 1]), chunks[|chunks| - 1]);
    }
  }

  /** What the whole stream decides, with no mention of chunks. */
  ghost predicate AcceptsStream(config: Config, stream: Bytes, exit: Exit) {
    Acceptable(config, stream) && exit.clean && exit.validReport && |Values(config, Lines(stream))| == config.expected
  }

  /** Output is accepted exactly when the stream is acceptable, and the results are its non-empty lines in order. */
  lemma AcceptanceIsOfTheStream(config: Config, chunks: seq<Bytes>, exit: Exit)
    ensures var outcome := Close(config, Chunks(config, chunks), exit);
      && (outcome.Accepted? <==> AcceptsStream(config, Stream(chunks), exit))
      && (outcome.Accepted? ==> outcome.results == Values(config, Lines(Stream(chunks))))
  {
    hide Lines, Chunks, Stream, Values, GoodLines;
    ChunksTrack(config, chunks);
    var st, stream := Chunks(config, chunks), Stream(chunks);
    if st.settled.Some? {
      assert stream + [] == stream;
      assert !Acceptable(config, stream + []);
    } else {
      var lines := Lines(stream);
      assert lines == Front(lines) + [Last(lines)];
      GoodLinesAppend(config, Front(lines), [Last(lines)]);
      OneGoodLine(config, Last(lines));
      ValuesAppend(config, Front(lines), [Last(lines)]);
      AcceptLineIff(config, st.results, st.pending);
    }
  }

  lemma OneGoodLine(config: Config, line: Bytes)
    ensures GoodLines(config, [line]) <==> GoodLine(config, line)
  {
    if GoodLines(config, [line]) { assert [line][0] == line; }
  }

  /** So two ways of cutting one stream are accepted alike, with the same results. */
  lemma ChunksDoNotMatter(config: Config, a: seq<Bytes>, b: seq<Bytes>, exit: Exit)
    requires Stream(a) == Stream(b)
    ensures var p, q := Close(config, Chunks(config, a), exit), Close(config, Chunks(config, b), exit);
      if p.Accepted? then q == p else q.Failed?
  {
    hide Lines, Chunks, Stream, Values, Close, AcceptsStream;
    AcceptanceIsOfTheStream(config, a, exit);
    AcceptanceIsOfTheStream(config, b, exit);
  }

  // ----- which failure is reported

  /** No completed line is bad, and the last one is not too long yet. */
  ghost predicate ShowsNothing(config: Config, s: Bytes) {
    GoodLines(config, Front(Lines(s))) && |Last(Lines(s))| <= config.maxResultBytes
  }

  /** The failure that some bytes show by themselves: that of their first bad line. */
  function Seen(config: Config, s: Bytes): Option<Failure> {
    var lines := Lines(s);
    match AcceptLines(config, [], Front(lines))
    case Failed(failure) => Some(failure)
    case Accepted(_) => if |Last(lines)| > config.maxResultBytes then Some(ResultLimit) else None
  }

  lemma SeenIff(config: Config, s: Bytes)
    ensures Seen(config, s).None? <==> ShowsNothing(config, s)
  {
    hide Lines, AcceptLines, GoodLines;
    AcceptLinesIff(config, [], Front(Lines(s)));
  }

  lemma {:induction false} AcceptLinesAppend(config: Config, results: seq<Compilation>, a: seq<Bytes>, b: seq<Bytes>)
    ensures AcceptLines(config, results, a + b) ==
      var before := AcceptLines(config, results, a);
      if before.Failed? then before else AcceptLines(config, before.results, b)
  {
    hide AcceptLine;
    if b == [] {
      assert a + b == a;
    } else {
      assert (a + b)[..|a + b| - 1] == a + b[..|b| - 1];
      AcceptLinesAppend(config, results, a, b[..|b| - 1]);
    }
  }

  lemma LongLineFails(config: Config, results: seq<Compilation>, lines: seq<Bytes>)
    requires lines != [] && |lines[0]| > config.maxResultBytes
    ensures AcceptLines(config, results, lines) == Failed(ResultLimit)
  {
    assert lines == [lines[0]] + lines[1..];
    AcceptLinesAppend(config, results, [lines[0]], lines[1..]);
    assert AcceptLines(config, results, []) == Accepted(results);
    assert lines[..1] == [lines[0]] && [lines[0]][..0] == lines[..0];
  }

  /** What has been seen stays, whatever follows. */
  lemma SeenStays(config: Config, s: Bytes, more: Bytes)
    requires Seen(config, s).Some?
    ensures Seen(config, s + more) == Seen(config, s)
  {
    hide Lines, AcceptLines;
    MoreLines(s, more);
    var done, last := Front(Lines(s)), Last(Lines(s));
    var tail := Lines(last + more);
    assert Front(Lines(s + more)) == done + Front(tail) && Last(Lines(s + more)) == Last(tail);
    AcceptLinesAppend(config, [], done, Front(tail));
    var before := AcceptLines(config, [], done);
    if before.Accepted? {
      LastHasNone(s);
      FirstIsLonger(last, more);
      if |tail| > 1 {
        LongLineFails(config, before.results, Front(tail));
      } else {
        assert done + Front(tail) == done;
      }
    }
  }

  lemma LastHasNone(s: Bytes)
    ensures NEWLINE !in Last(Lines(s))
  {
    PartsHaveNone(s, NEWLINE);
  }

  lemma FirstIsLonger(last: Bytes, more: Bytes)
    requires NEWLINE !in last
    ensures |Lines(last + more)[0]| >= |last|
  {
    FirstExtends(last, more, NEWLINE);
  }

  /** Within the limit of the batch, a stream has settled exactly when it shows a failure, however it was cut. */
  lemma {:induction false} SettledIsSeen(config: Config, chunks: seq<Bytes>)
    requires |Stream(chunks)| <= config.maxBatchResultBytes
    ensures var seen := Seen(config, Stream(chunks));
      Chunks(config, chunks).settled == if seen.Some? then Some(Failed(seen.value)) else None
  {
    hide Lines, AcceptLines, GoodLines, Values, Seen, Tracks, Hopeless;
    if chunks == [] {
      NothingSeen(config);
    } else {
      var before, chunk := chunks[..|chunks| - 1], chunks[|chunks| - 1];
      SettledIsSeen(config, before);
      ChunksTrack(config, before);
      if Seen(config, Stream(before)).Some? {
        SeenStays(config, Stream(before), chunk);
      } else {
        ChunkSees(config, Chunks(config, before), Stream(before), chunk);
      }
    }
  }

  lemma NothingSeen(config: Config)
    ensures Seen(config, []).None?
  {
    assert Lines([]) == [[]];
  }

  lemma ChunkSees(config: Config, st: State, stream: Bytes, chunk: Bytes)
    requires Tracks(config, st, stream) && st.settled.None? && |stream + chunk| <= config.maxBatchResultBytes
    ensures var seen := Seen(config, stream + chunk);
      Chunk(config, st, chunk).settled == if seen.Some? then Some(Failed(seen.value)) else None
  {
    hide Lines, AcceptLines, GoodLines, Values, Hopeless;
    MoreLines(stream, chunk);
    var done, lines := Front(Lines(stream)), Lines(st.pending + chunk);
    assert Front(Lines(stream + chunk)) == done + Front(lines) && Last(Lines(stream + chunk)) == Last(lines);
    AcceptLinesIff(config, [], done);
    assert [] + Values(config, done) == Values(config, done);
    AcceptLinesAppend(config, [], done, Front(lines));
  }

  /** Beyond the limit, either the overflow is reported or what the bytes within the limit show. */
  lemma {:induction false} OverflowOrSeen(config: Config, chunks: seq<Bytes>)
    requires |Stream(chunks)| > config.maxBatchResultBytes
    ensures var seen := Seen(config, Stream(chunks)[..config.maxBatchResultBytes]);
      var settled := Chunks(config, chunks).settled;
      settled == Some(Failed(BatchLimit)) || (seen.Some? && settled == Some(Failed(seen.value)))
  {
    hide Seen, Tracks;
    var before, chunk := chunks[..|chunks| - 1], chunks[|chunks| - 1];
    var stream, within := Stream(chunks), Stream(chunks)[..config.maxBatchResultBytes];
    if |Stream(before)| > config.maxBatchResultBytes {
      OverflowOrSeen(config, before);
      assert Stream(before)[..config.maxBatchResultBytes] == within;
    } else {
      SettledIsSeen(config, before);
      if Seen(config, Stream(before)).Some? {
        assert within == Stream(before) + stream[|Stream(before)|..config.maxBatchResultBytes];
        SeenStays(config, Stream(before), stream[|Stream(before)|..config.maxBatchResultBytes]);
      } else {
        UnsettledBytes(config, before);
      }
    }
  }

  lemma UnsettledBytes(config: Config, chunks: seq<Bytes>)
    ensures Chunks(config, chunks).settled.None? ==> Chunks(config, chunks).bytes == |Stream(chunks)|
  {
    ChunksTrack(config, chunks);
  }

  /** In one chunk, a stream beyond the limit overflows; cut at the limit, it may show a failure first. */
  lemma TwoCuts(config: Config, stream: Bytes) returns (whole: seq<Bytes>, cut: seq<Bytes>)
    requires |stream| > config.maxBatchResultBytes
    ensures Stream(whole) == stream && Stream(cut) == stream
    ensures Chunks(config, whole).settled == Some(Failed(BatchLimit))
    ensures var seen := Seen(config, stream[..config.maxBatchResultBytes]);
      seen.Some? ==> Chunks(config, cut).settled == Some(Failed(seen.value)) && seen.value != BatchLimit
  {
    hide Seen, Lines;
    var within, rest := stream[..config.maxBatchResultBytes], stream[config.maxBatchResultBytes..];
    var first: seq<Bytes> := [within];
    whole, cut := [stream], [within, rest];
    assert whole[..0] == [] && cut[..1] == first && first[..0] == [];
    assert [] + stream == stream && [] + within == within && within + rest == stream;
    assert Stream(first) == within;
    SettledIsSeen(config, first);
    SeenIsOfALine(config, within);
  }

  lemma SeenIsOfALine(config: Config, s: Bytes)
    ensures Seen(config, s) != Some(BatchLimit)
  {
    hide AcceptLines, Lines;
    LinesFail(config, [], Front(Lines(s)));
  }

  lemma {:induction false} LinesFail(config: Config, results: seq<Compilation>, lines: seq<Bytes>)
    ensures AcceptLines(config, results, lines) != Failed(BatchLimit)
  {
    if lines == [] {
    } else {
      LinesFail(config, results, lines[..|lines| - 1]);
    }
  }

  /** Every way of cutting the stream has the same outcome, failures included. */
  ghost predicate CutsAgree(config: Config, stream: Bytes, exit: Exit) {
    forall a, b :: Stream(a) == stream && Stream(b) == stream ==> Close(config, Chunks(config, a), exit) == Close(config, Chunks(config, b), exit)
  }

  /** The reported failure is that of the stream exactly when it is within the limit or shows nothing up to the limit. */
  lemma CutsAgreeIff(config: Config, stream: Bytes, exit: Exit)
    ensures CutsAgree(config, stream, exit) <==>
      |stream| <= config.maxBatchResultBytes || ShowsNothing(config, stream[..config.maxBatchResultBytes])
  {
    hide Lines, Chunks, Stream, Values, GoodLines, Seen, ShowsNothing, AcceptLines;
    if |stream| <= config.maxBatchResultBytes {
      forall a, b | Stream(a) == stream && Stream(b) == stream
        ensures Close(config, Chunks(config, a), exit) == Close(config, Chunks(config, b), exit)
      {
        SettledIsSeen(config, a);
        SettledIsSeen(config, b);
        ChunksTrack(config, a);
        ChunksTrack(config, b);
      }
    } else {
      var within := stream[..config.maxBatchResultBytes];
      SeenIff(config, within);
      if ShowsNothing(config, within) {
        forall a | Stream(a) == stream ensures Close(config, Chunks(config, a), exit) == Failed(BatchLimit) { OverflowOrSeen(config, a); }
      } else {
        var whole, cut := TwoCuts(config, stream);
        assert Close(config, Chunks(config, whole), exit) != Close(config, Chunks(config, cut), exit);
      }
    }
  }

  /** Every way of cutting the stream reports the overflow of the batch exactly when it shows nothing up to the limit it exceeds. */
  lemma OverflowReportedIff(config: Config, stream: Bytes, exit: Exit)
    ensures (forall a :: Stream(a) == stream ==> Close(config, Chunks(config, a), exit) == Failed(BatchLimit)) <==>
      |stream| > config.maxBatchResultBytes && ShowsNothing(config, stream[..config.maxBatchResultBytes])
  {
    hide Lines, Chunks, Stream, Values, GoodLines, Seen, ShowsNothing, AcceptLines;
    if |stream| > config.maxBatchResultBytes {
      SeenIff(config, stream[..config.maxBatchResultBytes]);
      forall a | Stream(a) == stream && ShowsNothing(config, stream[..config.maxBatchResultBytes])
        ensures Close(config, Chunks(config, a), exit) == Failed(BatchLimit)
      {
        OverflowOrSeen(config, a);
      }
      var whole, cut := TwoCuts(config, stream);
    } else {
      var one := OneChunk(stream);
      SettledIsSeen(config, one);
      SeenIsOfALine(config, stream);
      NoOverflow(config, one, exit);
    }
  }

  lemma OneChunk(stream: Bytes) returns (chunks: seq<Bytes>)
    ensures Stream(chunks) == stream
  {
    chunks := [stream];
    assert chunks[..0] == [];
    assert [] + stream == stream;
  }

  lemma NoOverflow(config: Config, chunks: seq<Bytes>, exit: Exit)
    requires Chunks(config, chunks).settled != Some(Failed(BatchLimit))
    ensures Close(config, Chunks(config, chunks), exit) != Failed(BatchLimit)
  {
    hide Chunks;
  }

  /** Which failure is reported can depend on the chunks: an invalid line is seen first only if it arrives first. */
  lemma FailureDependsOnChunks(config: Config, line: Bytes, exit: Exit) returns (a: seq<Bytes>, b: seq<Bytes>)
    requires line != [] && NEWLINE !in line && config.parse(line).None?
    requires config.maxResultBytes >= |line| && config.maxBatchResultBytes == |line| + 1
    ensures Stream(a) == Stream(b)
    ensures Close(config, Chunks(config, a), exit) == Failed(BatchLimit)
    ensures Close(config, Chunks(config, b), exit) == Failed(InvalidLine)
  {
    var first, more := line + [NEWLINE], [NEWLINE];
    a, b := [first + more], [first, more];
    var one: seq<Bytes> := [first];
    assert a[..0] == [] && b[..1] == one && one[..0] == [];
    assert Stream([first]) == first && Stream(b) == first + more && Stream(a) == first + more;
    assert Chunks(config, a).settled == Some(Failed(BatchLimit));
    assert [] + first == first;
    MoreLines(line, [NEWLINE]);
    SplitWithout(line, NEWLINE);
    SplitWithout([], NEWLINE);
    assert Lines(first) == Lines(line + [NEWLINE]) == [line, []] by { OneSeparator(line, NEWLINE); }
    assert Front(Lines(first)) == [line] && [line][..0] == [];
    assert AcceptLines(config, [], [line]) == AcceptLine(config, [], line) == Failed(InvalidLine);
    assert Chunks(config, [first]).settled == Some(Failed(InvalidLine));
  }

  // ----- the handlers

  /** The position of the first newline at or after a position, if any. */
  function IndexOf(s: Bytes, start: nat): (r: Option<nat>)
    requires start <= |s|
    ensures r.Some? ==> start <= r.value < |s| && s[r.value] == NEWLINE
    ensures NEWLINE !in s[start..if r.Some? then r.value else |s|]
    decreases |s| - start
  {
    if start == |s| then None
    else if s[start] == NEWLINE then Some(start)
    else
      var found := IndexOf(s, start + 1);
      assert s[start..if found.Some? then found.value else |s|] ==
        [s[start]] + s[start + 1..if found.Some? then found.value else |s|];
      found
  }

  class OutputReader {
    const config: Config
    var pending: Bytes
    var bytes: nat
    var results: seq<Compilation>
    var settled: Option<Outcome>

    ghost function Value(): State
      reads this
    {
      State(pending, bytes, results, settled)
    }

    constructor (config: Config)
      ensures this.config == config && Value() == START
    {
      this.config := config;
      pending, bytes, results, settled := [], 0, [], None;
    }

    method AcceptResult(line: Bytes)
      modifies this`results, this`settled
      ensures old(settled).Some? ==> results == old(results) && settled == old(settled)
      ensures old(settled).None? ==> match AcceptLine(config, old(results), line)
        case Failed(failure) => settled == Some(Failed(failure)) && results == old(results)
        case Accepted(after) => settled == None && results == after
    {
      if settled.Some? || line == [] { return; }
      if |line| > config.maxResultBytes {
        settled := Some(Failed(ResultLimit));
        return;
      }
      var value := config.parse(line);
      if value.None? {
        settled := Some(Failed(InvalidLine));
        return;
      }
      results := results + [value.value];
    }

    /** The stdout handler: the lines completed by the chunk, then the pending rest. */
    method OnData(chunk: Bytes)
      modifies this
      ensures settled == Chunk(config, old(Value()), chunk).settled
      ensures settled.None? ==> Value() == Chunk(config, old(Value()), chunk)
    {
      hide Lines, AcceptLines, AcceptLine, Chunk, IndexOf;
      ghost var st := Value();
      ChunkIs(config, st, chunk);
      if settled.Some? { return; }
      bytes := bytes + |chunk|;
      if bytes > config.maxBatchResultBytes {
        settled := Some(Failed(BatchLimit));
        return;
      }
      var available := pending + chunk;
      ghost var lines := Lines(available);
      ghost var before := results;
      var start := 0;
      ghost var done := 0;
      var newline := IndexOf(available, start);
      assert AcceptLines(config, before, lines[..0]) == Accepted(results) by { NoLines(config, before, lines); }
      while newline.Some?
        invariant start <= |available|
        invariant newline.Some? ==> start <= newline.value < |available| && available[newline.value] == NEWLINE
        invariant NEWLINE !in available[start..if newline.Some? then newline.value else |available|]
        invariant settled.None? && bytes == old(bytes) + |chunk| && bytes <= config.maxBatchResultBytes
        invariant done < |lines| && lines[done..] == Lines(available[start..])
        invariant AcceptLines(config, before, lines[..done]) == Accepted(results)
        decreases |available| - start
      {
        LineTaken(available, start, newline.value, lines, done);
        AcceptNext(config, before, lines, done);
        AcceptResult(available[start..newline.value]);
        if settled.Some? {
          FailureStays(config, before, lines, done + 1);
          return;
        }
        start := newline.value + 1;
        done := done + 1;
        newline := IndexOf(available, start);
      }
      LastLine(available, start, lines, done);
      pending := available[start..];
      if |pending| > config.maxResultBytes { settled := Some(Failed(ResultLimit)); }
    }

    /** The close handler. */
    method OnClose(exit: Exit) returns (outcome: Outcome)
      modifies this
      ensures outcome == Close(config, old(Value()), exit)
    {
      if settled.Some? { return settled.value; }
      if !exit.clean { return Failed(WorkerFailed); }
      if pending != [] { AcceptResult(pending); }
      if settled.Some? { return settled.value; }
      if |results| != config.expected { return Failed(WrongCount); }
      if !exit.validReport { return Failed(InvalidReport); }
      outcome := Accepted(results);
    }
  }

  lemma ChunkIs(config: Config, st: State, chunk: Bytes)
    ensures st.settled.Some? ==> Chunk(config, st, chunk) == st
    ensures st.settled.None? ==>
      var after := st.(bytes := st.bytes + |chunk|);
      var lines := Lines(st.pending + chunk);
      var accepted := AcceptLines(config, st.results, Front(lines));
      if after.bytes > config.maxBatchResultBytes then Chunk(config, st, chunk).settled == Some(Failed(BatchLimit))
      else if accepted.Failed? then Chunk(config, st, chunk).settled == Some(accepted)
      else if |Last(lines)| > config.maxResultBytes then Chunk(config, st, chunk).settled == Some(Failed(ResultLimit))
      else Chunk(config, st, chunk) == after.(pending := Last(lines), results := accepted.results) && st.settled.None?
  {
    hide Lines, AcceptLines;
  }

  lemma NoLines(config: Config, results: seq<Compilation>, lines: seq<Bytes>)
    ensures AcceptLines(config, results, lines[..0]) == Accepted(results)
  {
  }

  /** The next line ends at the next newline. */
  lemma LineTaken(available: Bytes, start: nat, newline: nat, lines: seq<Bytes>, done: nat)
    requires start <= newline < |available| && available[newline] == NEWLINE && NEWLINE !in available[start..newline]
    requires done < |lines| && lines[done..] == Lines(available[start..])
    ensures done + 1 < |lines| && lines[done] == available[start..newline] && lines[done + 1..] == Lines(available[newline + 1..])
  {
    hide Lines;
    var line, rest := available[start..newline], available[newline + 1..];
    assert available[start..] == (line + [NEWLINE]) + rest;
    OneLine(line);
    MoreLines(line + [NEWLINE], rest);
    assert [] + rest == rest;
    assert Front([line, []]) == [line];
    assert Front(Lines(line + [NEWLINE])) == [line] && Last(Lines(line + [NEWLINE])) == [];
    assert lines[done..] == [line] + Lines(rest);
    assert lines[done] == lines[done..][0];
    assert lines[done + 1..] == lines[done..][1..];
  }

  lemma AcceptNext(config: Config, results: seq<Compilation>, lines: seq<Bytes>, done: nat)
    requires done < |lines| && AcceptLines(config, results, lines[..done]).Accepted?
    ensures AcceptLines(config, results, lines[..done + 1]) ==
      AcceptLine(config, AcceptLines(config, results, lines[..done]).results, lines[done])
  {
    hide AcceptLine;
    assert lines[..done + 1][..done] == lines[..done];
  }

  lemma {:induction false} FailureStays(config: Config, results: seq<Compilation>, lines: seq<Bytes>, done: nat)
    requires done < |lines| && AcceptLines(config, results, lines[..done]).Failed?
    ensures AcceptLines(config, results, Front(lines)) == AcceptLines(config, results, lines[..done])
    decreases |lines|
  {
    hide AcceptLine;
    if done == |lines| - 1 {
      assert Front(lines) == lines[..done];
    } else {
      var shorter := Front(lines);
      assert shorter[..done] == lines[..done];
      FailureStays(config, results, shorter, done);
    }
  }

  lemma LastLine(available: Bytes, start: nat, lines: seq<Bytes>, done: nat)
    requires start <= |available| && NEWLINE !in available[start..]
    requires done < |lines| && lines[done..] == Lines(available[start..])
    ensures lines[..done] == Front(lines) && Last(lines) == available[start..]
  {
    SplitWithout(available[start..], NEWLINE);
    assert |lines| == done + 1;
    assert lines[done] == lines[done..][0];
  }
}
