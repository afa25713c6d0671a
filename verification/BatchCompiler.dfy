/**
 Compiling requests in worker batches: the planned batches contain every request once, a batch whose output
 overflows is halved recursively, and the results come back in request order.
 */
module BatchCompiler {
  import opened CompilerUniverses
  import opened Options
  import opened Sequences
  import opened Utf16
  import Sorting

  type Request = JsString

  datatype Diagnostic = Diagnostic(code: JsString, message: JsString)

  datatype Compilation = Compilation(api: JsString, diagnostics: seq<Diagnostic>)

  const OUTPUT_LIMIT: JsString := Ascii("isolation/output-limit")
  const BATCH_EXCEEDED: JsString := Ascii("API compiler batch exceeded its ")
  const FALLBACK_MAXIMUM: nat := 32

  predicate ReportsOverflow(d: Diagnostic) { d.code == OUTPUT_LIMIT && BATCH_EXCEEDED <= d.message }

  predicate Overflowed(c: Compilation) { exists i :: 0 <= i < |c.diagnostics| && ReportsOverflow(c.diagnostics[i]) }

  /** `batchOutputExceeded`: every result reports the overflow of its batch. */
  predicate BatchOutputExceeded(results: seq<Compilation>) { forall i :: 0 <= i < |results| ==> Overflowed(results[i]) }

  /** The two diagnostics of the process runner for output that is too long, by the limit in decimal. */
  function BatchLimitMessage(limit: JsString): JsString {
    Ascii("API compiler batch exceeded its ") + limit + Ascii("-byte output limit.")
  }

  function ResultLimitMessage(limit: JsString): JsString {
    Ascii("One API compiler result exceeded its ") + limit + Ascii("-byte output limit.")
  }

  /** The limit of the whole batch overflows it wherever it is reported; that of one result, or any other failure, does not. */
  lemma OnlyTheBatchLimitOverflows(c: Compilation, limit: JsString)
    ensures Diagnostic(Ascii("isolation/output-limit"), BatchLimitMessage(limit)) in c.diagnostics ==> Overflowed(c)
    ensures (forall d :: d in c.diagnostics ==>
      d.code != Ascii("isolation/output-limit") || exists m :: d.message == ResultLimitMessage(m)) ==> !Overflowed(c)
  {
    var limits := Diagnostic(Ascii("isolation/output-limit"), BatchLimitMessage(limit));
    assert BATCH_EXCEEDED <= BatchLimitMessage(limit);
    if limits in c.diagnostics {
      var i :| 0 <= i < |c.diagnostics| && c.diagnostics[i] == limits;
      assert ReportsOverflow(c.diagnostics[i]);
    }
    forall m: JsString ensures !(BATCH_EXCEEDED <= ResultLimitMessage(m)) {
      assert ResultLimitMessage(m)[0] == 'O' as int && BATCH_EXCEEDED[0] == 'A' as int;
    }
    if Overflowed(c) {
      var i :| 0 <= i < |c.diagnostics| && ReportsOverflow(c.diagnostics[i]);
      assert c.diagnostics[i] in c.diagnostics;
    }
  }

  // ----- batches of a fixed size

  method FixedBatches(length: nat, maximum: nat) returns (batches: seq<seq<nat>>)
    requires maximum >= 1
    ensures Flatten(batches) == Upto(length)
    ensures forall k :: 0 <= k < |batches| ==> 1 <= |batches[k]| <= maximum && (k < |batches| - 1 ==> |batches[k]| == maximum)
  {
    batches := [];
    var index := 0;
    while index < length
      invariant Flatten(batches) == Upto(if index < length then index else length)
      invariant forall k :: 0 <= k < |batches| ==> 1 <= |batches[k]| <= maximum
      invariant forall k :: 0 <= k < |batches| && (k < |batches| - 1 || index <= length) ==> |batches[k]| == maximum
    {
      var size := if maximum < length - index then maximum else length - index;
      var batch: seq<nat> := seq(size, offset requires 0 <= offset < size => index + offset);
      FlattenSnoc(batches, batch);
      assert Upto(index) + batch == Upto(index + size);
      batches := batches + [batch];
      index := index + maximum;
    }
  }

  // ----- planning

  datatype PlanOutcome = Explicit | DiagnosticsUniverse | Compatible | Fallback

  /** A bound the caller gave wins; `planned` is absent when the semantic planner throws. */
  method Plan(count: nat, withoutModel: bool, explicitMaximum: Option<int>, planned: Option<seq<seq<nat>>>)
    returns (batches: seq<seq<nat>>, outcome: PlanOutcome)
    requires planned.Some? ==> ExactlyOnce(planned.value, count)
    ensures ExactlyOnce(batches, count)
    ensures outcome.Explicit? <==> explicitMaximum.Some?
    ensures outcome.Explicit? ==> forall k :: 0 <= k < |batches| ==> |batches[k]| <= PositiveInteger(explicitMaximum, FALLBACK_MAXIMUM)
    ensures outcome.Fallback? ==> forall k :: 0 <= k < |batches| ==> |batches[k]| <= FALLBACK_MAXIMUM
  {
    hide Flatten, Upto;
    var maximum := PositiveInteger(explicitMaximum, FALLBACK_MAXIMUM);
    if explicitMaximum.Some? {
      batches := FixedBatches(count, maximum);
      return batches, Explicit;
    }
    if withoutModel {
      if count == 0 {
        NothingOnce();
        return [], DiagnosticsUniverse;
      }
      FlattenOne(Upto(count));
      return [Upto(count)], DiagnosticsUniverse;
    }
    if planned.Some? { return planned.value, Compatible; }
    batches := FixedBatches(count, maximum);
    outcome := Fallback;
  }

  lemma NothingOnce()
    ensures ExactlyOnce([], 0)
  {
  }

  // ----- the worker and recursive halving

  /** What comes back from a worker: it fails every request of a batch for which it has not one result each. */
  ghost predicate OneResultEach(worker: seq<Request> -> seq<Compilation>) { forall batch :: |worker(batch)| == |batch| }

  ghost predicate DrawnFrom(batch: seq<Request>, requests: seq<Request>) {
    forall k :: 0 <= k < |batch| ==> batch[k] in requests
  }

  /** The worker gave this result for the request in the batch, and the batch is not halved. */
  ghost predicate Gives(worker: seq<Request> -> seq<Compilation>, batch: seq<Request>, r: Request, c: Compilation) {
    && |worker(batch)| == |batch| && (|batch| < 2 || !BatchOutputExceeded(worker(batch)))
    && exists k :: 0 <= k < |batch| && batch[k] == r && worker(batch)[k] == c
  }

  ghost predicate Settles(worker: seq<Request> -> seq<Compilation>, requests: seq<Request>, r: Request, c: Compilation) {
    exists batch :: DrawnFrom(batch, requests) && Gives(worker, batch, r, c)
  }

  /** Each request comes back with what the worker gave for it in a batch of these requests that is not halved. */
  ghost predicate AllSettle(worker: seq<Request> -> seq<Compilation>, requests: seq<Request>, results: seq<Compilation>) {
    |results| == |requests| && forall i :: 0 <= i < |requests| ==> Settles(worker, requests, requests[i], results[i])
  }

  lemma SettlesMore(worker: seq<Request> -> seq<Compilation>, some: seq<Request>, all: seq<Request>, r: Request, c: Compilation)
    requires Settles(worker, some, r, c) && DrawnFrom(some, all)
    ensures Settles(worker, all, r, c)
  {
    hide Gives;
    var batch :| DrawnFrom(batch, some) && Gives(worker, batch, r, c);
    assert DrawnFrom(batch, all);
  }

  method CompileBatch(worker: seq<Request> -> seq<Compilation>, requests: seq<Request>) returns (results: seq<Compilation>)
    requires OneResultEach(worker)
    ensures AllSettle(worker, requests, results) && results == Halved(worker, requests)
    decreases |requests|
  {
    hide Overflowed;
    results := worker(requests);
    if |requests| < 2 || !BatchOutputExceeded(results) {
      UnhalvedSettles(worker, requests);
      return;
    }
    hide OneResultEach, Settles;
    var middle := (|requests| + 1) / 2;
    var left := CompileBatch(worker, requests[..middle]);
    var right := CompileBatch(worker, requests[middle..]);
    results := left + right;
    forall i | 0 <= i < |requests| ensures Settles(worker, requests, requests[i], results[i]) {
      if i < middle {
        assert requests[..middle][i] == requests[i];
        SettlesMore(worker, requests[..middle], requests, requests[i], results[i]);
      } else {
        assert requests[middle..][i - middle] == requests[i];
        SettlesMore(worker, requests[middle..], requests, requests[i], results[i]);
      }
    }
  }

  lemma UnhalvedSettles(worker: seq<Request> -> seq<Compilation>, requests: seq<Request>)
    requires OneResultEach(worker) && (|requests| < 2 || !BatchOutputExceeded(worker(requests)))
    ensures AllSettle(worker, requests, worker(requests))
  {
    hide BatchOutputExceeded;
    forall i | 0 <= i < |requests| ensures Settles(worker, requests, requests[i], worker(requests)[i]) {
      assert DrawnFrom(requests, requests) && Gives(worker, requests, requests[i], worker(requests)[i]);
    }
  }

  // ----- what the results mean

  /** A failure of the whole batch that is not its overflow: a timeout, an over-long result, a protocol error. */
  ghost predicate GivesUp(results: seq<Compilation>) {
    exists c :: !Overflowed(c) && forall k :: 0 <= k < |results| ==> results[k] == c
  }

  /** The worker answers each request of a batch by itself, reports the overflow of the whole batch, or gives up on it. */
  ghost predicate WorkerContract(worker: seq<Request> -> seq<Compilation>, answer: Request -> Compilation) {
    && OneResultEach(worker)
    && (forall batch :: BatchOutputExceeded(worker(batch)) || worker(batch) == Sorting.Map(batch, answer) || GivesUp(worker(batch)))
    && (forall r :: !Overflowed(answer(r)))
  }

  /** The worker gave up on the batch instead of answering it, and this is what all its requests came back with. */
  ghost predicate FailedWith(worker: seq<Request> -> seq<Compilation>, answer: Request -> Compilation, batch: seq<Request>,
                             r: Request, c: Compilation) {
    worker(batch) != Sorting.Map(batch, answer) && r in batch && !Overflowed(c) && forall k :: 0 <= k < |worker(batch)| ==> worker(batch)[k] == c
  }

  /** A result is the request's answer, the report that its own output overflows, or the failure of a whole batch. */
  lemma SettledMeans(worker: seq<Request> -> seq<Compilation>, answer: Request -> Compilation, requests: seq<Request>,
                     r: Request, c: Compilation)
    requires WorkerContract(worker, answer) && Settles(worker, requests, r, c)
    ensures || c == answer(r) || (BatchOutputExceeded(worker([r])) && worker([r]) == [c])
      || exists batch :: DrawnFrom(batch, requests) && FailedWith(worker, answer, batch, r, c)
  {
    hide Overflowed;
    var batch :| DrawnFrom(batch, requests) && Gives(worker, batch, r, c);
    var k :| 0 <= k < |batch| && batch[k] == r && worker(batch)[k] == c;
    if BatchOutputExceeded(worker(batch)) {
      assert batch == [r] && worker(batch) == [c];
    } else if worker(batch) == Sorting.Map(batch, answer) {
      assert c == answer(r);
    } else {
      assert FailedWith(worker, answer, batch, r, c);
    }
  }

  /**
   Whether a request's neighbours overflow never shows: if no single output overflows, and the worker gives up on no
   batch of these requests, all answers come back.
   */
  lemma NeighboursDoNotMatter(worker: seq<Request> -> seq<Compilation>, answer: Request -> Compilation,
                              requests: seq<Request>, results: seq<Compilation>)
    requires WorkerContract(worker, answer) && AllSettle(worker, requests, results)
    requires forall i :: 0 <= i < |requests| ==> !BatchOutputExceeded(worker([requests[i]]))
    requires forall batch :: DrawnFrom(batch, requests) ==> BatchOutputExceeded(worker(batch)) || worker(batch) == Sorting.Map(batch, answer)
    ensures results == Sorting.Map(requests, answer)
  {
    hide WorkerContract, Settles, Gives, Overflowed;
    var answers := Sorting.Map(requests, answer);
    forall i | 0 <= i < |requests| ensures results[i] == answers[i] {
      assert Settles(worker, requests, requests[i], results[i]);
      SettledMeans(worker, answer, requests, requests[i], results[i]);
      forall batch | DrawnFrom(batch, requests) && FailedWith(worker, answer, batch, requests[i], results[i]) ensures false {
        FailedIsNoOverflow(worker, answer, batch, requests[i], results[i]);
      }
    }
  }

  /** The result of compiling one planned batch. */
  function Halved(worker: seq<Request> -> seq<Compilation>, requests: seq<Request>): seq<Compilation>
    decreases |requests|
  {
    var results := worker(requests);
    if |requests| < 2 || !BatchOutputExceeded(results) then results
    else Halved(worker, requests[..(|requests| + 1) / 2]) + Halved(worker, requests[(|requests| + 1) / 2..])
  }

  ghost predicate AnswersOrOverflows(worker: seq<Request> -> seq<Compilation>, answer: Request -> Compilation, requests: seq<Request>) {
    forall batch :: DrawnFrom(batch, requests) ==>
      worker(batch) == Sorting.Map(batch, answer) || (|batch| >= 2 && BatchOutputExceeded(worker(batch)))
  }

  ghost predicate AlwaysAnswered(worker: seq<Request> -> seq<Compilation>, answer: Request -> Compilation, requests: seq<Request>) {
    forall batch :: DrawnFrom(batch, requests) ==> Halved(worker, batch) == Sorting.Map(batch, answer)
  }

  /**
   However the requests are planned, each comes back with its own answer exactly when overflow is the only way in which a
   batch of several can fail. A batch that fails otherwise, by a timeout say, takes its requests along.
   */
  lemma NeighboursNeverMatterIff(worker: seq<Request> -> seq<Compilation>, answer: Request -> Compilation, requests: seq<Request>)
    ensures AlwaysAnswered(worker, answer, requests) <==> AnswersOrOverflows(worker, answer, requests)
  {
    hide BatchOutputExceeded, Halved;
    if AnswersOrOverflows(worker, answer, requests) {
      forall batch | DrawnFrom(batch, requests) ensures Halved(worker, batch) == Sorting.Map(batch, answer) {
        HalvedAnswers(worker, answer, requests, batch);
      }
    }
    if AlwaysAnswered(worker, answer, requests) {
      forall batch | DrawnFrom(batch, requests)
        ensures worker(batch) == Sorting.Map(batch, answer) || (|batch| >= 2 && BatchOutputExceeded(worker(batch)))
      {
        HalvedIs(worker, batch);
        assert Halved(worker, batch) == Sorting.Map(batch, answer);
      }
    }
  }

  lemma HalvedIs(worker: seq<Request> -> seq<Compilation>, batch: seq<Request>)
    ensures |batch| < 2 || !BatchOutputExceeded(worker(batch)) ==> Halved(worker, batch) == worker(batch)
  {
  }

  lemma {:induction false} HalvedAnswers(worker: seq<Request> -> seq<Compilation>, answer: Request -> Compilation,
                                         requests: seq<Request>, batch: seq<Request>)
    requires AnswersOrOverflows(worker, answer, requests) && DrawnFrom(batch, requests)
    ensures Halved(worker, batch) == Sorting.Map(batch, answer)
    decreases |batch|
  {
    hide BatchOutputExceeded;
    if |batch| >= 2 && BatchOutputExceeded(worker(batch)) {
      var middle := (|batch| + 1) / 2;
      HalvedAnswers(worker, answer, requests, batch[..middle]);
      HalvedAnswers(worker, answer, requests, batch[middle..]);
      assert Sorting.Map(batch[..middle], answer) + Sorting.Map(batch[middle..], answer) == Sorting.Map(batch, answer);
    }
  }

  /** An overflow report survives only where the request alone overflows. */
  lemma OverflowOnlyAlone(worker: seq<Request> -> seq<Compilation>, answer: Request -> Compilation,
                          requests: seq<Request>, results: seq<Compilation>, i: nat)
    requires WorkerContract(worker, answer) && AllSettle(worker, requests, results) && i < |requests|
    requires Overflowed(results[i])
    ensures BatchOutputExceeded(worker([requests[i]])) && worker([requests[i]]) == [results[i]]
  {
    hide Settles, BatchOutputExceeded, Overflowed;
    assert Settles(worker, requests, requests[i], results[i]);
    SettledMeans(worker, answer, requests, requests[i], results[i]);
  }

  lemma FailedIsNoOverflow(worker: seq<Request> -> seq<Compilation>, answer: Request -> Compilation, batch: seq<Request>,
                           r: Request, c: Compilation)
    requires WorkerContract(worker, answer) && FailedWith(worker, answer, batch, r, c)
    ensures !BatchOutputExceeded(worker(batch))
  {
    hide Overflowed;
    var k :| 0 <= k < |batch| && batch[k] == r;
    assert worker(batch)[k] == c;
  }

  // ----- all batches

  ghost predicate Filled(worker: seq<Request> -> seq<Compilation>, requests: seq<Request>, output: seq<Option<Compilation>>, index: nat) {
    && index < |output| == |requests|
    && output[index].Some? && Settles(worker, requests, requests[index], output[index].value)
  }

  /** The results of one batch go to the places of its requests. */
  method PlaceBatch(worker: seq<Request> -> seq<Compilation>, requests: seq<Request>, batch: seq<nat>, output: array<Option<Compilation>>)
    requires OneResultEach(worker) && output.Length == |requests|
    requires forall k :: 0 <= k < |batch| ==> batch[k] < |requests|
    modifies output
    ensures forall i :: 0 <= i < |requests| && i !in batch ==> output[i] == old(output[i])
    ensures forall k :: 0 <= k < |batch| ==> Filled(worker, requests, output[..], batch[k])
  {
    hide OneResultEach, Settles, Overflowed;
    var chosen := seq(|batch|, k requires 0 <= k < |batch| => requests[batch[k]]);
    var results := CompileBatch(worker, chosen);
    for offset := 0 to |results|
      invariant forall i :: 0 <= i < |requests| && i !in batch ==> output[i] == old(output[i])
      invariant forall k :: 0 <= k < offset ==> Filled(worker, requests, output[..], batch[k])
    {
      assert batch[offset] in batch;
      assert chosen[offset] == requests[batch[offset]];
      SettlesMore(worker, chosen, requests, requests[batch[offset]], results[offset]);
      ghost var before := output[..];
      output[batch[offset]] := Some(results[offset]);
      assert output[..] == before[batch[offset] := Some(results[offset])];
    }
  }

  /**
   One result per request, in request order, each from a batch that is not halved. The order
   in which the batches finish does not matter, since no two of them share a place.
   */
  method CompileApisIsolated(worker: seq<Request> -> seq<Compilation>, requests: seq<Request>, batches: seq<seq<nat>>)
    returns (results: seq<Compilation>)
    requires OneResultEach(worker) && ExactlyOnce(batches, |requests|)
    ensures AllSettle(worker, requests, results)
  {
    hide OneResultEach, Settles, Overflowed, Flatten;
    if requests == [] { return []; }
    var output := new Option<Compilation>[|requests|](i => None);
    ExactlyOnceIs(batches, |requests|);
    assert batches[..0] == [];
    NothingFlattened();
    for k := 0 to |batches|
      invariant forall i: nat :: i in Flatten(batches[..k]) ==> Filled(worker, requests, output[..], i)
    {
      assert batches[..k + 1] == batches[..k] + [batches[k]];
      FlattenSnoc(batches[..k], batches[k]);
      BatchInRange(batches, k, |requests|);
      ghost var before := output[..];
      PlaceBatch(worker, requests, batches[k], output);
      forall i: nat | i in Flatten(batches[..k + 1]) ensures Filled(worker, requests, output[..], i) {
        if i in batches[k] {
          var m :| 0 <= m < |batches[k]| && batches[k][m] == i;
        } else {
          assert Filled(worker, requests, before, i);
          assert output[i] == before[i];
        }
      }
    }
    assert batches[..|batches|] == batches;
    forall i: nat | i < |requests| ensures Filled(worker, requests, output[..], i) { assert i in Flatten(batches); }
    results := [];
    for i := 0 to |requests|
      invariant |results| == i && forall k :: 0 <= k < i ==> Settles(worker, requests, requests[k], results[k])
    {
      assert Filled(worker, requests, output[..], i);
      results := results + [output[i].value];
    }
  }

  /** Planning and compiling together, whatever the planner does. */
  method CompileApis(worker: seq<Request> -> seq<Compilation>, requests: seq<Request>, files: Files, plannerThrows: bool, withoutModel: bool, explicitMaximum: Option<int>)
    returns (results: seq<Compilation>)
    requires OneResultEach(worker)
    ensures AllSettle(worker, requests, results)
  {
    hide OneResultEach, Settles, ExactlyOnce;
    var planned: Option<seq<seq<nat>>> := None;
    if !plannerThrows {
      var universes := PlanDeclarationCompilerUniverses(files, |requests|);
      planned := Some(universes);
    }
    var batches, outcome := Plan(|requests|, withoutModel, explicitMaximum, planned);
    results := CompileApisIsolated(worker, requests, batches);
  }

  lemma BatchInRange(batches: seq<seq<nat>>, k: nat, count: nat)
    requires k < |batches| && ExactlyOnce(batches, count)
    ensures forall m :: 0 <= m < |batches[k]| ==> batches[k][m] < count
  {
    ExactlyOnceIs(batches, count);
    forall m | 0 <= m < |batches[k]| ensures batches[k][m] < count { FlattenHas(batches, k, batches[k][m]); }
  }
}
