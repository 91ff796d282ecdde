/**
 * The client side of the download test: the receive loop that drops the
 * warm-up window and records per-message latencies, and the summary printed
 * afterwards. The gRPC stream, the cancellation timer and the clocks are
 * replaced by a trace of what each loop iteration observes.
 */
module Client {
  import opened Results
  import opened Stats
  import opened Percentile

  /** `TimeSpan` and `DateTime` count ticks of 100 ns. */
  const TicksPerMillisecond: int := 10_000
  const TicksPerSecond: int := 10_000_000

  /** The largest tick count a `DateTime` accepts (`DateTime.MaxValue.Ticks`). */
  const MaxDateTimeTicks: int := 3_155_378_975_999_999_999

  /** One sample: the send and receive wall clocks (ticks) and the latency in milliseconds. */
  datatype MessageRecord = MessageRecord(messageTime: int, receivedTime: int, messageLatency: real)

  /** The status of an `RpcException`; only `Cancelled` is told apart by the code. */
  datatype StatusCode = Cancelled | OtherStatus

  /** What one `MoveNext` does. */
  datatype Attempt =
    | /** A message arrived: the stopwatch reading at the warm-up test, the message's
          `Ticks`, and the `DateTimeOffset.UtcNow` ticks read on receipt. */
      Delivered(elapsed: int, ticks: int, receivedAt: int)
    | /** An `RpcException`, with the stopwatch reading at which the catch filter
          asks whether cancellation was requested. */
      RpcFailed(status: StatusCode, elapsedAtCatch: int)
    | /** Any other exception. */
      Faulted

  /** One loop iteration: the stopwatch reading when the loop condition consults the
      token, and what the read does if the loop goes on. */
  datatype Step = Step(elapsedAtCheck: int, attempt: Attempt)

  /** Why the loop stopped: it is still reading when the trace runs out; the loop condition
      saw the cancellation; the expected `Cancelled` exception; or any other exception. */
  datatype LoopEnd = Receiving | DeadlineObserved | CancelledCall | Failed

  /** `cts.CancelAfter(warmUpTime + recordingTime)`: the token reports cancellation once the
      deadline has passed. */
  predicate CancellationRequested(elapsed: int, deadline: int) {
    elapsed >= deadline
  }

  /** `new DateTime(ticks, DateTimeKind.Utc)` throws outside this range. */
  predicate ValidTicks(ticks: int) {
    0 <= ticks <= MaxDateTimeTicks
  }

  /** `(receiveTime - messageTime).TotalMilliseconds`. */
  function Latency(messageTime: int, receivedTime: int): real {
    (receivedTime - messageTime) as real / TicksPerMillisecond as real
  }

  /** A step whose message is kept: it arrived after the warm-up window. */
  predicate Recorded(s: Step, warmUpTime: int) {
    s.attempt.Delivered? && s.attempt.elapsed > warmUpTime
  }

  function RecordOf(a: Attempt): MessageRecord
    requires a.Delivered?
  {
    MessageRecord(a.ticks, a.receivedAt, Latency(a.ticks, a.receivedAt))
  }

  /** The step ends the loop: cancellation seen at the top, an exception, or a kept message
      whose tick count `DateTime` rejects. */
  predicate Ends(s: Step, warmUpTime: int, deadline: int) {
    || CancellationRequested(s.elapsedAtCheck, deadline)
    || !s.attempt.Delivered?
    || (s.attempt.elapsed > warmUpTime && !ValidTicks(s.attempt.ticks))
  }

  function EndReason(s: Step, deadline: int): LoopEnd {
    if CancellationRequested(s.elapsedAtCheck, deadline) then DeadlineObserved
    else match s.attempt
      case RpcFailed(status, e) =>
        if status == Cancelled && CancellationRequested(e, deadline) then CancelledCall else Failed
      case _ => Failed
  }

  /** The index of the first step that ends the loop, or the trace's length: nothing after
      the first ending step is consumed. */
  function StopAt(steps: seq<Step>, warmUpTime: int, deadline: int): (k: nat)
    ensures k <= |steps|
    ensures forall j :: 0 <= j < k ==> !Ends(steps[j], warmUpTime, deadline)
    ensures k < |steps| ==> Ends(steps[k], warmUpTime, deadline)
  {
    if steps == [] || Ends(steps[0], warmUpTime, deadline) then 0
    else 1 + StopAt(steps[1..], warmUpTime, deadline)
  }

  function LoopOutcome(steps: seq<Step>, warmUpTime: int, deadline: int): (e: LoopEnd)
    ensures e == Receiving <==> forall j :: 0 <= j < |steps| ==> !Ends(steps[j], warmUpTime, deadline)
  {
    var k := StopAt(steps, warmUpTime, deadline);
    if k < |steps| then EndReason(steps[k], deadline) else Receiving
  }

  /** The records the loop appends for the given steps, in arrival order. */
  function Records(steps: seq<Step>, warmUpTime: int): (rs: seq<MessageRecord>)
    ensures |rs| <= |steps|
  {
    if steps == [] then []
    else (if Recorded(steps[0], warmUpTime) then [RecordOf(steps[0].attempt)] else [])
         + Records(steps[1..], warmUpTime)
  }

  /** The loop stops at `i` when no earlier step ends it and step `i` does. */
  lemma StopAtFirstEnd(steps: seq<Step>, warmUpTime: int, deadline: int, i: nat)
    requires i < |steps| && Ends(steps[i], warmUpTime, deadline)
    requires forall j :: 0 <= j < i ==> !Ends(steps[j], warmUpTime, deadline)
    ensures StopAt(steps, warmUpTime, deadline) == i
  {
  }

  /**
   * The receive loop of `DownloadTest`: with the token cancelled at `warmUpTime +
   * recordingTime`, it polls the token, reads one message, skips it during warm-up and
   * otherwise appends its record; it leaves on cancellation or on the first exception,
   * without retrying. The summary printed afterwards is `Summarize(recordings)`.
   */
  method DownloadTest(warmUpTime: int, recordingTime: int, steps: seq<Step>)
    returns (recordings: seq<MessageRecord>, end: LoopEnd)
    ensures recordings == Records(steps[..StopAt(steps, warmUpTime, warmUpTime + recordingTime)], warmUpTime)
    ensures end == LoopOutcome(steps, warmUpTime, warmUpTime + recordingTime)
  {
    var deadline := warmUpTime + recordingTime;
    recordings := [];
    end := Receiving;
    var i := 0;
    while i < |steps|
      invariant 0 <= i <= |steps|
      invariant forall j :: 0 <= j < i ==> !Ends(steps[j], warmUpTime, deadline)
      invariant recordings == Records(steps[..i], warmUpTime)
    {
      var step := steps[i];
      if CancellationRequested(step.elapsedAtCheck, deadline) {
        StopAtFirstEnd(steps, warmUpTime, deadline, i);
        end := DeadlineObserved;
        break;
      }
      match step.attempt {
        case Delivered(elapsed, ticks, receivedAt) =>
          if elapsed > warmUpTime {
            if !ValidTicks(ticks) {
              StopAtFirstEnd(steps, warmUpTime, deadline, i);
              end := Failed;
              break;
            }
            recordings := recordings + [MessageRecord(ticks, receivedAt, Latency(ticks, receivedAt))];
          }
        case RpcFailed(status, elapsedAtCatch) =>
          StopAtFirstEnd(steps, warmUpTime, deadline, i);
          end := if status == Cancelled && CancellationRequested(elapsedAtCatch, deadline)
                 then CancelledCall else Failed;
          break;
        case Faulted =>
          StopAtFirstEnd(steps, warmUpTime, deadline, i);
          end := Failed;
          break;
      }
      RecordsAppend(steps[..i], [step], warmUpTime);
      assert steps[..i + 1] == steps[..i] + [step];
      i := i + 1;
    }
  }

  lemma {:induction false} RecordsAppend(a: seq<Step>, b: seq<Step>, warmUpTime: int)
    ensures Records(a + b, warmUpTime) == Records(a, warmUpTime) + Records(b, warmUpTime)
  {
    if a != [] {
      RecordsAppend(a[1..], b, warmUpTime);
      assert (a + b)[1..] == a[1..] + b;
    } else {
      assert a + b == b;
    }
  }

  /** Every record comes from a step whose message arrived after warm-up, and its latency is
      its receive time minus its send time, in milliseconds. */
  lemma {:induction false} RecordsSound(steps: seq<Step>, warmUpTime: int)
    ensures |Records(steps, warmUpTime)| <= |steps|
    ensures forall r :: r in Records(steps, warmUpTime) ==>
      exists k :: 0 <= k < |steps| && Recorded(steps[k], warmUpTime) && r == RecordOf(steps[k].attempt)
    ensures forall r :: r in Records(steps, warmUpTime) ==>
      r.messageLatency == Latency(r.messageTime, r.receivedTime)
  {
    if steps != [] {
      RecordsSound(steps[1..], warmUpTime);
      forall r | r in Records(steps, warmUpTime)
        ensures exists k :: 0 <= k < |steps| && Recorded(steps[k], warmUpTime) && r == RecordOf(steps[k].attempt)
      {
        if r !in Records(steps[1..], warmUpTime) {
          assert Recorded(steps[0], warmUpTime) && r == RecordOf(steps[0].attempt);
        } else {
          var k :| 0 <= k < |steps[1..]| && Recorded(steps[1..][k], warmUpTime) && r == RecordOf(steps[1..][k].attempt);
          assert steps[k + 1] == steps[1..][k];
        }
      }
    }
  }

  /** Every message that arrived after warm-up has its record in the result. */
  lemma {:induction false} RecordsComplete(steps: seq<Step>, warmUpTime: int)
    ensures forall k :: 0 <= k < |steps| && Recorded(steps[k], warmUpTime) ==>
      RecordOf(steps[k].attempt) in Records(steps, warmUpTime)
  {
    if steps != [] {
      RecordsComplete(steps[1..], warmUpTime);
      forall k | 1 <= k < |steps| && Recorded(steps[k], warmUpTime)
        ensures RecordOf(steps[k].attempt) in Records(steps, warmUpTime)
      {
        assert steps[1..][k - 1] == steps[k];
      }
    }
  }

  /** When every step delivers a post-warm-up message, there is exactly one record per
      message, in the order the messages arrived. */
  lemma {:induction false} RecordsOnePerMessage(steps: seq<Step>, warmUpTime: int)
    requires forall k :: 0 <= k < |steps| ==> Recorded(steps[k], warmUpTime)
    ensures |Records(steps, warmUpTime)| == |steps|
    ensures forall k :: 0 <= k < |steps| ==>
      Recorded(steps[k], warmUpTime) && Records(steps, warmUpTime)[k] == RecordOf(steps[k].attempt)
  {
    if steps != [] {
      RecordsOnePerMessage(steps[1..], warmUpTime);
      forall k | 1 <= k < |steps|
        ensures Records(steps, warmUpTime)[k] == RecordOf(steps[k].attempt)
      {
        assert steps[1..][k - 1] == steps[k];
      }
    }
  }

  /** A receive clock that does not run backwards gives records in non-decreasing
      `ReceivedTime` order. */
  lemma {:induction false} RecordsInArrivalOrder(steps: seq<Step>, warmUpTime: int)
    requires forall i, j :: 0 <= i < j < |steps| && steps[i].attempt.Delivered? && steps[j].attempt.Delivered? ==>
      steps[i].attempt.receivedAt <= steps[j].attempt.receivedAt
    ensures forall i, j :: 0 <= i < j < |Records(steps, warmUpTime)| ==>
      Records(steps, warmUpTime)[i].receivedTime <= Records(steps, warmUpTime)[j].receivedTime
  {
    if steps != [] {
      var rest := Records(steps[1..], warmUpTime);
      RecordsInArrivalOrder(steps[1..], warmUpTime);
      if Recorded(steps[0], warmUpTime) {
        RecordsSound(steps[1..], warmUpTime);
        forall j | 0 <= j < |rest|
          ensures steps[0].attempt.receivedAt <= rest[j].receivedTime
        {
          assert rest[j] in rest;
          var k :| 0 <= k < |steps[1..]| && Recorded(steps[1..][k], warmUpTime) && rest[j] == RecordOf(steps[1..][k].attempt);
          assert steps[1..][k] == steps[k + 1];
        }
      }
    }
  }

  /** The loop consumes no step after the first one that ends it: a deadline seen by the
      loop condition or an exception; nothing is retried. */
  lemma LoopStopsAtFirstEnd(steps: seq<Step>, warmUpTime: int, deadline: int, k: nat)
    requires k < |steps|
    requires CancellationRequested(steps[k].elapsedAtCheck, deadline) || !steps[k].attempt.Delivered?
    ensures StopAt(steps, warmUpTime, deadline) <= k
    ensures LoopOutcome(steps, warmUpTime, deadline) != Receiving
  {
  }

  // ---------------------------------------------------------------------------
  // The summary printed after the loop.

  datatype ClientReport = ClientReport(
    averageLatency: real,
    messageCount: nat,
    recordingDuration: int,
    estimatedRate: Throughput,
    highLatencyCount: nat,
    percentiles: Percentiles)

  /** `recordings[^1]` on an empty list, or a `GetPercentile` call that threw. */
  datatype SummaryError = NoRecordings | PercentileThrew(failure: PercentileFailure)

  /** `recordings.Select(r => r.MessageLatency)`, in arrival order. */
  function Latencies(recordings: seq<MessageRecord>): (ls: seq<real>)
    ensures |ls| == |recordings|
    ensures forall k :: 0 <= k < |recordings| ==> ls[k] == recordings[k].messageLatency
  {
    seq(|recordings|, k requires 0 <= k < |recordings| => recordings[k].messageLatency)
  }

  /** The summary: duration and rate from the first and last arrival, the average latency,
      the high-latency count over the sorted copy, then the five percentiles. */
  function Summarize(recordings: seq<MessageRecord>): (r: Result<ClientReport, SummaryError>)
    ensures r == Err(NoRecordings) <==> |recordings| == 0
    ensures r.Ok? ==> r.value.messageCount == |recordings| && r.value.percentiles.max == SortAscending(Latencies(recordings))[|recordings| - 1]
  {
    if |recordings| == 0 then Err(NoRecordings)
    else
      var duration := recordings[|recordings| - 1].receivedTime - recordings[0].receivedTime;
      var rate := EstimateRate(|recordings|, duration as real / TicksPerSecond as real);
      var latencies := Latencies(recordings);
      var average := Mean(latencies);
      var sorted := SortAscending(latencies);
      var high := CountAtLeast(sorted, HighLatency);
      match ReportPercentiles(sorted)
      case Err(failure) => Err(PercentileThrew(failure))
      case Ok(ps) => Ok(ClientReport(average, |recordings|, duration, rate, high, ps))
  }

  /** The summary completes exactly when there are at least 50 records; with none it fails
      at `recordings[^1]`, and with 1 to 49 at the first percentile that indexes past the list. */
  lemma SummarizeDefinedIff(recordings: seq<MessageRecord>)
    ensures Summarize(recordings) == Err(NoRecordings) <==> |recordings| == 0
    ensures Summarize(recordings).Ok? <==> |recordings| >= 50
    ensures 0 < |recordings| < 50 ==>
      Summarize(recordings).error.PercentileThrew? &&
      Summarize(recordings).error.failure.percent == FirstFailingPercent(|recordings|)
  {
    if |recordings| > 0 {
      ReportPercentilesDefinedIff(SortAscending(Latencies(recordings)));
    }
  }

  /** What a completed summary reports: the record count, the span between the first and the
      last arrival, the high-latency count of the records themselves (the sorted copy holds the
      same latencies), the largest latency as maximum, and an average and percentiles that lie
      between the smallest and the largest latency. */
  lemma SummaryFacts(recordings: seq<MessageRecord>)
    requires Summarize(recordings).Ok?
    ensures var rep := Summarize(recordings).value;
      var ls := Latencies(recordings);
      var lowest := SortAscending(ls)[0];
      && rep.messageCount == |recordings|
      && rep.recordingDuration == recordings[|recordings| - 1].receivedTime - recordings[0].receivedTime
      && rep.highLatencyCount == CountAtLeast(ls, HighLatency)
      && rep.percentiles.max in ls && lowest in ls
      && (forall k :: 0 <= k < |ls| ==> lowest <= ls[k] <= rep.percentiles.max)
      && lowest <= rep.averageLatency <= rep.percentiles.max
      && lowest <= rep.percentiles.p50 <= rep.percentiles.p75 <= rep.percentiles.p90 <= rep.percentiles.p99 <= rep.percentiles.max
  {
    var ls := Latencies(recordings);
    var sorted := SortAscending(ls);
    CountSorted(ls, HighLatency);
    SortedEnds(ls);
    ReportPercentilesBetween(sorted);
    MeanWithin(ls, sorted[0], sorted[|sorted| - 1]);
  }
}
