/**
 * The server side of the download test: the message pump that writes one
 * message whenever the message timer has run for at least the interval the
 * requested rate implies, records how long each write took, and afterwards
 * sorts those durations and prints their summary. The stopwatches, the
 * cancellation token and the response stream are replaced by a trace of polls.
 */
module Server {
  import opened Stats
  import opened Percentile

  /** What `responseStream.WriteAsync` does when a message is due: it completes after
      the given number of milliseconds, or throws. */
  datatype WriteResult = Written(duration: real) | WriteThrew

  /** One loop iteration: whether the call's token reports cancellation at the loop
      condition, the stopwatch reading (milliseconds) when the message timer is read,
      and what the write does if a message is due. */
  datatype Poll = Poll(cancellationRequested: bool, clock: real, write: WriteResult)

  /** The pump is running, observed cancellation, or swallowed a failed write. */
  datatype PumpStatus = Pumping | Cancelled | WriteFailed

  /** The loop's state: the reading at which the message timer was last (re)started and
      the `sendDurations` list. */
  datatype PumpState = PumpState(lastSend: real, sendDurations: seq<real>, status: PumpStatus)

  /** `millisecondsBetweenMessages`: no wait for rate 0, else 1000 / rate milliseconds. */
  function MillisecondsBetweenMessages(rate: int): (ms: real)
    ensures rate == 0 ==> ms == 0.0
    ensures rate != 0 ==> ms * rate as real == 1000.0
    ensures ms > 0.0 <==> rate > 0
  {
    if rate == 0 then 0.0 else 1000.0 / rate as real
  }

  /** A message goes out on this poll: no cancellation, and the timer has reached the interval. */
  predicate Fires(interval: real, st: PumpState, poll: Poll) {
    !poll.cancellationRequested && poll.clock - st.lastSend >= interval
  }

  /** One iteration of the pump loop. */
  function Step(interval: real, st: PumpState, poll: Poll): (next: PumpState)
    ensures st.sendDurations <= next.sendDurations
    ensures |next.sendDurations| == |st.sendDurations| + (if Fires(interval, st, poll) && poll.write.Written? then 1 else 0)
    ensures next.status != st.status ==> poll.cancellationRequested || (Fires(interval, st, poll) && poll.write.WriteThrew?)
  {
    if poll.cancellationRequested then st.(status := Cancelled)
    else if poll.clock - st.lastSend >= interval then
      match poll.write
      case Written(d) => st.(lastSend := poll.clock, sendDurations := st.sendDurations + [d])
      case WriteThrew => st.(lastSend := poll.clock, status := WriteFailed)
    else st
  }

  /** The loop over a trace of polls; it stops at the first cancellation or failed write. */
  function Run(interval: real, st: PumpState, polls: seq<Poll>): (final: PumpState)
    decreases |polls|
    ensures st.sendDurations <= final.sendDurations
    ensures final.status == Pumping ==> st.status == Pumping && forall k :: 0 <= k < |polls| ==> !polls[k].cancellationRequested
  {
    if polls == [] || st.status != Pumping then st
    else Run(interval, Step(interval, st, polls[0]), polls[1..])
  }

  /** The readings at which a message went out (the timer restarts), in order. */
  function SendTimes(interval: real, st: PumpState, polls: seq<Poll>): (times: seq<real>)
    decreases |polls|
    ensures |times| <= |polls|
    ensures forall j :: 0 <= j < |times| ==> exists k :: 0 <= k < |polls| && times[j] == polls[k].clock
  {
    if polls == [] || st.status != Pumping then []
    else (if Fires(interval, st, polls[0]) then [polls[0].clock] else [])
         + SendTimes(interval, Step(interval, st, polls[0]), polls[1..])
  }

  /** Each time is at least `interval` after the one before it, the first after `origin`. */
  ghost predicate Spaced(origin: real, times: seq<real>, interval: real) {
    && (|times| > 0 ==> times[0] - origin >= interval)
    && forall j :: 1 <= j < |times| ==> times[j] - times[j - 1] >= interval
  }

  /** The stopwatch does not run backwards. */
  ghost predicate ClockMonotone(origin: real, polls: seq<Poll>) {
    && (|polls| > 0 ==> origin <= polls[0].clock)
    && forall j :: 1 <= j < |polls| ==> polls[j - 1].clock <= polls[j].clock
  }

  /**
   * The pump of `DownloadTest`, then its summary. The summary (and every percentile
   * call) runs only if at least one write completed; the list is first sorted in place.
   * Whatever ended the loop, the pump itself exits normally; with 1 to 49 durations the
   * summary's percentile exception then escapes `DownloadTest` (`SummaryThrew`).
   */
  method DownloadTest(rate: int, start: real, polls: seq<Poll>, elapsedSeconds: real)
    returns (sendDurations: seq<real>, status: PumpStatus, summary: PumpSummary)
    ensures var final := Run(MillisecondsBetweenMessages(rate), PumpState(start, [], Pumping), polls);
      && status == final.status
      && sendDurations == SortAscending(final.sendDurations)
      && summary == Summarize(final.sendDurations, elapsedSeconds)
  {
    var interval := MillisecondsBetweenMessages(rate);
    ghost var initial := PumpState(start, [], Pumping);
    sendDurations := [];
    var lastSend := start;
    status := Pumping;
    var i := 0;
    while i < |polls|
      invariant 0 <= i <= |polls|
      invariant Run(interval, PumpState(lastSend, sendDurations, Pumping), polls[i..]) == Run(interval, initial, polls)
    {
      var poll := polls[i];
      assert polls[i..][1..] == polls[i + 1..];
      if poll.cancellationRequested {
        status := Cancelled;
        break;
      }
      if poll.clock - lastSend >= interval {
        lastSend := poll.clock;
        match poll.write {
          case WriteThrew =>
            status := WriteFailed;
            break;
          case Written(duration) =>
            sendDurations := sendDurations + [duration];
        }
      }
      i := i + 1;
    }
    if |sendDurations| > 0 {
      var estimatedRate := EstimateRate(|sendDurations|, elapsedSeconds);
      sendDurations := SortAscending(sendDurations);
      summary := Report(sendDurations, estimatedRate);
    } else {
      summary := NothingSent;
    }
  }

  /** Consecutive messages leave at least one interval apart, and the first one at least one
      interval after the timer was started. */
  lemma {:induction false} SendsSpaced(interval: real, st: PumpState, polls: seq<Poll>)
    decreases |polls|
    ensures Spaced(st.lastSend, SendTimes(interval, st, polls), interval)
  {
    if polls != [] && st.status == Pumping {
      var next := Step(interval, st, polls[0]);
      var rest := SendTimes(interval, next, polls[1..]);
      SendsSpaced(interval, next, polls[1..]);
      if !Fires(interval, st, polls[0]) {
        assert next.lastSend == st.lastSend || next.status != Pumping;
      } else {
        var times := [polls[0].clock] + rest;
        assert SendTimes(interval, st, polls) == times;
        assert next.lastSend == polls[0].clock;
        forall j | 1 <= j < |times|
          ensures times[j] - times[j - 1] >= interval
        {
          assert times[j] == rest[j - 1];
          if j > 1 {
            assert times[j - 1] == rest[j - 2];
          }
        }
      }
    }
  }

  /** `sendDurations` only grows, by one entry per completed write: every message sent adds
      exactly one duration, except a write that threw, which ends the pump and adds nothing. */
  lemma {:induction false} DurationsPerWrite(interval: real, st: PumpState, polls: seq<Poll>)
    decreases |polls|
    requires st.status == Pumping
    ensures var final := Run(interval, st, polls);
      && |st.sendDurations| <= |final.sendDurations|
      && final.sendDurations[..|st.sendDurations|] == st.sendDurations
      && |final.sendDurations| + (if final.status == WriteFailed then 1 else 0)
         == |st.sendDurations| + |SendTimes(interval, st, polls)|
  {
    if polls != [] {
      var next := Step(interval, st, polls[0]);
      if next.status == Pumping {
        DurationsPerWrite(interval, next, polls[1..]);
        var final := Run(interval, next, polls[1..]);
        assert final.sendDurations[..|next.sendDurations|] == next.sendDurations;
        assert next.sendDurations[..|st.sendDurations|] == st.sendDurations;
        assert final.sendDurations[..|st.sendDurations|] == next.sendDurations[..|st.sendDurations|];
      }
    }
  }

  /** Running over two traces one after the other is running over their concatenation. */
  lemma {:induction false} RunAppend(interval: real, st: PumpState, a: seq<Poll>, b: seq<Poll>)
    decreases |a|
    ensures Run(interval, st, a + b) == Run(interval, Run(interval, st, a), b)
  {
    if a == [] {
      assert a + b == b;
    } else if st.status == Pumping {
      assert (a + b)[1..] == a[1..] + b;
      RunAppend(interval, Step(interval, st, a[0]), a[1..], b);
    } else {
      assert a + b != [];
    }
  }

  /** A pumping loop that sees the token cancelled leaves at once: no message goes out and
      `sendDurations` is left as it is. */
  lemma CancellationEndsPump(interval: real, st: PumpState, polls: seq<Poll>)
    requires st.status == Pumping && polls != [] && polls[0].cancellationRequested
    ensures Run(interval, st, polls) == st.(status := Cancelled)
    ensures SendTimes(interval, st, polls) == []
  {
  }

  /** A due write that throws ends the pump: that message is the last one attempted and its
      duration is not recorded. */
  lemma FailedWriteEndsPump(interval: real, st: PumpState, polls: seq<Poll>)
    requires st.status == Pumping && polls != []
    requires Fires(interval, st, polls[0]) && polls[0].write.WriteThrew?
    ensures Run(interval, st, polls) == st.(lastSend := polls[0].clock, status := WriteFailed)
    ensures SendTimes(interval, st, polls) == [polls[0].clock]
  {
  }

  /** Once the pump is still running after the first `k` polls, poll `k` ends it if it observes
      cancellation or fires a write that throws; the durations are those collected before it. */
  lemma PumpEndsAt(interval: real, st: PumpState, polls: seq<Poll>, k: nat)
    requires k < |polls| && Run(interval, st, polls[..k]).status == Pumping
    ensures var before := Run(interval, st, polls[..k]);
      polls[k].cancellationRequested ==> Run(interval, st, polls) == before.(status := Cancelled)
    ensures var before := Run(interval, st, polls[..k]);
      Fires(interval, before, polls[k]) && polls[k].write.WriteThrew? ==>
        Run(interval, st, polls) == before.(lastSend := polls[k].clock, status := WriteFailed)
  {
    assert polls == polls[..k] + polls[k..];
    RunAppend(interval, st, polls[..k], polls[k..]);
    var before := Run(interval, st, polls[..k]);
    if polls[k].cancellationRequested {
      CancellationEndsPump(interval, before, polls[k..]);
    } else if Fires(interval, before, polls[k]) && polls[k].write.WriteThrew? {
      FailedWriteEndsPump(interval, before, polls[k..]);
    }
  }

  /** Conversely, the pump stops only at a poll where it was still running and either observed
      cancellation or fired a write that threw. */
  lemma {:induction false} PumpEndsOnlyBy(interval: real, st: PumpState, polls: seq<Poll>)
    decreases |polls|
    requires st.status == Pumping
    ensures Run(interval, st, polls).status == Cancelled ==>
      exists k :: 0 <= k < |polls| && Run(interval, st, polls[..k]).status == Pumping
        && polls[k].cancellationRequested
    ensures Run(interval, st, polls).status == WriteFailed ==>
      exists k :: 0 <= k < |polls| && Run(interval, st, polls[..k]).status == Pumping
        && Fires(interval, Run(interval, st, polls[..k]), polls[k]) && polls[k].write.WriteThrew?
  {
    if polls != [] {
      var next := Step(interval, st, polls[0]);
      assert polls[..0] == [];
      if next.status == Pumping {
        PumpEndsOnlyBy(interval, next, polls[1..]);
        var final := Run(interval, next, polls[1..]);
        if final.status != Pumping {
          var k :| 0 <= k < |polls[1..]| && Run(interval, next, polls[1..][..k]).status == Pumping
            && (if final.status == Cancelled then polls[1..][k].cancellationRequested
                else Fires(interval, Run(interval, next, polls[1..][..k]), polls[1..][k]) && polls[1..][k].write.WriteThrew?);
          assert polls[..k + 1][1..] == polls[1..][..k];
          assert Run(interval, st, polls[..k + 1]) == Run(interval, next, polls[1..][..k]);
          assert polls[k + 1] == polls[1..][k];
        }
      } else {
        assert Run(interval, st, polls) == next;
      }
    }
  }

  /** With rate 0 (or a negative rate) the interval is not positive, so on a stopwatch that does
      not run backwards every poll sends: without cancellation and failed writes, one message
      and one duration per poll. */
  lemma {:induction false} UnthrottledSendsEveryPoll(rate: int, st: PumpState, polls: seq<Poll>)
    decreases |polls|
    requires rate <= 0 && st.status == Pumping
    requires ClockMonotone(st.lastSend, polls)
    requires forall k :: 0 <= k < |polls| ==> !polls[k].cancellationRequested && polls[k].write.Written?
    ensures SendTimes(MillisecondsBetweenMessages(rate), st, polls) == seq(|polls|, k requires 0 <= k < |polls| => polls[k].clock)
    ensures Run(MillisecondsBetweenMessages(rate), st, polls).status == Pumping
    ensures |Run(MillisecondsBetweenMessages(rate), st, polls).sendDurations| == |st.sendDurations| + |polls|
  {
    var interval := MillisecondsBetweenMessages(rate);
    if polls != [] {
      var next := Step(interval, st, polls[0]);
      assert Fires(interval, st, polls[0]);
      assert next.lastSend == polls[0].clock;
      assert ClockMonotone(next.lastSend, polls[1..]) by {
        if |polls| > 1 {
          assert polls[1..][0] == polls[1];
        }
        forall j | 1 <= j < |polls[1..]|
          ensures polls[1..][j - 1].clock <= polls[1..][j].clock
        {
          assert polls[1..][j] == polls[j + 1] && polls[1..][j - 1] == polls[j];
        }
      }
      UnthrottledSendsEveryPoll(rate, next, polls[1..]);
      var rest := seq(|polls[1..]|, k requires 0 <= k < |polls[1..]| => polls[1..][k].clock);
      assert seq(|polls|, k requires 0 <= k < |polls| => polls[k].clock) == [polls[0].clock] + rest;
    }
  }

  // ---------------------------------------------------------------------------
  // The summary after the pump.

  datatype ServerReport = ServerReport(
    messagesSent: nat,
    estimatedRate: Throughput,
    percentiles: Percentiles,
    highLatencyCount: nat)

  /** Nothing printed (no completed write), the printed report, or the exception a
      `GetPercentile` call threw out of `DownloadTest`. */
  datatype PumpSummary = NothingSent | Reported(report: ServerReport) | SummaryThrew(failure: PercentileFailure)

  /** The block guarded by `sendDurations.Count > 0`, on the already sorted list. */
  function Report(sorted: seq<real>, estimatedRate: Throughput): (r: PumpSummary)
    ensures !r.NothingSent?
    ensures r.Reported? ==> |sorted| > 0 && r.report.messagesSent == |sorted| && r.report.percentiles.max == sorted[|sorted| - 1]
    ensures r.SummaryThrew? ==> !(0 <= r.failure.index < |sorted|)
  {
    match ReportPercentiles(sorted)
    case Err(failure) => SummaryThrew(failure)
    case Ok(ps) => Reported(ServerReport(|sorted|, estimatedRate, ps, CountAtLeast(sorted, HighLatency)))
  }

  /** The summary of the durations the pump collected. */
  function Summarize(durations: seq<real>, elapsedSeconds: real): (r: PumpSummary)
    ensures r.NothingSent? <==> |durations| == 0
    ensures r.Reported? ==> r.report.messagesSent == |durations|
  {
    if |durations| == 0 then NothingSent
    else Report(SortAscending(durations), EstimateRate(|durations|, elapsedSeconds))
  }

  /** Nothing is printed exactly when no write completed; the percentiles complete exactly
      when at least 50 did; otherwise the first percentile to index past the list throws. */
  lemma SummarizeDefinedIff(durations: seq<real>, elapsedSeconds: real)
    ensures Summarize(durations, elapsedSeconds) == NothingSent <==> |durations| == 0
    ensures Summarize(durations, elapsedSeconds).Reported? <==> |durations| >= 50
    ensures 0 < |durations| < 50 ==>
      Summarize(durations, elapsedSeconds).SummaryThrew? &&
      Summarize(durations, elapsedSeconds).failure.percent == FirstFailingPercent(|durations|)
  {
    if |durations| > 0 {
      ReportPercentilesDefinedIff(SortAscending(durations));
    }
  }

  /** A printed report counts every duration, counts the high ones as the unsorted list would,
      reports the largest duration as maximum and percentiles between the smallest and largest. */
  lemma ReportFacts(durations: seq<real>, elapsedSeconds: real)
    requires Summarize(durations, elapsedSeconds).Reported?
    ensures var rep := Summarize(durations, elapsedSeconds).report;
      var lowest := SortAscending(durations)[0];
      && rep.messagesSent == |durations|
      && rep.estimatedRate == EstimateRate(|durations|, elapsedSeconds)
      && rep.highLatencyCount == CountAtLeast(durations, HighLatency)
      && rep.percentiles.max in durations && lowest in durations
      && (forall k :: 0 <= k < |durations| ==> lowest <= durations[k] <= rep.percentiles.max)
      && lowest <= rep.percentiles.p50 <= rep.percentiles.p75 <= rep.percentiles.p90 <= rep.percentiles.p99 <= rep.percentiles.max
  {
    var sorted := SortAscending(durations);
    CountSorted(durations, HighLatency);
    SortedEnds(durations);
    ReportPercentilesBetween(sorted);
  }
}
