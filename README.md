# Latency benchmark over a gRPC server stream — verified model

The benchmark has two halves. The server's `DownloadTest` is a message pump: it
writes one timestamped message whenever its message timer has run for at least
`1000 / rate` milliseconds (rate 0: no wait), records how long each write took in
`sendDurations`, and after the stream ends sorts those durations and prints a
summary. The client's `DownloadTest` reads the stream until a deadline of warm-up
plus recording time. It drops every message that arrives within the warm-up window
and records the rest as `(MessageTime, ReceivedTime, MessageLatency)`. Then it prints
the first-to-last duration, the estimated rate, the average, a high-latency count
and five percentiles. Both halves use the same `GetPercentile`: for 100 it returns
the last element of the sorted list. Otherwise it blends the elements at
`trunc(i) - 1` and `ceil(i) - 1`, where `i = percent * N / 100 + 0.5`.

The model has five modules:

- `Results` (results.dfy): the `Result` type for operations that throw.
- `Stats` (stats.dfy): the ascending sort, the threshold count, the average and the
  rate estimate.
- `Percentile` (percentile.dfy): `GetPercentile` exactly as written, its exact domain,
  the order and bounds of its values, the block of five percentile calls, and the
  clamped estimator.
- `Client` (client.dfy): the receive loop as a method over a trace of loop iterations,
  the functions that specify it, and the summary.
- `Server` (server.dfy): the pump loop as a method over a trace of clock polls, the
  step function and run that specify it, and the guarded summary.

The two copies of `GetPercentile` (Client/Program.cs:133-144 and
GrpcService/Services/StreamingService.cs:82-93) are identical. `Percentile.Percentile`
models both.

Modelling choices:

- Clocks, the cancellation token and the stream are inputs. The client sees a sequence
  of `Step`s. Each step holds the stopwatch reading at the loop condition and what
  `MoveNext` did: delivered a message, threw an `RpcException` with a status, or threw
  something else. `cts.CancelAfter(warmUp + recording)` is read as "cancellation is
  requested once the stopwatch reaches the deadline".
- The server sees a sequence of `Poll`s. Each poll holds the token's state, the
  stopwatch reading in milliseconds, and whether the write completes (and how long it
  took) or throws.
- A trace that ends before the loop stops leaves the loop running (`Receiving` /
  `Pumping`).
- Times are `TimeSpan`/`DateTime` ticks (100 ns). A latency is the tick difference
  divided by 10 000, as in `TotalMilliseconds`.
- A message whose `Ticks` are outside `DateTime`'s range makes `new DateTime` throw.
  The generic catch then ends the loop, and the model does the same.
- The server's `Rate` is taken as a signed integer, since the message definition is not
  part of this model. A negative rate gives a negative interval, so the pump sends on
  every poll, as with 0.
- Where the code and the intended design differ, the model follows the code:
  - The code does not clamp the percentile indices (see Findings).
  - It keeps a message only when elapsed time is strictly greater than the warm-up.
  - An empty list makes the percentile throw for index -1.

## Model

| member | source | states |
|---|---|---|
| `Percentile.Truncate` | Client/Program.cs:140-143 | `Math.Truncate`: the integer toward zero within 1 of x |
| `Percentile.Ceiling` | Client/Program.cs:143 | `Math.Ceiling`: the least integer not below x |
| `Percentile.Element` | Client/Program.cs:137 | list indexing: returns `sorted[k]` iff `0 <= k < N`, otherwise fails naming index k |
| `Percentile.Percentile` | Client/Program.cs:133-144 | GetPercentile as written; a failure always names an index outside `[0, N-1]`, and percent 100 returns iff the list is non-empty |
| `Percentile.IndexFacts` | Client/Program.cs:140-143 | upper index is the lower index or one more; lower >= 0 iff `p*N >= 50`; upper <= N-1 iff `p*N <= 100N-50`; the fraction is in [0,1) and is 0 exactly when both indices coincide |
| `Percentile.PercentileDefinedIff` | Client/Program.cs:133-144 | GetPercentile returns (does not throw) exactly when percent is 100 and N > 0, or `50 <= p*N <= 100N - 50` |
| `Percentile.PercentileHundred` | Client/Program.cs:135-138 | percent 100 gives the last element, which bounds every element of an ascending list; the empty list throws for index -1 |
| `Percentile.PercentileBlend` | Client/Program.cs:140-143 | inside the domain, the result is `(1-f)·sorted[lo] + f·sorted[hi]` with both indices in range and `0 <= f < 1` |
| `Percentile.Blend` | Client/Program.cs:143 | a blend with weight in [0,1] lies between its two end points |
| `Percentile.PercentileBetween` | Client/Program.cs:140-143 | a returned value lies between the two elements it blends, and on an ascending list between the first and last element |
| `Percentile.PercentileWholeRank` | Client/Program.cs:140-143 | when the rank `(2pN+100)/200` is whole, the result is exactly the element at that rank |
| `Percentile.MedianOfFive` | Client/Program.cs:140-143 | percent 50 of [1,2,3,4,5] is 3 |
| `Percentile.MedianOfFour` | Client/Program.cs:140-143 | percent 50 of [1,2,3,4] is 2.5 |
| `Percentile.SingleSample` | Client/Program.cs:135-143 | on one sample, 50 and 100 return it; a percent strictly between 50 and 100 (75, 90, 99) throws for index 1; one below 50 throws for index -1 |
| `Percentile.InterpolateMonotone` | Client/Program.cs:143 | shifting the weight toward the larger element does not decrease the blend |
| `Percentile.IndicesMonotone` | Client/Program.cs:140-143 | a larger percent moves both indices up, or keeps them and raises the fraction |
| `Percentile.PercentileMonotone` | GrpcService/Services/StreamingService.cs:82-93 | on an ascending list, a larger percent never yields a smaller estimate |
| `Percentile.Clamp` | Client/Program.cs:143 | clamps an index into [0, N-1], leaving in-range indices unchanged |
| `Percentile.ClampedPercentileWithin` | Client/Program.cs:140-143 | the clamped estimator returns for every percent in [0,100] on a non-empty list, and stays within the list's range when the list is ascending |
| `Percentile.ClampedPercentileAgrees` | Client/Program.cs:140-143 | wherever GetPercentile as written returns, the clamped estimator returns the same value |
| `Percentile.ReportPercentiles` | Client/Program.cs:124-128 | the five calls in the code's order; a failure names one of the five percents and an out-of-range index, and a completed block reports the last element as max |
| `Percentile.ReportPercentilesDefinedIff` | Client/Program.cs:124-128 | the calls for 100, 50, 75, 90, 99 all return iff N >= 50; otherwise the first to throw is 100 (N=0), 75 (N=1), 90 (N<5) or 99 (N<50) |
| `Percentile.ReportPercentilesBetween` | GrpcService/Services/StreamingService.cs:68-72 | on an ascending list: first element <= p50 <= p75 <= p90 <= p99 <= max = last element |
| `Stats.Insert` | Client/Program.cs:117 | inserting into an ascending list keeps it ascending and adds exactly that element |
| `Stats.SortAscending` | Client/Program.cs:117 | `Order()` (and `List.Sort()`): the result is ascending and a permutation of the input |
| `Stats.CountAtLeast` | Client/Program.cs:121 | `Count(l => l >= threshold)`: at most the length; 0 iff every element is below the threshold; the length iff none is |
| `Stats.CountSorted` | Client/Program.cs:117-121 | counting latencies >= 0.1 over the sorted copy gives the count over the unsorted list |
| `Stats.SortedEnds` | Client/Program.cs:117 | the sorted copy's first and last elements are elements of the input, the smallest and the largest |
| `Stats.Mean` | Client/Program.cs:107 | `Average`: the mean times the count is the sum |
| `Stats.MeanWithin` | Client/Program.cs:107 | the average of values in [lo, hi] lies in [lo, hi] |
| `Stats.EstimateRate` | Client/Program.cs:106 | `count / seconds`: a finite rate iff seconds is non-zero; NaN iff both are zero; infinity otherwise |
| `Stats.EstimateRateSound` | Client/Program.cs:106 | a finite rate r satisfies `r·seconds = count` |
| `Client.StopAt` | Client/Program.cs:77-102 | the loop stops at the first iteration that sees cancellation, throws, or meets an unrepresentable tick count; no earlier one ends it |
| `Client.Records` | Client/Program.cs:83-92 | the records the loop appends for a run of steps; at most one per step |
| `Client.LoopOutcome` | Client/Program.cs:76-102 | the loop is still receiving at the end of the trace iff no step ends it |
| `Client.DownloadTest` | Client/Program.cs:74-100 | the loop's recordings are the records of the steps before the first step that ends it, in arrival order; its end reason is that step's (still receiving if none does) |
| `Client.RecordsAppend` | Client/Program.cs:83-92 | records of a concatenation are the concatenated records: arrival order is kept |
| `Client.RecordsSound` | Client/Program.cs:83-92 | every record comes from a message delivered after warm-up (elapsed > warm-up), and its latency is receive minus send time in ms |
| `Client.RecordsComplete` | Client/Program.cs:83-92 | every message delivered after warm-up has its record |
| `Client.RecordsOnePerMessage` | Client/Program.cs:83-92 | N messages delivered after warm-up yield exactly N records, the k-th from the k-th message |
| `Client.RecordsInArrivalOrder` | Client/Program.cs:89-92 | with a receive clock that does not run backwards, records are in non-decreasing `ReceivedTime` order |
| `Client.LoopStopsAtFirstEnd` | Client/Program.cs:94-102 | an iteration that sees cancellation or throws bounds the stop, and the loop is not left running; there is no retry |
| `Client.Latencies` | Client/Program.cs:117 | the latencies, one per record, in arrival order |
| `Client.Summarize` | Client/Program.cs:105-128 | the summary after the loop; it fails at `recordings[^1]` exactly when there are no records, and a completed one counts every record and reports the largest latency as max |
| `Client.SummarizeDefinedIff` | Client/Program.cs:105-128 | the summary fails with no records exactly when there are none, completes iff there are >= 50, and otherwise throws at the first failing percentile |
| `Client.SummaryFacts` | Client/Program.cs:105-121 | a completed summary: count = N; duration = last minus first `ReceivedTime`; high count as over the unsorted latencies; max is the largest latency; min <= average <= max; min <= p50 <= p75 <= p90 <= p99 <= max |
| `Server.MillisecondsBetweenMessages` | GrpcService/Services/StreamingService.cs:17-18 | the interval is 0 for rate 0 and otherwise satisfies `interval·rate = 1000`; it is positive iff the rate is |
| `Server.Step` | GrpcService/Services/StreamingService.cs:31-47 | one iteration keeps `sendDurations` as a prefix and adds one entry exactly when a due write completes; the status changes only on cancellation or a due write that throws |
| `Server.Run` | GrpcService/Services/StreamingService.cs:29-53 | the loop keeps the initial durations as a prefix; still pumping at the end only if no poll saw cancellation |
| `Server.SendTimes` | GrpcService/Services/StreamingService.cs:33-35 | the stopwatch readings at which messages went out: at most one per poll, each one of the polls' readings |
| `Server.DownloadTest` | GrpcService/Services/StreamingService.cs:24-62 | the pump loop's status is the run's; the list afterwards is the collected durations sorted; the summary is that of the collected durations |
| `Server.SendsSpaced` | GrpcService/Services/StreamingService.cs:33-35 | each send happens at least one interval after the previous (the first, after the timer start) |
| `Server.DurationsPerWrite` | GrpcService/Services/StreamingService.cs:45-46 | `sendDurations` only grows; each send adds exactly one entry except a write that throws |
| `Server.RunAppend` | GrpcService/Services/StreamingService.cs:31-48 | running two traces one after the other equals running their concatenation |
| `Server.CancellationEndsPump` | GrpcService/Services/StreamingService.cs:31 | a running pump that sees cancellation stops at once, sends nothing and keeps its durations |
| `Server.FailedWriteEndsPump` | GrpcService/Services/StreamingService.cs:45-53 | a due write that throws is the last send; the pump stops with `WriteFailed` and records no duration for it |
| `Server.PumpEndsAt` | GrpcService/Services/StreamingService.cs:29-53 | if the pump is still running before poll k and poll k sees cancellation or fires a throwing write, the whole run ends there with the durations collected before it |
| `Server.PumpEndsOnlyBy` | GrpcService/Services/StreamingService.cs:29-53 | conversely, the pump stops only at a poll reached while running that saw cancellation or fired a write that threw |
| `Server.UnthrottledSendsEveryPoll` | GrpcService/Services/StreamingService.cs:18-33 | with rate <= 0 and a monotone stopwatch, every poll sends and adds one duration |
| `Server.Report` | GrpcService/Services/StreamingService.cs:61-75 | the block guarded by a non-empty list always prints something; a report counts every duration and gives the last as max; a throw names an out-of-range index |
| `Server.Summarize` | GrpcService/Services/StreamingService.cs:59-75 | nothing is printed iff no write completed; a report counts every duration |
| `Server.SummarizeDefinedIff` | GrpcService/Services/StreamingService.cs:59-72 | nothing is printed iff no write completed; the percentiles complete iff >= 50 did; otherwise the first failing percentile throws |
| `Server.ReportFacts` | GrpcService/Services/StreamingService.cs:59-75 | a printed report: messages sent = N; rate from the test time; high count as over the unsorted list; max is the largest duration; percentiles ordered between min and max |

## Left out

- Console output, number formatting and `GCSettings.LatencyMode`. Printing has no effect
  on the modelled state, so lines printed before a percentile call throws are not modelled.
- Command-line parsing, handler wiring and channel construction (Client/Program.cs:16-55,
  146-176). GrpcService/Program.cs is not part of this model: it only hosts the service.
- IEEE doubles. Blends, averages, rates and the 0.1 ms threshold are exact reals. Index
  arithmetic is unaffected: the rank `i = p·N/100 + 0.5` is a multiple of 0.01, so when it
  is not whole it is at least 0.01 from the nearest integer, and when it is whole the
  double computation is exact; truncation and ceiling therefore match.
- Real clocks are inputs. The model treats the `CancelAfter` timer and the client's
  stopwatch as one clock. It assumes the server's timer restarts at the reading that
  triggered the send.
- `CancelAfter` rejects a negative or very long delay before the loop starts. The model
  takes the deadline as given.
- The client's summary is not part of the `Client.DownloadTest` method: the method returns
  the recordings and how the loop ended, and the summary the code prints afterwards is
  `Client.Summarize` applied to those recordings, composed by hand.
- The server ending the stream. `MoveNext`'s boolean result is ignored by the code,
  which defines nothing for that case.
- The message's `Timestamp` field. Only `Ticks` is read by the client.
- `sendDurations.Sort()` sorts in place. The model replaces the local sequence with its
  sorted copy; no other reference to the list exists.
- The long-run average spacing of sends. It depends on how often the loop polls. The
  model proves only the lower bound of one interval between sends.

## Findings

| source | as written | input that shows it | evidently intended | confidence | as-written member | corrected member |
|---|---|---|---|---|---|---|
| Client/Program.cs:140-143 (same code at GrpcService/Services/StreamingService.cs:89-92) | indices `trunc(i)-1` and `ceil(i)-1` are not clamped, so the list is indexed out of range unless `50 <= p·N <= 100N-50` | one sample with percent 75: `i = 1.25`, upper index 1; every report with 1 to 49 samples throws at percent 75, 90 or 99 | indices clamped to `[0, N-1]`, so every percent in [0, 100] returns on a non-empty list | not executed; high | `Percentile.SingleSample` | `Percentile.ClampedPercentileWithin` |

The client and server reports use the estimator as written, so their failure conditions
stay visible (`Client.SummarizeDefinedIff`, `Server.SummarizeDefinedIff`). Whenever the
as-written estimator returns, the clamped one returns the same value
(`Percentile.ClampedPercentileAgrees`). Correcting the code therefore changes only the
reports that now throw.
