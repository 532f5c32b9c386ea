# FaultLens, verified

FaultLens receives OpenTelemetry batches, keeps counters of services and of the calls between
them, judges every service against its own recent past, opens and resolves incidents, names a
root cause for each, and explains it. This project models that chain and proves what it keeps,
for every input, every run and every interleaving. It also covers the money arithmetic of the
demo shop's checkout.

| file | models |
|---|---|
| `Prelude.dfy` | options, counting, filtering, the order of names |
| `Money.dfy` | amounts in machine integers, multiplication, the order total |
| `Upsert.dfy`, `Telemetry.dfy` | the counter tables and their merge; spans and what they add up to |
| `Discovery.dfy`, `CallGraph.dfy` | service counters and dependency edges of a batch, and of a stream cut into batches |
| `Ingest.dfy` | concurrent ingest transactions as a transition system of row locks |
| `Statistics.dfy`, `Red.dfy` | medians and deviations; the silence, error and latency detectors |
| `ResourceMetrics.dfy`, `GaugeSampling.dfy`, `GaugeScan.dfy` | the z-score engine for container gauges, and when it can report one |
| `Scan.dfy`, `SpanHistory.dfy` | windows, histories, and the merge of both engines; which spans make a scan report what |
| `Anomalies.dfy`, `AnomalyHistory.dfy` | the anomalies table, and what it holds after any run |
| `Rules.dfy`, `Incidents.dfy`, `IncidentHistory.dfy` | the rule table, the incident engine, and the incidents table over any run |
| `Rca.dfy`, `PropagationPaths.dfy`, `RootCauses.dfy` | root-cause analysis, its breadth-first walk, and what its confidence means |
| `Pipeline.dfy` | one cycle: scan, incidents, root causes, explanations |
| `Retention.dfy`, `LaterScans.dfy` | batched deletion, and why no scan can see it |
| `Explanations.dfy` | the explanation queue |

`dafny verify dfyconfig.toml` checks everything.

## Reading the model

Tables are sequences or maps of rows; a row's position in a sequence is its autoincrement id.
Code that updates state in place is a class or a method with loops, proved against a function of
the old state; the theorems are about that function. Numbers that Python keeps as floats are
reals. Clocks, the outcome of an explanation call, the rows that a batched DELETE picks and the
iteration order of a Python set are parameters or free choices. The 95th percentile is an
arbitrary function of the spans of a window. `math.sqrt` is any number that is not negative and
has the variance as its square, or is avoided by comparing squares.

A cycle is atomic, because the background loop and the pipeline endpoints hold one lock
(`backend/app/services/scheduler.py:155`).

## What the proofs found

- **The gauge detector needs missing samples.** The last minute is part of the ten minutes it is
  compared with, which bounds z² by (n − m) / m. A threshold of 4 needs 17 baseline samples for
  each current one, and any such counts can be reported (`ResourceMetrics.SampleCountsExact`). The
  shipped collector samples gauges every 15 s (`demo/faultlens/otelcol-faultlens.yml:22-24`). As
  long as jitter never brings two stored samples closer than 11.5 s, a gauge can be reported
  exactly with one or two samples in the last minute, where four or five are due
  (`GaugeSampling.ShippedGaugeExact`, whatever the gaps elsewhere). For a series stored exactly
  every 15 s without a gap, that is while its newest sample is more than 30 s and at most a minute
  old (`GaugeSampling.GapFreeGaugeExact`).
- **Sum can return a malformed amount** when units cancel and a fraction is left
  (`Money.SumCanBeMalformed`). An order with free shipping whose first charge is a fraction of one
  unit is such a case (`Money.OrderCanCancel`): it is charged a malformed total or panics on a
  later item, and `Money.OrderTotal` has the exact condition.
- **Metric and log batches are not split independent**, unlike span batches: `first_seen` is
  taken from the latest stamp of a batch (`Discovery.SignalSplit` has the exact condition,
  `Discovery.SplitLowersFirstSeen` a stream that shows it).
- **A service that goes silent, and nothing else, is only a medium incident**: its metric name
  matches no keyword (`Incidents.SilenceAlone`). One that is usually clean is SERVICE_DOWN once
  15.99 % of its requests fail (`Pipeline.IncidentsFollowSpans`).
- **The row-lock order excludes deadlocks**, so the retry of a batch is never needed for the row
  locks modelled here (`Ingest.NoDeadlock`).
- **The fallback of the root-cause analysis never names a service**: it is reached only without
  any affected service (`Rca.RunRca`), and never in a cycle (`Pipeline.SuspectsAreActive`).

Where the code and its own comments disagree, the model follows the code:

- `backend/app/services/rca.py:20-38` scores a service by its upstream callers and breaks ties by
  the z-score; the code scores by callees (`backend/app/services/rca.py:98-111`) and prefers
  affected services.
- `backend/app/services/rca.py:117` promises alphabetical order on a tie; the code takes the first
  one in the order of a set.
- `backend/app/services/anomaly.py:27-30` lists other windows and thresholds than the constants
  below it.
- `backend/app/services/incident.py:22-27` lists the error rules before the latency rules; the code
  tries both critical thresholds first.

## Model

| member | source | states |
|---|---|---|
| `Money.RepresentationIsUnique` | demo/src/checkout/money/money.go:23-31 | every total whose units fit an int64 has exactly one well-formed amount, and no other total has any |
| `Money.Sum` | demo/src/checkout/money/money.go:81-110 | errors exactly for invalid or mismatching inputs; otherwise the result is the well-formed exact sum exactly when the sum fits and the units do not cancel, and a well-formed result is the sum up to wrap-around of the int64 units |
| `Money.SumCanBeMalformed` | demo/src/checkout/money/money.go:90-104 | a concrete pair of valid amounts whose sum is malformed: nothing plus half a unit |
| `Money.MultiplySlow` | demo/src/checkout/money/money.go:113-120 | exact and well formed exactly when the amount is valid, its units do not cancel against itself, and max(n, 1) times its value fits; well-formed results are exact up to wrap-around; the panic of Must is a Failure |
| `Money.PlainBills` | demo/src/checkout/main.go:355-359 | without negative prices no running total overflows if the bill fits |
| `Money.PlainOrders` | demo/src/checkout/main.go:355-359 | without negative prices only the opening charge can cancel, and exactly when it is less than one unit |
| `Money.BillOfPieces` | demo/src/checkout/main.go:355-359 | the bill is the shipping and the price of every piece in the basket: as many pieces as the quantity, one for a quantity of zero, and the quantity plus 2³² for a negative one |
| `Money.OrderTotal` | demo/src/checkout/main.go:350-359 | unless a running total overflows, the charged total is exactly the shipping and the price of every piece when every charge can be computed and no running total cancels against the next charge, and only then; otherwise the order panics or is charged a malformed total; whatever overflows, a well-formed total is that sum up to wrap-around; for prices that are not negative it is exact exactly when the sum fits, every price is valid, in the user's currency and multipliable, and the first charge that is not zero is at least one unit |
| `Money.OrderCanCancel` | demo/src/checkout/main.go:350-359 | a concrete order that cancels: free shipping and one item of half a unit, nothing overflowing |
| `Upsert.MergeTable` | backend/app/services/discovery.py:94-107 | LEAST, GREATEST and the two sums, key by key, with a missing row as identity |
| `Upsert.MergeAssociative` | backend/app/services/graph.py:145-163 | upserting batches is associative |
| `Upsert.MergeCommutative` | backend/app/services/graph.py:145-163 | upserting batches is commutative |
| `Upsert.MergeAllMove` | backend/app/services/discovery.py:94-107 | any batch can be moved to the end of a sequence of upserts |
| `Telemetry.SummaryCounts` | backend/app/services/discovery.py:41-61 | the merged one-span rows are the request count, the error count, the least and the greatest start |
| `Telemetry.GroupCounts` | backend/app/services/discovery.py:32-61 | a row of counters counts exactly the spans of its key, and exists exactly when there is one |
| `Discovery.AggregateSpans` | backend/app/services/discovery.py:32-61 | the counters of a service are the number, the number with status code 2, and the extreme start times of exactly the spans that carry its name |
| `Discovery.ServiceNamesFromRows` | backend/app/services/discovery.py:64-76 | each service named with a time, or without one with a start time, gets the latest of these, and no other service is listed |
| `Discovery.SplitIndependent` | backend/app/services/discovery.py:79-127 | however the span stream is cut into batches, the services table is that of one batch |
| `Discovery.SignalsKeepCounters` | backend/app/services/discovery.py:130-165 | metric and log batches change no request or error counter |
| `Discovery.SignalSplit` | backend/app/services/discovery.py:130-165 | metric and log rows cut into any batches over any stored table: counters and last_seen are those of one batch, first_seen can only be earlier, and it is the same exactly when every batch that mentions the service has the same latest stamp or one not earlier than the stored first_seen |
| `Discovery.SplitLowersFirstSeen` | backend/app/services/discovery.py:64-76 | a concrete stream whose first_seen depends on the cut |
| `CallGraph.ExtractDependencies` | backend/app/services/graph.py:71-126 | there is an edge exactly for the pairs of services with a call, and its counters are the number, the number with status code 2, and the extreme start times of exactly the spans of the target whose parent id is that of a span of the source |
| `CallGraph.UniqueIdsMakeCalls` | backend/app/services/graph.py:71-106 | when ids are unique in the batch, a call from a to b is a span of b whose parent id is the id of a span of a |
| `CallGraph.BatchCallIsCall` | backend/app/services/graph.py:82-106 | a call seen in a batch is the call of the whole stream; it is missed exactly when the parent is not in the batch |
| `CallGraph.SplittingUnderApproximates` | backend/app/services/graph.py:71-126 | cutting the stream only lowers the stored counters of an edge and narrows its seen interval; requests (errors) agree exactly when no (failed) counted span is separated from its parent |
| `CallGraph.TraceTableConsistent` | backend/app/api/v1/ingest.py:115-132 | one trace batch: no self-edges, errors at most requests, first at most last, each edge seen while its target was, and the edges into a service together count at most the service's own requests and errors |
| `CallGraph.SignalTableConsistent` | backend/app/api/v1/ingest.py:135-150 | a metric or log batch keeps the same invariant |
| `CallGraph.MergeConsistent` | backend/app/services/graph.py:145-163 | merging two tables keeps the invariant |
| `Ingest.LockPlan` | backend/app/services/discovery.py:118-124 | all service rows by name, then all dependency rows by source and target, strictly ascending, each row once |
| `Prelude.StringLtMeans` | backend/app/services/discovery.py:118-120 | names are ordered by their first difference, a prefix before its continuations |
| `Ingest.LockOrder` | backend/app/services/graph.py:175-177 | the lock order is a strict total order |
| `Ingest.RunKeepsInv` | backend/app/api/v1/ingest.py:192-234 | every schedule of locks, commits, retries and drops keeps the invariant: row locks are exclusive, pending versions are based on the committed rows, and the tables are the committed batches merged in commit order |
| `Ingest.NoDeadlock` | backend/app/services/discovery.py:118-124 | in every reachable state with a running transaction some transaction can lock its next row or commit |
| `Ingest.EveryScheduleEnds` | backend/app/api/v1/ingest.py:215-234 | no schedule is longer than a bound computed from the batches and the three attempts |
| `Ingest.AttemptsExact` | backend/app/api/v1/ingest.py:188-234 | in every reachable state a running transaction may fail, and may be retried exactly if it has been retried fewer than two times |
| `Ingest.EveryOutcomeIsPossible` | backend/app/api/v1/ingest.py:192-234 | any of the batches can commit, in any order, while all others are dropped |
| `Ingest.SameCommitsSameTable` | backend/app/services/discovery.py:94-107 | the merged tables do not depend on the order in which the same batches are listed |
| `Ingest.Serializable` | backend/app/api/v1/ingest.py:192-234 | in every reachable state the tables are the committed batches merged whole in any order; dropped batches leave no trace and no update is lost |
| `Ingest.StoredRowsExact` | backend/app/api/v1/ingest.py:115-168 | in every reachable state, for mixed trace, metric and log batches on any stored rows: each row has the stored counters plus exactly the spans of the service, or the calls on the edge, in the committed batches, with their failures; its first and last times are the extremes of the stored ones, of the starts of these spans and of the latest times of metric and log batches; and there is no other row |
| `Ingest.CommittedTablesConsistent` | backend/app/api/v1/ingest.py:115-168 | the invariant relating edges to services holds in every reachable state |
| `Ingest.StreamIngested` | backend/app/api/v1/ingest.py:115-132 | concurrent trace batches leave, on top of any stored rows, the services of all committed spans in one batch, and the edges of the committed batches |
| `Statistics.SortedSorts` | backend/app/services/anomaly.py:327-330 | sorting keeps every count and leaves the values ascending |
| `Statistics.MedianIsTheMiddle` | backend/app/services/anomaly.py:327-330 | the median is the middle value of any ascending arrangement of the values, or half the sum of the two middle ones |
| `Statistics.DeviationIsTheMedianOf` | backend/app/services/anomaly.py:371-373 | the deviation is the median of the distances from the median |
| `Statistics.MedianAtMost` | backend/app/services/anomaly.py:327-330 | the median is at most a limit that fewer than half of the values exceed |
| `Statistics.MedianAtLeast` | backend/app/services/anomaly.py:327-330 | the median is at least a limit that fewer than half of the values undercut |
| `Statistics.MinorityCannotMove` | backend/app/services/anomaly.py:367-375 | while fewer than half of the values lie outside an interval, the median lies inside it and the median absolute deviation is at most its width |
| `Statistics.MediansAlike` | backend/app/services/anomaly.py:327-330 | median and median absolute deviation depend only on how often each value occurs |
| `Red.Cap` | backend/app/services/anomaly.py:333-334 | the reported score is the score to within rounding, limited to 50, and rounding never takes a score of 3 or more below 3 |
| `Red.RoundsToNearest` | backend/app/services/anomaly.py:333-334 | rounding to two or four decimals gives the nearest such number |
| `Red.Branches` | backend/app/services/anomaly.py:347-364 | which of silence, the two detectors or nothing applies, with the test of silence in integers; a silence report has its fixed fields and the requests per minute to within rounding |
| `Red.ErrorVerdict` | backend/app/services/anomaly.py:364-386 | the error detector in terms of the median rate and the greater of 1.4826 median deviations and two points |
| `Red.LatencyVerdict` | backend/app/services/anomaly.py:388-407 | the latency detector in terms of the median and the greatest of 1.4826 median deviations, a tenth of the median and 5 ms |
| `Red.VerdictsQuote` | backend/app/services/anomaly.py:376-407 | a report quotes the reading, the median and the spread to within rounding, and its z times the spread is the excess to within rounding, unless it is 50 and the excess at least 50 spreads |
| `Red.EvaluateRedIsWellFormed` | backend/app/services/anomaly.py:337-408 | at most one detection per metric, under the judged service, with scores between 3 and 50 |
| `Red.SilenceExact` | backend/app/services/anomaly.py:351-361 | silence is reported exactly when a service with five minutes of history that averaged three requests a minute handles none |
| `Red.ErrorRateExact` | backend/app/services/anomaly.py:364-386 | while fewer than half of at least five busy minutes had errors, the detector fires exactly when a tenth of the current requests failed |
| `Red.ErrorZExact` | backend/app/services/anomaly.py:364-386 | then a reported z is 8 or more exactly when 15.99 % of the current requests failed |
| `Red.LatencyRobust` | backend/app/services/anomaly.py:388-407 | while fewer than half of at least five latencies lie outside [lo, hi], the detector fires from one bound computed from lo and hi on, and never below another one |
| `Red.WorseStillFires` | backend/app/services/anomaly.py:364-407 | with the same history, a higher error rate or a higher p95 never silences a detector that fired |
| `Red.OrderOfMinutesIsIrrelevant` | backend/app/services/anomaly.py:337-408 | detections depend on how many minutes of history were what, not on when they were |
| `Red.ReportsShowTheJump` | backend/app/services/anomaly.py:376-407 | every report shows, from its own fields and to within rounding, a jump of ten points of error rate, or a doubled p95 that grew by 100 ms |
| `Scan.FillBuckets` | backend/app/services/anomaly.py:463-469 | the nested dictionary holds exactly the rows of the query |
| `Scan.Detector.SpanBasedDetections` | backend/app/services/anomaly.py:449-486 | the detections are those of every seen, not ignored service in name order, each judged on its history with quiet minutes filled in; learning holds exactly the services with less than five minutes |
| `Scan.JudgeAllIsWellFormed` | backend/app/services/anomaly.py:473-486 | the span detections of a scan have one result per key and are ordered by service |
| `Scan.MergeDetections` | backend/app/services/anomaly.py:556-563 | span detections come first, then exactly the metric detections whose key is not taken yet; unique keys stay unique |
| `Scan.Detector.Detect` | backend/app/services/anomaly.py:502-565 | the merged detections have one result per key, and span scores in range |
| `Scan.RetentionIsInvisible` | backend/app/services/anomaly.py:411-436 | deleting spans older than seventeen minutes or more changes none of the windows a later scan judges |
| `Scan.ShorterRetentionIsVisible` | backend/app/services/anomaly.py:454-455 | seventeen minutes is the least such retention |
| `SpanHistory.JudgedExactly` | backend/app/services/anomaly.py:411-473 | a scan judges a service exactly when it is not ignored and handled a SERVER or CONSUMER span in the last seventeen minutes |
| `SpanHistory.CurrentExact` | backend/app/services/anomaly.py:411-422 | the current window holds the spans handled in the last two minutes, how many of them failed, and their percentile; there is none without a span |
| `SpanHistory.HistoryExact` | backend/app/services/anomaly.py:463-480 | the history starts with the first of the fifteen minutes that has a handled span, and has one window for each minute since, with zero counts and no percentile for a minute without spans |
| `SpanHistory.LearningExact` | backend/app/services/anomaly.py:473-482 | a judged service is listed as learning, with its minutes, exactly while it has fewer than five of them |
| `SpanHistory.SilenceIsReported` | backend/app/services/anomaly.py:347-361 | of the judged services exactly those are reported as silent that handled nothing in two minutes, after five or more minutes with three handled spans each on average |
| `SpanHistory.FailureIsReported` | backend/app/services/anomaly.py:364-386 | a judged service with at least five busy minutes, mostly without errors, and five requests now is reported for its error rate exactly when a tenth of them fail, with a z of 8 or more exactly when 15.99 % do |
| `SpanHistory.SlownessIsReported` | backend/app/services/anomaly.py:388-407 | a judged service whose minutes mostly have a percentile in an interval is reported for its latency from one bound on and not below another |
| `ResourceMetrics.FetchBaseline` | backend/app/services/anomaly.py:118-144 | each value is in the baseline as often as points of the last ten minutes have it as their double or, without one, as their integer, in the order of the points |
| `ResourceMetrics.CurrentMeanExact` | backend/app/services/anomaly.py:147-173 | the current mean is that of the doubles of the last minute, of its integers if it has no double, and missing without either |
| `ResourceMetrics.ContainedWindowSquares` | backend/app/services/anomaly.py:78-102 | because the m current samples are among the n baseline samples, m times the squared deviation of their mean is at most n − m times the variance, for every data set |
| `ResourceMetrics.ContainedWindowBound` | backend/app/services/anomaly.py:78-102 | hence z² ≤ (n − m) / m, whatever the data |
| `ResourceMetrics.DeviatesExactly` | backend/app/services/anomaly.py:95-101 | a series passes the thresholds exactly when its squared deviation is 16 variances and both deltas pass, whatever square root is taken |
| `ResourceMetrics.FiresOnlyWithSeventeenTimesTheSamples` | backend/app/services/anomaly.py:523-539 | a gauge passes the threshold of 4 only if it has 17 baseline samples for each current one |
| `ResourceMetrics.SampleCountsExact` | backend/app/services/anomaly.py:523-539 | n baseline samples of which m are current can be reported for some values exactly when m ≥ 1 and n ≥ 17 m |
| `ResourceMetrics.SeventeenIsLeast` | backend/app/services/anomaly.py:523-539 | the least case, with its numbers: 17 samples of which one is current, standard deviation 4, score 4 |
| `GaugeSampling.SpacedGaugeExact` | backend/app/services/anomaly.py:118-173 | a gauge whose samples are at least g apart, with any jitter and gaps, can be reported with m samples in the last minute exactly when these and 16 m older ones fit into the ten minutes |
| `GaugeSampling.ShippedGaugeExact` | backend/app/services/anomaly.py:491-497 | for the shipped 15 s interval, as long as samples are not closer than 11.5 s: exactly with one or two samples in the last minute |
| `GaugeSampling.RegularGaugeExact` | backend/app/services/anomaly.py:118-173 | a gauge with a given number of samples at an exact period can be reported for some values exactly when the last minute holds a sample and the last ten minutes hold 17 for each one of it |
| `GaugeSampling.GapFreeGaugeExact` | backend/app/services/anomaly.py:491-497 | stored exactly every 15 s without a gap: exactly while the newest sample is more than 30 s and at most a minute old |
| `GaugeScan.GaugeFiresExactly` | backend/app/services/anomaly.py:523-539 | a series is reported exactly when it has a mean, five samples and a deviation, and the change is at least 4 deviations, 5 points and a quarter of the mean; it then has 17 samples |
| `GaugeScan.RoundsToThousandths` | backend/app/services/anomaly.py:540-541 | rounding a score to three decimals gives the nearest such number |
| `GaugeScan.GaugeQuotes` | backend/app/services/anomaly.py:537-547 | a report quotes both means, the deviation and the score to within rounding, and says which mean is larger |
| `GaugeScan.ScanGauges` | backend/app/services/anomaly.py:514-551 | the detections of the candidates in their order: every series that fires is reported, and no other |
| `Anomalies.OneActiveKept` | backend/app/services/anomaly.py:219-252 | a scan keeps at most one active row per key exactly when no key that was not active is reported twice |
| `Anomalies.AnomalyTable.IndexActive` | backend/app/services/anomaly.py:215-221 | the dictionary holds exactly the active rows by key |
| `Anomalies.AnomalyTable.Upsert` | backend/app/services/anomaly.py:204-267 | the whole new table, and the opened and resolved keys, as functions of the old table |
| `Anomalies.AnomalyTable.ResolveQuiet` | backend/app/services/anomaly.py:254-266 | exactly the active rows that were not detected and have been quiet for 90 s are resolved |
| `AnomalyHistory.RowsAreSane` | backend/app/services/anomaly.py:204-267 | in every run: one active row per key, active exactly when there is no resolve time, and a resolve time at least 90 s after the last firing |
| `AnomalyHistory.ActiveRows` | backend/app/services/anomaly.py:226-235 | an active row records the last detection of its key, its time, score, value and direction |
| `AnomalyHistory.ActiveClosedForm` | backend/app/services/anomaly.py:255-267 | after any run a key is active exactly when no scan since its last detection came 90 s later |
| `AnomalyHistory.ActiveMeansRecent` | backend/app/services/anomaly.py:255-267 | with a clock that never runs back: exactly when it was detected less than 90 s ago |
| `AnomalyHistory.ResolvedExactly` | backend/app/services/anomaly.py:254-266 | every resolved row was resolved by the first scan that came 90 s after the last one to detect its key, and records the time of the one and the values of the other |
| `AnomalyHistory.RowsPersist` | backend/app/services/anomaly.py:204-267 | rows never move, and a resolved row never changes again |
| `AnomalyHistory.RowsKeepTheirBaseline` | backend/app/services/anomaly.py:237-251 | every row keeps the baseline of the detection that opened it |
| `AnomalyHistory.OpeningsAreApart` | backend/app/services/anomaly.py:213-267 | two openings of a key do not overlap, and the second comes at least 90 s after the first last fired |
| `AnomalyHistory.FlapBound` | backend/app/services/anomaly.py:213-267 | in any period of T seconds within any run a key opens at most 1 + T / 90 times |
| `AnomalyHistory.OneScanReports` | backend/app/services/anomaly.py:213-267 | one scan reports at most one change of a key, and exactly the change of its activity |
| `AnomalyHistory.ReportsAlternate` | backend/app/services/anomaly.py:213-267 | over every run, openings minus resolutions of a key is one while it is active and zero otherwise |
| `Rules.MetricKindExact` | backend/app/services/incident.py:55-66 | a metric is an error or a latency metric exactly when its name spells one of the keywords somewhere, in capitals or not |
| `Rules.RuleExact` | backend/app/services/incident.py:79-173 | which rule matches, in terms of thresholds and in order of priority |
| `Rules.OnlyTheMultisetMatters` | backend/app/services/incident.py:79-173 | rule and severity depend only on the multiset of anomalies |
| `Rules.SeverityExact` | backend/app/services/incident.py:79-173 | critical exactly when an error or latency anomaly has abs(z) ≥ 8; above medium exactly with two anomalies or one such abs(z) ≥ 3 |
| `Rules.MoreIsNeverLess` | backend/app/services/incident.py:79-173 | more anomalies never lower the severity |
| `Rules.SpanAnomalyIsHigh` | backend/app/services/incident.py:55-66 | a span error or latency anomaly with a score of 3 makes the incident at least high |
| `Rules.SilenceAloneIsMedium` | backend/app/services/incident.py:160-173 | a service that only went silent is an incident of medium severity |
| `Incidents.EngineAgrees` | backend/app/services/incident.py:209-288 | after a run each service has one open incident exactly when it has an active anomaly, and the incident shows the rule, severity and ids of those anomalies |
| `Incidents.GroupIdsAre` | backend/app/services/incident.py:194-226 | the ids of a service ascend, each once, and are the positions of exactly its active rows |
| `Incidents.IncidentExact` | backend/app/services/incident.py:79-258 | an open incident lists the ids of exactly the active rows of its service, each once, and its rule and severity follow from their metrics, scores and number in order of priority |
| `Incidents.SilenceAlone` | backend/app/services/incident.py:160-258 | a service whose only active row is a silence has a medium SINGLE_ANOMALY incident with that one id |
| `Incidents.GroupByService` | backend/app/services/incident.py:194-204 | the services with active anomalies, each once |
| `Incidents.IncidentTable.OpenIncidents` | backend/app/services/incident.py:178-191 | the dictionary holds exactly the open incidents by service |
| `Incidents.IncidentTable.RunEngine` | backend/app/services/incident.py:209-288 | the whole new table, and the four counters as sizes of sets of services |
| `Incidents.IncidentTable.UpdateOrCreate` | backend/app/services/incident.py:233-270 | services with an open incident are updated, the others get one, nothing else changes |
| `Incidents.IncidentTable.ResolveQuiet` | backend/app/services/incident.py:272-280 | exactly the open incidents of services without active anomalies are resolved |
| `Incidents.OpenIncidentsCount` | backend/app/services/incident.py:282-284 | the number of open incidents is the number of services that have one |
| `IncidentHistory.TablesAgree` | backend/app/services/incident.py:209-288 | after every cycle of every run the services with an open incident are those with an active anomaly |
| `IncidentHistory.RunContinues` | backend/app/services/incident.py:209-288 | in every run incidents keep their place, service and time of creation, and a resolved one stays as it is |
| `IncidentHistory.NewIncident` | backend/app/services/incident.py:250-262 | a new incident is open, has the time of the engine, and is the only one for a service that became active in this cycle |
| `IncidentHistory.ResolvedOnce` | backend/app/services/incident.py:272-280 | every resolved incident is what it was in its last open cycle, with the time of the engine in the cycle in which its service lost its last active anomaly |
| `IncidentHistory.IncidentsAreApart` | backend/app/services/incident.py:233-280 | two incidents of one service come from scans at least 90 s apart |
| `Pipeline.IncidentsFollowHistory` | backend/app/services/scheduler.py:157-161 | a service has an open incident exactly when a metric of it is active in the closed form of the detection history |
| `Pipeline.IncidentsFollowRecentDetections` | backend/app/services/scheduler.py:157-161 | with a clock that never runs back: exactly when a metric of it was detected in the last 90 s |
| `Pipeline.SpanIncidentIsHigh` | backend/app/services/incident.py:55-173 | an incident whose service has an active span error or latency anomaly is at least high, in every run |
| `Pipeline.CycleFacts` | backend/app/services/scheduler.py:157-161 | a scan and the engine: the table is that of one more pass, the incidents agree with it, and open before + created − resolved = open after = created + updated |
| `Pipeline.SuspectsAreActive` | backend/app/services/rca.py:257-277 | after a cycle every open incident has candidates, which are the affected services and the named ones with an active anomaly, all of them active, so the fallback result is never used |
| `Pipeline.AnalyseOpen` | backend/app/services/rca.py:296-311 | one answer per open incident, over its own candidates |
| `Pipeline.OpenIncidentBlames` | backend/app/services/rca.py:98-121 | the named root cause has an active anomaly; it is the incident's own service exactly when that one calls no candidate, or every candidate calls one |
| `Pipeline.Pipeline.Follow` | backend/app/services/scheduler.py:157-161 | scan results stored, the engine run at its time, counters balanced |
| `Pipeline.ReportedIsHigh` | backend/app/services/scheduler.py:157-161 | a service reported for its error rate or its latency has, after the cycle, an open incident of high severity or above |
| `Pipeline.IncidentsFollowSpans` | backend/app/services/scheduler.py:157-161 | from stored spans to incidents: after a cycle every silent service that is not ignored has an open incident, every usually clean one that fails a tenth of its requests a high one, at 15.99 % a critical SERVICE_DOWN, and every one that became slow beyond its bound a high one |
| `Pipeline.Pipeline.Detect` | backend/app/services/anomaly.py:502-563 | the merged detections of both engines, the judged services in name order, and the learning ones |
| `Pipeline.Pipeline.RunCycle` | backend/app/services/scheduler.py:143-184 | one whole cycle from the stored tables: stage order, the invariant of the whole state, what each stage reports, the step of the explanation queue, and the incidents that services are owed for their spans |
| `Rca.CallersOf` | backend/app/services/rca.py:69-71 | the callers of a service are exactly the sources of calls to it |
| `Rca.CalleesOf` | backend/app/services/rca.py:69-71 | the callees of a service are exactly the targets of its calls |
| `Rca.Graph.AddEdge` | backend/app/services/rca.py:61-71 | both dictionaries stay transposes of one list of calls, which grows by the new call |
| `Rca.AppendCallers` | backend/app/services/rca.py:149-155 | one service's anomalous, unvisited callers join path, visited set and queue, each once |
| `Rca.BuildPropagationPath` | backend/app/services/rca.py:134-162 | the loop ends for every graph, and the path is the walk followed by the missed affected services |
| `Rca.Score` | backend/app/services/rca.py:98-111 | 1.0 exactly for the services that call no anomalous service, 0.5 for the others |
| `Rca.BackwardGraphTraversal` | backend/app/services/rca.py:84-131 | no result exactly when nothing is anomalous; otherwise a top scorer, an affected one if there is one, whatever the order of the set |
| `Rca.LoadGraph` | backend/app/services/rca.py:167-192 | the canonical calls, then the live ones |
| `Rca.RunRca` | backend/app/services/rca.py:239-293 | affected services join the candidates; the fallback is used only when there is neither an affected service nor an active anomaly |
| `PropagationPaths.ReachedIsBreadthFirst` | backend/app/services/rca.py:134-155 | for every graph, cyclic or with repeated calls: no repeats, exact distances that never decrease, every later service anomalous and calling an earlier one, nothing missing |
| `PropagationPaths.ReachedIsTheWalk` | backend/app/services/rca.py:134-155 | the walk is the only list that starts with the root, repeats nothing, goes on with anomalous callers of earlier services, misses none, and orders services by their first callee on the list and then by the order of the calls |
| `PropagationPaths.ReachedMeansChain` | backend/app/services/rca.py:149-155 | the walk lists exactly the services with a chain of calls to the root through anomalous services |
| `PropagationPaths.EarlierIsNearer` | backend/app/services/rca.py:149-155 | an earlier service has a chain no longer than any chain of a later one |
| `PropagationPaths.PathLists` | backend/app/services/rca.py:157-162 | the path lists the reached and the affected services, and repeats one exactly when a missed affected service is repeated |
| `PropagationPaths.LeftoverExact` | backend/app/services/rca.py:157-160 | the affected services at the end are those that the walk missed, in their order and with their repetitions |
| `PropagationPaths.SameMentionsSameAnswers` | backend/app/services/rca.py:181-192 | answers depend only on the first mentions of the calls |
| `PropagationPaths.RepeatedCallsChangeNothing` | backend/app/services/rca.py:181-192 | live calls that the canonical list already has change no answer |
| `RootCauses.AnswersExact` | backend/app/services/rca.py:98-121 | the scores, the confidence and the choice of the root cause in terms of the calls alone: a service scores 0.5 exactly when it calls an anomalous one, a service that calls none wins over all others, and an affected one over the rest |
| `RootCauses.EveryServiceReachesASink` | backend/app/services/rca.py:98-111 | without a cycle of anomalous calls every anomalous service leads to one scored 1.0 |
| `RootCauses.ConfidenceMeans` | backend/app/services/rca.py:113-121 | confidence is 1.0 exactly when some service calls no anomalous one, and always without a cycle |
| `RootCauses.HalfConfidenceMeansCycle` | backend/app/services/rca.py:98-116 | a confidence of 0.5 exhibits a cycle of calls among anomalous services |
| `RootCauses.CycleCanKeepConfidence` | backend/app/services/rca.py:98-116 | the converse fails: a concrete cycle with confidence 1.0 |
| `RootCauses.UniqueSinkExplainsAll` | backend/app/services/rca.py:118-124 | without a cycle, the walk from the root cause lists every anomalous service exactly when it is the only one scored 1.0 |
| `RootCauses.BlamesItself` | backend/app/services/rca.py:118-121 | an incident of one service blames it exactly when it scores 1.0 or nothing does |
| `RootCauses.OrderCannotMatter` | backend/app/services/rca.py:118-121 | the answer is unique when one affected service scores highest |
| `RootCauses.CanonicalIsCertain` | backend/app/services/rca.py:167-179 | while live calls only repeat canonical ones, every answer has confidence 1.0 |
| `Retention.Table.DeleteBatch` | backend/app/services/scheduler.py:127-132 | at most 20 000 old rows go, which ones is left open; fewer only when no old row stays |
| `Retention.Table.RunRetention` | backend/app/services/scheduler.py:125-137 | total / 20 000 + 1 passes; exactly the rows older than the cutoff that were there before the last pass are deleted, all others stay; with newer arrivals these are the rows that were old at the start |
| `Retention.PurgeExact` | backend/app/services/scheduler.py:125-137 | row by row: exactly the rows with a time before the cutoff are gone, all others are unchanged, and the total is their number |
| `Retention.NewArrivalsAreKept` | backend/app/services/scheduler.py:134-136 | rows that arrive inside the window are all kept and never counted |
| `Retention.GaugeRetentionIsInvisible` | backend/app/services/anomaly.py:118-173 | a retention of ten minutes or more never changes whether a gauge is reported |
| `LaterScans.RecentRowsStay` | backend/app/services/scheduler.py:119-138 | after any arrivals and retention passes, no row younger than the shortest retention is missing |
| `LaterScans.RetentionChangesNoDetection` | backend/app/services/anomaly.py:502-563 | after any arrivals and any retention passes of at least 17 minutes, a scan judges the same services, has the same candidate series, and makes the same detections, in the same order, as one over everything ever received |
| `Explanations.Explainer.ExplainNewIncidents` | backend/app/services/scheduler.py:74-107 | the new state and the reports of one cycle: the two oldest, stopped by the first failure, nothing while paused |
| `Explanations.StepExact` | backend/app/services/scheduler.py:74-107 | one cycle, incident by incident: of the waiting ones the two oldest are taken in order up to the first failure; those answered are stored, those without evidence passed over, and a failure pauses the queue for 120 s |
| `Explanations.NeverTwice` | backend/app/services/scheduler.py:81-106 | in every run no incident is explained twice, and the reports account for all explanations |
| `Explanations.FailuresAreApart` | backend/app/services/scheduler.py:89-103 | in every run two failed calls end at least 120 s apart |
| `IncidentHistory.ExplainedInRun` | backend/app/services/scheduler.py:74-107 | in every run, when calls succeed, an open incident with r older unexplained open ones is explained within ⌊r / 2⌋ + 1 cycles unless it resolves |
| `IncidentHistory.NotExplainedEarlierInRun` | backend/app/services/scheduler.py:74-107 | and not within ⌊r / 2⌋ cycles while no older incident resolves |

## Left out

- The SQL engine: isolation levels, savepoints that fail alone (an edge upsert could then commit without its service upsert), and the speculative insert of ON CONFLICT; a row lock is taken whole, by name.
- The manual endpoints that scan, run the engine, analyse or explain outside the pipeline lock, and stored explanations written by them.
- GaugeSampling.ShippedGaugeExact: says nothing about samples closer than 11.5 s; GaugeSampling.SpacedGaugeExact has the condition for every spacing.
- Pipeline.Pipeline.RunCycle: takes the results of SQL's percentile, of `math.sqrt`, of the explanation calls, and the order in which the candidate series are listed as arguments.
- Ordering of unordered queries: rows are read in table order, which decides the order of reports and new incidents, not their contents.
- Text: titles, descriptions, change lines, logs; `str.lower` is modelled for ASCII letters, which decides every keyword.
- Floating point: rounding errors are not modelled, except the decimal rounding of reported values, taken over reals with ties to even.
- ResourceMetrics.ComputeZScore: takes the standard deviation as an argument constrained to be the square root of the variance, because square roots of reals are not computable here.
- Incident rows with several affected services or none: the engine creates one service per incident, and this is the table's invariant.
- Money.OrderTotal: when a running total overflows it gives the bill only up to wrap-around, because wrapping twice can restore the exact bill by accident.
- Parsing and flattening of OTLP requests, evidence assembly, prompts, dashboards, correlation, migrations, settings: formatting and I/O that would only add easy members.
- Frontends, simulators and the other services of the demo shop.
