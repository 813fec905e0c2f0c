# Verified model of the security-operations backend

This project models the stateful core of the backend in Dafny and proves what it is meant to guarantee: a small
detection language and its two correlation algorithms, the service that turns firings into alerts, checkpointed
ingestion, request limiting, idempotency keys, rule versions, case numbers, users and sessions, literal search, and
the bounded transforms for AI evidence and audit payloads.

`dafny verify dfyconfig.toml` checks everything. Loops and objects of the Python code are methods and classes whose
postconditions equate the result, or the committed state, with a function; the theorems are lemmas about that function
over all inputs or all histories.

| module | what it holds |
|---|---|
| `Basics` | options, text order, stable sort and its uniqueness |
| `Dsl`, `Matcher` | condition trees, their limits, single-event evaluation and its three-valued reading |
| `Events`, `Candidates` | the `(timestamp, event_id)` order, the bounded candidate query |
| `Sequence`, `SequenceExact`, `SequenceStability` | the greedy multi-stage evaluator, its exactness, when it raises, its evidence, its independence of windows |
| `Threshold` | tumbling buckets, exactness, order freedom, bursts |
| `FieldAccess` | correlation over events given as mappings and as database rows |
| `DetectionService`, `DetectionHistory`, `AlertHistory` | runs and alerts under faults, any history of runs, and what its alerts hold |
| `DetectionExact` | the same told on event columns and table rows: reports, outcomes, run rows, alerts |
| `Ingestion`, `IngestionHistory` | the fixture adapter and coordinator, and any history of runs |
| `AbuseLimiter`, `Idempotency` | the sliding-window limiter; idempotency keys under every interleaving |
| `RuleHistory`, `Identity` | versions and snapshots; administrators and sessions |
| `CaseNumber`, `CaseCreation` | generated numbers, and case creation under an idempotency key |
| `LikeEscape` | LIKE escaping |
| `Redaction`, `BoundedTransforms` | the secret pattern and its substitution; evidence packing, audit sanitizing |

## How the model reads the code

- Times are integers (microseconds for events, seconds for sessions and keys; the limiter's monotonic clock is a
  real). An event row holds strings, integers and times, as the columns do, and a field that is NULL is absent. Event
  ids are unique where a theorem says so (`db/models/event.py`, line 34).
- `cidr_match`, `repr` of a group, the normalizer's field mapping, the patterns for secret keys, the JSON length and the
  folding of search text are parameters; every theorem holds for all of them (order freedom of thresholds needs `repr`
  injective).
- SHA-256 and canonical JSON are injective: a fingerprint carries the rule id, version and whole firing it digests; a
  key or session token stands for its digest.
- The database is a working copy and a committed copy with commit, rollback and unique constraints. Its exceptions
  enter as parameters that say where a run is struck (`Fault`, `Weather`, `Strike`). What a column refuses because of
  its value is not among them: text columns take no NUL and a bounded length, JSON columns no datetime, and a statement
  no more than 65535 parameters (PostgreSQL under psycopg 3, `requirements.txt`, line 15).
- An evaluation that Python abandons with an exception is a result here: `MatchEvent` flags it (`raised`), the
  evaluators return it, and the service turns it into a failed run.
- `sequence.py` and `threshold.py` read a field of a mapping by name, and of a database row only if it is one of five.
  Their evaluators take the accessor as a parameter, so their theorems hold for both; `execute_rule` passes rows.
- The secret pattern is modelled as Python matches it over text: `(?i)` folds four letters outside ASCII to `i`, `s` and
  `k`, and `\s` is Unicode white space.

## What turned out false, and when it holds

- Two stages of one rule may carry the same label. The evidence dictionary then keeps only the later one.
  `EvidenceCompleteExactly`: no stage loses evidence if and only if the effective labels differ;
  `SharedLabelLosesEvidence` is an instance.
- Validation lets a time operator name a field that holds no datetime, and matching then raises: `_leaf` catches
  `TypeError` and `ValueError`, but `_utc` fails with an `AttributeError`. `RaisedExactly` says when one match raises
  (`TimeOperatorOnText` is an instance), and `SingleRaisesExactly`, `ThresholdRaisesExactly` and `SequenceRaisesExactly`
  when an evaluation does. No run of a stored rule meets this: JSON has no datetimes, validation wants one behind every
  time operator, and so `parse_logic` refuses such rules (`StoredTimeRulesAreRefused`, `StoredRulesNeverRaise`).
- A run can fail by itself, and then does on every attempt. `RunCompletesExactly`: a run that passes the checks and meets
  no fault completes, except in three cases. A single rule matches a candidate on a field holding a datetime: the alert
  stores the explanation, datetime included, in a JSON column (`db/models/alert.py`, line 63), and the engine has no
  encoder for it (`db/session.py`, line 14). A threshold rule reports more than 65535 events as evidence: the evidence
  query binds one parameter each. A sequence rule with a NUL in a stage label reports anything: the label goes into a
  text column (`db/models/alert.py`, line 18). `TimestampRuleAlwaysFails`, `BusyDayFails` and `NulLabelAlwaysFails` are
  instances that pass validation.
- The handler that finalizes a failed run can itself fail, or the process stop. `RunningExactly`: a header stays
  `running` if and only if that happened to its run.
- Overlapping runs of a threshold rule can file several alerts for one burst (`ShiftedWindowFilesTwice`).
  `AlertIsSharedExactly`: a run shares the alert of another's bucket if and only if one of its own buckets of that group
  counts the same events. `BucketAlertIsShared`: runs that both see a whole bucket, so that their starts lie on one grid
  of window lengths, do.
- A rule may group, count or correlate by any of the twenty fields, but of a database row `_field` reads five. Such a
  rule never reports anything (`ProcessCorrelationIsBlind` is an instance). `SequenceRulesAgreeExactly` and
  `ThresholdRulesAgreeExactly`: for a rule that reports anything, rows and mappings agree on all events if and only if
  it keeps to the five.
- The fixture offset counts from the requested start, but is stored per source. `MovedWindowLosesRecords` gives two
  clean runs that lose a record; `CarriesExactly` says exactly when a start may move under a stored offset.
- A page of records can be impossible to commit. `RunKeepsSynced`: an undisturbed run commits if and only if the
  normalizable records up to the end of its page each fit their columns, which nothing bounds before, and no two share
  an `event_id`, which omits the index that the dedup key contains. Otherwise that page never commits and the stream is
  stuck (`UnstorablePageBlocks`; `TwoIndexesBlock` for two records on two pages, `LongIdBlocks` for one record id of 300
  characters). `DrainsExactly`: enough undisturbed runs store the window if and only if its records can be stored.
- The docstring of `AbuseLimiter` says fixed window; the code slides. It reads the clock before it takes the lock:
  `LateLockBreaksBound` shows two admissions a second too close when one reading lags a second behind lock order.
  `BoundsExactly`: over all histories whose readings lag at most so much, intervals of a length hold at most
  `max_requests` admissions if and only if that length is at most the window less the lag. The in-flight count can miss
  leases after `reset` (`ResetBreaksCount`), which only `tests/conftest.py` calls. `CountExactly`: it is right
  throughout a history if and only if each `reset` happens while no lease is out.
- An operation name beyond 100 characters is stored clipped and looked up whole. `AnsweredIsReplayedExactly`: the key of
  an answered request replays, until it expires, if and only if the operation is no longer than that. The callers pass
  only `"case.create"` (`api/v1/endpoints/cases.py`, line 171) and `"ai.triage.request"` (`api/v1/endpoints/ai.py`,
  line 60), so the failure is open to future callers alone.
- `IdempotencyService.abandon` is meant for operations that fail before success, but `create_case` never calls it.
  `KeyIsSettled`: after a request reserved a key, the key replays its case for the whole retention period if and only if
  every alert existed, fewer than 10000 cases did, its texts could be stored, and neither the database nor the process
  failed it; otherwise it answers with a conflict. `MissingAlertBlocksKey` and `NulBlocksKey`, a title with a NUL, which
  the schema lets through (`api/schemas/case.py`, lines 46-50), are instances.
- Case numbers: `FreshExactly`. The ten-thousandth case of a year is numbered 10000 and no later one can be created,
  because `9999` remains the greatest text.
- Redacting twice is redacting once (`RedactedIsClean`, `CleanIsFixed`), but sanitizing an audit value twice can differ
  from sanitizing it once, for two reasons. The mark that says entries were cut may itself fall below the depth limit
  the second time (`CrowdedKeysDoNotSettle`). And the mark behind a cut string may be taken for the end of a secret
  (`MarkIsSwallowed`). `SanitizeIdempotent` gives the exact set of values.

## Model

| member | source | states |
|---|---|---|
| Dsl.LimitsExact | backend/detection/dsl.py:96-105 | the recursive limit check accepts a tree at a depth exactly when its levels fit in eight and its predicates in one hundred, and then returns the number of predicates |
| Dsl.AcceptedExactly | backend/detection/dsl.py:51-90 | per-node validation, children first, accepts a tree exactly when all shapes are right, the height is at most 8 and the leaves at most 100 |
| Dsl.OperandsExactly | backend/detection/dsl.py:64-89 | behind which operators validation takes no constant, a list of at most 100, a text, a number or truth value, and a time |
| Dsl.NodesBound | backend/detection/dsl.py:96-105 | a well-shaped tree has at most leaves times height nodes |
| Dsl.AcceptedNodesBound | backend/detection/dsl.py:51-61 | an accepted tree has at most 800 nodes |
| Dsl.StoredTimeRulesAreRefused | backend/detection/dsl.py:77-81 | a rule with a time operator anywhere, as JSON can hold it, never passes `parse_logic` |
| Dsl.ParsedExactly | backend/detection/dsl.py:108-163 | `parse_logic` returns a stored rule as it stands exactly when every condition is well shaped, at most 8 levels high and 100 predicates wide, and stages, keys, counts, windows and spans are in range; else it refuses |
| Dsl.JsonExactly | backend/detection/dsl.py:48 | what JSON can hold of a condition is what has no datetime constant anywhere |
| Matcher.VisitsAreNodes | backend/detection/matcher.py:129-141 | evaluation visits every node of the tree exactly once, with no short cut |
| Matcher.MatchCostBound | backend/detection/matcher.py:129-141 | matching one event against an accepted rule visits at most 800 nodes |
| Matcher.MissingExactly | backend/detection/matcher.py:134-140 | the root is flagged missing exactly when some mentioned field is NULL |
| Matcher.RaisedExactly | backend/detection/matcher.py:119-125 | evaluation raises exactly when some leaf applies a time operator to a present value that is not a datetime, whatever the other leaves say |
| Matcher.TimeOperatorOnText | backend/detection/matcher.py:119-125 | `before` on a host name passes validation and raises on every event that has the host name |
| Matcher.PresenceLaws | backend/detection/matcher.py:95-101 | `exists` and `not_exists` ask for the field; no other operator matches without it; the explanation repeats the leaf with the value found |
| Matcher.EqualityLaws | backend/detection/matcher.py:105-112 | `equals` wants the same type and value, `not_equals` the same type and another value, `in` and `not_in` a list that writes the value or does not |
| Matcher.TextLaws | backend/detection/matcher.py:107-110 | a text contains, lacks, starts with or ends with a constant exactly when it splits, or does not split, around it |
| Matcher.NumberLaws | backend/detection/matcher.py:113-118 | the four comparisons of a number with a whole, real or truth-valued constant |
| Matcher.TimeLaws | backend/detection/matcher.py:119-121 | the four comparisons of two times |
| Matcher.TypeLaws | backend/detection/matcher.py:107-125 | a value of another type matches no text, number or time operator, negative ones included |
| Matcher.ConnectivesExactly | backend/detection/matcher.py:129-141 | `and`, `or` and `not` on what their members match, where `not` also wants every field its member mentions; the explanation lists the members in order |
| Matcher.ShowsTimeExactly | backend/detection/matcher.py:25-35 | the explanation of a stored rule holds a datetime exactly when a mentioned field does |
| Matcher.ClassicalWhenPresent | backend/detection/matcher.py:129-141 | with no mentioned field NULL, matching is two-valued logic and agrees with Kleene logic |
| Matcher.MatchImpliesKleeneTrue | backend/detection/matcher.py:92-141 | a match is true in strong Kleene logic: nothing unknown is ever claimed |
| Matcher.NotFreeIsExact | backend/detection/matcher.py:129-141 | without `not`, matching is exactly Kleene truth |
| Matcher.SameWhenPresent | backend/detection/matcher.py:60-82 | filling in NULL fields leaves an evaluation that touched none of them unchanged, explanation included |
| Matcher.MatchSurvivesFillingIn | backend/detection/matcher.py:95-101 | without `not_exists`, a match survives filling in missing fields |
| Matcher.AnyEqualsIsIn | backend/detection/matcher.py:111 | `in` reports what the `or` of `equals` reports |
| Matcher.NotInIsNotOfIn | backend/detection/matcher.py:112 | `not_in` reports what `not` of `in` reports, NULL fields included |
| Matcher.RewritingKeepsOutcome | backend/detection/matcher.py:111-141 | rewriting list operators anywhere in a tree keeps the root's matched and missing values, and whether it raises |
| Events.OrderedProperties | backend/detection/sequence.py:60 | sorting by time and id is a permutation, sorted, and keeps ids unique |
| Events.OrderedByTimeThenId | backend/detection/sequence.py:60 | the order is ascending time and, at one time, ascending id text |
| Events.OrderedCanonical | backend/detection/threshold.py:80 | with unique ids the sorted order does not depend on the input order |
| Candidates.WindowIsSlice | backend/detection/service.py:75-79 | the window query returns one contiguous slice of the ordered history |
| Candidates.CandidatesAreSlice | backend/detection/service.py:75-82 | so does the query cut to `max_events_scanned` |
| Candidates.CandidatesAreEarliest | backend/detection/service.py:75-82 | the candidates are stored events of the window, as many as it holds or `max_events_scanned`, in order; every other event of the window comes after all of them, and there is one exactly when the window holds more than that |
| Sequence.FillStage | backend/detection/sequence.py:71-83 | the loop that fills a stage takes the earliest fitting events in span, none is missed when it stops short, and it raises exactly when the scan meets a raising match first |
| Sequence.FillStages | backend/detection/sequence.py:86-106 | the loop over the later stages computes the greedy choice cut into stages, fails exactly when there is none, and raises exactly when the scan does |
| Sequence.RaisesAtSomeStage | backend/detection/sequence.py:66-99 | behind an evaluation that raises stands an event and a stage on which matching raises |
| Sequence.BuildMatch | backend/detection/sequence.py:107-118 | the final span check never fires; span and evidence are those of the greedy choice |
| Sequence.EvaluateStart | backend/detection/sequence.py:64-118 | one pass of the outer loop raises, reports the chain of its first event, or reports nothing |
| Sequence.EvaluateSequence | backend/detection/sequence.py:49-119 | the whole evaluator raises exactly when some pass does; otherwise the reports of all starts in order, deduplicated by evidence |
| SequenceExact.PickIsChain | backend/detection/sequence.py:73-100 | whatever the scan picks fits its slots, ascends and stays in span |
| SequenceExact.PickIsEarliest | backend/detection/sequence.py:73-100 | exchange argument: if any chain fits, the scan succeeds and is at or before it position by position |
| SequenceExact.GreedyIsAdmissible | backend/detection/sequence.py:86-109 | a found chain is an admissible choice of `min_count` events per stage |
| SequenceExact.ChainCorrelates | backend/detection/sequence.py:73-100 | every event of a chain has the first event's value in every shared key, which is not NULL, and lies within the span of it |
| SequenceExact.GreedyIsEarliest | backend/detection/sequence.py:50-57 | for every admissible choice from a first event, a chain is reported that ends no later and spans no more |
| SequenceExact.ReportIsAboutTheChain | backend/detection/sequence.py:107-118 | the report's correlation, span and evidence are those of the chain |
| SequenceExact.GreedyIsExact | backend/detection/sequence.py:49-119 | a first event is reported if and only if some admissible choice of later events exists |
| SequenceExact.PickRaisesExactly | backend/detection/sequence.py:73-100 | the scan raises exactly when matching raises on an event in span with equal keys, for the first slot that no choice of earlier events fills |
| SequenceExact.EvaluationRaisesExactly | backend/detection/sequence.py:64-106 | the whole evaluation raises exactly when matching raises on some event for the first stage, or on a later event as above |
| SequenceStability.EvidenceCompleteExactly | backend/detection/sequence.py:110-113 | every stage keeps its own evidence entry if and only if the effective labels differ |
| SequenceStability.ReportSays | backend/detection/sequence.py:68-118 | a report gives the first event's values of the shared keys, the time to the last event, and under each label, `stage_1` to `stage_8` by default, the ids of the last stage that has it, and nothing else |
| SequenceStability.ReportedExactly | backend/detection/sequence.py:114-118 | a match is reported exactly when it is the first with its evidence |
| SequenceStability.ReportsDiffer | backend/detection/sequence.py:114-118 | no two reports have the same evidence |
| SequenceStability.SharedLabelLosesEvidence | backend/detection/sequence.py:110-113 | two stages with one label over two events: both are matched and the report names only the second |
| SequenceStability.StageEvidenceDisjoint | backend/detection/sequence.py:88-104 | no event is evidence for two stages |
| SequenceStability.FirstIdIsStart | backend/detection/sequence.py:110-113 | the first evidence id is the chain's first event |
| SequenceStability.NothingIsDeduplicated | backend/detection/sequence.py:114-118 | over unique ids and labels the identity check drops nothing |
| SequenceStability.PickOfSlice | backend/detection/sequence.py:73-100 | the scan of a slice picks what the scan of the full history picks, when that lies inside, and otherwise nothing |
| SequenceStability.MatchOfSlice | backend/detection/sequence.py:64-118 | a slice reports the full history's match, evidence and span included, exactly when the chain ends inside it |
| SequenceStability.WindowStability | backend/detection/service.py:75-104 | a bounded, truncated window reports exactly the full-history matches whose first and last events it contains |
| Threshold.FillBuckets | backend/detection/threshold.py:64-74 | the first loop raises exactly when matching raises on an event of the run window; otherwise the dictionary holds every bucket, keyed in order of first insertion |
| Threshold.EvaluateThreshold | backend/detection/threshold.py:47-96 | both loops together: the report function, or the exception |
| Threshold.ThresholdExact | backend/detection/threshold.py:76-95 | a match is reported if and only if some (window, group) bucket reaches `min_count`, by events or by distinct non-null values |
| Threshold.SameBucketExactly | backend/detection/threshold.py:69-74 | two qualifying events share a bucket exactly when they lie in one window from the start on and agree in every grouping field |
| Threshold.FiringsExactly | backend/detection/threshold.py:64-95 | exactly what is reported: for each window and combination of grouping values the matching events there, with multiplicity, their ids ordered by time and id, the bounds of the window, and the number of events or distinct non-null values, when that reaches `min_count` |
| Threshold.FiringsAscend | backend/detection/threshold.py:76-80 | reports come by window and then by the `repr` of the group, one for each |
| Threshold.BucketsPartition | backend/detection/threshold.py:64-74 | an event qualifies exactly when it is in a bucket, that bucket is the only one, holds it as often as the input does, and its window contains it |
| Threshold.ThresholdOrderFree | backend/detection/threshold.py:76-80 | every permutation of the input gives the same report, in the same order |
| Threshold.EvidenceSpan | backend/detection/threshold.py:72-74 | two pieces of evidence of one firing lie less than `window_seconds` apart |
| Threshold.NeighbouringBuckets | backend/detection/threshold.py:72 | times at most one window length apart share a bucket or lie in adjacent ones |
| Threshold.BurstFires | backend/detection/threshold.py:64-96 | at least 2·min_count−1 qualifying events of one group within `window_seconds` always fire |
| Threshold.BurstBoundIsTight | backend/detection/threshold.py:64-96 | for every `min_count` and window length there are 2·min_count−2 qualifying events within one microsecond that fire nothing |
| FieldAccess.SequenceReadingsAgreeExactly | backend/detection/sequence.py:22-33 | a sequence rule reports the same on given rows as on mappings exactly when its shared keys are among the five readable fields or it reports nothing |
| FieldAccess.SequenceRulesAgreeExactly | backend/detection/sequence.py:22-33 | a rule that some mappings satisfy agrees on all events exactly when its shared keys are among the five |
| FieldAccess.ThresholdReadingsAgreeExactly | backend/detection/threshold.py:24-35 | the same for the grouping and counted fields of a threshold rule on given events |
| FieldAccess.ThresholdRulesAgreeExactly | backend/detection/threshold.py:24-35 | and over all events |
| FieldAccess.ProcessCorrelationIsBlind | backend/detection/sequence.py:25-33 | a rule that correlates by process name passes validation, reports a mapping and never a row |
| FieldAccess.ViewsShow | backend/detection/sequence.py:22-33 | which values the evaluators see of an event given as mapping and as row: all twenty fields, or id, time, source address, user and host |
| DetectionService.EvaluateSingle | backend/detection/service.py:96-100 | one firing with its explanation per matching candidate, unless some candidate raises |
| DetectionService.Evaluate | backend/detection/service.py:95-104 | dispatch on the rule type, and exactly when evaluation raises |
| DetectionService.SingleRaisesExactly | backend/detection/service.py:96-100 | a single rule raises exactly when some candidate holds a non-datetime under a time operator of the rule |
| DetectionService.ThresholdRaisesExactly | backend/detection/threshold.py:64-68 | the same for a threshold rule, since its candidates lie in the run window |
| DetectionService.SequenceRaisesExactly | backend/detection/sequence.py:64-106 | a sequence rule raises exactly when some event stops its evaluation, and then some candidate is misused |
| DetectionService.StoredRulesNeverRaise | backend/detection/service.py:74 | no rule that comes out of `parse_logic` raises on any candidates |
| DetectionService.Session.RecordFiring | backend/detection/service.py:108-144 | one firing: look up the fingerprint, fetch evidence, extend `last_seen`, or add and label one alert, unless its evidence cannot be queried or its rows cannot be written |
| DetectionService.Session.RecordFirings | backend/detection/service.py:107-144 | the loop over firings, cut short by a fault or by a statement that raises, and the ids it created |
| DetectionService.Session.AttemptRun | backend/detection/service.py:94-161 | the try block: commit on success; rollback and a finalized failed header when evaluation, a statement or the commit raises; only the header when the handler fails too or the process stops |
| DetectionService.Session.ExecuteRule | backend/detection/service.py:52-161 | the whole execution: skip, refusals, candidates, dry run, header first, then the attempt |
| DetectionHistory.RecordEffect | backend/detection/service.py:108-144 | recording a firing adds its fingerprint exactly when it is new and has evidence, and touches old alerts only in a later `last_seen` |
| DetectionHistory.HistorySound | backend/detection/service.py:84-161 | over every history of real, dry, failing and stopped runs: fingerprints unique, `alerts_created` equal to the alerts carrying the run id, none for a run that did not complete |
| DetectionHistory.RunningExactly | backend/detection/service.py:84-161 | in every history a header stays `running` exactly when its run was stopped or could not be finalized |
| DetectionHistory.ExecutionIsAtomic | backend/detection/service.py:84-161 | a run that does not complete leaves the alerts untouched and a written header failed, or running if it was stopped; a dry run changes nothing |
| DetectionHistory.ReplayCreatesNothing | backend/detection/service.py:108-120 | re-running a completed window creates no alert, whatever ran in between, and completes unless the database fails it |
| DetectionHistory.RunCompletesExactly | backend/detection/service.py:94-161 | after any history a run that passes the checks and meets no fault completes, except exactly when a single rule matches a candidate on a datetime field, a threshold rule reports more evidence than one query takes, or a sequence rule with a NUL in a label reports something |
| DetectionHistory.TimestampRuleAlwaysFails | backend/detection/service.py:108-133 | `exists(timestamp)` passes validation, and each run of it with a candidate fails |
| DetectionHistory.SmallScansFit | backend/detection/service.py:110-114 | a rule that scans at most 65535 events never has too much evidence |
| DetectionHistory.BusyDayFails | backend/detection/service.py:110-114 | a rule that counts all events of a day passes validation, and each run of it that finds more than 65535 fails |
| DetectionHistory.NulLabelAlwaysFails | backend/detection/service.py:135-143 | a sequence rule with a NUL in its label passes validation, and each run of it with a candidate fails |
| DetectionExact.SingleReportsExactly | backend/detection/service.py:96-100 | a single rule reports the candidates that match, each with its explanation, in order |
| DetectionExact.ThresholdReportsExactly | backend/detection/service.py:101-102 | a threshold rule reports exactly the windows and groups of its candidate rows in which enough events count |
| DetectionExact.SequenceReportsExactly | backend/detection/service.py:103-104 | a sequence rule reports exactly the matches over its candidate rows that are first with their evidence |
| DetectionExact.NothingWritten | backend/detection/service.py:67-106 | a run that is disabled, backward, longer than the lookback or without a valid rule changes nothing, and so does a dry run, which tells the candidates scanned, the firings and whether the window held more |
| DetectionExact.RunRowSays | backend/detection/service.py:83-161 | the row of a real run field by field, in each way it can end, and the ids and firings it returns |
| DetectionExact.RealRunCompletesExactly | backend/detection/service.py:94-161 | after any history a real run completes exactly when nothing of the three kinds hinders it and no fault strikes before it is through |
| DetectionExact.AlertsAreFiled | backend/detection/service.py:107-144 | behind each alert of a history stands the completed run that filed it, with its id, rule version and logic, for something its rule reported; the alert shows the earliest and latest time of exactly the stored events that the firing names, and links each under the label of the last stage that lists it |
| DetectionHistory.AlertsAreStorable | backend/detection/service.py:121-143 | in every history no alert's explanation holds a datetime and no label a NUL |
| DetectionHistory.AlertedExactly | backend/detection/service.py:52-161 | over any series of runs a fingerprint has an alert exactly when some completed run reported it with evidence |
| DetectionHistory.EventAlertedExactly | backend/detection/service.py:96-161 | under a single rule an event has its alert exactly when it matches and some completed run of the rule version had it among its candidates |
| DetectionHistory.ChainAlertedExactly | backend/detection/service.py:52-161 | over any series of overlapping runs a chain has its alert exactly when some completed run of the rule version had its first and last event among the candidates |
| AlertHistory.LinksLabelledOnce | backend/detection/service.py:135-143 | the label updates write each link of a chain once, with the label of the one stage that lists it |
| AlertHistory.AlertsAreDescribed | backend/detection/service.py:111-143 | in every history each alert has the earliest and latest time of its evidence, and links exactly that evidence under its firing's labels |
| AlertHistory.AlertsStay | backend/detection/service.py:108-120 | an alert, once filed, stays where and as it is in every later history |
| AlertHistory.ChainAlertLinks | backend/detection/service.py:111-143 | in every history the alert of a chain links exactly the events its stages list, each under the label of its one stage |
| Threshold.SharedBucket | backend/detection/threshold.py:64-96 | two run windows that hold the same bucket, over events that agree in it, report the same for it |
| AlertHistory.BucketAlertIsShared | backend/detection/service.py:101-120 | two runs of a threshold rule that see a whole bucket fire the same for it, and so share its alert |
| AlertHistory.AlertIsSharedExactly | backend/detection/service.py:101-120 | another run of a threshold rule fires the same for a bucket exactly when one of its own buckets of the group counts the same events |
| AlertHistory.ShiftedWindowFilesTwice | backend/detection/service.py:101-133 | three events and two windows five seconds apart: two alerts for one burst |
| LikeEscape.EscapeIsPerCharacter | api/v1/endpoints/alerts.py:88 | the three successive replaces equal one per-character escape |
| LikeEscape.LikeLiteral | api/v1/endpoints/alerts.py:88-94 | an escaped text matches exactly its folded self as a prefix |
| LikeEscape.LikeSkips | api/v1/endpoints/alerts.py:89 | a leading percent sign skips any number of characters |
| LikeEscape.SearchIsLiteral | api/v1/endpoints/alerts.py:87-95 | the pattern matches a text if and only if the query occurs in it literally, up to case folding |
| LikeEscape.SearchPatternIsComplete | api/v1/endpoints/alerts.py:88-89 | the pattern never ends inside an escape |
| IngestionHistory.FixtureIsSorted | backend/ingestion/adapters/fixture.py:28-31 | the adapter's stream is the given records in time and id order |
| IngestionHistory.FixtureByTimeThenId | backend/ingestion/adapters/fixture.py:28-31 | the stream ascends in time and then in record id, and ties keep the given order |
| IngestionHistory.KeysSpelled | backend/ingestion/dto.py:41-45 | the dedup key and the event id in full, with an index, without one and with an empty one |
| IngestionHistory.MatchingIsBlock | backend/ingestion/adapters/fixture.py:54-58 | a window's records are one contiguous block of the stream |
| IngestionHistory.PageIsNextBlock | backend/ingestion/adapters/fixture.py:59-61 | a page is the block after the stored offset, counted from the window's start |
| IngestionHistory.PageSize | backend/ingestion/adapters/fixture.py:60 | a page is full unless it ends its window |
| IngestionHistory.PageIsOrdered | backend/ingestion/dto.py:71-78 | the page order check never refuses a fixture page |
| Ingestion.HasUniqueEventIds | db/models/event.py:34 | decides the unique constraint on `event_id` |
| Ingestion.Orchestrator.Commit | backend/ingestion/orchestrator.py:122-124 | a commit takes all rows or none: none when it fails, an event id repeats, or a value does not fit its column |
| Ingestion.Orchestrator.FetchWithRetries | backend/ingestion/orchestrator.py:173-194 | the calls end with the first attempt that is not transient, or the last allowed one, and succeed exactly when it delivers; only transient errors are retried, with linear backoff |
| Ingestion.DeliversExactly | backend/ingestion/orchestrator.py:173-194 | a fetch succeeds exactly when some allowed attempt delivers and every attempt before it failed transiently |
| Ingestion.Orchestrator.NormalizeRecords | backend/ingestion/orchestrator.py:211-226 | the accepted records in order, and counters that add up to the page |
| Ingestion.Orchestrator.CountDuplicates | backend/ingestion/orchestrator.py:92-98 | the dry run's duplicate count |
| Ingestion.Orchestrator.PersistEvents | backend/ingestion/orchestrator.py:100-111 | rows for keys not yet known, and counters that add up |
| Ingestion.Orchestrator.RecordFailedRun | backend/ingestion/orchestrator.py:256-282 | after a rollback only a failed run row is added, or nothing |
| Ingestion.Orchestrator.Run | backend/ingestion/orchestrator.py:53-171 | the whole run as a function of the committed rows |
| IngestionHistory.RunConservation | backend/ingestion/orchestrator.py:87-116 | fetched is normalized plus failed, and in a real run normalized is persisted plus duplicate |
| IngestionHistory.FinishedRunSays | backend/ingestion/orchestrator.py:60-155 | what a finished run records and leaves: where it started and stopped, its counters and status, and which tables moved |
| IngestionHistory.FailedRunSays | backend/ingestion/orchestrator.py:141-155 | a run fails exactly when no attempt delivers, the commit breaks or its rows break a constraint; it then leaves at most one failed row, with no counts and no end |
| IngestionHistory.PersistsFirstOfKey | backend/ingestion/orchestrator.py:100-111 | stored are, behind the old rows, the rows of the first record of each key that is new |
| IngestionHistory.WarningsAdd | backend/ingestion/orchestrator.py:211-226 | the warnings counted are those of the normalized records |
| IngestionHistory.DryRunFidelity | backend/ingestion/orchestrator.py:92-111 | a dry run reports the duplicate count of the real run from the same rows |
| IngestionHistory.RunKeepsSynced | backend/ingestion/orchestrator.py:87-124 | one run keeps the stored rows in step with the stored offset, and a real one succeeds exactly when the source delivers, the database commits, and the normalizable records up to its page's end each fit and share no event id |
| IngestionHistory.ExactlyOnce | backend/ingestion/orchestrator.py:60-155 | after any interleaving of successful, failed and dry runs from one start, the rows are exactly those of the normalizable records before the stored offset, each once, in order |
| IngestionHistory.OffsetAfter | backend/ingestion/adapters/fixture.py:59-61 | each undisturbed run moves the offset by one page until the window ends or a page cannot commit; nothing else moves it |
| IngestionHistory.DrainsExactly | backend/ingestion/orchestrator.py:60-155 | after ceil(n / limit) undisturbed runs the whole window is stored, each record once, exactly when its normalizable records each fit and share no event id |
| IngestionHistory.NeverTwice | backend/ingestion/orchestrator.py:100-111 | no key is stored twice, even with rewound or invented checkpoints |
| IngestionHistory.UnstorablePageBlocks | backend/ingestion/orchestrator.py:105-124 | once the next page holds a record that does not fit, an event id twice over, or one stored before, no further run of the request stores anything or moves the offset |
| IngestionHistory.LongIdBlocks | backend/ingestion/normalizers.py:65 | one accepted record with an id of 300 characters is never stored, and nothing after it |
| IngestionHistory.TwoIndexesBlock | backend/ingestion/normalizers.py:65 | one record id under two indexes, a page each: the first is stored and the second never |
| IngestionHistory.CarriesExactly | backend/ingestion/adapters/fixture.py:54-61 | exactly when the window start may move under a stored offset without skipping unread records |
| IngestionHistory.SkippedAreStored | backend/ingestion/orchestrator.py:113-115 | a record that a moved window skips is stored exactly when it can be normalized and was read before; under `CarriesExactly`'s condition all normalizable ones are |
| IngestionHistory.MovedWindowLosesRecords | backend/ingestion/adapters/fixture.py:54-61 | two clean runs over adjacent windows after which the second window's record is not stored |
| IngestionHistory.DedupKeyInjective | backend/ingestion/dto.py:41-45 | the key determines provider, source, index and record id when the first three hold no colon and no index is a dash |
| AbuseLimiter.AbuseLimiter.Acquire | backend/security/abuse_limiter.py:42-62 | one acquisition, and that it leaves every other key alone |
| AbuseLimiter.AbuseLimiter.Release | backend/security/abuse_limiter.py:64-69 | one slot is given back, never below zero |
| AbuseLimiter.AbuseLease.Release | backend/security/abuse_limiter.py:22-25 | a lease gives its slot back once |
| AbuseLimiter.HistoryInv | backend/security/abuse_limiter.py:50-69 | over every history whose clock readings lag boundedly behind lock order, the deque is the part of the admissions that can still matter, and admissions are spaced out |
| AbuseLimiter.RateBound | backend/security/abuse_limiter.py:50-60 | no interval of one window length, less the largest lag of a clock reading behind lock order, holds more than `max_requests` admissions |
| AbuseLimiter.AdmittedExactly | backend/security/abuse_limiter.py:52-62 | after any history with readings in lock order a request is granted if and only if fewer than `max_requests` admissions are younger than one window and a slot is free; which refusal it gets is decided by the first |
| AbuseLimiter.ActiveIsUnreleased | backend/security/abuse_limiter.py:58-69 | without `reset`, and whatever the clock reads, the active count is the number of unreleased leases and never exceeds `max_concurrent` |
| AbuseLimiter.RetryIsLeast | backend/security/abuse_limiter.py:56-57 | after any history whatever the retry value is the least whole number of seconds after which the rate check passes |
| AbuseLimiter.BoundsExactly | backend/security/abuse_limiter.py:50-60 | for all limits and lags: intervals of a length hold at most `max_requests` admissions in every history that lags at most so much, exactly when the length is at most the window less the lag |
| AbuseLimiter.LateLockBreaksBound | backend/security/abuse_limiter.py:50-51 | two admissions nine seconds apart under one per ten seconds, when one reading lags a second |
| AbuseLimiter.CountExactly | backend/security/abuse_limiter.py:58-74 | the count is right after every prefix of a history exactly when each `reset` in it happens while no lease is out |
| AbuseLimiter.ResetBreaksCount | backend/security/abuse_limiter.py:71-74 | after a reset a lease can be out while the count says none |
| Idempotency.IdempotencyService.Begin | backend/reliability/idempotency.py:42-85 | lookup, replay, conflict, expiry and reservation, with both clock readings; nothing stays when the database fails the reservation |
| Idempotency.IdempotencyService.Complete | backend/reliability/idempotency.py:87-94 | only successful answers are stored |
| Idempotency.IdempotencyService.Abandon | backend/reliability/idempotency.py:96-99 | the reservation disappears |
| Idempotency.CompletionSays | backend/reliability/idempotency.py:87-99 | an answer below 400 is stored with its status under its own reservation, an error is not, and abandonment removes just that row |
| Idempotency.RunGood | backend/reliability/idempotency.py:42-99 | the invariant of every interleaving of lookups, inserts, completions and abandonments |
| Idempotency.AtMostOnce | backend/reliability/idempotency.py:42-85 | a key is granted again only after abandonment or a full retention period |
| Idempotency.GrantedExactly | backend/reliability/idempotency.py:57-85 | after any interleaving an undisturbed `begin` reserves the key if and only if all its earlier grants were abandoned or have outlived their retention |
| Idempotency.BeginExactly | backend/reliability/idempotency.py:42-85 | after any interleaving, all that an undisturbed `begin` answers: a bad key, a reservation when no grant of the scope is live, and otherwise a different request, the replayed answer, or in progress |
| Idempotency.ReplaysAreFaithful | backend/reliability/idempotency.py:64-67 | every replay is the body answered earlier for the same scope and the same request |
| Idempotency.RunKeepsAnswers | backend/reliability/idempotency.py:87-94 | in every interleaving a row that was answered stays completed |
| Idempotency.AnsweredIsReplayedExactly | backend/reliability/idempotency.py:57-85 | after any interleaving a repeat of an answered, unabandoned and unexpired request is answered with its answer if and only if the operation name has at most 100 characters |
| Idempotency.LongOperationNeverReplays | backend/reliability/idempotency.py:72 | an operation name beyond 100 characters is never replayed, and blocks its own repeat even after expiry |
| RuleHistory.RuleStore.CreateRule | api/v1/endpoints/rules.py:303-319 | a new rule with its snapshot, or a refused name |
| RuleHistory.RuleStore.UpdateRule | api/v1/endpoints/rules.py:384-436 | refusals, a null rule type that the column rejects, fields set, back-filled snapshot, version and new snapshot when logic fields are named |
| RuleHistory.UpdateSays | api/v1/endpoints/rules.py:384-436 | when an update is refused, and why; otherwise the fields named in the request have their new values, all others their old ones |
| RuleHistory.OthersSay | api/v1/endpoints/rules.py:303-319 | a creation under a name in use is refused, any other adds the rule and its snapshot; an execution files alerts under the version and logic of that moment |
| RuleHistory.NamesStayApart | api/v1/endpoints/rules.py:213-225 | no two rules ever have one name |
| RuleHistory.HistoryKeepsInv | api/v1/endpoints/rules.py:402-436 | over every history snapshots are contiguous up to the version, and every alert's version and logic are those of the snapshot |
| RuleHistory.SnapshotsAreImmutable | api/v1/endpoints/rules.py:413-436 | no snapshot is rewritten or lost and no insert meets the unique constraint |
| RuleHistory.VersionMovesWithLogic | api/v1/endpoints/rules.py:402-436 | the version moves by one exactly when a logic field is named, and both contents are kept |
| CaseNumber.PadParses | api/v1/endpoints/cases.py:81-84 | parsing a formatted sequence number returns it |
| CaseNumber.PadOrder | api/v1/endpoints/cases.py:72-77 | up to 9999 text order is number order |
| CaseNumber.TenThousandSortsBelow | api/v1/endpoints/cases.py:75 | 10000 sorts below 9999 |
| CaseNumber.FreshWhileSmall | api/v1/endpoints/cases.py:59-84 | whatever numbers a year holds, the next is unused and one above the highest while that is at most 9999 |
| CaseNumber.NextFollowsGreatest | api/v1/endpoints/cases.py:72-84 | the next number is one more than the greatest stored text, or 0001 when that is not a number or nothing is stored |
| CaseNumber.CasesOfAYear | api/v1/endpoints/cases.py:186-195 | every run of creations: number n for the n-th attempt up to 10000, then every attempt collides |
| CaseNumber.FreshExactly | api/v1/endpoints/cases.py:59-84 | the generated number is unused if and only if at most 9999 cases exist |
| CaseCreation.CaseEndpoint.AddCase | api/v1/endpoints/cases.py:179-223 | the alert check, the generated number, and the insert that a text, the unique index or the database may refuse |
| CaseCreation.CaseEndpoint.CreateCase | api/v1/endpoints/cases.py:145-228 | the endpoint: reservation, replay or conflict first, then the case, then completion, as a function of the committed rows |
| CaseCreation.KeyedForms | api/v1/endpoints/cases.py:165-228 | a keyed request either changes nothing, or leaves a row for its key that is completed with the case's body exactly when the case was answered |
| CaseCreation.KeylessForms | api/v1/endpoints/cases.py:179-228 | a request without a key makes its case, or is told why not, and touches no key |
| CaseCreation.HistoryInv | api/v1/endpoints/cases.py:165-228 | in every history each completed row answers with a case made under its key, and each recent case is backed by its row |
| CaseCreation.OneCasePerKey | api/v1/endpoints/cases.py:165-178 | one key of one actor creates at most one case per retention period, even if the process stops between the two commits |
| CaseCreation.OneCasePerKeyInterleaved | api/v1/endpoints/cases.py:165-228 | however lookups, reservations, case commits and completions of many requests interleave, each grant makes at most one case and grants of one key are a retention period apart |
| CaseCreation.ReplayIsTheCase | api/v1/endpoints/cases.py:177-178 | a replayed answer is the body of the case made earlier under that key for the same payload |
| CaseCreation.KeyIsSettled | api/v1/endpoints/cases.py:165-228 | in every history, for one retention period after a request reserved its key, the key replays the next numbered case to the same payload if the alerts existed, the texts can be stored, fewer than 10000 cases existed and nothing struck the request, and answers with a conflict in every other case |
| CaseCreation.MissingAlertBlocksKey | api/v1/endpoints/cases.py:179-184 | a request naming a missing alert is told so, and repeated once the alert exists it meets a conflict |
| CaseCreation.NulBlocksKey | api/v1/endpoints/cases.py:186-195 | a title with a NUL: the case is refused, and the key answers with a conflict until it expires, whatever happens in between |
| CaseCreation.TryCaseExactly | api/v1/endpoints/cases.py:179-223 | an attempt succeeds exactly when the alerts exist, the texts can be stored, fewer than 10000 cases exist and the database takes the case |
| CaseCreation.AttemptSays | api/v1/endpoints/cases.py:179-204 | what an attempt is told, the first obstacle deciding: the unknown alerts, each once; a text with a NUL; the year's numbers used up; the database; or the new case |
| CaseCreation.ReplayIsOwn | api/v1/endpoints/cases.py:168-178 | in every history a replay repeats the 201 answer that the same actor got for the same key and payload less than a retention period before |
| CaseCreation.OthersDoNotMatter | api/v1/endpoints/cases.py:168-178 | a request of another actor or with another key changes nothing in what a key answers |
| CaseCreation.NumbersHaveNoGaps | api/v1/endpoints/cases.py:186-195 | keys, retries, failures and crashes leave no gap and no repeat in the numbers |
| CaseCreation.UnrepeatedKeeps | api/v1/endpoints/cases.py:179 | the linked alerts are the requested ones, each once, in order of first mention; for the distinct ids that api/schemas/case.py lets through, the requested ones as they stand |
| Identity.IdentityStore.UpdateUser | backend/services/user_admin_service.py:82-149 | permission, final-admin guard, field changes and revocation |
| Identity.UpdateSays | backend/services/user_admin_service.py:82-149 | who may update whom, that the only active Admin can be neither demoted nor deactivated, the new role and activation, and that a real change ends exactly the user's live sessions |
| Identity.IdentityStore.RevokeSessions | backend/services/user_admin_service.py:151-164 | all live sessions of the user are revoked |
| Identity.AdministrationSays | backend/services/user_admin_service.py:51-171 | the same for creating a user under an unused name and for ending a user's sessions |
| Identity.IdentityStore.RevokeUserSessions | backend/services/user_admin_service.py:166-171 | the bulk update revokes the user's live sessions and nothing else |
| Identity.IdentityStore.AuthenticateSession | backend/security/auth.py:165-196 | the checks in order, revocation on expiry, and the last-seen update |
| Identity.LoginSays | backend/security/auth.py:121-162 | exactly an active user with a valid password gets a session, which lasts the configured hours |
| Identity.AuthenticationSays | backend/security/auth.py:165-196 | a token is accepted exactly when its session is unrevoked, its user active and neither limit reached; the use is noted, a session past a limit is revoked, and any other refusal changes nothing |
| Identity.IdentityStore.RevokeSession | backend/security/auth.py:199-204 | idempotent revocation |
| Identity.RevocationSays | backend/security/auth.py:199-204 | a revoked session is never accepted, a second revocation changes nothing, and other sessions are left alone |
| Identity.UpdateKeepsAnAdmin | backend/services/user_admin_service.py:101-123 | an update never removes the last active Admin |
| Identity.HistoryInv | backend/services/user_admin_service.py:82-171 | in every serial history an active Admin exists, and every unrevoked session belongs to an active user and was issued after that user's last role or activation change |
| Identity.SessionLifecycle | backend/security/auth.py:165-204 | successive uses are less than the idle limit apart and before absolute expiry, and a refused session is never accepted again |
| Identity.SessionsWork | backend/security/auth.py:149-204 | from any state: log in, be accepted within both limits, log out, be refused from then on |
| BoundedTransforms.PackEvidence | backend/ai/context.py:96-139 | the longest prefix within both limits, truncated exactly when it is proper, and the bound on the text |
| BoundedTransforms.JoinsLines | backend/ai/context.py:138 | the packed text has one item a line |
| BoundedTransforms.MapHolds | backend/audit/service.py:38-50 | a sanitized mapping holds the surviving entries, each key once, and the mark when entries were cut |
| BoundedTransforms.SanitizeSays | backend/audit/service.py:36-66 | what becomes of each kind of value: texts, lists of more than a hundred, objects, long keys, secret keys, and everything on the seventh level |
| BoundedTransforms.SanitizeBounds | backend/audit/service.py:34-68 | containers nest at most six deep with at most 101 entries each |
| BoundedTransforms.KeptExactly | backend/audit/service.py:34-66 | sanitizing leaves a value as it is exactly when it has nothing to cut or redact down to six levels, numbers, flags, lists and mappings included |
| Redaction.RedactedIsClean | backend/audit/service.py:25-27 | after redaction every key of a secret is followed by the mask and nothing else of its value |
| Redaction.FoldExactly | backend/audit/service.py:25-27 | which characters count as which letter of a secret word |
| Redaction.ClassesSay | backend/audit/service.py:25-27 | what separates a key from its value, and what ends the value: one of 29 spaces, a comma or a semicolon |
| Redaction.KeyIsExactly | backend/audit/service.py:25-27 | the ten words that a key can be |
| Redaction.MatchExactly | backend/audit/service.py:25-27 | a match is such a word, a separator between any spaces, and the longest value |
| Redaction.RedactsFromFirst | backend/audit/service.py:25-27 | redaction keeps the text through the first key, masks its value and goes on behind it; without a match it changes nothing |
| Redaction.CleanIsFixed | backend/audit/service.py:25-27 | redaction changes exactly the text that is not of that form, so it is idempotent |
| Redaction.CutRedacts | backend/audit/service.py:56-60 | redacting a cut text again masks exactly the one value that runs into the cut |
| Redaction.SafeTextIdempotent | backend/audit/service.py:56-60 | redacting and cutting twice is doing it once exactly when the redacted text is short, or no value runs into the cut, or only the beginning of a mask does |
| Redaction.MarkIsSwallowed | backend/audit/service.py:56-60 | a text with a password right before the cut, whose second pass loses the mark |
| BoundedTransforms.SanitizeIdempotent | backend/audit/service.py:34-68 | sanitizing twice is sanitizing once exactly when every shown string settles as above, every stringified object shows no secret, and last-level mappings of over a hundred entries keep their keys apart |
| BoundedTransforms.CrowdedKeysDoNotSettle | backend/audit/service.py:38-50 | a mapping on the sixth level whose 101 keys clip to one: the second pass replaces its mark |
| BoundedTransforms.SwallowedMarkDoesNotSettle | backend/audit/service.py:56-60 | sanitizing that text twice differs from sanitizing it once |
| BoundedTransforms.BoundedDictFits | backend/audit/service.py:69-78 | a stored audit payload fits the byte limit and the container bounds; it is the sanitized one if that fits, else its size |

## Left out

- Sequence.EvaluateStart: evidence labels default to `stage_1` to `stage_8`; the model spells one digit, which the limit of eight stages suffices for.
- DetectionService.Session.ExecuteRule: titles, severities, MITRE fields and the host, user and address copied from the first evidence row are not part of an alert here; the evidence query has no order, so those three are not determined by the code either.
- DetectionHistory.ReplayCreatesNothing: the event store is fixed over a history; events that arrive late can form new chains.
- DetectionHistory.ChainAlertedExactly: for rules with distinct effective labels, without which evidence does not identify a chain.
- Threshold.BurstFires: without a distinct-count field, for which no number of events suffices.
- IngestionHistory.ExactlyOnce: for requests without an explicit checkpoint that share their start, and records whose keys differ; the exact failure of the first condition is `CarriesExactly`, and `NeverTwice` needs neither.
- Identity.HistoryInv: each service call is one serial transaction; two concurrent demotions can each count the other administrator.
- Identity.SessionLifecycle: an over-long token is turned away before any lookup and counts as no session's refusal.
- CaseCreation.HistoryInv: requests are served one after another; interleaved ones are the subject of `OneCasePerKeyInterleaved`, which leaves case numbers out.
- CaseNumber.CasesOfAYear: one calendar year, numbers only from the generator; other creations may put any padded number first, which `FreshWhileSmall` covers.
- RuleHistory.RuleStore.UpdateRule: of the other fields none is modelled; a null in one of their non-null columns, or a text that a column refuses, fails the request in the same way and changes nothing.
- `suppression_window_seconds` of a rule is stored and validated, but no execution reads it, so nothing suppresses repeats except the fingerprint.
- SQL and isolation levels, the advisory lock, ORM flushing and event-loop behaviour: tables are values with atomic commits.
- Boolean and floating-point event values: no event column holds them. Floating-point rule constants are reals.
- The Elastic adapter, upload parsing, the normalizer's field mapping, login throttling, the permission table, paging and dashboard counts, the AI provider and its prompt: foreign clients, or properties that follow from one body.
- Cryptography, token generation, password hashing, the patterns for secret keys and address parsing: libraries or parameters, or taken as injective.
- The user interface, API client, routing, migrations and seed data: plumbing and fixed data.
