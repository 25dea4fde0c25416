# election-scraper: the close-race report

election-scraper fetches the 2020 presidential results document, decodes it
into races, and prints every state where the race is still close. A race is
close when the gap between the `trumpd` and `bidenj` candidates is under 30%
of the votes still expected. This project models that analysis in Dafny and
proves what it prints.

For each race, in input order, the program does four things:

- It computes `remaining = tot_exp_vote - votes` and skips the race silently
  when that is negative.
- It looks up the first candidate keyed `bidenj` and the first keyed
  `trumpd`. If either is missing, indexing an empty vector panics and the
  whole run ends.
- It computes `gap = trump.votes - biden.votes`.
- It prints `state_name: margin%` when `|gap / remaining| < 0.3`.

Modules, one per file:

- `Schema` (schema.dfy): the `Race` and `Candidate` fields the analysis
  reads. `VoteCount` is the source's `u32`.
- `Margin` (margin.dfy): the `as i32` casts, `remaining`, `gap`, and the
  threshold. The threshold is stated exactly over the integers as
  `10 * |gap| < 3 * remaining`. Two lemmas connect it to the floating-point
  test. With a positive remainder it is the real-valued test
  `|gap| / remaining < 3/10`. Every ratio other than 3/10 with a remainder up
  to 2^31 - 1 lies at least 1/(10 * (2^31 - 1)), about 4.66e-11, away from
  0.3. The program converts both operands to `f64` exactly and rounds the
  quotient to nearest, and rounding to nearest is monotone. A ratio at least
  that far below 0.3 therefore rounds to a double below the literal `0.3`,
  and one at least that far above rounds to a double above it. A ratio of
  exactly 3/10 rounds to the literal `0.3` itself, and `0.3 < 0.3` is false,
  as `IsClose` is. A zero remainder makes the `f64` quotient an infinity or
  NaN, which fails `< 0.3`; `IsClose` is false there too.
- `Candidates` (candidates.dfy): the lookup `filter(..).collect()[0]`, the
  proof that the filter keeps exactly the matching candidates, and the proof
  that element 0 is the first match in list order.
- `Analyzer` (analyzer.dfy): the loop of `main` as the method
  `ReportCloseRaces`. It appends each printed line to a sequence and returns
  `Aborted` with the lines printed so far where the program panics. The
  method is proved equal to the fold `Analyze`, which applies `Step` race by
  race over the exact integers; `Judge` is one pass of the loop body as a
  function, proved by `JudgeIsStep` to act on a race as `Step` does. `Analyze` is proved
  to be the filter `CloseRaces`, which keeps the qualifying races in input
  order. When a race aborts the run, it is the first aborting race, and the
  printed lines are the filter of the races before it.
- `Scenarios` (scenarios.dfy): concrete one- and three-race runs.

The model requires only the counts the loop casts to `i32` to fit one, and
only in the races the loop reaches (every race up to and including the first
one that aborts the run): each such race's `votes` and `tot_exp_vote`, and,
in one that is not skipped and has both tracked candidates, the votes of the
first `bidenj` and the first `trumpd`. Other candidates' counts, and every
count of the races after an abort, are unconstrained.

A printed margin is the exact pair `(gap, remaining)`, not the
percentage rendered with two decimals.

## Model

| member | source | states |
|---|---|---|
| `Margin.AsI32` | src/main.rs:86 | `u32 as i32` keeps the same 32 bits (equal modulo 2^32), lands in the `i32` range, and keeps the value exactly when the count is at most 2^31 - 1 |
| `Margin.Remaining` | src/main.rs:86-87 | for counts that fit an `i32`, `remaining` is exactly `tot_exp_vote - votes` without overflow, and it is negative exactly when more votes were counted than expected |
| `Margin.Gap` | src/main.rs:101 | for counts that fit an `i32`, `gap` is exactly `trump.votes - biden.votes` without overflow, and it is positive exactly when `trumpd` leads |
| `Margin.IsClose` | src/main.rs:103-104 | the threshold never holds when nothing (or less than nothing) remains to be counted, and it implies the gap is below the remainder |
| `Margin.CloseIffRatioBelowThreshold` | src/main.rs:103-104 | with a positive remainder, `10 * abs(gap) < 3 * remaining` holds exactly when the real ratio `abs(gap) / remaining` is below 0.3 |
| `Margin.RatioAwayFromThreshold` | src/main.rs:103-104 | for a remainder up to 2^31 - 1, a ratio other than 3/10 is at least 1/(10 * (2^31 - 1)) away from 0.3, so `f64` rounding cannot move it across the threshold |
| `Candidates.WithKey` | src/main.rs:90-93 | the filtered vector holds only candidates with the key, is no longer than the list, and is empty exactly when no candidate has the key |
| `Candidates.WithKeyIsFilter` | src/main.rs:90-93 | the filtered vector holds exactly the list's own candidates with the key, each as often as in the list, and nothing else |
| `Candidates.FirstIndex` | src/main.rs:90-99 | the reference lookup: no result exactly when no candidate has the key, otherwise the position of the first candidate with the key |
| `Candidates.Lookup` | src/main.rs:90-99 | element 0 of the filtered vector: absent exactly when no candidate has the key (where the program panics), and otherwise a candidate with that key |
| `Candidates.LookupIsFirstMatch` | src/main.rs:90-99 | element 0 of the filtered vector is missing exactly when the first-match lookup finds nothing, and otherwise is the candidate at the first position with the key, so later duplicates are ignored |
| `Analyzer.LineOf` | src/main.rs:101-105 | a printed line carries the race's own state name, the gap between the first `trumpd` and the first `bidenj` candidate, and the remainder `tot_exp_vote - votes`, which is positive; the gap is within the threshold |
| `Analyzer.Judge` | src/main.rs:86-106 | one pass of the loop body: skipped exactly when `votes > tot_exp_vote`; aborts exactly when a non-skipped race lacks `bidenj` or `trumpd`, naming `bidenj` first because it is looked up first; reports exactly the qualifying races, with their line |
| `Analyzer.Step` | src/main.rs:86-106 | the effect of one race on the run, as `Judge` and the loop act: after an abort nothing changes; the run is aborted afterwards exactly when it was or the race aborts it; output is only ever appended, and a finished run gains one line exactly for a qualifying race |
| `Analyzer.JudgeIsStep` | src/main.rs:86-106 | the loop body as written acts on a race as `Step` says: a missing candidate aborts with the output so far, a reported line is appended, any other verdict leaves the output as it is |
| `Analyzer.Resume` | src/main.rs:85-107 | the loop over the remaining races: once aborted the run stays as it is and no later race is processed; output printed before is never changed, only extended |
| `Analyzer.Analyze` | src/main.rs:85-107 | a run finishes exactly when no non-skipped race lacks a candidate, and then has printed exactly the report; otherwise it aborts at the first such race, having printed the report of the races before it |
| `Analyzer.CloseRacesAppend` | src/main.rs:85-107 | the report over a concatenation is the report of each part in order, so output order follows input order |
| `Analyzer.CloseRacesSound` | src/main.rs:103-105 | every printed line is the line of a qualifying race, with that race's state name and margin |
| `Analyzer.CloseRacesComplete` | src/main.rs:103-105 | no qualifying race is missing from the report |
| `Analyzer.ResumeAppend` | src/main.rs:85 | running over `a + b` equals running over `a` and then resuming over `b` |
| `Analyzer.ResumeWithoutAbort` | src/main.rs:85-107 | over races none of which aborts, the loop finishes having appended exactly the report |
| `Analyzer.ResumeAbortsAtFirst` | src/main.rs:85-107 | the loop aborts at the first aborting race, having printed the report of the races before it |
| `Analyzer.PrefixReport` | src/main.rs:85-107 | the report of a nonempty prefix is the first race's lines followed by the report of the rest of the prefix, also after any output already printed |
| `Analyzer.SkippedRaceIsInvisible` | src/main.rs:86-89 | a race with more votes counted than expected, wherever it stands and even without candidates, changes neither the output nor whether the run aborts |
| `Analyzer.ReportCloseRaces` | src/main.rs:85-107 | the loop returns the run `Analyze` describes: it finishes exactly when no race aborts and has then printed exactly the report; an aborted run stopped at the first aborting race and printed the report of the races before it |
| `Scenarios.WideMarginNotPrinted` | src/main.rs:85-107 | 900 of 1000 counted with `trumpd` 520 and `bidenj` 480 (40/100) prints nothing |
| `Scenarios.NarrowMarginPrinted` | src/main.rs:85-107 | the same race with 505 to 495 prints the margin 10/100 |
| `Scenarios.OvercountedRaceSkipped` | src/main.rs:86-89 | 1000 counted of 900 expected is skipped without output or abort, even with no candidates |
| `Scenarios.MissingCandidateAborts` | src/main.rs:90-99 | a race without `bidenj` aborts after the first race's line and before the third race |
| `Scenarios.ExhaustedRaceNotPrinted` | src/main.rs:103-104 | a race with nothing left to count is not printed, even with a zero gap |
| `Scenarios.DuplicateKeyFirstWins` | src/main.rs:90-94 | a later duplicate `bidenj` with 0 votes is ignored |
| `Scenarios.UncastCountsUnconstrained` | src/main.rs:86-101 | a count above 2^31 - 1 in a skipped race, or on a candidate that is not the first with its key, still meets the loop's precondition, and the run prints the other race's 10/100 |
| `Scenarios.RacesAfterAbortUnconstrained` | src/main.rs:90-99 | a race after the aborting one is never reached: counts above 2^31 - 1 there still meet the loop's precondition, and the run aborts with nothing printed |
| `Scenarios.ThresholdIsStrict` | src/main.rs:103-104 | a margin of exactly 30/100 is not printed, 29/100 would be |

## Left out

- The HTTP fetch and the `Request failed.` path (src/main.rs:63-70) are not modelled. They are network I/O.
- Reading the body as text and decoding it as JSON with a path-carrying error (src/main.rs:73-83) are not modelled. They are foreign library code. The model starts from decoded races.
- The `County` and `Timeseries` records are not modelled (src/main.rs:43-59). The same holds for the `Race` fields `state_id`, `state_slug`, `electoral_votes`, `eevp`, `last_updated`, `counties`, `expectations_text` and `timeseries`, and for the `Candidate` name fields. The analysis never reads them.
- Printing is modelled by appending a `CloseRace(state_name, gap, remaining)` to the printed sequence. The rendering of `margin * 100.0` with two decimals (src/main.rs:105) is floating-point formatting and is not modelled.
- The `f64` division and comparison are not modelled bit for bit. The model uses the exact integer test, and `Margin.RatioAwayFromThreshold` bounds how close an exact ratio can come to 0.3. IEEE-754 rounding itself is not formalised; the argument that it cannot change the outcome rests on round-to-nearest being monotone, as described above.
- The panic on a missing candidate is modelled as the run returning `Aborted` with what it printed before. The panic message and the process exit status are not modelled.
- Remaining: requires both counts to be at most 2^31 - 1, so it does not model a wrapped cast or an overflowing `i32` subtraction for larger counts (`AsI32` alone models the wrapping cast).
- Gap: requires both candidates' votes to be at most 2^31 - 1, for the same reason as `Remaining`.
- Judge: requires `RaceFits`, which bounds exactly the counts the loop body casts (the race's two totals, and the first `bidenj` and `trumpd` votes of a race that is not skipped and has both), for the same reason as `Remaining`.
- ReportCloseRaces: requires every race the loop reaches, up to and including the first aborting one, to satisfy `RaceFits` (`ReachedFit`), for the same reason as `Remaining`. These two are the only members that carry the bound: `Step`, `Resume`, `Analyze`, `SkippedRaceIsInvisible` and the other lemmas about the run are stated on the exact integers and hold for every list of races.
