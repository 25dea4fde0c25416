/**
 The close-race report: for each race in input order, skip it when more
 votes were counted than expected, look up the two tracked candidates (a
 missing one ends the whole run), and print the race's state name and margin
 `gap / remaining` when the margin is under 30%.
 */
module Analyzer {
  import opened Schema
  import opened Margin
  import opened Candidates

  /** One printed line: the state and its margin as the exact pair `gap / remaining`. */
  datatype CloseRace = CloseRace(stateName: string, gap: int, remaining: int)

  /**
   How a run ends: it goes through every race, or it aborts on a race lacking
   a tracked candidate. Either way `printed` is what reached the output.
   */
  datatype Run = Finished(printed: seq<CloseRace>) | Aborted(printed: seq<CloseRace>)

  /** What one pass of the loop body does with a race. */
  datatype Verdict = Skipped | MissingCandidate(key: string) | NotClose | Reported(line: CloseRace)

  /**
   Every count the loop casts to `i32` fits one, so no cast wraps: the
   race's two totals always, and the votes of the first `bidenj` and first
   `trumpd` candidates when the race is not skipped and has both. Other
   candidates' counts are never cast and are unconstrained.
   */
  predicate RaceFits(race: Race) {
    && FitsI32(race.votes)
    && FitsI32(race.totExpVote)
    && (race.votes <= race.totExpVote
        && FirstIndex(race.candidates, BIDEN_KEY).Some?
        && FirstIndex(race.candidates, TRUMP_KEY).Some?
        ==> FitsI32(BidenVotes(race)) && FitsI32(TrumpVotes(race)))
  }

  /**
   Every race the loop reaches fits: each race up to and including the
   first aborting one. The program stops at that race, so the counts of the
   races after it are never cast and are unconstrained.
   */
  predicate ReachedFit(races: seq<Race>) {
    forall i :: 0 <= i < |races| && (forall j :: 0 <= j < i ==> !Aborts(races[j])) ==> RaceFits(races[i])
  }

  // The reference description of a race's fate, on list positions and plain
  // integers, independent of the filter-based lookup and the i32 casts.

  /** The race is not skipped but lacks one of the two tracked candidates. */
  predicate Aborts(race: Race) {
    race.votes <= race.totExpVote &&
    (FirstIndex(race.candidates, BIDEN_KEY).None? || FirstIndex(race.candidates, TRUMP_KEY).None?)
  }

  /** The race is not skipped, has both candidates, and its first-match margin is under 30%. */
  predicate Qualifies(race: Race) {
    && race.votes <= race.totExpVote
    && FirstIndex(race.candidates, BIDEN_KEY).Some?
    && FirstIndex(race.candidates, TRUMP_KEY).Some?
    && IsClose(TrumpVotes(race) - BidenVotes(race), race.totExpVote - race.votes)
  }

  /** The votes of the first `bidenj` candidate. */
  function BidenVotes(race: Race): VoteCount
    requires FirstIndex(race.candidates, BIDEN_KEY).Some?
  {
    race.candidates[FirstIndex(race.candidates, BIDEN_KEY).value].votes
  }

  /** The votes of the first `trumpd` candidate. */
  function TrumpVotes(race: Race): VoteCount
    requires FirstIndex(race.candidates, TRUMP_KEY).Some?
  {
    race.candidates[FirstIndex(race.candidates, TRUMP_KEY).value].votes
  }

  /** The line a qualifying race prints. */
  function LineOf(race: Race): (line: CloseRace)
    requires Qualifies(race)
    ensures line.stateName == race.stateName
    ensures line.gap == TrumpVotes(race) - BidenVotes(race)
    ensures line.remaining == race.totExpVote - race.votes > 0
    ensures 10 * Abs(line.gap) < 3 * line.remaining
  {
    CloseRace(race.stateName, TrumpVotes(race) - BidenVotes(race), race.totExpVote - race.votes)
  }

  /**
   One iteration of the loop in `main`. A skipped race is never searched, so
   a missing candidate there costs nothing; otherwise the verdict agrees with
   the reference description above.
   */
  function Judge(race: Race): (v: Verdict)
    requires RaceFits(race)
    ensures v.Skipped? <==> race.votes > race.totExpVote
    ensures v.MissingCandidate? <==> Aborts(race)
    ensures v.MissingCandidate? ==> v.key == if HasKey(race.candidates, BIDEN_KEY) then TRUMP_KEY else BIDEN_KEY
    ensures v.Reported? <==> Qualifies(race)
    ensures v.Reported? ==> v.line == LineOf(race)
  {
    var remaining := Remaining(race);
    if remaining < 0 then Skipped
    else
      var biden := Lookup(race.candidates, BIDEN_KEY);
      var trump := Lookup(race.candidates, TRUMP_KEY);
      LookupIsFirstMatch(race.candidates, BIDEN_KEY);
      LookupIsFirstMatch(race.candidates, TRUMP_KEY);
      if biden.None? then MissingCandidate(BIDEN_KEY)
      else if trump.None? then MissingCandidate(TRUMP_KEY)
      else
        var gap := Gap(trump.value, biden.value);
        if IsClose(gap, remaining) then Reported(CloseRace(race.stateName, gap, remaining))
        else NotClose
  }

  /**
   The effect of one race on the run so far, on the reference description:
   nothing happens once the run has aborted; otherwise an aborting race
   aborts with the output so far, and any other race appends its lines of
   the report. `Judge` and the loop of `ReportCloseRaces` are proved to
   act on a race exactly this way.
   */
  function Step(run: Run, race: Race): (r: Run)
    ensures |run.printed| <= |r.printed| && r.printed[..|run.printed|] == run.printed
    ensures run.Aborted? ==> r == run
    ensures r.Aborted? <==> run.Aborted? || Aborts(race)
    ensures r.Finished? ==> |r.printed| == |run.printed| + (if Qualifies(race) then 1 else 0)
  {
    match run
    case Aborted(_) => run
    case Finished(p) => if Aborts(race) then Aborted(p) else Finished(p + LinesOf(race))
  }

  /**
   The loop body as the program writes it acts on a race exactly as `Step`
   says: a missing candidate aborts with the output so far, a reported line
   is appended, and a skipped or wide-margin race leaves the output as it is.
   */
  lemma JudgeIsStep(p: seq<CloseRace>, race: Race)
    requires RaceFits(race)
    ensures Step(Finished(p), race) ==
              match Judge(race)
              case MissingCandidate(_) => Aborted(p)
              case Reported(line) => Finished(p + [line])
              case _ => Finished(p)
  {
  }

  /**
   The loop from a given state over the races still to come, in input order.
   Output is only ever appended, and once the run has aborted no later race is
   processed.
   */
  function Resume(run: Run, races: seq<Race>): (r: Run)
    ensures run.Aborted? ==> r == run
    ensures |run.printed| <= |r.printed| && r.printed[..|run.printed|] == run.printed
    decreases |races|
  {
    if races == [] then run
    else
      var next := Step(run, races[0]);
      var r := Resume(next, races[1..]);
      assert r.printed[..|run.printed|] == r.printed[..|next.printed|][..|run.printed|];
      r
  }

  /**
   A whole run: the loop started with nothing printed. It aborts exactly when
   some non-skipped race lacks a tracked candidate, and then at the first such
   race, after printing the report of the races before it; otherwise it
   finishes having printed exactly the report.
   */
  function Analyze(races: seq<Race>): (run: Run)
    ensures run.Finished? <==> forall i :: 0 <= i < |races| ==> !Aborts(races[i])
    ensures run.Finished? ==> run.printed == CloseRaces(races)
    ensures run.Aborted? ==> run.printed == CloseRaces(races[..FirstAbortIndex(races)])
  {
    if forall i :: 0 <= i < |races| ==> !Aborts(races[i]) then
      ResumeWithoutAbort([], races);
      Resume(Finished([]), races)
    else
      ResumeAbortsAtFirst([], races, FirstAbortIndex(races));
      Resume(Finished([]), races)
  }

  /** The specification of the report: the lines of the qualifying races, in input order. */
  function CloseRaces(races: seq<Race>): seq<CloseRace> {
    ConcatMap(races, LinesOf)
  }

  /** The lines one race contributes to the report: its own line if it qualifies, else none. */
  function LinesOf(race: Race): seq<CloseRace> {
    if Qualifies(race) then [LineOf(race)] else []
  }

  /** The pieces `f` gives the elements of `s`, joined in the order of `s`. */
  function ConcatMap<T, U>(s: seq<T>, f: T -> seq<U>): seq<U> {
    if s == [] then [] else f(s[0]) + ConcatMap(s[1..], f)
  }

  lemma {:induction false} ConcatMapAppend<T, U>(a: seq<T>, b: seq<T>, f: T -> seq<U>)
    ensures ConcatMap(a + b, f) == ConcatMap(a, f) + ConcatMap(b, f)
  {
    if a == [] {
      assert a + b == b;
    } else {
      ConcatMapAppend(a[1..], b, f);
      assert (a + b)[0] == a[0];
      assert (a + b)[1..] == a[1..] + b;
    }
  }

  /** The position of the first race that aborts the run. */
  predicate IsFirstAbort(races: seq<Race>, k: int) {
    && 0 <= k < |races|
    && Aborts(races[k])
    && forall i :: 0 <= i < k ==> !Aborts(races[i])
  }

  /** The report is a filter: lines of a concatenation are the lines of each part, in order. */
  lemma CloseRacesAppend(a: seq<Race>, b: seq<Race>)
    ensures CloseRaces(a + b) == CloseRaces(a) + CloseRaces(b)
  {
    ConcatMapAppend(a, b, LinesOf);
  }

  /** Every printed line is the line of some qualifying race. */
  lemma {:induction false} CloseRacesSound(races: seq<Race>, k: int)
    requires 0 <= k < |CloseRaces(races)|
    ensures exists i :: 0 <= i < |races| && Qualifies(races[i]) && CloseRaces(races)[k] == LineOf(races[i])
  {
    assert CloseRaces(races) == LinesOf(races[0]) + CloseRaces(races[1..]);
    if Qualifies(races[0]) && k == 0 {
      assert CloseRaces(races)[0] == LineOf(races[0]);
    } else {
      var k' := if Qualifies(races[0]) then k - 1 else k;
      assert CloseRaces(races)[k] == CloseRaces(races[1..])[k'];
      CloseRacesSound(races[1..], k');
      var i :| 0 <= i < |races[1..]| && Qualifies(races[1..][i]) && CloseRaces(races[1..])[k'] == LineOf(races[1..][i]);
      assert races[i + 1] == races[1..][i];
    }
  }

  /** No qualifying race is left out of the report. */
  lemma {:induction false} CloseRacesComplete(races: seq<Race>, i: int)
    requires 0 <= i < |races| && Qualifies(races[i])
    ensures LineOf(races[i]) in CloseRaces(races)
  {
    assert CloseRaces(races) == LinesOf(races[0]) + CloseRaces(races[1..]);
    if i > 0 {
      CloseRacesComplete(races[1..], i - 1);
      assert races[1..][i - 1] == races[i];
    } else {
      assert CloseRaces(races)[0] == LineOf(races[0]);
    }
  }

  /** Running over `a + b` is running over `a`, then over `b` from where `a` left off. */
  lemma {:induction false} ResumeAppend(run: Run, a: seq<Race>, b: seq<Race>)
    ensures Resume(run, a + b) == Resume(Resume(run, a), b)
    decreases |a|
  {
    if a == [] {
      assert a + b == b;
    } else {
      ResumeAppend(Step(run, a[0]), a[1..], b);
      assert (a + b)[1..] == a[1..] + b;
    }
  }

  /** A race the loop reaches, every earlier race having passed, fits. */
  lemma ReachedRaceFits(races: seq<Race>, i: int)
    requires ReachedFit(races) && 0 <= i < |races|
    requires forall j :: 0 <= j < i ==> !Aborts(races[j])
    ensures RaceFits(races[i])
  {
  }

  /** A run over races none of which aborts finishes, having printed exactly the report. */
  lemma {:induction false} ResumeWithoutAbort(p: seq<CloseRace>, races: seq<Race>)
    requires forall i :: 0 <= i < |races| ==> !Aborts(races[i])
    ensures Resume(Finished(p), races) == Finished(p + CloseRaces(races))
    decreases |races|
  {
    if races == [] {
      assert p + [] == p;
    } else {
      ResumePastFirst(p, races);
      NoAbortInTail(races);
      ResumeWithoutAbort(p + LinesOf(races[0]), races[1..]);
      CloseRacesFirst(p, races);
    }
  }

  /** A run aborts at the first aborting race, having printed the report of the races before it. */
  lemma {:induction false} ResumeAbortsAtFirst(p: seq<CloseRace>, races: seq<Race>, k: int)
    requires IsFirstAbort(races, k)
    ensures Resume(Finished(p), races) == Aborted(p + CloseRaces(races[..k]))
    decreases k
  {
    if k == 0 {
      ResumeAbortsHere(p, races);
    } else {
      ResumePastFirst(p, races);
      FirstAbortInTail(races, k);
      ResumeAbortsAtFirst(p + LinesOf(races[0]), races[1..], k - 1);
      PrefixReport(p, races, k);
    }
  }


  /** Past a first race that does not abort, the run goes on with that race's lines appended. */
  lemma ResumePastFirst(p: seq<CloseRace>, races: seq<Race>)
    requires races != [] && !Aborts(races[0])
    ensures Resume(Finished(p), races) == Resume(Finished(p + LinesOf(races[0])), races[1..])
  {
  }

  /** No race of the rest aborts when none of the whole list does. */
  lemma NoAbortInTail(races: seq<Race>)
    requires races != [] && forall i :: 0 <= i < |races| ==> !Aborts(races[i])
    ensures forall i :: 0 <= i < |races[1..]| ==> !Aborts(races[1..][i])
  {
    forall i | 0 <= i < |races[1..]| ensures !Aborts(races[1..][i]) {
      assert races[1..][i] == races[i + 1];
    }
  }

  /** Past a race that does not abort, the first aborting race is one place earlier in the rest. */
  lemma FirstAbortInTail(races: seq<Race>, k: int)
    requires 0 < k && IsFirstAbort(races, k)
    ensures IsFirstAbort(races[1..], k - 1)
  {
    forall i | 0 <= i < k - 1 ensures !Aborts(races[1..][i]) {
      assert races[1..][i] == races[i + 1];
    }
  }

  /** A first race that aborts ends the run with nothing added. */
  lemma ResumeAbortsHere(p: seq<CloseRace>, races: seq<Race>)
    requires races != [] && Aborts(races[0])
    ensures Resume(Finished(p), races) == Aborted(p)
    ensures p + CloseRaces(races[..0]) == p
  {
    assert races[..0] == [];
  }

  /** The report of a nonempty list: the first race's lines, then the report of the rest. */
  lemma CloseRacesFirst(p: seq<CloseRace>, races: seq<Race>)
    requires races != []
    ensures CloseRaces(races) == LinesOf(races[0]) + CloseRaces(races[1..])
    ensures p + LinesOf(races[0]) + CloseRaces(races[1..]) == p + CloseRaces(races)
  {
  }


  /** The report of a nonempty prefix: the first race's lines, then the report of the rest of the prefix. */
  lemma PrefixReport(p: seq<CloseRace>, races: seq<Race>, k: int)
    requires 0 < k <= |races|
    ensures CloseRaces(races[..k]) == LinesOf(races[0]) + CloseRaces(races[1..][..k - 1])
    ensures p + LinesOf(races[0]) + CloseRaces(races[1..][..k - 1]) == p + CloseRaces(races[..k])
  {
    var front := races[..k];
    assert front[0] == races[0] && front[1..] == races[1..][..k - 1];
  }


  /** The position of the first aborting race, when there is one. */
  function FirstAbortIndex(races: seq<Race>): (k: int)
    requires exists i :: 0 <= i < |races| && Aborts(races[i])
    ensures IsFirstAbort(races, k)
  {
    if Aborts(races[0]) then 0
    else
      assert exists i :: 0 <= i < |races[1..]| && Aborts(races[1..][i]) by {
        var i :| 0 <= i < |races| && Aborts(races[i]);
        assert races[1..][i - 1] == races[i];
      }
      FirstAbortIndex(races[1..]) + 1
  }

  /**
   A race with more votes counted than expected changes nothing, wherever it
   stands: no line, no abort, even when its candidate list is incomplete.
   */
  lemma SkippedRaceIsInvisible(a: seq<Race>, race: Race, b: seq<Race>)
    requires race.votes > race.totExpVote
    ensures Analyze(a + [race] + b) == Analyze(a + b)
  {
    var start := Finished([]);
    ResumeAppend(start, a, [race]);
    ResumeAppend(start, a + [race], b);
    ResumeAppend(start, a, b);
    assert [race][1..] == [];
    assert Step(Resume(start, a), race) == Resume(start, a);
  }

  /**
   The loop of `main` over the decoded races: print the line of each close
   race as it comes; stop at the first non-skipped race missing a candidate.
   */
  method ReportCloseRaces(races: seq<Race>) returns (run: Run)
    requires ReachedFit(races)
    ensures run == Analyze(races)
    ensures run.Finished? <==> forall i :: 0 <= i < |races| ==> !Aborts(races[i])
    ensures run.Finished? ==> run.printed == CloseRaces(races)
    ensures run.Aborted? ==> run.printed == CloseRaces(races[..FirstAbortIndex(races)])
    ensures run.Aborted? ==> IsFirstAbort(races, FirstAbortIndex(races))
  {
    var printed: seq<CloseRace> := [];
    for i := 0 to |races|
      invariant Resume(Finished(printed), races[i..]) == Analyze(races)
      invariant forall j :: 0 <= j < i ==> !Aborts(races[j])
    {
      ghost var rest := races[i + 1..];
      assert races[i..][1..] == rest;
      var state := races[i];
      ReachedRaceFits(races, i);
      var remaining := Remaining(state);
      if remaining < 0 {
        assert !Aborts(state);
        assert Step(Finished(printed), state) == Finished(printed + []);
        assert printed + [] == printed;
        continue;
      }
      var biden := Lookup(state.candidates, BIDEN_KEY);
      LookupIsFirstMatch(state.candidates, BIDEN_KEY);
      if biden.None? {
        assert Resume(Finished(printed), races[i..]) == Resume(Aborted(printed), rest);
        return Aborted(printed);
      }
      var trump := Lookup(state.candidates, TRUMP_KEY);
      LookupIsFirstMatch(state.candidates, TRUMP_KEY);
      if trump.None? {
        assert Resume(Finished(printed), races[i..]) == Resume(Aborted(printed), rest);
        return Aborted(printed);
      }
      var gap := Gap(trump.value, biden.value);
      assert !Aborts(state);
      assert gap == TrumpVotes(state) - BidenVotes(state);
      assert remaining == state.totExpVote - state.votes;
      if IsClose(gap, remaining) {
        assert Qualifies(state);
        assert LineOf(state) == CloseRace(state.stateName, gap, remaining);
        assert LinesOf(state) == [CloseRace(state.stateName, gap, remaining)];
        printed := printed + [CloseRace(state.stateName, gap, remaining)];
      } else {
        assert !Qualifies(state);
        assert LinesOf(state) == [];
        assert printed + [] == printed;
      }
    }
    run := Finished(printed);
  }
}
