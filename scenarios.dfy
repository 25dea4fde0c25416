/**
 Concrete runs: one race each, counted 900 of 1000 expected votes unless
 stated otherwise.
 */
module Scenarios {
  import opened Schema
  import opened Margin
  import opened Analyzer

  function TestRace(votes: VoteCount, totExpVote: VoteCount, candidates: seq<Candidate>): Race {
    Race("Test", votes, totExpVote, candidates)
  }

  /** A 40-vote gap with 100 votes left is a 40% margin: not printed. */
  lemma WideMarginNotPrinted()
    ensures Analyze([TestRace(900, 1000, [Candidate("trumpd", 520), Candidate("bidenj", 480)])]) == Finished([])
  {
  }

  /** A 10-vote gap with 100 votes left is a 10% margin: printed as 10/100. */
  lemma NarrowMarginPrinted()
    ensures Analyze([TestRace(900, 1000, [Candidate("trumpd", 505), Candidate("bidenj", 495)])])
            == Finished([CloseRace("Test", 10, 100)])
  {
  }

  /** More votes counted than expected: skipped without output or error, even with no candidates. */
  lemma OvercountedRaceSkipped()
    ensures Analyze([TestRace(1000, 900, [])]) == Finished([])
  {
  }

  /** A counted race without a `bidenj` candidate aborts the run; earlier output stays, later races are ignored. */
  lemma MissingCandidateAborts()
    ensures Analyze([TestRace(900, 1000, [Candidate("trumpd", 505), Candidate("bidenj", 495)]),
                     TestRace(900, 1000, [Candidate("trumpd", 505)]),
                     TestRace(900, 1000, [Candidate("trumpd", 500), Candidate("bidenj", 500)])])
            == Aborted([CloseRace("Test", 10, 100)])
  {
    var races := [TestRace(900, 1000, [Candidate("trumpd", 505), Candidate("bidenj", 495)]),
                  TestRace(900, 1000, [Candidate("trumpd", 505)]),
                  TestRace(900, 1000, [Candidate("trumpd", 500), Candidate("bidenj", 500)])];
    assert IsFirstAbort(races, 1);
    assert races[..1] == [races[0]];
    assert Qualifies(races[0]) && LineOf(races[0]) == CloseRace("Test", 10, 100);
    CloseRacesFirst([], [races[0]]);
    assert [races[0]][1..] == [];
  }

  /** Nothing left to count: never printed, whatever the gap. */
  lemma ExhaustedRaceNotPrinted()
    ensures Analyze([TestRace(1000, 1000, [Candidate("bidenj", 500), Candidate("trumpd", 500)])]) == Finished([])
  {
  }

  /** Only the first candidate with a key counts; a later duplicate is ignored. */
  lemma DuplicateKeyFirstWins()
    ensures Analyze([TestRace(900, 1000, [Candidate("bidenj", 495), Candidate("trumpd", 505), Candidate("bidenj", 0)])])
            == Finished([CloseRace("Test", 10, 100)])
  {
  }

  /**
   A vote count too large for an `i32` is harmless where the program never
   casts it: here in a skipped race, and in a counted race on a candidate
   that is neither the first `bidenj` nor the first `trumpd`. Such a list
   meets the loop's precondition, and the run prints the counted race.
   */
  lemma UncastCountsUnconstrained()
    ensures ReachedFit([TestRace(1000, 900, [Candidate("bidenj", 0x8000_0000)]),
                    TestRace(900, 1000, [Candidate("trumpd", 505), Candidate("bidenj", 495),
                                         Candidate("trumpd", 0xFFFF_FFFF)])])
    ensures Analyze([TestRace(1000, 900, [Candidate("bidenj", 0x8000_0000)]),
                     TestRace(900, 1000, [Candidate("trumpd", 505), Candidate("bidenj", 495),
                                          Candidate("trumpd", 0xFFFF_FFFF)])])
            == Finished([CloseRace("Test", 10, 100)])
  {
    var races := [TestRace(1000, 900, [Candidate("bidenj", 0x8000_0000)]),
                  TestRace(900, 1000, [Candidate("trumpd", 505), Candidate("bidenj", 495),
                                       Candidate("trumpd", 0xFFFF_FFFF)])];
    assert RaceFits(races[0]) && RaceFits(races[1]);
    assert !Aborts(races[0]) && !Aborts(races[1]);
    assert !Qualifies(races[0]);
    assert Qualifies(races[1]) && LineOf(races[1]) == CloseRace("Test", 10, 100);
    ResumeWithoutAbort([], races);
    CloseRacesFirst([], races);
    CloseRacesFirst([], races[1..]);
    assert races[1..][1..] == [];
  }

  /**
   The run stops at the first aborting race, so a race after it is never
   reached: its counts may be too large for an `i32` and the list still
   meets the loop's precondition.
   */
  lemma RacesAfterAbortUnconstrained()
    ensures ReachedFit([TestRace(900, 1000, [Candidate("trumpd", 505)]),
                        TestRace(0x8000_0000, 0x8000_0000, [])])
    ensures Analyze([TestRace(900, 1000, [Candidate("trumpd", 505)]),
                     TestRace(0x8000_0000, 0x8000_0000, [])]) == Aborted([])
  {
    var races := [TestRace(900, 1000, [Candidate("trumpd", 505)]), TestRace(0x8000_0000, 0x8000_0000, [])];
    assert Aborts(races[0]) && RaceFits(races[0]);
    ResumeAbortsHere([], races);
  }

  /** A margin of exactly 30% is not close; one just under it is. */
  lemma ThresholdIsStrict()
    ensures !IsClose(30, 100) && IsClose(29, 100)
    ensures Analyze([TestRace(900, 1000, [Candidate("trumpd", 515), Candidate("bidenj", 485)])]) == Finished([])
  {
  }
}
