/**
 The records of the election-results document that the close-race analysis
 reads. Only the fields the analysis looks at are kept: a `Race` carries its
 state name, its counted and expected vote totals and its candidate list, and
 a `Candidate` its key and its vote count.
 */
module Schema {

  /** The source's `VoteCount`, an unsigned 32-bit integer. */
  type VoteCount = n: nat | n <= 0xFFFF_FFFF

  datatype Candidate = Candidate(candidateKey: string, votes: VoteCount)

  datatype Race = Race(
    stateName: string,
    votes: VoteCount,       // votes counted so far
    totExpVote: VoteCount,  // total votes expected
    candidates: seq<Candidate>)
}
