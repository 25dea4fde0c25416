/**
 Finding a race's candidate by key. The program keeps every candidate with
 the key (`iter().filter(..).collect()`) and takes element 0 of that vector,
 which panics when nothing matched; here the panic is `None`.
 */
module Candidates {
  import opened Schema

  datatype Option<T> = None | Some(value: T)

  const BIDEN_KEY: string := "bidenj"
  const TRUMP_KEY: string := "trumpd"

  predicate HasKey(cands: seq<Candidate>, key: string) {
    exists i :: 0 <= i < |cands| && cands[i].candidateKey == key
  }

  /** Position `i` holds the first candidate, in list order, with `key`. */
  predicate IsFirstWithKey(cands: seq<Candidate>, key: string, i: int) {
    && 0 <= i < |cands|
    && cands[i].candidateKey == key
    && forall j :: 0 <= j < i ==> cands[j].candidateKey != key
  }

  /** The candidates with `key`, in list order: the filtered vector. */
  function WithKey(cands: seq<Candidate>, key: string): (r: seq<Candidate>)
    ensures |r| <= |cands|
    ensures forall k :: 0 <= k < |r| ==> r[k].candidateKey == key
    ensures |r| == 0 <==> !HasKey(cands, key)
  {
    if cands == [] then []
    else (if cands[0].candidateKey == key then [cands[0]] else []) + WithKey(cands[1..], key)
  }

  /**
   The filtered vector keeps exactly the list's own candidates with `key`:
   each one with the key as often as it occurs in the list, and no other.
   */
  lemma {:induction false} WithKeyIsFilter(cands: seq<Candidate>, key: string)
    ensures forall c :: multiset(WithKey(cands, key))[c] == if c.candidateKey == key then multiset(cands)[c] else 0
  {
    if cands != [] {
      WithKeyIsFilter(cands[1..], key);
      assert cands == [cands[0]] + cands[1..];
    }
  }

  /** Element 0 of the filtered vector, or `None` where the program panics. */
  function Lookup(cands: seq<Candidate>, key: string): (r: Option<Candidate>)
    ensures r.None? <==> !HasKey(cands, key)
    ensures r.Some? ==> r.value.candidateKey == key
  {
    var matching := WithKey(cands, key);
    if |matching| == 0 then None else Some(matching[0])
  }

  /**
   The reference lookup, written independently of the filter: walk the list
   and stop at the position of the first candidate with the key.
   */
  function FirstIndex(cands: seq<Candidate>, key: string): (r: Option<nat>)
    ensures r.None? <==> !HasKey(cands, key)
    ensures r.Some? ==> IsFirstWithKey(cands, key, r.value)
  {
    if cands == [] then None
    else if cands[0].candidateKey == key then Some(0)
    else
      var r := FirstIndex(cands[1..], key);
      if r.Some? then
        assert cands[r.value + 1] == cands[1..][r.value];
        Some(r.value + 1)
      else
        assert forall i :: 1 <= i < |cands| ==> cands[i] == cands[1..][i - 1];
        None
  }

  /**
   Taking element 0 of the filtered vector is the first-match lookup: it fails
   exactly when no candidate has the key, and otherwise yields the first
   candidate with that key in list order, ignoring later duplicates.
   */
  lemma {:induction false} LookupIsFirstMatch(cands: seq<Candidate>, key: string)
    ensures Lookup(cands, key).None? <==> FirstIndex(cands, key).None?
    ensures Lookup(cands, key).Some? ==> Lookup(cands, key).value == cands[FirstIndex(cands, key).value]
  {
    if cands != [] && cands[0].candidateKey != key {
      LookupIsFirstMatch(cands[1..], key);
      assert WithKey(cands, key) == WithKey(cands[1..], key);
    }
  }
}
