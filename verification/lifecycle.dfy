/**
 Sequences of transactions against the registry. A reverted call leaves the
 state exactly as it was, so a run of calls is a left fold in which failed
 calls are skipped. The lemmas here state what holds after ANY run: the
 invariant, the id counter, final ballots and the immutable parts of a voting.
 */
module Lifecycle {
  import opened Registry

  /** One state-changing transaction, with its sender. */
  datatype Call =
    | Create(caller: Address, question: string, candidates: seq<string>)
    | Cast(caller: Address, id: nat, index: nat)
    | Close(caller: Address, id: nat, winner: string)

  /** The state after one transaction; a revert changes nothing. */
  function Step(r: Registry, c: Call): (next: Registry)
  {
    match c
    case Create(caller, question, candidates) => CreateVoting(r, caller, question, candidates).registry
    case Cast(caller, id, index) =>
      var res := Vote(r, caller, id, index);
      if res.Ok? then res.value else r
    case Close(caller, id, winner) =>
      var res := CloseVoting(r, caller, id, winner);
      if res.Ok? then res.value else r
  }

  /** The state after the calls, in order. */
  function Run(r: Registry, calls: seq<Call>): (final: Registry)
    decreases |calls|
  {
    if calls == [] then r else Run(Step(r, calls[0]), calls[1..])
  }

  /** How many of the calls create a voting. */
  function CreatesIn(calls: seq<Call>): (n: nat)
  {
    if calls == [] then 0
    else (if calls[0].Create? then 1 else 0) + CreatesIn(calls[1..])
  }

  /** Every reachable registry is well formed. */
  lemma {:induction false} RunKeepsValid(r: Registry, calls: seq<Call>)
    requires Valid(r)
    ensures Valid(Run(r, calls))
    decreases |calls|
  {
    if calls != [] {
      assert Valid(Step(r, calls[0]));
      RunKeepsValid(Step(r, calls[0]), calls[1..]);
    }
  }

  /** The count grows by exactly one per creation, so ids are never reused. */
  lemma {:induction false} RunCountsCreations(r: Registry, calls: seq<Call>)
    ensures GetVotingsCount(Run(r, calls)) == GetVotingsCount(r) + CreatesIn(calls)
    decreases |calls|
  {
    if calls != [] {
      RunCountsCreations(Step(r, calls[0]), calls[1..]);
    }
  }

  /** A recorded ballot is never revoked or changed by later calls. */
  lemma {:induction false} BallotIsFinal(r: Registry, calls: seq<Call>, id: nat, voter: Address)
    requires GetVoterInfo(r, id, voter).voted
    ensures GetVoterInfo(Run(r, calls), id, voter) == GetVoterInfo(r, id, voter)
    decreases |calls|
  {
    if calls != [] {
      var next := Step(r, calls[0]);
      assert GetVoterInfo(next, id, voter) == GetVoterInfo(r, id, voter);
      BallotIsFinal(next, calls[1..], id, voter);
    }
  }

  /**
   A voting keeps its id, owner, question and candidates forever, and once
   closed it is never reopened.
   */
  lemma {:induction false} VotingIdentityIsFixed(r: Registry, calls: seq<Call>, id: nat)
    requires Exists(r, id)
    ensures GetVoting(Run(r, calls), id).Ok?
    ensures var before, after := GetVoting(r, id).value, GetVoting(Run(r, calls), id).value;
            && after.id == before.id
            && after.owner == before.owner
            && after.question == before.question
            && after.candidates == before.candidates
            && (!before.isOpen ==> !after.isOpen)
    decreases |calls|
  {
    if calls != [] {
      var next := Step(r, calls[0]);
      var before, mid := GetVoting(r, id).value, GetVoting(next, id).value;
      assert Exists(next, id);
      assert mid.id == before.id && mid.owner == before.owner && mid.question == before.question
        && mid.candidates == before.candidates && (!before.isOpen ==> !mid.isOpen);
      VotingIdentityIsFixed(next, calls[1..], id);
    }
  }

  /**
   Whatever else happens, a caller who voted on a voting is refused on every
   later attempt to vote on it.
   */
  lemma OneVotePerVoterEver(r: Registry, calls: seq<Call>, id: nat, voter: Address, index: nat)
    requires GetVoterInfo(r, id, voter).voted
    ensures Vote(Run(r, calls), voter, id, index).Err?
  {
    BallotIsFinal(r, calls, id, voter);
  }
}
