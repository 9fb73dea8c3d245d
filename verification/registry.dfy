/**
 The poll registry of the Voting contract, as an immutable value with pure
 operations. The ambient transaction sender becomes an explicit `caller`
 argument, a revert becomes an `Err` carrying the revert reason, and the
 `Created` event becomes a returned record.

 State kept per voting: id, owner, question, candidate list, winner text and
 open flag. Per (voting, voter) the registry keeps the label of the chosen
 candidate; a voter who has a ballot entry has voted.
 */
module Registry {

  /** An opaque caller identity (an account address on the host chain). */
  datatype Address = Address(key: nat)

  /** The four revert reasons a vote can end in. */
  datatype Error = NotExist | WrongCandidate | AlreadyVoted | Closed

  datatype Result<T> = Ok(value: T) | Err(error: Error)

  /** The revert string each error is reported with. */
  function Message(e: Error): (m: string)
    ensures |m| > 0
  {
    match e
    case NotExist => "Voting does not exist"
    case WrongCandidate => "Wrong candidate number!"
    case AlreadyVoted => "You cannot vote anymore!"
    case Closed => "This voting already closed!"
  }

  /** A caller can tell the errors apart by their revert strings alone. */
  lemma MessagesDistinguishErrors(e1: Error, e2: Error)
    ensures Message(e1) == Message(e2) <==> e1 == e2
  {
  }

  /** One voting, in the shape `getVoting` reports it. */
  datatype Voting = Voting(
    id: nat,
    owner: Address,
    question: string,
    candidates: seq<string>,
    winner: string,
    isOpen: bool)

  /** What `getVoterInfo` reports: whether the voter voted, and for whom. */
  datatype VoterInfo = VoterInfo(voted: bool, votedFor: string)

  /** The `Created` event. */
  datatype Created = Created(id: nat, owner: Address, question: string, candidates: seq<string>)

  /** Votings in id order (voting `k` at index `k - 1`) and the recorded ballots. */
  datatype Registry = Registry(votings: seq<Voting>, ballots: map<(nat, Address), string>)

  /** What `createVoting` yields: the new id, the emitted event and the new state. */
  datatype Creation = Creation(id: nat, event: Created, registry: Registry)

  /** Ids are 1-based; 0 is never assigned. */
  predicate Exists(r: Registry, id: nat)
  {
    1 <= id <= |r.votings|
  }

  /**
   The invariant every reachable registry keeps: each voting sits at the
   index its id names, an open voting has no winner yet, and every ballot
   belongs to an existing voting and names one of its candidates.
   */
  predicate Valid(r: Registry)
  {
    && (forall k :: 0 <= k < |r.votings| ==> r.votings[k].id == k + 1)
    && (forall k :: 0 <= k < |r.votings| && r.votings[k].isOpen ==> r.votings[k].winner == "")
    && (forall key :: key in r.ballots ==>
          Exists(r, key.0) && r.ballots[key] in r.votings[key.0 - 1].candidates)
  }

  /** The freshly deployed contract. */
  function Deploy(): (r: Registry)
    ensures Valid(r)
    ensures GetVotingsCount(r) == 0
    ensures forall id: nat :: GetVoting(r, id) == Err(NotExist)
  {
    Registry([], map[])
  }

  /** `getVotingsCount`: the number of votings ever created, which is also the highest id. */
  function GetVotingsCount(r: Registry): (n: nat)
    ensures forall id: nat :: GetVoting(r, id).Ok? <==> 1 <= id <= n
  {
    |r.votings|
  }

  /** `getVoting`: the stored voting, or NotExist for id 0 and unassigned ids. */
  function GetVoting(r: Registry, id: nat): (res: Result<Voting>)
    ensures res.Err? <==> !Exists(r, id)
    ensures res.Err? ==> res.error == NotExist
    ensures Valid(r) && res.Ok? ==> res.value.id == id
    ensures Valid(r) && res.Ok? && res.value.isOpen ==> res.value.winner == ""
  {
    if Exists(r, id) then Ok(r.votings[id - 1]) else Err(NotExist)
  }

  /** `getVoterInfo`: `(false, "")` for a voter with no ballot, including on unknown votings. */
  function GetVoterInfo(r: Registry, id: nat, voter: Address): (info: VoterInfo)
    ensures !info.voted ==> info.votedFor == ""
    ensures Valid(r) && !Exists(r, id) ==> info == VoterInfo(false, "")
    ensures Valid(r) && info.voted ==> info.votedFor in GetVoting(r, id).value.candidates
  {
    if (id, voter) in r.ballots then VoterInfo(true, r.ballots[(id, voter)])
    else VoterInfo(false, "")
  }

  /**
   `createVoting`: appends an open voting owned by the caller under the next
   id and emits `Created`. Any candidate list is accepted.
   */
  function CreateVoting(r: Registry, caller: Address, question: string, candidates: seq<string>)
    : (c: Creation)
    ensures c.id == GetVotingsCount(r) + 1 == GetVotingsCount(c.registry)
    ensures c.event == Created(c.id, caller, question, candidates)
    ensures GetVoting(c.registry, c.id) == Ok(Voting(c.id, caller, question, candidates, "", true))
    ensures forall id: nat :: Exists(r, id) ==> GetVoting(c.registry, id) == GetVoting(r, id)
    ensures forall id: nat, voter: Address :: GetVoterInfo(c.registry, id, voter) == GetVoterInfo(r, id, voter)
    ensures Valid(r) ==> Valid(c.registry)
  {
    var id := |r.votings| + 1;
    var v := Voting(id, caller, question, candidates, "", true);
    Creation(id, Created(id, caller, question, candidates), r.(votings := r.votings + [v]))
  }

  /**
   `vote`: records the caller's choice of candidate `index` on voting `id`.
   Checks run in the order: the voting exists, it is open, the index names a
   candidate, the caller has not voted on it yet.
   */
  function Vote(r: Registry, caller: Address, id: nat, index: nat): (res: Result<Registry>)
    // existence is decided before anything else
    ensures res == Err(NotExist) <==> !Exists(r, id)
    // a closed voting rejects every valid choice, voted before or not
    ensures (Exists(r, id) && !GetVoting(r, id).value.isOpen
             && index < |GetVoting(r, id).value.candidates|) ==> res == Err(Closed)
    // an out-of-range index is reported even to a caller who already voted
    ensures (Exists(r, id) && GetVoting(r, id).value.isOpen
             && index >= |GetVoting(r, id).value.candidates|) ==> res == Err(WrongCandidate)
    ensures (Exists(r, id) && GetVoting(r, id).value.isOpen
             && index < |GetVoting(r, id).value.candidates|
             && GetVoterInfo(r, id, caller).voted) ==> res == Err(AlreadyVoted)
    ensures res.Ok? <==>
              && Exists(r, id)
              && GetVoting(r, id).value.isOpen
              && index < |GetVoting(r, id).value.candidates|
              && !GetVoterInfo(r, id, caller).voted
    // on success the caller's ballot reads back, and nothing else changes
    ensures res.Ok? ==>
              GetVoterInfo(res.value, id, caller)
                == VoterInfo(true, GetVoting(r, id).value.candidates[index])
    ensures res.Ok? ==> GetVotingsCount(res.value) == GetVotingsCount(r)
    ensures res.Ok? ==> forall j: nat :: GetVoting(res.value, j) == GetVoting(r, j)
    ensures res.Ok? ==> forall j: nat, voter: Address :: (j, voter) != (id, caller) ==>
              GetVoterInfo(res.value, j, voter) == GetVoterInfo(r, j, voter)
    ensures Valid(r) && res.Ok? ==> Valid(res.value)
  {
    if !Exists(r, id) then Err(NotExist)
    else
      var v := r.votings[id - 1];
      if !v.isOpen then Err(Closed)
      else if index >= |v.candidates| then Err(WrongCandidate)
      else if (id, caller) in r.ballots then Err(AlreadyVoted)
      else Ok(r.(ballots := r.ballots[(id, caller) := v.candidates[index]]))
  }

  /**
   `closeVoting`: marks voting `id` closed and stores `winner`, which stands
   for the contract's own winner computation and is taken as given. The
   contract promises success only for the owner closing an open voting; who
   else may close, and what a second close does, is left open.
   */
  function CloseVoting(r: Registry, caller: Address, id: nat, winner: string): (res: Result<Registry>)
    ensures !Exists(r, id) ==> res == Err(NotExist)
    ensures (Exists(r, id) && GetVoting(r, id).value.isOpen
             && caller == GetVoting(r, id).value.owner) ==> res.Ok?
    ensures res.Ok? ==>
              GetVoting(res.value, id) == Ok(GetVoting(r, id).value.(winner := winner, isOpen := false))
    ensures res.Ok? ==> GetVotingsCount(res.value) == GetVotingsCount(r)
    ensures res.Ok? ==> forall j: nat :: j != id ==> GetVoting(res.value, j) == GetVoting(r, j)
    ensures res.Ok? ==> forall j: nat, voter: Address :: GetVoterInfo(res.value, j, voter) == GetVoterInfo(r, j, voter)
    ensures Valid(r) && res.Ok? ==> Valid(res.value)
  {
    if !Exists(r, id) then Err(NotExist)
    else
      var v := r.votings[id - 1];
      Ok(r.(votings := r.votings[id - 1 := v.(winner := winner, isOpen := false)]))
  }

  /** After a successful vote, the same caller can never vote on that voting again. */
  lemma VoteOnlyOnce(r: Registry, caller: Address, id: nat, index: nat, again: nat)
    requires Vote(r, caller, id, index).Ok?
    ensures Vote(Vote(r, caller, id, index).value, caller, id, again).Err?
    ensures again < |GetVoting(r, id).value.candidates| ==>
              Vote(Vote(r, caller, id, index).value, caller, id, again) == Err(AlreadyVoted)
  {
  }

  /** Once closed, a voting accepts no vote from anyone. */
  lemma ClosedRejectsVotes(r: Registry, closer: Address, id: nat, winner: string, voter: Address, index: nat)
    requires CloseVoting(r, closer, id, winner).Ok?
    ensures Vote(CloseVoting(r, closer, id, winner).value, voter, id, index).Err?
    ensures index < |GetVoting(r, id).value.candidates| ==>
              Vote(CloseVoting(r, closer, id, winner).value, voter, id, index) == Err(Closed)
  {
  }
}
