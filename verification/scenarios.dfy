/**
 The "Voting Contract" test scenarios, replayed against the model. Each
 `beforeEach` chain becomes a setup function and each `it` block a lemma
 whose ensures are the block's expectations. The deploying account is left
 arbitrary, so each lemma holds for every deployer.
 */
module Scenarios {
  import opened Arrays
  import opened Registry

  const FavouriteQuestion: string := "Which programming language is your favourite language?"
  const Languages: seq<string> := ["C#", "C++", "Python", "Solidity"]

  /** Index of "Solidity" among the languages. */
  const SolidityIndex: nat := 3

  /** Deploy, then the deployer creates the languages voting. */
  function CreateSetup(deployer: Address): (c: Creation)
    ensures c.id == 1
  {
    CreateVoting(Deploy(), deployer, FavouriteQuestion, Languages)
  }

  /** "tracks the newly created voting" */
  lemma TracksNewVoting(deployer: Address)
    ensures GetVotingsCount(CreateSetup(deployer).registry) == 1
  {
  }

  /** "emits the Created event" */
  lemma EmitsCreated(deployer: Address)
    ensures var e := CreateSetup(deployer).event;
            && e.id == 1
            && e.owner == deployer
            && e.question == FavouriteQuestion
            && EqualArr(e.candidates, Languages)
  {
  }

  /** "has correct data" */
  lemma HasCorrectData(deployer: Address)
    ensures GetVoting(CreateSetup(deployer).registry, 1).Ok?
    ensures var v := GetVoting(CreateSetup(deployer).registry, 1).value;
            && v.id == 1
            && v.owner == deployer
            && v.question == FavouriteQuestion
            && EqualArr(v.candidates, Languages)
            && v.winner == ""
            && v.isOpen
  {
  }

  /** "votes for some candidate": the deployer votes for Solidity on voting 1. */
  lemma VotesForSomeCandidate(deployer: Address)
    ensures Vote(CreateSetup(deployer).registry, deployer, 1, SolidityIndex).Ok?
    ensures GetVoterInfo(Vote(CreateSetup(deployer).registry, deployer, 1, SolidityIndex).value, 1, deployer)
            == VoterInfo(true, Languages[SolidityIndex])
  {
  }

  /**
   The failure setup: the deployer votes for Solidity on voting 1, creates a
   second voting (id 2) and closes it. `winner` is whatever the close settles on.
   */
  function FailureSetup(deployer: Address, winner: string): (r: Registry)
    ensures GetVotingsCount(r) == 2
    ensures GetVoterInfo(r, 1, deployer) == VoterInfo(true, "Solidity")
    ensures GetVoting(r, 2).Ok? && !GetVoting(r, 2).value.isOpen
  {
    var afterVote := Vote(CreateSetup(deployer).registry, deployer, 1, SolidityIndex);
    assert afterVote.Ok?;
    var second := CreateVoting(afterVote.value, deployer, FavouriteQuestion, Languages);
    assert second.id == 2;
    var afterClose := CloseVoting(second.registry, deployer, 2, winner);
    assert afterClose.Ok?;
    afterClose.value
  }

  /** "rejects if voting does not exist": ids 12 and 0. */
  lemma RejectsMissingVoting(deployer: Address, winner: string)
    ensures Vote(FailureSetup(deployer, winner), deployer, 12, SolidityIndex) == Err(NotExist)
    ensures Vote(FailureSetup(deployer, winner), deployer, 0, SolidityIndex) == Err(NotExist)
    ensures Message(NotExist) == "Voting does not exist"
  {
  }

  /** "rejects invalid candidates": index 99, although the deployer already voted on voting 1. */
  lemma RejectsInvalidCandidate(deployer: Address, winner: string)
    ensures Vote(FailureSetup(deployer, winner), deployer, 1, 99) == Err(WrongCandidate)
    ensures Message(WrongCandidate) == "Wrong candidate number!"
  {
  }

  /** "rejects already voted voters" */
  lemma RejectsSecondVote(deployer: Address, winner: string)
    ensures Vote(FailureSetup(deployer, winner), deployer, 1, SolidityIndex) == Err(AlreadyVoted)
    ensures Message(AlreadyVoted) == "You cannot vote anymore!"
  {
  }

  /** "rejects if the voting is closed": voting 2. */
  lemma RejectsClosedVoting(deployer: Address, winner: string)
    ensures Vote(FailureSetup(deployer, winner), deployer, 2, SolidityIndex) == Err(Closed)
    ensures Message(Closed) == "This voting already closed!"
  {
  }
}
