# Voting registry model

This project models the poll registry of the `Voting` smart contract from
`decentralized-voting-solidity`. Any account can open a voting with a question
and a fixed list of candidates. Accounts then cast one vote each by candidate
index, and a voting can be closed. The contract's own source is not part of this
model. Its behaviour is taken from the Hardhat test suite `test/Voting.test.js`,
so the model reproduces what those tests assert.

The model is functional:

- `Registry.Registry` is an immutable value. It holds the sequence of votings
  (voting `k` at index `k - 1`) and a map from `(voting id, voter)` to the label
  the voter chose.
- Every transaction is a pure function. It takes the sender as an explicit
  `caller` argument (an opaque `Address`) in place of `msg.sender`.
- A revert becomes `Err(e)`, and `Message(e)` gives the revert string.
- The `Created` event is returned as a record next to the new state.

Modules:

- `Arrays` (arrays.dfy): the test suite's `equalArr`, and the proof that it is
  sequence equality.
- `Registry` (registry.dfy): the state, the invariant `Valid`, the operations
  `CreateVoting`, `Vote` and `CloseVoting`, and the views `GetVotingsCount`,
  `GetVoting` and `GetVoterInfo`.
- `Lifecycle` (lifecycle.dfy): arbitrary sequences of transactions, where a
  reverted one leaves the state unchanged. It holds the properties that survive
  any such sequence.
- `Scenarios` (scenarios.dfy): each `beforeEach` chain and `it` block of the
  test suite, replayed as a lemma that holds for every deploying account.

`Vote` checks in this order: the voting exists, it is open, the index names a
candidate, the caller has not voted there yet. The tests fix two facts about
this order:

- existence is checked before the candidate (id 12 with index 3);
- the candidate is checked before the already-voted check (index 99 from a caller
  who voted at line 96).

The model also checks closed before already-voted, so a closed voting refuses a
caller with Closed whether or not that caller voted there. The test at lines
129-134 votes on voting 2, where the deployer never voted, so it agrees with this
order but does not force it. The tests do not fix where the closed check sits
relative to the candidate check, so `Vote`'s contract says only that such a call fails.

## Model

| member | source | states |
|---|---|---|
| `Arrays.EqualArrIsEquality` | test/Voting.test.js:4-9 | `equalArr(a, b)` holds exactly when the lengths agree and every index holds equal elements. That is exactly `a == b`. |
| `Registry.MessagesDistinguishErrors` | test/Voting.test.js:106-134 | The four revert strings are pairwise different, so the tests' `revertedWith` checks tell the four errors apart. |
| `Registry.Deploy` | test/Voting.test.js:14-16 | A freshly deployed contract has no votings. Every id, 0 included, reads as NotExist, and the state satisfies the invariant. |
| `Registry.GetVoting` | test/Voting.test.js:52-61 | `getVoting` fails with NotExist exactly for id 0 and unassigned ids. In a well-formed state the record it returns carries the requested id and has an empty winner while open. |
| `Registry.GetVoterInfo` | test/Voting.test.js:80-87 | A voter without a ballot reads as `(false, "")`, and so does any voter on a voting that does not exist. A recorded choice is one of that voting's candidates. |
| `Registry.CreateVoting` | test/Voting.test.js:27-61 | The new id is the old count plus one, and the count goes up by exactly one. The `Created` event carries the id, the caller as owner, and the question and candidates. The new voting reads back as `(id, caller, question, candidates, "", true)`. Earlier votings and all ballots are unchanged, and the invariant is kept. |
| `Registry.Vote` | test/Voting.test.js:73-134 | NotExist is reported exactly when the id is 0 or unassigned, whatever the index. On an open voting, an index past the candidate list gives WrongCandidate even if the caller has voted. A closed voting gives Closed for a valid index, whether or not the caller voted. A valid index from a caller who already voted gives AlreadyVoted. Success happens exactly on an existing open voting, with a valid index, from a caller who has not voted. After success `getVoterInfo` returns `(true, candidates[index])` for the caller, and every other view is unchanged. |
| `Registry.CloseVoting` | test/Voting.test.js:99-104 | The owner closing an open voting succeeds, as at line 102. A successful close turns the voting's open flag off and stores the winner. It leaves the voting's id, owner, question and candidates alone, and other votings and all ballots are unchanged. A missing id gives NotExist. |
| `Registry.GetVotingsCount` | test/Voting.test.js:35-37 | The count is exactly the number of ids `getVoting` accepts: ids `1..count` exist and no other id does. |
| `Registry.Message` | test/Voting.test.js:106-134 | Each error is reported with a non-empty revert string. The exact strings at lines 109, 120, 126 and 133 are fixed by the `Scenarios.Rejects*` lemmas. |
| `Registry.VoteOnlyOnce` | test/Voting.test.js:123-127 | After a successful vote, the same caller's next vote on that voting fails for every index. For a valid index it fails with AlreadyVoted. |
| `Registry.ClosedRejectsVotes` | test/Voting.test.js:129-134 | After a voting is closed, every vote on it fails, from any caller. For a valid index it fails with Closed. |
| `Lifecycle.RunKeepsValid` | test/Voting.test.js:52-61 | Every sequence of transactions from a well-formed state keeps it well-formed: ids match positions, open votings have an empty winner, and ballots name candidates of existing votings. |
| `Lifecycle.RunCountsCreations` | test/Voting.test.js:96-103 | After any sequence of transactions, the count equals the starting count plus the number of creations. Ids are therefore sequential and never reused. |
| `Lifecycle.BallotIsFinal` | test/Voting.test.js:123-127 | Once a voter has voted on a voting, no later sequence of transactions changes what `getVoterInfo` reports for that pair. |
| `Lifecycle.VotingIdentityIsFixed` | test/Voting.test.js:52-61 | An existing voting keeps its id, owner, question and candidates through any sequence of transactions, and a closed voting is never reopened. |
| `Lifecycle.OneVotePerVoterEver` | test/Voting.test.js:123-127 | A voter who has voted on a voting is refused on every later vote there, whatever happened in between. |
| `Scenarios.TracksNewVoting` | test/Voting.test.js:35-37 | After the first creation, `getVotingsCount()` is 1. |
| `Scenarios.EmitsCreated` | test/Voting.test.js:39-50 | The `Created` event has id 1 and the deployer as owner, and its question and candidates (compared with `equalArr`) are the ones given. |
| `Scenarios.HasCorrectData` | test/Voting.test.js:52-61 | `getVoting(1)` returns `(1, deployer, question, candidates, "", true)`. |
| `Scenarios.VotesForSomeCandidate` | test/Voting.test.js:73-87 | Voting for index 3 succeeds, and `getVoterInfo(1, deployer)` then returns `(true, "Solidity")`. |
| `Scenarios.FailureSetup` | test/Voting.test.js:95-104 | The setup chain goes through: the vote on voting 1 succeeds, the second creation gets id 2, and closing 2 succeeds. |
| `Scenarios.RejectsMissingVoting` | test/Voting.test.js:106-115 | Votes on ids 12 and 0 revert with "Voting does not exist". |
| `Scenarios.RejectsInvalidCandidate` | test/Voting.test.js:117-121 | Index 99 on voting 1 reverts with "Wrong candidate number!", although the deployer already voted there. |
| `Scenarios.RejectsSecondVote` | test/Voting.test.js:123-127 | A second vote by the deployer on voting 1 reverts with "You cannot vote anymore!". |
| `Scenarios.RejectsClosedVoting` | test/Voting.test.js:129-134 | A vote on the closed voting 2 reverts with "This voting already closed!". |

## Left out

- Deployment, signers, `tx.wait()`, receipts and event queries (test/Voting.test.js:14-23, 40-42) are test scaffolding. The caller is a parameter, and the event is a returned record.
- CloseVoting: the winner computation at close is not modelled. The winner is a parameter taken as given, because no test shows how it is chosen or how ties break. The per-candidate tallies it would need are left out with it.
- CloseVoting: promises success only for the owner closing an open voting. It promises nothing about a non-owner's close or a second close: no test exercises either. The body accepts both, and a second close overwrites the winner; callers must not rely on that.
- CloseVoting: reports NotExist for a missing id. No test closes a missing id, so this is the model's choice.
- Vote: when a voting is closed and the index is out of range, the model reports Closed. No test fixes which of the two errors wins, so the contract only says that the call fails.
- CreateVoting: accepts any candidate list, the empty one included. No test shows whether an empty list is rejected. On a voting with no candidates, every vote fails with WrongCandidate while it is open, and with Closed once it is closed.
- GetVoting: reports NotExist for a missing id. The tests only read voting 1, so this is the model's choice, not observed behaviour.
- Message: its contract only promises a non-empty string. The exact revert strings are stated by the `Scenarios.Rejects*` lemmas, and `Registry.MessagesDistinguishErrors` states that they differ.
- Ids, indices and counts are unbounded `nat`. The uint256 width is not modelled because no reachable count comes near it. Gas, ABI encoding and storage layout are also left out.
