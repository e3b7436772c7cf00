# Vote engine of a leaderless threshold-signature consensus

This project models, in Dafny, the per-node vote engine `Consensus` of a
leaderless Byzantine agreement protocol among a committee of `n_elders`
elders with signature threshold `t`. Each elder keeps one signed vote per
voter: the first vote logged for that voter, replaced only by a later vote that
supersedes it. After every incoming vote it decides, in strict priority order:

1. On a **split vote**, broadcast a **Merge** of everything seen, unless this
   node's logged vote already carries the Merge's proposals; then wait.
2. On a **supermajority over supermajorities**, declare the round
   **decided**.
3. On a **supermajority**, broadcast a **SuperMajority** ballot, unless this
   node's logged vote already is one; then wait.
4. If it has not voted yet, vote the incoming ballot.
5. Otherwise, wait.

Incoming votes are checked by a recursive **validator** before they reach the
engine.

The project has five modules:

- `Votes` (`votes.dfy`) stands in for the vote module the engine imports:
  - the recursive `Ballot` (`Propose`, `Merge`, `SuperMajority`), `Vote` and
    `SignedVote`;
  - the two flattenings `Proposals` (the proposal set of a vote) and `Unpack`
    (a signed vote with every vote it embeds).
  - `supersedes` and `simplify` are opaque function values in `VoteLib`, and
    nothing is assumed of them except where a contract says so.
- `Counting` (`counting.dfy`) holds `count_votes` and the counting predicates:
  - `Tally` is the reference grouping by proposal set;
  - `CountVotes` is the loop of the source.
- `Engine` (`engine.dfy`) holds:
  - the state;
  - signing;
  - `log_signed_vote` and `cast_vote`;
  - the two vote builders;
  - `handle_signed_vote`, split into `Respond` (the decision) and
    `HandleSignedVote` (log, decide, log our own vote);
  - the invariant `WellFormed` that every handled state keeps.
- `Validation` (`validation.dfy`) holds the recursive validator:
  - a declarative acceptance predicate;
  - fail-fast methods that report the first violated check;
  - a corrected variant whose SuperMajority check counts distinct voters
    (see "## Findings").
- `Scenarios` (`scenarios.dfy`) holds worked decisions on small committees:
  supermajority, split vote and decided.

The engine is an immutable value. Operations that mutate it in place return the
new state instead. Iteration over a `BTreeSet` is modelled as visiting the
elements in an arbitrary order (`:|` in a loop), so every contract holds for
every order.

## Model

| member | source | states |
|---|---|---|
| Counting.Tally | src/consensus.rs:168-178 | every vote's proposal set is a key; every key counts exactly the votes carrying that proposal set, and at least one |
| Counting.CountVotes | src/consensus.rs:168-178 | the counting loop yields the reference grouping `Tally` in any iteration order: every vote's proposal set is a key, and every count is at least 1 |
| Counting.TallySum | src/consensus.rs:168-178 | each vote is counted under exactly one key: the counts add up to the size of the vote set |
| Counting.TallyAdd | src/consensus.rs:171-175 | adding one vote increments the count of its own proposal set and leaves every other count unchanged |
| Counting.ProposalsOf | src/consensus.rs:180-182 | the union of the proposal sets: contains every proposition of every vote, and nothing that no vote proposes |
| Counting.MaxOf | src/consensus.rs:186 | the maximum of the counts, or 0 when there are none (`unwrap_or_default`): an upper bound of the set that belongs to it when it is non-empty |
| Counting.IsSplitVote | src/consensus.rs:184-194 | under the no-underflow precondition, a split vote is never a supermajority and has more than `t` distinct voters |
| Counting.SplitVoteHasRivalProposals | src/consensus.rs:184-194 | a split vote contains two votes with different proposal sets |
| Counting.SuperMajorityMeansAgreeingGroup | src/consensus.rs:196-206 | a supermajority holds exactly when more than `t` votes carry one and the same proposal set (both directions) |
| Counting.SuperMajorityVotes | src/consensus.rs:209-215 | the filter keeps exactly the votes with a SuperMajority ballot |
| Counting.SuperMajorityOverSuperMajoritiesIsSuperMajority | src/consensus.rs:196-222 | a supermajority over supermajorities is in particular a supermajority |
| Counting.TallySubset | src/consensus.rs:208-222 | on a subset of the votes, every group is no larger than the same group on the full set |
| Counting.NoVotesNoDecision | src/consensus.rs:184-206 | on no votes, neither a supermajority nor a split vote holds, because the maximum defaults to 0 |
| Engine.From | src/consensus.rs:26-37 | a fresh engine has no logged votes, and it satisfies the engine invariant when its own id is a committee member |
| Engine.VerifySigShare | src/consensus.rs:39-52 | passes exactly when the committee's check of the share succeeds; otherwise it fails with `InvalidElderSignature` |
| Engine.SignVote | src/consensus.rs:146-152 | the signed vote carries this node's id and the given vote, and its signature passes `VerifySigShare` when the committee accepts this node's signature |
| Engine.BuildSuperMajorityVote | src/consensus.rs:62-75 | the built vote is signed by this node and carries the requested generation |
| Engine.MergeVote | src/consensus.rs:90-94 | the Merge vote is signed by this node and carries the requested generation |
| Engine.LogSignedVote | src/consensus.rs:159-166 | the result is exactly what the loop leaves for some order of visiting the unpacked votes (each visited once). In that order, a voter's first vote fills an empty entry, and a later vote replaces the entry only when it supersedes it. It also meets the per-entry guarantees of `LogAllEntries`. |
| Engine.CastVote | src/consensus.rs:154-157 | returns the vote unchanged. The new vote map is exactly what `log_signed_vote` leaves for some visiting order, with the per-entry guarantees. The vote's voter is recorded and the rest of the state is left alone. |
| Engine.LogAllEntries | src/consensus.rs:159-166 | for every visiting order: the keys become the old keys plus the unpacked voters, and other voters' entries are untouched. Each entry of an unpacked voter ends a chain of that voter's unpacked votes in which every vote supersedes the one before. The chain starts at the existing entry, or, for a new voter, at one of its unpacked votes. |
| Engine.UnsupersededEntryStays | src/consensus.rs:161-164 | an existing entry that no unpacked vote of its voter supersedes is kept |
| Engine.DominantVoteIsLogged | src/consensus.rs:159-166 | take a vote that supersedes every other unpacked vote of its voter, and the existing entry, while none of those supersedes it. It ends up as the entry in every visiting order. |
| Engine.CastVoteIsRecorded | src/consensus.rs:135-141 | a node that has not voted yet and casts a vote embedding only logged voters finds exactly that vote logged under its own id |
| Engine.VotersWithinElders | src/consensus.rs:187-188 | under the engine invariant there are never more distinct voters than elders, so `n_elders - voters.len()` cannot underflow |
| Engine.LoggedKeepsWellFormed | src/consensus.rs:159-166 | logging a vote whose unpacked votes all come from committee members keeps the engine invariant, whatever the visiting order |
| Engine.Respond | src/consensus.rs:88-143 | the priority order. On a split vote: never Decided; Waiting exactly when our logged vote has the Merge vote's proposals; otherwise Broadcast of the Merge vote. Decided exactly when there is no split and a supermajority over supermajorities holds; it is then also a supermajority and carries the built SuperMajority vote. In the supermajority branch: Waiting exactly when our logged vote is a SuperMajority ballot, otherwise Broadcast of the built SuperMajority vote. With no predicate: Waiting exactly when we have voted, otherwise Broadcast of the incoming ballot at `gen`. Every payload is signed by this node at `gen`. |
| Engine.HandleSignedVote | src/consensus.rs:81-144 | logs the incoming vote exactly as `log_signed_vote` does, then answers as `Respond` on the logged state. A broadcast vote is logged the same way; otherwise the state is the logged one. The engine invariant is preserved, and with it the no-underflow bound. A node that had not voted finds its broadcast vote logged under its id. |
| Validation.ValidateVoteSupersedesExistingVote | src/consensus.rs:281-290 | fails exactly when the voter has a logged vote and neither vote supersedes the other; always passes for a new voter |
| Validation.ValidateSignedVote | src/consensus.rs:226-231 | passes exactly when the vote is valid. A bad signature fails with `InvalidElderSignature`. An embedded vote of another generation makes it fail. A conflict with the logged vote fails with `ExistingVoteIncompatibleWithNewVote`. |
| Validation.ValidateVote | src/consensus.rs:233-279 | passes exactly when the ballot is valid; a Propose ballot always passes. The SuperMajority checks fail in source order: not a supermajority of the unpacked votes, then proposal keys differing from the vote's proposals, then an invalid per-proposition signature. |
| Validation.ValidateProposalSignatures | src/consensus.rs:259-264 | passes exactly when every per-proposition signature verifies against its claimed signer; otherwise `InvalidElderSignature` |
| Validation.ValidateChildren | src/consensus.rs:236-247 | passes exactly when every embedded vote shares the parent's generation and is valid; a generation error reports two different generations |
| Validation.ValidVoteUnpacksToValidVotes | src/consensus.rs:224-279 | recursion reaches every level: every vote an accepted vote unpacks to has the same generation and is itself valid |
| Validation.AcceptedSuperMajorityIsSubstantiated | src/consensus.rs:248-258 | an accepted SuperMajority ballot has more than `t` unpacked votes agreeing on one proposal set, and claims exactly its own proposals. These are votes, not distinct voters: see "## Findings". |
| Validation.OneVoterSuperMajorityIsAccepted | src/consensus.rs:249-256 | as written, with `t = 1` and no logged votes, a voter's SuperMajority over its own Merge over its own Propose vote is accepted, although every unpacked vote comes from that one voter; the corrected validator rejects it |
| Validation.VoterSuperMajorityIsSubstantiated | src/consensus.rs:249-256 | with the re-check counting distinct voters, an accepted SuperMajority ballot has more than `t` distinct voters agreeing on one proposal set, claims exactly its own proposals, and is also accepted as written |
| Validation.ValidByVotersIsValid | src/consensus.rs:226-279 | the corrected validator accepts only votes the validator as written accepts, at every level of nesting |
| Validation.BuiltSuperMajorityClaimsItsProposals | src/consensus.rs:62-75 | the SuperMajority ballot this node builds, before `simplify`, names exactly the proposals of the votes it wraps, each claimed by this node with its own share. When `simplify` keeps those claims (`SimplifyKeepsClaims`), the signed vote `BuildSuperMajorityVote` returns passes the proposal-key check at src/consensus.rs:257 as well. |
| Votes.ProposalsAreLeaves | src/consensus.rs:8 | the two imported flattenings agree: a vote's proposals are exactly the propositions of the Propose votes it unpacks to |
| Votes.UnpackClosed | src/consensus.rs:8 | unpacking is closed: a vote found by unpacking unpacks to nothing new |
| Scenarios.SupermajorityScenario | src/consensus.rs:116-131 | four elders with `t = 1`: three agreeing Propose votes form a supermajority in a state that meets the engine invariant. A node that has not yet sent a SuperMajority ballot broadcasts one, whatever the signatures and vote-module helpers. |
| Scenarios.SplitVoteScenario | src/consensus.rs:88-108 | three elders with `t = 1` and three different proposals, in a state that meets the engine invariant: the vote is split. When `simplify` leaves that Merge ballot unchanged, the node broadcasts a Merge vote over all three votes. |
| Scenarios.DecidedScenario | src/consensus.rs:110-114 | four elders with `t = 1`: this node's Propose vote and three SuperMajority votes over the agreeing Propose votes of elders 0, 1 and 2. The state meets the engine invariant, and the node decides with its built SuperMajority vote, whatever the signatures and vote-module helpers. |

## Left out

- Threshold cryptography is reduced to function values:
  - `sign` is the `sign` field of `SecretKeyShare`;
  - `verify_sig_share` is the `verify` field of `PublicKeySet`;
  - `elders.threshold()` is its `threshold` field.
  Nothing is assumed of these functions.
- Serialisation of messages before signing is folded into the message
  datatype `Message`. Its failure path (`?` on serialisation) is taken never
  to fire.
- Log output (`info!`) has no semantic effect and is omitted.
- The internals of `supersedes` and `simplify` belong to the vote module, which
  is not part of this model. They are opaque. Three contracts depend on a named
  assumption about `simplify`:
  - `HandleSignedVote` assumes `SimplifyKeepsVoters`: a simplified ballot embeds
    no vote of a voter the original ballot did not embed.
  - `SplitVoteScenario` assumes that `simplify` leaves the Merge ballot of its
    three votes unchanged.
  - The second ensures of `BuiltSuperMajorityClaimsItsProposals` assumes
    `SimplifyKeepsClaims`: simplifying a SuperMajority ballot keeps it a
    SuperMajority ballot with the same claims and proposals.
- `Proposals` and `Unpack` are written here as the natural recursive
  flattenings. The vote module's own definitions are not part of this model.
- HandleSignedVote: its preconditions are stronger than the source's. They are:
  - the invariant `WellFormed` (voters are committee members, each filed under
    its own id);
  - that the incoming vote's unpacked votes come from committee members.
  With more voters than elders, the source's unsigned subtraction in
  `is_split_vote` would underflow, and that case is not modelled.
- AcceptedSuperMajorityIsSubstantiated: counts unpacked votes, as the source does, not distinct voters; one voter's own nested votes can make up the supermajority (see "## Findings").
- IsSplitVote: requires no more voters than elders instead of modelling the
  `usize` underflow of `n_elders - voters.len()`.
- Integer widths: `usize` counts and the generation counter are unbounded
  naturals. Overflow of `most_votes + remaining_voters` is not modelled.
- `Error` keeps only the variants the engine reports, plus the two
  generations of the generation error. A serialisation failure has no variant.
- Idempotence of re-delivering the same vote is not stated. Whether
  re-logging a vote changes an entry depends on `supersedes`.
- Agreement between different elders is not stated. It is a property of the
  whole distributed protocol, not of one node's reducer. Network transport is
  not modelled either.
- The order in which `BTreeSet` visits votes is not fixed. Contracts hold for
  every order, so the model is no more deterministic than that. Which
  validation error is reported when several embedded votes fail depends on that
  order.

## Findings

| source | as written | input that shows it | evidently intended | confidence | as-written member | corrected member |
|---|---|---|---|---|---|---|
| src/consensus.rs:249-256 | the SuperMajority re-check runs `is_super_majority` over the unpacked votes, which counts votes, so one voter's nested votes count several times | with `t = 1`, an empty log and valid signatures: voter 5 proposes "x", merges that vote, and sends a SuperMajority over the Merge. The two unpacked votes form a group of 2 > 1 with one voter. | more than `t` distinct committee members agree on one proposal set | medium, not executed | Validation.OneVoterSuperMajorityIsAccepted | Validation.VoterSuperMajorityIsSubstantiated |

The as-written validator (`ValidSignedVote`, `ValidateSignedVote`) models the code as written. The corrected validator is `ValidSignedVoteByVoters`. Its SuperMajority check is `IsVoterSuperMajority`, which counts the distinct voters of the agreeing group. `ValidByVotersIsValid` shows that it only narrows what is accepted. The engine's own counting is unaffected: it keeps one vote per voter, so its counts are counts of voters.
