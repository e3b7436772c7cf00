/**
 The recursive validator: a signed vote is accepted only when its signature
 share verifies, every vote it embeds belongs to its generation and is itself
 valid, every SuperMajority claim it makes is substantiated (more than `t`
 unpacked votes, not necessarily distinct voters; see `ValidSignedVoteByVoters`),
 and it does not conflict with the vote already logged for its voter.

 `ValidSignedVote` states acceptance declaratively; `ValidateSignedVote`
 follows the fail-fast order of the checks and reports the first violation.
 Embedded votes are visited in any order. Validation reads the engine state and
 never returns a new one.
 */
module Validation {
  import opened Votes
  import opened Counting
  import opened Engine

  /** The voter already has a logged vote and neither vote supersedes the other. */
  predicate ConflictsWithLoggedVote<T>(c: Consensus<T>, lib: VoteLib<T>, signedVote: SignedVote<T>)
  {
    && signedVote.voter in c.votes
    && !lib.supersedes(signedVote, c.votes[signedVote.voter])
    && !lib.supersedes(c.votes[signedVote.voter], signedVote)
  }

  /** Every per-proposition signature of a SuperMajority ballot verifies against
      its claimed signer. */
  predicate ProposalSignaturesVerify<T>(c: Consensus<T>, proposals: map<T, (NodeId, SigShare)>)
  {
    forall p :: p in proposals ==> c.elders.verify(proposals[p].0, PropositionMessage(p), proposals[p].1)
  }

  predicate ValidSignedVote<T>(c: Consensus<T>, lib: VoteLib<T>, signedVote: SignedVote<T>)
    decreases signedVote, 2
  {
    && c.elders.verify(signedVote.voter, VoteMessage(signedVote.vote), signedVote.sig)
    && ValidVote(c, lib, signedVote.vote)
    && !ConflictsWithLoggedVote(c, lib, signedVote)
  }

  predicate ValidVote<T>(c: Consensus<T>, lib: VoteLib<T>, vote: Vote<T>)
    decreases vote, 1
  {
    match vote.ballot
    case Propose(_) => true
    case Merge(_) => ValidChildren(c, lib, vote)
    case SuperMajority(votes, proposals) =>
      && IsSuperMajority(Threshold(c), UnpackAll(votes))
      && Proposals(vote) == proposals.Keys
      && ProposalSignaturesVerify(c, proposals)
      && ValidChildren(c, lib, vote)
  }

  /** Every embedded vote shares the generation of `vote` and is valid. */
  predicate ValidChildren<T>(c: Consensus<T>, lib: VoteLib<T>, vote: Vote<T>)
    decreases vote, 0
  {
    forall child :: child in Children(vote.ballot) ==>
      child.vote.gen == vote.gen && ValidSignedVote(c, lib, child)
  }

  /** `validate_vote_supersedes_existing_vote`. */
  function ValidateVoteSupersedesExistingVote<T>(c: Consensus<T>, lib: VoteLib<T>, signedVote: SignedVote<T>): (r: Outcome)
    ensures r.Fail? <==> ConflictsWithLoggedVote(c, lib, signedVote)
    ensures r.Fail? ==> r.error == ExistingVoteIncompatibleWithNewVote
    ensures signedVote.voter !in c.votes ==> r == Pass
  {
    if && signedVote.voter in c.votes
       && !lib.supersedes(signedVote, c.votes[signedVote.voter])
       && !lib.supersedes(c.votes[signedVote.voter], signedVote)
    then Fail(ExistingVoteIncompatibleWithNewVote)
    else Pass
  }

  /** `validate_signed_vote`: signature, then the vote, then the logged vote. */
  method ValidateSignedVote<T>(c: Consensus<T>, lib: VoteLib<T>, signedVote: SignedVote<T>) returns (r: Outcome)
    ensures r.Pass? <==> ValidSignedVote(c, lib, signedVote)
    ensures !c.elders.verify(signedVote.voter, VoteMessage(signedVote.vote), signedVote.sig) ==>
              r == Fail(InvalidElderSignature)
    ensures (exists child :: child in Children(signedVote.vote.ballot) && child.vote.gen != signedVote.vote.gen) ==>
              r.Fail?
    ensures && c.elders.verify(signedVote.voter, VoteMessage(signedVote.vote), signedVote.sig)
            && ValidVote(c, lib, signedVote.vote)
            && ConflictsWithLoggedVote(c, lib, signedVote)
            ==> r == Fail(ExistingVoteIncompatibleWithNewVote)
    ensures r.Fail? && r.error.MergedVotesMustBeFromSameGen? ==> r.error.childGen != r.error.mergeGen
    decreases signedVote, 2
  {
    r := VerifySigShare(c, VoteMessage(signedVote.vote), signedVote.voter, signedVote.sig);
    if r.Fail? {
      return;
    }
    r := ValidateVote(c, lib, signedVote.vote);
    if r.Fail? {
      return;
    }
    r := ValidateVoteSupersedesExistingVote(c, lib, signedVote);
  }

  /** `validate_vote`: Propose ballots pass; a SuperMajority ballot must be a
      real supermajority, claim exactly its own proposals and carry valid
      per-proposition signatures before its embedded votes are checked. */
  method ValidateVote<T>(c: Consensus<T>, lib: VoteLib<T>, vote: Vote<T>) returns (r: Outcome)
    ensures r.Pass? <==> ValidVote(c, lib, vote)
    ensures vote.ballot.Propose? ==> r == Pass
    ensures vote.ballot.SuperMajority? && !IsSuperMajority(Threshold(c), UnpackAll(vote.ballot.votes)) ==>
              r == Fail(SuperMajorityBallotIsNotSuperMajority)
    ensures && vote.ballot.SuperMajority? && IsSuperMajority(Threshold(c), UnpackAll(vote.ballot.votes))
            && Proposals(vote) != vote.ballot.proposals.Keys
            ==> r == Fail(SuperMajorityProposalsDoesNotMatchVoteProposals)
    ensures && vote.ballot.SuperMajority? && IsSuperMajority(Threshold(c), UnpackAll(vote.ballot.votes))
            && Proposals(vote) == vote.ballot.proposals.Keys
            && !ProposalSignaturesVerify(c, vote.ballot.proposals)
            ==> r == Fail(InvalidElderSignature)
    ensures r.Fail? && r.error.MergedVotesMustBeFromSameGen? ==> r.error.childGen != r.error.mergeGen
    decreases vote, 1
  {
    match vote.ballot
    case Propose(_) =>
      r := Pass;
    case Merge(_) =>
      r := ValidateChildren(c, lib, vote);
    case SuperMajority(votes, proposals) =>
      if !IsSuperMajority(Threshold(c), UnpackAll(votes)) {
        r := Fail(SuperMajorityBallotIsNotSuperMajority);
      } else if Proposals(vote) != proposals.Keys {
        r := Fail(SuperMajorityProposalsDoesNotMatchVoteProposals);
      } else {
        r := ValidateProposalSignatures(c, proposals);
        if r.Pass? {
          r := ValidateChildren(c, lib, vote);
        }
      }
  }

  /** The `try_for_each` over the per-proposition signatures. */
  method ValidateProposalSignatures<T>(c: Consensus<T>, proposals: map<T, (NodeId, SigShare)>) returns (r: Outcome)
    ensures r.Pass? <==> ProposalSignaturesVerify(c, proposals)
    ensures r.Fail? ==> r.error == InvalidElderSignature
  {
    var rest := proposals.Keys;
    while rest != {}
      invariant rest <= proposals.Keys
      invariant forall p :: p in proposals && p !in rest ==>
                  c.elders.verify(proposals[p].0, PropositionMessage(p), proposals[p].1)
      decreases rest
    {
      var p :| p in rest;
      var (id, sig) := proposals[p];
      var checked := VerifySigShare(c, PropositionMessage(p), id, sig);
      if checked.Fail? {
        return Fail(InvalidElderSignature);
      }
      rest := rest - {p};
    }
    return Pass;
  }

  /** The loop over the embedded votes of a Merge or SuperMajority ballot: a
      vote from another generation is reported before it is validated. */
  method ValidateChildren<T>(c: Consensus<T>, lib: VoteLib<T>, vote: Vote<T>) returns (r: Outcome)
    ensures r.Pass? <==> ValidChildren(c, lib, vote)
    ensures r.Fail? && r.error.MergedVotesMustBeFromSameGen? ==> r.error.childGen != r.error.mergeGen
    decreases vote, 0
  {
    var rest := Children(vote.ballot);
    while rest != {}
      invariant rest <= Children(vote.ballot)
      invariant forall child :: child in Children(vote.ballot) && child !in rest ==>
                  child.vote.gen == vote.gen && ValidSignedVote(c, lib, child)
      decreases rest
    {
      var child :| child in rest;
      if child.vote.gen != vote.gen {
        return Fail(MergedVotesMustBeFromSameGen(child.vote.gen, vote.gen));
      }
      r := ValidateSignedVote(c, lib, child);
      if r.Fail? {
        return;
      }
      rest := rest - {child};
    }
    return Pass;
  }

  // ---------------------------------------------------------------------------
  // What an accepted vote guarantees

  /** Every vote a valid vote unpacks to belongs to its generation and is
      valid itself. */
  lemma {:induction false} ValidVoteUnpacksToValidVotes<T>(c: Consensus<T>, lib: VoteLib<T>,
                                                           signedVote: SignedVote<T>, u: SignedVote<T>)
    ensures ValidSignedVote(c, lib, signedVote) && u in Unpack(signedVote) ==>
              u.vote.gen == signedVote.vote.gen && ValidSignedVote(c, lib, u)
    decreases signedVote
  {
    if ValidSignedVote(c, lib, signedVote) && u in Unpack(signedVote) && u != signedVote {
      var child := UnpackedThroughChild(signedVote, u);
      ValidChildOfValidVote(c, lib, signedVote, child);
      assert !signedVote.vote.ballot.Propose?;
      assert child in signedVote.vote.ballot.votes;
      ValidVoteUnpacksToValidVotes(c, lib, child, u);
    }
  }

  /** The embedded votes of a valid vote share its generation and are valid. */
  lemma ValidChildOfValidVote<T>(c: Consensus<T>, lib: VoteLib<T>, signedVote: SignedVote<T>, child: SignedVote<T>)
    ensures ValidSignedVote(c, lib, signedVote) && child in Children(signedVote.vote.ballot) ==>
              child.vote.gen == signedVote.vote.gen && ValidSignedVote(c, lib, child)
  {
    if ValidSignedVote(c, lib, signedVote) {
      assert ValidVote(c, lib, signedVote.vote);
      assert ValidChildren(c, lib, signedVote.vote);
    }
  }

  /** A SuperMajority ballot that passes validation is substantiated: more than
      `t` of the votes it unpacks to agree on one proposal set, and it claims
      exactly its own proposals. */
  lemma AcceptedSuperMajorityIsSubstantiated<T>(c: Consensus<T>, lib: VoteLib<T>, signedVote: SignedVote<T>)
    ensures ValidSignedVote(c, lib, signedVote) && signedVote.vote.ballot.SuperMajority? ==>
              && (exists v :: v in UnpackAll(signedVote.vote.ballot.votes) &&
                    |Group(UnpackAll(signedVote.vote.ballot.votes), Proposals(v.vote))| > Threshold(c))
              && Proposals(signedVote.vote) == signedVote.vote.ballot.proposals.Keys
  {
    if ValidSignedVote(c, lib, signedVote) && signedVote.vote.ballot.SuperMajority? {
      var votes := signedVote.vote.ballot.votes;
      assert ValidVote(c, lib, signedVote.vote);
      assert IsSuperMajority(Threshold(c), UnpackAll(votes));
      SuperMajorityMeansAgreeingGroup(Threshold(c), UnpackAll(votes));
    }
  }

  /** What the proposal-key check needs of the canonicalisation: simplifying a
      SuperMajority ballot yields a SuperMajority ballot with the same
      per-proposition claims and the same proposals. */
  ghost predicate SimplifyKeepsClaims<T(!new)>(lib: VoteLib<T>)
  {
    forall b: Ballot<T> :: b.SuperMajority? ==>
      && lib.simplify(b).SuperMajority?
      && lib.simplify(b).proposals == b.proposals
      && Proposals(Vote(0, lib.simplify(b))) == Proposals(Vote(0, b))
  }

  /** The SuperMajority ballot this node builds names exactly the proposals of
      the votes it wraps, each claimed by this node with its own share, so it
      passes the proposal-key check of the validator. The vote it signs does
      too when `simplify` keeps the claims. */
  lemma BuiltSuperMajorityClaimsItsProposals<T(!new)>(c: Consensus<T>, lib: VoteLib<T>, gen: Generation)
    ensures var b := SuperMajorityBallot(c);
            && Proposals(Vote(gen, b)) == b.proposals.Keys
            && forall p :: p in b.proposals ==> b.proposals[p] == (Id(c), Sign(c, PropositionMessage(p)))
    ensures SimplifyKeepsClaims(lib) ==>
              var v := BuildSuperMajorityVote(c, lib, gen).vote;
              && v.ballot.SuperMajority?
              && Proposals(v) == v.ballot.proposals.Keys
              && forall p :: p in v.ballot.proposals ==> v.ballot.proposals[p] == (Id(c), Sign(c, PropositionMessage(p)))
  {
    var b := SuperMajorityBallot(c);
    assert Proposals(Vote(gen, b)) == ProposalsOf(LoggedVotes(c));
    if SimplifyKeepsClaims(lib) {
      var s := lib.simplify(b);
      assert Proposals(Vote(0, s)) == Proposals(Vote(0, b));
      assert Proposals(Vote(gen, s)) == Proposals(Vote(0, s));
      assert Proposals(Vote(gen, b)) == Proposals(Vote(0, b));
    }
  }

  // ---------------------------------------------------------------------------
  // Counting voters instead of votes

  /** A supermajority of committee members: more than `t` distinct voters
      stand behind one proposal set. */
  ghost predicate IsVoterSuperMajority<T>(t: nat, s: set<SignedVote<T>>)
  {
    exists v :: v in s && |Voters(Group(s, Proposals(v.vote)))| > t
  }

  /** The validator with the SuperMajority re-check counting distinct voters;
      everything else is as in `ValidSignedVote`. */
  ghost predicate ValidSignedVoteByVoters<T>(c: Consensus<T>, lib: VoteLib<T>, signedVote: SignedVote<T>)
    decreases signedVote, 2
  {
    && c.elders.verify(signedVote.voter, VoteMessage(signedVote.vote), signedVote.sig)
    && ValidVoteByVoters(c, lib, signedVote.vote)
    && !ConflictsWithLoggedVote(c, lib, signedVote)
  }

  ghost predicate ValidVoteByVoters<T>(c: Consensus<T>, lib: VoteLib<T>, vote: Vote<T>)
    decreases vote, 1
  {
    match vote.ballot
    case Propose(_) => true
    case Merge(_) => ValidChildrenByVoters(c, lib, vote)
    case SuperMajority(votes, proposals) =>
      && IsVoterSuperMajority(Threshold(c), UnpackAll(votes))
      && Proposals(vote) == proposals.Keys
      && ProposalSignaturesVerify(c, proposals)
      && ValidChildrenByVoters(c, lib, vote)
  }

  ghost predicate ValidChildrenByVoters<T>(c: Consensus<T>, lib: VoteLib<T>, vote: Vote<T>)
    decreases vote, 0
  {
    forall child :: child in Children(vote.ballot) ==>
      child.vote.gen == vote.gen && ValidSignedVoteByVoters(c, lib, child)
  }

  /** More than `t` distinct voters in one group make more than `t` votes. */
  lemma VoterSuperMajorityIsSuperMajority<T>(t: nat, s: set<SignedVote<T>>)
    ensures IsVoterSuperMajority(t, s) ==> IsSuperMajority(t, s)
  {
    if IsVoterSuperMajority(t, s) {
      var v :| v in s && |Voters(Group(s, Proposals(v.vote)))| > t;
      var g := Group(s, Proposals(v.vote));
      ImageCardinality(g);
      SuperMajorityMeansAgreeingGroup(t, s);
    }
  }

  /** The corrected validator accepts only what the validator as written
      accepts. */
  lemma {:induction false} ValidByVotersIsValid<T>(c: Consensus<T>, lib: VoteLib<T>, signedVote: SignedVote<T>)
    ensures ValidSignedVoteByVoters(c, lib, signedVote) ==> ValidSignedVote(c, lib, signedVote)
    decreases signedVote
  {
    if ValidSignedVoteByVoters(c, lib, signedVote) {
      var vote := signedVote.vote;
      assert ValidVoteByVoters(c, lib, vote);
      if !vote.ballot.Propose? {
        assert ValidChildrenByVoters(c, lib, vote);
        forall child | child in Children(vote.ballot)
          ensures child.vote.gen == vote.gen && ValidSignedVote(c, lib, child)
        {
          ValidByVotersIsValid(c, lib, child);
        }
        assert ValidChildren(c, lib, vote);
        if vote.ballot.SuperMajority? {
          VoterSuperMajorityIsSuperMajority(Threshold(c), UnpackAll(vote.ballot.votes));
        }
      }
    }
  }

  /** Under the corrected validator an accepted SuperMajority ballot is backed
      by more than `t` distinct committee members agreeing on one proposal
      set, and it claims exactly its own proposals. */
  lemma VoterSuperMajorityIsSubstantiated<T>(c: Consensus<T>, lib: VoteLib<T>, signedVote: SignedVote<T>)
    ensures ValidSignedVoteByVoters(c, lib, signedVote) && signedVote.vote.ballot.SuperMajority? ==>
              && (exists v :: v in UnpackAll(signedVote.vote.ballot.votes) &&
                    |Voters(Group(UnpackAll(signedVote.vote.ballot.votes), Proposals(v.vote)))| > Threshold(c))
              && Proposals(signedVote.vote) == signedVote.vote.ballot.proposals.Keys
              && ValidSignedVote(c, lib, signedVote)
  {
    if ValidSignedVoteByVoters(c, lib, signedVote) && signedVote.vote.ballot.SuperMajority? {
      assert ValidVoteByVoters(c, lib, signedVote.vote);
      ValidByVotersIsValid(c, lib, signedVote);
    }
  }

  /** The Propose vote of `voter` for `x`, its Merge over it, and the
      SuperMajority vote over that Merge, all at generation 1. */
  function OneVoterPropose<T>(voter: NodeId, x: T, sp: SigShare): SignedVote<T>
  {
    SignedVote(voter, sp, Vote(1, Propose(x)))
  }

  function OneVoterMerge<T>(voter: NodeId, x: T, sp: SigShare, sm: SigShare): SignedVote<T>
  {
    SignedVote(voter, sm, Vote(1, Merge({OneVoterPropose(voter, x, sp)})))
  }

  function OneVoterSuperMajority<T>(voter: NodeId, x: T, sp: SigShare, sm: SigShare, ss: SigShare,
                                    w: (NodeId, SigShare)): SignedVote<T>
  {
    SignedVote(voter, ss, Vote(1, SuperMajority({OneVoterMerge(voter, x, sp, sm)}, map[x := w])))
  }

  /** The SuperMajority ballot of one voter unpacks to two votes of that voter
      with the same proposal set. */
  lemma OneVoterUnpacks<T>(voter: NodeId, x: T, sp: SigShare, sm: SigShare)
    ensures var p, m := OneVoterPropose(voter, x, sp), OneVoterMerge(voter, x, sp, sm);
            && UnpackAll({m}) == {m, p} && p != m
            && Proposals(p.vote) == {x} && Proposals(m.vote) == {x}
            && Voters({m, p}) == {voter}
  {
    var p, m := OneVoterPropose(voter, x, sp), OneVoterMerge(voter, x, sp, sm);
    assert Unpack(p) == {p};
    assert Unpack(m) == {m, p};
  }

  /** Two votes with one proposal set exceed a threshold of 1, however many
      voters cast them. */
  lemma TwoAgreeingVotes<T>(a: SignedVote<T>, b: SignedVote<T>)
    requires a != b && Proposals(a.vote) == Proposals(b.vote)
    ensures IsSuperMajority(1, {a, b})
  {
    var all := {a, b};
    assert Group(all, Proposals(a.vote)) == all;
    assert |all| == 2;
    var m := Tally(all);
    assert m[Proposals(a.vote)] in m.Values;
  }

  /** Votes of a single voter are never a supermajority of voters at a
      threshold of 1. */
  lemma OneVoterIsNoVoterSuperMajority<T>(s: set<SignedVote<T>>, voter: NodeId)
    requires Voters(s) <= {voter}
    ensures !IsVoterSuperMajority(1, s)
  {
    forall v | v in s
      ensures |Voters(Group(s, Proposals(v.vote)))| <= 1
    {
      var vs := Voters(Group(s, Proposals(v.vote)));
      assert vs <= {voter};
      if vs != {} {
        assert vs == {voter};
      }
    }
  }

  /** A signed Propose vote of a voter without a logged vote is valid. */
  lemma ValidFreshPropose<T>(c: Consensus<T>, lib: VoteLib<T>, p: SignedVote<T>)
    requires p.vote.ballot.Propose? && p.voter !in c.votes
    requires c.elders.verify(p.voter, VoteMessage(p.vote), p.sig)
    ensures ValidSignedVote(c, lib, p)
  {
  }

  /** A signed Merge over one valid vote of its generation, by a voter without a
      logged vote, is valid. */
  lemma ValidFreshMergeOfOne<T>(c: Consensus<T>, lib: VoteLib<T>, m: SignedVote<T>, p: SignedVote<T>)
    requires m.vote.ballot == Merge({p}) && p.vote.gen == m.vote.gen && ValidSignedVote(c, lib, p)
    requires m.voter !in c.votes
    requires c.elders.verify(m.voter, VoteMessage(m.vote), m.sig)
    ensures ValidSignedVote(c, lib, m)
  {
    assert ValidChildren(c, lib, m.vote);
  }

  /** A signed SuperMajority over one valid vote of its generation, by a voter
      without a logged vote, is valid once its own three checks pass. */
  lemma ValidFreshSuperMajorityOfOne<T>(c: Consensus<T>, lib: VoteLib<T>, sv: SignedVote<T>, m: SignedVote<T>)
    requires sv.vote.ballot.SuperMajority? && sv.vote.ballot.votes == {m}
    requires m.vote.gen == sv.vote.gen && ValidSignedVote(c, lib, m)
    requires IsSuperMajority(Threshold(c), UnpackAll({m}))
    requires Proposals(sv.vote) == sv.vote.ballot.proposals.Keys
    requires ProposalSignaturesVerify(c, sv.vote.ballot.proposals)
    requires sv.voter !in c.votes
    requires c.elders.verify(sv.voter, VoteMessage(sv.vote), sv.sig)
    ensures ValidSignedVote(c, lib, sv)
  {
    assert ValidChildren(c, lib, sv.vote);
  }

  /** The corrected validator rejects a SuperMajority ballot whose unpacked
      votes are no supermajority of voters. */
  lemma NoVoterSuperMajorityIsRejected<T>(c: Consensus<T>, lib: VoteLib<T>, sv: SignedVote<T>)
    requires sv.vote.ballot.SuperMajority?
    requires !IsVoterSuperMajority(Threshold(c), UnpackAll(sv.vote.ballot.votes))
    ensures !ValidSignedVoteByVoters(c, lib, sv)
  {
  }

  /** A ballot over one embedded vote has that vote's proposals. */
  lemma ProposalsOfOneChild<T>(v: Vote<T>, m: SignedVote<T>)
    requires !v.ballot.Propose? && Children(v.ballot) == {m}
    ensures Proposals(v) == Proposals(m.vote)
  {
  }

  /** Two votes of one voter have that single voter. */
  lemma VotersOfPair<T>(a: SignedVote<T>, b: SignedVote<T>, voter: NodeId)
    requires a.voter == voter && b.voter == voter
    ensures Voters({a, b}) == {voter}
  {
    assert a in {a, b};
  }

  /** The shape of the counterexample, for any votes: a SuperMajority by
      `sv.voter` over its own Merge over its own Propose vote passes the
      validator as written. */
  lemma SelfSuperMajorityIsAccepted<T>(c: Consensus<T>, lib: VoteLib<T>, sv: SignedVote<T>, m: SignedVote<T>, p: SignedVote<T>)
    requires Threshold(c) == 1 && sv.voter !in c.votes
    requires p.vote.ballot.Propose? && m.vote.ballot == Merge({p})
    requires sv.vote.ballot.SuperMajority? && sv.vote.ballot.votes == {m}
    requires sv.vote.ballot.proposals.Keys == Proposals(p.vote)
    requires p.voter == sv.voter && m.voter == sv.voter
    requires p.vote.gen == m.vote.gen == sv.vote.gen
    requires UnpackAll({m}) == {m, p} && p != m
    requires c.elders.verify(sv.voter, VoteMessage(sv.vote), sv.sig)
    requires c.elders.verify(m.voter, VoteMessage(m.vote), m.sig)
    requires c.elders.verify(p.voter, VoteMessage(p.vote), p.sig)
    requires ProposalSignaturesVerify(c, sv.vote.ballot.proposals)
    ensures ValidSignedVote(c, lib, sv)
  {
    ProposalsOfOneChild(m.vote, p);
    ProposalsOfOneChild(sv.vote, m);
    TwoAgreeingVotes(m, p);
    ValidFreshPropose(c, lib, p);
    ValidFreshMergeOfOne(c, lib, m, p);
    ValidFreshSuperMajorityOfOne(c, lib, sv, m);
  }

  /** The same ballot fails the corrected validator: all its unpacked votes
      come from one voter. */
  lemma SelfSuperMajorityIsRejectedByVoters<T>(c: Consensus<T>, lib: VoteLib<T>, sv: SignedVote<T>, m: SignedVote<T>, p: SignedVote<T>)
    requires Threshold(c) == 1
    requires sv.vote.ballot.SuperMajority? && sv.vote.ballot.votes == {m}
    requires p.voter == sv.voter && m.voter == sv.voter
    requires UnpackAll({m}) == {m, p}
    ensures Voters(UnpackAll(sv.vote.ballot.votes)) == {sv.voter}
    ensures !ValidSignedVoteByVoters(c, lib, sv)
  {
    VotersOfPair(m, p, sv.voter);
    OneVoterIsNoVoterSuperMajority({m, p}, sv.voter);
    NoVoterSuperMajorityIsRejected(c, lib, sv);
  }

  /** The SuperMajority re-check as written counts votes: with `t = 1`, no
      logged votes and the four signatures accepted, one voter's SuperMajority
      over its own two votes is accepted, while the corrected validator
      rejects it. */
  lemma OneVoterSuperMajorityIsAccepted<T>(c: Consensus<T>, lib: VoteLib<T>, voter: NodeId, x: T,
                                           sp: SigShare, sm: SigShare, ss: SigShare, w: (NodeId, SigShare))
    requires Threshold(c) == 1 && c.votes == map[]
    requires && c.elders.verify(voter, VoteMessage(OneVoterSuperMajority<T>(voter, x, sp, sm, ss, w).vote), ss)
             && c.elders.verify(voter, VoteMessage(OneVoterMerge(voter, x, sp, sm).vote), sm)
             && c.elders.verify(voter, VoteMessage(OneVoterPropose(voter, x, sp).vote), sp)
             && c.elders.verify(w.0, PropositionMessage(x), w.1)
    ensures var sv := OneVoterSuperMajority<T>(voter, x, sp, sm, ss, w);
            && ValidSignedVote(c, lib, sv)
            && Voters(UnpackAll(sv.vote.ballot.votes)) == {voter}
            && !ValidSignedVoteByVoters(c, lib, sv)
  {
    var p, m := OneVoterPropose(voter, x, sp), OneVoterMerge(voter, x, sp, sm);
    var sv := OneVoterSuperMajority<T>(voter, x, sp, sm, ss, w);
    OneVoterUnpacks(voter, x, sp, sm);
    assert sv.vote.ballot.proposals.Keys == {x};
    SelfSuperMajorityIsAccepted(c, lib, sv, m, p);
    SelfSuperMajorityIsRejectedByVoters(c, lib, sv, m, p);
  }
}
