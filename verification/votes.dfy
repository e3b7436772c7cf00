/**
 The vote data model the consensus engine is built on: ballots, votes, signed
 votes, and the two recursive flattenings of a signed vote (its proposal set and
 the set of elementary signed votes it references).

 The ordering relation `supersedes` and the canonicalisation `simplify` belong to
 the vote module as well; their rules are not part of this model, so they are
 carried as opaque function values in `VoteLib`, and nothing is assumed of them
 except where a contract names an assumption (`SimplifyKeepsVoters`,
 `SimplifyKeepsClaims`, and the requires of `SplitVoteScenario`).
 */
module Votes {

  /** Identity of a committee member (an elder). */
  type NodeId = nat

  /** The round counter; all votes compared or merged share one generation. */
  type Generation = nat

  /** A threshold-signature share, kept abstract. */
  type SigShare = nat

  /** The payload shape of a vote. */
  datatype Ballot<T> =
    | Propose(proposition: T)
    | Merge(votes: set<SignedVote<T>>)
    | SuperMajority(votes: set<SignedVote<T>>, proposals: map<T, (NodeId, SigShare)>)

  datatype Vote<T> = Vote(gen: Generation, ballot: Ballot<T>)

  datatype SignedVote<T> = SignedVote(voter: NodeId, sig: SigShare, vote: Vote<T>)

  /** The values that are serialised and signed: a whole vote, or one proposition
      (the per-proposition witnesses of a SuperMajority ballot). */
  datatype Message<T> = VoteMessage(vote: Vote<T>) | PropositionMessage(proposition: T)

  /** The vote module's helpers whose internals this model does not fix:
      `supersedes(a, b)` holds when `a` is a more advanced vote than `b`, and
      `simplify` canonicalises a freshly built ballot. */
  datatype VoteLib<!T> = VoteLib(
    supersedes: (SignedVote<T>, SignedVote<T>) -> bool,
    simplify: Ballot<T> -> Ballot<T>)

  /** The signed votes a ballot directly embeds. */
  function Children<T>(b: Ballot<T>): set<SignedVote<T>>
  {
    match b
    case Propose(_) => {}
    case Merge(vs) => vs
    case SuperMajority(vs, _) => vs
  }

  predicate IsSuperMajorityBallot<T>(v: Vote<T>)
  {
    v.ballot.SuperMajority?
  }

  /** The propositions reachable from a vote, down to its Propose leaves. */
  function Proposals<T>(v: Vote<T>): set<T>
    decreases v
  {
    match v.ballot
    case Propose(p) => {p}
    case Merge(vs) => set c, p | c in vs && p in Proposals(c.vote) :: p
    case SuperMajority(vs, _) => set c, p | c in vs && p in Proposals(c.vote) :: p
  }

  /** A signed vote together with every signed vote it transitively embeds. */
  function Unpack<T>(sv: SignedVote<T>): set<SignedVote<T>>
    decreases sv
  {
    {sv} + set c, u | c in Children(sv.vote.ballot) && u in Unpack(c) :: u
  }

  /** The union of `Unpack` over a set of signed votes. */
  function UnpackAll<T>(vs: set<SignedVote<T>>): set<SignedVote<T>>
  {
    set c, u | c in vs && u in Unpack(c) :: u
  }

  /** The propositions of the Propose leaves among a set of signed votes. */
  function LeafPropositions<T>(us: set<SignedVote<T>>): set<T>
  {
    set u | u in us && u.vote.ballot.Propose? :: u.vote.ballot.proposition
  }

  /** Both flattenings agree: the proposals of a vote are exactly the
      propositions of the Propose leaves it unpacks to. */
  lemma {:induction false} ProposalsAreLeaves<T>(sv: SignedVote<T>)
    ensures Proposals(sv.vote) == LeafPropositions(Unpack(sv))
    decreases sv
  {
    var cs := Children(sv.vote.ballot);
    forall c | c in cs
      ensures Proposals(c.vote) == LeafPropositions(Unpack(c))
    {
      ProposalsAreLeaves(c);
    }
    if sv.vote.ballot.Propose? {
      assert Unpack(sv) == {sv};
    } else {
      var leaves := LeafPropositions(Unpack(sv));
      forall p | p in Proposals(sv.vote)
        ensures p in leaves
      {
        var c :| c in cs && p in Proposals(c.vote);
        var u :| u in Unpack(c) && u.vote.ballot.Propose? && u.vote.ballot.proposition == p;
        assert u in Unpack(sv);
      }
      forall p | p in leaves
        ensures p in Proposals(sv.vote)
      {
        var u :| u in Unpack(sv) && u.vote.ballot.Propose? && u.vote.ballot.proposition == p;
        assert u != sv;
        var c :| c in cs && u in Unpack(c);
        assert p in LeafPropositions(Unpack(c));
      }
    }
  }

  /** A vote other than `sv` in `Unpack(sv)` comes from one of its children. */
  lemma UnpackedThroughChild<T>(sv: SignedVote<T>, u: SignedVote<T>) returns (child: SignedVote<T>)
    requires u in Unpack(sv) && u != sv
    ensures child in Children(sv.vote.ballot) && u in Unpack(child)
  {
    child :| child in Children(sv.vote.ballot) && u in Unpack(child);
  }

  /** Unpacking is closed: everything a member of `Unpack(sv)` unpacks to is
      already in `Unpack(sv)`. */
  lemma {:induction false} UnpackClosed<T>(sv: SignedVote<T>, u: SignedVote<T>)
    requires u in Unpack(sv)
    ensures Unpack(u) <= Unpack(sv)
    decreases sv
  {
    if u != sv {
      var c :| c in Children(sv.vote.ballot) && u in Unpack(c);
      UnpackClosed(c, u);
    }
  }
}
