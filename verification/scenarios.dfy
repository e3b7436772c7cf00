/**
 Worked examples of the engine's decisions on small committees, with
 propositions as strings. Each example fixes the committee size, the threshold,
 this node's id and the logged votes; the signature shares, the signing and
 verification functions and `supersedes` are left arbitrary, and `simplify` is
 constrained only where the example needs it.
 */
module Scenarios {
  import opened Votes
  import opened Counting
  import opened Engine

  /** The generation-1 Propose vote of `voter` for `p`, signed with `sig`. */
  function ProposeVote(voter: NodeId, sig: SigShare, p: string): SignedVote<string>
  {
    SignedVote(voter, sig, Vote(1, Propose(p)))
  }

  /** The values of a map over three distinct keys. */
  lemma ValuesOfThree<V>(i: NodeId, j: NodeId, k: NodeId, a: V, b: V, c: V)
    requires i != j && j != k && i != k
    ensures map[i := a, j := b, k := c].Values == {a, b, c}
  {
    var m := map[i := a, j := b, k := c];
    assert m[i] == a && m[j] == b && m[k] == c;
    forall v | v in m.Values
      ensures v in {a, b, c}
    {
      var x :| x in m && m[x] == v;
    }
  }

  /** Three votes of three different voters have three voters. */
  lemma ThreeVoters<T>(a: SignedVote<T>, b: SignedVote<T>, c: SignedVote<T>)
    requires a.voter != b.voter && b.voter != c.voter && a.voter != c.voter
    ensures Voters({a, b, c}) == {a.voter, b.voter, c.voter}
    ensures |Voters({a, b, c})| == 3
  {
    assert Voters({a, b, c}) == {a.voter, b.voter, c.voter};
  }

  /** Three votes of different voters with one proposal set form a group of
      three, which exceeds a threshold of 1. */
  lemma ThreeAgreeingVotes<T>(a: SignedVote<T>, b: SignedVote<T>, c: SignedVote<T>)
    requires a.voter != b.voter && b.voter != c.voter && a.voter != c.voter
    requires Proposals(a.vote) == Proposals(b.vote) == Proposals(c.vote)
    ensures IsSuperMajority(1, {a, b, c})
  {
    var all := {a, b, c};
    assert Group(all, Proposals(a.vote)) == all;
    assert |all| == 3;
    var m := Tally(all);
    assert m[Proposals(a.vote)] in m.Values;
  }

  /** Three votes of different voters with pairwise different proposal sets:
      no group has more than one vote. */
  lemma ThreeRivalVotes<T>(a: SignedVote<T>, b: SignedVote<T>, c: SignedVote<T>)
    requires a.voter != b.voter && b.voter != c.voter && a.voter != c.voter
    requires Proposals(a.vote) != Proposals(b.vote) && Proposals(b.vote) != Proposals(c.vote)
    requires Proposals(a.vote) != Proposals(c.vote)
    ensures MostVotes({a, b, c}) <= 1
  {
    var all := {a, b, c};
    var m := Tally(all);
    forall k | k in m
      ensures m[k] <= 1
    {
      var v :| v in all && Proposals(v.vote) == k;
      assert Group(all, k) == {v};
    }
  }

  /** A state that logs only Propose votes, each under its own voter and
      within the committee, meets the engine invariant. */
  lemma ProposalsOnlyWellFormed<T>(c: Consensus<T>)
    requires Id(c) < c.nElders
    requires forall k :: k in c.votes ==> k < c.nElders && c.votes[k].voter == k && c.votes[k].vote.ballot.Propose?
    ensures WellFormed(c)
  {
    forall k | k in c.votes
      ensures Voters(Unpack(c.votes[k])) <= c.votes.Keys
    {
      assert Unpack(c.votes[k]) == {c.votes[k]};
    }
  }

  /** Four elders, threshold 1: elders 0, 1 and 2 propose "A" and elder 3 is
      silent. Three agreeing votes exceed the threshold, nobody has sent a
      SuperMajority ballot yet, so elder 0 broadcasts its SuperMajority vote. */
  lemma SupermajorityScenario(c: Consensus<string>, lib: VoteLib<string>, s0: SigShare, s1: SigShare, s2: SigShare)
    requires Id(c) == 0 && Threshold(c) == 1 && c.nElders == 4
    requires c.votes == map[0 := ProposeVote(0, s0, "A"), 1 := ProposeVote(1, s1, "A"), 2 := ProposeVote(2, s2, "A")]
    ensures WellFormed(c)
    ensures IsSuperMajority(1, LoggedVotes(c))
    ensures |Voters(LoggedVotes(c))| <= 4
    ensures Respond(c, lib, ProposeVote(2, s2, "A"), 1) == Broadcast(BuildSuperMajorityVote(c, lib, 1))
  {
    var p0, p1, p2 := ProposeVote(0, s0, "A"), ProposeVote(1, s1, "A"), ProposeVote(2, s2, "A");
    var all := {p0, p1, p2};
    ProposalsOnlyWellFormed(c);
    assert LoggedVotes(c) == all by {
      ValuesOfThree(0, 1, 2, p0, p1, p2);
    }
    assert |Voters(all)| <= 4 && IsSuperMajority(1, all) && !IsSplitVote(1, 4, all) by {
      ThreeVoters(p0, p1, p2);
      ThreeAgreeingVotes(p0, p1, p2);
    }
    NoSuperMajorityBallots(1, all);
    assert !IsSuperMajorityBallot(c.votes[Id(c)].vote) by {
      assert c.votes[0] == p0;
    }
    SuperMajorityIsBroadcast(c, lib, p2, 1);
  }

  /** The third branch of the reducer, for a node whose own vote is not yet a
      SuperMajority ballot. */
  lemma SuperMajorityIsBroadcast<T>(c: Consensus<T>, lib: VoteLib<T>, incoming: SignedVote<T>, gen: Generation)
    requires |Voters(LoggedVotes(c))| <= c.nElders
    requires !IsSplitVote(Threshold(c), c.nElders, LoggedVotes(c))
    requires !IsSuperMajorityOverSuperMajorities(Threshold(c), LoggedVotes(c))
    requires IsSuperMajority(Threshold(c), LoggedVotes(c))
    requires Id(c) in c.votes ==> !IsSuperMajorityBallot(c.votes[Id(c)].vote)
    ensures Respond(c, lib, incoming, gen) == Broadcast(BuildSuperMajorityVote(c, lib, gen))
  {
  }

  /** Without SuperMajority ballots there is no supermajority over
      supermajorities. */
  lemma NoSuperMajorityBallots<T>(t: nat, s: set<SignedVote<T>>)
    requires forall v :: v in s ==> !IsSuperMajorityBallot(v.vote)
    ensures !IsSuperMajorityOverSuperMajorities(t, s)
  {
    assert SuperMajorityVotes(s) == {};
    assert Tally(SuperMajorityVotes(s)) == map[];
  }

  /** Three elders, threshold 1: each proposes something different. Everyone
      has voted, yet the best proposal set has one vote, no more than the
      threshold: the vote is split, and elder 0, whose own vote was "A",
      broadcasts a Merge vote over all three votes. */
  lemma SplitVoteScenario(c: Consensus<string>, lib: VoteLib<string>, s0: SigShare, s1: SigShare, s2: SigShare)
    requires Id(c) == 0 && Threshold(c) == 1 && c.nElders == 3
    requires c.votes == map[0 := ProposeVote(0, s0, "A"), 1 := ProposeVote(1, s1, "B"), 2 := ProposeVote(2, s2, "C")]
    requires lib.simplify(Merge(LoggedVotes(c))) == Merge(LoggedVotes(c))
    ensures WellFormed(c)
    ensures |Voters(LoggedVotes(c))| <= 3
    ensures IsSplitVote(1, 3, LoggedVotes(c))
    ensures Respond(c, lib, ProposeVote(2, s2, "C"), 1) == Broadcast(MergeVote(c, lib, 1))
  {
    var p0, p1, p2 := ProposeVote(0, s0, "A"), ProposeVote(1, s1, "B"), ProposeVote(2, s2, "C");
    var all := {p0, p1, p2};
    ProposalsOnlyWellFormed(c);
    ValuesOfThree(0, 1, 2, p0, p1, p2);
    ThreeVoters(p0, p1, p2);
    assert Proposals(p0.vote) == {"A"} && Proposals(p1.vote) == {"B"} && Proposals(p2.vote) == {"C"};
    ThreeRivalVotes(p0, p1, p2);
    assert LoggedVotes(c) == all;
    assert IsSplitVote(1, 3, all);
    var merge := MergeVote(c, lib, 1);
    assert merge.vote.ballot == Merge(all);
    assert "B" in Proposals(merge.vote);
  }

  /** The SuperMajority ballot over three agreeing Propose votes, with one
      per-proposition signature. */
  function AgreedBallot(s0: SigShare, s1: SigShare, s2: SigShare, w: (NodeId, SigShare)): Ballot<string>
  {
    SuperMajority({ProposeVote(0, s0, "A"), ProposeVote(1, s1, "A"), ProposeVote(2, s2, "A")}, map["A" := w])
  }

  /** The values of a map over four distinct keys. */
  lemma ValuesOfFour<V>(i: NodeId, j: NodeId, k: NodeId, l: NodeId, a: V, b: V, c: V, d: V)
    requires i != j && i != k && i != l && j != k && j != l && k != l
    ensures map[i := a, j := b, k := c, l := d].Values == {a, b, c, d}
  {
    var m := map[i := a, j := b, k := c, l := d];
    assert m[i] == a && m[j] == b && m[k] == c && m[l] == d;
    forall v | v in m.Values
      ensures v in {a, b, c, d}
    {
      var x :| x in m && m[x] == v;
    }
  }

  /** A vote over the agreed ballot unpacks to itself and the three Propose
      votes it wraps. */
  lemma UnpackAgreed(s0: SigShare, s1: SigShare, s2: SigShare, w: (NodeId, SigShare), sv: SignedVote<string>)
    requires sv.vote.ballot == AgreedBallot(s0, s1, s2, w)
    ensures Voters(Unpack(sv)) == {sv.voter, 0, 1, 2}
  {
    var p0, p1, p2 := ProposeVote(0, s0, "A"), ProposeVote(1, s1, "A"), ProposeVote(2, s2, "A");
    assert Unpack(p0) == {p0} && Unpack(p1) == {p1} && Unpack(p2) == {p2};
    assert Children(sv.vote.ballot) == {p0, p1, p2};
    assert Unpack(sv) == {sv, p0, p1, p2};
  }

  /** The state of the decided example meets the engine invariant: every vote
      the SuperMajority votes embed comes from a logged voter. */
  lemma DecidedStateWellFormed(c: Consensus<string>, s0: SigShare, s1: SigShare, s2: SigShare,
                               w: (NodeId, SigShare), t1: SigShare, t2: SigShare, t3: SigShare)
    requires Id(c) == 0 && c.nElders == 4
    requires var b := AgreedBallot(s0, s1, s2, w);
             c.votes == map[0 := ProposeVote(0, s0, "A"), 1 := SignedVote(1, t1, Vote(1, b)),
                            2 := SignedVote(2, t2, Vote(1, b)), 3 := SignedVote(3, t3, Vote(1, b))]
    ensures WellFormed(c)
  {
    var b := AgreedBallot(s0, s1, s2, w);
    var p0 := ProposeVote(0, s0, "A");
    assert c.votes.Keys == {0, 1, 2, 3};
    forall k | k in c.votes
      ensures k < c.nElders && c.votes[k].voter == k && Voters(Unpack(c.votes[k])) <= c.votes.Keys
    {
      if k == 0 {
        assert Unpack(p0) == {p0};
      } else {
        assert c.votes[k].vote.ballot == b;
        UnpackAgreed(s0, s1, s2, w, c.votes[k]);
      }
    }
  }

  /** Four elders, threshold 1: elder 0, this node, proposed "A", and elders 1,
      2 and 3 have each sent a SuperMajority vote over the "A" proposals of
      elders 0, 1 and 2. The state is one the engine keeps; three agreeing
      SuperMajority votes exceed the threshold, so elder 0 decides. */
  lemma DecidedScenario(c: Consensus<string>, lib: VoteLib<string>, s0: SigShare, s1: SigShare, s2: SigShare,
                        w: (NodeId, SigShare), t1: SigShare, t2: SigShare, t3: SigShare)
    requires Id(c) == 0 && Threshold(c) == 1 && c.nElders == 4
    requires var b := AgreedBallot(s0, s1, s2, w);
             c.votes == map[0 := ProposeVote(0, s0, "A"), 1 := SignedVote(1, t1, Vote(1, b)),
                            2 := SignedVote(2, t2, Vote(1, b)), 3 := SignedVote(3, t3, Vote(1, b))]
    ensures WellFormed(c)
    ensures |Voters(LoggedVotes(c))| <= 4
    ensures Respond(c, lib, c.votes[3], 1) == Decided(BuildSuperMajorityVote(c, lib, 1))
  {
    var b := AgreedBallot(s0, s1, s2, w);
    var p0 := ProposeVote(0, s0, "A");
    var v1, v2, v3 := SignedVote(1, t1, Vote(1, b)), SignedVote(2, t2, Vote(1, b)), SignedVote(3, t3, Vote(1, b));
    DecidedStateWellFormed(c, s0, s1, s2, w, t1, t2, t3);
    VotersWithinElders(c);
    var all := {p0, v1, v2, v3};
    ValuesOfFour(0, 1, 2, 3, p0, v1, v2, v3);
    assert LoggedVotes(c) == all;
    assert SuperMajorityVotes(all) == {v1, v2, v3};
    ThreeAgreeingVotes(v1, v2, v3);
    SuperMajorityOverSuperMajoritiesIsSuperMajority(1, all);
    assert !IsSplitVote(1, 4, all);
  }
}
