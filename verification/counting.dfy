/**
 The counting predicates the engine evaluates over a set of signed votes:
 grouping by proposal set, supermajority, split vote, and supermajority over
 supermajorities. `t` is the committee threshold and `nElders` the committee size.
 */
module Counting {
  import opened Votes

  /** The distinct signers of a set of votes. */
  function Voters<T>(s: set<SignedVote<T>>): set<NodeId>
  {
    set v | v in s :: v.voter
  }

  /** The union of the proposal sets of a set of votes. */
  function ProposalsOf<T>(s: set<SignedVote<T>>): (r: set<T>)
    ensures forall v, p :: v in s && p in Proposals(v.vote) ==> p in r
    ensures forall p :: p in r ==> exists v :: v in s && p in Proposals(v.vote)
  {
    set v, p | v in s && p in Proposals(v.vote) :: p
  }

  /** The votes of `s` whose proposal set is exactly `k`. */
  function Group<T>(s: set<SignedVote<T>>, k: set<T>): set<SignedVote<T>>
  {
    set v | v in s && Proposals(v.vote) == k
  }

  /** The proposal sets that occur among the votes. */
  function ProposalSets<T>(s: set<SignedVote<T>>): set<set<T>>
  {
    set v | v in s :: Proposals(v.vote)
  }

  /** Reference grouping: each proposal set that occurs maps to the number of
      votes carrying it. */
  function Tally<T>(s: set<SignedVote<T>>): (m: map<set<T>, nat>)
    ensures forall v :: v in s ==> Proposals(v.vote) in m
    ensures forall k :: k in m ==> m[k] == |Group(s, k)| >= 1
  {
    var m := map k | k in ProposalSets(s) :: |Group(s, k)|;
    assert forall k :: k in m ==> m[k] >= 1 by {
      forall k | k in m
        ensures m[k] >= 1
      {
        var v :| v in s && Proposals(v.vote) == k;
        assert v in Group(s, k);
      }
    }
    m
  }

  /** Sum of the values of a map (specification only). */
  ghost function SumValues<K>(m: map<K, nat>): nat
    decreases m.Keys
  {
    if m == map[] then 0
    else
      var k :| k in m;
      m[k] + SumValues(m - {k})
  }

  lemma {:induction false} MaxExists(s: set<nat>)
    requires s != {}
    ensures exists x :: x in s && forall y :: y in s ==> y <= x
    decreases s
  {
    var y :| y in s;
    if s != {y} {
      MaxExists(s - {y});
      var x :| x in s - {y} && forall z :: z in s - {y} ==> z <= x;
      var top := if x < y then y else x;
      forall z | z in s
        ensures z <= top
      {
        if z != y {
          assert z in s - {y};
        }
      }
    }
  }

  /** The largest element of a set of counts, 0 when there is none
      (`max().unwrap_or_default()`). */
  function MaxOf(s: set<nat>): (r: nat)
    ensures forall y :: y in s ==> y <= r
    ensures s == {} ==> r == 0
    ensures s != {} ==> r in s
  {
    if s == {} then 0
    else
      MaxExists(s);
      var x :| x in s && forall y :: y in s ==> y <= x;
      x
  }

  /** The size of the largest group of identical proposal sets. */
  function MostVotes<T>(s: set<SignedVote<T>>): nat
  {
    MaxOf(Tally(s).Values)
  }

  predicate IsSuperMajority<T>(t: nat, s: set<SignedVote<T>>)
  {
    MostVotes(s) > t
  }

  /** Quorum reached, yet even the leading group plus every voter not yet heard
      from cannot exceed `t`. The subtraction is on unsigned integers, so the
      caller must ensure there are no more voters than elders. */
  predicate IsSplitVote<T>(t: nat, nElders: nat, s: set<SignedVote<T>>)
    requires |Voters(s)| <= nElders
    ensures IsSplitVote(t, nElders, s) ==> !IsSuperMajority(t, s)
    ensures IsSplitVote(t, nElders, s) ==> |Voters(s)| > t
  {
    var mostVotes := MostVotes(s);
    var voters := Voters(s);
    var remainingVoters := nElders - |voters|;
    var predictedVotes := mostVotes + remainingVoters;
    |voters| > t && predictedVotes <= t
  }

  /** The votes whose ballot is itself a SuperMajority ballot. */
  function SuperMajorityVotes<T>(s: set<SignedVote<T>>): (r: set<SignedVote<T>>)
    ensures r <= s
    ensures forall v :: v in s && IsSuperMajorityBallot(v.vote) ==> v in r
    ensures forall v :: v in r ==> IsSuperMajorityBallot(v.vote)
  {
    set v | v in s && IsSuperMajorityBallot(v.vote)
  }

  predicate IsSuperMajorityOverSuperMajorities<T>(t: nat, s: set<SignedVote<T>>)
  {
    MostVotes(SuperMajorityVotes(s)) > t
  }

  /** `count_votes`: the loop of the source, one vote at a time, in any order.
      It computes the reference grouping `Tally`, whose counts add up to the
      number of votes (`TallySum`). */
  method CountVotes<T>(votes: set<SignedVote<T>>) returns (count: map<set<T>, nat>)
    ensures count == Tally(votes)
    ensures forall v :: v in votes ==> Proposals(v.vote) in count
    ensures forall k :: k in count ==> count[k] >= 1
  {
    count := map[];
    var rest, done := votes, {};
    assert Tally(done) == map[];
    while rest != {}
      invariant done + rest == votes && done !! rest
      invariant count == Tally(done)
      decreases rest
    {
      var v :| v in rest;
      var k := Proposals(v.vote);
      TallyAdd(done, v);
      count := count[k := (if k in count then count[k] else 0) + 1];
      done, rest := done + {v}, rest - {v};
    }
  }

  // ---------------------------------------------------------------------------
  // Lemmas about sums of map values

  /** The sum does not depend on which key is taken out first. */
  lemma {:induction false} SumValuesRemove<K>(m: map<K, nat>, k: K)
    requires k in m
    ensures SumValues(m) == m[k] + SumValues(m - {k})
    decreases m.Keys
  {
    var j :| j in m && SumValues(m) == m[j] + SumValues(m - {j});
    if j != k {
      SumValuesRemove(m - {j}, k);
      SumValuesRemove(m - {k}, j);
      assert (m - {j}) - {k} == (m - {k}) - {j};
    }
  }

  lemma SumValuesUpdate<K>(m: map<K, nat>, k: K, n: nat)
    ensures SumValues(m[k := n]) + (if k in m then m[k] else 0) == SumValues(m) + n
  {
    SumValuesRemove(m[k := n], k);
    assert m[k := n] - {k} == m - {k};
    if k in m {
      SumValuesRemove(m, k);
    } else {
      assert m - {k} == m;
    }
  }

  // ---------------------------------------------------------------------------
  // Lemmas about the grouping

  /** Adding one vote increments exactly the count of its own proposal set. */
  lemma TallyAdd<T>(s: set<SignedVote<T>>, v: SignedVote<T>)
    requires v !in s
    ensures var k := Proposals(v.vote);
            Tally(s + {v}) == Tally(s)[k := (if k in Tally(s) then Tally(s)[k] else 0) + 1]
  {
    var k := Proposals(v.vote);
    var before, after := Tally(s), Tally(s + {v});
    var expected := before[k := (if k in before then before[k] else 0) + 1];
    TallyKeysAdd(s, v);
    forall j | j in after
      ensures after[j] == expected[j]
    {
      TallyValueAdd(s, v, j);
    }
  }

  lemma TallyKeysAdd<T>(s: set<SignedVote<T>>, v: SignedVote<T>)
    ensures Tally(s + {v}).Keys == Tally(s).Keys + {Proposals(v.vote)}
  {
    assert ProposalSets(s + {v}) == ProposalSets(s) + {Proposals(v.vote)};
  }

  lemma TallyValueAdd<T>(s: set<SignedVote<T>>, v: SignedVote<T>, j: set<T>)
    requires v !in s
    requires j in Tally(s + {v})
    ensures j == Proposals(v.vote) ==> Tally(s + {v})[j] == (if j in Tally(s) then Tally(s)[j] else 0) + 1
    ensures j != Proposals(v.vote) ==> j in Tally(s) && Tally(s + {v})[j] == Tally(s)[j]
  {
    GroupAdd(s, v, j);
    TallyKeysAdd(s, v);
    if j == Proposals(v.vote) && j !in Tally(s) {
      assert Group(s, j) == {};
    }
  }

  /** The group of the added vote grows by that vote; every other group stays. */
  lemma GroupAdd<T>(s: set<SignedVote<T>>, v: SignedVote<T>, j: set<T>)
    requires v !in s
    ensures j == Proposals(v.vote) ==> Group(s + {v}, j) == Group(s, j) + {v} && |Group(s + {v}, j)| == |Group(s, j)| + 1
    ensures j != Proposals(v.vote) ==> Group(s + {v}, j) == Group(s, j)
  {
  }

  /** Every vote is counted once: the group counts add up to the number of votes. */
  lemma {:induction false} TallySum<T>(s: set<SignedVote<T>>)
    ensures SumValues(Tally(s)) == |s|
    decreases s
  {
    if s == {} {
      assert Tally(s) == map[];
    } else {
      var v :| v in s;
      var rest := s - {v};
      var k := Proposals(v.vote);
      TallySum(rest);
      TallyAdd(rest, v);
      assert rest + {v} == s;
      SumValuesUpdate(Tally(rest), k, (if k in Tally(rest) then Tally(rest)[k] else 0) + 1);
    }
  }

  /** The grouping is monotone: a subset has no more votes in any group. */
  lemma TallySubset<T>(sub: set<SignedVote<T>>, s: set<SignedVote<T>>)
    requires sub <= s
    ensures forall k :: k in Tally(sub) ==> k in Tally(s) && Tally(sub)[k] <= Tally(s)[k]
  {
    forall k | k in Tally(sub)
      ensures k in Tally(s) && Tally(sub)[k] <= Tally(s)[k]
    {
      var v :| v in Group(sub, k);
      assert v in s;
      assert Group(sub, k) <= Group(s, k);
      SubsetCardinality(Group(sub, k), Group(s, k));
    }
  }

  lemma SubsetCardinality<X>(a: set<X>, b: set<X>)
    requires a <= b
    ensures |a| <= |b|
  {
    assert b == a + (b - a);
  }

  /** `IsSuperMajority` states what a supermajority is: more than `t` votes
      that carry one and the same proposal set. */
  lemma SuperMajorityMeansAgreeingGroup<T>(t: nat, s: set<SignedVote<T>>)
    ensures IsSuperMajority(t, s) <==> exists v :: v in s && |Group(s, Proposals(v.vote))| > t
  {
    var m := Tally(s);
    if IsSuperMajority(t, s) {
      var k :| k in m && m[k] == MostVotes(s);
      var v :| v in Group(s, k);
      assert |Group(s, Proposals(v.vote))| > t;
    }
    if exists v :: v in s && |Group(s, Proposals(v.vote))| > t {
      var v :| v in s && |Group(s, Proposals(v.vote))| > t;
      assert m[Proposals(v.vote)] in m.Values;
    }
  }

  /** A supermajority over supermajorities is in particular a supermajority:
      its groups are sub-groups of the full groups. */
  lemma SuperMajorityOverSuperMajoritiesIsSuperMajority<T>(t: nat, s: set<SignedVote<T>>)
    ensures IsSuperMajorityOverSuperMajorities(t, s) ==> IsSuperMajority(t, s)
  {
    var sub := SuperMajorityVotes(s);
    if IsSuperMajorityOverSuperMajorities(t, s) {
      var m := Tally(sub);
      var k :| k in m && m[k] == MostVotes(sub);
      TallySubset(sub, s);
      assert Tally(s)[k] in Tally(s).Values;
    }
  }

  lemma ImageCardinality<T>(s: set<SignedVote<T>>)
    ensures |Voters(s)| <= |s|
    decreases s
  {
    if s != {} {
      var v :| v in s;
      ImageCardinality(s - {v});
      assert Voters(s) <= Voters(s - {v}) + {v.voter};
      SubsetCardinality(Voters(s), Voters(s - {v}) + {v.voter});
    }
  }

  /** A split vote is a real disagreement: the votes carry at least two
      different proposal sets. */
  lemma SplitVoteHasRivalProposals<T>(t: nat, nElders: nat, s: set<SignedVote<T>>)
    requires |Voters(s)| <= nElders
    requires IsSplitVote(t, nElders, s)
    ensures exists v, w :: v in s && w in s && Proposals(v.vote) != Proposals(w.vote)
  {
    var m := Tally(s);
    ImageCardinality(s);
    TallySum(s);
    var v :| v in s;
    var k := Proposals(v.vote);
    SumValuesRemove(m, k);
    assert m[k] in m.Values;
    assert m - {k} != map[];
    var j :| j in m - {k};
    var w :| w in Group(s, j);
  }

  /** With no votes at all there is neither a supermajority nor a split. */
  lemma NoVotesNoDecision<T>(t: nat, nElders: nat)
    ensures !IsSuperMajority<T>(t, {})
    ensures !IsSplitVote<T>(t, nElders, {})
  {
    var none: set<SignedVote<T>> := {};
    assert Tally(none) == map[];
    assert Voters(none) == {};
  }
}
