/**
 The per-node consensus engine: its state (committee keys, this node's signing
 share, and one logged vote per voter: the first vote logged for that voter,
 replaced only by a vote that supersedes it), vote signing, logging, and the
 reducer `HandleSignedVote` that decides after every incoming vote whether to
 wait, broadcast a new vote, or declare the round decided.

 The engine is modelled as an immutable value: every operation that mutates the
 state in place takes the old state and returns the new one. Threshold
 cryptography is reduced to two function values: the signing function of this
 node's secret key share and the verification predicate of the committee's
 public key set.
 */
module Engine {
  import opened Votes
  import opened Counting

  /** This node's secret key share: it signs serialised messages. */
  datatype SecretKeyShare<!T> = SecretKeyShare(sign: Message<T> -> SigShare)

  /** The committee's public key set: its threshold `t` and, for every member,
      the check of a signature share against that member's public share. */
  datatype PublicKeySet<!T> = PublicKeySet(
    threshold: nat,
    verify: (NodeId, Message<T>, SigShare) -> bool)

  datatype Consensus<!T> = Consensus(
    elders: PublicKeySet<T>,
    nElders: nat,
    secretKey: (NodeId, SecretKeyShare<T>),
    votes: map<NodeId, SignedVote<T>>)

  datatype VoteResponse<T> =
    | WaitingForMoreVotes
    | Broadcast(signedVote: SignedVote<T>)
    | Decided(signedVote: SignedVote<T>)

  /** The error variants the engine reports. */
  datatype Error =
    | InvalidElderSignature
    | MergedVotesMustBeFromSameGen(childGen: Generation, mergeGen: Generation)
    | SuperMajorityBallotIsNotSuperMajority
    | SuperMajorityProposalsDoesNotMatchVoteProposals
    | ExistingVoteIncompatibleWithNewVote

  /** The unit-valued result of a check. */
  datatype Outcome = Pass | Fail(error: Error)

  /** A fresh engine for one generation: no votes logged yet. */
  function From<T>(secretKey: (NodeId, SecretKeyShare<T>), elders: PublicKeySet<T>, nElders: nat): (c: Consensus<T>)
    ensures c.votes == map[]
    ensures secretKey.0 < nElders ==> WellFormed(c)
  {
    Consensus(elders, nElders, secretKey, map[])
  }

  function Id<T>(c: Consensus<T>): NodeId
  {
    c.secretKey.0
  }

  function Threshold<T>(c: Consensus<T>): nat
  {
    c.elders.threshold
  }

  /** The votes currently logged, one per voter. */
  function LoggedVotes<T>(c: Consensus<T>): set<SignedVote<T>>
  {
    c.votes.Values
  }

  function VerifySigShare<T>(c: Consensus<T>, msg: Message<T>, elder: NodeId, sig: SigShare): (r: Outcome)
    ensures r.Pass? <==> c.elders.verify(elder, msg, sig)
    ensures r.Fail? ==> r.error == InvalidElderSignature
  {
    if c.elders.verify(elder, msg, sig) then Pass else Fail(InvalidElderSignature)
  }

  function Sign<T>(c: Consensus<T>, msg: Message<T>): SigShare
  {
    c.secretKey.1.sign(msg)
  }

  /** Signs a vote as this node. */
  function SignVote<T>(c: Consensus<T>, vote: Vote<T>): (r: SignedVote<T>)
    ensures r.voter == Id(c) && r.vote == vote
    ensures c.elders.verify(Id(c), VoteMessage(vote), Sign(c, VoteMessage(vote))) ==>
              VerifySigShare(c, VoteMessage(r.vote), r.voter, r.sig) == Pass
  {
    SignedVote(Id(c), Sign(c, VoteMessage(vote)), vote)
  }

  /** The SuperMajority ballot this node builds before canonicalisation: the
      logged votes, and one signature of this node per proposition they carry. */
  function SuperMajorityBallot<T>(c: Consensus<T>): (b: Ballot<T>)
  {
    var votes := LoggedVotes(c);
    var proposals := map p | p in ProposalsOf(votes) :: (Id(c), Sign(c, PropositionMessage(p)));
    SuperMajority(votes, proposals)
  }

  function BuildSuperMajorityVote<T>(c: Consensus<T>, lib: VoteLib<T>, gen: Generation): (r: SignedVote<T>)
    ensures r.voter == Id(c) && r.vote.gen == gen
  {
    SignVote(c, Vote(gen, lib.simplify(SuperMajorityBallot(c))))
  }

  /** The Merge vote this node casts when it detects a split vote. */
  function MergeVote<T>(c: Consensus<T>, lib: VoteLib<T>, gen: Generation): (r: SignedVote<T>)
    ensures r.voter == Id(c) && r.vote.gen == gen
  {
    SignVote(c, Vote(gen, lib.simplify(Merge(LoggedVotes(c)))))
  }

  // ---------------------------------------------------------------------------
  // Logging

  /** One iteration of `log_signed_vote`: the first vote of a voter fills its
      entry, and a later vote replaces the entry only when it supersedes it. */
  function LogOne<T>(lib: VoteLib<T>, m: map<NodeId, SignedVote<T>>, vote: SignedVote<T>): map<NodeId, SignedVote<T>>
  {
    if vote.voter in m && !lib.supersedes(vote, m[vote.voter]) then m else m[vote.voter := vote]
  }

  /** The votes of `order` offered to the map `m` one after another. */
  function LogAll<T>(lib: VoteLib<T>, m: map<NodeId, SignedVote<T>>, order: seq<SignedVote<T>>): map<NodeId, SignedVote<T>>
    decreases |order|
  {
    if order == [] then m else LogOne(lib, LogAll(lib, m, order[..|order| - 1]), order[|order| - 1])
  }

  /** `order` lists every element of `s` exactly once. */
  ghost predicate Enumerates<T>(order: seq<T>, s: set<T>)
  {
    && (forall i, j :: 0 <= i < j < |order| ==> order[i] != order[j])
    && (forall i :: 0 <= i < |order| ==> order[i] in s)
    && (forall v :: v in s ==> v in order)
  }

  /** `after` is what `log_signed_vote` leaves in `before` when it visits the
      votes `done` in some order. */
  ghost predicate Logged<T(!new)>(lib: VoteLib<T>, before: map<NodeId, SignedVote<T>>,
                            done: set<SignedVote<T>>, after: map<NodeId, SignedVote<T>>)
  {
    exists order :: Enumerates(order, done) && after == LogAll(lib, before, order)
  }

  /** `xs` is a chain of votes of voter `k` in which every vote after the first
      is one of `done` and supersedes its predecessor. */
  ghost predicate SupersedesChain<T>(lib: VoteLib<T>, done: set<SignedVote<T>>, k: NodeId, xs: seq<SignedVote<T>>)
  {
    && |xs| > 0
    && forall i :: 0 < i < |xs| ==> xs[i] in done && xs[i].voter == k && lib.supersedes(xs[i], xs[i - 1])
  }

  /** The entry `e` held for voter `k` after the votes `done` were logged on top
      of `before` ends a supersedes chain that starts at the existing entry, or,
      for a voter without one, at a vote of `k` in `done`. */
  ghost predicate LogEntry<T(!new)>(lib: VoteLib<T>, before: map<NodeId, SignedVote<T>>,
                              done: set<SignedVote<T>>, k: NodeId, e: SignedVote<T>)
  {
    exists xs: seq<SignedVote<T>> :: && SupersedesChain(lib, done, k, xs)
                                     && xs[|xs| - 1] == e
                                     && ChainStart(before, done, k, xs[0])
  }

  /** Where the chain of voter `k` starts: at its existing entry, or, without
      one, at a vote of `k` among `done`. */
  ghost predicate ChainStart<T>(before: map<NodeId, SignedVote<T>>, done: set<SignedVote<T>>, k: NodeId, x: SignedVote<T>)
  {
    if k in before then x == before[k] else x in done && x.voter == k
  }

  /** What every logging order guarantees of each entry: the voters of `done`
      are added, other entries are untouched, and every entry of a voter of
      `done` was reached by supersedes steps. */
  ghost predicate LoggedEntries<T(!new)>(lib: VoteLib<T>, before: map<NodeId, SignedVote<T>>,
                                   done: set<SignedVote<T>>, after: map<NodeId, SignedVote<T>>)
  {
    && after.Keys == before.Keys + Voters(done)
    && (forall k :: k in before && k !in Voters(done) ==> after[k] == before[k])
    && (forall k :: k in Voters(done) ==> LogEntry(lib, before, done, k, after[k]))
  }

  /** `log_signed_vote`: every vote `signedVote` unpacks to is offered to the
      entry of its voter, in any order. */
  method LogSignedVote<T(!new)>(votes: map<NodeId, SignedVote<T>>, lib: VoteLib<T>, signedVote: SignedVote<T>)
    returns (logged: map<NodeId, SignedVote<T>>)
    ensures Logged(lib, votes, Unpack(signedVote), logged)
    ensures LoggedEntries(lib, votes, Unpack(signedVote), logged)
  {
    logged := votes;
    var rest, done := Unpack(signedVote), {};
    ghost var order: seq<SignedVote<T>> := [];
    while rest != {}
      invariant done + rest == Unpack(signedVote) && done !! rest
      invariant Enumerates(order, done) && logged == LogAll(lib, votes, order)
      decreases rest
    {
      var vote :| vote in rest;
      var existing := if vote.voter in logged then logged[vote.voter] else vote;
      var entry := if lib.supersedes(vote, existing) then vote else existing;
      assert logged[vote.voter := entry] == LogOne(lib, logged, vote);
      EnumeratesAppend(order, done, vote);
      logged := logged[vote.voter := entry];
      done, rest, order := done + {vote}, rest - {vote}, order + [vote];
    }
    LogAllEntries(lib, votes, order, done);
  }

  /** Visiting one more vote extends the enumeration. */
  lemma EnumeratesAppend<T>(order: seq<T>, s: set<T>, x: T)
    requires Enumerates(order, s) && x !in s
    ensures Enumerates(order + [x], s + {x})
  {
    var o := order + [x];
    forall i, j | 0 <= i < j < |o|
      ensures o[i] != o[j]
    {
      if j == |order| {
        assert o[i] in order;
      }
    }
  }

  /** Dropping the last visited vote leaves an enumeration of the others. */
  lemma EnumeratesInit<T>(order: seq<T>, s: set<T>)
    requires Enumerates(order, s) && order != []
    ensures Enumerates(order[..|order| - 1], s - {order[|order| - 1]})
  {
    var init, last := order[..|order| - 1], order[|order| - 1];
    forall v | v in s - {last}
      ensures v in init
    {
      var i :| 0 <= i < |order| && order[i] == v;
      assert i < |order| - 1 && init[i] == v;
    }
    forall i | 0 <= i < |init|
      ensures init[i] in s - {last}
    {
      assert order[i] == init[i];
    }
  }

  /** Every order of logging meets the per-entry guarantees. */
  lemma {:induction false} LogAllEntries<T(!new)>(lib: VoteLib<T>, before: map<NodeId, SignedVote<T>>,
                                            order: seq<SignedVote<T>>, done: set<SignedVote<T>>)
    requires Enumerates(order, done)
    ensures LoggedEntries(lib, before, done, LogAll(lib, before, order))
    decreases |order|
  {
    if order == [] {
      assert done == {};
    } else {
      var init, last := order[..|order| - 1], order[|order| - 1];
      var rest := done - {last};
      EnumeratesInit(order, done);
      LogAllEntries(lib, before, init, rest);
      LogStep(lib, before, rest, LogAll(lib, before, init), last);
      assert rest + {last} == done;
    }
  }

  /** An entry that no logged vote of its voter supersedes is kept. */
  lemma UnsupersededEntryStays<T(!new)>(lib: VoteLib<T>, before: map<NodeId, SignedVote<T>>,
                                        done: set<SignedVote<T>>, after: map<NodeId, SignedVote<T>>, k: NodeId)
    ensures && LoggedEntries(lib, before, done, after)
            && k in before
            && (forall v :: v in done && v.voter == k ==> !lib.supersedes(v, before[k]))
            ==> after[k] == before[k]
  {
    if && LoggedEntries(lib, before, done, after)
       && k in before
       && (forall v :: v in done && v.voter == k ==> !lib.supersedes(v, before[k]))
       && k in Voters(done)
    {
      var xs: seq<SignedVote<T>> :| && SupersedesChain(lib, done, k, xs)
                                    && xs[|xs| - 1] == after[k]
                                    && ChainStart(before, done, k, xs[0]);
      ChainFirstStep(lib, done, k, xs);
    }
  }

  /** A chain longer than one vote starts with a superseding step. */
  lemma ChainFirstStep<T>(lib: VoteLib<T>, done: set<SignedVote<T>>, k: NodeId, xs: seq<SignedVote<T>>)
    requires SupersedesChain(lib, done, k, xs)
    ensures |xs| > 1 ==> xs[1] in done && xs[1].voter == k && lib.supersedes(xs[1], xs[0])
  {
  }

  /** `y` supersedes every other vote of its voter among `done`, and the
      existing entry unless it is `y`, while none of those votes supersedes `y`. */
  ghost predicate Dominates<T>(lib: VoteLib<T>, before: map<NodeId, SignedVote<T>>,
                               done: set<SignedVote<T>>, y: SignedVote<T>)
  {
    && (forall v :: v in done && v.voter == y.voter && v != y ==> lib.supersedes(y, v) && !lib.supersedes(v, y))
    && (y.voter in before && before[y.voter] != y ==> lib.supersedes(y, before[y.voter]))
  }

  /** A dominating vote ends up as its voter's entry whatever the visiting
      order: once offered it replaces the entry, and nothing replaces it. */
  lemma DominantVoteIsLogged<T(!new)>(lib: VoteLib<T>, before: map<NodeId, SignedVote<T>>,
                                      done: set<SignedVote<T>>, after: map<NodeId, SignedVote<T>>, y: SignedVote<T>)
    requires Logged(lib, before, done, after)
    requires y in done && Dominates(lib, before, done, y)
    ensures y.voter in after && after[y.voter] == y
  {
    var order :| Enumerates(order, done) && after == LogAll(lib, before, order);
    DominantVoteWins(lib, before, order, done, y);
  }

  lemma {:induction false} DominantVoteWins<T(!new)>(lib: VoteLib<T>, before: map<NodeId, SignedVote<T>>,
                                                     order: seq<SignedVote<T>>, done: set<SignedVote<T>>, y: SignedVote<T>)
    requires Enumerates(order, done)
    requires y in done && Dominates(lib, before, done, y)
    ensures y.voter in LogAll(lib, before, order) && LogAll(lib, before, order)[y.voter] == y
    decreases |order|
  {
    var init, last := order[..|order| - 1], order[|order| - 1];
    var rest, k := done - {last}, y.voter;
    EnumeratesInit(order, done);
    var m := LogAll(lib, before, init);
    if last == y {
      if k in m && m[k] != y {
        LogAllEntries(lib, before, init, rest);
        if k in Voters(rest) {
          LogEntryOrigin(lib, before, rest, k, m[k]);
        }
      }
    } else {
      DominantVoteWins(lib, before, init, rest, y);
    }
  }

  /** One step of the logging loop keeps the per-entry guarantees. */
  lemma LogStep<T(!new)>(lib: VoteLib<T>, before: map<NodeId, SignedVote<T>>, done: set<SignedVote<T>>,
                   logged: map<NodeId, SignedVote<T>>, vote: SignedVote<T>)
    requires LoggedEntries(lib, before, done, logged)
    ensures LoggedEntries(lib, before, done + {vote}, LogOne(lib, logged, vote))
  {
    var k, after, done' := vote.voter, LogOne(lib, logged, vote), done + {vote};
    assert Voters(done') == Voters(done) + {k};
    forall j | j in Voters(done')
      ensures LogEntry(lib, before, done', j, after[j])
    {
      if j != k {
        LogEntryGrows(lib, before, done, vote, j, after[j], false);
      } else if k in logged {
        if k !in Voters(done) {
          assert LogEntry(lib, before, done, k, logged[k]) by {
            assert SupersedesChain(lib, done, k, [before[k]]);
          }
        }
        LogEntryGrows(lib, before, done, vote, k, logged[k], lib.supersedes(vote, logged[k]));
      } else {
        assert SupersedesChain(lib, done', k, [vote]);
      }
    }
  }

  /** An entry reached from `done` is still reached once one more vote is
      logged, and it stays reached when that vote of the same voter replaces it
      by superseding it. */
  lemma LogEntryGrows<T(!new)>(lib: VoteLib<T>, before: map<NodeId, SignedVote<T>>, done: set<SignedVote<T>>,
                         vote: SignedVote<T>, k: NodeId, e: SignedVote<T>, replace: bool)
    requires LogEntry(lib, before, done, k, e)
    requires replace ==> vote.voter == k && lib.supersedes(vote, e)
    ensures LogEntry(lib, before, done + {vote}, k, if replace then vote else e)
  {
    var xs: seq<SignedVote<T>> :| && SupersedesChain(lib, done, k, xs)
                                  && xs[|xs| - 1] == e
                                  && ChainStart(before, done, k, xs[0]);
    var ys := if replace then xs + [vote] else xs;
    assert SupersedesChain(lib, done + {vote}, k, ys) by {
      forall i | 0 < i < |ys|
        ensures ys[i] in done + {vote} && ys[i].voter == k && lib.supersedes(ys[i], ys[i - 1])
      {
        if i < |xs| {
          assert ys[i] == xs[i] && ys[i - 1] == xs[i - 1];
        }
      }
    }
    assert ys[0] == xs[0];
  }

  /** Where an entry can come from: the existing entry, or a vote of its voter
      among the logged votes. */
  lemma LogEntryOrigin<T(!new)>(lib: VoteLib<T>, before: map<NodeId, SignedVote<T>>,
                          done: set<SignedVote<T>>, k: NodeId, e: SignedVote<T>)
    requires LogEntry(lib, before, done, k, e)
    ensures (k in before && e == before[k]) || (e in done && e.voter == k)
  {
    var xs: seq<SignedVote<T>> :| && SupersedesChain(lib, done, k, xs)
                                  && xs[|xs| - 1] == e
                                  && ChainStart(before, done, k, xs[0]);
  }

  /** `cast_vote`: log this node's own vote and hand it back for broadcast. */
  method CastVote<T(!new)>(c: Consensus<T>, lib: VoteLib<T>, signedVote: SignedVote<T>)
    returns (next: Consensus<T>, cast: SignedVote<T>)
    ensures cast == signedVote
    ensures next == c.(votes := next.votes)
    ensures Logged(lib, c.votes, Unpack(signedVote), next.votes)
    ensures LoggedEntries(lib, c.votes, Unpack(signedVote), next.votes)
    ensures signedVote.voter in next.votes
  {
    var logged := LogSignedVote(c.votes, lib, signedVote);
    next := c.(votes := logged);
    cast := signedVote;
  }

  // ---------------------------------------------------------------------------
  // The engine invariant

  /** Every logged vote is filed under its own voter, every voter, this node
      included, is one of the `nElders` committee members, and every vote
      embedded in a logged vote comes from a voter that has a logged vote. */
  ghost predicate WellFormed<T>(c: Consensus<T>)
  {
    && Id(c) < c.nElders
    && forall k :: k in c.votes ==>
         && k < c.nElders
         && c.votes[k].voter == k
         && Voters(Unpack(c.votes[k])) <= c.votes.Keys
  }

  /** Every vote `signedVote` unpacks to was cast by a committee member. */
  ghost predicate FromElders<T>(c: Consensus<T>, signedVote: SignedVote<T>)
  {
    forall u :: u in Unpack(signedVote) ==> u.voter < c.nElders
  }

  /** What the engine needs of the canonicalisation: a simplified ballot embeds
      votes of no voter the original ballot did not already embed. */
  ghost predicate SimplifyKeepsVoters<T(!new)>(lib: VoteLib<T>)
  {
    forall b :: Voters(UnpackAll(Children(lib.simplify(b)))) <= Voters(UnpackAll(Children(b)))
  }

  /** A set of committee member ids has at most `n` elements. */
  lemma {:induction false} IdsWithinCommittee(ids: set<NodeId>, n: nat)
    requires forall k :: k in ids ==> k < n
    ensures |ids| <= n
    decreases n
  {
    if n > 0 {
      IdsWithinCommittee(ids - {n - 1}, n - 1);
    } else {
      assert ids == {};
    }
  }

  /** Under the invariant there are never more voters than elders, so the
      unsigned subtraction of `is_split_vote` cannot underflow. */
  lemma VotersWithinElders<T>(c: Consensus<T>)
    requires WellFormed(c)
    ensures |Voters(LoggedVotes(c))| <= c.nElders
  {
    forall k | k in Voters(LoggedVotes(c))
      ensures k < c.nElders
    {
      var v :| v in LoggedVotes(c) && v.voter == k;
      var j :| j in c.votes && c.votes[j] == v;
    }
    IdsWithinCommittee(Voters(LoggedVotes(c)), c.nElders);
  }

  /** Logging votes of committee members keeps the invariant. */
  lemma LoggedKeepsWellFormed<T(!new)>(c: Consensus<T>, lib: VoteLib<T>, signedVote: SignedVote<T>,
                                 after: map<NodeId, SignedVote<T>>)
    requires WellFormed(c) && FromElders(c, signedVote)
    requires LoggedEntries(lib, c.votes, Unpack(signedVote), after)
    ensures WellFormed(c.(votes := after))
  {
    forall k | k in after
      ensures k < c.nElders && after[k].voter == k && Voters(Unpack(after[k])) <= after.Keys
    {
      if k in Voters(Unpack(signedVote)) {
        var u :| u in Unpack(signedVote) && u.voter == k;
        LogEntryOrigin(lib, c.votes, Unpack(signedVote), k, after[k]);
        if after[k] in Unpack(signedVote) {
          UnpackClosed(signedVote, after[k]);
          forall w | w in Unpack(after[k])
            ensures w.voter in Voters(Unpack(signedVote))
          {
          }
        }
      }
    }
  }

  /** A vote this node signs over a ballot whose embedded votes all come from
      logged voters, canonicalised or not, embeds no vote of any other voter. */
  lemma OwnVoteEmbedsLoggedVoters<T(!new)>(c: Consensus<T>, lib: VoteLib<T>, b: Ballot<T>, own: SignedVote<T>)
    requires WellFormed(c)
    requires own.voter == Id(c)
    requires own.vote.ballot == b || (SimplifyKeepsVoters(lib) && own.vote.ballot == lib.simplify(b))
    requires Voters(UnpackAll(Children(b))) <= c.votes.Keys
    ensures forall u :: u in Unpack(own) && u != own ==> u.voter in c.votes
    ensures FromElders(c, own)
  {
    forall u | u in Unpack(own) && u != own
      ensures u.voter in c.votes
    {
      var ch :| ch in Children(own.vote.ballot) && u in Unpack(ch);
      assert u in UnpackAll(Children(own.vote.ballot));
      assert u.voter in Voters(UnpackAll(Children(own.vote.ballot)));
    }
  }

  /** The logged votes embed only votes of logged voters. */
  lemma LoggedVotesEmbedLoggedVoters<T>(c: Consensus<T>)
    requires WellFormed(c)
    ensures Voters(UnpackAll(LoggedVotes(c))) <= c.votes.Keys
  {
    forall k | k in Voters(UnpackAll(LoggedVotes(c)))
      ensures k in c.votes
    {
      var u :| u in UnpackAll(LoggedVotes(c)) && u.voter == k;
      var x :| x in LoggedVotes(c) && u in Unpack(x);
      var j :| j in c.votes && c.votes[j] == x;
      assert u.voter in Voters(Unpack(c.votes[j]));
    }
  }

  /** When this node has no logged vote, the vote it casts becomes its entry,
      as long as every other vote it embeds comes from an already logged voter. */
  lemma CastVoteIsRecorded<T(!new)>(lib: VoteLib<T>, logged: map<NodeId, SignedVote<T>>,
                              own: SignedVote<T>, after: map<NodeId, SignedVote<T>>)
    requires own.voter !in logged
    requires forall u :: u in Unpack(own) && u != own ==> u.voter in logged
    requires LoggedEntries(lib, logged, Unpack(own), after)
    ensures own.voter in after && after[own.voter] == own
  {
    assert own.voter in Voters(Unpack(own));
    LogEntryOrigin(lib, logged, Unpack(own), own.voter, after[own.voter]);
  }

  // ---------------------------------------------------------------------------
  // The reducer

  /** The decision of `handle_signed_vote` once the incoming vote is logged in
      `state`: the first of split vote, supermajority over supermajorities,
      supermajority, and "not voted yet" that holds picks the response. */
  function Respond<T>(state: Consensus<T>, lib: VoteLib<T>, incoming: SignedVote<T>, gen: Generation): (r: VoteResponse<T>)
    requires |Voters(LoggedVotes(state))| <= state.nElders
    ensures !r.WaitingForMoreVotes? ==> r.signedVote.voter == Id(state) && r.signedVote.vote.gen == gen
    ensures var all, t, n, id := LoggedVotes(state), Threshold(state), state.nElders, Id(state);
            // 1. split vote: merge everything, unless that adds nothing to our vote
            && (IsSplitVote(t, n, all) ==>
                  && !r.Decided?
                  && (r.WaitingForMoreVotes? <==>
                        id in state.votes && Proposals(state.votes[id].vote) == Proposals(MergeVote(state, lib, gen).vote))
                  && (r.Broadcast? ==> r.signedVote == MergeVote(state, lib, gen)))
            // 2. supermajority over supermajorities: decided, which is in particular a supermajority
            && (r.Decided? <==> !IsSplitVote(t, n, all) && IsSuperMajorityOverSuperMajorities(t, all))
            && (r.Decided? ==> IsSuperMajority(t, all) && r.signedVote == BuildSuperMajorityVote(state, lib, gen))
            // 3. supermajority: send our SuperMajority vote once
            && (!IsSplitVote(t, n, all) && !IsSuperMajorityOverSuperMajorities(t, all) && IsSuperMajority(t, all) ==>
                  && (r.WaitingForMoreVotes? <==> id in state.votes && IsSuperMajorityBallot(state.votes[id].vote))
                  && (r.Broadcast? ==> r.signedVote == BuildSuperMajorityVote(state, lib, gen)))
            // 4. nothing to act on: vote the incoming ballot if we have not voted yet
            && (!IsSplitVote(t, n, all) && !IsSuperMajority(t, all) ==>
                  && !r.Decided?
                  && (r.WaitingForMoreVotes? <==> id in state.votes)
                  && (r.Broadcast? ==> r.signedVote == SignVote(state, Vote(gen, incoming.vote.ballot))))
  {
    var all, t := LoggedVotes(state), Threshold(state);
    SuperMajorityOverSuperMajoritiesIsSuperMajority(t, all);
    if IsSplitVote(t, state.nElders, all) then
      var signedMergeVote := MergeVote(state, lib, gen);
      if Id(state) in state.votes && Proposals(state.votes[Id(state)].vote) == Proposals(signedMergeVote.vote) then
        WaitingForMoreVotes
      else
        Broadcast(signedMergeVote)
    else if IsSuperMajorityOverSuperMajorities(t, all) then
      Decided(BuildSuperMajorityVote(state, lib, gen))
    else if IsSuperMajority(t, all) then
      if Id(state) in state.votes && IsSuperMajorityBallot(state.votes[Id(state)].vote) then
        WaitingForMoreVotes
      else
        Broadcast(BuildSuperMajorityVote(state, lib, gen))
    else if Id(state) !in state.votes then
      Broadcast(SignVote(state, Vote(gen, incoming.vote.ballot)))
    else
      WaitingForMoreVotes
  }

  /** Every vote the reducer broadcasts, other than the broadcast vote itself,
      comes from a voter already logged in `state`: it wraps either the
      incoming ballot, whose voters were just logged, or the logged votes. */
  lemma BroadcastEmbedsLoggedVoters<T(!new)>(state: Consensus<T>, lib: VoteLib<T>, incoming: SignedVote<T>, gen: Generation)
    requires WellFormed(state)
    requires SimplifyKeepsVoters(lib)
    requires Voters(Unpack(incoming)) <= state.votes.Keys
    requires |Voters(LoggedVotes(state))| <= state.nElders
    requires Respond(state, lib, incoming, gen).Broadcast?
    ensures var own := Respond(state, lib, incoming, gen).signedVote;
            && FromElders(state, own)
            && forall u :: u in Unpack(own) && u != own ==> u.voter in state.votes
  {
    var own := Respond(state, lib, incoming, gen).signedVote;
    var b: Ballot<T>;
    if own.vote.ballot == incoming.vote.ballot {
      b := incoming.vote.ballot;
      forall u | u in UnpackAll(Children(b))
        ensures u.voter in state.votes
      {
        var ch :| ch in Children(b) && u in Unpack(ch);
        assert ch in Unpack(incoming);
        UnpackClosed(incoming, ch);
        assert u.voter in Voters(Unpack(incoming));
      }
    } else if own == MergeVote(state, lib, gen) {
      b := Merge(LoggedVotes(state));
      LoggedVotesEmbedLoggedVoters(state);
    } else {
      b := SuperMajorityBallot(state);
      LoggedVotesEmbedLoggedVoters(state);
    }
    OwnVoteEmbedsLoggedVoters(state, lib, b, own);
  }

  /** `handle_signed_vote`: log the incoming vote, decide, and log the vote this
      node broadcasts. `logged` is the vote map right after the incoming vote
      was logged. */
  method HandleSignedVote<T(!new)>(c: Consensus<T>, lib: VoteLib<T>, signedVote: SignedVote<T>, gen: Generation)
    returns (next: Consensus<T>, response: VoteResponse<T>, ghost logged: map<NodeId, SignedVote<T>>)
    requires WellFormed(c)
    requires FromElders(c, signedVote)
    requires SimplifyKeepsVoters(lib)
    ensures Logged(lib, c.votes, Unpack(signedVote), logged)
    ensures LoggedEntries(lib, c.votes, Unpack(signedVote), logged)
    ensures WellFormed(next) && next == c.(votes := next.votes)
    ensures |Voters(logged.Values)| <= c.nElders
    ensures response == Respond(c.(votes := logged), lib, signedVote, gen)
    ensures response.Broadcast? ==> Logged(lib, logged, Unpack(response.signedVote), next.votes)
    ensures response.Broadcast? ==> LoggedEntries(lib, logged, Unpack(response.signedVote), next.votes)
    ensures !response.Broadcast? ==> next.votes == logged
    ensures response.Broadcast? && Id(c) !in logged ==>
              Id(c) in next.votes && next.votes[Id(c)] == response.signedVote
  {
    var votes := LogSignedVote(c.votes, lib, signedVote);
    logged := votes;
    var state := c.(votes := votes);
    LoggedKeepsWellFormed(c, lib, signedVote, votes);
    VotersWithinElders(state);
    response := Respond(state, lib, signedVote, gen);
    if !response.Broadcast? {
      return state, response, logged;
    }
    var own := response.signedVote;
    BroadcastEmbedsLoggedVoters(state, lib, signedVote, gen);
    var cast;
    next, cast := CastVote(state, lib, own);
    LoggedKeepsWellFormed(state, lib, own, next.votes);
    if Id(c) !in votes {
      CastVoteIsRecorded(lib, votes, own, next.votes);
    }
  }
}
