/** A governance object processing votes and counting them (src/governance-object.cpp). */
module Governance {
  import opened GovernanceSpec

  class CGovernanceObject {
    var mapCurrentMNVotes: Votes
    var fileVotes: set<nat>
    var fDirtyCache: bool

    ghost function State(): Ledger
      reads this
    {
      Ledger(mapCurrentMNVotes, fileVotes)
    }

    constructor ()
      ensures State() == EMPTY
    {
      mapCurrentMNVotes, fileVotes, fDirtyCache := map[], {}, true;
    }

    /** `emplace`: adds an empty record unless there is one. */
    method EmplaceRecord(mn: nat)
      modifies this`mapCurrentMNVotes
      ensures mapCurrentMNVotes == old(mapCurrentMNVotes)[mn := Record(old(mapCurrentMNVotes), mn)]
    {
      if mn !in mapCurrentMNVotes {
        mapCurrentMNVotes := mapCurrentMNVotes[mn := map[]];
      }
    }

    /** `emplace`: adds a default instance unless there is one. */
    method EmplaceInstance(mn: nat, signal: int) returns (i: Instance)
      requires mn in mapCurrentMNVotes
      modifies this`mapCurrentMNVotes
      ensures i == Recorded(old(mapCurrentMNVotes), mn, signal)
      ensures mapCurrentMNVotes == SetRecord(old(mapCurrentMNVotes), mn, signal, i)
    {
      if signal !in mapCurrentMNVotes[mn] {
        mapCurrentMNVotes := mapCurrentMNVotes[mn := mapCurrentMNVotes[mn][signal := DEFAULT]];
      } else {
        assert mapCurrentMNVotes[mn][signal := mapCurrentMNVotes[mn][signal]] == mapCurrentMNVotes[mn];
        assert mapCurrentMNVotes[mn := mapCurrentMNVotes[mn]] == mapCurrentMNVotes;
      }
      i := mapCurrentMNVotes[mn][signal];
    }

    /** `CGovernanceVote::IsValid`, test by test. */
    method CheckVote(vote: Vote, node: Node, now: int) returns (ok: bool)
      ensures ok <==> IsValid(Arrival(vote, now), node)
    {
      if vote.timestamp > now + 60 * 60 {
        return false;
      }
      if vote.signal > MAX_SUPPORTED_VOTE_SIGNAL {
        return false;
      }
      if vote.outcome > 3 {
        return false;
      }
      if !node.has(vote.masternode) {
        return false;
      }
      return node.signed(vote);
    }

    /** Processes one vote; the verdict is what the exception text reports. */
    method ProcessVote(vote: Vote, node: Node, now: int) returns (ok: bool, verdict: Verdict)
      modifies this
      ensures verdict == Judge(old(State()), Arrival(vote, now), node) && (ok <==> verdict == Accepted)
      ensures State() == Step(old(State()), Arrival(vote, now), node)
      ensures fDirtyCache == (old(fDirtyCache) || ok)
    {
      hide Recorded, Record, SetRecord;
      if vote.hash in fileVotes {
        return false, AlreadyKnown;
      }
      if !node.has(vote.masternode) {
        return false, UnknownMasternode;
      }
      EmplaceRecord(vote.masternode);
      if vote.signal == VOTE_SIGNAL_NONE {
        return false, NoSignal;
      }
      if vote.signal > MAX_SUPPORTED_VOTE_SIGNAL {
        return false, UnsupportedSignal;
      }
      var voteInstance := EmplaceInstance(vote.masternode, vote.signal);
      SetAgain(old(mapCurrentMNVotes), vote.masternode, vote.signal, voteInstance);
      if vote.timestamp < voteInstance.nCreationTime {
        return false, Obsolete;
      } else if vote.timestamp == voteInstance.nCreationTime {
        if vote.outcome < voteInstance.eOutcome {
          return false, Outranked;
        }
      }
      var nVoteTimeUpdate := voteInstance.nTime;
      if node.rateChecks {
        if now - voteInstance.nTime < GOVERNANCE_UPDATE_MIN {
          return false, TooOften;
        }
        nVoteTimeUpdate := now;
      }
      var valid := CheckVote(vote, node, now);
      if !valid {
        return false, InvalidVote;
      }
      if !node.addable(vote.masternode) {
        return false, NotAdded;
      }
      var i := Instance(vote.outcome, nVoteTimeUpdate, vote.timestamp);
      SetTwice(old(mapCurrentMNVotes), vote.masternode, vote.signal, voteInstance, i);
      mapCurrentMNVotes := SetRecord(mapCurrentMNVotes, vote.masternode, vote.signal, i);
      fileVotes := fileVotes + {vote.hash};
      fDirtyCache := true;
      return true, Accepted;
    }

    /** Any run ends in the ledger that its arrivals determine. */
    method ProcessAll(arrivals: seq<Arrival>, node: Node)
      requires State() == EMPTY
      modifies this
      ensures State() == Run(arrivals, node)
      ensures !node.rateChecks && HashesIdentify(ArrivalSet(arrivals)) ==> Reflects(State(), ArrivalSet(arrivals), node)
    {
      hide Step, Judge, Reflects, HashesIdentify;
      assert arrivals[..0] == [];
      for i := 0 to |arrivals|
        invariant State() == Run(arrivals[..i], node)
      {
        var ok, verdict := ProcessVote(arrivals[i].vote, node, arrivals[i].now);
        assert arrivals[..i + 1][..i] == arrivals[..i];
      }
      assert arrivals[..|arrivals|] == arrivals;
      if !node.rateChecks && HashesIdentify(ArrivalSet(arrivals)) { RunReflects(arrivals, node); }
    }

    /** Counts the masternodes whose recorded vote on the signal has the outcome. */
    method CountMatchingVotes(signal: int, outcome: int) returns (nCount: nat)
      ensures nCount == |Tally(mapCurrentMNVotes, signal, outcome)|
    {
      nCount := 0;
      var rest := mapCurrentMNVotes.Keys;
      ghost var done: Votes := map[];
      while rest != {}
        invariant rest <= mapCurrentMNVotes.Keys
        invariant done == map mn | mn in mapCurrentMNVotes && mn !in rest :: mapCurrentMNVotes[mn]
        invariant nCount == |Tally(done, signal, outcome)|
        decreases rest
      {
        var mn :| mn in rest;
        var record := mapCurrentMNVotes[mn];
        TallyMore(done, mn, record, signal, outcome);
        if signal in record && record[signal].eOutcome == outcome {
          nCount := nCount + 1;
        }
        rest := rest - {mn};
        done := done[mn := record];
      }
      assert done == mapCurrentMNVotes;
    }

    method GetYesCount(signal: int) returns (n: nat)
      ensures n == |Tally(mapCurrentMNVotes, signal, VOTE_OUTCOME_YES)|
    {
      n := CountMatchingVotes(signal, VOTE_OUTCOME_YES);
    }

    method GetNoCount(signal: int) returns (n: nat)
      ensures n == |Tally(mapCurrentMNVotes, signal, VOTE_OUTCOME_NO)|
    {
      n := CountMatchingVotes(signal, VOTE_OUTCOME_NO);
    }

    method GetAbsoluteYesCount(signal: int) returns (n: int)
      ensures n == |Tally(mapCurrentMNVotes, signal, VOTE_OUTCOME_YES)| - |Tally(mapCurrentMNVotes, signal, VOTE_OUTCOME_NO)|
    {
      var yes: int := GetYesCount(signal);
      var no: int := GetNoCount(signal);
      n := yes - no;
    }
  }

  lemma SetAgain(votes: Votes, mn: nat, signal: int, i: Instance)
    ensures var votes' := votes[mn := Record(votes, mn)];
            Recorded(votes', mn, signal) == Recorded(votes, mn, signal) && SetRecord(votes', mn, signal, i) == SetRecord(votes, mn, signal, i)
  {
  }

  lemma SetTwice(votes: Votes, mn: nat, signal: int, i: Instance, j: Instance)
    ensures SetRecord(SetRecord(votes, mn, signal, i), mn, signal, j) == SetRecord(votes, mn, signal, j)
  {
    var votes' := SetRecord(votes, mn, signal, i);
    assert Record(votes', mn)[signal := j] == Record(votes, mn)[signal := j];
  }

  lemma TallyMore(votes: Votes, mn: nat, record: map<int, Instance>, signal: int, outcome: int)
    requires mn !in votes
    ensures |Tally(votes[mn := record], signal, outcome)| ==
            |Tally(votes, signal, outcome)| + if signal in record && record[signal].eOutcome == outcome then 1 else 0
  {
    var before, after := Tally(votes, signal, outcome), Tally(votes[mn := record], signal, outcome);
    if signal in record && record[signal].eOutcome == outcome {
      assert after == before + {mn};
    } else {
      assert after == before;
    }
  }

  /** Two nodes that got the same votes in different orders, each vote in time at least once, count the same. */
  method CompareNodes(a: seq<Arrival>, b: seq<Arrival>, node: Node, signal: int, outcome: int) returns (m: nat, n: nat)
    requires !node.rateChecks && VoteSet(a) == VoteSet(b)
    requires HashesIdentify(ArrivalSet(a)) && HashesIdentify(ArrivalSet(b))
    requires forall v <- VoteSet(a) :: Sound(v, node) ==> ArrivesInTime(a, v) && ArrivesInTime(b, v)
    ensures m == |Tally(Run(a, node).votes, signal, outcome)| && n == |Tally(Run(b, node).votes, signal, outcome)| && m == n
  {
    hide Reflects, HashesIdentify, Step, Sound, ArrivesInTime;
    OrderIrrelevant(a, b, node);
    var first := new CGovernanceObject();
    first.ProcessAll(a, node);
    var second := new CGovernanceObject();
    second.ProcessAll(b, node);
    m := first.CountMatchingVotes(signal, outcome);
    n := second.CountMatchingVotes(signal, outcome);
  }
}
