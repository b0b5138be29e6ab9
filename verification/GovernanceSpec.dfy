/**
 * Votes on a governance object as values (src/governance-object.cpp): what one vote does to the
 * record, and which record any set of votes leads to.
 */
module GovernanceSpec {

  const VOTE_SIGNAL_NONE := 0
  const MAX_SUPPORTED_VOTE_SIGNAL := 4
  const VOTE_OUTCOME_NONE := 0
  const VOTE_OUTCOME_YES := 1
  const VOTE_OUTCOME_NO := 2
  const VOTE_OUTCOME_ABSTAIN := 3
  const GOVERNANCE_UPDATE_MIN := 60 * 60
  const MAX_TIME_AHEAD := 60 * 60

  /** The hash covers every field but the signature. */
  datatype Vote = Vote(hash: nat, masternode: nat, signal: int, outcome: int, timestamp: int, signature: nat)

  datatype Instance = Instance(eOutcome: int, nTime: int, nCreationTime: int)

  const DEFAULT := Instance(VOTE_OUTCOME_NONE, 0, 0)

  /** Masternode to signal to the vote recorded for it. */
  type Votes = map<nat, map<int, Instance>>

  /** The recorded votes and the hashes in the vote file. */
  datatype Ledger = Ledger(votes: Votes, file: set<nat>)

  const EMPTY := Ledger(map[], {})

  /** What the rest of the node says: known masternodes, genuine signatures, room for the vote. */
  datatype Node = Node(has: nat -> bool, signed: Vote -> bool, addable: nat -> bool, rateChecks: bool)

  /** A vote and the adjusted time at which it is processed. */
  datatype Arrival = Arrival(vote: Vote, now: int)

  datatype Verdict =
    | AlreadyKnown | UnknownMasternode | NoSignal | UnsupportedSignal
    | Obsolete | Outranked | TooOften | InvalidVote | NotAdded | Accepted

  // ----- one vote

  function Record(votes: Votes, mn: nat): map<int, Instance> {
    if mn in votes then votes[mn] else map[]
  }

  function Recorded(votes: Votes, mn: nat, signal: int): Instance {
    if signal in Record(votes, mn) then Record(votes, mn)[signal] else DEFAULT
  }

  function SetRecord(votes: Votes, mn: nat, signal: int, i: Instance): Votes {
    votes[mn := Record(votes, mn)[signal := i]]
  }

  /** The vote is not dated more than an hour ahead of the clock. */
  predicate Timely(a: Arrival) { a.vote.timestamp <= a.now + MAX_TIME_AHEAD }

  /** `CGovernanceVote::IsValid`. */
  predicate IsValid(a: Arrival, node: Node) {
    && Timely(a) && a.vote.signal <= MAX_SUPPORTED_VOTE_SIGNAL && a.vote.outcome <= VOTE_OUTCOME_ABSTAIN
    && node.has(a.vote.masternode) && node.signed(a.vote)
  }

  function Judge(l: Ledger, a: Arrival, node: Node): Verdict {
    var v := a.vote;
    var i := Recorded(l.votes, v.masternode, v.signal);
    if v.hash in l.file then AlreadyKnown
    else if !node.has(v.masternode) then UnknownMasternode
    else if v.signal == VOTE_SIGNAL_NONE then NoSignal
    else if v.signal > MAX_SUPPORTED_VOTE_SIGNAL then UnsupportedSignal
    else if v.timestamp < i.nCreationTime then Obsolete
    else if v.timestamp == i.nCreationTime && v.outcome < i.eOutcome then Outranked
    else if node.rateChecks && a.now - i.nTime < GOVERNANCE_UPDATE_MIN then TooOften
    else if !IsValid(a, node) then InvalidVote
    else if !node.addable(v.masternode) then NotAdded
    else Accepted
  }

  /** Even a rejected vote may leave an empty record, or a default instance, behind. */
  function Step(l: Ledger, a: Arrival, node: Node): Ledger {
    var v := a.vote;
    var i := Recorded(l.votes, v.masternode, v.signal);
    match Judge(l, a, node)
    case AlreadyKnown => l
    case UnknownMasternode => l
    case NoSignal => l.(votes := l.votes[v.masternode := Record(l.votes, v.masternode)])
    case UnsupportedSignal => l.(votes := l.votes[v.masternode := Record(l.votes, v.masternode)])
    case Accepted =>
      var time := if node.rateChecks then a.now else i.nTime;
      Ledger(SetRecord(l.votes, v.masternode, v.signal, Instance(v.outcome, time, v.timestamp)), l.file + {v.hash})
    case _ => l.(votes := SetRecord(l.votes, v.masternode, v.signal, i))
  }

  /** The ledger after a sequence of arrivals. */
  function Run(arrivals: seq<Arrival>, node: Node): Ledger {
    if arrivals == [] then EMPTY else
      var n := |arrivals| - 1;
      Step(Run(arrivals[..n], node), arrivals[n], node)
  }

  // ----- what a set of votes should lead to

  predicate Supported(signal: int) { signal != VOTE_SIGNAL_NONE && signal <= MAX_SUPPORTED_VOTE_SIGNAL }

  /** The vote may decide its masternode's record for its signal, if it does not come too early. */
  predicate Sound(v: Vote, node: Node) {
    && node.has(v.masternode) && Supported(v.signal) && v.outcome <= VOTE_OUTCOME_ABSTAIN
    && node.signed(v) && node.addable(v.masternode)
  }

  /** The arrival may decide the record. */
  predicate Counts(a: Arrival, node: Node) { Sound(a.vote, node) && Timely(a) }

  /** (timestamp, outcome) of the instance is not below the vote's, in lexicographic order. */
  predicate AtLeast(i: Instance, v: Vote) {
    v.timestamp < i.nCreationTime || (v.timestamp == i.nCreationTime && v.outcome <= i.eOutcome)
  }

  predicate IsVoteOf(a: Arrival, mn: nat, signal: int) { a.vote.masternode == mn && a.vote.signal == signal }

  ghost predicate Voted(s: set<Arrival>, mn: nat, node: Node) {
    node.has(mn) && exists a <- s :: a.vote.masternode == mn
  }

  ghost predicate Signalled(s: set<Arrival>, mn: nat, signal: int, node: Node) {
    node.has(mn) && Supported(signal) && exists a <- s :: IsVoteOf(a, mn, signal)
  }

  /** The greatest (timestamp, outcome) among the votes that count and the default (0, none). */
  ghost predicate IsBest(i: Instance, s: set<Arrival>, mn: nat, signal: int, node: Node) {
    && i.nTime == 0
    && (i == DEFAULT || exists a <- s :: IsVoteOf(a, mn, signal) && Counts(a, node) && i == Instance(a.vote.outcome, 0, a.vote.timestamp))
    && (0 < i.nCreationTime || (0 == i.nCreationTime && VOTE_OUTCOME_NONE <= i.eOutcome))
    && forall a <- s :: IsVoteOf(a, mn, signal) && Counts(a, node) ==> AtLeast(i, a.vote)
  }

  ghost predicate Settled(votes: Votes, a: Arrival) {
    a.vote.masternode in votes && a.vote.signal in votes[a.vote.masternode] && AtLeast(votes[a.vote.masternode][a.vote.signal], a.vote)
  }

  /** The ledger is the one the set of votes leads to. */
  ghost predicate Reflects(l: Ledger, s: set<Arrival>, node: Node) {
    && (forall mn :: mn in l.votes <==> Voted(s, mn, node))
    && (forall mn, signal | mn in l.votes :: signal in l.votes[mn] <==> Signalled(s, mn, signal, node))
    && (forall mn, signal | mn in l.votes && signal in l.votes[mn] :: IsBest(l.votes[mn][signal], s, mn, signal, node))
    && (forall h <- l.file :: exists u <- s :: u.vote.hash == h && Settled(l.votes, u))
  }

  /** The same hash means the same vote, up to the signature. */
  ghost predicate HashesIdentify(s: set<Arrival>) {
    forall u <- s, a <- s :: u.vote.hash == a.vote.hash ==>
      u.vote.masternode == a.vote.masternode && u.vote.signal == a.vote.signal && u.vote.outcome == a.vote.outcome && u.vote.timestamp == a.vote.timestamp
  }

  lemma StartReflects(node: Node)
    ensures Reflects(EMPTY, {}, node)
  {
  }

  lemma VotedMore(s: set<Arrival>, a: Arrival, mn: nat, node: Node)
    ensures Voted(s + {a}, mn, node) <==> Voted(s, mn, node) || (node.has(mn) && a.vote.masternode == mn)
  {
  }

  lemma SignalledMore(s: set<Arrival>, a: Arrival, mn: nat, signal: int, node: Node)
    ensures Signalled(s + {a}, mn, signal, node) <==>
            Signalled(s, mn, signal, node) || (node.has(mn) && Supported(signal) && IsVoteOf(a, mn, signal))
  {
  }

  /** A vote that does not count, or is for something else, or is no better, leaves the best as it is. */
  lemma BestKept(i: Instance, s: set<Arrival>, a: Arrival, mn: nat, signal: int, node: Node)
    requires IsBest(i, s, mn, signal, node)
    requires !IsVoteOf(a, mn, signal) || !Counts(a, node) || AtLeast(i, a.vote)
    ensures IsBest(i, s + {a}, mn, signal, node)
  {
  }

  lemma BestReplaced(i: Instance, s: set<Arrival>, a: Arrival, node: Node)
    requires IsBest(i, s, a.vote.masternode, a.vote.signal, node) && Counts(a, node)
    requires i.nCreationTime < a.vote.timestamp || (i.nCreationTime == a.vote.timestamp && i.eOutcome <= a.vote.outcome)
    ensures IsBest(Instance(a.vote.outcome, 0, a.vote.timestamp), s + {a}, a.vote.masternode, a.vote.signal, node)
  {
    assert a in s + {a};
  }

  lemma BestOfNone(s: set<Arrival>, mn: nat, signal: int, node: Node)
    requires !Signalled(s, mn, signal, node)
    ensures IsBest(DEFAULT, s, mn, signal, node)
  {
  }

  // ----- each step keeps it

  lemma RecordedBest(l: Ledger, s: set<Arrival>, mn: nat, signal: int, node: Node)
    requires Reflects(l, s, node) && node.has(mn) && Supported(signal)
    ensures IsBest(Recorded(l.votes, mn, signal), s, mn, signal, node)
  {
    if mn !in l.votes {
      assert !Voted(s, mn, node);
      BestOfNone(s, mn, signal, node);
    } else if signal !in l.votes[mn] {
      BestOfNone(s, mn, signal, node);
    }
  }

  /** Recording an instance for the vote's masternode and signal. */
  lemma SetKeeps(l: Ledger, s: set<Arrival>, a: Arrival, node: Node, i: Instance, file: set<nat>)
    requires Reflects(l, s, node) && node.has(a.vote.masternode) && Supported(a.vote.signal)
    requires IsBest(i, s + {a}, a.vote.masternode, a.vote.signal, node)
    requires var o := Recorded(l.votes, a.vote.masternode, a.vote.signal);
             o.nCreationTime < i.nCreationTime || (o.nCreationTime == i.nCreationTime && o.eOutcome <= i.eOutcome)
    requires file == l.file || (file == l.file + {a.vote.hash} && AtLeast(i, a.vote))
    ensures Reflects(Ledger(SetRecord(l.votes, a.vote.masternode, a.vote.signal, i), file), s + {a}, node)
  {
    hide IsBest, AtLeast, Counts;
    var l' := Ledger(SetRecord(l.votes, a.vote.masternode, a.vote.signal, i), file);
    forall mn ensures mn in l'.votes <==> Voted(s + {a}, mn, node) { VotedMore(s, a, mn, node); }
    forall mn, signal | mn in l'.votes
      ensures signal in l'.votes[mn] <==> Signalled(s + {a}, mn, signal, node)
      ensures signal in l'.votes[mn] ==> IsBest(l'.votes[mn][signal], s + {a}, mn, signal, node)
    {
      SignalledMore(s, a, mn, signal, node);
      assert mn !in l.votes ==> !Voted(s, mn, node);
      if signal in l'.votes[mn] && !IsVoteOf(a, mn, signal) {
        BestKept(l.votes[mn][signal], s, a, mn, signal, node);
      }
    }
    FileKeeps(l, s, a, i, file);
  }

  /** What was settled stays settled when the record rises. */
  lemma FileKeeps(l: Ledger, s: set<Arrival>, a: Arrival, i: Instance, file: set<nat>)
    requires forall h <- l.file :: exists u <- s :: u.vote.hash == h && Settled(l.votes, u)
    requires var o := Recorded(l.votes, a.vote.masternode, a.vote.signal);
             o.nCreationTime < i.nCreationTime || (o.nCreationTime == i.nCreationTime && o.eOutcome <= i.eOutcome)
    requires file == l.file || (file == l.file + {a.vote.hash} && AtLeast(i, a.vote))
    ensures forall h <- file :: exists u <- s + {a} :: u.vote.hash == h && Settled(SetRecord(l.votes, a.vote.masternode, a.vote.signal, i), u)
  {
    var votes := SetRecord(l.votes, a.vote.masternode, a.vote.signal, i);
    forall h <- file ensures exists u <- s + {a} :: u.vote.hash == h && Settled(votes, u) {
      if h in l.file {
        var u :| u in s && u.vote.hash == h && Settled(l.votes, u);
        assert u in s + {a} && Settled(votes, u);
      } else {
        assert a in s + {a} && Settled(votes, a);
      }
    }
  }

  /** A vote in the file already, under whatever signature, changes nothing that matters. */
  lemma KnownKeeps(l: Ledger, s: set<Arrival>, a: Arrival, node: Node)
    requires Reflects(l, s, node) && a.vote.hash in l.file && HashesIdentify(s + {a})
    ensures Reflects(l, s + {a}, node)
  {
    hide IsBest, Counts;
    var u :| u in s && u.vote.hash == a.vote.hash && Settled(l.votes, u);
    assert u in s + {a} && a in s + {a};
    forall mn ensures mn in l.votes <==> Voted(s + {a}, mn, node) { VotedMore(s, a, mn, node); }
    forall mn, signal | mn in l.votes
      ensures signal in l.votes[mn] <==> Signalled(s + {a}, mn, signal, node)
      ensures signal in l.votes[mn] ==> IsBest(l.votes[mn][signal], s + {a}, mn, signal, node)
    {
      SignalledMore(s, a, mn, signal, node);
      assert IsVoteOf(a, mn, signal) ==> IsVoteOf(u, mn, signal);
      if signal in l.votes[mn] { BestKept(l.votes[mn][signal], s, a, mn, signal, node); }
    }
    FileGrows(l, s, a);
  }

  lemma FileGrows(l: Ledger, s: set<Arrival>, a: Arrival)
    requires forall h <- l.file :: exists u <- s :: u.vote.hash == h && Settled(l.votes, u)
    ensures forall h <- l.file :: exists u <- s + {a} :: u.vote.hash == h && Settled(l.votes, u)
  {
    forall h <- l.file ensures exists u <- s + {a} :: u.vote.hash == h && Settled(l.votes, u) {
      var u :| u in s && u.vote.hash == h && Settled(l.votes, u);
      assert u in s + {a};
    }
  }

  /** A vote with no usable signal, or from an unknown masternode. */
  lemma IdleKeeps(l: Ledger, s: set<Arrival>, a: Arrival, node: Node, votes: Votes)
    requires Reflects(l, s, node) && (!node.has(a.vote.masternode) || !Supported(a.vote.signal))
    requires votes == if node.has(a.vote.masternode) then l.votes[a.vote.masternode := Record(l.votes, a.vote.masternode)] else l.votes
    ensures Reflects(l.(votes := votes), s + {a}, node)
  {
    hide IsBest;
    forall mn ensures mn in votes <==> Voted(s + {a}, mn, node) { VotedMore(s, a, mn, node); }
    forall mn, signal | mn in votes
      ensures signal in votes[mn] <==> Signalled(s + {a}, mn, signal, node)
      ensures signal in votes[mn] ==> IsBest(votes[mn][signal], s + {a}, mn, signal, node)
    {
      SignalledMore(s, a, mn, signal, node);
      assert mn !in l.votes ==> !Voted(s, mn, node);
      if signal in votes[mn] { BestKept(l.votes[mn][signal], s, a, mn, signal, node); }
    }
    forall h <- l.file ensures exists u <- s + {a} :: u.vote.hash == h && Settled(votes, u) {
      var u :| u in s && u.vote.hash == h && Settled(l.votes, u);
      assert u in s + {a} && Settled(votes, u);
    }
  }

  /** With rate checks off, processing a vote keeps the ledger in step with the votes seen. */
  lemma StepKeeps(l: Ledger, s: set<Arrival>, a: Arrival, node: Node)
    requires Reflects(l, s, node) && !node.rateChecks && HashesIdentify(s + {a})
    ensures Reflects(Step(l, a, node), s + {a}, node)
  {
    hide Reflects, IsBest, HashesIdentify;
    var verdict := Judge(l, a, node);
    if verdict == AlreadyKnown {
      KnownKeeps(l, s, a, node);
    } else if verdict == UnknownMasternode || verdict == NoSignal || verdict == UnsupportedSignal {
      IdleKeeps(l, s, a, node, Step(l, a, node).votes);
    } else {
      var i := Recorded(l.votes, a.vote.masternode, a.vote.signal);
      RecordedBest(l, s, a.vote.masternode, a.vote.signal, node);
      BestTime(i, s, a.vote.masternode, a.vote.signal, node);
      if verdict == Accepted {
        BestReplaced(i, s, a, node);
        SetKeeps(l, s, a, node, Instance(a.vote.outcome, 0, a.vote.timestamp), l.file + {a.vote.hash});
      } else {
        BestKept(i, s, a, a.vote.masternode, a.vote.signal, node);
        SetKeeps(l, s, a, node, i, l.file);
      }
    }
  }

  lemma BestTime(i: Instance, s: set<Arrival>, mn: nat, signal: int, node: Node)
    requires IsBest(i, s, mn, signal, node)
    ensures i.nTime == 0
  {
  }

  // ----- whole runs

  function ArrivalSet(arrivals: seq<Arrival>): set<Arrival> { set a | a in arrivals }

  lemma SetSnoc(arrivals: seq<Arrival>)
    requires arrivals != []
    ensures var n := |arrivals| - 1; ArrivalSet(arrivals) == ArrivalSet(arrivals[..n]) + {arrivals[n]}
  {
    assert arrivals == arrivals[..|arrivals| - 1] + [arrivals[|arrivals| - 1]];
  }

  /** After any run the record of each masternode and signal is the greatest arrival that counts. */
  lemma {:induction false} RunReflects(arrivals: seq<Arrival>, node: Node)
    requires !node.rateChecks && HashesIdentify(ArrivalSet(arrivals))
    ensures Reflects(Run(arrivals, node), ArrivalSet(arrivals), node)
  {
    if arrivals == [] {
      StartReflects(node);
      assert ArrivalSet(arrivals) == {};
    } else {
      var n := |arrivals| - 1;
      SetSnoc(arrivals);
      RunReflects(arrivals[..n], node);
      StepKeeps(Run(arrivals[..n], node), ArrivalSet(arrivals[..n]), arrivals[n], node);
    }
  }

  lemma BestUnique(i: Instance, j: Instance, s: set<Arrival>, mn: nat, signal: int, node: Node)
    requires IsBest(i, s, mn, signal, node) && IsBest(j, s, mn, signal, node)
    ensures i == j
  {
  }

  /** A set of arrivals determines the whole record. */
  lemma Determined(l: Ledger, m: Ledger, s: set<Arrival>, node: Node)
    requires Reflects(l, s, node) && Reflects(m, s, node)
    ensures l.votes == m.votes
  {
    hide IsBest;
    forall mn | mn in l.votes ensures mn in m.votes && l.votes[mn] == m.votes[mn] {
      assert Voted(s, mn, node);
      forall signal | signal in l.votes[mn] ensures signal in m.votes[mn] && l.votes[mn][signal] == m.votes[mn][signal] {
        assert Signalled(s, mn, signal, node);
        BestUnique(l.votes[mn][signal], m.votes[mn][signal], s, mn, signal, node);
      }
      forall signal ensures signal in l.votes[mn] <==> signal in m.votes[mn] {
        assert signal in l.votes[mn] <==> Signalled(s, mn, signal, node);
      }
      assert l.votes[mn].Keys == m.votes[mn].Keys;
    }
    assert forall mn | mn in m.votes :: Voted(s, mn, node);
    assert l.votes.Keys == m.votes.Keys;
  }

  // ----- votes, whenever they arrive

  function VoteSet(arrivals: seq<Arrival>): set<Vote> { set a | a in arrivals :: a.vote }

  /** The greatest (timestamp, outcome) among the votes that could count and the default, whatever the clock says. */
  ghost predicate IsIdeal(i: Instance, s: set<Vote>, mn: nat, signal: int, node: Node) {
    && i.nTime == 0
    && (i == DEFAULT || exists v <- s :: v.masternode == mn && v.signal == signal && Sound(v, node) && i == Instance(v.outcome, 0, v.timestamp))
    && (0 < i.nCreationTime || (0 == i.nCreationTime && VOTE_OUTCOME_NONE <= i.eOutcome))
    && forall v <- s :: v.masternode == mn && v.signal == signal && Sound(v, node) ==> AtLeast(i, v)
  }

  /** The vote arrives at least once no more than an hour before its timestamp. */
  ghost predicate ArrivesInTime(arrivals: seq<Arrival>, v: Vote) {
    exists a :: a in arrivals && a.vote == v && Timely(a)
  }

  /** Some vote with the winning timestamp and outcome that could count arrives in time. */
  ghost predicate WinnerInTime(i: Instance, arrivals: seq<Arrival>, mn: nat, signal: int, node: Node) {
    exists a :: a in arrivals && IsVoteOf(a, mn, signal) && Counts(a, node) && i == Instance(a.vote.outcome, 0, a.vote.timestamp)
  }

  /**
   * The record is the one that the set of votes calls for if and only if it calls for none or
   * the winning vote comes at least once no more than an hour ahead of its timestamp.
   */
  lemma RecordIdealExactlyWhen(arrivals: seq<Arrival>, node: Node, mn: nat, signal: int, i: Instance)
    requires !node.rateChecks && HashesIdentify(ArrivalSet(arrivals)) && node.has(mn) && Supported(signal)
    requires IsIdeal(i, VoteSet(arrivals), mn, signal, node)
    ensures Recorded(Run(arrivals, node).votes, mn, signal) == i <==> i == DEFAULT || WinnerInTime(i, arrivals, mn, signal, node)
  {
    RunReflects(arrivals, node);
    var s := ArrivalSet(arrivals);
    var j := Recorded(Run(arrivals, node).votes, mn, signal);
    RecordedBest(Run(arrivals, node), s, mn, signal, node);
    forall a | a in s && IsVoteOf(a, mn, signal) && Counts(a, node) ensures AtLeast(i, a.vote) { assert a.vote in VoteSet(arrivals); }
    if i == DEFAULT || WinnerInTime(i, arrivals, mn, signal, node) {
      assert IsBest(i, s, mn, signal, node);
      BestUnique(i, j, s, mn, signal, node);
    }
  }

  /** Whatever the votes, one instance is what they call for. */
  lemma IdealUnique(i: Instance, j: Instance, s: set<Vote>, mn: nat, signal: int, node: Node)
    requires IsIdeal(i, s, mn, signal, node) && IsIdeal(j, s, mn, signal, node)
    ensures i == j
  {
  }

  /** When every vote that could count comes in time at least once, the greatest arrival is the greatest vote. */
  lemma TimelyBest(i: Instance, arrivals: seq<Arrival>, mn: nat, signal: int, node: Node)
    requires IsBest(i, ArrivalSet(arrivals), mn, signal, node)
    requires forall v <- VoteSet(arrivals) :: Sound(v, node) ==> ArrivesInTime(arrivals, v)
    ensures IsIdeal(i, VoteSet(arrivals), mn, signal, node)
  {
    forall v <- VoteSet(arrivals) | v.masternode == mn && v.signal == signal && Sound(v, node) ensures AtLeast(i, v) {
      var a :| a in arrivals && a.vote == v && Timely(a);
      assert a in ArrivalSet(arrivals) && IsVoteOf(a, mn, signal) && Counts(a, node);
    }
    if i != DEFAULT {
      var a :| a in ArrivalSet(arrivals) && IsVoteOf(a, mn, signal) && Counts(a, node) && i == Instance(a.vote.outcome, 0, a.vote.timestamp);
      assert a.vote in VoteSet(arrivals);
    }
  }

  lemma SameKeys(a: seq<Arrival>, b: seq<Arrival>, mn: nat, signal: int, node: Node)
    requires VoteSet(a) == VoteSet(b) && Signalled(ArrivalSet(a), mn, signal, node)
    ensures Signalled(ArrivalSet(b), mn, signal, node)
  {
    var x :| x in ArrivalSet(a) && IsVoteOf(x, mn, signal);
    assert x.vote in VoteSet(b);
    var y :| y in b && y.vote == x.vote;
    assert y in ArrivalSet(b) && IsVoteOf(y, mn, signal);
  }

  lemma SameVoters(a: seq<Arrival>, b: seq<Arrival>, mn: nat, node: Node)
    requires VoteSet(a) == VoteSet(b) && Voted(ArrivalSet(a), mn, node)
    ensures Voted(ArrivalSet(b), mn, node)
  {
    var x :| x in ArrivalSet(a) && x.vote.masternode == mn;
    assert x.vote in VoteSet(b);
    var y :| y in b && y.vote == x.vote;
    assert y in ArrivalSet(b);
  }

  lemma SameRecord(l: Ledger, m: Ledger, a: seq<Arrival>, b: seq<Arrival>, mn: nat, node: Node)
    requires Reflects(l, ArrivalSet(a), node) && Reflects(m, ArrivalSet(b), node) && VoteSet(a) == VoteSet(b)
    requires forall v <- VoteSet(a) :: Sound(v, node) ==> ArrivesInTime(a, v) && ArrivesInTime(b, v)
    requires mn in l.votes && mn in m.votes
    ensures l.votes[mn] == m.votes[mn]
  {
    hide IsBest, IsIdeal, Signalled, VoteSet, ArrivalSet;
    forall signal ensures signal in l.votes[mn] <==> signal in m.votes[mn] {
      if signal in l.votes[mn] { SameKeys(a, b, mn, signal, node); }
      if signal in m.votes[mn] { SameKeys(b, a, mn, signal, node); }
    }
    forall signal | signal in l.votes[mn] ensures l.votes[mn][signal] == m.votes[mn][signal] {
      TimelyBest(l.votes[mn][signal], a, mn, signal, node);
      TimelyBest(m.votes[mn][signal], b, mn, signal, node);
      IdealUnique(l.votes[mn][signal], m.votes[mn][signal], VoteSet(a), mn, signal, node);
    }
    assert l.votes[mn].Keys == m.votes[mn].Keys;
  }

  /**
   * Nodes that receive the same votes, in any order and any number of times, record the same,
   * provided that each vote that could count reaches each of them at least once in time.
   */
  lemma OrderIrrelevant(a: seq<Arrival>, b: seq<Arrival>, node: Node)
    requires !node.rateChecks && VoteSet(a) == VoteSet(b)
    requires HashesIdentify(ArrivalSet(a)) && HashesIdentify(ArrivalSet(b))
    requires forall v <- VoteSet(a) :: Sound(v, node) ==> ArrivesInTime(a, v) && ArrivesInTime(b, v)
    ensures Run(a, node).votes == Run(b, node).votes
  {
    RunReflects(a, node);
    RunReflects(b, node);
    var l, m := Run(a, node), Run(b, node);
    hide Run, HashesIdentify, VoteSet, ArrivalSet;
    forall mn ensures mn in l.votes <==> mn in m.votes {
      if mn in l.votes { SameVoters(a, b, mn, node); }
      if mn in m.votes { SameVoters(b, a, mn, node); }
    }
    forall mn | mn in l.votes ensures l.votes[mn] == m.votes[mn] { SameRecord(l, m, a, b, mn, node); }
    assert l.votes.Keys == m.votes.Keys;
  }

  lemma {:induction false} IdealExists(s: set<Vote>, mn: nat, signal: int, node: Node) returns (i: Instance)
    ensures IsIdeal(i, s, mn, signal, node)
    decreases |s|
  {
    if s == {} {
      i := DEFAULT;
    } else {
      var v :| v in s;
      var j := IdealExists(s - {v}, mn, signal, node);
      var better := v.masternode == mn && v.signal == signal && Sound(v, node) && !AtLeast(j, v);
      i := if better then Instance(v.outcome, 0, v.timestamp) else j;
      assert s == (s - {v}) + {v};
    }
  }

  /** In every run the votes call for one instance, and the record is that one exactly under the condition above. */
  lemma RecordOrLost(arrivals: seq<Arrival>, node: Node, mn: nat, signal: int) returns (i: Instance)
    requires !node.rateChecks && HashesIdentify(ArrivalSet(arrivals)) && node.has(mn) && Supported(signal)
    ensures IsIdeal(i, VoteSet(arrivals), mn, signal, node)
    ensures forall j | IsIdeal(j, VoteSet(arrivals), mn, signal, node) :: j == i
    ensures Recorded(Run(arrivals, node).votes, mn, signal) == i <==> i == DEFAULT || WinnerInTime(i, arrivals, mn, signal, node)
  {
    i := IdealExists(VoteSet(arrivals), mn, signal, node);
    RecordIdealExactlyWhen(arrivals, node, mn, signal, i);
    forall j | IsIdeal(j, VoteSet(arrivals), mn, signal, node) ensures j == i { IdealUnique(i, j, VoteSet(arrivals), mn, signal, node); }
  }

  // ----- the vote file

  /** The arrival counts, and neither the default nor an earlier one that counts is above it. */
  ghost predicate Leads(arrivals: seq<Arrival>, i: nat, node: Node) {
    && i < |arrivals| && Counts(arrivals[i], node)
    && (var v := arrivals[i].vote;
        && AtLeast(Instance(v.outcome, 0, v.timestamp), Vote(0, 0, 0, VOTE_OUTCOME_NONE, 0, 0))
        && forall j | 0 <= j < i :: IsVoteOf(arrivals[j], v.masternode, v.signal) && Counts(arrivals[j], node) ==>
             AtLeast(Instance(v.outcome, 0, v.timestamp), arrivals[j].vote))
  }

  lemma IdentifyPrefix(arrivals: seq<Arrival>, n: nat)
    requires n <= |arrivals| && HashesIdentify(ArrivalSet(arrivals))
    ensures HashesIdentify(ArrivalSet(arrivals[..n]))
  {
  }

  /** The last arrival is filed, or was before, exactly when it counts and leads. */
  lemma LastFiled(arrivals: seq<Arrival>, node: Node)
    requires !node.rateChecks && arrivals != [] && HashesIdentify(ArrivalSet(arrivals))
    ensures var n := |arrivals| - 1; var l := Run(arrivals[..n], node);
            && (Judge(l, arrivals[n], node) == Accepted ==> Leads(arrivals, n, node))
            && (Leads(arrivals, n, node) ==> Judge(l, arrivals[n], node) in {AlreadyKnown, Accepted})
  {
    var n := |arrivals| - 1;
    var pre, a := arrivals[..n], arrivals[n];
    IdentifyPrefix(arrivals, n);
    RunReflects(pre, node);
    var l := Run(pre, node);
    if node.has(a.vote.masternode) && Supported(a.vote.signal) {
      RecordedBest(l, ArrivalSet(pre), a.vote.masternode, a.vote.signal, node);
      hide Reflects, Run, HashesIdentify;
      assert forall j | 0 <= j < n :: arrivals[j] in ArrivalSet(pre) by {
        assert forall j | 0 <= j < n :: pre[j] == arrivals[j];
      }
      assert forall x <- ArrivalSet(pre) :: exists j | 0 <= j < n :: arrivals[j] == x;
    }
  }

  /** A hash is in the vote file if and only if it is that of an arrival that counted and led when it came. */
  lemma {:induction false} FileExactly(arrivals: seq<Arrival>, node: Node, h: nat)
    requires !node.rateChecks && HashesIdentify(ArrivalSet(arrivals))
    ensures h in Run(arrivals, node).file <==> exists i: nat :: Leads(arrivals, i, node) && arrivals[i].vote.hash == h
  {
    if arrivals != [] {
      var n := |arrivals| - 1;
      var pre := arrivals[..n];
      IdentifyPrefix(arrivals, n);
      FileExactly(pre, node, h);
      LastFiled(arrivals, node);
      forall i: nat | i < n ensures Leads(arrivals, i, node) <==> Leads(pre, i, node) {
        assert forall j | 0 <= j <= i :: pre[j] == arrivals[j];
      }
      hide HashesIdentify, Leads;
      StepFile(Run(pre, node), arrivals[n], node);
      if h in Run(pre, node).file {
        var i: nat :| Leads(pre, i, node) && pre[i].vote.hash == h;
        LeadsInside(pre, i, node);
        assert Leads(arrivals, i, node) && arrivals[i].vote.hash == h;
      } else if h in Run(arrivals, node).file {
        assert Leads(arrivals, n, node) && arrivals[n].vote.hash == h;
      }
      if i: nat :| Leads(arrivals, i, node) && arrivals[i].vote.hash == h {
        LeadsInside(arrivals, i, node);
        assert i < n ==> Leads(pre, i, node) && pre[i].vote.hash == h;
      }
    }
  }

  lemma LeadsInside(arrivals: seq<Arrival>, i: nat, node: Node)
    requires Leads(arrivals, i, node)
    ensures i < |arrivals|
  {
  }

  lemma StepFile(l: Ledger, a: Arrival, node: Node)
    ensures Step(l, a, node).file == if Judge(l, a, node) == Accepted then l.file + {a.vote.hash} else l.file
    ensures Judge(l, a, node) == AlreadyKnown ==> a.vote.hash in l.file
  {
  }

  // ----- rate checks

  /** The record without the times of processing. */
  function Stripped(votes: Votes): Votes {
    map mn | mn in votes :: map signal | signal in votes[mn] :: votes[mn][signal].(nTime := 0)
  }

  function Unchecked(node: Node): Node { node.(rateChecks := false) }

  /** Unless it is refused for coming too often, a vote does the same with and without rate checks. */
  lemma StepStripped(l: Ledger, m: Ledger, a: Arrival, node: Node)
    requires m == Ledger(Stripped(l.votes), l.file) && Judge(l, a, node) != TooOften
    ensures Judge(m, a, Unchecked(node)) == Judge(l, a, node)
    ensures var l' := Step(l, a, node); Step(m, a, Unchecked(node)) == Ledger(Stripped(l'.votes), l'.file)
  {
    var mn, signal := a.vote.masternode, a.vote.signal;
    StrippedAt(l.votes, mn, signal);
    hide Stripped, Recorded, SetRecord;
    StrippedRecord(l.votes, mn);
    var i := Recorded(l.votes, mn, signal);
    StrippedSet(l.votes, mn, signal, i);
    StrippedSet(l.votes, mn, signal, Instance(a.vote.outcome, if node.rateChecks then a.now else i.nTime, a.vote.timestamp));
    var j := Recorded(m.votes, mn, signal);
    assert j == i.(nTime := 0);
  }

  lemma StrippedAt(votes: Votes, mn: nat, signal: int)
    ensures Recorded(Stripped(votes), mn, signal) == Recorded(votes, mn, signal).(nTime := 0)
  {
  }

  lemma StrippedRecord(votes: Votes, mn: nat)
    ensures Stripped(votes[mn := Record(votes, mn)]) == Stripped(votes)[mn := Record(Stripped(votes), mn)]
  {
    var x, y := Stripped(votes[mn := Record(votes, mn)]), Stripped(votes)[mn := Record(Stripped(votes), mn)];
    assert x.Keys == y.Keys;
    forall k | k in x ensures x[k] == y[k] { assert x[k].Keys == y[k].Keys; }
  }

  lemma StrippedSet(votes: Votes, mn: nat, signal: int, i: Instance)
    ensures Stripped(SetRecord(votes, mn, signal, i)) == SetRecord(Stripped(votes), mn, signal, i.(nTime := 0))
  {
    var x, y := Stripped(SetRecord(votes, mn, signal, i)), SetRecord(Stripped(votes), mn, signal, i.(nTime := 0));
    assert x.Keys == y.Keys;
    forall k | k in x ensures x[k] == y[k] { assert x[k].Keys == y[k].Keys; }
  }

  ghost predicate NeverTooOften(arrivals: seq<Arrival>, node: Node) {
    forall i | 0 <= i < |arrivals| :: Judge(Run(arrivals[..i], node), arrivals[i], node) != TooOften
  }

  /** A run in which no vote comes too often records and files what it would without rate checks. */
  lemma {:induction false} RateChecksHarmless(arrivals: seq<Arrival>, node: Node)
    requires NeverTooOften(arrivals, node)
    ensures Run(arrivals, Unchecked(node)) == Ledger(Stripped(Run(arrivals, node).votes), Run(arrivals, node).file)
  {
    if arrivals == [] {
      assert Stripped(EMPTY.votes) == map[];
    } else {
      var n := |arrivals| - 1;
      var pre := arrivals[..n];
      assert forall i | 0 <= i < n :: pre[i] == arrivals[i] && pre[..i] == arrivals[..i];
      RateChecksHarmless(pre, node);
      StepStripped(Run(pre, node), Run(pre, Unchecked(node)), arrivals[n], node);
    }
  }

  /** Each processing time that is recorded is that of an arrival that counts. */
  ghost predicate TimeFrom(arrivals: seq<Arrival>, i: Instance, mn: nat, signal: int, node: Node) {
    i.nTime == 0 || exists j | 0 <= j < |arrivals| :: IsVoteOf(arrivals[j], mn, signal) && Counts(arrivals[j], node) && arrivals[j].now == i.nTime
  }

  lemma {:induction false} RecordedTimes(arrivals: seq<Arrival>, node: Node, mn: nat, signal: int)
    ensures TimeFrom(arrivals, Recorded(Run(arrivals, node).votes, mn, signal), mn, signal, node)
  {
    if arrivals != [] {
      var n := |arrivals| - 1;
      var pre, a := arrivals[..n], arrivals[n];
      RecordedTimes(pre, node, mn, signal);
      var i, i' := Recorded(Run(pre, node).votes, mn, signal), Recorded(Run(arrivals, node).votes, mn, signal);
      StepRecorded(Run(pre, node), a, node, mn, signal);
      if i' == i && i.nTime != 0 {
        var j :| 0 <= j < |pre| && IsVoteOf(pre[j], mn, signal) && Counts(pre[j], node) && pre[j].now == i.nTime;
        assert arrivals[j] == pre[j];
      }
    }
  }

  lemma StepRecorded(l: Ledger, a: Arrival, node: Node, mn: nat, signal: int)
    ensures var i, i' := Recorded(l.votes, mn, signal), Recorded(Step(l, a, node).votes, mn, signal);
            i' == i || (IsVoteOf(a, mn, signal) && Counts(a, node) && i'.nTime == if node.rateChecks then a.now else i.nTime)
  {
  }

  /** Votes of one masternode on one signal that are an hour apart are never too often. */
  lemma SpacedNeverTooOften(arrivals: seq<Arrival>, node: Node)
    requires forall i | 0 <= i < |arrivals| :: GOVERNANCE_UPDATE_MIN <= arrivals[i].now
    requires forall i, j | 0 <= j < i < |arrivals| ::
               IsVoteOf(arrivals[j], arrivals[i].vote.masternode, arrivals[i].vote.signal) ==> GOVERNANCE_UPDATE_MIN <= arrivals[i].now - arrivals[j].now
    ensures NeverTooOften(arrivals, node)
  {
    forall i | 0 <= i < |arrivals| ensures Judge(Run(arrivals[..i], node), arrivals[i], node) != TooOften {
      RecordedTimes(arrivals[..i], node, arrivals[i].vote.masternode, arrivals[i].vote.signal);
    }
  }

  /** (timestamp, outcome) of the first is not below that of the second. */
  predicate NotBelow(i: Instance, j: Instance) {
    j.nCreationTime < i.nCreationTime || (j.nCreationTime == i.nCreationTime && j.eOutcome <= i.eOutcome)
  }

  /** The arrival has the timestamp and outcome of the instance, counts, and is not refused for coming too often. */
  ghost predicate Passes(arrivals: seq<Arrival>, i: nat, mn: nat, signal: int, node: Node, w: Instance) {
    && i < |arrivals| && IsVoteOf(arrivals[i], mn, signal) && Counts(arrivals[i], node)
    && w == Instance(arrivals[i].vote.outcome, 0, arrivals[i].vote.timestamp)
    && Judge(Run(arrivals[..i], node), arrivals[i], node) != TooOften
  }

  /** A record changes only by accepting a vote, and never falls. */
  lemma StepGrows(l: Ledger, a: Arrival, node: Node, mn: nat, signal: int)
    ensures var i, i' := Recorded(l.votes, mn, signal), Recorded(Step(l, a, node).votes, mn, signal);
            && NotBelow(i', i)
            && (i' != i ==> Judge(l, a, node) == Accepted && IsVoteOf(a, mn, signal) && Counts(a, node))
            && (Judge(l, a, node) == Accepted && IsVoteOf(a, mn, signal) ==> i'.(nTime := 0) == Instance(a.vote.outcome, 0, a.vote.timestamp))
  {
  }

  lemma {:induction false} RunGrows(arrivals: seq<Arrival>, node: Node, n: nat, mn: nat, signal: int)
    requires n <= |arrivals|
    ensures NotBelow(Recorded(Run(arrivals, node).votes, mn, signal), Recorded(Run(arrivals[..n], node).votes, mn, signal))
    decreases |arrivals|
  {
    hide Step, Recorded;
    if n == |arrivals| {
      assert arrivals[..n] == arrivals;
    } else {
      var m := |arrivals| - 1;
      assert arrivals[..m][..n] == arrivals[..n];
      RunGrows(arrivals[..m], node, n, mn, signal);
      StepGrows(Run(arrivals[..m], node), arrivals[m], node, mn, signal);
    }
  }

  /** Every record comes from an arrival that passed, or is the default. */
  lemma {:induction false} RecordPassed(arrivals: seq<Arrival>, node: Node, mn: nat, signal: int)
    ensures var r := Recorded(Run(arrivals, node).votes, mn, signal).(nTime := 0);
            r == DEFAULT || exists i: nat :: Passes(arrivals, i, mn, signal, node, r)
  {
    hide Step, Judge, Counts;
    if arrivals != [] {
      var n := |arrivals| - 1;
      var pre, a := arrivals[..n], arrivals[n];
      RecordPassed(pre, node, mn, signal);
      StepGrows(Run(pre, node), a, node, mn, signal);
      var i, i' := Recorded(Run(pre, node).votes, mn, signal), Recorded(Run(arrivals, node).votes, mn, signal);
      if i' != i {
        assert Passes(arrivals, n, mn, signal, node, i'.(nTime := 0));
      } else if i.(nTime := 0) != DEFAULT {
        var j: nat :| Passes(pre, j, mn, signal, node, i.(nTime := 0));
        assert arrivals[j] == pre[j] && arrivals[..j] == pre[..j];
        assert Passes(arrivals, j, mn, signal, node, i.(nTime := 0));
      }
    }
  }

  /** What is in the file has been recorded, or something above it. */
  lemma {:induction false} FiledRecorded(arrivals: seq<Arrival>, node: Node, h: nat) returns (j: nat)
    requires h in Run(arrivals, node).file
    ensures j < |arrivals| && arrivals[j].vote.hash == h
    ensures var v := arrivals[j].vote;
            NotBelow(Recorded(Run(arrivals, node).votes, v.masternode, v.signal), Instance(v.outcome, 0, v.timestamp))
  {
    hide Step, Judge;
    var n := |arrivals| - 1;
    var pre, a := arrivals[..n], arrivals[n];
    StepFile(Run(pre, node), a, node);
    if h in Run(pre, node).file {
      j := FiledRecorded(pre, node, h);
      StepGrows(Run(pre, node), a, node, pre[j].vote.masternode, pre[j].vote.signal);
    } else {
      j := n;
      StepGrows(Run(pre, node), a, node, a.vote.masternode, a.vote.signal);
    }
  }

  /** An arrival that counts and passes is recorded, or something above it. */
  lemma PassedRecorded(arrivals: seq<Arrival>, node: Node, i: nat, mn: nat, signal: int, w: Instance)
    requires HashesIdentify(ArrivalSet(arrivals)) && Passes(arrivals, i, mn, signal, node, w)
    ensures NotBelow(Recorded(Run(arrivals, node).votes, mn, signal), w)
  {
    hide Step, HashesIdentify;
    var pre, a := arrivals[..i], arrivals[i];
    var l := Run(pre, node);
    var upto := arrivals[..i + 1];
    assert upto[..i] == pre;
    StepGrows(l, a, node, mn, signal);
    RunGrows(arrivals, node, i + 1, mn, signal);
    if a.vote.hash in l.file {
      var j := FiledRecorded(pre, node, a.vote.hash);
      SameHash(arrivals, j, i);
    }
  }

  lemma SameHash(arrivals: seq<Arrival>, i: nat, j: nat)
    requires HashesIdentify(ArrivalSet(arrivals)) && i < |arrivals| && j < |arrivals| && arrivals[i].vote.hash == arrivals[j].vote.hash
    ensures var u, v := arrivals[i].vote, arrivals[j].vote;
            u.masternode == v.masternode && u.signal == v.signal && u.outcome == v.outcome && u.timestamp == v.timestamp
  {
    assert arrivals[i] in ArrivalSet(arrivals) && arrivals[j] in ArrivalSet(arrivals);
  }

  /**
   * With rate checks on, the record of a masternode and signal is what it would be without them if and only if that
   * is the default, or some arrival of the winning vote that counts is not refused for coming too often.
   */
  lemma RateChecksExactlyWhen(arrivals: seq<Arrival>, node: Node, mn: nat, signal: int)
    requires HashesIdentify(ArrivalSet(arrivals)) && node.has(mn) && Supported(signal)
    ensures var w := Recorded(Run(arrivals, Unchecked(node)).votes, mn, signal);
            Recorded(Run(arrivals, node).votes, mn, signal).(nTime := 0) == w
            <==> w == DEFAULT || exists i: nat :: Passes(arrivals, i, mn, signal, node, w)
  {
    hide Run, Recorded, Judge, HashesIdentify;
    var r, w := Recorded(Run(arrivals, node).votes, mn, signal), Recorded(Run(arrivals, Unchecked(node)).votes, mn, signal);
    WinnerAbove(arrivals, node, mn, signal);
    RecordPassed(arrivals, node, mn, signal);
    StartsDefault(arrivals, node, mn, signal);
    if i: nat :| Passes(arrivals, i, mn, signal, node, w) {
      PassedRecorded(arrivals, node, i, mn, signal, w);
    }
  }

  lemma StartsDefault(arrivals: seq<Arrival>, node: Node, mn: nat, signal: int)
    ensures NotBelow(Recorded(Run(arrivals, node).votes, mn, signal), DEFAULT)
  {
    RunGrows(arrivals, node, 0, mn, signal);
    assert arrivals[..0] == [];
  }

  /** The record without rate checks is not below any that passes, nor below the default. */
  lemma WinnerAbove(arrivals: seq<Arrival>, node: Node, mn: nat, signal: int)
    requires HashesIdentify(ArrivalSet(arrivals)) && node.has(mn) && Supported(signal)
    ensures var w := Recorded(Run(arrivals, Unchecked(node)).votes, mn, signal);
            && w.nTime == 0 && NotBelow(w, DEFAULT)
            && forall i: nat, v: Instance | Passes(arrivals, i, mn, signal, node, v) :: NotBelow(w, v)
  {
    hide Run, Recorded, Judge, HashesIdentify;
    var free := Unchecked(node);
    RunReflects(arrivals, free);
    RecordedBest(Run(arrivals, free), ArrivalSet(arrivals), mn, signal, free);
    forall i: nat, v: Instance | Passes(arrivals, i, mn, signal, node, v)
      ensures NotBelow(Recorded(Run(arrivals, free).votes, mn, signal), v)
    {
      assert arrivals[i] in ArrivalSet(arrivals) && Counts(arrivals[i], free);
    }
  }

  // ----- what goes wrong otherwise

  const OLDER := Vote(1, 7, 1, VOTE_OUTCOME_YES, 10, 0)
  const NEWER := Vote(2, 7, 1, VOTE_OUTCOME_NO, 20, 0)

  lemma FirstAccepted(a: Arrival, node: Node)
    requires Counts(a, node) && 0 < a.vote.timestamp && GOVERNANCE_UPDATE_MIN <= a.now
    ensures var v := a.vote; var i := Instance(v.outcome, if node.rateChecks then a.now else 0, v.timestamp);
            Step(EMPTY, a, node) == Ledger(map[v.masternode := map[v.signal := i]], {v.hash})
  {
    assert Record(EMPTY.votes, a.vote.masternode) == map[];
    assert Judge(EMPTY, a, node) == Accepted;
  }

  lemma RunOne(a: Arrival, node: Node)
    ensures Run([a], node) == Step(EMPTY, a, node)
  {
    assert [a][..0] == [];
    assert Run([], node) == EMPTY;
  }

  lemma RunTwo(a: Arrival, b: Arrival, node: Node)
    ensures Run([a, b], node) == Step(Step(EMPTY, a, node), b, node)
  {
    assert [a, b][..1] == [a];
    RunOne(a, node);
  }

  /** The same vote two hours ahead of its timestamp and on time: the records differ. */
  lemma EarlyArrivalMatters(node: Node, v: Vote)
    requires Sound(v, node) && !node.rateChecks && 10000 <= v.timestamp && v.outcome != VOTE_OUTCOME_NONE
    ensures Recorded(Run([Arrival(v, v.timestamp - 7200)], node).votes, v.masternode, v.signal) == DEFAULT
    ensures Recorded(Run([Arrival(v, v.timestamp)], node).votes, v.masternode, v.signal) == Instance(v.outcome, 0, v.timestamp)
  {
    var early, onTime := Arrival(v, v.timestamp - 7200), Arrival(v, v.timestamp);
    RunOne(early, node);
    RunOne(onTime, node);
    FirstAccepted(onTime, node);
    assert Judge(EMPTY, early, node) == InvalidVote;
  }

  /** The vote file, unlike the record, does depend on the order: an obsolete vote never gets in. */
  lemma FileDependsOnOrder(node: Node)
    requires !node.rateChecks && Sound(OLDER, node) && Sound(NEWER, node)
    ensures Run([Arrival(OLDER, 10000), Arrival(NEWER, 10000)], node).file == {1, 2}
    ensures Run([Arrival(NEWER, 10000), Arrival(OLDER, 10000)], node).file == {2}
  {
    var a, b := Arrival(OLDER, 10000), Arrival(NEWER, 10000);
    RunTwo(a, b, node);
    RunTwo(b, a, node);
    FirstAccepted(a, node);
    FirstAccepted(b, node);
    assert Judge(Step(EMPTY, a, node), b, node) == Accepted;
    assert Judge(Step(EMPTY, b, node), a, node) == Obsolete;
  }

  /** With rate checks on the record itself depends on the order. */
  lemma RateChecksMatter(node: Node)
    requires node.rateChecks && Sound(OLDER, node) && Sound(NEWER, node)
    ensures Recorded(Run([Arrival(OLDER, 10000), Arrival(NEWER, 10000)], node).votes, 7, 1).eOutcome == VOTE_OUTCOME_YES
    ensures Recorded(Run([Arrival(NEWER, 10000), Arrival(OLDER, 10000)], node).votes, 7, 1).eOutcome == VOTE_OUTCOME_NO
  {
    var a, b := Arrival(OLDER, 10000), Arrival(NEWER, 10000);
    RunTwo(a, b, node);
    RunTwo(b, a, node);
    FirstAccepted(a, node);
    FirstAccepted(b, node);
    assert Judge(Step(EMPTY, a, node), b, node) == TooOften;
    assert Judge(Step(EMPTY, b, node), a, node) == Obsolete;
  }

  // ----- tallies

  /** The masternodes whose recorded vote on a signal has the given outcome. */
  function Tally(votes: Votes, signal: int, outcome: int): set<nat> {
    set mn | mn in votes && signal in votes[mn] && votes[mn][signal].eOutcome == outcome
  }

  /** The arrival is the greatest of its masternode's on its signal that count. */
  ghost predicate Wins(a: Arrival, s: set<Arrival>, node: Node) {
    && a in s && Counts(a, node) && (0 < a.vote.timestamp || (a.vote.timestamp == 0 && VOTE_OUTCOME_NONE <= a.vote.outcome))
    && forall b <- s :: IsVoteOf(b, a.vote.masternode, a.vote.signal) && Counts(b, node) ==>
         AtLeast(Instance(a.vote.outcome, 0, a.vote.timestamp), b.vote)
  }

  /** A masternode is in a yes, no or abstain tally exactly when its winning vote says so. */
  lemma TallyExactly(l: Ledger, s: set<Arrival>, node: Node, signal: int, outcome: int, mn: nat)
    requires Reflects(l, s, node) && outcome != VOTE_OUTCOME_NONE
    ensures mn in Tally(l.votes, signal, outcome) <==>
            exists a <- s :: Wins(a, s, node) && IsVoteOf(a, mn, signal) && a.vote.outcome == outcome
  {
    if mn in Tally(l.votes, signal, outcome) {
      var i := l.votes[mn][signal];
      assert IsBest(i, s, mn, signal, node);
      var a :| a in s && IsVoteOf(a, mn, signal) && Counts(a, node) && i == Instance(a.vote.outcome, 0, a.vote.timestamp);
      assert Wins(a, s, node);
    }
    if exists a <- s :: Wins(a, s, node) && IsVoteOf(a, mn, signal) && a.vote.outcome == outcome {
      var a :| a in s && Wins(a, s, node) && IsVoteOf(a, mn, signal) && a.vote.outcome == outcome;
      assert Voted(s, mn, node) && Signalled(s, mn, signal, node);
      assert mn in l.votes && signal in l.votes[mn];
      assert IsBest(Instance(a.vote.outcome, 0, a.vote.timestamp), s, mn, signal, node);
      BestUnique(l.votes[mn][signal], Instance(a.vote.outcome, 0, a.vote.timestamp), s, mn, signal, node);
    }
  }
}
