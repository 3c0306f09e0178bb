/** Elections in a cluster whose nodes answer each other's requests: any interleaving, any requests
    and replies lost. */
module Election {
  import opened Bytes
  import opened Raft

  /** An election is known by its candidate and its term. */
  type Ballot = (nat, nat)

  /** The nodes, the elections still collecting votes, and the ones that were won, each with the
      nodes whose vote was counted. */
  datatype Cluster = Cluster(nodes: seq<Node>, open: map<Ballot, set<nat>>, won: map<Ballot, set<nat>>)

  datatype Step =
    | Begin(node: nat)                                   // a node starts an election
    | Ask(ballot: Ballot, peer: nat, replyArrives: bool) // a peer answers a candidate's request
    | Finish(ballot: Ballot)                             // a candidate counts its votes
    | Vote(node: nat, term: nat, candidate: nat)         // any other vote request, its reply ignored
    | Append(node: nat, request: AppendRequest)          // any append request

  predicate Enabled(c: Cluster, step: Step) {
    match step
    case Begin(i) => i < |c.nodes|
    case Ask(b, peer, _) => b in c.open && peer < |c.nodes| && peer != b.0
    case Finish(b) => b in c.open && b.0 < |c.nodes|
    case Vote(i, _, _) => i < |c.nodes|
    case Append(i, _) => i < |c.nodes|
  }

  function SetNode(c: Cluster, i: nat, n: Node): Cluster
    requires i < |c.nodes|
  {
    c.(nodes := c.nodes[i := n])
  }

  function Next(c: Cluster, step: Step): Cluster
    requires Enabled(c, step)
  {
    match step
    case Begin(i) =>
      var n := Started(c.nodes[i]);
      SetNode(c, i, n).(open := c.open[(i, n.term) := {i}])
    case Ask(b, peer, replyArrives) =>
      var (n, granted) := OnVote(c.nodes[peer], b.1, b.0);
      var asked := SetNode(c, peer, n);
      if granted && replyArrives then asked.(open := c.open[b := c.open[b] + {peer}]) else asked
    case Finish(b) =>
      if |c.open[b]| >= Quorum(|c.nodes|)
      then SetNode(c, b.0, Won(c.nodes[b.0])).(open := c.open - {b}, won := c.won[b := c.open[b]])
      else SetNode(c, b.0, SteppedDown(c.nodes[b.0], b.1, None)).(open := c.open - {b})
    case Vote(i, term, candidate) => SetNode(c, i, OnVote(c.nodes[i], term, candidate).0)
    case Append(i, request) => SetNode(c, i, OnAppend(c.nodes[i], request).0)
  }

  /** A candidate that counts too few votes goes back to the term of its election. This says that
      its term has not moved on in the meantime, so that going back changes nothing but the vote. */
  predicate KeepsTerm(c: Cluster, step: Step)
    requires Enabled(c, step)
  {
    step.Finish? && |c.open[step.ballot]| < Quorum(|c.nodes|) ==> c.nodes[step.ballot.0].term == step.ballot.1
  }

  // ---------- Runs ----------

  predicate Runs(c: Cluster, steps: seq<Step>)
    decreases steps
  {
    steps == [] || (Enabled(c, steps[0]) && Runs(Next(c, steps[0]), steps[1..]))
  }

  predicate RunsKeepingTerms(c: Cluster, steps: seq<Step>)
    requires Runs(c, steps)
    decreases steps
  {
    steps == [] || (KeepsTerm(c, steps[0]) && RunsKeepingTerms(Next(c, steps[0]), steps[1..]))
  }

  function After(c: Cluster, steps: seq<Step>): Cluster
    requires Runs(c, steps)
    decreases steps
  {
    if steps == [] then c else After(Next(c, steps[0]), steps[1..])
  }

  /** A cluster of `n` new nodes. */
  function Fresh(n: nat): Cluster {
    Cluster(seq(n, i requires 0 <= i < n => NewNode(i)), map[], map[])
  }

  /** At most one election of each term was won. */
  predicate AtMostOneWinner(c: Cluster) {
    forall a, b :: a in c.won && b in c.won && a.1 == b.1 ==> a == b
  }

  // ---------- The invariant ----------

  /** Every counted voter has reached the election's term, and while it is in that term its vote is
      still the candidate's. */
  predicate VotesStand(nodes: seq<Node>, b: Ballot, voters: set<nat>) {
    forall v :: v in voters ==>
      v < |nodes| && nodes[v].term >= b.1 && (nodes[v].term == b.1 ==> nodes[v].votedFor == Some(b.0))
  }

  function All(c: Cluster): map<Ballot, set<nat>> {
    c.open + c.won
  }

  /** The candidate counts itself, and all counted votes stand. */
  ghost predicate Standing(nodes: seq<Node>, ballots: map<Ballot, set<nat>>) {
    forall b :: b in ballots ==> b.0 in ballots[b] && VotesStand(nodes, b, ballots[b])
  }

  /** No node is counted in two elections of the same term. */
  ghost predicate Apart(ballots: map<Ballot, set<nat>>) {
    forall a, b :: a in ballots && b in ballots && a.1 == b.1 && a != b ==> ballots[a] !! ballots[b]
  }

  ghost predicate Named(nodes: seq<Node>) {
    forall i :: 0 <= i < |nodes| ==> nodes[i].id == i
  }

  ghost predicate Elected(won: map<Ballot, set<nat>>, n: nat) {
    forall b :: b in won ==> |won[b]| >= Quorum(n)
  }

  ghost predicate Inv(c: Cluster) {
    && Named(c.nodes)
    && c.open.Keys !! c.won.Keys
    && Standing(c.nodes, All(c))
    && Apart(All(c))
    && Elected(c.won, |c.nodes|)
  }

  lemma AddBallot(nodes: seq<Node>, ballots: map<Ballot, set<nat>>, b: Ballot, voters: set<nat>)
    requires Standing(nodes, ballots) && Apart(ballots)
    requires b.0 in voters && VotesStand(nodes, b, voters)
    requires forall a :: a in ballots && a != b && a.1 == b.1 ==> ballots[a] !! voters
    ensures Standing(nodes, ballots[b := voters]) && Apart(ballots[b := voters])
  {
    hide VotesStand;
  }

  /** A node's state may move on: its term rises, or its term and vote stay, or it fills an empty vote. */
  predicate MovesOn(n: Node, m: Node) {
    && m.id == n.id
    && (m.term > n.term || (m.term == n.term && (n.votedFor.Some? ==> m.votedFor == n.votedFor)))
  }

  lemma StillStand(nodes: seq<Node>, i: nat, m: Node, b: Ballot, voters: set<nat>)
    requires i < |nodes| && MovesOn(nodes[i], m) && VotesStand(nodes, b, voters)
    ensures VotesStand(nodes[i := m], b, voters)
  {
  }

  /** Changing one node by moving it on keeps every vote standing. */
  lemma MoveKeeps(nodes: seq<Node>, i: nat, m: Node, ballots: map<Ballot, set<nat>>)
    requires Named(nodes) && Standing(nodes, ballots) && i < |nodes| && MovesOn(nodes[i], m)
    ensures Named(nodes[i := m]) && Standing(nodes[i := m], ballots)
  {
    forall b | b in ballots ensures VotesStand(nodes[i := m], b, ballots[b]) {
      StillStand(nodes, i, m, b, ballots[b]);
    }
  }

  /** Moving a ballot's votes in one of two disjoint maps, seen in their union. */
  lemma Unions(open: map<Ballot, set<nat>>, won: map<Ballot, set<nat>>, b: Ballot, voters: set<nat>)
    requires b !in won
    ensures open[b := voters] + won == (open + won)[b := voters]
    ensures (open - {b}) + won == (open + won) - {b}
    ensures b in open ==> (open - {b}) + won[b := open[b]] == open + won
  {
  }

  lemma BeginBallot(c: Cluster, i: nat)
    requires Inv(c) && i < |c.nodes|
    ensures var n := Started(c.nodes[i]);
            var ballots := All(c)[(i, n.term) := {i}];
            && (i, n.term) !in All(c) && Named(c.nodes[i := n])
            && Standing(c.nodes[i := n], ballots) && Apart(ballots)
  {
    var n := Started(c.nodes[i]);
    NewTerm(c, i);
    MoveKeeps(c.nodes, i, n, All(c));
    assert VotesStand(c.nodes[i := n], (i, n.term), {i});
    AddBallot(c.nodes[i := n], All(c), (i, n.term), {i});
  }

  lemma BeginKeeps(c: Cluster, i: nat)
    requires Inv(c) && i < |c.nodes|
    ensures Inv(Next(c, Begin(i)))
  {
    hide Standing, Apart, Named;
    BeginBallot(c, i);
    Unions(c.open, c.won, (i, Started(c.nodes[i]).term), {i});
  }

  /** The term a node moves to is new to it: it is not counted in any election of that term. */
  lemma NewTerm(c: Cluster, i: nat)
    requires Inv(c) && i < |c.nodes|
    ensures forall a :: a in All(c) && a.1 > c.nodes[i].term ==> i !in All(c)[a] && a.0 != i
  {
    forall a | a in All(c) && a.1 > c.nodes[i].term ensures i !in All(c)[a] && a.0 != i {
      assert VotesStand(c.nodes, a, All(c)[a]);
    }
  }

  /** A newly counted voter was not counted in another election of that term. */
  lemma FreshVoter(c: Cluster, b: Ballot, peer: nat, a: Ballot)
    requires Inv(c) && peer < |c.nodes| && OnVote(c.nodes[peer], b.1, b.0).1
    requires a in All(c) && a.1 == b.1 && a != b
    ensures peer !in All(c)[a]
  {
    assert VotesStand(c.nodes, a, All(c)[a]);
  }

  lemma AskBallot(c: Cluster, b: Ballot, peer: nat)
    requires Inv(c) && b in c.open && peer < |c.nodes|
    ensures var (n, granted) := OnVote(c.nodes[peer], b.1, b.0);
            var ballots := All(c)[b := c.open[b] + {peer}];
            && Named(c.nodes[peer := n]) && Standing(c.nodes[peer := n], All(c))
            && (granted ==> Standing(c.nodes[peer := n], ballots) && Apart(ballots))
  {
    var (n, granted) := OnVote(c.nodes[peer], b.1, b.0);
    MoveKeeps(c.nodes, peer, n, All(c));
    var nodes, voters := c.nodes[peer := n], c.open[b] + {peer};
    assert b !in c.won && All(c)[b] == c.open[b];
    if granted {
      forall a | a in All(c) && a.1 == b.1 && a != b ensures All(c)[a] !! voters {
        FreshVoter(c, b, peer, a);
      }
      assert VotesStand(nodes, b, All(c)[b]);
      assert VotesStand(nodes, b, voters);
      AddBallot(nodes, All(c), b, voters);
    }
  }

  lemma AskKeeps(c: Cluster, b: Ballot, peer: nat, replyArrives: bool)
    requires Inv(c) && Enabled(c, Ask(b, peer, replyArrives))
    ensures Inv(Next(c, Ask(b, peer, replyArrives)))
  {
    hide Standing, Apart, Named, OnVote;
    AskBallot(c, b, peer);
    Unions(c.open, c.won, b, c.open[b] + {peer});
  }

  lemma WinnerKeeps(c: Cluster, b: Ballot)
    requires Inv(c) && Enabled(c, Finish(b)) && |c.open[b]| >= Quorum(|c.nodes|)
    ensures Inv(Next(c, Finish(b)))
  {
    hide Standing, Apart, Named;
    Unions(c.open, c.won, b, c.open[b]);
    MoveKeeps(c.nodes, b.0, Won(c.nodes[b.0]), All(c));
  }

  lemma FinishKeeps(c: Cluster, b: Ballot)
    requires Inv(c) && Enabled(c, Finish(b)) && KeepsTerm(c, Finish(b))
    ensures Inv(Next(c, Finish(b)))
  {
    assert c.nodes[b.0].id == b.0;
    hide Standing, Apart, Named;
    if |c.open[b]| >= Quorum(|c.nodes|) {
      WinnerKeeps(c, b);
    } else {
      Unions(c.open, c.won, b, c.open[b]);
      LoserKeeps(c, b, SteppedDown(c.nodes[b.0], b.1, None));
    }
  }

  /** Clearing the vote of a losing candidate in the term of its election harms no other election:
      the candidate was counted only in its own. */
  lemma LoserKeeps(c: Cluster, b: Ballot, n: Node)
    requires Inv(c) && b in All(c) && b.0 < |c.nodes| && n.term == c.nodes[b.0].term == b.1 && n.id == b.0
    ensures Named(c.nodes[b.0 := n]) && Standing(c.nodes[b.0 := n], All(c) - {b}) && Apart(All(c) - {b})
  {
    forall a | a in All(c) - {b} ensures VotesStand(c.nodes[b.0 := n], a, All(c)[a]) {
      assert VotesStand(c.nodes, a, All(c)[a]);
      assert a.1 == b.1 ==> b.0 !in All(c)[a];
    }
  }

  lemma StepKeeps(c: Cluster, step: Step)
    requires Inv(c) && Enabled(c, step) && KeepsTerm(c, step)
    ensures Inv(Next(c, step))
  {
    hide Standing, Apart;
    match step
    case Begin(i) => BeginKeeps(c, i);
    case Ask(b, peer, replyArrives) => AskKeeps(c, b, peer, replyArrives);
    case Finish(b) => FinishKeeps(c, b);
    case Vote(i, term, candidate) => MoveKeeps(c.nodes, i, OnVote(c.nodes[i], term, candidate).0, All(c));
    case Append(i, request) => MoveKeeps(c.nodes, i, OnAppend(c.nodes[i], request).0, All(c));
  }

  // ---------- Quorums ----------

  /** Half rounded up is a majority exactly for an odd number of nodes. */
  lemma QuorumIsMajorityIffOdd(n: nat)
    ensures 2 * Quorum(n) > n <==> n % 2 == 1
  {
  }

  lemma QuorumsMeet(a: set<nat>, b: set<nat>, n: nat)
    requires n % 2 == 1 && |a| >= Quorum(n) && |b| >= Quorum(n)
    requires (forall x :: x in a ==> x < n) && (forall x :: x in b ==> x < n)
    ensures !(a !! b)
  {
    QuorumIsMajorityIffOdd(n);
    IntervalSet(a + b, 0, n);
    assert a !! b ==> |a + b| == |a| + |b|;
  }

  lemma InvImpliesSafe(c: Cluster)
    requires Inv(c) && |c.nodes| % 2 == 1
    ensures AtMostOneWinner(c)
  {
    forall a, b | a in c.won && b in c.won && a.1 == b.1 ensures a == b {
      if a != b {
        assert All(c)[a] == c.won[a] && All(c)[b] == c.won[b];
        assert VotesStand(c.nodes, a, c.won[a]) && VotesStand(c.nodes, b, c.won[b]);
        QuorumsMeet(c.won[a], c.won[b], |c.nodes|);
      }
    }
  }

  lemma {:induction false} RunKeeps(c: Cluster, steps: seq<Step>)
    requires Inv(c) && Runs(c, steps) && RunsKeepingTerms(c, steps)
    ensures Inv(After(c, steps)) && |After(c, steps).nodes| == |c.nodes|
    decreases steps
  {
    hide Inv, Next;
    if steps != [] {
      StepKeeps(c, steps[0]);
      StepSize(c, steps[0]);
      RunKeeps(Next(c, steps[0]), steps[1..]);
    }
  }

  lemma StepSize(c: Cluster, step: Step)
    requires Enabled(c, step)
    ensures |Next(c, step).nodes| == |c.nodes|
  {
  }

  /** Election safety: in a cluster of odd size, over every run in which no losing candidate is set
      back to an earlier term, at most one election of each term is won. */
  lemma ElectionSafety(n: nat, steps: seq<Step>)
    requires n % 2 == 1 && Runs(Fresh(n), steps) && RunsKeepingTerms(Fresh(n), steps)
    ensures AtMostOneWinner(After(Fresh(n), steps))
  {
    RunKeeps(Fresh(n), steps);
    InvImpliesSafe(After(Fresh(n), steps));
  }

  // ---------- Whole elections ----------

  lemma {:induction false} RunConcat(c: Cluster, a: seq<Step>, b: seq<Step>)
    requires Runs(c, a) && Runs(After(c, a), b)
    ensures Runs(c, a + b) && After(c, a + b) == After(After(c, a), b)
    ensures RunsKeepingTerms(c, a) && RunsKeepingTerms(After(c, a), b) ==> RunsKeepingTerms(c, a + b)
    decreases a
  {
    hide Next, Enabled;
    if a == [] {
      assert a + b == b;
    } else {
      assert (a + b)[0] == a[0] && (a + b)[1..] == a[1..] + b;
      RunConcat(Next(c, a[0]), a[1..], b);
    }
  }

  /** An election carried out in one go: the candidate asks some peers, in some order, and counts. */
  function Asking(b: Ballot, asked: seq<(nat, bool)>): seq<Step> {
    seq(|asked|, i requires 0 <= i < |asked| => Ask(b, asked[i].0, asked[i].1))
  }

  lemma {:induction false} AskingKeepsCandidate(c: Cluster, b: Ballot, asked: seq<(nat, bool)>)
    requires b in c.open && b.0 < |c.nodes|
    requires forall i :: 0 <= i < |asked| ==> asked[i].0 < |c.nodes| && asked[i].0 != b.0
    ensures Runs(c, Asking(b, asked)) && RunsKeepingTerms(c, Asking(b, asked))
    ensures var after := After(c, Asking(b, asked));
            b in after.open && |after.nodes| == |c.nodes| && after.nodes[b.0] == c.nodes[b.0]
    decreases asked
  {
    hide OnVote;
    if asked != [] {
      var step := Ask(b, asked[0].0, asked[0].1);
      assert Asking(b, asked)[0] == step && Asking(b, asked)[1..] == Asking(b, asked[1..]);
      AskingKeepsCandidate(Next(c, step), b, asked[1..]);
    }
  }

  /** An election carried out without interruption never sets its candidate back. */
  lemma UninterruptedElectionKeepsTerm(c: Cluster, i: nat, asked: seq<(nat, bool)>)
    requires i < |c.nodes|
    requires forall j :: 0 <= j < |asked| ==> asked[j].0 < |c.nodes| && asked[j].0 != i
    ensures var b := (i, c.nodes[i].term + 1);
            var steps := [Begin(i)] + Asking(b, asked) + [Finish(b)];
            Runs(c, steps) && RunsKeepingTerms(c, steps)
  {
    var b := (i, c.nodes[i].term + 1);
    var begun := Next(c, Begin(i));
    OneStep(c, Begin(i));
    AskingKeepsCandidate(begun, b, asked);
    RunConcat(c, [Begin(i)], Asking(b, asked));
    OneStep(After(begun, Asking(b, asked)), Finish(b));
    RunConcat(c, [Begin(i)] + Asking(b, asked), [Finish(b)]);
  }

  lemma OneStep(c: Cluster, step: Step)
    requires Enabled(c, step)
    ensures Runs(c, [step]) && After(c, [step]) == Next(c, step)
    ensures KeepsTerm(c, step) ==> RunsKeepingTerms(c, [step])
  {
    hide Next;
    assert [step][1..] == [];
  }

  /** A whole election, or a vote or append request that arrives between elections. */
  datatype Activity = Whole(candidate: nat, asked: seq<(nat, bool)>) | Between(step: Step)

  predicate Sensible(n: nat, a: Activity) {
    match a
    case Whole(i, asked) => i < n && forall j :: 0 <= j < |asked| ==> asked[j].0 < n && asked[j].0 != i
    case Between(step) => (step.Vote? || step.Append?) && step.node < n
  }

  function StepsOf(c: Cluster, a: Activity): seq<Step>
    requires Sensible(|c.nodes|, a)
  {
    match a
    case Whole(i, asked) =>
      var b := (i, c.nodes[i].term + 1);
      [Begin(i)] + Asking(b, asked) + [Finish(b)]
    case Between(step) => [step]
  }

  lemma ActivityRuns(c: Cluster, a: Activity)
    requires Sensible(|c.nodes|, a)
    ensures Runs(c, StepsOf(c, a)) && RunsKeepingTerms(c, StepsOf(c, a))
  {
    hide Runs, RunsKeepingTerms, Asking, Next;
    if a.Whole? {
      UninterruptedElectionKeepsTerm(c, a.candidate, a.asked);
    } else {
      OneStep(c, a.step);
    }
  }

  lemma {:induction false} RunSize(c: Cluster, steps: seq<Step>)
    requires Runs(c, steps)
    ensures |After(c, steps).nodes| == |c.nodes|
    decreases steps
  {
    hide Next;
    if steps != [] {
      StepSize(c, steps[0]);
      RunSize(Next(c, steps[0]), steps[1..]);
    }
  }

  /** `steps` is a run of the activities, one after the other. */
  ghost predicate Unfolds(c: Cluster, activities: seq<Activity>, steps: seq<Step>)
    decreases activities
  {
    if activities == [] then steps == []
    else
      && Sensible(|c.nodes|, activities[0])
      && var first := StepsOf(c, activities[0]);
      && first <= steps && Runs(c, first)
      && Unfolds(After(c, first), activities[1..], steps[|first|..])
  }

  lemma {:induction false} ActivitiesRun(c: Cluster, activities: seq<Activity>, steps: seq<Step>)
    requires Unfolds(c, activities, steps)
    ensures Runs(c, steps) && RunsKeepingTerms(c, steps)
    decreases activities
  {
    hide Next, StepsOf;
    if activities != [] {
      var first := StepsOf(c, activities[0]);
      ActivityRuns(c, activities[0]);
      ActivitiesRun(After(c, first), activities[1..], steps[|first|..]);
      RunConcat(c, first, steps[|first|..]);
      assert steps == first + steps[|first|..];
    }
  }

  /** Any activities of existing nodes can be carried out one after the other. */
  lemma {:induction false} ActivitiesUnfold(c: Cluster, activities: seq<Activity>) returns (steps: seq<Step>)
    requires forall i :: 0 <= i < |activities| ==> Sensible(|c.nodes|, activities[i])
    ensures Unfolds(c, activities, steps)
    decreases activities
  {
    hide Next, StepsOf;
    if activities == [] {
      steps := [];
    } else {
      var first := StepsOf(c, activities[0]);
      ActivityRuns(c, activities[0]);
      RunSize(c, first);
      var rest := ActivitiesUnfold(After(c, first), activities[1..]);
      steps := first + rest;
      assert steps[|first|..] == rest;
    }
  }

  /** So in a cluster of odd size at most one election of each term is won in every run of whole
      elections, with any peers reached and any replies lost, and of requests between them. */
  lemma WholeElectionsAreSafe(n: nat, activities: seq<Activity>, steps: seq<Step>)
    requires n % 2 == 1 && Unfolds(Fresh(n), activities, steps)
    ensures Runs(Fresh(n), steps) && AtMostOneWinner(After(Fresh(n), steps))
  {
    ActivitiesRun(Fresh(n), activities, steps);
    ElectionSafety(n, steps);
  }

  // ---------- The node's own tally ----------

  /** A candidate's calls to its peers, each called once. */
  predicate CallsPeers(c: Cluster, i: nat, calls: seq<(nat, Call)>) {
    && i < |c.nodes|
    && (forall j :: 0 <= j < |calls| ==> calls[j].0 < |c.nodes| && calls[j].0 != i)
    && (forall j, k :: 0 <= j < k < |calls| ==> calls[j].0 != calls[k].0)
  }

  function CallSteps(b: Ballot, calls: seq<(nat, Call)>): seq<Step> {
    if calls == [] then []
    else
      var (p, call) := calls[|calls| - 1];
      CallSteps(b, calls[..|calls| - 1]) + (if call.Unreached? then [] else [Ask(b, p, call.Answered?)])
  }

  /** What the candidate gets back: each peer that answers does so by its own vote rule. */
  function CallReplies(nodes: seq<Node>, b: Ballot, calls: seq<(nat, Call)>): (r: seq<Option<VoteResponse>>)
    requires forall j :: 0 <= j < |calls| ==> calls[j].0 < |nodes|
    ensures |r| == |calls|
  {
    if calls == [] then []
    else
      var (p, call) := calls[|calls| - 1];
      var (n, granted) := OnVote(nodes[p], b.1, b.0);
      CallReplies(nodes, b, calls[..|calls| - 1]) + [if call.Answered? then Some(VoteResponse(n.term, granted)) else None]
  }

  lemma {:induction false} RepliesFrame(a: seq<Node>, d: seq<Node>, b: Ballot, calls: seq<(nat, Call)>)
    requires forall j :: 0 <= j < |calls| ==> calls[j].0 < |a| && calls[j].0 < |d| && a[calls[j].0] == d[calls[j].0]
    ensures CallReplies(a, b, calls) == CallReplies(d, b, calls)
  {
    hide OnVote;
    if calls != [] {
      RepliesFrame(a, d, b, calls[..|calls| - 1]);
    }
  }

  lemma GrantedNext(replies: seq<Option<VoteResponse>>, r: Option<VoteResponse>)
    ensures Granted(replies + [r]) == Granted(replies) + (if r.Some? && r.value.granted then 1 else 0)
  {
    assert (replies + [r])[..|replies|] == replies;
  }

  /** The votes collected so far, and who has not been called yet. */
  ghost predicate Collected(c: Cluster, after: Cluster, b: Ballot, calls: seq<(nat, Call)>)
    requires CallsPeers(c, b.0, calls)
  {
    && |after.nodes| == |c.nodes| && after.won == c.won && b in after.open
    && |after.open[b]| == 1 + Granted(CallReplies(c.nodes, b, calls))
    && (forall v :: v in after.open[b] ==> v == b.0 || Calls(calls, v))
    && (forall p :: 0 <= p < |c.nodes| && !Calls(calls, p) ==> after.nodes[p] == c.nodes[p])
  }

  lemma RepliesNext(c: Cluster, b: Ballot, before: seq<(nat, Call)>, p: nat, call: Call)
    requires CallsPeers(c, b.0, before) && CallsPeers(c, b.0, before + [(p, call)]) && p < |c.nodes|
    ensures Granted(CallReplies(c.nodes, b, before + [(p, call)])) == Granted(CallReplies(c.nodes, b, before))
            + (if call.Answered? && OnVote(c.nodes[p], b.1, b.0).1 then 1 else 0)
  {
    var calls := before + [(p, call)];
    assert calls[..|before|] == before && calls[|before|] == (p, call);
    var (n, granted) := OnVote(c.nodes[p], b.1, b.0);
    hide OnVote;
    GrantedNext(CallReplies(c.nodes, b, before), if call.Answered? then Some(VoteResponse(n.term, granted)) else None);
  }

  lemma AnswerCollects(c: Cluster, mid: Cluster, b: Ballot, before: seq<(nat, Call)>, p: nat, call: Call, n: Node, counted: bool)
    requires CallsPeers(c, b.0, before) && CallsPeers(c, b.0, before + [(p, call)]) && Collected(c, mid, b, before)
    requires p < |c.nodes| && p !in mid.open[b]
    requires Granted(CallReplies(c.nodes, b, before + [(p, call)]))
             == Granted(CallReplies(c.nodes, b, before)) + (if counted then 1 else 0)
    ensures Collected(c, mid.(nodes := mid.nodes[p := n], open := if counted then mid.open[b := mid.open[b] + {p}] else mid.open),
                      b, before + [(p, call)])
  {
    CallsNext(before, p, call);
    hide Granted, Calls, CallReplies, CallsPeers;
  }

  lemma AskNext(mid: Cluster, b: Ballot, p: nat, replyArrives: bool)
    requires b in mid.open && p < |mid.nodes| && p != b.0
    ensures Enabled(mid, Ask(b, p, replyArrives))
    ensures var (n, granted) := OnVote(mid.nodes[p], b.1, b.0);
            Next(mid, Ask(b, p, replyArrives)) ==
            mid.(nodes := mid.nodes[p := n],
                 open := if granted && replyArrives then mid.open[b := mid.open[b] + {p}] else mid.open)
  {
    hide OnVote;
  }

  lemma CallCollects(c: Cluster, mid: Cluster, b: Ballot, before: seq<(nat, Call)>, p: nat, call: Call)
    requires CallsPeers(c, b.0, before + [(p, call)]) && CallsPeers(c, b.0, before)
    requires p < |c.nodes| && p != b.0 && !Calls(before, p) && Collected(c, mid, b, before) && !call.Unreached?
    ensures Enabled(mid, Ask(b, p, call.Answered?))
    ensures Collected(c, Next(mid, Ask(b, p, call.Answered?)), b, before + [(p, call)])
  {
    hide OnVote, Granted, Calls, CallReplies, CallsPeers, Next;
    assert mid.nodes[p] == c.nodes[p] && p !in mid.open[b];
    AskNext(mid, b, p, call.Answered?);
    RepliesNext(c, b, before, p, call);
    var (n, granted) := OnVote(c.nodes[p], b.1, b.0);
    hide Collected;
    AnswerCollects(c, mid, b, before, p, call, n, granted && call.Answered?);
  }

  lemma CallSkips(c: Cluster, mid: Cluster, b: Ballot, before: seq<(nat, Call)>, p: nat)
    requires CallsPeers(c, b.0, before + [(p, Unreached)]) && CallsPeers(c, b.0, before) && Collected(c, mid, b, before)
    ensures Collected(c, mid, b, before + [(p, Unreached)])
  {
    assert (before + [(p, Unreached)])[|before|] == (p, Unreached);
    RepliesNext(c, b, before, p, Unreached);
    CallsNext(before, p, Unreached);
    hide OnVote, Granted, Calls, CallReplies;
  }

  lemma {:induction false} CallsCollect(c: Cluster, b: Ballot, calls: seq<(nat, Call)>)
    requires b in c.open && CallsPeers(c, b.0, calls) && c.open[b] == {b.0}
    ensures Runs(c, CallSteps(b, calls)) && RunsKeepingTerms(c, CallSteps(b, calls))
    ensures Collected(c, After(c, CallSteps(b, calls)), b, calls)
  {
    hide Next, Collected, CallsPeers;
    if calls == [] {
      NothingCollected(c, b);
    } else {
      var before := calls[..|calls| - 1];
      var (p, call) := calls[|calls| - 1];
      LastCall(c, b.0, calls);
      CallsCollect(c, b, before);
      var mid := After(c, CallSteps(b, before));
      assert calls == before + [(p, call)];
      if call.Unreached? {
        CallSkips(c, mid, b, before, p);
        assert CallSteps(b, calls) == CallSteps(b, before);
      } else {
        CallCollects(c, mid, b, before, p, call);
        OneStep(mid, Ask(b, p, call.Answered?));
        RunConcat(c, CallSteps(b, before), [Ask(b, p, call.Answered?)]);
      }
    }
  }

  lemma NothingCollected(c: Cluster, b: Ballot)
    requires b in c.open && CallsPeers(c, b.0, []) && c.open[b] == {b.0}
    ensures Collected(c, c, b, [])
  {
  }

  lemma LastCall(c: Cluster, i: nat, calls: seq<(nat, Call)>)
    requires calls != [] && CallsPeers(c, i, calls)
    ensures CallsPeers(c, i, calls[..|calls| - 1]) && !Calls(calls[..|calls| - 1], calls[|calls| - 1].0)
    ensures calls[|calls| - 1].0 < |c.nodes| && calls[|calls| - 1].0 != i
  {
  }

  /** The node's election and the cluster's are the same. The ballot is won exactly when the answers
      that arrive and grant the vote, with the candidate's own, make half the cluster rounded up; and
      the candidate ends as `RaftNode.StartElectionAndCollectVotes` leaves it. */
  lemma ElectionMatchesNode(c: Cluster, i: nat, calls: seq<(nat, Call)>)
    requires CallsPeers(c, i, calls) && |calls| + 1 == |c.nodes| && (i, c.nodes[i].term + 1) !in c.won
    ensures var b := (i, c.nodes[i].term + 1);
            var steps := [Begin(i)] + CallSteps(b, calls) + [Finish(b)];
            var replies := CallReplies(c.nodes, b, calls);
            var won := 1 + |set j | 0 <= j < |replies| && replies[j].Some? && replies[j].value.granted| >= (|replies| + 2) / 2;
            && Runs(c, steps) && RunsKeepingTerms(c, steps)
            && (b in After(c, steps).won <==> won) && |After(c, steps).nodes| == |c.nodes|
            && After(c, steps).nodes[i] == if won then Won(Started(c.nodes[i]))
                                           else SteppedDown(Started(c.nodes[i]), c.nodes[i].term + 1, None)
  {
    var b := (i, c.nodes[i].term + 1);
    var begun := Next(c, Begin(i));
    var asking := CallSteps(b, calls);
    hide CallSteps, CallReplies, Granted, Runs, RunsKeepingTerms, After;
    OneStep(c, Begin(i));
    assert CallsPeers(begun, i, calls);
    CallsCollect(begun, b, calls);
    RepliesFrame(c.nodes, begun.nodes, b, calls);
    GrantedCounts(CallReplies(c.nodes, b, calls));
    RunConcat(c, [Begin(i)], asking);
    var asked := After(begun, asking);
    assert asked.nodes[i] == Started(c.nodes[i]);
    OneStep(asked, Finish(b));
    RunConcat(c, [Begin(i)] + asking, [Finish(b)]);
  }

  // ---------- Requests of earlier terms ----------

  lemma StepTerm(c: Cluster, step: Step, i: nat)
    requires Enabled(c, step) && KeepsTerm(c, step) && i < |c.nodes|
    ensures |Next(c, step).nodes| == |c.nodes| && Next(c, step).nodes[i].term >= c.nodes[i].term
    ensures (step.Append? && step.node == i ==> step.request.term < c.nodes[i].term) ==>
              Next(c, step).nodes[i].log == c.nodes[i].log && Next(c, step).nodes[i].commit == c.nodes[i].commit
  {
    if step.Append? && step.request.term < c.nodes[step.node].term {
      StaleAppendRefused(c.nodes[step.node], step.request);
    }
  }

  /** A node that has reached a term never changes its log or commit index for a request of an earlier
      one, over every run that sets no candidate back; and terms never fall. */
  lemma {:induction false} EarlierTermsChangeNothing(c: Cluster, steps: seq<Step>, i: nat, t: nat)
    requires Runs(c, steps) && RunsKeepingTerms(c, steps) && i < |c.nodes| && c.nodes[i].term >= t
    requires forall k :: 0 <= k < |steps| && steps[k].Append? && steps[k].node == i ==> steps[k].request.term < t
    ensures var after := After(c, steps);
            && |after.nodes| == |c.nodes| && after.nodes[i].term >= c.nodes[i].term
            && after.nodes[i].log == c.nodes[i].log && after.nodes[i].commit == c.nodes[i].commit
    decreases steps
  {
    hide Next;
    if steps != [] {
      StepTerm(c, steps[0], i);
      EarlierTermsChangeNothing(Next(c, steps[0]), steps[1..], i, t);
    }
  }

  // ---------- Even clusters ----------

  function Range(lo: nat, hi: nat): (r: set<nat>)
    requires lo <= hi
    ensures forall x: nat :: x in r <==> lo <= x < hi
    ensures |r| == hi - lo
  {
    if lo == hi then {} else Range(lo, hi - 1) + {hi - 1}
  }

  function Peers(lo: nat, hi: nat): seq<(nat, bool)>
    requires lo <= hi
  {
    seq(hi - lo, i requires 0 <= i < hi - lo => (lo + i, true))
  }

  /** The nodes from `lo` up to `hi` have not reached term `t`. */
  predicate Behind(c: Cluster, lo: nat, hi: nat, t: nat) {
    hi <= |c.nodes| && forall p :: lo <= p < hi ==> c.nodes[p].term < t
  }

  lemma BehindPeerVotes(c: Cluster, b: Ballot, p: nat)
    requires b in c.open && b.0 != p && p < |c.nodes| && c.nodes[p].term < b.1
    ensures Enabled(c, Ask(b, p, true))
    ensures var after := Next(c, Ask(b, p, true));
            && after.won == c.won && after.open == c.open[b := c.open[b] + {p}] && |after.nodes| == |c.nodes|
            && after.nodes[p].term == b.1 && forall q :: 0 <= q < |c.nodes| && q != p ==> after.nodes[q] == c.nodes[q]
  {
  }

  lemma AskingNext(b: Ballot, lo: nat, hi: nat)
    requires lo <= hi
    ensures Asking(b, Peers(lo, hi)) ==
            if lo == hi then [] else [Ask(b, lo, true)] + Asking(b, Peers(lo + 1, hi))
  {
  }

  /** Asking peers that have not reached the term yet gets all their votes. */
  lemma {:induction false} BehindPeersVote(c: Cluster, b: Ballot, lo: nat, hi: nat)
    requires b in c.open && lo <= hi && !(lo <= b.0 < hi) && Behind(c, lo, hi, b.1)
    ensures var steps := Asking(b, Peers(lo, hi));
            && Runs(c, steps) && RunsKeepingTerms(c, steps)
            && var after := After(c, steps);
            && after.won == c.won && after.open == c.open[b := c.open[b] + Range(lo, hi)]
            && |after.nodes| == |c.nodes| && (forall p :: lo <= p < hi ==> after.nodes[p].term == b.1)
            && forall p :: 0 <= p < |c.nodes| && !(lo <= p < hi) ==> after.nodes[p] == c.nodes[p]
    decreases hi - lo
  {
    hide Next, Range, Asking, Peers;
    AskingNext(b, lo, hi);
    if lo < hi {
      var step := Ask(b, lo, true);
      BehindPeerVotes(c, b, lo);
      BehindPeersVote(Next(c, step), b, lo + 1, hi);
      assert c.open[b] + {lo} + Range(lo + 1, hi) == c.open[b] + Range(lo, hi);
    } else {
      assert c.open[b] + Range(lo, hi) == c.open[b];
    }
  }

  /** An election whose candidate asks the nodes from `lo` up to `hi`. */
  function Campaign(b: Ballot, lo: nat, hi: nat): seq<Step>
    requires lo <= hi
  {
    [Begin(b.0)] + Asking(b, Peers(lo, hi)) + [Finish(b)]
  }

  ghost predicate CanWin(c: Cluster, b: Ballot, lo: nat, hi: nat) {
    && b.0 < |c.nodes| && c.nodes[b.0].term + 1 == b.1
    && lo <= hi && !(lo <= b.0 < hi) && Behind(c, lo, hi, b.1)
    && hi - lo + 1 >= Quorum(|c.nodes|)
  }

  lemma Begins(c: Cluster, b: Ballot, lo: nat, hi: nat)
    requires CanWin(c, b, lo, hi)
    ensures var begun := Next(c, Begin(b.0));
            && begun.won == c.won && begun.open == c.open[b := {b.0}] && Behind(begun, lo, hi, b.1)
            && |begun.nodes| == |c.nodes| && forall q :: 0 <= q < |c.nodes| && q != b.0 ==> begun.nodes[q] == c.nodes[q]
  {
  }

  lemma CampaignAsks(c: Cluster, b: Ballot, lo: nat, hi: nat)
    requires CanWin(c, b, lo, hi)
    ensures var steps := [Begin(b.0)] + Asking(b, Peers(lo, hi));
            && Runs(c, steps) && RunsKeepingTerms(c, steps)
            && var after := After(c, steps);
            && after.won == c.won && after.open == c.open[b := {b.0} + Range(lo, hi)]
            && |after.nodes| == |c.nodes| && (forall p :: lo <= p < hi ==> after.nodes[p].term == b.1)
            && forall p :: 0 <= p < |c.nodes| && !(lo <= p < hi) && p != b.0 ==> after.nodes[p] == c.nodes[p]
  {
    hide Next, Asking, Peers, Runs, RunsKeepingTerms, After, Range;
    OneStep(c, Begin(b.0));
    Begins(c, b, lo, hi);
    BehindPeersVote(Next(c, Begin(b.0)), b, lo, hi);
    RunConcat(c, [Begin(b.0)], Asking(b, Peers(lo, hi)));
  }

  /** A campaign among enough nodes that have not reached its term wins, and disturbs no other
      election nor any other node. */
  lemma CampaignWins(c: Cluster, b: Ballot, lo: nat, hi: nat)
    requires CanWin(c, b, lo, hi)
    ensures var steps := Campaign(b, lo, hi);
            && Runs(c, steps) && RunsKeepingTerms(c, steps)
            && var after := After(c, steps);
            && after.won.Keys == c.won.Keys + {b} && after.open == c.open - {b}
            && |after.nodes| == |c.nodes| && (forall p :: lo <= p < hi ==> after.nodes[p].term == b.1)
            && forall p :: 0 <= p < |c.nodes| && !(lo <= p < hi) && p != b.0 ==> after.nodes[p] == c.nodes[p]
  {
    hide Asking, Peers, Runs, RunsKeepingTerms, After;
    var steps := [Begin(b.0)] + Asking(b, Peers(lo, hi));
    CampaignAsks(c, b, lo, hi);
    var asked := After(c, steps);
    assert |{b.0} + Range(lo, hi)| == hi - lo + 1;
    assert asked.open - {b} == c.open - {b};
    OneStep(asked, Finish(b));
    RunConcat(c, steps, [Finish(b)]);
  }

  /** In a cluster of even size half the nodes are a quorum, and the two halves can elect two
      winners of term 1, without any candidate being set back. */
  lemma EvenClusterUnsafe(h: nat)
    requires h > 0
    ensures var steps := Campaign((0, 1), 1, h) + Campaign((h, 1), h + 1, 2 * h);
            && Runs(Fresh(2 * h), steps) && RunsKeepingTerms(Fresh(2 * h), steps)
            && !AtMostOneWinner(After(Fresh(2 * h), steps))
  {
    hide Campaign;
    var c := Fresh(2 * h);
    CampaignWins(c, (0, 1), 1, h);
    var half := After(c, Campaign((0, 1), 1, h));
    CampaignWins(half, (h, 1), h + 1, 2 * h);
    RunConcat(c, Campaign((0, 1), 1, h), Campaign((h, 1), h + 1, 2 * h));
    var after := After(half, Campaign((h, 1), h + 1, 2 * h));
    assert (0, 1) in after.won && (h, 1) in after.won;
  }

  /** So election safety holds over all runs that set no candidate back exactly in clusters of odd size. */
  lemma SafeIffOdd(n: nat)
    requires n > 0
    ensures (forall steps: seq<Step> :: Runs(Fresh(n), steps) && RunsKeepingTerms(Fresh(n), steps) ==>
               AtMostOneWinner(After(Fresh(n), steps)))
            <==> n % 2 == 1
  {
    if n % 2 == 1 {
      forall steps: seq<Step> | Runs(Fresh(n), steps) && RunsKeepingTerms(Fresh(n), steps)
        ensures AtMostOneWinner(After(Fresh(n), steps))
      {
        ElectionSafety(n, steps);
      }
    } else {
      EvenClusterUnsafe(n / 2);
    }
  }

  // ---------- A candidate set back ----------

  /** Node `x` starts an election in term 1, votes for node 0 in term 2, and is then set back to
      term 1 by losing its own election; so it can vote in term 2 again. */
  function FirstTerm(x: nat): seq<Step> {
    [Begin(x)] + [Begin(0)] + Campaign((0, 2), 1, x + 1) + [Finish((x, 1))]
  }

  lemma Beginnings(n: nat, x: nat)
    requires 0 < x < n
    ensures Runs(Fresh(n), [Begin(x)] + [Begin(0)])
    ensures var c := After(Fresh(n), [Begin(x)] + [Begin(0)]);
            && |c.nodes| == n
            && (x, 1) in c.open && c.open[(x, 1)] == {x} && c.nodes[0].term == 1 && c.nodes[x].term == 1
            && forall p :: 0 < p < n && p != x ==> c.nodes[p].term == 0
  {
    var c := Next(Fresh(n), Begin(x));
    OneStep(Fresh(n), Begin(x));
    OneStep(c, Begin(0));
    RunConcat(Fresh(n), [Begin(x)], [Begin(0)]);
  }

  lemma SetBack(n: nat, x: nat)
    requires 0 < x < n && x + 1 == Quorum(n)
    ensures Runs(Fresh(n), FirstTerm(x))
    ensures var c := After(Fresh(n), FirstTerm(x));
            && |c.nodes| == n && (0, 2) in c.won && c.nodes[x].term == 1
            && forall p :: x < p < n ==> c.nodes[p].term == 0
  {
    hide Campaign, Runs, After;
    var first, second := [Begin(x)] + [Begin(0)], Campaign((0, 2), 1, x + 1);
    Beginnings(n, x);
    var c := After(Fresh(n), first);
    CampaignWins(c, (0, 2), 1, x + 1);
    RunConcat(Fresh(n), first, second);
    OneStep(After(c, second), Finish((x, 1)));
    RunConcat(Fresh(n), first + second, [Finish((x, 1))]);
  }

  /** Without the condition this fails: the node had reached term 2, is set back to term 1, and then
      takes an entry of term 1. */
  lemma SetbackTakesEarlierTerm(n: nat, entry: LogEntry, leader: nat)
    requires n >= 3 && n % 2 == 1
    ensures var x := Quorum(n) - 1;
            var steps := [Begin(x)] + [Begin(0)] + Campaign((0, 2), 1, x + 1);
            var request := AppendRequest(1, leader, 0, 1, [entry], 0);
            && Runs(Fresh(n), steps) && |After(Fresh(n), steps).nodes| == n && After(Fresh(n), steps).nodes[x].term == 2
            && Runs(After(Fresh(n), steps), [Finish((x, 1))] + [Append(x, request)])
            && var after := After(After(Fresh(n), steps), [Finish((x, 1))] + [Append(x, request)]);
            && |after.nodes| == n && after.nodes[x].log == After(Fresh(n), steps).nodes[x].log + [entry]
  {
    hide Campaign, Runs, After;
    var x := Quorum(n) - 1;
    var first, second := [Begin(x)] + [Begin(0)], Campaign((0, 2), 1, x + 1);
    Beginnings(n, x);
    var c := After(Fresh(n), first);
    CampaignWins(c, (0, 2), 1, x + 1);
    RunConcat(Fresh(n), first, second);
    var reached := After(c, second);
    var back := Next(reached, Finish((x, 1)));
    OneStep(reached, Finish((x, 1)));
    OneStep(back, Append(x, AppendRequest(1, leader, 0, 1, [entry], 0)));
    RunConcat(reached, [Finish((x, 1))], [Append(x, AppendRequest(1, leader, 0, 1, [entry], 0))]);
  }

  /** Without the condition safety fails in every cluster of three or more: the node set back votes
      in term 2 twice, for node 0 and for the last node. */
  lemma SetbackElectsTwo(n: nat)
    requires n >= 3 && n % 2 == 1
    ensures var x := Quorum(n) - 1;
            var steps := FirstTerm(x) + [Begin(n - 1)] + Campaign((n - 1, 2), x, n - 1);
            Runs(Fresh(n), steps) && !AtMostOneWinner(After(Fresh(n), steps))
  {
    hide Campaign, FirstTerm, Runs, After;
    var x := Quorum(n) - 1;
    SetBack(n, x);
    var c := After(Fresh(n), FirstTerm(x));
    OneStep(c, Begin(n - 1));
    RunConcat(Fresh(n), FirstTerm(x), [Begin(n - 1)]);
    var d := Next(c, Begin(n - 1));
    CampaignWins(d, (n - 1, 2), x, n - 1);
    RunConcat(Fresh(n), FirstTerm(x) + [Begin(n - 1)], Campaign((n - 1, 2), x, n - 1));
    var after := After(d, Campaign((n - 1, 2), x, n - 1));
    assert (0, 2) in after.won && (n - 1, 2) in after.won;
  }

  /** A single node never loses. */
  lemma {:induction false} SingleNodeKeepsTerms(c: Cluster, steps: seq<Step>)
    requires Inv(c) && |c.nodes| == 1 && Runs(c, steps)
    ensures RunsKeepingTerms(c, steps)
    decreases steps
  {
    hide Next, Inv;
    if steps != [] {
      SingleNodeStep(c, steps[0]);
      StepKeeps(c, steps[0]);
      StepSize(c, steps[0]);
      SingleNodeKeepsTerms(Next(c, steps[0]), steps[1..]);
    }
  }

  lemma SingleNodeStep(c: Cluster, step: Step)
    requires Inv(c) && |c.nodes| == 1 && Enabled(c, step)
    ensures KeepsTerm(c, step)
  {
    if step.Finish? {
      assert step.ballot in All(c) && step.ballot.0 in c.open[step.ballot];
    }
  }

  /** Over all runs, set back or not, election safety holds only in a cluster of one. */
  lemma UnconditionallySafeIffSingle(n: nat)
    requires n > 0
    ensures (forall steps: seq<Step> :: Runs(Fresh(n), steps) ==> AtMostOneWinner(After(Fresh(n), steps))) <==> n == 1
  {
    if n == 1 {
      forall steps: seq<Step> | Runs(Fresh(n), steps) ensures AtMostOneWinner(After(Fresh(n), steps)) {
        SingleNodeKeepsTerms(Fresh(n), steps);
        ElectionSafety(n, steps);
      }
    } else if n % 2 == 1 {
      SetbackElectsTwo(n);
    } else {
      EvenClusterUnsafe(n / 2);
    }
  }
}
