/** Replication under one leader in one term: proposals, heartbeats, and append requests that are
    lost, delayed or reordered, entry requests delivered at most once. */
module Replication {
  import opened Bytes
  import opened Raft

  /** `pending` are the entry requests in flight, by follower and entry index; the request carries
      the leader's entry with that index. `beats` are the heartbeats sent so far. `acks` are the
      positive answers counted for each entry, `done` the entries whose replication returned Ok. */
  datatype System = System(
    leader: Node,
    followers: map<nat, Node>,
    pending: set<(nat, nat)>,
    beats: set<AppendRequest>,
    acks: map<nat, set<nat>>,
    done: set<nat>)

  datatype Step =
    | Propose(data: seq<byte>)
    | Heartbeat
    | Deliver(peer: nat, index: nat, replyArrives: bool)
    | DeliverBeat(peer: nat, request: AppendRequest)
    | Complete(index: nat)

  predicate Enabled(s: System, step: Step) {
    match step
    case Propose(_) => true
    case Heartbeat => true
    case Deliver(p, i, _) =>
      (p, i) in s.pending && p in s.followers && 0 < i <= |s.leader.log| && i in s.acks && s.leader.log[i - 1].index > 0
    case DeliverBeat(p, request) => p in s.followers && request in s.beats
    case Complete(i) => i in s.acks && |s.acks[i]| + 1 >= Quorum(|s.followers| + 1)
  }

  function Next(s: System, step: Step): System
    requires Enabled(s, step)
  {
    match step
    case Propose(data) =>
      var e := NextEntry(s.leader, data);
      s.(leader := s.leader.(log := s.leader.log + [e]),
         pending := s.pending + (set p | p in s.followers :: (p, e.index)),
         acks := s.acks[e.index := {}])
    case Heartbeat => s.(beats := s.beats + {HeartbeatRequest(s.leader)})
    case Deliver(p, i, replyArrives) =>
      var (n, resp) := OnAppend(s.followers[p], EntryRequest(s.leader, s.leader.log[i - 1]));
      s.(followers := s.followers[p := n],
         pending := s.pending - {(p, i)},
         acks := if resp.success && replyArrives then s.acks[i := s.acks[i] + {p}] else s.acks)
    case DeliverBeat(p, request) => s.(followers := s.followers[p := OnAppend(s.followers[p], request).0])
    case Complete(i) => s.(leader := Committed(s.leader, i), done := s.done + {i})
  }

  predicate Runs(s: System, steps: seq<Step>)
    decreases steps
  {
    steps == [] || (Enabled(s, steps[0]) && Runs(Next(s, steps[0]), steps[1..]))
  }

  function After(s: System, steps: seq<Step>): System
    requires Runs(s, steps)
    decreases steps
  {
    if steps == [] then s else After(Next(s, steps[0]), steps[1..])
  }

  /** A leader and its followers, all with empty logs, no follower ahead of the leader's term. */
  predicate Initial(s: System) {
    && s.leader.log == [] && s.pending == {} && s.beats == {} && s.acks == map[] && s.done == {}
    && (forall p :: p in s.followers ==>
          s.followers[p].log == [] && s.followers[p].commit == 0 && s.followers[p].term <= s.leader.term)
  }

  // ---------- The invariant ----------

  /** The leader's entries are numbered from 1, all in its term. */
  predicate Numbered(leader: Node) {
    forall i :: 0 <= i < |leader.log| ==> leader.log[i].index == i + 1 && leader.log[i].term == leader.term
  }

  /** A follower's log is a prefix of the leader's, and it has committed exactly what it has. */
  predicate Follows(f: Node, leader: Node) {
    f.log <= leader.log && f.commit == |f.log| && f.term <= leader.term
  }

  predicate AllFollow(s: System) {
    forall p :: p in s.followers ==> Follows(s.followers[p], s.leader)
  }

  /** An entry request in flight is for an entry its follower does not have. */
  ghost predicate PendingAhead(s: System) {
    forall p, i :: (p, i) in s.pending ==>
      p in s.followers && |s.followers[p].log| < i <= |s.leader.log| && i in s.acks
  }

  predicate BeatsBehind(s: System) {
    forall r :: r in s.beats ==>
      r.term == s.leader.term && r.entries == [] && r.prevLogIndex == r.leaderCommit <= |s.leader.log|
  }

  /** A follower counted for an entry has the log up to that entry. */
  predicate AcksHold(s: System) {
    forall i :: i in s.acks ==>
      i <= |s.leader.log| && forall p :: p in s.acks[i] ==> p in s.followers && i <= |s.followers[p].log|
  }

  predicate DoneAcked(s: System) {
    forall i :: i in s.done ==> i in s.acks && |s.acks[i]| + 1 >= Quorum(|s.followers| + 1)
  }

  ghost predicate Inv(s: System) {
    Numbered(s.leader) && AllFollow(s) && PendingAhead(s) && BeatsBehind(s) && AcksHold(s) && DoneAcked(s)
  }

  lemma PrefixIndex(leader: Node, log: seq<LogEntry>)
    requires Numbered(leader) && log <= leader.log
    ensures LastIndex(log) == |log|
  {
  }

  /** What an entry request does to a follower that lacks the entry: it is accepted exactly when the
      entry is the follower's next one. */
  lemma EntryArrives(f: Node, leader: Node, i: nat)
    requires Numbered(leader) && Follows(f, leader) && |f.log| < i <= |leader.log|
    ensures var (n, resp) := OnAppend(f, EntryRequest(leader, leader.log[i - 1]));
            && Follows(n, leader) && n.commit >= f.commit && f.log <= n.log
            && (resp.success <==> |f.log| + 1 == i)
            && |n.log| == (if resp.success then i else |f.log|)
  {
    var log := f.log + [leader.log[i - 1]];
    if |f.log| + 1 == i {
      assert log == leader.log[..i];
      PrefixIndex(leader, log);
    }
  }

  lemma BeatArrives(f: Node, leader: Node, r: AppendRequest)
    requires Numbered(leader) && Follows(f, leader)
    requires r.term == leader.term && r.entries == [] && r.prevLogIndex == r.leaderCommit <= |leader.log|
    ensures var n := OnAppend(f, r).0;
            Follows(n, leader) && n.commit >= f.commit && n.log == f.log
  {
    assert f.log + [] == f.log;
    PrefixIndex(leader, f.log);
  }

  lemma ProposeKeeps(s: System, data: seq<byte>)
    requires Inv(s)
    ensures Inv(Next(s, Propose(data)))
  {
    PrefixIndex(s.leader, s.leader.log);
  }

  lemma HeartbeatKeeps(s: System)
    requires Inv(s)
    ensures Inv(Next(s, Heartbeat))
  {
    PrefixIndex(s.leader, s.leader.log);
  }

  /** One follower takes its next entry or stays, and is counted only if it took it. */
  lemma AnswerKeeps(s: System, p: nat, i: nat, n: Node, taken: bool, counted: bool)
    requires Inv(s) && (p, i) in s.pending && p in s.followers && i in s.acks
    requires Follows(n, s.leader) && (taken ==> |s.followers[p].log| + 1 == i)
    requires |n.log| == (if taken then i else |s.followers[p].log|) && (counted ==> taken)
    ensures Inv(s.(followers := s.followers[p := n], pending := s.pending - {(p, i)},
                   acks := if counted then s.acks[i := s.acks[i] + {p}] else s.acks))
  {
    hide Numbered, Quorum;
    assert s.followers[p := n].Keys == s.followers.Keys;
  }

  lemma DeliverKeeps(s: System, p: nat, i: nat, replyArrives: bool)
    requires Inv(s) && Enabled(s, Deliver(p, i, replyArrives))
    ensures Inv(Next(s, Deliver(p, i, replyArrives)))
  {
    EntryArrives(s.followers[p], s.leader, i);
    var (n, resp) := OnAppend(s.followers[p], EntryRequest(s.leader, s.leader.log[i - 1]));
    AnswerKeeps(s, p, i, n, resp.success, resp.success && replyArrives);
  }

  lemma DeliverBeatKeeps(s: System, p: nat, r: AppendRequest)
    requires Inv(s) && Enabled(s, DeliverBeat(p, r))
    ensures Inv(Next(s, DeliverBeat(p, r)))
  {
    BeatArrives(s.followers[p], s.leader, r);
    hide OnAppend;
  }

  lemma StepKeeps(s: System, step: Step)
    requires Inv(s) && Enabled(s, step)
    ensures Inv(Next(s, step))
  {
    match step
    case Propose(data) => ProposeKeeps(s, data);
    case Heartbeat => HeartbeatKeeps(s);
    case Deliver(p, i, replyArrives) => DeliverKeeps(s, p, i, replyArrives);
    case DeliverBeat(p, r) => DeliverBeatKeeps(s, p, r);
    case Complete(i) =>
  }

  lemma {:induction false} RunKeeps(s: System, steps: seq<Step>)
    requires Inv(s) && Runs(s, steps)
    ensures Inv(After(s, steps))
    decreases steps
  {
    hide Inv, Next;
    if steps != [] {
      StepKeeps(s, steps[0]);
      RunKeeps(Next(s, steps[0]), steps[1..]);
    }
  }

  /** The leader's log and every follower's log only grow, no follower's commit index goes back, and
      nothing acknowledged is forgotten. */
  ghost predicate Grows(s: System, t: System) {
    && s.leader.log <= t.leader.log && s.followers.Keys == t.followers.Keys && s.done <= t.done
    && (forall p :: p in s.followers ==>
          s.followers[p].log <= t.followers[p].log && s.followers[p].commit <= t.followers[p].commit)
  }

  lemma StepGrows(s: System, step: Step)
    requires Inv(s) && Enabled(s, step)
    ensures Grows(s, Next(s, step))
  {
    hide OnAppend, EntryRequest, Follows, Numbered, Quorum;
    if step.Deliver? {
      EntryArrives(s.followers[step.peer], s.leader, step.index);
    } else if step.DeliverBeat? {
      BeatArrives(s.followers[step.peer], s.leader, step.request);
    }
  }

  lemma {:induction false} RunGrows(s: System, steps: seq<Step>)
    requires Inv(s) && Runs(s, steps)
    ensures Grows(s, After(s, steps))
    decreases steps
  {
    hide Inv, Next;
    if steps != [] {
      StepKeeps(s, steps[0]);
      StepGrows(s, steps[0]);
      RunGrows(Next(s, steps[0]), steps[1..]);
    }
  }

  lemma InitialInv(s: System)
    requires Initial(s)
    ensures Inv(s)
  {
  }

  /** Replication: from empty logs, over every run, each follower's log is a prefix of the leader's
      and its commit index is the length of its log; and over the rest of the run logs and commit
      indexes only grow. */
  lemma FollowersFollow(start: System, steps: seq<Step>, more: seq<Step>, p: nat)
    requires Initial(start) && Runs(start, steps) && Runs(After(start, steps), more) && p in start.followers
    ensures var s := After(start, steps);
            var t := After(s, more);
            && p in s.followers && p in t.followers
            && s.followers[p].log <= s.leader.log && s.followers[p].commit == |s.followers[p].log|
            && s.followers[p].log <= t.followers[p].log && s.followers[p].commit <= t.followers[p].commit
  {
    hide Next;
    InitialInv(start);
    RunKeeps(start, steps);
    RunGrows(start, steps);
    RunGrows(After(start, steps), more);
  }

  // ---------- Acknowledged entries ----------

  /** The followers that have the leader's first `i` entries. */
  function Holders(s: System, i: nat): set<nat>
    requires i <= |s.leader.log|
  {
    set p | p in s.followers && i <= |s.followers[p].log| && s.followers[p].log[..i] == s.leader.log[..i]
  }

  lemma DoneOnQuorum(s: System, i: nat)
    requires Inv(s) && i in s.done
    ensures i <= |s.leader.log| && |Holders(s, i)| + 1 >= Quorum(|s.followers| + 1)
  {
    forall p | p in s.acks[i] ensures p in Holders(s, i) {
      assert Follows(s.followers[p], s.leader);
    }
    SubsetSize(s.acks[i], Holders(s, i));
  }

  /** Acknowledged entries sit on a quorum: once the replication of entry `i` has returned Ok, then at
      every later moment under that leader at least half of the cluster, the leader included, has the
      first `i` entries that the leader had at that time. */
  lemma AcknowledgedStays(start: System, steps: seq<Step>, more: seq<Step>, i: nat)
    requires Initial(start) && Runs(start, steps) && Runs(After(start, steps), more)
    requires i in After(start, steps).done
    ensures var s := After(start, steps);
            var t := After(s, more);
            && i <= |s.leader.log| <= |t.leader.log| && t.leader.log[..i] == s.leader.log[..i]
            && |Holders(t, i)| + 1 >= Quorum(|t.followers| + 1)
  {
    hide Next;
    InitialInv(start);
    RunKeeps(start, steps);
    RunKeeps(After(start, steps), more);
    RunGrows(After(start, steps), more);
    DoneOnQuorum(After(start, steps), i);
    DoneOnQuorum(After(After(start, steps), more), i);
  }

  /** Why at most once: an entry request keeps a follower's log a prefix of the leader's exactly when
      the follower lacks that entry. A second delivery is accepted and appends the entry again. */
  lemma EntryKeepsPrefixIff(f: Node, leader: Node, i: nat)
    requires Numbered(leader) && f.log <= leader.log && f.term <= leader.term && 0 < i <= |leader.log|
    ensures OnAppend(f, EntryRequest(leader, leader.log[i - 1])).0.log <= leader.log <==> |f.log| < i
  {
    if |f.log| < i {
      EntryArrives(f.(commit := |f.log|), leader, i);
    } else {
      var log := OnAppend(f, EntryRequest(leader, leader.log[i - 1])).0.log;
      assert log[|f.log|].index == i;
    }
  }

  // ---------- Committed entries ----------

  /** Everything a follower has committed sits on a quorum. */
  ghost predicate CommitsOnQuorum(s: System) {
    forall p, i :: p in s.followers && 0 < i <= s.followers[p].commit ==>
      i <= |s.leader.log| && |Holders(s, i)| + 1 >= Quorum(|s.followers| + 1)
  }

  lemma SmallClusterCommits(s: System)
    requires Inv(s) && |s.followers| <= 3
    ensures CommitsOnQuorum(s)
  {
    forall p, i | p in s.followers && 0 < i <= s.followers[p].commit
      ensures i <= |s.leader.log| && |Holders(s, i)| + 1 >= Quorum(|s.followers| + 1)
    {
      assert Follows(s.followers[p], s.leader);
      SubsetSize({p}, Holders(s, i));
    }
  }

  lemma FirstProposal(start: System, p: nat)
    requires Initial(start) && p in start.followers
    ensures var s := Next(start, Propose([]));
            Inv(s) && Enabled(s, Deliver(p, 1, true)) && s.followers == start.followers && |s.leader.log| == 1
  {
    InitialInv(start);
    ProposeKeeps(start, []);
    assert (p, 1) in Next(start, Propose([])).pending;
  }

  /** One entry, delivered to one follower, which commits it at once. */
  lemma FirstDelivery(start: System, p: nat) returns (s: System)
    requires Initial(start) && p in start.followers
    ensures Runs(start, [Propose([]), Deliver(p, 1, true)]) && s == After(start, [Propose([]), Deliver(p, 1, true)])
    ensures s.followers.Keys == start.followers.Keys && s.followers[p].commit == 1 && |s.leader.log| == 1
    ensures Holders(s, 1) <= {p}
  {
    FirstProposal(start, p);
    var first, second := Propose([]), Deliver(p, 1, true);
    var proposed := Next(start, first);
    EntryArrives(proposed.followers[p], proposed.leader, 1);
    s := Next(proposed, second);
    assert [first, second][1..] == [second] && [second][1..] == [];
    assert After(proposed, [second]) == s;
  }

  /** Followers commit an entry as soon as they have it. So in every run all that any follower has
      committed sits on a quorum exactly in clusters of at most four nodes. */
  lemma CommitsOnQuorumIff(start: System)
    requires Initial(start)
    ensures (forall steps: seq<Step> :: Runs(start, steps) ==> CommitsOnQuorum(After(start, steps)))
            <==> |start.followers| + 1 <= 4
  {
    hide Next;
    InitialInv(start);
    if |start.followers| <= 3 {
      forall steps: seq<Step> | Runs(start, steps) ensures CommitsOnQuorum(After(start, steps)) {
        RunKeeps(start, steps);
        RunGrows(start, steps);
        SmallClusterCommits(After(start, steps));
      }
    } else {
      var p :| p in start.followers;
      var s := FirstDelivery(start, p);
      SubsetSize(Holders(s, 1), {p});
      assert !CommitsOnQuorum(s);
    }
  }

  // ---------- What is replicated ----------

  function Data(log: seq<LogEntry>): seq<seq<byte>> {
    seq(|log|, i requires 0 <= i < |log| => log[i].data)
  }

  /** The data proposed in a run, in order. */
  function Proposed(steps: seq<Step>): seq<seq<byte>> {
    if steps == [] then []
    else (if steps[0].Propose? then [steps[0].data] else []) + Proposed(steps[1..])
  }

  lemma StepData(s: System, step: Step)
    requires Enabled(s, step)
    ensures Data(Next(s, step).leader.log) == Data(s.leader.log) + (if step.Propose? then [step.data] else [])
  {
    hide OnAppend;
  }

  /** Over every run the leader's log holds exactly the data proposed, in order, after what it held. */
  lemma {:induction false} LeaderHoldsProposals(s: System, steps: seq<Step>)
    requires Runs(s, steps)
    ensures Data(After(s, steps).leader.log) == Data(s.leader.log) + Proposed(steps)
    decreases steps
  {
    hide Next;
    if steps != [] {
      StepData(s, steps[0]);
      LeaderHoldsProposals(Next(s, steps[0]), steps[1..]);
      ConcatAssoc(Data(s.leader.log), if steps[0].Propose? then [steps[0].data] else [], Proposed(steps[1..]));
    } else {
      assert Data(s.leader.log) + [] == Data(s.leader.log);
    }
  }

  /** The leader's own commit index is always that of an acknowledged entry. */
  lemma {:induction false} LeaderCommitsAcknowledged(s: System, steps: seq<Step>)
    requires Runs(s, steps) && (s.leader.commit == 0 || s.leader.commit in s.done)
    ensures var after := After(s, steps); after.leader.commit == 0 || after.leader.commit in after.done
    decreases steps
  {
    hide OnAppend;
    if steps != [] {
      LeaderCommitsAcknowledged(Next(s, steps[0]), steps[1..]);
    }
  }

  // ---------- The leader's own tally ----------

  /** A leader's calls to its followers, each called once. */
  predicate CallsFollowers(s: System, calls: seq<(nat, Call)>) {
    && (forall j :: 0 <= j < |calls| ==> calls[j].0 in s.followers)
    && (forall j, k :: 0 <= j < k < |calls| ==> calls[j].0 != calls[k].0)
  }

  function DeliverSteps(i: nat, calls: seq<(nat, Call)>): seq<Step> {
    if calls == [] then []
    else
      var (p, call) := calls[|calls| - 1];
      DeliverSteps(i, calls[..|calls| - 1]) + (if call.Unreached? then [] else [Deliver(p, i, call.Answered?)])
  }

  /** What the leader gets back: each follower that answers does so by its own append rule. */
  function AppendReplies(followers: map<nat, Node>, req: AppendRequest, calls: seq<(nat, Call)>)
    : (r: seq<Option<AppendResponse>>)
    requires forall j :: 0 <= j < |calls| ==> calls[j].0 in followers
    ensures |r| == |calls|
  {
    if calls == [] then []
    else
      var (p, call) := calls[|calls| - 1];
      AppendReplies(followers, req, calls[..|calls| - 1])
      + [if call.Answered? then Some(OnAppend(followers[p], req).1) else None]
  }

  lemma AckedNext(replies: seq<Option<AppendResponse>>, r: Option<AppendResponse>)
    ensures Acked(replies + [r]) == Acked(replies) + (if r.Some? && r.value.success then 1 else 0)
  {
    assert (replies + [r])[..|replies|] == replies;
  }

  /** The answers collected so far for the last entry of `s`, and who has not been called yet. */
  ghost predicate Gathered(s: System, after: System, i: nat, req: AppendRequest, calls: seq<(nat, Call)>)
    requires CallsFollowers(s, calls)
  {
    && after.leader == s.leader && after.followers.Keys == s.followers.Keys
    && i in after.acks && |after.acks[i]| == Acked(AppendReplies(s.followers, req, calls))
    && (forall p :: p in after.acks[i] ==> Calls(calls, p))
    && (forall p :: p in s.followers && !Calls(calls, p) ==> after.followers[p] == s.followers[p] && (p, i) in after.pending)
  }

  /** The entry that is being replicated, and its request. */
  predicate Sends(s: System, i: nat, req: AppendRequest) {
    0 < i <= |s.leader.log| && s.leader.log[i - 1].index > 0 && req == EntryRequest(s.leader, s.leader.log[i - 1])
  }

  lemma DeliverNext(mid: System, p: nat, i: nat, replyArrives: bool, req: AppendRequest)
    requires Sends(mid, i, req) && p in mid.followers && i in mid.acks && (p, i) in mid.pending
    ensures Enabled(mid, Deliver(p, i, replyArrives))
    ensures var (n, resp) := OnAppend(mid.followers[p], req);
            Next(mid, Deliver(p, i, replyArrives)) ==
            mid.(followers := mid.followers[p := n], pending := mid.pending - {(p, i)},
                 acks := if resp.success && replyArrives then mid.acks[i := mid.acks[i] + {p}] else mid.acks)
  {
    hide OnAppend, EntryRequest;
  }

  lemma AnswerGathers(s: System, mid: System, i: nat, req: AppendRequest, before: seq<(nat, Call)>, p: nat, call: Call,
                      n: Node, counted: bool)
    requires CallsFollowers(s, before) && CallsFollowers(s, before + [(p, call)]) && Gathered(s, mid, i, req, before)
    requires p in s.followers && p !in mid.acks[i]
    requires Acked(AppendReplies(s.followers, req, before + [(p, call)]))
             == Acked(AppendReplies(s.followers, req, before)) + (if counted then 1 else 0)
    ensures Gathered(s, mid.(followers := mid.followers[p := n], pending := mid.pending - {(p, i)},
                             acks := if counted then mid.acks[i := mid.acks[i] + {p}] else mid.acks),
                     i, req, before + [(p, call)])
  {
    CallsNext(before, p, call);
    hide OnAppend, Acked, Calls, AppendReplies, CallsFollowers;
  }

  lemma RepliesNext(s: System, req: AppendRequest, before: seq<(nat, Call)>, p: nat, call: Call)
    requires CallsFollowers(s, before) && CallsFollowers(s, before + [(p, call)]) && p in s.followers
    ensures Acked(AppendReplies(s.followers, req, before + [(p, call)])) == Acked(AppendReplies(s.followers, req, before))
            + (if call.Answered? && OnAppend(s.followers[p], req).1.success then 1 else 0)
  {
    var calls := before + [(p, call)];
    assert calls[..|before|] == before && calls[|before|] == (p, call);
    hide OnAppend;
    AckedNext(AppendReplies(s.followers, req, before), if call.Answered? then Some(OnAppend(s.followers[p], req).1) else None);
  }

  lemma CallGathers(s: System, mid: System, i: nat, req: AppendRequest, before: seq<(nat, Call)>, p: nat, call: Call)
    requires CallsFollowers(s, before + [(p, call)]) && CallsFollowers(s, before) && Sends(s, i, req)
    requires p in s.followers && !Calls(before, p) && Gathered(s, mid, i, req, before) && !call.Unreached?
    ensures Enabled(mid, Deliver(p, i, call.Answered?))
    ensures Gathered(s, Next(mid, Deliver(p, i, call.Answered?)), i, req, before + [(p, call)])
  {
    hide OnAppend, Acked, Calls, AppendReplies, CallsFollowers, EntryRequest, Next;
    assert mid.followers[p] == s.followers[p] && p !in mid.acks[i];
    DeliverNext(mid, p, i, call.Answered?, req);
    RepliesNext(s, req, before, p, call);
    var (n, resp) := OnAppend(s.followers[p], req);
    hide Gathered;
    AnswerGathers(s, mid, i, req, before, p, call, n, resp.success && call.Answered?);
  }

  lemma CallSkips(s: System, mid: System, i: nat, req: AppendRequest, before: seq<(nat, Call)>, p: nat)
    requires CallsFollowers(s, before + [(p, Unreached)]) && CallsFollowers(s, before) && Gathered(s, mid, i, req, before)
    ensures Gathered(s, mid, i, req, before + [(p, Unreached)])
  {
    var calls := before + [(p, Unreached)];
    assert calls[..|before|] == before && calls[|before|] == (p, Unreached);
    RepliesNext(s, req, before, p, Unreached);
    CallsNext(before, p, Unreached);
    hide OnAppend, Acked, Calls, AppendReplies;
  }

  lemma LastCall(s: System, calls: seq<(nat, Call)>)
    requires calls != [] && CallsFollowers(s, calls)
    ensures CallsFollowers(s, calls[..|calls| - 1]) && !Calls(calls[..|calls| - 1], calls[|calls| - 1].0)
    ensures calls[|calls| - 1].0 in s.followers
  {
  }

  lemma OneStep(s: System, step: Step)
    requires Enabled(s, step)
    ensures Runs(s, [step]) && After(s, [step]) == Next(s, step)
  {
    hide Next;
    assert [step][1..] == [];
  }

  lemma {:induction false} RunConcat(s: System, a: seq<Step>, b: seq<Step>)
    requires Runs(s, a) && Runs(After(s, a), b)
    ensures Runs(s, a + b) && After(s, a + b) == After(After(s, a), b)
    decreases a
  {
    hide Next, Enabled;
    if a == [] {
      assert a + b == b;
    } else {
      assert (a + b)[1..] == a[1..] + b;
      RunConcat(Next(s, a[0]), a[1..], b);
    }
  }

  lemma {:induction false} CallsGather(s: System, i: nat, req: AppendRequest, calls: seq<(nat, Call)>)
    requires CallsFollowers(s, calls) && Sends(s, i, req) && Gathered(s, s, i, req, [])
    ensures Runs(s, DeliverSteps(i, calls)) && Gathered(s, After(s, DeliverSteps(i, calls)), i, req, calls)
  {
    hide Next, Gathered, CallsFollowers, Sends;
    if calls != [] {
      var before := calls[..|calls| - 1];
      var (p, call) := calls[|calls| - 1];
      LastCall(s, calls);
      CallsGather(s, i, req, before);
      var mid := After(s, DeliverSteps(i, before));
      assert calls == before + [(p, call)];
      if call.Unreached? {
        CallSkips(s, mid, i, req, before, p);
        assert DeliverSteps(i, calls) == DeliverSteps(i, before);
      } else {
        CallGathers(s, mid, i, req, before, p, call);
        OneStep(mid, Deliver(p, i, call.Answered?));
        RunConcat(s, DeliverSteps(i, before), [Deliver(p, i, call.Answered?)]);
      }
    }
  }

  lemma ProposalSends(s: System, data: seq<byte>)
    requires Inv(s)
    ensures var proposed := Next(s, Propose(data));
            var i := |s.leader.log| + 1;
            var entry := LogEntry(s.leader.term, i, data);
            && proposed.leader == s.leader.(log := s.leader.log + [entry]) && proposed.followers == s.followers
            && Sends(proposed, i, EntryRequest(proposed.leader, entry))
            && Gathered(proposed, proposed, i, EntryRequest(proposed.leader, entry), [])
  {
    PrefixIndex(s.leader, s.leader.log);
    hide OnAppend;
    var i := |s.leader.log| + 1;
    assert forall p :: p in s.followers ==> (p, i) in Next(s, Propose(data)).pending;
  }

  /** The leader's replication and the system's are the same. The entry can be completed exactly when the
      positive answers that arrive, with the leader's own, make half the cluster rounded up; and the
      leader ends as `RaftNode.Replicate` leaves it. */
  lemma ReplicationMatchesNode(s: System, data: seq<byte>, calls: seq<(nat, Call)>)
    requires Inv(s) && CallsFollowers(s, calls) && |calls| == |s.followers|
    ensures var i := |s.leader.log| + 1;
            var entry := LogEntry(s.leader.term, i, data);
            var appended := s.leader.(log := s.leader.log + [entry]);
            var steps := [Propose(data)] + DeliverSteps(i, calls);
            var replies := AppendReplies(s.followers, EntryRequest(appended, entry), calls);
            var ok := 1 + |set j | 0 <= j < |replies| && replies[j].Some? && replies[j].value.success| >= (|replies| + 2) / 2;
            && Runs(s, steps) && After(s, steps).leader == appended
            && (Enabled(After(s, steps), Complete(i)) <==> ok)
            && (ok ==> Next(After(s, steps), Complete(i)).leader == Committed(appended, i))
  {
    var i := |s.leader.log| + 1;
    var entry := LogEntry(s.leader.term, i, data);
    var proposed := Next(s, Propose(data));
    var req := EntryRequest(proposed.leader, entry);
    ProposalSends(s, data);
    OneStep(s, Propose(data));
    hide DeliverSteps, AppendReplies, Acked, Runs, After, OnAppend, EntryRequest, Inv;
    assert CallsFollowers(proposed, calls);
    CallsGather(proposed, i, req, calls);
    RunConcat(s, [Propose(data)], DeliverSteps(i, calls));
    AckedCounts(AppendReplies(s.followers, req, calls));
    var after := After(proposed, DeliverSteps(i, calls));
    assert |after.followers.Keys| == |s.followers.Keys|;
  }
}
