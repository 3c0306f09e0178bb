/** One Raft node: its state, its message handlers as functions of that state, and the object
    whose methods carry them out. */
module Raft {
  import opened Bytes

  /** Node names are only ever compared for equality. */
  type Id = nat

  datatype Role = Follower | Candidate | Leader

  datatype LogEntry = LogEntry(term: nat, index: nat, data: seq<byte>)

  datatype VoteRequest = VoteRequest(term: nat, candidate: Id, lastLogIndex: nat, lastLogTerm: nat)
  datatype VoteResponse = VoteResponse(term: nat, granted: bool)
  datatype AppendRequest = AppendRequest(
    term: nat, leader: Id, prevLogIndex: nat, prevLogTerm: nat, entries: seq<LogEntry>, leaderCommit: nat)
  datatype AppendResponse = AppendResponse(term: nat, success: bool, conflictIndex: nat)

  /** What becomes of a request: lost, answered in vain, or answered. */
  datatype Call = Unreached | Unanswered | Answered

  datatype Node = Node(
    id: Id,
    role: Role,
    term: nat,
    votedFor: Option<Id>,
    leader: Option<Id>,
    log: seq<LogEntry>,
    commit: nat,
    applied: nat)

  function NewNode(id: Id): Node {
    Node(id, Follower, 0, None, None, [], 0, 0)
  }

  function LastIndex(log: seq<LogEntry>): nat {
    if log == [] then 0 else log[|log| - 1].index
  }

  function LastTerm(log: seq<LogEntry>): nat {
    if log == [] then 0 else log[|log| - 1].term
  }

  /** Half of the cluster, rounded up. */
  function Quorum(n: nat): nat {
    (n + 1) / 2
  }

  // ---------- Handlers ----------

  /** Answering a vote request. A higher term is adopted and clears the vote; the role stays. */
  function OnVote(n: Node, term: nat, candidate: Id): (Node, bool) {
    if term < n.term then (n, false)
    else
      var seen := if term > n.term then n.(term := term, votedFor := None) else n;
      if seen.votedFor == None || seen.votedFor == Some(candidate)
      then (seen.(votedFor := Some(candidate)), true)
      else (seen, false)
  }

  /** Answering an append request. Only the length of the log is compared with the request, and a
      higher term is adopted without clearing the vote. */
  function OnAppend(n: Node, req: AppendRequest): (Node, AppendResponse) {
    if req.term < n.term then (n, AppendResponse(n.term, false, 0))
    else
      var seen := n.(term := req.term);
      if req.prevLogIndex <= |n.log| then
        var log := n.log + req.entries;
        var last := LastIndex(log);
        var commit :=
          if req.leaderCommit <= n.commit then n.commit
          else if req.leaderCommit <= last then req.leaderCommit else last;
        (seen.(log := log, commit := commit), AppendResponse(req.term, true, 0))
      else (seen, AppendResponse(req.term, false, |n.log|))
  }

  function Started(n: Node): Node {
    n.(term := n.term + 1, role := Candidate, votedFor := Some(n.id), leader := None)
  }

  function Won(n: Node): Node {
    n.(role := Leader, leader := Some(n.id))
  }

  function SteppedDown(n: Node, term: nat, leader: Option<Id>): Node {
    n.(role := Follower, term := term, leader := leader, votedFor := None)
  }

  /** The entry a leader appends for new data. */
  function NextEntry(n: Node, data: seq<byte>): LogEntry {
    LogEntry(n.term, LastIndex(n.log) + 1, data)
  }

  function EntryRequest(n: Node, e: LogEntry): AppendRequest
    requires e.index > 0
  {
    AppendRequest(e.term, n.id, e.index - 1, e.term, [e], e.index)
  }

  function HeartbeatRequest(n: Node): AppendRequest {
    AppendRequest(n.term, n.id, LastIndex(n.log), LastTerm(n.log), [], LastIndex(n.log))
  }

  /** Committing an index and applying everything up to it. */
  function Committed(n: Node, index: nat): Node {
    n.(commit := index, applied := if n.applied < index then index else n.applied)
  }

  /** Peers whose answer arrived and was positive. */
  function Granted(replies: seq<Option<VoteResponse>>): nat {
    if replies == [] then 0
    else
      var last := replies[|replies| - 1];
      Granted(replies[..|replies| - 1]) + (if last.Some? && last.value.granted then 1 else 0)
  }

  function Acked(replies: seq<Option<AppendResponse>>): nat {
    if replies == [] then 0
    else
      var last := replies[|replies| - 1];
      Acked(replies[..|replies| - 1]) + (if last.Some? && last.value.success then 1 else 0)
  }

  /** The tallies count exactly the answers that arrived and were positive. */
  lemma {:induction false} GrantedCounts(replies: seq<Option<VoteResponse>>)
    ensures Granted(replies) == |set i | 0 <= i < |replies| && replies[i].Some? && replies[i].value.granted|
  {
    var all := set i | 0 <= i < |replies| && replies[i].Some? && replies[i].value.granted;
    if replies == [] {
      assert all == {};
    } else {
      var shorter, n := replies[..|replies| - 1], |replies| - 1;
      GrantedCounts(shorter);
      var before := set i | 0 <= i < |shorter| && shorter[i].Some? && shorter[i].value.granted;
      assert all == before + (if replies[n].Some? && replies[n].value.granted then {n} else {});
    }
  }

  lemma {:induction false} AckedCounts(replies: seq<Option<AppendResponse>>)
    ensures Acked(replies) == |set i | 0 <= i < |replies| && replies[i].Some? && replies[i].value.success|
  {
    var all := set i | 0 <= i < |replies| && replies[i].Some? && replies[i].value.success;
    if replies == [] {
      assert all == {};
    } else {
      var shorter, n := replies[..|replies| - 1], |replies| - 1;
      AckedCounts(shorter);
      var before := set i | 0 <= i < |shorter| && shorter[i].Some? && shorter[i].value.success;
      assert all == before + (if replies[n].Some? && replies[n].value.success then {n} else {});
    }
  }

  predicate Calls(calls: seq<(nat, Call)>, p: nat) {
    exists j :: 0 <= j < |calls| && calls[j].0 == p
  }

  lemma CallsNext(before: seq<(nat, Call)>, p: nat, call: Call)
    ensures forall v :: Calls(before + [(p, call)], v) <==> Calls(before, v) || v == p
  {
    var calls := before + [(p, call)];
    assert calls[|before|].0 == p;
    forall v | Calls(before, v) ensures Calls(calls, v) {
      var j :| 0 <= j < |before| && before[j].0 == v;
      assert calls[j].0 == v;
    }
  }

  /** An append request of an earlier term changes nothing, and is answered with the node's own term. */
  lemma StaleAppendRefused(n: Node, req: AppendRequest)
    requires req.term < n.term
    ensures OnAppend(n, req) == (n, AppendResponse(n.term, false, 0))
  {
  }

  // ---------- The node object ----------

  class RaftNode {
    const id: Id
    var role: Role
    var term: nat
    var votedFor: Option<Id>
    var leader: Option<Id>
    var log: seq<LogEntry>
    var commit: nat
    var applied: nat

    ghost function View(): Node
      reads this
    {
      Node(id, role, term, votedFor, leader, log, commit, applied)
    }

    constructor (id: Id)
      ensures View() == NewNode(id)
      ensures this.id == id && role == Follower && term == 0 && votedFor == None && leader == None
      ensures log == [] && commit == 0 && applied == 0
    {
      this.id, role, term, votedFor, leader := id, Follower, 0, None, None;
      log, commit, applied := [], 0, 0;
    }

    method HandleRequestVote(req: VoteRequest) returns (resp: VoteResponse)
      modifies this
      ensures (View(), resp.granted) == OnVote(old(View()), req.term, req.candidate)
      ensures resp.term == term && term == (if req.term > old(term) then req.term else old(term))
      ensures resp.granted <==>
              req.term > old(term) || (req.term == old(term) && old(votedFor) in {None, Some(req.candidate)})
      ensures votedFor == (if resp.granted then Some(req.candidate) else old(votedFor))
    {
      var granted := false;
      if req.term >= term {
        if req.term > term {
          term := req.term;
          votedFor := None;
        }
        if votedFor == None || votedFor == Some(req.candidate) {
          votedFor := Some(req.candidate);
          granted := true;
        }
      }
      resp := VoteResponse(term, granted);
    }

    /** The local form of a vote: the same rule. */
    method GrantVote(candidateTerm: nat, candidate: Id) returns (granted: bool)
      modifies this
      ensures (View(), granted) == OnVote(old(View()), candidateTerm, candidate)
    {
      if candidateTerm < term {
        return false;
      }
      if candidateTerm > term {
        term := candidateTerm;
        votedFor := None;
      }
      if votedFor == None || votedFor == Some(candidate) {
        votedFor := Some(candidate);
        return true;
      }
      return false;
    }

    method HandleAppendEntries(req: AppendRequest) returns (resp: AppendResponse)
      modifies this
      ensures (View(), resp) == OnAppend(old(View()), req)
      ensures req.term < old(term) ==> View() == old(View()) && resp == AppendResponse(old(term), false, 0)
      ensures req.term >= old(term) ==> term == resp.term == req.term && (resp.success <==> req.prevLogIndex <= |old(log)|)
      ensures log == (if resp.success then old(log) + req.entries else old(log))
      ensures resp.success && req.leaderCommit > old(commit) ==>
                var last := if log == [] then 0 else log[|log| - 1].index;
                commit == if req.leaderCommit <= last then req.leaderCommit else last
      ensures !resp.success || req.leaderCommit <= old(commit) ==> commit == old(commit)
      ensures role == old(role) && votedFor == old(votedFor) && leader == old(leader)
      ensures !resp.success && req.term >= old(term) ==> resp.conflictIndex == |old(log)|
    {
      if req.term < term {
        return AppendResponse(term, false, 0);
      }
      if req.term > term {
        term := req.term;
      }
      if req.prevLogIndex > |log| {
        return AppendResponse(term, false, |log|);
      }
      for i := 0 to |req.entries|
        invariant View() == old(View()).(term := req.term, log := old(log) + req.entries[..i])
      {
        log := log + [req.entries[i]];
      }
      assert req.entries[..|req.entries|] == req.entries;
      if req.leaderCommit > commit {
        commit := if req.leaderCommit <= LastIndex(log) then req.leaderCommit else LastIndex(log);
      }
      return AppendResponse(term, true, 0);
    }

    method StartElection() returns (newTerm: nat)
      modifies this
      ensures View() == Started(old(View())) && newTerm == term == old(term) + 1
      ensures role == Candidate && votedFor == Some(id) && leader == None
      ensures log == old(log) && commit == old(commit) && applied == old(applied)
    {
      term := term + 1;
      role, votedFor, leader := Candidate, Some(id), None;
      return term;
    }

    method BecomeLeader()
      modifies this
      ensures View() == Won(old(View()))
      ensures role == Leader && leader == Some(id) && term == old(term) && votedFor == old(votedFor)
      ensures log == old(log) && commit == old(commit) && applied == old(applied)
    {
      role, leader := Leader, Some(id);
    }

    method StepDown(newTerm: nat, newLeader: Option<Id>)
      modifies this
      ensures View() == SteppedDown(old(View()), newTerm, newLeader)
      ensures role == Follower && term == newTerm && leader == newLeader && votedFor == None
      ensures log == old(log) && commit == old(commit) && applied == old(applied)
    {
      role, term, leader, votedFor := Follower, newTerm, newLeader, None;
    }

    /** The request sent to every peer: nothing new, and everything so far as committed. */
    method Heartbeat() returns (req: AppendRequest)
      ensures req == HeartbeatRequest(View())
      ensures req.term == term && req.leader == id && req.entries == []
      ensures log == [] ==> req.prevLogIndex == req.prevLogTerm == req.leaderCommit == 0
      ensures log != [] ==> req.prevLogIndex == req.leaderCommit == log[|log| - 1].index && req.prevLogTerm == log[|log| - 1].term
    {
      var prevLogIndex, prevLogTerm := 0, 0;
      if log != [] {
        prevLogIndex, prevLogTerm := log[|log| - 1].index, log[|log| - 1].term;
      }
      return AppendRequest(term, id, prevLogIndex, prevLogTerm, [], prevLogIndex);
    }

    /** The request that carries a new entry to a peer. */
    method EntryMessage(entry: LogEntry) returns (req: AppendRequest)
      requires entry.index > 0
      ensures req == EntryRequest(View(), entry)
      ensures req.term == req.prevLogTerm == entry.term && req.leader == id && req.entries == [entry]
      ensures req.prevLogIndex == entry.index - 1 && req.leaderCommit == entry.index
    {
      return AppendRequest(entry.term, id, entry.index - 1, entry.term, [entry], entry.index);
    }

    /** A whole election; `replies` is what came back from each peer, None for a failed call. */
    method StartElectionAndCollectVotes(replies: seq<Option<VoteResponse>>) returns (won: bool)
      modifies this
      ensures won <==> 1 + |set i | 0 <= i < |replies| && replies[i].Some? && replies[i].value.granted| >= (|replies| + 2) / 2
      ensures term == old(term) + 1 && log == old(log) && role == (if won then Leader else Follower)
      ensures View() == if won then Won(Started(old(View())))
                        else SteppedDown(Started(old(View())), old(term) + 1, None)
    {
      GrantedCounts(replies);
      var newTerm := StartElection();
      var votes := 1;
      for i := 0 to |replies|
        invariant votes == 1 + Granted(replies[..i])
      {
        assert replies[..i + 1][..i] == replies[..i];
        if replies[i].Some? && replies[i].value.granted {
          votes := votes + 1;
        }
      }
      assert replies[..|replies|] == replies;
      var majority := (|replies| + 1 + 1) / 2;
      if votes >= majority {
        BecomeLeader();
        return true;
      }
      StepDown(newTerm, None);
      return false;
    }

    /** Replicating one entry; `replies` is what came back from each peer. */
    method Replicate(data: seq<byte>, replies: seq<Option<AppendResponse>>) returns (ok: bool)
      modifies this
      ensures ok <==> old(role) == Leader
                      && 1 + |set i | 0 <= i < |replies| && replies[i].Some? && replies[i].value.success| >= (|replies| + 2) / 2
      ensures log == if old(role) != Leader then old(log)
                     else old(log) + [LogEntry(term, if old(log) == [] then 1 else old(log)[|old(log)| - 1].index + 1, data)]
      ensures if ok then commit == log[|log| - 1].index <= applied else commit == old(commit)
      ensures View() ==
              var n := old(View());
              if old(role) != Leader then n
              else
                var appended := n.(log := n.log + [NextEntry(n, data)]);
                if ok then Committed(appended, NextEntry(n, data).index) else appended
    {
      AckedCounts(replies);
      if role != Leader {
        return false;
      }
      var index := if log == [] then 1 else log[|log| - 1].index + 1;
      log := log + [LogEntry(term, index, data)];
      var acks := 1;
      for i := 0 to |replies|
        invariant acks == 1 + Acked(replies[..i])
      {
        assert replies[..i + 1][..i] == replies[..i];
        if replies[i].Some? && replies[i].value.success {
          acks := acks + 1;
        }
      }
      assert replies[..|replies|] == replies;
      if acks >= (|replies| + 1 + 1) / 2 {
        commit := index;
        while applied < commit
          invariant applied <= if old(applied) < index then index else old(applied)
          invariant applied >= old(applied) && (old(applied) >= index ==> applied == old(applied))
          invariant View() == old(View()).(log := old(log) + [NextEntry(old(View()), data)], commit := index, applied := applied)
        {
          applied := applied + 1;
        }
        return true;
      }
      return false;
    }
  }
}
