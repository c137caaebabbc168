/** A Raft node's RPC handlers. Each handler is a transition of the node's state (role, term,
    vote, log, commit and apply cursors, leader bookkeeping); RPC replies the node would
    receive over the network are explicit inputs, and clock readings and random election
    timeouts are parameters. */
module Raft {
  import opened Common
  import opened RaftLog

  datatype Role = Follower | Candidate | Leader

  /** Everything a handler can change. `applied` is the stream of entries handed to the
      apply callback, in order. */
  datatype NodeState = NodeState(
    role: Role,
    currentTerm: int,
    votedFor: Option<int>,
    log: seq<LogEntry>,
    commitIndex: nat,
    lastApplied: nat,
    leaderId: Option<int>,
    nextIndex: map<int, int>,
    matchIndex: map<int, int>,
    lastHeartbeat: int,
    electionTimeout: int,
    applied: seq<LogEntry>)

  function Initial(now: int, timeout: int): NodeState {
    NodeState(Follower, 0, None, [], 0, 0, None, map[], map[], now, timeout, [])
  }

  /** The rule every RPC starts with: a higher term is adopted, the vote cleared and the node
      steps down to follower. */
  function AdoptTerm(s: NodeState, term: int): NodeState {
    if term > s.currentTerm then s.(currentTerm := term, votedFor := None, role := Follower) else s
  }

  function ResetTimer(s: NodeState, now: int, timeout: int): NodeState {
    s.(lastHeartbeat := now, electionTimeout := timeout)
  }

  // ---------------------------------------------------------------------------------------
  // RequestVote

  datatype VoteRequest = VoteRequest(term: int, candidateId: int, lastLogIndex: int, lastLogTerm: int)
  datatype VoteReply = VoteReply(term: int, voteGranted: bool)

  /** The election restriction: the candidate's (last term, last index) is at least the
      receiver's, compared lexicographically; an empty receiver log accepts anyone. */
  predicate LogOk(log: seq<LogEntry>, lastLogIndex: int, lastLogTerm: int) {
    |log| == 0 ||
    lastLogTerm > log[|log| - 1].term ||
    (lastLogTerm == log[|log| - 1].term && lastLogIndex >= log[|log| - 1].index)
  }

  function RequestVoteStep(s: NodeState, req: VoteRequest, now: int, timeout: int): (NodeState, VoteReply) {
    var t := AdoptTerm(s, req.term);
    if req.term < t.currentTerm then (t, VoteReply(t.currentTerm, false))
    else if LogOk(t.log, req.lastLogIndex, req.lastLogTerm)
         && (t.votedFor.None? || t.votedFor == Some(req.candidateId)) then
      (ResetTimer(t.(votedFor := Some(req.candidateId)), now, timeout), VoteReply(t.currentTerm, true))
    else (t, VoteReply(t.currentTerm, false))
  }

  /** Term rules of RequestVote: a higher term is adopted with the vote cleared (or given to
      this candidate) and the node a follower; a lower term is refused with nothing changed.
      The log and both cursors are never touched. */
  lemma RequestVoteTerms(s: NodeState, req: VoteRequest, now: int, timeout: int)
    ensures var (r, reply) := RequestVoteStep(s, req, now, timeout);
      r.log == s.log && r.commitIndex == s.commitIndex && r.lastApplied == s.lastApplied &&
      r.currentTerm == Max(s.currentTerm, req.term) && reply.term == r.currentTerm &&
      (req.term > s.currentTerm ==>
        r.role == Follower && (r.votedFor == None || r.votedFor == Some(req.candidateId))) &&
      (req.term < s.currentTerm ==> r == s && !reply.voteGranted)
  {
  }

  /** A vote is granted exactly when the term is current, the candidate's log is at least as
      up to date, and the vote of this term is free or already the candidate's. */
  lemma VoteGrantedIff(s: NodeState, req: VoteRequest, now: int, timeout: int)
    ensures RequestVoteStep(s, req, now, timeout).1.voteGranted <==>
      req.term >= s.currentTerm && LogOk(s.log, req.lastLogIndex, req.lastLogTerm) &&
      (req.term > s.currentTerm || s.votedFor == None || s.votedFor == Some(req.candidateId))
    ensures RequestVoteStep(s, req, now, timeout).1.voteGranted ==>
      RequestVoteStep(s, req, now, timeout).0.votedFor == Some(req.candidateId)
  {
  }

  /** Once a vote is granted in a term, no other candidate gets one in that term. */
  lemma AtMostOneVotePerTerm(s: NodeState, a: VoteRequest, b: VoteRequest, now: int, timeout: int)
    requires RequestVoteStep(s, a, now, timeout).1.voteGranted
    requires b.term == a.term && b.candidateId != a.candidateId
    ensures !RequestVoteStep(RequestVoteStep(s, a, now, timeout).0, b, now, timeout).1.voteGranted
  {
  }

  // ---------------------------------------------------------------------------------------
  // AppendEntries

  datatype AppendRequest = AppendRequest(
    term: int, leaderId: int, prevLogIndex: int, prevLogTerm: int,
    entries: seq<LogEntry>, leaderCommit: int)
  datatype AppendReply = AppendReply(term: int, success: bool)

  /** Stores the received entries one by one: an entry whose index is within the log
      overwrites position index - 1 (a Python index, so index <= 0 counts from the end),
      while a larger index is appended. False where the position is out of range and Python
      raises IndexError; the log is then left as far as the loop had got. */
  function MergeEntries(log: seq<LogEntry>, entries: seq<LogEntry>): (seq<LogEntry>, bool)
    decreases |entries|
  {
    if |entries| == 0 then (log, true)
    else
      var e := entries[0];
      if e.index <= |log| then
        match PyIndex(e.index - 1, |log|) {
          case None => (log, false)
          case Some(p) => MergeEntries(log[p := e], entries[1..])
        }
      else MergeEntries(log + [e], entries[1..])
  }

  /** `_apply_committed`: hands log entries lastApplied+1..commitIndex to the callback in
      order. A commit index past the end of the log makes the loop raise IndexError after
      applying what exists, with lastApplied already one past the end. */
  function ApplyStep(s: NodeState): (r: (NodeState, bool))
    ensures r.0 == s.(lastApplied := r.0.lastApplied, applied := r.0.applied)
  {
    if s.lastApplied >= s.commitIndex then (s, true)
    else if s.commitIndex <= |s.log| then
      (s.(lastApplied := s.commitIndex, applied := s.applied + s.log[s.lastApplied..s.commitIndex]), true)
    else
      (s.(lastApplied := Max(s.lastApplied, |s.log|) + 1,
          applied := s.applied + s.log[Min(s.lastApplied, |s.log|)..]), false)
  }

  /** Where `_apply_committed` runs off the end of the log it has applied the whole rest of it. */
  lemma AppliedToEnd(log: seq<LogEntry>, from: int, k: int)
    requires 0 <= from <= k && |log| <= k && (k > from ==> k <= |log|)
    ensures log[Min(from, |log|)..] == if k > from then log[from..k] else []
  {
  }

  /** One more iteration of `_apply_committed` extends the applied slice by one entry. */
  lemma AppliedGrows(log: seq<LogEntry>, from: int, k: int)
    requires 0 <= from <= k < |log|
    ensures log[from..k + 1] == (if k > from then log[from..k] else []) + [log[k]]
  {
  }

  /** The reply is None where the handler raises instead of answering. */
  function AppendEntriesStep(s: NodeState, req: AppendRequest, now: int, timeout: int): (NodeState, Option<AppendReply>) {
    var t := AdoptTerm(s, req.term);
    if req.term < t.currentTerm then (t, Some(AppendReply(t.currentTerm, false)))
    else MatchStep(Follow(t, req.leaderId, now, timeout), req)
  }

  /** A request of the current term: the sender is the leader and the timer restarts. */
  function Follow(s: NodeState, leader: int, now: int, timeout: int): NodeState {
    ResetTimer(s, now, timeout).(leaderId := Some(leader), role := Follower)
  }

  /** The consistency check on the previous index and term, then the merge and the commit:
      a log without the previous index, or with another term there, refuses (the second
      also cuts the log before that index). */
  function MatchStep(f: NodeState, req: AppendRequest): (NodeState, Option<AppendReply>) {
    var reject := Some(AppendReply(f.currentTerm, false));
    if req.prevLogIndex > 0 && req.prevLogIndex > |f.log| then (f, reject)
    else if req.prevLogIndex > 0 && f.log[req.prevLogIndex - 1].term != req.prevLogTerm then
      (f.(log := f.log[..req.prevLogIndex - 1]), reject)
    else
      var (merged, ok) := MergeEntries(f.log, req.entries);
      var g := f.(log := merged);
      if !ok then (g, None) else AcceptStep(g, req.leaderCommit)
  }

  /** The end of an accepted AppendEntries: the commit index follows the leader's, capped at
      the log's end, and what it newly covers is applied before the success reply. */
  function AcceptStep(g: NodeState, leaderCommit: int): (NodeState, Option<AppendReply>) {
    if leaderCommit > g.commitIndex then
      var (h, applied) := ApplyStep(g.(commitIndex := Min(leaderCommit, |g.log|)));
      (h, if applied then Some(AppendReply(h.currentTerm, true)) else None)
    else (g, Some(AppendReply(g.currentTerm, true)))
  }

  lemma AppendEntriesTerms(s: NodeState, req: AppendRequest, now: int, timeout: int)
    ensures var (r, reply) := AppendEntriesStep(s, req, now, timeout);
      r.currentTerm == Max(s.currentTerm, req.term) &&
      (req.term > s.currentTerm ==> r.role == Follower && r.votedFor == None) &&
      (req.term < s.currentTerm ==> r == s && reply == Some(AppendReply(s.currentTerm, false))) &&
      (req.term >= s.currentTerm ==> r.role == Follower && r.leaderId == Some(req.leaderId))
  {
  }

  /** The consistency check: a previous index past the end is refused with the log as it was;
      a previous entry of another term is refused and the log cut to the entries before it. */
  lemma AppendEntriesConsistency(s: NodeState, req: AppendRequest, now: int, timeout: int)
    requires req.term >= s.currentTerm && req.prevLogIndex > 0
    ensures var (r, reply) := AppendEntriesStep(s, req, now, timeout);
      (req.prevLogIndex > |s.log| ==> r.log == s.log && reply == Some(AppendReply(r.currentTerm, false))) &&
      (req.prevLogIndex <= |s.log| && s.log[req.prevLogIndex - 1].term != req.prevLogTerm ==>
        r.log == s.log[..req.prevLogIndex - 1] && reply == Some(AppendReply(r.currentTerm, false)))
  {
  }

  /** Entries numbered prev+1, prev+2, ... land at exactly those positions; everything outside
      them keeps its old value, and the log grows only as far as the last entry reaches. */
  lemma {:induction false} MergeConsecutive(log: seq<LogEntry>, entries: seq<LogEntry>, prev: nat)
    requires prev <= |log|
    requires forall j :: 0 <= j < |entries| ==> entries[j].index == prev + 1 + j
    ensures MergeEntries(log, entries).1
    ensures |MergeEntries(log, entries).0| == Max(|log|, prev + |entries|)
    ensures forall j :: 0 <= j < |entries| ==> MergeEntries(log, entries).0[prev + j] == entries[j]
    ensures forall i :: 0 <= i < |log| && !(prev <= i < prev + |entries|) ==>
      MergeEntries(log, entries).0[i] == log[i]
    decreases |entries|
  {
    if |entries| > 0 {
      var e := entries[0];
      var log1 := if e.index <= |log| then log[prev := e] else log + [e];
      assert MergeEntries(log, entries) == MergeEntries(log1, entries[1..]);
      MergeConsecutive(log1, entries[1..], prev + 1);
      var r := MergeEntries(log, entries).0;
      forall j | 0 <= j < |entries| ensures r[prev + j] == entries[j] {
        if j > 0 {
          assert entries[1..][j - 1] == entries[j];
        }
      }
    }
  }

  /** With every received entry numbered from 1 up, storing them never raises. */
  lemma {:induction false} MergePositiveIndices(log: seq<LogEntry>, entries: seq<LogEntry>)
    requires forall j :: 0 <= j < |entries| ==> entries[j].index >= 1
    ensures MergeEntries(log, entries).1
    ensures |MergeEntries(log, entries).0| >= |log|
    decreases |entries|
  {
    if |entries| > 0 {
      var e := entries[0];
      var log1 := if e.index <= |log| then log[e.index - 1 := e] else log + [e];
      assert MergeEntries(log, entries) == MergeEntries(log1, entries[1..]);
      MergePositiveIndices(log1, entries[1..]);
    }
  }

  /** An accepted AppendEntries whose entries continue the log at prevLogIndex answers
      success, keeps the entries up to prevLogIndex, and places entry j at prevLogIndex + j. */
  lemma AppendEntriesAccepted(s: NodeState, req: AppendRequest, now: int, timeout: int)
    requires req.term >= s.currentTerm && 0 <= req.prevLogIndex <= |s.log|
    requires req.prevLogIndex > 0 ==> s.log[req.prevLogIndex - 1].term == req.prevLogTerm
    requires forall j :: 0 <= j < |req.entries| ==> req.entries[j].index == req.prevLogIndex + 1 + j
    ensures var (r, reply) := AppendEntriesStep(s, req, now, timeout);
      reply == Some(AppendReply(r.currentTerm, true)) &&
      |r.log| == Max(|s.log|, req.prevLogIndex + |req.entries|) &&
      r.log[..req.prevLogIndex] == s.log[..req.prevLogIndex] &&
      (forall j :: 0 <= j < |req.entries| ==> r.log[req.prevLogIndex + j] == req.entries[j])
  {
    var f := Follow(AdoptTerm(s, req.term), req.leaderId, now, timeout);
    assert AppendEntriesStep(s, req, now, timeout) == MatchStep(f, req);
    MatchAccepted(f, req);
  }

  /** The same, for a request whose term the node has already taken on. */
  lemma MatchAccepted(f: NodeState, req: AppendRequest)
    requires 0 <= req.prevLogIndex <= |f.log|
    requires req.prevLogIndex > 0 ==> f.log[req.prevLogIndex - 1].term == req.prevLogTerm
    requires forall j :: 0 <= j < |req.entries| ==> req.entries[j].index == req.prevLogIndex + 1 + j
    ensures var (r, reply) := MatchStep(f, req);
      reply == Some(AppendReply(r.currentTerm, true)) &&
      |r.log| == Max(|f.log|, req.prevLogIndex + |req.entries|) &&
      r.log[..req.prevLogIndex] == f.log[..req.prevLogIndex] &&
      (forall j :: 0 <= j < |req.entries| ==> r.log[req.prevLogIndex + j] == req.entries[j])
  {
    MergeConsecutive(f.log, req.entries, req.prevLogIndex);
    var m := MergeEntries(f.log, req.entries).0;
    if req.leaderCommit > f.commitIndex {
      ApplyWithinLog(f.(log := m, commitIndex := Min(req.leaderCommit, |m|)));
    }
  }

  /** Applying up to a commit index inside the log never raises, and leaves lastApplied at the
      commit index (or where it was, if that was already further). */
  lemma ApplyWithinLog(s: NodeState)
    requires s.commitIndex <= |s.log|
    ensures ApplyStep(s).1
    ensures ApplyStep(s).0.lastApplied == Max(s.lastApplied, s.commitIndex)
    ensures ApplyStep(s).0.log == s.log && ApplyStep(s).0.commitIndex == s.commitIndex
  {
  }

  /** The commit rule of a successful AppendEntries: the commit index moves only when the
      leader's is larger, to the smaller of it and the log length; from a commit index within
      the log it therefore never decreases, never passes the log's end, and everything up to
      it has been applied. */
  lemma AppendEntriesCommit(s: NodeState, req: AppendRequest, now: int, timeout: int)
    requires var reply := AppendEntriesStep(s, req, now, timeout).1; reply.Some? && reply.value.success
    ensures var r := AppendEntriesStep(s, req, now, timeout).0;
      r.commitIndex == (if req.leaderCommit > s.commitIndex then Min(req.leaderCommit, |r.log|) else s.commitIndex) &&
      (s.commitIndex <= |s.log| ==> s.commitIndex <= r.commitIndex <= |r.log|) &&
      (req.leaderCommit > s.commitIndex ==> r.lastApplied == Max(s.lastApplied, r.commitIndex))
  {
    var t := AdoptTerm(s, req.term);
    var (merged, ok) := MergeEntries(t.log, req.entries);
    MergeLength(t.log, req.entries);
    if req.leaderCommit > s.commitIndex {
      ApplyWithinLog(t.(log := merged, commitIndex := Min(req.leaderCommit, |merged|)));
    }
  }

  /** The consistency check cuts the log to the entries before `prev_log_index` and leaves
      the commit index alone, so a cut below the commit index leaves the commit index past
      the log's end. */
  lemma CutLeavesCommitPastEnd(s: NodeState, req: AppendRequest, now: int, timeout: int)
    requires req.term >= s.currentTerm && 0 < req.prevLogIndex <= |s.log|
    requires s.log[req.prevLogIndex - 1].term != req.prevLogTerm
    requires req.prevLogIndex <= s.commitIndex
    ensures var (r, reply) := AppendEntriesStep(s, req, now, timeout);
      reply == Some(AppendReply(r.currentTerm, false)) &&
      r.commitIndex == s.commitIndex && |r.log| < r.commitIndex
  {
  }

  /** As written the commit index can fall. A follower holds two entries of term 1, both
      committed and applied. A request whose previous entry 2 claims term 5 cuts the log to
      one entry with the commit index still 2; a heartbeat with leader commit 3 is then
      accepted and sets the commit index to min(3, 1) = 1. */
  lemma CommitFallsAfterCut(now: int, timeout: int)
    ensures
      var e1 := LogEntry(1, 1, "a");
      var e2 := LogEntry(1, 2, "b");
      var s := Initial(now, timeout).(currentTerm := 1, log := [e1, e2], commitIndex := 2,
                                      lastApplied := 2, applied := [e1, e2]);
      var (s1, reply1) := AppendEntriesStep(s, AppendRequest(1, 7, 2, 5, [], 2), now, timeout);
      var (s2, reply2) := AppendEntriesStep(s1, AppendRequest(1, 7, 0, 0, [], 3), now, timeout);
      reply1 == Some(AppendReply(1, false)) && s1.log == [e1] && s1.commitIndex == 2 &&
      reply2 == Some(AppendReply(1, true)) && s2.commitIndex == 1 && s2.commitIndex < s.commitIndex
  {
    var e1 := LogEntry(1, 1, "a");
    var e2 := LogEntry(1, 2, "b");
    var s := Initial(now, timeout).(currentTerm := 1, log := [e1, e2], commitIndex := 2,
                                    lastApplied := 2, applied := [e1, e2]);
    var req1 := AppendRequest(1, 7, 2, 5, [], 2);
    CutLeavesCommitPastEnd(s, req1, now, timeout);
    assert [e1, e2][..1] == [e1];
  }

  /** The request never conflicts with a committed entry: where the consistency check would
      cut, `prev_log_index` lies above the commit index. In a Raft cluster this holds for
      every request of the current leader, whose log contains every committed entry (Leader
      Completeness, section 5.4 of the Raft paper). */
  predicate SparesCommitted(s: NodeState, req: AppendRequest) {
    0 < req.prevLogIndex <= |s.log| && s.log[req.prevLogIndex - 1].term != req.prevLogTerm ==>
      req.prevLogIndex > s.commitIndex
  }

  /** The commit cursor as intended: from a commit index inside the log, every AppendEntries
      that spares the committed entries, refused, raising or accepted, keeps the commit index
      inside the log and never lowers it. */
  lemma CommitKeptWhenCommittedSpared(s: NodeState, req: AppendRequest, now: int, timeout: int)
    requires s.commitIndex <= |s.log|
    requires SparesCommitted(s, req)
    ensures var r := AppendEntriesStep(s, req, now, timeout).0;
      s.commitIndex <= r.commitIndex <= |r.log|
  {
    var f := Follow(AdoptTerm(s, req.term), req.leaderId, now, timeout);
    if req.term >= f.currentTerm && !(req.prevLogIndex > 0 && req.prevLogIndex > |f.log|)
       && !(req.prevLogIndex > 0 && f.log[req.prevLogIndex - 1].term != req.prevLogTerm) {
      var (merged, ok) := MergeEntries(f.log, req.entries);
      MergeLength(f.log, req.entries);
      if ok && req.leaderCommit > f.commitIndex {
        ApplyWithinLog(f.(log := merged, commitIndex := Min(req.leaderCommit, |merged|)));
      }
    }
  }

  /** Storing entries never shortens the log. */
  lemma {:induction false} MergeLength(log: seq<LogEntry>, entries: seq<LogEntry>)
    ensures |MergeEntries(log, entries).0| >= |log|
    decreases |entries|
  {
    if |entries| > 0 {
      var e := entries[0];
      if e.index <= |log| {
        match PyIndex(e.index - 1, |log|) {
          case None =>
          case Some(p) => MergeLength(log[p := e], entries[1..]);
        }
      } else {
        MergeLength(log + [e], entries[1..]);
      }
    }
  }

  /** AppendEntries only fails to answer when an entry's index is 0 or less. */
  lemma AppendEntriesAnswers(s: NodeState, req: AppendRequest, now: int, timeout: int)
    requires forall j :: 0 <= j < |req.entries| ==> req.entries[j].index >= 1
    ensures AppendEntriesStep(s, req, now, timeout).1.Some?
  {
    var t := AdoptTerm(s, req.term);
    MergePositiveIndices(t.log, req.entries);
    var merged := MergeEntries(t.log, req.entries).0;
    if req.leaderCommit > s.commitIndex {
      ApplyWithinLog(t.(log := merged, commitIndex := Min(req.leaderCommit, |merged|)));
    }
  }

  // ---------------------------------------------------------------------------------------
  // Client requests

  datatype ClientReply = NotLeader(leaderId: Option<int>) | Accepted(index: int)

  function ClientRequestStep(s: NodeState, command: Command): (NodeState, ClientReply) {
    if s.role != Leader then (s, NotLeader(s.leaderId))
    else (s.(log := Appended(s.log, s.currentTerm, command)), Accepted(|s.log| + 1))
  }

  /** A non-leader answers with the leader it knows and leaves the log alone; a leader
      appends an entry of its current term at the next index and reports that index. */
  lemma ClientRequestRule(s: NodeState, command: Command)
    ensures var (r, reply) := ClientRequestStep(s, command);
      (s.role != Leader ==> r == s && reply == NotLeader(s.leaderId)) &&
      (s.role == Leader ==>
        r.log == s.log + [LogEntry(s.currentTerm, |s.log| + 1, command)] &&
        reply == Accepted(|s.log| + 1) && r.currentTerm == s.currentTerm &&
        (GapFree(s.log) ==> GapFree(r.log)))
  {
  }

  // ---------------------------------------------------------------------------------------
  // Elections

  /** Counts granted votes among the replies, stopping at the first reply that carries a
      higher term than `term` (reported as the second component). */
  function Tally(replies: seq<Option<VoteReply>>, term: int): (nat, Option<int>)
    decreases |replies|
  {
    if |replies| == 0 then (0, None)
    else
      var r := replies[0];
      var v := if r.Some? && r.value.voteGranted then 1 else 0;
      if r.Some? && r.value.term > term then (v, Some(r.value.term))
      else
        var (rest, higher) := Tally(replies[1..], term);
        (v + rest, higher)
  }

  /** `d[k] = v` for every k of ks, in order. */
  function SetAll(m: map<int, int>, ks: seq<int>, v: int): map<int, int>
    decreases |ks|
  {
    if |ks| == 0 then m else SetAll(m, ks[..|ks| - 1], v)[ks[|ks| - 1] := v]
  }

  lemma {:induction false} SetAllValues(m: map<int, int>, ks: seq<int>, v: int)
    ensures forall k :: k in SetAll(m, ks, v) <==> k in m || k in ks
    ensures forall k :: k in ks ==> SetAll(m, ks, v)[k] == v
    ensures forall k :: k in m && k !in ks ==> SetAll(m, ks, v)[k] == m[k]
    decreases |ks|
  {
    if |ks| > 0 {
      SetAllValues(m, ks[..|ks| - 1], v);
      assert forall k :: k in ks <==> k in ks[..|ks| - 1] || k == ks[|ks| - 1];
    }
  }

  function LeaderStep(s: NodeState, id: int, peers: seq<int>): NodeState {
    s.(role := Leader, leaderId := Some(id),
       nextIndex := SetAll(s.nextIndex, peers, |s.log| + 1),
       matchIndex := SetAll(s.matchIndex, peers, 0))
  }

  /** `_start_election` with the peers' replies (None for a peer that did not answer), in
      the order the peers are asked. */
  function ElectionStep(s: NodeState, id: int, peers: seq<int>, replies: seq<Option<VoteReply>>,
                        now: int, timeout: int): NodeState
    requires |replies| == |peers|
  {
    var c := Candidacy(s, id, now, timeout);
    var (granted, higher) := Tally(replies, c.currentTerm);
    if higher.Some? then c.(currentTerm := higher.value, role := Follower, votedFor := None)
    else if 1 + granted > |peers| / 2 then LeaderStep(c, id, peers)
    else c
  }

  /** The start of `start_election`: a candidate in the next term, voting for itself, with
      its election timer reset. */
  function Candidacy(s: NodeState, id: int, now: int, timeout: int): NodeState
  {
    ResetTimer(s.(role := Candidate, currentTerm := s.currentTerm + 1, votedFor := Some(id)), now, timeout)
  }

  lemma {:induction false} TallyBound(replies: seq<Option<VoteReply>>, term: int)
    ensures Tally(replies, term).0 <= |replies|
    ensures Tally(replies, term).1.Some? ==> Tally(replies, term).1.value > term
    decreases |replies|
  {
    if |replies| > 0 {
      TallyBound(replies[1..], term);
    }
  }

  /** An election moves to a later term. The node leads afterwards exactly when no reply
      showed a higher term and its own vote plus the granted ones pass half the peers; a
      leader has voted for itself in the new term and points every peer's next index just
      past its log, with nothing matched yet. */
  lemma ElectionOutcome(s: NodeState, id: int, peers: seq<int>, replies: seq<Option<VoteReply>>,
                        now: int, timeout: int)
    requires |replies| == |peers|
    ensures var r := ElectionStep(s, id, peers, replies, now, timeout);
      var (granted, higher) := Tally(replies, s.currentTerm + 1);
      r.currentTerm > s.currentTerm && r.log == s.log &&
      (r.role == Leader <==> higher.None? && 1 + granted > |peers| / 2) &&
      (r.role == Leader ==>
        r.currentTerm == s.currentTerm + 1 && r.votedFor == Some(id) && r.leaderId == Some(id) &&
        (forall p :: p in peers ==> p in r.nextIndex && p in r.matchIndex && r.nextIndex[p] == |s.log| + 1 && r.matchIndex[p] == 0))
  {
    TallyBound(replies, s.currentTerm + 1);
    var c := ResetTimer(s.(role := Candidate, currentTerm := s.currentTerm + 1, votedFor := Some(id)), now, timeout);
    SetAllValues(c.nextIndex, peers, |s.log| + 1);
    SetAllValues(c.matchIndex, peers, 0);
  }

  /** The winning threshold `votes > peers // 2` is a strict majority of the cluster exactly
      when the cluster size (peers + 1) is odd. */
  lemma ThresholdIsMajorityForOddClusters(peers: nat, votes: int)
    requires peers % 2 == 0
    ensures votes > peers / 2 <==> 2 * votes > peers + 1
  {
  }

  /** In a two-node cluster the candidate's own vote already passes the threshold: with no
      answer from its single peer it still becomes leader. */
  lemma TwoNodeClusterSelfElects(s: NodeState, id: int, peer: int, now: int, timeout: int)
    ensures ElectionStep(s, id, [peer], [None], now, timeout).role == Leader
  {
    assert Tally([None], s.currentTerm + 1) == (0, None);
  }

  // ---------------------------------------------------------------------------------------
  // Replication from the leader

  /** The entries `for i in range(lo, hi): log[i]` collects, or None where an index is out of
      Python's range. */
  function Collect(log: seq<LogEntry>, lo: int, hi: int): Option<seq<LogEntry>>
    decreases hi - lo
  {
    if hi <= lo then Some([])
    else match Collect(log, lo, hi - 1) {
      case None => None
      case Some(xs) =>
        match PyIndex(hi - 1, |log|) {
          case None => None
          case Some(p) => Some(xs + [log[p]])
        }
    }
  }

  lemma {:induction false} CollectTail(log: seq<LogEntry>, lo: int, hi: int)
    requires 0 <= lo <= hi <= |log|
    ensures Collect(log, lo, hi) == Some(log[lo..hi])
    decreases hi - lo
  {
    if hi > lo {
      CollectTail(log, lo, hi - 1);
      assert PyIndex(hi - 1, |log|) == Some(hi - 1);
      assert log[lo..hi] == log[lo..hi - 1] + [log[hi - 1]];
    } else {
      assert log[lo..hi] == [];
    }
  }

  lemma {:induction false} CollectStaysNone(log: seq<LogEntry>, lo: int, k: int, hi: int)
    requires lo <= k <= hi && Collect(log, lo, k).None?
    ensures Collect(log, lo, hi).None?
    decreases hi - k
  {
    if k < hi {
      CollectStaysNone(log, lo, k, hi - 1);
      assert Collect(log, lo, hi - 1).None?;
    }
  }

  function PrevLogTerm(log: seq<LogEntry>, prev: int): int {
    if prev > 0 && prev <= |log| then log[prev - 1].term else 0
  }

  /** Number of peers whose match index (0 when unknown) has reached n. */
  function CountAtLeast(peers: seq<int>, matchIndex: map<int, int>, n: int): nat
    decreases |peers|
  {
    if |peers| == 0 then 0
    else CountAtLeast(peers[..|peers| - 1], matchIndex, n)
         + (if GetOr(matchIndex, peers[|peers| - 1], 0) >= n then 1 else 0)
  }

  /** Index n (1-based, within the log) may be committed: it holds an entry of the current term
      and the leader plus the peers that have it pass half the peers. */
  predicate Eligible(log: seq<LogEntry>, term: int, matchIndex: map<int, int>, peers: seq<int>, n: int)
    requires 1 <= n <= |log|
  {
    log[n - 1].term == term && 1 + CountAtLeast(peers, matchIndex, n) > |peers| / 2
  }

  /** The largest eligible index in (c0, k], or c0 when there is none. */
  function LastEligible(log: seq<LogEntry>, term: int, matchIndex: map<int, int>, peers: seq<int>,
                        c0: nat, k: int): nat
    requires k <= |log|
    decreases k
  {
    if k <= c0 then c0
    else if Eligible(log, term, matchIndex, peers, k) then k
    else LastEligible(log, term, matchIndex, peers, c0, k - 1)
  }

  /** `_update_commit_index` (which ends by applying). */
  function CommitStep(s: NodeState, peers: seq<int>): (NodeState, bool) {
    ApplyStep(s.(commitIndex := LastEligible(s.log, s.currentTerm, s.matchIndex, peers, s.commitIndex, |s.log|)))
  }

  /** Only the current term's entries are committed by counting replicas, and only when
      counted on the leader plus more than half the peers; the chosen index is the largest
      such one, and the commit index never moves back. */
  lemma {:induction false} LastEligibleIsLargest(log: seq<LogEntry>, term: int, matchIndex: map<int, int>,
                                                 peers: seq<int>, c0: nat, k: int)
    requires k <= |log|
    ensures var c := LastEligible(log, term, matchIndex, peers, c0, k);
      c >= c0 && (c > c0 ==> c <= k && Eligible(log, term, matchIndex, peers, c)) &&
      (forall n :: Max(c, c0) < n <= k ==> !Eligible(log, term, matchIndex, peers, n))
    decreases k
  {
    if k > c0 && !Eligible(log, term, matchIndex, peers, k) {
      LastEligibleIsLargest(log, term, matchIndex, peers, c0, k - 1);
    }
  }

  lemma CommitStepRule(s: NodeState, peers: seq<int>)
    ensures var (r, ok) := CommitStep(s, peers);
      r.commitIndex >= s.commitIndex && r.log == s.log && r.currentTerm == s.currentTerm &&
      (r.commitIndex > s.commitIndex ==>
        r.commitIndex <= |s.log| && s.log[r.commitIndex - 1].term == s.currentTerm &&
        1 + CountAtLeast(peers, s.matchIndex, r.commitIndex) > |peers| / 2) &&
      (forall n :: r.commitIndex < n <= |s.log| ==> !Eligible(s.log, s.currentTerm, s.matchIndex, peers, n))
  {
    LastEligibleIsLargest(s.log, s.currentTerm, s.matchIndex, peers, s.commitIndex, |s.log|);
  }

  /** `_replicate_to_peer` with the peer's reply (None when the RPC failed). Returns the new
      state, the request that was sent (None when collecting the entries raised), and whether
      the step completed without raising. */
  function ReplicateStep(s: NodeState, id: int, peers: seq<int>, peer: int, reply: Option<AppendReply>)
    : (NodeState, Option<AppendRequest>, bool)
  {
    match RequestTo(s, id, peer) {
      case None => (s, None, false)
      case Some(req) =>
        var (r, ok) := ReplyStep(s, peers, peer, req.prevLogIndex + 1, req.entries, reply);
        (r, Some(req), ok)
    }
  }

  /** The request `_replicate_to_peer` builds from the peer's next index: the entries
      from there on, after the previous index and its term; None where collecting them
      raises. */
  function RequestTo(s: NodeState, id: int, peer: int): Option<AppendRequest>
  {
    var next := GetOr(s.nextIndex, peer, 1);
    match Collect(s.log, next - 1, |s.log|) {
      case None => None
      case Some(sent) => Some(AppendRequest(s.currentTerm, id, next - 1, PrevLogTerm(s.log, next - 1), sent, s.commitIndex))
    }
  }

  /** The second half of `_replicate_to_peer`: what the leader does with the reply to a
      request that carried `sent` from next index `next`. */
  function ReplyStep(s: NodeState, peers: seq<int>, peer: int, next: int, sent: seq<LogEntry>, reply: Option<AppendReply>)
    : (NodeState, bool)
  {
    if reply.None? then (s, true)
    else if reply.value.term > s.currentTerm then
      (s.(currentTerm := reply.value.term, role := Follower, votedFor := None), true)
    else if reply.value.success then
      if |sent| > 0 then
        var last := sent[|sent| - 1].index;
        CommitStep(s.(nextIndex := s.nextIndex[peer := last + 1], matchIndex := s.matchIndex[peer := last]), peers)
      else (s, true)
    else (s.(nextIndex := s.nextIndex[peer := Max(1, next - 1)]), true)
  }

  /** From a gap-free leader log and a next index within 1..len+1: the request carries the
      entries from the next index on; a success moves the peer's next index past the log and
      its match index to the log's end, and a refusal steps the next index back by one but
      never below 1. */
  lemma ReplicateRule(s: NodeState, id: int, peers: seq<int>, peer: int, reply: AppendReply)
    requires GapFree(s.log)
    requires 1 <= GetOr(s.nextIndex, peer, 1) <= |s.log| + 1
    requires reply.term <= s.currentTerm
    ensures var next := GetOr(s.nextIndex, peer, 1);
      var step := ReplicateStep(s, id, peers, peer, Some(reply)); var r := step.0; var req := step.1;
      req.Some? && req.value.entries == s.log[next - 1..] && req.value.prevLogIndex == next - 1 &&
      (reply.success && next <= |s.log| ==>
        r.nextIndex[peer] == |s.log| + 1 && r.matchIndex[peer] == |s.log|) &&
      (!reply.success ==> r.nextIndex == s.nextIndex[peer := Max(1, next - 1)] && r.nextIndex[peer] >= 1)
  {
    var next := GetOr(s.nextIndex, peer, 1);
    var sent := ReplicateSends(s, id, peer);
    if reply.success && next <= |s.log| {
      ReplicateAccepted(s, id, peers, peer, reply, sent);
    } else if !reply.success {
      ReplicateRefused(s, id, peers, peer, reply, sent);
    }
  }

  /** A refusal steps the peer's next index back by one, never below 1. */
  lemma ReplicateRefused(s: NodeState, id: int, peers: seq<int>, peer: int, reply: AppendReply, sent: seq<LogEntry>)
    requires reply.term <= s.currentTerm && !reply.success
    requires var next := GetOr(s.nextIndex, peer, 1); Collect(s.log, next - 1, |s.log|) == Some(sent)
    ensures var next := GetOr(s.nextIndex, peer, 1); var r := ReplicateStep(s, id, peers, peer, Some(reply)).0;
      r.nextIndex == s.nextIndex[peer := Max(1, next - 1)] && r.nextIndex[peer] >= 1
  {
  }

  /** The request `_replicate_to_peer` sends from a next index within 1..len+1. */
  lemma ReplicateSends(s: NodeState, id: int, peer: int) returns (sent: seq<LogEntry>)
    requires 1 <= GetOr(s.nextIndex, peer, 1) <= |s.log| + 1
    ensures var next := GetOr(s.nextIndex, peer, 1);
      sent == s.log[next - 1..] && Collect(s.log, next - 1, |s.log|) == Some(sent) &&
      var req := RequestTo(s, id, peer);
      req.Some? && req.value.entries == sent && req.value.prevLogIndex == next - 1
  {
    var next := GetOr(s.nextIndex, peer, 1);
    sent := s.log[next - 1..];
    CollectSuffix(s.log, next - 1);
    RequestCarries(s, id, peer, sent);
  }

  lemma CollectSuffix(log: seq<LogEntry>, lo: int)
    requires 0 <= lo <= |log|
    ensures Collect(log, lo, |log|) == Some(log[lo..])
  {
    CollectTail(log, lo, |log|);
    assert log[lo..|log|] == log[lo..];
  }

  lemma RequestCarries(s: NodeState, id: int, peer: int, sent: seq<LogEntry>)
    requires Collect(s.log, GetOr(s.nextIndex, peer, 1) - 1, |s.log|) == Some(sent)
    ensures var req := RequestTo(s, id, peer);
      req.Some? && req.value.entries == sent && req.value.prevLogIndex == GetOr(s.nextIndex, peer, 1) - 1
  {
  }

  /** A success on a non-empty suffix of a gap-free log moves the peer to the log's end. */
  lemma ReplicateAccepted(s: NodeState, id: int, peers: seq<int>, peer: int, reply: AppendReply, sent: seq<LogEntry>)
    requires GapFree(s.log) && reply.term <= s.currentTerm && reply.success
    requires var next := GetOr(s.nextIndex, peer, 1);
      1 <= next <= |s.log| && sent == s.log[next - 1..] && Collect(s.log, next - 1, |s.log|) == Some(sent)
    ensures var r := ReplicateStep(s, id, peers, peer, Some(reply)).0;
      r.nextIndex[peer] == |s.log| + 1 && r.matchIndex[peer] == |s.log|
  {
    assert sent[|sent| - 1] == s.log[|s.log| - 1];
    var s1 := s.(nextIndex := s.nextIndex[peer := |s.log| + 1], matchIndex := s.matchIndex[peer := |s.log|]);
    assert ReplicateStep(s, id, peers, peer, Some(reply)).0 == CommitStep(s1, peers).0;
  }

  /** A next index below -len makes the collection raise: nothing is sent and nothing changes. */
  lemma ReplicateRaises(s: NodeState, id: int, peers: seq<int>, peer: int, reply: Option<AppendReply>)
    requires GetOr(s.nextIndex, peer, 1) - 1 < -|s.log|
    ensures ReplicateStep(s, id, peers, peer, reply) == (s, None, false)
  {
    var from := GetOr(s.nextIndex, peer, 1) - 1;
    assert Collect(s.log, from, from + 1).None?;
    CollectStaysNone(s.log, from, from + 1, |s.log|);
  }

  /** Cursor facts of `_apply_committed`: it never raises while the commit index is inside the
      log, ends with lastApplied at the commit index, and hands over exactly the entries in
      between, in log order, each once. */
  lemma ApplyStepRule(s: NodeState)
    ensures var (r, ok) := ApplyStep(s);
      !ok <==> s.lastApplied < s.commitIndex && s.commitIndex > |s.log|
    ensures var (r, ok) := ApplyStep(s);
      s.lastApplied <= s.commitIndex <= |s.log| ==>
        ok && r.lastApplied == s.commitIndex && r.applied == s.applied + s.log[s.lastApplied..s.commitIndex]
  {
  }

  /** A vote, once given, is kept for the rest of its term: every handler that leaves the
      node in the same term leaves its vote where it was (these lemmas), and starting an
      election always moves to a later term (`ElectionOutcome`). */
  lemma VoteKeptByRequestVote(s: NodeState, c: int, req: VoteRequest, now: int, timeout: int)
    requires s.votedFor == Some(c)
    ensures var r := RequestVoteStep(s, req, now, timeout).0;
      r.currentTerm == s.currentTerm ==> r.votedFor == Some(c)
  {
  }

  lemma VoteKeptByAppendEntries(s: NodeState, c: int, req: AppendRequest, now: int, timeout: int)
    requires s.votedFor == Some(c)
    ensures var r := AppendEntriesStep(s, req, now, timeout).0;
      r.currentTerm == s.currentTerm ==> r.votedFor == Some(c)
  {
    if req.term == s.currentTerm {
      var f := Follow(s, req.leaderId, now, timeout);
      assert f.votedFor == Some(c);
      VoteKeptByMatch(f, req);
    }
  }

  lemma VoteKeptByMatch(f: NodeState, req: AppendRequest)
    ensures MatchStep(f, req).0.votedFor == f.votedFor && MatchStep(f, req).0.currentTerm == f.currentTerm
  {
    if !(req.prevLogIndex > 0 && req.prevLogIndex > |f.log|) && !(req.prevLogIndex > 0 && f.log[req.prevLogIndex - 1].term != req.prevLogTerm) {
      var g := f.(log := MergeEntries(f.log, req.entries).0);
      if req.leaderCommit > g.commitIndex {
        var h := ApplyStep(g.(commitIndex := Min(req.leaderCommit, |g.log|))).0;
        assert h.votedFor == f.votedFor;
      }
    }
  }

  lemma VoteKeptByClientRequest(s: NodeState, c: int, command: Command)
    requires s.votedFor == Some(c)
    ensures ClientRequestStep(s, command).0.votedFor == Some(c)
  {
  }

  lemma VoteKeptByReplicate(s: NodeState, c: int, id: int, peers: seq<int>, peer: int, reply: Option<AppendReply>)
    requires s.votedFor == Some(c)
    ensures var r := ReplicateStep(s, id, peers, peer, reply).0;
      r.currentTerm == s.currentTerm ==> r.votedFor == Some(c)
  {
  }

  // ---------------------------------------------------------------------------------------
  // The node

  class RaftNode {
    const nodeId: int
    const peers: seq<int>
    var role: Role
    var currentTerm: int
    var votedFor: Option<int>
    var log: seq<LogEntry>
    var commitIndex: nat
    var lastApplied: nat
    var leaderId: Option<int>
    var nextIndex: map<int, int>
    var matchIndex: map<int, int>
    var lastHeartbeat: int
    var electionTimeout: int
    var applied: seq<LogEntry>

    function View(): NodeState
      reads this
    {
      NodeState(role, currentTerm, votedFor, log, commitIndex, lastApplied, leaderId,
                nextIndex, matchIndex, lastHeartbeat, electionTimeout, applied)
    }

    constructor (nodeId: int, peers: seq<int>, now: int, timeout: int)
      ensures this.nodeId == nodeId && this.peers == peers
      ensures View() == Initial(now, timeout)
    {
      this.nodeId, this.peers := nodeId, peers;
      role, currentTerm, votedFor, log := Follower, 0, None, [];
      commitIndex, lastApplied, leaderId := 0, 0, None;
      nextIndex, matchIndex := map[], map[];
      lastHeartbeat, electionTimeout := now, timeout;
      applied := [];
    }

    method HandleRequestVote(req: VoteRequest, now: int, timeout: int) returns (reply: VoteReply)
      modifies this
      ensures (View(), reply) == RequestVoteStep(old(View()), req, now, timeout)
    {
      ObserveTerm(req.term);
      if req.term < currentTerm {
        return VoteReply(currentTerm, false);
      }
      var logOk := true;
      if |log| > 0 {
        var myLastTerm := log[|log| - 1].term;
        var myLastIndex := log[|log| - 1].index;
        if req.lastLogTerm < myLastTerm {
          logOk := false;
        } else if req.lastLogTerm == myLastTerm && req.lastLogIndex < myLastIndex {
          logOk := false;
        }
      }
      if logOk && (votedFor.None? || votedFor == Some(req.candidateId)) {
        votedFor := Some(req.candidateId);
        lastHeartbeat, electionTimeout := now, timeout;
        return VoteReply(currentTerm, true);
      }
      return VoteReply(currentTerm, false);
    }

    method ApplyCommitted() returns (ok: bool)
      modifies this
      ensures (View(), ok) == ApplyStep(old(View()))
    {
      ghost var s0 := View();
      while lastApplied < commitIndex
        invariant s0.lastApplied <= lastApplied
        invariant lastApplied > s0.lastApplied ==> lastApplied <= |log| && lastApplied <= commitIndex
        invariant applied == s0.applied + (if lastApplied > s0.lastApplied then log[s0.lastApplied..lastApplied] else [])
        invariant View() == s0.(lastApplied := lastApplied, applied := applied)
        decreases commitIndex - lastApplied
      {
        lastApplied := lastApplied + 1;
        if lastApplied - 1 >= |log| {
          AppliedToEnd(log, s0.lastApplied, lastApplied - 1);
          return false;
        }
        AppliedGrows(log, s0.lastApplied, lastApplied - 1);
        applied := applied + [log[lastApplied - 1]];
      }
      return true;
    }

    /** The loop of `handle_append_entries` that writes the request's entries into the log;
        false where an index raises, with the log as far as the loop had got. */
    method MergeLog(entries: seq<LogEntry>) returns (ok: bool)
      modifies this
      ensures (log, ok) == MergeEntries(old(log), entries)
      ensures View() == old(View()).(log := log)
    {
      ghost var f := View();
      var i := 0;
      while i < |entries|
        invariant 0 <= i <= |entries|
        invariant MergeEntries(log, entries[i..]) == MergeEntries(f.log, entries)
        invariant View() == f.(log := log)
      {
        var e := entries[i];
        assert entries[i..][0] == e && entries[i..][1..] == entries[i + 1..];
        if e.index <= |log| {
          var p := PyIndex(e.index - 1, |log|);
          if p.None? {
            return false;
          }
          log := log[p.value := e];
        } else {
          log := log + [e];
        }
        i := i + 1;
      }
      return true;
    }

    method HandleAppendEntries(req: AppendRequest, now: int, timeout: int) returns (reply: Option<AppendReply>)
      modifies this
      ensures (View(), reply) == AppendEntriesStep(old(View()), req, now, timeout)
    {
      ObserveTerm(req.term);
      if req.term < currentTerm {
        return Some(AppendReply(currentTerm, false));
      }
      FollowLeader(req.leaderId, now, timeout);
      reply := CheckAndAppend(req);
    }

    /** A higher term seen in a request or a reply: adopt it, forget the vote, follow. */
    method ObserveTerm(term: int)
      modifies this
      ensures View() == AdoptTerm(old(View()), term)
    {
      if term > currentTerm {
        currentTerm, votedFor, role := term, None, Follower;
      }
    }

    method FollowLeader(leader: int, now: int, timeout: int)
      modifies this
      ensures View() == Follow(old(View()), leader, now, timeout)
    {
      lastHeartbeat, electionTimeout := now, timeout;
      leaderId := Some(leader);
      role := Follower;
    }

    method CheckAndAppend(req: AppendRequest) returns (reply: Option<AppendReply>)
      modifies this
      ensures (View(), reply) == MatchStep(old(View()), req)
    {
      if req.prevLogIndex > 0 {
        if req.prevLogIndex > |log| {
          return Some(AppendReply(currentTerm, false));
        }
        if log[req.prevLogIndex - 1].term != req.prevLogTerm {
          log := log[..req.prevLogIndex - 1];
          return Some(AppendReply(currentTerm, false));
        }
      }
      var merged := MergeLog(req.entries);
      if !merged {
        return None;
      }
      reply := Accept(req.leaderCommit);
    }

    /** Follows the leader's commit index and answers success, or None where applying raises. */
    method Accept(leaderCommit: int) returns (reply: Option<AppendReply>)
      modifies this
      ensures (View(), reply) == AcceptStep(old(View()), leaderCommit)
    {
      if leaderCommit > commitIndex {
        commitIndex := Min(leaderCommit, |log|);
        var ok := ApplyCommitted();
        if !ok {
          return None;
        }
      }
      return Some(AppendReply(currentTerm, true));
    }

    method HandleClientRequest(command: Command) returns (reply: ClientReply)
      modifies this
      ensures (View(), reply) == ClientRequestStep(old(View()), command)
    {
      if role != Leader {
        return NotLeader(leaderId);
      }
      var entry := LogEntry(currentTerm, |log| + 1, command);
      log := log + [entry];
      return Accepted(entry.index);
    }

    method BecomeLeader()
      modifies this
      ensures View() == LeaderStep(old(View()), nodeId, peers)
    {
      ghost var s0 := View();
      role, leaderId := Leader, Some(nodeId);
      var i := 0;
      while i < |peers|
        invariant 0 <= i <= |peers|
        invariant View() == s0.(role := Leader, leaderId := Some(nodeId),
          nextIndex := SetAll(s0.nextIndex, peers[..i], |s0.log| + 1),
          matchIndex := SetAll(s0.matchIndex, peers[..i], 0))
      {
        assert peers[..i + 1][..i] == peers[..i];
        nextIndex := nextIndex[peers[i] := |log| + 1];
        matchIndex := matchIndex[peers[i] := 0];
        i := i + 1;
      }
      assert peers[..i] == peers;
    }

    /** The vote-counting loop of `_start_election`: the votes granted, and the first higher
        term a reply carries, at which the loop stops. */
    static method CountVotes(replies: seq<Option<VoteReply>>, term: int) returns (granted: nat, higher: Option<int>)
      ensures (granted, higher) == Tally(replies, term)
    {
      granted := 0;
      var i := 0;
      while i < |replies|
        invariant 0 <= i <= |replies|
        invariant Tally(replies, term) == (granted + Tally(replies[i..], term).0, Tally(replies[i..], term).1)
      {
        var response := replies[i];
        assert replies[i..][0] == response && replies[i..][1..] == replies[i + 1..];
        if response.Some? && response.value.voteGranted {
          granted := granted + 1;
        }
        if response.Some? && response.value.term > term {
          return granted, Some(response.value.term);
        }
        i := i + 1;
      }
      return granted, None;
    }

    method StartElection(replies: seq<Option<VoteReply>>, now: int, timeout: int)
      requires |replies| == |peers|
      modifies this
      ensures View() == ElectionStep(old(View()), nodeId, peers, replies, now, timeout)
    {
      BeginElection(now, timeout);
      var granted, higher := CountVotes(replies, currentTerm);
      if higher.Some? {
        currentTerm, role, votedFor := higher.value, Follower, None;
        return;
      }
      if 1 + granted > |peers| / 2 && role == Candidate {
        BecomeLeader();
      }
    }

    method BeginElection(now: int, timeout: int)
      modifies this
      ensures View() == Candidacy(old(View()), nodeId, now, timeout)
    {
      role := Candidate;
      currentTerm := currentTerm + 1;
      votedFor := Some(nodeId);
      lastHeartbeat, electionTimeout := now, timeout;
    }

    method UpdateCommitIndex() returns (ok: bool)
      modifies this
      ensures (View(), ok) == CommitStep(old(View()), peers)
    {
      ghost var s0 := View();
      var n := commitIndex + 1;
      while n <= |log|
        invariant s0.commitIndex + 1 <= n <= Max(|log| + 1, s0.commitIndex + 1)
        invariant commitIndex == LastEligible(log, currentTerm, matchIndex, peers, s0.commitIndex, Min(n - 1, |log|))
        invariant View() == s0.(commitIndex := commitIndex)
      {
        if log[n - 1].term == currentTerm {
          var replicated := 1;
          var j := 0;
          while j < |peers|
            invariant 0 <= j <= |peers|
            invariant replicated == 1 + CountAtLeast(peers[..j], matchIndex, n)
          {
            assert peers[..j + 1][..j] == peers[..j];
            if GetOr(matchIndex, peers[j], 0) >= n {
              replicated := replicated + 1;
            }
            j := j + 1;
          }
          assert peers[..j] == peers;
          if replicated > |peers| / 2 {
            commitIndex := n;
          }
        }
        n := n + 1;
      }
      ok := ApplyCommitted();
    }

    /** The loop of `_replicate_to_peer` that gathers `log[i]` for i from `prev` to the end,
        with Python's indexing: None where an index raises. */
    method CollectEntries(prev: int) returns (r: Option<seq<LogEntry>>)
      ensures r == Collect(log, prev, |log|)
    {
      var sent: seq<LogEntry> := [];
      var i := prev;
      while i < |log|
        invariant prev <= i || |log| <= prev
        invariant prev <= i ==> Collect(log, prev, i) == Some(sent)
      {
        var p := PyIndex(i, |log|);
        if p.None? {
          CollectStaysNone(log, prev, i + 1, |log|);
          return None;
        }
        sent := sent + [log[p.value]];
        i := i + 1;
      }
      return Some(sent);
    }

    method ReplicateToPeer(peer: int, reply: Option<AppendReply>) returns (request: Option<AppendRequest>, ok: bool)
      modifies this
      ensures (View(), request, ok) == ReplicateStep(old(View()), nodeId, peers, peer, reply)
    {
      ghost var s0 := View();
      var next := GetOr(nextIndex, peer, 1);
      var prev := next - 1;
      var prevTerm := 0;
      if prev > 0 && prev <= |log| {
        prevTerm := log[prev - 1].term;
      }
      var collected := CollectEntries(prev);
      if collected.None? {
        return None, false;
      }
      var sent := collected.value;
      request := Some(AppendRequest(currentTerm, nodeId, prev, prevTerm, sent, commitIndex));
      ok := HandleReply(peer, next, sent, reply);
    }

    /** What the leader does with the peer's reply (None when the RPC failed). */
    method HandleReply(peer: int, next: int, sent: seq<LogEntry>, reply: Option<AppendReply>) returns (ok: bool)
      modifies this
      ensures (View(), ok) == ReplyStep(old(View()), peers, peer, next, sent, reply)
    {
      ok := true;
      if reply.None? {
        return;
      }
      var response := reply.value;
      if response.term > currentTerm {
        currentTerm, role, votedFor := response.term, Follower, None;
        return;
      }
      if response.success {
        if |sent| > 0 {
          var last := sent[|sent| - 1].index;
          nextIndex := nextIndex[peer := last + 1];
          matchIndex := matchIndex[peer := last];
          ok := UpdateCommitIndex();
        }
      } else {
        nextIndex := nextIndex[peer := Max(1, next - 1)];
      }
    }
  }
}
