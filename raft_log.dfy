/** The Raft node's durable state: the entry log, the (term, vote) metadata record and the
    snapshot cursor of the log compactor. */
module RaftLog {
  import opened Common
  import opened BigEndian

  /** A client command as the log carries it: its JSON text, which the log never inspects. */
  type Command = string

  datatype LogEntry = LogEntry(term: int, index: int, command: Command)

  /** Entry k (counting from 0) carries index k + 1: the indices are 1..|log| with no gaps. */
  ghost predicate GapFree(log: seq<LogEntry>) {
    forall k :: 0 <= k < |log| ==> log[k].index == k + 1
  }

  /** The log after `append(term, command)`: the new entry gets the next index. */
  function Appended(log: seq<LogEntry>, term: int, command: Command): (r: seq<LogEntry>)
    ensures |r| == |log| + 1 && r[..|log|] == log
    ensures r[|log|].index == |log| + 1 && r[|log|].term == term
    ensures GapFree(log) ==> GapFree(r)
  {
    log + [LogEntry(term, |log| + 1, command)]
  }

  /** `get(index)`: the entry at a 1-based position, if there is one. */
  function Lookup(log: seq<LogEntry>, index: int): (r: Option<LogEntry>)
    ensures r.Some? <==> 1 <= index <= |log|
    ensures r.Some? ==> r.value == log[index - 1]
  {
    if 1 <= index <= |log| then Some(log[index - 1]) else None
  }

  /** `get_range(start, end)`: the Python slice `entries[start - 1:end]`. */
  function Range(log: seq<LogEntry>, start: int, end: Option<int>): seq<LogEntry> {
    PySlice(log, start - 1, if end.None? then |log| else end.value)
  }

  function LastTerm(log: seq<LogEntry>): int {
    if |log| > 0 then log[|log| - 1].term else 0
  }

  /** `truncate_from(index)`: when index <= len, the log becomes `entries[:index - 1]`;
      the slice bound is a Python one, so index 0 drops only the final entry. */
  function TruncatedFrom(log: seq<LogEntry>, index: int): (r: seq<LogEntry>)
    ensures |r| <= |log| && r == log[..|r|]
  {
    if index <= |log| then PySlice(log, 0, index - 1) else log
  }

  lemma AppendedThenLookup(log: seq<LogEntry>, term: int, command: Command, i: int)
    ensures Lookup(Appended(log, term, command), i) ==
      if i == |log| + 1 then Some(LogEntry(term, |log| + 1, command)) else Lookup(log, i)
  {
  }

  /** In a gap-free log the entry found at position i carries index i. */
  lemma LookupIndex(log: seq<LogEntry>, i: int)
    requires GapFree(log) && Lookup(log, i).Some?
    ensures Lookup(log, i).value.index == i
  {
  }

  /** A range with bounds inside the log is the plain subsequence, and in a gap-free log its
      indices run from start upwards. */
  lemma RangeIndices(log: seq<LogEntry>, start: int, end: Option<int>)
    requires 1 <= start
    ensures end.None? && start <= |log| + 1 ==> Range(log, start, end) == log[start - 1..]
    ensures end.Some? && start - 1 <= end.value <= |log| ==>
      Range(log, start, end) == log[start - 1..end.value]
    ensures GapFree(log) ==>
      forall k :: 0 <= k < |Range(log, start, end)| ==> Range(log, start, end)[k].index == start + k
  {
    var r := Range(log, start, end);
    if GapFree(log) && |r| > 0 {
      var a := SliceBound(start - 1, |log|);
      assert a == start - 1;
      forall k | 0 <= k < |r| ensures r[k].index == start + k {
        assert r[k] == log[a + k];
      }
    }
  }

  /** `truncate_from` keeps exactly the first index - 1 entries when 1 <= index <= len, leaves
      a longer-than-log index alone, and keeps the log gap-free either way. */
  lemma TruncatedFromKeeps(log: seq<LogEntry>, index: int)
    ensures 1 <= index <= |log| ==> TruncatedFrom(log, index) == log[..index - 1]
    ensures index > |log| ==> TruncatedFrom(log, index) == log
    ensures GapFree(log) ==> GapFree(TruncatedFrom(log, index))
  {
  }

  /** `truncate_from(0)` is not a no-op: the slice `entries[:-1]` drops the final entry. */
  lemma TruncatedFromZero(log: seq<LogEntry>)
    requires |log| > 0
    ensures TruncatedFrom(log, 0) == log[..|log| - 1]
  {
  }

  /** `last_index` and `last_term` after an append: the log is one longer and ends with the
      new entry's term; in a gap-free log the last index is also the final entry's index. */
  lemma LastAfterAppend(log: seq<LogEntry>, term: int, command: Command)
    requires GapFree(log)
    ensures |log| > 0 ==> log[|log| - 1].index == |log|
    ensures var r := Appended(log, term, command); |r| == |log| + 1 && LastTerm(r) == term && r[|r| - 1].index == |r|
  {
  }

  /** The in-memory entry list of a persistent log. Writing the entries to the log file is
      not modelled. */
  class PersistentLog {
    var entries: seq<LogEntry>

    constructor ()
      ensures entries == []
    {
      entries := [];
    }

    method Append(term: int, command: Command) returns (entry: LogEntry)
      modifies this
      ensures entries == Appended(old(entries), term, command)
      ensures entry == entries[|entries| - 1]
    {
      entry := LogEntry(term, |entries| + 1, command);
      entries := entries + [entry];
    }

    /** `get(index)`: the entry at a 1-based position, which in a gap-free log carries that
        index. */
    function Get(index: int): (r: Option<LogEntry>)
      reads this
      ensures r.Some? <==> 1 <= index <= |entries|
      ensures r.Some? ==> r.value == entries[index - 1]
      ensures r.Some? && GapFree(entries) ==> r.value.index == index
    {
      Lookup(entries, index)
    }

    /** `get_range(start, end)`: a contiguous run of the log, whose indices in a gap-free log
        run from `start` up. */
    function GetRange(start: int, end: Option<int>): (r: seq<LogEntry>)
      reads this
      ensures 1 <= start && end.None? && start <= |entries| + 1 ==> r == entries[start - 1..]
      ensures 1 <= start && end.Some? && start - 1 <= end.value <= |entries| ==> r == entries[start - 1..end.value]
      ensures 1 <= start && GapFree(entries) ==> forall k :: 0 <= k < |r| ==> r[k].index == start + k
    {
      if 1 <= start then RangeIndices(entries, start, end); Range(entries, start, end)
      else Range(entries, start, end)
    }

    /** `last_index()`: the number of entries, which in a gap-free log is the final entry's
        index. */
    function LastIndex(): (r: nat)
      reads this
      ensures r == |entries|
      ensures r > 0 && GapFree(entries) ==> entries[r - 1].index == r
    {
      |entries|
    }

    /** `last_term()`: the final entry's term, 0 for an empty log. */
    function LastLogTerm(): (r: int)
      reads this
      ensures |entries| == 0 ==> r == 0
      ensures |entries| > 0 ==> r == entries[|entries| - 1].term
    {
      LastTerm(entries)
    }

    method TruncateFrom(index: int)
      modifies this
      ensures entries == TruncatedFrom(old(entries), index)
    {
      if index <= |entries| {
        entries := PySlice(entries, 0, index - 1);
      }
    }
  }

  // ---------------------------------------------------------------------------------------
  // Metadata: '>Q q' = current_term as an unsigned 64-bit field, then the vote as a signed
  // 64-bit field, with -1 standing for "no vote".

  /** The vote as it is written: None becomes -1. */
  function VoteField(vote: Option<int>): int {
    if vote.None? then -1 else vote.value
  }

  /** The 16 bytes `_save` writes, or None where `struct.pack` raises for a field out of range. */
  function MetadataRecord(term: int, vote: Option<int>): (r: Option<seq<byte>>)
    ensures r.Some? <==> FitsUnsigned(term, 8) && FitsSigned(VoteField(vote), 8)
    ensures r.Some? ==> |r.value| == 16
  {
    var v := VoteField(vote);
    if FitsUnsigned(term, 8) && FitsSigned(v, 8) then Some(Encode(term, 8) + EncodeSigned(v, 8))
    else None
  }

  /** The (term, vote) that `_load` takes from the file's bytes: any negative vote reads back
      as None, and a file shorter than 16 bytes leaves the initial (0, None). */
  function LoadMetadata(data: seq<byte>): (int, Option<int>) {
    if |data| >= 16 then
      var v := DecodeSigned(data[8..16]);
      (Decode(data[..8]), if v >= 0 then Some(v) else None)
    else (0, None)
  }

  /** A saved (term, vote) pair loads back as itself, for every vote that is absent or a
      non-negative node id. */
  lemma MetadataRoundTrip(term: int, vote: Option<int>)
    requires MetadataRecord(term, vote).Some?
    requires vote.None? || vote.value >= 0
    ensures LoadMetadata(MetadataRecord(term, vote).value) == (term, vote)
  {
    var a, b := Encode(term, 8), EncodeSigned(VoteField(vote), 8);
    SplitPrefix(a, b);
    assert (a + b)[8..16] == b;
    DecodeEncode(term, 8);
    DecodeEncodeSigned(VoteField(vote), 8);
  }

  /** A negative node id given as the vote is saved, but loads back as no vote at all. */
  lemma NegativeVoteLoadsAsNone(term: int, v: int)
    requires MetadataRecord(term, Some(v)).Some? && v < 0
    ensures LoadMetadata(MetadataRecord(term, Some(v)).value) == (term, None)
  {
    var a, b := Encode(term, 8), EncodeSigned(v, 8);
    SplitPrefix(a, b);
    assert (a + b)[8..16] == b;
    DecodeEncode(term, 8);
    DecodeEncodeSigned(v, 8);
  }

  /** Current term and vote, with the bytes of the metadata file. */
  class RaftMetadata {
    var currentTerm: int
    var votedFor: Option<int>
    var file: seq<byte>

    /** Loads from the metadata file; `stored` is None when the file does not exist. */
    constructor (stored: Option<seq<byte>>)
      ensures stored.None? ==> currentTerm == 0 && votedFor == None && file == []
      ensures stored.Some? ==> (currentTerm, votedFor) == LoadMetadata(stored.value) && file == stored.value
    {
      currentTerm, votedFor := 0, None;
      file := [];
      if stored.Some? {
        var data := stored.value;
        file := data;
        if |data| >= 16 {
          var v := DecodeSigned(data[8..16]);
          currentTerm := Decode(data[..8]);
          votedFor := if v >= 0 then Some(v) else None;
        }
      }
    }

    /** `_save`: the file is opened for writing (emptied) before the record is packed, so a
        field out of range leaves an empty file and reports failure. */
    method Save() returns (ok: bool)
      modifies this
      ensures currentTerm == old(currentTerm) && votedFor == old(votedFor)
      ensures ok == MetadataRecord(currentTerm, votedFor).Some?
      ensures file == if ok then MetadataRecord(currentTerm, votedFor).value else []
    {
      var r := MetadataRecord(currentTerm, votedFor);
      if r.Some? {
        file, ok := r.value, true;
      } else {
        file, ok := [], false;
      }
    }

    method SetTerm(term: int) returns (ok: bool)
      modifies this
      ensures currentTerm == term && votedFor == None
      ensures ok == MetadataRecord(term, None).Some?
      ensures ok ==> LoadMetadata(file) == (term, None)
    {
      currentTerm, votedFor := term, None;
      ok := Save();
      if ok {
        MetadataRoundTrip(term, None);
      }
    }

    method SetVotedFor(nodeId: Option<int>) returns (ok: bool)
      modifies this
      ensures currentTerm == old(currentTerm) && votedFor == nodeId
      ensures ok == MetadataRecord(currentTerm, nodeId).Some?
      ensures ok && (nodeId.None? || nodeId.value >= 0) ==> LoadMetadata(file) == (currentTerm, nodeId)
    {
      votedFor := nodeId;
      ok := Save();
      if ok && (nodeId.None? || nodeId.value >= 0) {
        MetadataRoundTrip(currentTerm, nodeId);
      }
    }

    method Update(term: int, vote: Option<int>) returns (ok: bool)
      modifies this
      ensures currentTerm == term && votedFor == vote
      ensures ok == MetadataRecord(term, vote).Some?
      ensures ok && (vote.None? || vote.value >= 0) ==> LoadMetadata(file) == (term, vote)
    {
      currentTerm, votedFor := term, vote;
      ok := Save();
      if ok && (vote.None? || vote.value >= 0) {
        MetadataRoundTrip(term, vote);
      }
    }
  }

  // ---------------------------------------------------------------------------------------
  // Log compaction cursor.

  datatype Cursor = Cursor(lastIncludedIndex: int, lastIncludedTerm: int)

  /** `should_compact`: more than `threshold` entries lie past the snapshot. */
  function ShouldCompact(lastIndex: int, c: Cursor, threshold: int): bool {
    lastIndex - c.lastIncludedIndex > threshold
  }

  /** The cursor `create_snapshot(state, lastApplied)` moves to, or None when it refuses. */
  function SnapshotCursor(c: Cursor, log: seq<LogEntry>, lastApplied: int): (r: Option<Cursor>)
    ensures r.Some? <==> c.lastIncludedIndex < lastApplied && 1 <= lastApplied <= |log|
    ensures r.Some? ==> r.value == Cursor(lastApplied, log[lastApplied - 1].term)
  {
    if lastApplied <= c.lastIncludedIndex then None
    else match Lookup(log, lastApplied) {
      case None => None
      case Some(e) => Some(Cursor(lastApplied, e.term))
    }
  }

  /** Every successful snapshot moves the cursor strictly forward, so it never returns to an
      index it has passed, and it always points into the log. */
  lemma SnapshotAdvances(c: Cursor, log: seq<LogEntry>, lastApplied: int)
    requires SnapshotCursor(c, log, lastApplied).Some?
    ensures SnapshotCursor(c, log, lastApplied).value.lastIncludedIndex > c.lastIncludedIndex
    ensures 1 <= SnapshotCursor(c, log, lastApplied).value.lastIncludedIndex <= |log|
  {
  }

  /** Appending never turns `should_compact` off, and a snapshot never turns it on. */
  lemma CompactionTrigger(log: seq<LogEntry>, c: Cursor, threshold: int, term: int, command: Command, lastApplied: int)
    ensures ShouldCompact(|log|, c, threshold) ==> ShouldCompact(|Appended(log, term, command)|, c, threshold)
    ensures SnapshotCursor(c, log, lastApplied).Some? && !ShouldCompact(|log|, c, threshold) ==>
      !ShouldCompact(|log|, SnapshotCursor(c, log, lastApplied).value, threshold)
  {
  }

  /** What a snapshot file holds; the state machine's state is an uninterpreted JSON text. */
  datatype Snapshot = Snapshot(cursor: Cursor, state: string)

  class LogCompactor {
    const log: PersistentLog
    const compactThreshold: int
    var cursor: Cursor
    var snapshot: Option<Snapshot>

    constructor (log: PersistentLog, compactThreshold: int)
      ensures this.log == log && this.compactThreshold == compactThreshold
      ensures cursor == Cursor(0, 0) && snapshot == None
    {
      this.log := log;
      this.compactThreshold := compactThreshold;
      cursor := Cursor(0, 0);
      snapshot := None;
    }

    /** `should_compact()`: more than the threshold of entries lie past the snapshot;
        appending never turns it off, a snapshot never turns it on (`CompactionTrigger`). */
    function NeedsCompaction(): (r: bool)
      reads this, log
      ensures r <==> |log.entries| > cursor.lastIncludedIndex + compactThreshold
    {
      ShouldCompact(log.LastIndex(), cursor, compactThreshold)
    }

    method CreateSnapshot(state: string, lastApplied: int) returns (ok: bool)
      modifies this
      ensures ok == SnapshotCursor(old(cursor), log.entries, lastApplied).Some?
      ensures ok ==> cursor == SnapshotCursor(old(cursor), log.entries, lastApplied).value
      ensures ok ==> snapshot == Some(Snapshot(cursor, state))
      ensures !ok ==> cursor == old(cursor) && snapshot == old(snapshot)
    {
      if lastApplied <= cursor.lastIncludedIndex {
        return false;
      }
      var entry := log.Get(lastApplied);
      if entry.None? {
        return false;
      }
      cursor := Cursor(lastApplied, entry.value.term);
      snapshot := Some(Snapshot(cursor, state));
      ok := true;
    }
  }
}
